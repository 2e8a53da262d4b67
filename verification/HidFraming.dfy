/**
  The packet framing of cli/nanos.go:14-119 (the same code is tools/coin-decrypt-test/nanos.go):
  messages are prefixed with their length and cut into numbered 64-byte packets; a reader hands the
  payload out in whatever portions it is asked for.
 */
module HidFraming {
  import Arithmetic
  import opened Numerals
  import opened Wrappers
  import opened Buffers

  const PACKET := 64
  const HEADER := 5
  const PAYLOAD := 59

  function Min(a: nat, b: nat): nat {
    if a <= b then a else b
  }

  /** A 16-bit number, most significant byte first. */
  function Be16(n: nat): (s: seq<Byte>)
    ensures |s| == 2
  {
    [n / 256 % 256, n % 256]
  }

  /** Channel 0x0101, command tag 5 and the sequence number. */
  function Header(n: nat): (s: seq<Byte>)
    ensures |s| == HEADER
  {
    var fixed: seq<Byte> := [1, 1, 5];
    fixed + Be16(n)
  }

  function Value16(s: seq<Byte>): nat
    requires |s| == 2
  {
    var high: nat, low: nat := s[0], s[1];
    high * 256 + low
  }

  lemma Value16OfBe16(n: nat)
    requires n < 0x1_0000
    ensures Value16(Be16(n)) == n
  {
  }

  // ---------- writing ----------

  /** The packets for `data`, numbered from `n`; the last one may be short. */
  function Chunks(data: seq<Byte>, n: nat): (r: seq<seq<Byte>>)
    ensures |r| == (|data| + PAYLOAD - 1) / PAYLOAD
    decreases |data|
  {
    if data == [] then []
    else
      var k := Min(PAYLOAD, |data|);
      [Header(n) + data[..k]] + Chunks(data[k..], (n + 1) % 0x1_0000)
  }

  /** The length prefix is 16 bits wide, so it wraps for longer messages. */
  function Prefixed(p: seq<Byte>): seq<Byte> {
    Be16(|p| % 0x1_0000) + p
  }

  function Packets(p: seq<Byte>): seq<seq<Byte>> {
    Chunks(Prefixed(p), 0)
  }

  // ---------- what is written, byte by byte ----------

  /**
    Packets that carry `data` by the rules of the transport: as few as possible, each with channel
    0x0101, tag 5 and its big-endian number (modulo 2^16), then the next 59 bytes.
   */
  ghost predicate Carries(packets: seq<seq<Byte>>, data: seq<Byte>) {
    && |packets| == (|data| + 58) / 59
    && forall i :: 0 <= i < |packets| ==> CarriesPart(packets[i], i % 0x1_0000, data, 59 * i)
  }

  ghost predicate CarriesPart(packet: seq<Byte>, n: nat, data: seq<Byte>, from: nat) {
    && from <= |data| && |packet| == 5 + Min(59, |data| - from)
    && packet[0] == 1 && packet[1] == 1 && packet[2] == 5 && packet[3] == n / 256 && packet[4] == n % 256
    && forall k :: 5 <= k < |packet| ==> packet[k] == data[from + k - 5]
  }

  /** The next 59 bytes, or as many as there are. */
  function Part(data: seq<Byte>, from: nat): seq<Byte>
    requires from <= |data|
  {
    data[from..from + Min(59, |data| - from)]
  }

  lemma PartIs(packet: seq<Byte>, n: nat, data: seq<Byte>, from: nat)
    requires n < 0x1_0000 && from <= |data|
    ensures CarriesPart(packet, n, data, from) <==> packet == Header(n) + Part(data, from)
  {
    var whole := Header(n) + Part(data, from);
    assert n / 256 % 256 == n / 256;
    if CarriesPart(packet, n, data, from) {
      assert forall k :: 0 <= k < |packet| ==> packet[k] == whole[k];
    }
  }

  lemma {:induction false} ChunkAt(data: seq<Byte>, n: nat, i: nat)
    requires n < 0x1_0000 && i < |Chunks(data, n)|
    ensures 59 * i <= |data| && Chunks(data, n)[i] == Header((n + i) % 0x1_0000) + Part(data, 59 * i)
    decreases i
  {
    hide Header, Chunks, Part;
    if data == [] {
      NoChunks(data, n);
    }
    NextChunk(data, n);
    if i == 0 {
      FirstPart(data);
    } else {
      var k := Min(PAYLOAD, |data|);
      ChunkAt(data[k..], (n + 1) % 0x1_0000, i - 1);
      LaterPart(data, 59 * (i - 1));
      assert ((n + 1) % 0x1_0000 + (i - 1)) % 0x1_0000 == (n + i) % 0x1_0000;
    }
  }

  lemma FirstPart(data: seq<Byte>)
    ensures Part(data, 0) == data[..Min(PAYLOAD, |data|)]
  {
  }

  lemma LaterPart(data: seq<Byte>, from: nat)
    requires Min(PAYLOAD, |data|) + from <= |data|
    ensures |data| >= 59 || from == 0
    ensures |data| >= 59 ==> Part(data[Min(PAYLOAD, |data|)..], from) == Part(data, 59 + from)
  {
  }

  /** The rules leave no choice, and the writer follows them. */
  lemma CarriesExact(packets: seq<seq<Byte>>, data: seq<Byte>)
    ensures Carries(packets, data) <==> packets == Chunks(data, 0)
  {
    hide Header, Chunks, CarriesPart;
    var chunks := Chunks(data, 0);
    forall i | 0 <= i < |chunks|
      ensures 59 * i <= |data|
      ensures forall packet :: CarriesPart(packet, i % 0x1_0000, data, 59 * i) <==> packet == chunks[i]
    {
      ChunkAt(data, 0, i);
      forall packet
        ensures CarriesPart(packet, i % 0x1_0000, data, 59 * i) <==> packet == chunks[i]
      {
        PartIs(packet, i % 0x1_0000, data, 59 * i);
      }
    }
  }

  /** A message goes out with its length, modulo 2^16, in two big-endian bytes before it. */
  lemma WrittenBytes(p: seq<Byte>)
    ensures var length: seq<Byte> := [|p| % 0x1_0000 / 256, |p| % 256];
            Carries(Packets(p), length + p)
  {
    hide Chunks, Carries, Be16;
    LengthBytes(|p|);
    CarriesExact(Packets(p), Prefixed(p));
  }

  lemma LengthBytes(n: nat)
    ensures Be16(n % 0x1_0000) == [n % 0x1_0000 / 256, n % 256]
    ensures n < 0x1_0000 ==> n % 0x1_0000 == n
  {
    var m := n % 0x1_0000;
    Arithmetic.DivModUnique(n, 256, n / 0x1_0000 * 256 + m / 256, m % 256);
    Arithmetic.DivModUnique(m / 256, 256, 0, m / 256);
  }

  /**
    The other end: packets waiting to be read, packets written, how many writes still succeed, the
    count a failing write reports, and whether an empty inbox reads as the end of the input.
   */
  class Device {
    var inbox: seq<seq<Byte>>
    var outbox: seq<seq<Byte>>
    var room: nat
    const partial: nat
    const eof: bool

    constructor (inbox: seq<seq<Byte>>, room: nat, partial: nat, eof: bool)
      ensures this.inbox == inbox && outbox == [] && this.room == room && this.partial == partial && this.eof == eof
    {
      this.inbox, outbox, this.room, this.partial, this.eof := inbox, [], room, partial, eof;
    }

    method WritePacket(packet: seq<Byte>) returns (n: nat, ok: bool)
      modifies this
      ensures inbox == old(inbox) && ok == (old(room) > 0) && n == if ok then |packet| else partial
      ensures outbox == if ok then old(outbox) + [packet] else old(outbox)
      ensures room == if ok then old(room) - 1 else old(room)
    {
      ok, n := room > 0, partial;
      if ok {
        outbox, room, n := outbox + [packet], room - 1, |packet|;
      }
    }

    /** One packet, cut to the buffer; None when there is nothing to read. */
    method ReadPacket(buf: array<Byte>) returns (n: Option<nat>)
      modifies this, buf
      ensures outbox == old(outbox) && room == old(room)
      ensures n.None? <==> old(inbox) == []
      ensures n.None? ==> inbox == old(inbox) && buf[..] == old(buf[..])
      ensures n.Some? ==> inbox == old(inbox)[1..] && n.value == Min(buf.Length, |old(inbox)[0]|)
      ensures n.Some? ==> buf[..] == old(inbox)[0][..n.value] + old(buf[n.value..])
    {
      if inbox == [] {
        return None;
      }
      var packet := inbox[0];
      inbox := inbox[1..];
      var k := Min(buf.Length, |packet|);
      PutFront(buf[..], packet[..k]);
      Write(buf, 0, packet[..k]);
      n := Some(k);
    }
  }

  // ---------- reading, as a state machine ----------

  datatype State = State(seqNo: nat, buf: seq<Byte>, pos: nat, inbox: seq<seq<Byte>>, eof: bool)

  datatype ReadResult =
    | Data(bytes: seq<Byte>)
    | IoError
    | Eof
    | UnexpectedEof
    | BadChannel(id: nat)
    | BadTag(tag: Byte)
    | BadSequence(got: nat, expected: nat)
    | Panic

  /** The error of a device that has nothing to read. */
  function Ending(eof: bool): ReadResult {
    if eof then Eof else IoError
  }

  predicate Sound(s: State) {
    s.seqNo < 0x1_0000 && |s.buf| == PACKET && s.pos <= PACKET && (s.seqNo > 0 ==> HEADER <= s.pos)
  }

  /** The next packet and its header: the buffer takes it, the sequence number advances if all is well. */
  function FetchPacket(s: State): (r: (State, Option<ReadResult>))
    requires |s.buf| == PACKET && s.seqNo < 0x1_0000
    ensures |r.0.buf| == PACKET && r.0.seqNo < 0x1_0000 && r.0.pos == s.pos
    ensures r.1.Some? ==> r.0.seqNo == s.seqNo && !r.1.value.Data?
  {
    if s.inbox == [] then (s, Some(Ending(s.eof)))
    else
      var packet := s.inbox[0];
      var k := Min(PACKET, |packet|);
      var t := s.(buf := packet[..k] + s.buf[k..], inbox := s.inbox[1..]);
      if k != PACKET then (t, Some(Panic))
      else if Value16(t.buf[..2]) != 0x0101 then (t, Some(BadChannel(Value16(t.buf[..2]))))
      else if t.buf[2] != 0x05 then (t, Some(BadTag(t.buf[2])))
      else if Value16(t.buf[3..5]) != s.seqNo then (t, Some(BadSequence(Value16(t.buf[3..5]), s.seqNo)))
      else (t.(seqNo := (s.seqNo + 1) % 0x1_0000), None)
  }

  /** `hidFramer.Read` with room for `size` bytes. */
  function ReadStep(s: State, size: nat): (r: (State, ReadResult))
    requires Sound(s)
    ensures Sound(r.0) && (r.1.Data? ==> |r.1.bytes| <= size && (size > 0 ==> |r.1.bytes| > 0))
  {
    if s.seqNo > 0 && s.pos != PACKET then
      var n := Min(size, PACKET - s.pos);
      (s.(pos := s.pos + n), Data(s.buf[s.pos..s.pos + n]))
    else
      var (t, error) := FetchPacket(s);
      if error.Some? then (t, error.value)
      else
        var n := Min(size, PAYLOAD);
        (t.(pos := HEADER + n), Data(t.buf[HEADER..HEADER + n]))
  }

  /**
    `io.ReadFull`: what was read and whether it is everything that was asked for. An end of input
    after some bytes were read becomes an unexpected one.
   */
  function ReadFull(s: State, size: nat): (r: (State, seq<Byte>, ReadResult))
    requires Sound(s)
    ensures Sound(r.0) && |r.1| <= size && (r.2.Data? ==> |r.1| == size)
    decreases size
  {
    if size == 0 then (s, [], Data([]))
    else
      var (t, d) := ReadStep(s, size);
      if d.Data? then
        var (u, rest, last) := ReadFull(t, size - |d.bytes|);
        (u, d.bytes + rest, if last.Eof? then UnexpectedEof else last)
      else (t, [], d)
  }

  // ---------- packets from a well-formed peer ----------

  /** Complete packets with the right headers, numbered from `n`. */
  predicate Numbered(packets: seq<seq<Byte>>, n: nat) {
    forall i :: 0 <= i < |packets| ==> |packets[i]| == PACKET && packets[i][..HEADER] == Header(n + i)
  }

  function Stream(packets: seq<seq<Byte>>): seq<Byte>
    requires forall i :: 0 <= i < |packets| ==> |packets[i]| == PACKET
  {
    if packets == [] then [] else packets[0][HEADER..] + Stream(packets[1..])
  }

  /** What the buffer still holds. */
  function Buffered(s: State): seq<Byte>
    requires Sound(s)
  {
    if s.seqNo > 0 then s.buf[s.pos..] else []
  }

  /** Everything a reader will still see of `packets`, the front of the inbox. */
  function Pending(s: State, packets: seq<seq<Byte>>): seq<Byte>
    requires Sound(s) && Numbered(packets, s.seqNo)
  {
    Buffered(s) + Stream(packets)
  }

  lemma HeaderParses(packet: seq<Byte>, n: nat)
    requires |packet| == PACKET && packet[..HEADER] == Header(n) && n < 0x1_0000
    ensures Value16(packet[..2]) == 0x0101 && packet[2] == 5 && Value16(packet[3..5]) == n
  {
    Value16OfBe16(n);
    assert packet[..2] == packet[..HEADER][..2] == [1, 1];
    assert packet[2] == packet[..HEADER][2];
    assert packet[3..5] == packet[..HEADER][3..5] == Be16(n);
  }

  /** The packets still unread after a step. */
  ghost function Left(s: State, packets: seq<seq<Byte>>): seq<seq<Byte>>
    requires Sound(s)
  {
    if Buffered(s) == [] && packets != [] then packets[1..] else packets
  }

  /** The reader is inside a stream of numbered packets, which it has not run past. */
  ghost predicate Reading(s: State, packets: seq<seq<Byte>>, rest: seq<seq<Byte>>) {
    Sound(s) && s.inbox == packets + rest && s.seqNo + |packets| < 0x1_0000 && Numbered(packets, s.seqNo)
  }

  /** One read takes a portion off the front of the pending bytes and leaves less than a packet buffered. */
  ghost predicate Portion(s: State, packets: seq<seq<Byte>>, rest: seq<seq<Byte>>, size: nat, r: (State, ReadResult))
    requires Reading(s, packets, rest)
  {
    var left := Left(s, packets);
    Reading(r.0, left, rest) && r.1.Data? && r.0.seqNo + |left| == s.seqNo + |packets|
    && Pending(s, packets) == r.1.bytes + Pending(r.0, left)
    && (size > 0 ==> |Buffered(r.0)| < PAYLOAD)
  }

  lemma ReadStepGood(s: State, packets: seq<seq<Byte>>, rest: seq<seq<Byte>>, size: nat)
    requires Reading(s, packets, rest) && Pending(s, packets) != []
    ensures Portion(s, packets, rest, size, ReadStep(s, size))
  {
    if Buffered(s) != [] {
      DrainGood(s, packets, rest, size);
    } else {
      FetchGood(s, packets, rest, size);
    }
  }

  lemma DrainGood(s: State, packets: seq<seq<Byte>>, rest: seq<seq<Byte>>, size: nat)
    requires Reading(s, packets, rest) && Buffered(s) != []
    ensures Portion(s, packets, rest, size, ReadStep(s, size))
  {
    hide Numbered, Stream, ReadStep;
    NumberedSizes(packets, s.seqNo);
    var n := Min(size, PACKET - s.pos);
    var t := s.(pos := s.pos + n);
    DrainStep(s, size);
    assert Left(s, packets) == packets && Reading(t, packets, rest);
    assert Buffered(s) == s.buf[s.pos..] && Buffered(t) == t.buf[t.pos..];
    SplitBuffered(s.buf, s.pos, n, Stream(packets));
  }

  lemma SplitBuffered(buf: seq<Byte>, pos: nat, n: nat, more: seq<Byte>)
    requires pos + n <= |buf|
    ensures buf[pos..] + more == buf[pos..pos + n] + (buf[pos + n..] + more)
  {
  }

  lemma DrainStep(s: State, size: nat)
    requires Sound(s) && Buffered(s) != []
    ensures ReadStep(s, size).0.inbox == s.inbox
    ensures var n := Min(size, PACKET - s.pos);
            ReadStep(s, size) == (s.(pos := s.pos + n), Data(s.buf[s.pos..s.pos + n]))
  {
  }

  lemma FetchGood(s: State, packets: seq<seq<Byte>>, rest: seq<seq<Byte>>, size: nat)
    requires Reading(s, packets, rest) && Buffered(s) == [] && Pending(s, packets) != []
    ensures Portion(s, packets, rest, size, ReadStep(s, size))
  {
    hide ReadStep, Numbered, Stream, Header;
    NumberedSizes(packets, s.seqNo);
    StreamHead(packets);
    var packet := packets[0];
    assert s.inbox[0] == packet && s.inbox[1..] == packets[1..] + rest;
    NumberedTail(packets, s.seqNo);
    FetchStep(s, size);
    var n := Min(size, PAYLOAD);
    var (t, d) := ReadStep(s, size);
    var more := Stream(packets[1..]);
    assert Buffered(t) == packet[HEADER + n..];
    assert Pending(s, packets) == packet[HEADER..] + more;
    SplitPending(packet, n, more);
  }

  lemma SplitPending(packet: seq<Byte>, n: nat, more: seq<Byte>)
    requires HEADER + n <= |packet|
    ensures packet[HEADER..] + more == packet[HEADER..HEADER + n] + (packet[HEADER + n..] + more)
  {
  }

  lemma StreamHead(packets: seq<seq<Byte>>)
    requires forall i :: 0 <= i < |packets| ==> |packets[i]| == PACKET
    ensures packets == [] ==> Stream(packets) == []
    ensures packets != [] ==> Stream(packets) == packets[0][HEADER..] + Stream(packets[1..])
  {
  }

  /** Reading the next packet of a numbered stream. */
  lemma FetchStep(s: State, size: nat)
    requires Sound(s) && Buffered(s) == [] && s.inbox != [] && s.seqNo + 1 < 0x1_0000
    requires |s.inbox[0]| == PACKET && s.inbox[0][..HEADER] == Header(s.seqNo)
    ensures var packet, n := s.inbox[0], Min(size, PAYLOAD);
            var t := State(s.seqNo + 1, packet, HEADER + n, s.inbox[1..], s.eof);
            ReadStep(s, size) == (t, Data(packet[HEADER..HEADER + n]))
  {
    HeaderParses(s.inbox[0], s.seqNo);
    assert s.inbox[0][..PACKET] + s.buf[PACKET..] == s.inbox[0];
  }

  lemma NumberedTail(packets: seq<seq<Byte>>, n: nat)
    requires packets != [] && Numbered(packets, n)
    ensures Numbered(packets[1..], n + 1) && |packets[0]| == PACKET && packets[0][..HEADER] == Header(n)
  {
    forall i | 0 <= i < |packets[1..]|
      ensures |packets[1..][i]| == PACKET && packets[1..][i][..HEADER] == Header(n + 1 + i)
    {
      assert packets[1..][i] == packets[i + 1];
    }
  }

  lemma {:induction false} StreamLength(packets: seq<seq<Byte>>)
    requires forall i :: 0 <= i < |packets| ==> |packets[i]| == PACKET
    ensures |Stream(packets)| == PAYLOAD * |packets|
  {
    if packets != [] {
      StreamLength(packets[1..]);
    }
  }

  /** Reading a full buffer takes exactly that many bytes off the front. */
  lemma {:induction false} ReadFullGood(s: State, packets: seq<seq<Byte>>, rest: seq<seq<Byte>>, size: nat)
    returns (left: seq<seq<Byte>>)
    requires Reading(s, packets, rest) && size <= |Pending(s, packets)|
    ensures var (t, got, last) := ReadFull(s, size);
            last.Data? && Reading(t, left, rest) && t.seqNo + |left| == s.seqNo + |packets|
            && got == Pending(s, packets)[..size] && Pending(t, left) == Pending(s, packets)[size..]
            && (size > 0 ==> |Buffered(t)| < PAYLOAD) && (size == 0 ==> t == s && left == packets)
    decreases size
  {
    hide Numbered, Stream, ReadStep;
    if size == 0 {
      left := packets;
    } else {
      ReadStepGood(s, packets, rest, size);
      var (t, d) := ReadStep(s, size);
      left := Left(s, packets);
      var n := |d.bytes|;
      var before, after := Pending(s, packets), Pending(t, left);
      left := ReadFullGood(t, left, rest, size - n);
      assert before[..size] == d.bytes + after[..size - n];
      assert before[size..] == after[size - n..];
    }
  }

  // ---------- runs of reads ----------

  /** The bytes handed out by reads of the given sizes, up to the first error. */
  function Reads(s: State, sizes: seq<nat>): (r: (State, seq<Byte>, bool))
    requires Sound(s)
    ensures Sound(r.0)
    decreases sizes
  {
    if sizes == [] then (s, [], true)
    else
      var (t, d) := ReadStep(s, sizes[0]);
      if d.Data? then
        var (u, more, ok) := Reads(t, sizes[1..]);
        (u, d.bytes + more, ok)
      else (t, [], false)
  }

  /**
    However the reads are cut, they return the stream in order, and fail only after all of it; while
    packets remain the sequence number counts those already read.
   */
  lemma {:induction false} ReadsInOrder(s: State, packets: seq<seq<Byte>>, sizes: seq<nat>)
    requires Reading(s, packets, [])
    ensures var (t, out, ok) := Reads(s, sizes);
            out <= Pending(s, packets) && (!ok ==> out == Pending(s, packets))
            && t.seqNo + |t.inbox| == s.seqNo + |packets|
    decreases sizes
  {
    hide Numbered, ReadStep;
    if sizes != [] {
      if Pending(s, packets) == [] {
        NothingLeft(s, packets, sizes[0]);
      } else {
        ReadStepGood(s, packets, [], sizes[0]);
        var (t, d) := ReadStep(s, sizes[0]);
        ReadsInOrder(t, Left(s, packets), sizes[1..]);
      }
    }
  }

  lemma NothingLeft(s: State, packets: seq<seq<Byte>>, size: nat)
    requires Reading(s, packets, []) && Pending(s, packets) == []
    ensures packets == [] && ReadStep(s, size) == (s, Ending(s.eof))
  {
    StreamLength(packets);
  }

  // ---------- what the writer produces is what the reader expects ----------

  /** Packets completed to 64 bytes, as a device exchanges them. */
  ghost predicate Completes(full: seq<seq<Byte>>, packets: seq<seq<Byte>>) {
    |full| == |packets| && forall i :: 0 <= i < |full| ==> |full[i]| == PACKET && packets[i] <= full[i]
  }

  /** The packets of one message: numbered from zero, as few as possible, carrying prefix and message. */
  ghost predicate IsFrame(packets: seq<seq<Byte>>, p: seq<Byte>) {
    Numbered(packets, 0) && Be16(|p|) + p <= Stream(packets)
    && |packets| == (2 + |p| + PAYLOAD - 1) / PAYLOAD
  }

  lemma {:induction false} ChunksStream(data: seq<Byte>, n: nat, full: seq<seq<Byte>>)
    requires n + |full| <= 0x1_0000 && Completes(full, Chunks(data, n))
    ensures Numbered(full, n) && data <= Stream(full)
    decreases |data|
  {
    hide Numbered, Header, Chunks, Stream;
    StreamHead(full);
    if data == [] {
      NoChunks(data, n);
      NumberedNone(full, n);
    } else {
      var k := Min(PAYLOAD, |data|);
      NextChunk(data, n);
      CompletesTail(full, Chunks(data, n));
      FirstPacket(full[0], n, data[..k]);
      if k == |data| {
        NumberedNone(full[1..], n + 1);
      } else {
        ChunksStream(data[k..], n + 1, full[1..]);
      }
      NumberedHead(full, n);
      Joined(data, k, full[0][HEADER..], Stream(full[1..]));
    }
  }

  lemma NumberedNone(packets: seq<seq<Byte>>, n: nat)
    requires packets == []
    ensures Numbered(packets, n)
  {
  }

  lemma FirstPacket(packet: seq<Byte>, n: nat, part: seq<Byte>)
    requires |packet| == PACKET && Header(n) + part <= packet && |part| <= PAYLOAD
    ensures packet[..HEADER] == Header(n) && part <= packet[HEADER..]
  {
    var whole := Header(n) + part;
    assert packet[..HEADER] == packet[..|whole|][..HEADER] == Header(n);
    assert packet[HEADER..][..|part|] == packet[..|whole|][HEADER..] == part;
  }

  lemma Joined(data: seq<Byte>, k: nat, first: seq<Byte>, more: seq<Byte>)
    requires k <= |data| && data[..k] <= first && data[k..] <= more && (k < |data| ==> |first| == k)
    ensures data <= first + more
  {
    assert data == data[..k] + data[k..];
    assert k == |data| ==> data[..k] == data;
  }

  lemma CompletesTail(full: seq<seq<Byte>>, packets: seq<seq<Byte>>)
    requires full != [] && Completes(full, packets)
    ensures Completes(full[1..], packets[1..])
  {
    forall i | 0 <= i < |full[1..]|
      ensures |full[1..][i]| == PACKET && packets[1..][i] <= full[1..][i]
    {
      assert full[1..][i] == full[i + 1] && packets[1..][i] == packets[i + 1];
    }
  }

  lemma NumberedHead(packets: seq<seq<Byte>>, n: nat)
    requires packets != [] && |packets[0]| == PACKET && packets[0][..HEADER] == Header(n)
    requires Numbered(packets[1..], n + 1)
    ensures Numbered(packets, n)
  {
    forall i | 0 <= i < |packets|
      ensures |packets[i]| == PACKET && packets[i][..HEADER] == Header(n + i)
    {
      if i > 0 {
        assert packets[i] == packets[1..][i - 1];
      }
    }
  }

  /** A written message, completed to whole packets, is a frame for that message. */
  lemma WrittenIsFrame(p: seq<Byte>, full: seq<seq<Byte>>)
    requires |p| < 0x1_0000 && Completes(full, Packets(p))
    ensures IsFrame(full, p)
  {
    hide Numbered, Stream, Chunks, Be16;
    ChunksStream(Prefixed(p), 0, full);
  }

  /**
    The reader gets back the prefix, the message and then the bytes that completed the last packet,
    however it reads; it fails only when it has handed out all of them.
   */
  lemma FramingRoundTrip(p: seq<Byte>, full: seq<seq<Byte>>, s: State, sizes: seq<nat>)
    requires |p| < 0x1_0000 && Completes(full, Packets(p)) && Sound(s) && s.seqNo == 0 && s.inbox == full
    ensures Be16(|p|) + p <= Stream(full) && |Stream(full)| - |Be16(|p|) + p| < PAYLOAD
    ensures Reads(s, sizes).1 <= Stream(full)
    ensures !Reads(s, sizes).2 ==> Reads(s, sizes).1 == Stream(full)
    ensures var out := Reads(s, sizes).1;
            out <= Be16(|p|) + p || Be16(|p|) + p <= out
  {
    hide Numbered, Be16;
    WrittenIsFrame(p, full);
    assert s.inbox == full + [];
    ReadsInOrder(s, full, sizes);
    StreamLength(full);
    var out, all, message := Reads(s, sizes).1, Stream(full), Be16(|p|) + p;
    assert Pending(s, full) == all;
    assert message <= all && out <= all;
    if |out| <= |message| {
      assert out == all[..|out|] == message[..|out|];
    } else {
      assert message == all[..|message|] == out[..|message|];
    }
  }

  // ---------- exchanges ----------

  datatype Outcome = Response(bytes: seq<Byte>) | ReadFailed(error: ReadResult) | WriteFailed | Panicked

  /** Bytes of a response buffer that a failed read left at zero. */
  function ZeroFilled(got: seq<Byte>, size: nat): (r: seq<Byte>)
    requires |got| <= size
    ensures |r| == size && got <= r
  {
    got + ZeroDigits(size - |got|)
  }

  /**
    The reading half of `apduFramer.Exchange`, from a reset: the length, then the response. An error
    in the second read is dropped, and the response keeps zeros where nothing arrived.
   */
  function Receive(s: State): (r: (State, Outcome))
    requires Sound(s)
    ensures Sound(r.0)
  {
    var (t, length, last) := ReadFull(s.(seqNo := 0), 2);
    if last.Panic? then (t, Panicked)
    else if !last.Data? then (t, ReadFailed(last))
    else
      var (u, got, last') := ReadFull(t, Value16(length));
      if last'.Panic? then (u, Panicked) else (u, Response(ZeroFilled(got, Value16(length))))
  }

  /** A frame is consumed entirely, whatever the reader held before, and yields its message. */
  lemma ReceiveFrame(s: State, packets: seq<seq<Byte>>, rest: seq<seq<Byte>>, p: seq<Byte>)
    requires Sound(s) && |p| < 0x1_0000 && IsFrame(packets, p) && s.inbox == packets + rest
    ensures Receive(s).1 == Response(p) && Receive(s).0.inbox == rest
  {
    hide Numbered, ReadFull;
    var s0 := s.(seqNo := 0);
    NumberedSizes(packets, 0);
    StreamLength(packets);
    var all := Pending(s0, packets);
    assert all == Stream(packets);
    var left := ReadFullGood(s0, packets, rest, 2);
    var (t, length, last) := ReadFull(s0, 2);
    assert length == Be16(|p|) by {
      assert all[..2] == (Be16(|p|) + p)[..2];
    }
    Value16OfBe16(|p|);
    assert all[2..][..|p|] == p by {
      assert all[..2 + |p|] == Be16(|p|) + p;
    }
    var left' := ReadFullGood(t, left, rest, |p|);
    var (u, got, last') := ReadFull(t, |p|);
    assert ZeroFilled(got, |p|) == got;
    // Less than one packet is unread, so none is left in the inbox.
    assert |Pending(u, left')| == PAYLOAD * |packets| - 2 - |p|;
    NumberedSizes(left', u.seqNo);
    StreamLength(left');
    assert left' == [];
  }

  lemma NumberedSizes(packets: seq<seq<Byte>>, n: nat)
    requires Numbered(packets, n)
    ensures forall i :: 0 <= i < |packets| ==> |packets[i]| == PACKET
  {
  }

  /** A read that takes a new packet: what it accepts, and how each refusal is told apart. */
  lemma NewPacketRead(s: State, size: nat)
    requires Sound(s) && (s.seqNo == 0 || s.pos == 64)
    ensures var (t, d) := ReadStep(s, size);
            s.inbox == [] ==> t == s && d == if s.eof then Eof else IoError
    ensures s.inbox != [] ==>
              var (t, d) := ReadStep(s, size);
              var packet := s.inbox[0];
              (d.Data? <==> |packet| >= 64 && packet[0] == 1 && packet[1] == 1 && packet[2] == 5
                            && packet[3] as nat * 256 + packet[4] as nat == s.seqNo)
              && (d.Data? ==> t == State((s.seqNo + 1) % 0x1_0000, packet[..64], 5 + Min(size, 59), s.inbox[1..], s.eof)
                              && d.bytes == packet[5..5 + Min(size, 59)])
              && (!d.Data? ==> t.seqNo == s.seqNo && t.inbox == s.inbox[1..])
              && (d.Panic? <==> |packet| < 64)
              && (d.BadChannel? <==> |packet| >= 64 && !(packet[0] == packet[1] == 1))
              && (d.BadTag? <==> |packet| >= 64 && packet[0] == packet[1] == 1 && packet[2] != 5)
  {
    if s.inbox != [] {
      var packet := s.inbox[0];
      if |packet| >= 64 {
        assert packet[..64] + s.buf[64..] == packet[..64];
        assert packet[..64][..2] == [packet[0], packet[1]] && packet[..64][3..5] == [packet[3], packet[4]];
        assert packet[0] as nat * 256 + packet[1] as nat == 0x0101 <==> packet[0] == packet[1] == 1;
        assert packet[..64][5..5 + Min(size, 59)] == packet[5..5 + Min(size, 59)];
      }
    }
  }

  /** Nothing follows, or a packet that a reader expecting number `n` refuses. */
  ghost predicate Stops(rest: seq<seq<Byte>>, n: nat) {
    rest == []
    || !(|rest[0]| >= 64 && rest[0][0] == 1 && rest[0][1] == 1 && rest[0][2] == 5
         && rest[0][3] as nat * 256 + rest[0][4] as nat == n)
  }

  /** How a read ends that runs into the stop; only a short packet ends the program. */
  ghost predicate StopError(rest: seq<seq<Byte>>, eof: bool, started: bool, last: ReadResult) {
    && !last.Data? && (last.Panic? <==> rest != [] && |rest[0]| < 64)
    && (rest == [] ==> last == if !eof then IoError else if started then UnexpectedEof else Eof)
    && (last.BadChannel? <==> rest != [] && |rest[0]| >= 64 && !(rest[0][0] == rest[0][1] == 1))
    && (last.BadTag? <==> rest != [] && |rest[0]| >= 64 && rest[0][0] == rest[0][1] == 1 && rest[0][2] != 5)
  }

  /** Asking for more than is left before a stop hands out all of it and then fails. */
  lemma {:induction false} ReadFullShort(s: State, packets: seq<seq<Byte>>, rest: seq<seq<Byte>>, size: nat)
    requires Reading(s, packets, rest) && size > |Pending(s, packets)| && Stops(rest, s.seqNo + |packets|)
    ensures var (t, got, last) := ReadFull(s, size);
            got == Pending(s, packets) && StopError(rest, s.eof, got != [], last)
    decreases size
  {
    hide Numbered, Stream, ReadStep, Stops, StopError;
    if Pending(s, packets) == [] {
      ReadStopped(s, packets, rest, size);
    } else {
      ReadStepGood(s, packets, rest, size);
      EofStays(s, size);
      var (t, d) := ReadStep(s, size);
      ReadFullShort(t, Left(s, packets), rest, size - |d.bytes|);
      var (u, more, last) := ReadFull(t, size - |d.bytes|);
      StopErrorLater(rest, s.eof, more != [], last);
    }
  }

  lemma ReadStopped(s: State, packets: seq<seq<Byte>>, rest: seq<seq<Byte>>, size: nat)
    requires Reading(s, packets, rest) && Pending(s, packets) == [] && Stops(rest, s.seqNo + |packets|)
    ensures !ReadStep(s, size).1.Data? && StopError(rest, s.eof, false, ReadStep(s, size).1)
  {
    hide ReadStep;
    StreamLength(packets);
    assert s.inbox == rest;
    NewPacketRead(s, size);
  }

  /** An end of input after some bytes is an unexpected one; every other error stays. */
  lemma StopErrorLater(rest: seq<seq<Byte>>, eof: bool, started: bool, last: ReadResult)
    requires StopError(rest, eof, started, last)
    ensures StopError(rest, eof, true, if last.Eof? then UnexpectedEof else last)
  {
  }

  lemma EofStays(s: State, size: nat)
    requires Sound(s)
    ensures ReadStep(s, size).0.eof == s.eof
  {
  }

  /**
    A response cut off after `k` packets, by silence or by a packet that is refused: a short packet
    ends the program; otherwise, without any packet the exchange reports the error, and with some the
    error of the second read is lost and the rest of the response is zeros.
   */
  lemma ReceiveCut(s: State, frame: seq<seq<Byte>>, message: seq<Byte>, k: nat, rest: seq<seq<Byte>>)
    requires Sound(s) && |message| < 0x1_0000 && IsFrame(frame, message)
    requires k < |frame| && s.inbox == frame[..k] + rest && Stops(rest, k)
    ensures Receive(s).1.Panicked? <==> rest != [] && |rest[0]| < 64
    ensures k == 0 && !Receive(s).1.Panicked? ==>
              Receive(s).1.ReadFailed? && StopError(rest, s.eof, false, Receive(s).1.error)
    ensures k > 0 ==> 59 * k - 2 < |message|
    ensures k > 0 && !Receive(s).1.Panicked? ==>
              Receive(s).1 == Response(message[..59 * k - 2] + ZeroDigits(|message| - (59 * k - 2)))
  {
    hide IsFrame, Numbered, Stream, ReadFull, Be16, Stops;
    var s0, packets := s.(seqNo := 0), frame[..k];
    FrameCut(frame, message, k);
    NumberedSizes(packets, 0);
    StreamHead([]);
    if k == 0 {
      ReadFullShort(s0, packets, rest, 2);
    } else {
      assert Pending(s0, packets) == Stream(packets);
      CutSlices(Be16(|message|), message, 59 * k);
      Value16OfBe16(|message|);
      EofOfReadFull(s0, 2);
      var left := ReadFullGood(s0, packets, rest, 2);
      ReadFullShort(ReadFull(s0, 2).0, left, rest, |message|);
    }
  }

  lemma {:induction false} EofOfReadFull(s: State, size: nat)
    requires Sound(s)
    ensures ReadFull(s, size).0.eof == s.eof
    decreases size
  {
    hide ReadStep;
    if size > 0 {
      EofStays(s, size);
      var (t, d) := ReadStep(s, size);
      if d.Data? {
        EofOfReadFull(t, size - |d.bytes|);
      }
    }
  }

  lemma CutSlices(head: seq<Byte>, message: seq<Byte>, n: nat)
    requires |head| == 2 && 2 <= n <= 2 + |message|
    ensures (head + message)[..n][..2] == head && (head + message)[..n][2..] == message[..n - 2]
  {
  }

  lemma FrameCut(frame: seq<seq<Byte>>, message: seq<Byte>, k: nat)
    requires IsFrame(frame, message) && k < |frame|
    ensures Numbered(frame[..k], 0) && 59 * k < 2 + |message|
    ensures Stream(frame[..k]) == (Be16(|message|) + message)[..59 * k]
  {
    hide Be16;
    assert forall i :: 0 <= i < k ==> frame[..k][i] == frame[i];
    StreamLength(frame[..k]);
    StreamPrefix(frame, k);
    var all, whole := Stream(frame), Be16(|message|) + message;
    assert Stream(frame[..k]) == all[..59 * k] == whole[..59 * k];
  }

  lemma {:induction false} StreamPrefix(packets: seq<seq<Byte>>, k: nat)
    requires k <= |packets| && forall i :: 0 <= i < |packets| ==> |packets[i]| == PACKET
    ensures Stream(packets[..k]) <= Stream(packets)
    decreases k
  {
    if k > 0 {
      StreamPrefix(packets[1..], k - 1);
      assert packets[..k][1..] == packets[1..][..k - 1];
      var a, b := Stream(packets[1..][..k - 1]), Stream(packets[1..]);
      assert packets[0][HEADER..] + b == (packets[0][HEADER..] + a) + b[|a|..];
    }
  }

  function Concat(frames: seq<seq<seq<Byte>>>): seq<seq<Byte>> {
    if frames == [] then [] else frames[0] + Concat(frames[1..])
  }

  datatype Apdu = Apdu(cla: Byte, ins: Byte, p1: Byte, p2: Byte, payload: seq<Byte>)

  /** The bytes of a command; the payload length takes one byte. */
  function Command(a: Apdu): seq<Byte>
    requires |a.payload| <= 255
  {
    [a.cla, a.ins, a.p1, a.p2, |a.payload|] + a.payload
  }

  /** A reader together with what was written and how many writes still succeed. */
  datatype Link = Link(reader: State, outbox: seq<seq<Byte>>, room: nat)

  /** `apduFramer.Exchange`: reset, write the packets of the command, receive. */
  function ExchangeStep(l: Link, a: Apdu): (r: (Link, Outcome))
    requires Sound(l.reader)
    ensures Sound(r.0.reader)
  {
    if |a.payload| > 255 then (l, Panicked)
    else
      var packets := Packets(Command(a));
      var sent := Min(l.room, |packets|);
      var after := Link(l.reader.(seqNo := 0), l.outbox + packets[..sent], l.room - sent);
      if sent < |packets| then (after, WriteFailed)
      else
        var (t, outcome) := Receive(after.reader);
        (after.(reader := t), outcome)
  }

  /** A run of exchanges: the final state and the outcomes. */
  function Run(l: Link, commands: seq<Apdu>): (r: (Link, seq<Outcome>))
    requires Sound(l.reader)
    ensures |r.1| == |commands|
    decreases |commands|
  {
    if commands == [] then (l, [])
    else
      var (m, first) := ExchangeStep(l, commands[0]);
      var (n, more) := Run(m, commands[1..]);
      (n, [first] + more)
  }

  /** The packets of several commands. */
  function AllPackets(commands: seq<Apdu>): seq<seq<Byte>>
    requires forall c :: c in commands ==> |c.payload| <= 255
  {
    if commands == [] then [] else Packets(Command(commands[0])) + AllPackets(commands[1..])
  }

  /**
    The packets of one command: its length, class, instruction, both parameters, the payload length
    and the payload.
   */
  ghost predicate IsRequest(packets: seq<seq<Byte>>, a: Apdu)
    requires |a.payload| <= 255
  {
    var n := |a.payload|;
    var head: seq<Byte> := [(5 + n) / 256, (5 + n) % 256, a.cla, a.ins, a.p1, a.p2, n];
    Carries(packets, head + a.payload)
  }

  lemma CommandPackets(a: Apdu)
    requires |a.payload| <= 255
    ensures IsRequest(Packets(Command(a)), a)
  {
    hide Carries, Packets, Command, Be16;
    var n := |a.payload|;
    var length: seq<Byte> := [(5 + n) / 256, (5 + n) % 256];
    var head: seq<Byte> := [(5 + n) / 256, (5 + n) % 256, a.cla, a.ins, a.p1, a.p2, n];
    assert head == length + [a.cla, a.ins, a.p1, a.p2, n];
    CommandBytes(a, length, head);
    LengthBytes(5 + n);
    WrittenBytes(Command(a));
  }

  lemma CommandBytes(a: Apdu, length: seq<Byte>, head: seq<Byte>)
    requires |a.payload| <= 255 && |length| == 2
    requires head == length + [a.cla, a.ins, a.p1, a.p2, |a.payload|]
    ensures |Command(a)| == 5 + |a.payload| && length + Command(a) == head + a.payload
  {
  }

  /** What an exchange writes: the packets of its command, or those before the first write that fails. */
  lemma CommandSent(l: Link, a: Apdu) returns (packets: seq<seq<Byte>>)
    requires Sound(l.reader) && |a.payload| <= 255
    ensures IsRequest(packets, a) && |packets| == (7 + |a.payload| + 58) / 59
    ensures var (m, outcome) := ExchangeStep(l, a);
            var sent := Min(l.room, |packets|);
            m.outbox == l.outbox + packets[..sent] && m.room == l.room - sent
            && (outcome == WriteFailed <==> l.room < |packets|)
            && (outcome == WriteFailed ==> m.reader == l.reader.(seqNo := 0))
  {
    hide Packets, Receive, Command;
    packets := Packets(Command(a));
    CommandPackets(a);
    ReceiveIsNoWrite(l.reader.(seqNo := 0));
  }

  lemma ReceiveIsNoWrite(s: State)
    requires Sound(s)
    ensures !Receive(s).1.WriteFailed?
  {
    hide ReadFull;
  }

  /** A payload too long for its length byte stops the program before anything is written. */
  lemma OversizedCommand(l: Link, a: Apdu)
    requires Sound(l.reader) && |a.payload| > 255
    ensures ExchangeStep(l, a) == (l, Panicked)
  {
  }

  /** A device that reads those packets, completed to 64 bytes, finds every field at its offset. */
  lemma CommandArrives(l: Link, a: Apdu, full: seq<seq<Byte>>)
    requires Sound(l.reader) && |a.payload| <= 255 && (7 + |a.payload| + 58) / 59 <= l.room
    requires l.outbox <= ExchangeStep(l, a).0.outbox
    requires Completes(full, ExchangeStep(l, a).0.outbox[|l.outbox|..])
    ensures Numbered(full, 0)
    ensures var s, n := Stream(full), |a.payload|;
            |s| >= 7 + n && s[0] == (5 + n) / 256 && s[1] == (5 + n) % 256
            && s[2] == a.cla && s[3] == a.ins && s[4] == a.p1 && s[5] == a.p2 && s[6] == n && s[7..7 + n] == a.payload
  {
    hide Numbered, Carries, Chunks, ExchangeStep;
    var packets := CommandSent(l, a);
    assert ExchangeStep(l, a).0.outbox[|l.outbox|..] == packets;
    var n := |a.payload|;
    var head: seq<Byte> := [(5 + n) / 256, (5 + n) % 256, a.cla, a.ins, a.p1, a.p2, n];
    CarriesExact(packets, head + a.payload);
    ChunksStream(head + a.payload, 0, full);
    var s := Stream(full);
    assert s[..7 + n] == head + a.payload;
    assert s[..7 + n][..7] == head && s[..7 + n][7..] == a.payload;
  }

  /** The requests of a run, one after the other. */
  lemma {:induction false} AllRequests(commands: seq<Apdu>) returns (parts: seq<seq<seq<Byte>>>)
    requires forall c :: c in commands ==> |c.payload| <= 255
    ensures |parts| == |commands| && AllPackets(commands) == Concat(parts)
    ensures forall i :: 0 <= i < |commands| ==> IsRequest(parts[i], commands[i])
    decreases |commands|
  {
    hide IsRequest, Packets, Command;
    if commands == [] {
      parts := [];
    } else {
      CommandPackets(commands[0]);
      var more := AllRequests(commands[1..]);
      parts := [Packets(Command(commands[0]))] + more;
      assert parts[1..] == more;
    }
  }

  /**
    With a peer that answers with one frame, an exchange sends its command, returns exactly that
    answer and consumes as few packets as carry it.
   */
  lemma ExchangeReturnsMessage(l: Link, a: Apdu, frame: seq<seq<Byte>>, message: seq<Byte>, rest: seq<seq<Byte>>)
    requires Sound(l.reader) && |a.payload| <= 255 && |Packets(Command(a))| <= l.room
    requires |message| < 0x1_0000 && IsFrame(frame, message) && l.reader.inbox == frame + rest
    ensures var (m, outcome) := ExchangeStep(l, a);
            outcome == Response(message) && m.reader.inbox == rest
            && m.outbox == l.outbox + Packets(Command(a)) && m.room == l.room - |Packets(Command(a))|
            && |l.reader.inbox| - |m.reader.inbox| == (2 + |message| + PAYLOAD - 1) / PAYLOAD
  {
    hide Packets, Receive;
    ReceiveFrame(l.reader.(seqNo := 0), frame, rest, message);
  }

  /**
    Over any run of exchanges with a peer that answers each command with one frame, the packets of
    all commands are sent in order and every exchange returns its own response: no residue of one
    reaches the next.
   */
  lemma {:induction false} RunAligned(l: Link, commands: seq<Apdu>,
                                      frames: seq<seq<seq<Byte>>>, messages: seq<seq<Byte>>, rest: seq<seq<Byte>>)
    requires Sound(l.reader) && forall c :: c in commands ==> |c.payload| <= 255
    requires |commands| == |frames| == |messages| && |AllPackets(commands)| <= l.room
    requires l.reader.inbox == Concat(frames) + rest
    requires forall i :: 0 <= i < |frames| ==> |messages[i]| < 0x1_0000 && IsFrame(frames[i], messages[i])
    ensures var (m, outcomes) := Run(l, commands);
            m.reader.inbox == rest && m.outbox == l.outbox + AllPackets(commands)
            && forall i :: 0 <= i < |commands| ==> outcomes[i] == Response(messages[i])
    decreases |commands|
  {
    hide IsFrame, ExchangeStep, Packets, Command;
    if commands != [] {
      assert commands[0] in commands;
      assert l.reader.inbox == frames[0] + (Concat(frames[1..]) + rest);
      ExchangeReturnsMessage(l, commands[0], frames[0], messages[0], Concat(frames[1..]) + rest);
      RunAligned(ExchangeStep(l, commands[0]).0, commands[1..], frames[1..], messages[1..], rest);
    }
  }

  /** How many packets the commands of a run take. */
  function PacketCount(commands: seq<Apdu>): nat {
    if commands == [] then 0 else (7 + |commands[0].payload| + 58) / 59 + PacketCount(commands[1..])
  }

  lemma {:induction false} AllPacketsCount(commands: seq<Apdu>)
    requires forall c :: c in commands ==> |c.payload| <= 255
    ensures |AllPackets(commands)| == PacketCount(commands)
    decreases |commands|
  {
    if commands != [] {
      AllPacketsCount(commands[1..]);
    }
  }

  /** The same run in terms of bytes on the wire: each command goes out field by field, in order. */
  lemma RunSends(l: Link, commands: seq<Apdu>,
                 frames: seq<seq<seq<Byte>>>, messages: seq<seq<Byte>>, rest: seq<seq<Byte>>)
    returns (parts: seq<seq<seq<Byte>>>)
    requires Sound(l.reader) && forall c :: c in commands ==> |c.payload| <= 255
    requires |commands| == |frames| == |messages| && PacketCount(commands) <= l.room
    requires l.reader.inbox == Concat(frames) + rest
    requires forall i :: 0 <= i < |frames| ==> |messages[i]| < 0x1_0000 && IsFrame(frames[i], messages[i])
    ensures |parts| == |commands| && forall i :: 0 <= i < |commands| ==> IsRequest(parts[i], commands[i])
    ensures var (m, outcomes) := Run(l, commands);
            m.reader.inbox == rest && m.outbox == l.outbox + Concat(parts)
            && forall i :: 0 <= i < |commands| ==> outcomes[i] == Response(messages[i])
  {
    hide IsFrame, IsRequest, AllPackets, Run;
    AllPacketsCount(commands);
    RunAligned(l, commands, frames, messages, rest);
    parts := AllRequests(commands);
  }

  // ---------- the code ----------

  class HidFramer {
    const rw: Device
    const buf: array<Byte>
    var seqNo: nat
    var pos: nat

    ghost function Abs(): State
      reads this, buf, rw
    {
      State(seqNo, buf[..], pos, rw.inbox, rw.eof)
    }

    ghost predicate Valid()
      reads this, buf, rw
    {
      Sound(Abs())
    }

    constructor (rw: Device)
      ensures Valid() && fresh(buf) && this.rw == rw && seqNo == 0
    {
      this.rw := rw;
      buf := new Byte[PACKET];
      seqNo, pos := 0, 0;
    }

    method Reset()
      requires Valid()
      modifies this`seqNo
      ensures Valid() && Abs() == old(Abs()).(seqNo := 0)
    {
      seqNo := 0;
    }

    /** The sequence number and the payload of the next packet; the bytes before them stay. */
    static method FillChunk(chunk: array<Byte>, n: nat, part: seq<Byte>)
      requires chunk.Length == PACKET && chunk[..3] == [1, 1, 5] && |part| <= PAYLOAD
      modifies chunk
      ensures chunk[..HEADER + |part|] == Header(n) + part && chunk[..3] == [1, 1, 5]
    {
      hide Header, Put, Be16;
      assert chunk[..][..3] == chunk[..3];
      ChunkIs(chunk[..], n, part);
      Buffers.Write(chunk, 3, Be16(n));
      Buffers.Write(chunk, HEADER, part);
      assert chunk[..HEADER + |part|] == chunk[..][..HEADER + |part|];
      assert chunk[..3] == chunk[..][..3];
    }

    /** Writes the packets of `p` in order, up to the first write that fails. */
    method Write(p: seq<Byte>) returns (count: nat, ok: bool)
      modifies rw
      ensures rw.inbox == old(rw.inbox) && count == if ok then |p| else rw.partial
      ensures var sent := Min(old(rw.room), |Packets(p)|);
              rw.outbox == old(rw.outbox) + Packets(p)[..sent] && rw.room == old(rw.room) - sent
              && ok == (sent == |Packets(p)|)
    {
      hide Header, Chunks, Put, Be16;
      var chunk := new Byte[PACKET](_ => 0);
      chunk[0], chunk[1], chunk[2] := 1, 1, 5;
      var n: nat := 0;
      var data := Prefixed(p);
      ghost var all, sent := Packets(p), 0;
      NoChunks([], 0);
      while |data| > 0
        invariant sent <= |all| && all[sent..] == Chunks(data, n) && n < 0x1_0000
        invariant fresh(chunk) && chunk.Length == PACKET && chunk[..3] == [1, 1, 5]
        invariant rw.inbox == old(rw.inbox) && rw.outbox == old(rw.outbox) + all[..sent]
        invariant rw.room + sent == old(rw.room)
        decreases |data|
      {
        var k := Min(PAYLOAD, |data|);
        FillChunk(chunk, n, data[..k]);
        NextChunk(data, n);
        SentOne(all, sent, chunk[..HEADER + k], Chunks(data[k..], (n + 1) % 0x1_0000));
        var written, accepted := rw.WritePacket(chunk[..HEADER + k]);
        if !accepted {
          return written, false;
        }
        sent := sent + 1;
        data := data[k..];
        n := (n + 1) % 0x1_0000;
      }
      NoChunks(data, n);
      assert all[..sent] == all;
      count, ok := |p|, true;
    }

    /** Copies as much of the packet from `from` on as fits. */
    method Deliver(p: array<Byte>, lo: nat, from: nat) returns (r: ReadResult)
      requires lo <= p.Length && p != buf && buf.Length == PACKET && from <= PACKET
      modifies `pos, p
      ensures var n := Min(p.Length - lo, PACKET - from);
              pos == from + n && r == Data(buf[from..from + n])
              && p[..] == Put(old(p[..]), lo, buf[from..from + n])
    {
      var n := Min(p.Length - lo, PACKET - from);
      r := Data(buf[from..from + n]);
      Buffers.Write(p, lo, buf[from..from + n]);
      pos := from + n;
    }

    /** Reads the next packet into the buffer and checks its header. */
    method Fetch() returns (error: Option<ReadResult>)
      requires Valid()
      modifies `seqNo, buf, rw
      ensures (Abs(), error) == FetchPacket(old(Abs())) && rw.outbox == old(rw.outbox) && rw.room == old(rw.room)
    {
      ghost var s := Abs();
      var count := rw.ReadPacket(buf);
      if count.None? {
        return Some(Ending(rw.eof));
      }
      ghost var packet := s.inbox[0];
      assert Abs() == s.(buf := packet[..count.value] + s.buf[count.value..], inbox := s.inbox[1..]);
      if count.value != PACKET {
        return Some(Panic);
      }
      if Value16(buf[..2]) != 0x0101 {
        return Some(BadChannel(Value16(buf[..2])));
      }
      if buf[2] != 0x05 {
        return Some(BadTag(buf[2]));
      }
      if Value16(buf[3..5]) != seqNo {
        return Some(BadSequence(Value16(buf[3..5]), seqNo));
      }
      seqNo := (seqNo + 1) % 0x1_0000;
      error := None;
    }

    /** Fills `p` from `lo` on with one portion. */
    method Read(p: array<Byte>, lo: nat) returns (r: ReadResult)
      requires Valid() && lo <= p.Length && p != buf
      modifies `seqNo, `pos, buf, rw, p
      ensures Valid() && (Abs(), r) == ReadStep(old(Abs()), p.Length - lo)
      ensures rw.outbox == old(rw.outbox) && rw.room == old(rw.room)
      ensures p[..] == if r.Data? then Put(old(p[..]), lo, r.bytes) else old(p[..])
    {
      hide FetchPacket, Put;
      if seqNo > 0 && pos != PACKET {
        r := Deliver(p, lo, pos);
        return;
      }
      var error := Fetch();
      if error.Some? {
        return error.value;
      }
      r := Deliver(p, lo, HEADER);
    }

    /** `io.ReadFull(hf, p)`: reads until `p` is full or a read fails. */
    method FillBuffer(p: array<Byte>) returns (r: ReadResult)
      requires Valid() && p != buf
      modifies `seqNo, `pos, buf, rw, p
      ensures Valid() && rw.outbox == old(rw.outbox) && rw.room == old(rw.room)
      ensures var (t, got, last) := ReadFull(old(Abs()), p.Length);
              Abs() == t && (if last.Data? then r.Data? else r == last) && p[..] == Put(old(p[..]), 0, got)
    {
      hide ReadStep, ReadFull, Prepend, Put;
      ghost var s0, size, p0 := Abs(), p.Length, p[..];
      ghost var got: seq<Byte> := [];
      var n: nat := 0;
      r := Data([]);
      PrependNothing(ReadFull(s0, size));
      PutFront(p0, []);
      while n < p.Length && r.Data?
        invariant Valid() && n <= p.Length && n == |got| && rw.outbox == old(rw.outbox) && rw.room == old(rw.room)
        invariant p[..] == Put(p0, 0, got)
        invariant r.Data? ==> ReadFull(s0, size) == Prepend(got, ReadFull(Abs(), size - n))
        invariant !r.Data? ==> ReadFull(s0, size) == Prepend(got, (Abs(), [], r))
        decreases p.Length - n, r.Data?
      {
        ReadFullStep(Abs(), size - n);
        r := Read(p, n);
        if r.Data? {
          PutNext(p0, got, r.bytes);
          PrependTwice(got, r.bytes, ReadFull(Abs(), size - |got| - |r.bytes|));
          n, got := n + |r.bytes|, got + r.bytes;
        }
      }
      ReadFullNothing(Abs());
      PrependLast(got, Abs(), r);
      PrependLast(got, Abs(), Data([]));
      if r.Eof? && n > 0 {
        r := UnexpectedEof;
      }
    }
  }

  lemma ReadFullNothing(s: State)
    requires Sound(s)
    ensures ReadFull(s, 0) == (s, [], Data([]))
  {
  }

  /** One round of the loop. */
  lemma ReadFullStep(s: State, size: nat)
    requires Sound(s) && size > 0
    ensures var (t, d) := ReadStep(s, size);
            ReadFull(s, size) == if d.Data? then Prepend(d.bytes, ReadFull(t, size - |d.bytes|)) else (t, [], d)
  {
    hide ReadStep;
  }

  lemma PrependLast(got: seq<Byte>, s: State, r: ReadResult)
    ensures Prepend(got, (s, [], r)) == (s, got, if r.Eof? && got != [] then UnexpectedEof else r)
  {
    assert got + [] == got;
  }

  lemma PutNext(b: seq<Byte>, got: seq<Byte>, more: seq<Byte>)
    requires |got| + |more| <= |b|
    ensures Put(Put(b, 0, got), |got|, more) == Put(b, 0, got + more)
  {
    PutFront(b, got);
    PutFront(b, got + more);
  }

  /** A result with bytes read before it. */
  function Prepend(got: seq<Byte>, r: (State, seq<Byte>, ReadResult)): (State, seq<Byte>, ReadResult) {
    (r.0, got + r.1, if r.2.Eof? && got != [] then UnexpectedEof else r.2)
  }

  lemma PrependNothing(r: (State, seq<Byte>, ReadResult))
    ensures Prepend([], r) == r
  {
    assert [] + r.1 == r.1;
  }

  lemma PrependTwice(a: seq<Byte>, b: seq<Byte>, r: (State, seq<Byte>, ReadResult))
    ensures Prepend(a, Prepend(b, r)) == Prepend(a + b, r)
  {
    assert a + (b + r.1) == (a + b) + r.1;
  }

  /** A chunk whose sequence number and payload have been written over the previous ones. */
  lemma ChunkIs(chunk: seq<Byte>, n: nat, part: seq<Byte>)
    requires |chunk| == PACKET && chunk[..3] == [1, 1, 5] && |part| <= PAYLOAD
    ensures var r := Put(Put(chunk, 3, Be16(n)), HEADER, part);
            r[..HEADER + |part|] == Header(n) + part && r[..3] == [1, 1, 5]
  {
    hide Put, Be16;
    var b := Put(chunk, 3, Be16(n));
    var r := Put(b, HEADER, part);
    assert r[..3] == r[..HEADER][..3] == b[..HEADER][..3] == b[..3] == chunk[..3];
    assert r[3..HEADER] == r[..HEADER][3..] == b[..HEADER][3..] == b[3..HEADER] == Be16(n);
    assert r[..HEADER + |part|] == r[..3] + r[3..HEADER] + r[HEADER..HEADER + |part|];
  }

  lemma SentOne(all: seq<seq<Byte>>, sent: nat, packet: seq<Byte>, rest: seq<seq<Byte>>)
    requires sent <= |all| && all[sent..] == [packet] + rest
    ensures sent < |all| && all[..sent + 1] == all[..sent] + [packet] && all[sent + 1..] == rest
  {
    assert all[sent] == all[sent..][0];
    assert all[sent + 1..] == all[sent..][1..];
  }

  lemma NextChunk(data: seq<Byte>, n: nat)
    requires data != []
    ensures var k := Min(PAYLOAD, |data|);
            Chunks(data, n) == [Header(n) + data[..k]] + Chunks(data[k..], (n + 1) % 0x1_0000)
  {
  }

  lemma NoChunks(data: seq<Byte>, n: nat)
    requires data == []
    ensures Chunks(data, n) == []
  {
  }

  class ApduFramer {
    const hf: HidFramer
    const buf: array<Byte>

    constructor (hf: HidFramer)
      ensures this.hf == hf && fresh(buf) && buf.Length == 2
    {
      this.hf := hf;
      buf := new Byte[2];
    }

    ghost function Abs(): Link
      reads hf, hf.buf, hf.rw
    {
      Link(hf.Abs(), hf.rw.outbox, hf.rw.room)
    }

    /** One command and its response. */
    method Exchange(apdu: Apdu) returns (r: Outcome)
      requires hf.Valid() && buf.Length == 2 && buf != hf.buf
      modifies hf`seqNo, hf`pos, hf.buf, hf.rw, buf
      ensures hf.Valid() && (Abs(), r) == ExchangeStep(old(Abs()), apdu)
    {
      hide Packets, ReadFull, Put, ZeroFilled, Command;
      if |apdu.payload| > 255 {
        return Panicked;
      }
      hf.Reset();
      var _, written := hf.Write(Command(apdu));
      if !written {
        return WriteFailed;
      }
      ghost var s, b := hf.Abs(), buf[..];
      var lengthRead := hf.FillBuffer(buf);
      if lengthRead.Panic? {
        return Panicked;
      }
      if !lengthRead.Data? {
        return ReadFailed(lengthRead);
      }
      PutFront(b, ReadFull(s, 2).1);
      assert buf[..2] == buf[..] == ReadFull(s, 2).1;
      var respLen := Value16(buf[..2]);
      var resp := new Byte[respLen](_ => 0);
      assert resp[..] == ZeroDigits(respLen);
      s := hf.Abs();
      var responseRead := hf.FillBuffer(resp);
      if responseRead.Panic? {
        return Panicked;
      }
      PutZeros(respLen, ReadFull(s, respLen).1);
      r := Response(resp[..]);
    }
  }

  lemma PutZeros(n: nat, s: seq<Byte>)
    requires |s| <= n
    ensures Put<Byte>(ZeroDigits(n), 0, s) == ZeroFilled(s, n)
  {
    PutFront<Byte>(ZeroDigits(n), s);
    assert ZeroDigits(n)[|s|..] == ZeroDigits(n - |s|);
  }
}
