/** Memory moves into fixed-size buffers. */
module Buffers {
  /** `s` written over `b` from position `at` on. */
  function Put<T>(b: seq<T>, at: nat, s: seq<T>): (r: seq<T>)
    requires at + |s| <= |b|
    ensures |r| == |b| && r[at..at + |s|] == s && r[..at] == b[..at] && r[at + |s|..] == b[at + |s|..]
  {
    b[..at] + s + b[at + |s|..]
  }

  lemma PutFront<T>(b: seq<T>, s: seq<T>)
    requires |s| <= |b|
    ensures Put(b, 0, s) == s + b[|s|..]
  {
  }

  method Write<T>(to: array<T>, at: nat, s: seq<T>)
    requires at + |s| <= to.Length
    modifies to
    ensures to[..] == Put(old(to[..]), at, s)
  {
    forall i | 0 <= i < |s| {
      to[at + i] := s[i];
    }
  }

  /** The whole buffer. */
  method Store<T>(to: array<T>, s: seq<T>)
    requires to.Length == |s|
    modifies to
    ensures to[..] == s
  {
    forall i | 0 <= i < |s| {
      to[i] := s[i];
    }
  }
}
