/**
  Shell-style matching (usbtool/opendevice.c:26-81) against the rules of usbtool/Readme.txt:143-162.

  Characters are numbers, so the result does not depend on the signedness of `char`. A string is
  the sequence of its characters before the terminating zero.
 */
module Wildcard {
  import opened Wrappers

  /** A character other than the terminator. */
  type CChar = c: int | c != 0 witness 1

  const STAR: int := '*' as int
  const QUERY: int := '?' as int
  const BACKSLASH: int := '\\' as int
  const OPEN: int := '[' as int
  const CLOSE: int := ']' as int
  const CARET: int := '^' as int
  const DASH: int := '-' as int

  /** Reading a string up to and including its terminator. */
  function At(s: seq<CChar>, k: nat): int {
    if k < |s| then s[k] else 0
  }

  // ---------- what patterns mean ----------

  datatype Item = Single(c: int) | Range(lo: int, hi: int)

  datatype Token = Literal(c: int) | AnyChar | Star | Class(negated: bool, items: seq<Item>)

  predicate ItemHas(i: Item, c: int) {
    match i
    case Single(d) => c == d
    case Range(lo, hi) => lo <= c <= hi
  }

  predicate ClassHas(items: seq<Item>, c: int) {
    exists k :: 0 <= k < |items| && ItemHas(items[k], c)
  }

  predicate TokenHas(t: Token, c: int)
    requires !t.Star?
  {
    match t
    case Literal(d) => c == d
    case AnyChar => true
    case Class(negated, items) => ClassHas(items, c) != negated
  }

  /** A text matches when the pattern's tokens can be laid over it, stars taking any stretch. */
  ghost predicate Matches(ts: seq<Token>, text: seq<CChar>)
    decreases ts
  {
    if ts == [] then text == []
    else if ts[0].Star? then exists k :: 0 <= k <= |text| && Matches(ts[1..], text[k..])
    else text != [] && TokenHas(ts[0], text[0]) && Matches(ts[1..], text[1..])
  }

  // ---------- how patterns are written ----------

  /** The rest of a character list from `k` on, `last` being the character before it, and its end. */
  function ParseItems(p: seq<CChar>, k: nat, last: int): (r: Option<(seq<Item>, nat)>)
    ensures r.Some? ==> k < r.value.1 <= |p| && p[r.value.1 - 1] == CLOSE
    decreases |p| - k
  {
    if k >= |p| then None
    else if p[k] == CLOSE then Some(([], k + 1))
    else if p[k] == DASH && At(p, k + 1) != CLOSE then
      match ParseItems(p, k + 2, At(p, k + 1))
      case None => None
      case Some((items, next)) => Some(([Range(last, At(p, k + 1))] + items, next))
    else
      match ParseItems(p, k + 1, p[k])
      case None => None
      case Some((items, next)) => Some(([Single(p[k])] + items, next))
  }

  /** A class whose opening bracket, or caret, is at `k`: a first bracket or dash stands for itself. */
  function ParseList(p: seq<CChar>, k: nat): (r: Option<(seq<Item>, nat)>)
    requires k < |p|
    ensures r.Some? ==> k < r.value.1 <= |p|
  {
    if At(p, k + 1) == CLOSE || At(p, k + 1) == DASH then
      match ParseItems(p, k + 2, p[k + 1])
      case None => None
      case Some((items, next)) => Some(([Single(p[k + 1])] + items, next))
    else ParseItems(p, k + 1, p[k])
  }

  /** One token and the position after it; None for a class that is never closed. */
  function ParseToken(p: seq<CChar>, j: nat): (r: Option<(Token, nat)>)
    requires j < |p|
    ensures r.Some? ==> j < r.value.1 <= |p| || (r.value.0 == Literal(0) && r.value.1 == |p| + 1)
  {
    if p[j] == BACKSLASH then Some((Literal(At(p, j + 1)), j + 2))
    else if p[j] == QUERY then Some((AnyChar, j + 1))
    else if p[j] == STAR then Some((Star, j + 1))
    else if p[j] == OPEN then
      var negated := At(p, j + 1) == CARET;
      match ParseList(p, if negated then j + 1 else j)
      case None => None
      case Some((items, next)) => Some((Class(negated, items), next))
    else Some((Literal(p[j]), j + 1))
  }

  /** The tokens of a pattern from `j` on; None when some class is never closed. */
  function Parse(p: seq<CChar>, j: nat): Option<seq<Token>>
    decreases |p| - j
  {
    if j >= |p| then Some([])
    else match ParseToken(p, j)
      case None => None
      case Some((t, next)) =>
        match Parse(p, next)
        case None => None
        case Some(ts) => Some([t] + ts)
  }

  ghost predicate WellFormed(p: seq<CChar>, j: nat) {
    Parse(p, j).Some?
  }

  ghost function Tokens(p: seq<CChar>, j: nat): seq<Token>
    requires WellFormed(p, j)
  {
    Parse(p, j).value
  }

  // ---------- laws of matching ----------

  ghost predicate NoSuffix(ts: seq<Token>, text: seq<CChar>, i: nat)
    requires i <= |text|
  {
    forall k :: i <= k <= |text| ==> !Matches(ts, text[k..])
  }

  ghost predicate Covers(pre: seq<Token>, text: seq<CChar>, i: nat)
    requires i + |pre| <= |text|
  {
    forall k :: 0 <= k < |pre| ==> !pre[k].Star? && TokenHas(pre[k], text[i + k])
  }

  /** Tokens that match one character each can be removed together with those characters. */
  lemma {:induction false} MatchesAfter(pre: seq<Token>, ts: seq<Token>, text: seq<CChar>, i: nat)
    requires i + |pre| <= |text| && Covers(pre, text, i)
    ensures Matches(pre + ts, text[i..]) <==> Matches(ts, text[i + |pre|..])
  {
    if pre == [] {
      assert pre + ts == ts;
    } else {
      assert (pre + ts)[1..] == pre[1..] + ts;
      assert text[i..][1..] == text[i + 1..];
      forall k | 0 <= k < |pre[1..]|
        ensures !pre[1..][k].Star? && TokenHas(pre[1..][k], text[i + 1 + k])
      {
        assert pre[1..][k] == pre[k + 1];
      }
      MatchesAfter(pre[1..], ts, text, i + 1);
    }
  }

  /** A match of single-character tokens uses up that many characters. */
  lemma {:induction false} MatchesSkips(pre: seq<Token>, ts: seq<Token>, text: seq<CChar>)
    requires Matches(pre + ts, text) && forall k :: 0 <= k < |pre| ==> !pre[k].Star?
    ensures |pre| <= |text| && Matches(ts, text[|pre|..])
  {
    if pre == [] {
      assert pre + ts == ts && text[0..] == text;
    } else {
      assert (pre + ts)[1..] == pre[1..] + ts;
      MatchesSkips(pre[1..], ts, text[1..]);
      assert text[1..][|pre| - 1..] == text[|pre|..];
    }
  }

  /** Hopelessness spreads backwards over tokens that match one character each. */
  lemma NoSuffixBefore(pre: seq<Token>, ts: seq<Token>, text: seq<CChar>, i: nat)
    requires i + |pre| <= |text| && NoSuffix(ts, text, i + |pre|)
    requires forall k :: 0 <= k < |pre| ==> !pre[k].Star?
    ensures NoSuffix(pre + ts, text, i)
  {
    forall k | i <= k <= |text|
      ensures !Matches(pre + ts, text[k..])
    {
      if Matches(pre + ts, text[k..]) {
        SkipsTo(pre, ts, text, k);
      }
    }
  }

  lemma SkipsTo(pre: seq<Token>, ts: seq<Token>, text: seq<CChar>, k: nat)
    requires k <= |text| && Matches(pre + ts, text[k..]) && forall j :: 0 <= j < |pre| ==> !pre[j].Star?
    ensures k + |pre| <= |text| && Matches(ts, text[k + |pre|..])
  {
    MatchesSkips(pre, ts, text[k..]);
    assert text[k..][|pre|..] == text[k + |pre|..];
  }

  lemma StarMatches(ts: seq<Token>, text: seq<CChar>, i: nat)
    requires i <= |text|
    ensures Matches([Star] + ts, text[i..]) <==> !NoSuffix(ts, text, i)
  {
    assert ([Star] + ts)[1..] == ts;
    assert forall k :: 0 <= k <= |text[i..]| ==> text[i..][k..] == text[i + k..];
    if Matches([Star] + ts, text[i..]) {
      var k :| 0 <= k <= |text[i..]| && Matches(ts, text[i..][k..]);
      assert Matches(ts, text[i + k..]);
    }
    if !NoSuffix(ts, text, i) {
      var k :| i <= k <= |text| && Matches(ts, text[k..]);
      assert text[i..][k - i..] == text[k..];
    }
  }

  /** Consecutive stars act like one. */
  lemma DoubleStar(ts: seq<Token>, text: seq<CChar>, i: nat)
    requires i <= |text|
    ensures NoSuffix([Star] + ts, text, i) <==> NoSuffix(ts, text, i)
  {
    forall k | i <= k <= |text|
      ensures Matches([Star] + ts, text[k..]) <==> !NoSuffix(ts, text, k)
    {
      StarMatches(ts, text, k);
    }
  }

  // ---------- the matcher ----------

  const SUCCESS := 1
  const FAILED := 0
  const ABORT := -1

  /**
    What a result says about matching `ts` at position `i`: ABORT promises that no later start
    can match either.
   */
  ghost predicate Verdict(r: int, ts: seq<Token>, text: seq<CChar>, i: nat)
    requires i <= |text|
  {
    && (r == SUCCESS || r == FAILED || r == ABORT)
    && (r == SUCCESS <==> Matches(ts, text[i..]))
    && (r == ABORT ==> NoSuffix(ts, text, i))
  }

  /** A verdict on the rest of the pattern is one on the whole, past tokens already laid over text. */
  lemma VerdictBefore(r: int, pre: seq<Token>, ts: seq<Token>, text: seq<CChar>, i: nat)
    requires i + |pre| <= |text| && Covers(pre, text, i) && Verdict(r, ts, text, i + |pre|)
    ensures Verdict(r, pre + ts, text, i)
  {
    MatchesAfter(pre, ts, text, i);
    if r == ABORT {
      NoSuffixBefore(pre, ts, text, i);
    }
  }

  /**
    `_shellStyleMatch`. `calls` counts the activations, this one included: a star is tried at most
    once per text position over the whole search.
   */
  method ShellMatch(text: seq<CChar>, i0: nat, p: seq<CChar>, j0: nat) returns (r: int, ghost calls: nat)
    requires i0 <= |text| && j0 <= |p| && WellFormed(p, j0)
    ensures Verdict(r, Tokens(p, j0), text, i0)
    ensures 1 <= calls <= 1 + |text| - i0
    ensures r == FAILED ==> calls == 1
    ensures i0 < |text| && At(p, j0) != STAR ==> calls <= |text| - i0
    decreases |p| - j0
  {
    hide Matches;
    var i, j := i0, j0;
    ghost var pre: seq<Token> := [];
    calls := 1;
    while j < |p|
      invariant i0 <= i <= |text| && j0 <= j && WellFormed(p, j)
      invariant j <= |p| || Tokens(p, j) == []
      invariant |pre| == i - i0 && Covers(pre, text, i0) && Tokens(p, j0) == pre + Tokens(p, j)
      invariant i == i0 ==> j == j0
      decreases |p| - j
    {
      if i == |text| && p[j] != STAR {
        r := ABORT;
        EndOfText(p, j, text);
        VerdictBefore(r, pre, Tokens(p, j), text, i0);
        return;
      }
      ghost var rest := Tokens(p, j);
      if p[j] == STAR {
        r, calls := MatchStar(text, i, p, j);
        VerdictBefore(r, pre, rest, text, i0);
        return;
      }
      ghost var token, next := ParseToken(p, j).value.0, ParseToken(p, j).value.1;
      assert rest == [token] + Tokens(p, next);
      var matched: bool, after: nat;
      if p[j] == OPEN {
        matched, after := MatchClass(text[i], p, j);
      } else if p[j] == QUERY {
        matched, after := true, j + 1;
      } else if p[j] == BACKSLASH {
        matched, after := text[i] == At(p, j + 1), j + 2;
      } else {
        matched, after := text[i] == p[j], j + 1;
      }
      assert after == next && matched == TokenHas(token, text[i]);
      if !matched {
        r := FAILED;
        FailedToken(token, Tokens(p, next), text, i);
        VerdictBefore(r, pre, rest, text, i0);
        return;
      }
      assert pre + rest == (pre + [token]) + Tokens(p, next);
      pre := pre + [token];
      i, j := i + 1, after;
    }
    r := if i == |text| then SUCCESS else FAILED;
    EndOfPattern(text, i);
    VerdictBefore(r, pre, [], text, i0);
  }

  lemma EndOfText(p: seq<CChar>, j: nat, text: seq<CChar>)
    requires j < |p| && WellFormed(p, j) && p[j] != STAR
    ensures Verdict(ABORT, Tokens(p, j), text, |text|)
  {
  }

  lemma EndOfPattern(text: seq<CChar>, i: nat)
    requires i <= |text|
    ensures Verdict(if i == |text| then SUCCESS else FAILED, [], text, i)
  {
  }

  lemma FailedToken(t: Token, ts: seq<Token>, text: seq<CChar>, i: nat)
    requires i < |text| && !t.Star? && !TokenHas(t, text[i])
    ensures Verdict(FAILED, [t] + ts, text, i)
  {
  }

  /** The `*` case: the rest of the pattern is tried at each remaining position until one decides. */
  method MatchStar(text: seq<CChar>, i0: nat, p: seq<CChar>, j0: nat) returns (r: int, ghost calls: nat)
    requires i0 <= |text| && j0 < |p| && WellFormed(p, j0) && p[j0] == STAR
    ensures Verdict(r, Tokens(p, j0), text, i0) && r != FAILED
    ensures 1 <= calls <= 1 + |text| - i0
    decreases |p| - j0, 0
  {
    hide Matches;
    var i, j := i0, j0 + 1;
    assert Tokens(p, j0) == [Star] + Tokens(p, j);
    StarVerdict(Tokens(p, j), text, i0);
    while At(p, j) == STAR
      invariant j0 < j <= |p| && WellFormed(p, j)
      invariant forall v :: StarResult(v, Tokens(p, j), text, i0) ==> Verdict(v, Tokens(p, j0), text, i0)
      decreases |p| - j
    {
      assert Tokens(p, j) == [Star] + Tokens(p, j + 1);
      DoubleStar(Tokens(p, j + 1), text, i0);
      j := j + 1;
    }
    calls := 1;
    if j == |p| {
      r := SUCCESS;
      EndOfPattern(text, |text|);
      return;
    }
    ghost var ts := Tokens(p, j);
    while i < |text|
      invariant i0 <= i <= |text|
      invariant forall k :: i0 <= k < i ==> !Matches(ts, text[k..])
      invariant calls == 1 + i - i0
    {
      ghost var c;
      r, c := ShellMatch(text, i, p, j);
      calls := calls + c;
      if r != FAILED {
        return;
      }
      i := i + 1;
    }
    r := ABORT;
    EndOfText(p, j, text);
  }

  /** What the attempts after a star establish, in terms of the tokens after it. */
  ghost predicate StarResult(r: int, ts: seq<Token>, text: seq<CChar>, i: nat)
    requires i <= |text|
  {
    (r == SUCCESS && !NoSuffix(ts, text, i)) || (r == ABORT && NoSuffix(ts, text, i))
  }

  lemma StarVerdict(ts: seq<Token>, text: seq<CChar>, i: nat)
    requires i <= |text|
    ensures forall v :: StarResult(v, ts, text, i) ==> Verdict(v, [Star] + ts, text, i)
  {
    hide Matches;
    StarMatches(ts, text, i);
    DoubleStar(ts, text, i);
  }

  /** The `[` case. */
  method MatchClass(c: CChar, p: seq<CChar>, j0: nat) returns (ok: bool, next: nat)
    requires j0 < |p| && p[j0] == OPEN && ParseToken(p, j0).Some?
    ensures next == ParseToken(p, j0).value.1
    ensures ok == TokenHas(ParseToken(p, j0).value.0, c)
  {
    hide ClassHas;
    var j := j0;
    var reverse := At(p, j + 1) == CARET;
    if reverse {
      j := j + 1;
    }
    var matched := false;
    if At(p, j + 1) == CLOSE || At(p, j + 1) == DASH {
      j := j + 1;
      ClassHead(Single(p[j]), ParseItems(p, j + 1, p[j]).value.0, c);
      if p[j] == c {
        matched := true;
      }
    }
    matched, next := MatchItems(c, p, j + 1, p[j], matched);
    ok := matched != reverse;
  }

  /** Scan the list up to its closing bracket, remembering whether some item contains the character. */
  method MatchItems(c: CChar, p: seq<CChar>, j0: nat, last0: int, matched0: bool) returns (matched: bool, next: nat)
    requires ParseItems(p, j0, last0).Some?
    ensures next == ParseItems(p, j0, last0).value.1
    ensures matched == (matched0 || ClassHas(ParseItems(p, j0, last0).value.0, c))
  {
    hide ClassHas;
    var j, last := j0, last0;
    matched := matched0;
    while At(p, j) != 0 && p[j] != CLOSE
      invariant ParseItems(p, j, last).Some? && ParseItems(p, j, last).value.1 == ParseItems(p, j0, last0).value.1
      invariant (matched || ClassHas(ParseItems(p, j, last).value.0, c))
            == (matched0 || ClassHas(ParseItems(p, j0, last0).value.0, c))
      decreases |p| - j
    {
      if p[j] == DASH && At(p, j + 1) != CLOSE {
        ClassHead(Range(last, At(p, j + 1)), ParseItems(p, j + 2, At(p, j + 1)).value.0, c);
        j := j + 1;
        if c <= p[j] && c >= last {
          matched := true;
        }
      } else {
        ClassHead(Single(p[j]), ParseItems(p, j + 1, p[j]).value.0, c);
        if c == p[j] {
          matched := true;
        }
      }
      last := p[j];
      j := j + 1;
    }
    ClassNone(c);
    next := j + 1;
  }

  lemma ClassHead(item: Item, rest: seq<Item>, c: int)
    ensures ClassHas([item] + rest, c) <==> ItemHas(item, c) || ClassHas(rest, c)
  {
    var all := [item] + rest;
    assert all[0] == item;
    assert forall k :: 0 <= k < |rest| ==> all[k + 1] == rest[k];
    if ClassHas(rest, c) {
      var k :| 0 <= k < |rest| && ItemHas(rest[k], c);
      assert ItemHas(all[k + 1], c);
    }
  }

  lemma ClassNone(c: int)
    ensures !ClassHas([], c)
  {
  }

  /** `shellStyleMatch`: a missing pattern matches everything. */
  method ShellStyleMatch(text: seq<CChar>, pattern: Option<seq<CChar>>) returns (matched: bool)
    requires pattern.Some? ==> WellFormed(pattern.value, 0)
    ensures matched <==> pattern.None? || Matches(Tokens(pattern.value, 0), text)
    ensures forall ms :: AllProper(ms) && pattern == Some(PatternText(ms)) ==> (matched <==> Means(ms, text))
  {
    if pattern.None? {
      return true;
    }
    var p := pattern.value;
    var r, _ := ShellMatch(text, 0, p, 0);
    assert text[0..] == text && p[0..] == p;
    matched := r == SUCCESS;
    forall ms | AllProper(ms) && p == PatternText(ms)
      ensures Matches(Tokens(p, 0), text) <==> Means(ms, text)
    {
      PatternMeans(p, 0, ms, text);
    }
  }

  // ---------- the written rules ----------

  function Escape(s: seq<CChar>): seq<CChar> {
    if s == [] then [] else [BACKSLASH, s[0]] + Escape(s[1..])
  }

  /** A backslash before each character makes a pattern that matches one text only. */
  lemma {:induction false} EscapedMatchesItself(before: seq<CChar>, s: seq<CChar>, text: seq<CChar>)
    ensures var p := before + Escape(s);
            WellFormed(p, |before|) && (Matches(Tokens(p, |before|), text) <==> text == s)
    decreases |s|
  {
    var p, j := before + Escape(s), |before|;
    if s != [] {
      var before' := before + [BACKSLASH, s[0]];
      assert p == before' + Escape(s[1..]);
      EscapedMatchesItself(before', s[1..], if text == [] then [] else text[1..]);
      assert p[j] == BACKSLASH && p[j + 1] == s[0];
      assert Tokens(p, j) == [Literal(s[0])] + Tokens(p, j + 2);
      if text != [] {
        assert text == [text[0]] + text[1..];
        assert s == [s[0]] + s[1..];
      }
    }
  }

  /** A character list as the manual describes it: characters and spans such as `a-z`. */
  datatype Element = Char(c: CChar) | Span(lo: CChar, hi: CChar)

  predicate ElementHas(e: Element, c: int) {
    match e
    case Char(d) => c == d
    case Span(lo, hi) => lo <= c <= hi
  }

  predicate Plain(c: CChar) {
    c != CLOSE && c != DASH
  }

  /** Dashes and closing brackets stay out of the middle of the list; spans are not backwards. */
  predicate Regular(e: Element) {
    match e
    case Char(c) => Plain(c)
    case Span(lo, hi) => Plain(lo) && Plain(hi) && lo <= hi
  }

  function Written(e: Element): (s: seq<CChar>)
    ensures s != []
  {
    match e
    case Char(c) => [c]
    case Span(lo, hi) => [lo, DASH, hi]
  }

  function Write(es: seq<Element>): seq<CChar> {
    if es == [] then [] else Written(es[0]) + Write(es[1..])
  }

  predicate ListHas(es: seq<Element>, c: int) {
    es != [] && (ElementHas(es[0], c) || ListHas(es[1..], c))
  }

  /** The elements, perhaps a final dash, the closing bracket, and whatever follows the class. */
  ghost predicate IsBody(s: seq<CChar>, es: seq<Element>, dash: seq<CChar>, rest: seq<CChar>) {
    && (dash == [] || dash == [DASH])
    && (forall i :: 0 <= i < |es| ==> Regular(es[i]))
    && s == Write(es) + dash + [CLOSE] + rest
  }

  /** The set of characters such a list stands for. */
  predicate BodyHas(es: seq<Element>, dash: seq<CChar>, c: int) {
    ListHas(es, c) || c in dash
  }

  lemma BodyHead(s: seq<CChar>, es: seq<Element>, dash: seq<CChar>, rest: seq<CChar>)
    requires IsBody(s, es, dash, rest)
    ensures s != [] && (es != [] ==> Plain(s[0]) && s[0] == Written(es[0])[0])
  {
  }

  lemma {:induction false} ItemsMean(p: seq<CChar>, k: nat, last: int,
                                     es: seq<Element>, dash: seq<CChar>, rest: seq<CChar>, c: int)
    requires k <= |p| && IsBody(p[k..], es, dash, rest)
    ensures var r := ParseItems(p, k, last);
            r.Some? && p[r.value.1..] == rest && (ClassHas(r.value.0, c) <==> BodyHas(es, dash, c))
    decreases |es|
  {
    hide ClassHas, IsBody, Write, BodyHas, ParseItems;
    BodyParts(p[k..], es, dash, rest, c);
    if es == [] {
      NoItemsMean(p, k, last, dash, rest, c);
    } else {
      match es[0] {
        case Char(d) =>
          assert p[k] == p[k..][0] && p[k + 1..] == p[k..][1..];
          ItemsMean(p, k + 1, d, es[1..], dash, rest, c);
          CharMeans(p, k, last, c);
        case Span(lo, hi) =>
          assert p[k] == p[k..][0] && p[k + 1] == p[k..][1] && p[k + 2] == p[k..][2];
          assert p[k + 3..] == p[k..][3..];
          ItemsMean(p, k + 3, hi, es[1..], dash, rest, c);
          SpanMeans(p, k, last, c);
      }
    }
  }

  /** The first element of a body, and the body that remains. */
  lemma BodyParts(s: seq<CChar>, es: seq<Element>, dash: seq<CChar>, rest: seq<CChar>, c: int)
    requires IsBody(s, es, dash, rest)
    ensures es == [] ==> s == dash + [CLOSE] + rest && (dash == [] || dash == [DASH])
    ensures es == [] ==> (BodyHas(es, dash, c) <==> dash == [DASH] && c == DASH)
    ensures es != [] ==> Regular(es[0]) && (BodyHas(es, dash, c) <==> ElementHas(es[0], c) || BodyHas(es[1..], dash, c))
    ensures es != [] && es[0].Char? ==> |s| > 1 && s[0] == es[0].c && IsBody(s[1..], es[1..], dash, rest)
    ensures es != [] && es[0].Span? ==>
              |s| > 3 && s[0] == es[0].lo && s[1] == DASH && s[2] == es[0].hi && IsBody(s[3..], es[1..], dash, rest)
  {
    hide Write, ListHas;
    if es == [] {
      EmptyBody(dash, c);
      assert s == dash + [CLOSE] + rest;
    } else {
      BodyTail(s, es, dash, rest);
      ListHead(es, c);
    }
  }

  lemma EmptyBody(dash: seq<CChar>, c: int)
    ensures Write([]) == [] && (BodyHas([], dash, c) <==> c in dash)
  {
  }

  lemma ListHead(es: seq<Element>, c: int)
    requires es != []
    ensures ListHas(es, c) <==> ElementHas(es[0], c) || ListHas(es[1..], c)
  {
  }

  lemma BodyTail(s: seq<CChar>, es: seq<Element>, dash: seq<CChar>, rest: seq<CChar>)
    requires es != [] && IsBody(s, es, dash, rest)
    ensures var n := |Written(es[0])|;
            n < |s| && s[..n] == Written(es[0]) && IsBody(s[n..], es[1..], dash, rest)
  {
    hide Regular, Written;
    WriteHead(es);
    Regroup(Written(es[0]), Write(es[1..]), dash, [CLOSE], rest);
  }

  lemma WriteHead(es: seq<Element>)
    requires es != []
    ensures Write(es) == Written(es[0]) + Write(es[1..])
  {
  }

  lemma Regroup(a: seq<CChar>, b: seq<CChar>, c: seq<CChar>, d: seq<CChar>, e: seq<CChar>)
    ensures var s := (a + b) + c + d + e; s[..|a|] == a && s[|a|..] == b + c + d + e
  {
  }

  lemma CharMeans(p: seq<CChar>, k: nat, last: int, c: int)
    requires k < |p| && Plain(p[k]) && ParseItems(p, k + 1, p[k]).Some?
    ensures var r, q := ParseItems(p, k, last), ParseItems(p, k + 1, p[k]);
            r.Some? && r.value.1 == q.value.1 && (ClassHas(r.value.0, c) <==> c == p[k] || ClassHas(q.value.0, c))
  {
    hide ClassHas;
    ClassHead(Single(p[k]), ParseItems(p, k + 1, p[k]).value.0, c);
  }

  lemma NoItemsMean(p: seq<CChar>, k: nat, last: int, dash: seq<CChar>, rest: seq<CChar>, c: int)
    requires k <= |p| && p[k..] == dash + [CLOSE] + rest && (dash == [] || dash == [DASH])
    ensures var r := ParseItems(p, k, last);
            r.Some? && p[r.value.1..] == rest && (ClassHas(r.value.0, c) <==> dash == [DASH] && c == DASH)
  {
    hide ClassHas;
    ClassNone(c);
    assert p[k] == p[k..][0];
    if dash == [DASH] {
      assert p[k + 1] == p[k..][1] == CLOSE;
      assert p[k + 2..] == p[k..][2..] == rest;
      assert ParseItems(p, k + 1, DASH) == Some(([], k + 2));
      ClassHead(Single(DASH), [], c);
    } else {
      assert p[k + 1..] == p[k..][1..] == rest;
    }
  }

  lemma SpanMeans(p: seq<CChar>, k: nat, last: int, c: int)
    requires k + 2 < |p| && Plain(p[k]) && p[k + 1] == DASH && Plain(p[k + 2]) && p[k] <= p[k + 2]
    requires ParseItems(p, k + 3, p[k + 2]).Some?
    ensures var r, q := ParseItems(p, k, last), ParseItems(p, k + 3, p[k + 2]);
            r.Some? && r.value.1 == q.value.1
            && (ClassHas(r.value.0, c) <==> p[k] <= c <= p[k + 2] || ClassHas(q.value.0, c))
  {
    hide ClassHas;
    ClassHead(Range(p[k], p[k + 2]), ParseItems(p, k + 3, p[k + 2]).value.0, c);
    ClassHead(Single(p[k]), ParseItems(p, k + 1, p[k]).value.0, c);
  }

  /** The first element may be, or begin with, a closing bracket or a dash; a span is not backwards. */
  predicate Leading(first: Option<Element>) {
    match first
    case None => true
    case Some(Char(c)) => c == CLOSE || c == DASH
    case Some(Span(lo, hi)) => (lo == CLOSE || lo == DASH) && Plain(hi) && lo <= hi
  }

  function LeadingText(first: Option<Element>): seq<CChar> {
    if first.None? then [] else Written(first.value)
  }

  predicate LeadingHas(first: Option<Element>, c: int) {
    first.Some? && ElementHas(first.value, c)
  }

  /** Inside the brackets and the caret: perhaps such a first element, then a body. */
  lemma ListMeans(p: seq<CChar>, k: nat, first: Option<Element>, body: seq<CChar>,
                  es: seq<Element>, dash: seq<CChar>, rest: seq<CChar>, c: int)
    requires k < |p| && p[k + 1..] == LeadingText(first) + body && IsBody(body, es, dash, rest)
    requires Leading(first) && (first.None? ==> es != [])
    ensures var r := ParseList(p, k);
            r.Some? && p[r.value.1..] == rest
            && (ClassHas(r.value.0, c) <==> BodyHas(es, dash, c) || LeadingHas(first, c))
  {
    hide ClassHas, ParseItems, IsBody, BodyHas;
    var inner := p[k + 1..];
    match first {
      case None =>
        BodyHead(body, es, dash, rest);
        assert inner == body && p[k + 1] == inner[0];
        ItemsMean(p, k + 1, p[k], es, dash, rest, c);
      case Some(Char(d)) =>
        assert p[k + 1] == inner[0] == d && p[k + 2..] == inner[1..] == body;
        ItemsMean(p, k + 2, d, es, dash, rest, c);
        ClassHead(Single(d), ParseItems(p, k + 2, d).value.0, c);
      case Some(Span(lo, hi)) =>
        assert p[k + 1] == inner[0] == lo && p[k + 2] == inner[1] == DASH && p[k + 3] == inner[2] == hi;
        assert p[k + 4..] == inner[3..] == body;
        ItemsMean(p, k + 4, hi, es, dash, rest, c);
        LeadingSpanItems(p, k, c);
    }
  }

  /** A dash after the first element makes a span that starts at it. */
  lemma LeadingSpanItems(p: seq<CChar>, k: nat, c: int)
    requires k + 3 < |p| && p[k + 2] == DASH && p[k + 3] != CLOSE && ParseItems(p, k + 4, p[k + 3]).Some?
    requires (p[k + 1] == CLOSE || p[k + 1] == DASH) && p[k + 1] <= p[k + 3]
    ensures var r, q := ParseList(p, k), ParseItems(p, k + 4, p[k + 3]);
            r.Some? && r.value.1 == q.value.1
            && (ClassHas(r.value.0, c) <==> p[k + 1] <= c <= p[k + 3] || ClassHas(q.value.0, c))
  {
    hide ClassHas;
    var q := ParseItems(p, k + 4, p[k + 3]).value.0;
    ClassHead(Range(p[k + 1], p[k + 3]), q, c);
    ClassHead(Single(p[k + 1]), [Range(p[k + 1], p[k + 3])] + q, c);
  }

  /**
    The manual's character classes: `[`, perhaps `^`, perhaps a first element with `]` or `-`, the
    elements, perhaps a last `-`, and `]`. A list without the inverting caret must not start with `^`.
   */
  lemma ClassMeans(p: seq<CChar>, j: nat, caret: seq<CChar>, first: Option<Element>, body: seq<CChar>,
                   es: seq<Element>, dash: seq<CChar>, rest: seq<CChar>, c: int)
    requires j < |p| && p[j] == OPEN && p[j + 1..] == caret + (LeadingText(first) + body)
    requires IsBody(body, es, dash, rest) && Leading(first) && (first.None? ==> es != [])
    requires caret == [CARET] || (caret == [] && (LeadingText(first) + body)[0] != CARET)
    ensures var r := ParseToken(p, j);
            r.Some? && r.value.0.Class? && p[r.value.1..] == rest
            && (TokenHas(r.value.0, c) <==> (BodyHas(es, dash, c) || LeadingHas(first, c)) != (caret == [CARET]))
  {
    hide ClassHas, ParseItems, ParseList, IsBody, BodyHas, LeadingText;
    BodyHead(body, es, dash, rest);
    var inner := p[j + 1..];
    assert inner != [] && p[j + 1] == inner[0];
    if caret == [CARET] {
      assert p[j + 2..] == inner[1..] == LeadingText(first) + body;
      ListMeans(p, j + 1, first, body, es, dash, rest, c);
    } else {
      assert inner == LeadingText(first) + body;
      ListMeans(p, j, first, body, es, dash, rest, c);
    }
  }

  // ---------- whole patterns by the manual ----------

  /** The building blocks of the manual: a character, a quoted one, `?`, `*`, and a list in brackets. */
  datatype Piece =
    | Plainly(c: CChar)
    | Quoted(c: CChar)
    | AnyOne
    | AnyText
    | OneOf(inverted: bool, first: Option<Element>, es: seq<Element>, dash: seq<CChar>)

  /** The manual's restrictions on each of them. */
  ghost predicate Proper(m: Piece) {
    match m
    case Plainly(c) => c != STAR && c != QUERY && c != OPEN && c != BACKSLASH
    case OneOf(inverted, first, es, dash) =>
      && Leading(first) && (first.None? ==> es != [])
      && (dash == [] || dash == [DASH])
      && (forall i :: 0 <= i < |es| ==> Regular(es[i]))
      && (!inverted && first.None? ==> Written(es[0])[0] != CARET)
    case _ => true
  }

  function PieceText(m: Piece): seq<CChar> {
    match m
    case Plainly(c) => [c]
    case Quoted(c) => [BACKSLASH, c]
    case AnyOne => [QUERY]
    case AnyText => [STAR]
    case OneOf(inverted, first, es, dash) =>
      [OPEN] + (if inverted then [CARET] else []) + LeadingText(first) + Write(es) + dash + [CLOSE]
  }

  function PatternText(ms: seq<Piece>): seq<CChar> {
    if ms == [] then [] else PieceText(ms[0]) + PatternText(ms[1..])
  }

  predicate PieceHas(m: Piece, c: int)
    requires !m.AnyText?
  {
    match m
    case Plainly(d) => c == d
    case Quoted(d) => c == d
    case AnyOne => true
    case OneOf(inverted, first, es, dash) => (LeadingHas(first, c) || BodyHas(es, dash, c)) != inverted
  }

  /** A text is matched when it can be cut up so that every piece gets what the manual lets it stand for. */
  ghost predicate Means(ms: seq<Piece>, text: seq<CChar>)
    decreases ms
  {
    if ms == [] then text == []
    else if ms[0].AnyText? then exists k :: 0 <= k <= |text| && Means(ms[1..], text[k..])
    else text != [] && PieceHas(ms[0], text[0]) && Means(ms[1..], text[1..])
  }

  ghost predicate AllProper(ms: seq<Piece>) {
    forall i :: 0 <= i < |ms| ==> Proper(ms[i])
  }

  /** Each piece is read as one token of the same meaning. */
  lemma PieceMeans(p: seq<CChar>, j: nat, m: Piece, rest: seq<CChar>, c: int)
    requires j <= |p| && Proper(m) && p[j..] == PieceText(m) + rest
    ensures j < |p| && ParseToken(p, j).Some?
    ensures var (t, next) := ParseToken(p, j).value;
            next <= |p| && p[next..] == rest && (t.Star? <==> m.AnyText?)
            && (!t.Star? ==> (TokenHas(t, c) <==> PieceHas(m, c)))
  {
    hide ParseList, ClassHas, BodyHas;
    assert p[j] == p[j..][0];
    match m {
      case OneOf(inverted, first, es, dash) =>
        ClassPiece(p, j, m, rest, c);
      case Quoted(d) =>
        assert p[j + 1] == p[j..][1] && p[j + 2..] == p[j..][2..];
      case _ =>
        assert p[j + 1..] == p[j..][1..];
    }
  }

  lemma ClassPiece(p: seq<CChar>, j: nat, m: Piece, rest: seq<CChar>, c: int)
    requires j < |p| && m.OneOf? && Proper(m) && p[j..] == PieceText(m) + rest
    ensures p[j] == OPEN && ParseToken(p, j).Some?
    ensures var (t, next) := ParseToken(p, j).value;
            t.Class? && next <= |p| && p[next..] == rest && (TokenHas(t, c) <==> PieceHas(m, c))
  {
    hide ParseToken, TokenHas, BodyHas, Write;
    var OneOf(inverted, first, es, dash) := m;
    var caret: seq<CChar> := if inverted then [CARET] else [];
    var body := Write(es) + dash + [CLOSE] + rest;
    assert p[j] == p[j..][0] == OPEN;
    BracketText(caret, LeadingText(first), Write(es), dash, rest);
    assert p[j + 1..] == p[j..][1..] == caret + (LeadingText(first) + body);
    BodyHead(body, es, dash, rest);
    ClassMeans(p, j, caret, first, body, es, dash, rest, c);
    ClassEnd(p, j);
  }

  lemma BracketText(caret: seq<CChar>, first: seq<CChar>, list: seq<CChar>, dash: seq<CChar>, rest: seq<CChar>)
    ensures ([OPEN] + caret + first + list + dash + [CLOSE] + rest)[1..]
         == caret + (first + (list + dash + [CLOSE] + rest))
  {
  }

  lemma ClassEnd(p: seq<CChar>, j: nat)
    requires j < |p| && ParseToken(p, j).Some? && ParseToken(p, j).value.0.Class?
    ensures ParseToken(p, j).value.1 <= |p|
  {
    hide ParseList;
  }

  /** Every pattern put together by the manual's rules matches exactly what the manual says. */
  lemma {:induction false} PatternMeans(p: seq<CChar>, j: nat, ms: seq<Piece>, text: seq<CChar>)
    requires j <= |p| && AllProper(ms) && p[j..] == PatternText(ms)
    ensures WellFormed(p, j) && (Matches(Tokens(p, j), text) <==> Means(ms, text))
    decreases |ms|
  {
    hide ParseToken, PieceText, Proper, TokenHas, PieceHas, Parse;
    if ms == [] {
      NoTokens(p, j);
    } else {
      var rest := PatternText(ms[1..]);
      PieceMeans(p, j, ms[0], rest, if text == [] then 0 else text[0]);
      var (t, next) := ParseToken(p, j).value;
      forall k | 0 <= k <= |text|
        ensures WellFormed(p, next) && (Matches(Tokens(p, next), text[k..]) <==> Means(ms[1..], text[k..]))
      {
        PatternMeans(p, next, ms[1..], text[k..]);
      }
      assert text[0..] == text;
      FirstToken(p, j);
    }
  }

  lemma NoTokens(p: seq<CChar>, j: nat)
    requires j >= |p|
    ensures WellFormed(p, j) && Tokens(p, j) == []
  {
  }

  lemma FirstToken(p: seq<CChar>, j: nat)
    requires j < |p| && ParseToken(p, j).Some? && WellFormed(p, ParseToken(p, j).value.1)
    ensures WellFormed(p, j)
    ensures var (t, next) := ParseToken(p, j).value;
            Tokens(p, j) != [] && Tokens(p, j)[0] == t && Tokens(p, j)[1..] == Tokens(p, next)
  {
    hide ParseToken;
  }
}
