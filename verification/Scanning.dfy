/** A left-to-right scan that passes over text in steps, some of them string literals. */
module Scanning {

  /** A scan step: where it ends, and whether it passed a string literal. */
  datatype Step = Step(end: nat, literal: bool)

  type Scanner = (string, nat) -> Step

  /** Every step moves on, within the text. */
  ghost predicate Advances(next: Scanner)
  {
    forall text: string, c: nat :: c < |text| ==> c < next(text, c).end <= |text|
  }

  /** A step depends only on the text from its cursor on. */
  ghost predicate LooksAhead(next: Scanner)
  {
    forall text: string, p: nat, c: nat :: p + c < |text| ==> Unshifted(next, text, p, c)
  }

  ghost predicate Unshifted(next: Scanner, text: string, p: nat, c: nat)
    requires p + c < |text|
  {
    next(text, p + c) == Step(next(text[p..], c).end + p, next(text[p..], c).literal)
  }

  datatype Literal = Literal(start: nat, end: nat, bytes: nat)

  /** The UTF-8 length of a character. */
  function CharBytes(c: char): (n: nat)
  {
    if c as int < 0x80 then 1 else if c as int < 0x800 then 2 else if c as int < 0x10000 then 3 else 4
  }

  /** The bits a UTF-8 sequence of n bytes can carry (section 3 of RFC 3629). */
  function Payload(n: nat): nat
  {
    if n <= 1 then 7 else 5 * n + 1
  }

  function TwoTo(b: nat): nat
  {
    if b == 0 then 1 else 2 * TwoTo(b - 1)
  }

  /** A character takes the fewest bytes that can carry it. */
  lemma CharBytesIsFewest(c: char)
    ensures 1 <= CharBytes(c) <= 4 && c as int < TwoTo(Payload(CharBytes(c)))
    ensures forall n :: 1 <= n < CharBytes(c) ==> c as int >= TwoTo(Payload(n))
  {
    assert TwoTo(7) == 0x80;
    assert TwoTo(11) == 0x800;
    assert TwoTo(16) == 0x10000;
    assert TwoTo(21) == 0x200000;
  }

  function Bytes(text: string): (n: nat)
  {
    if |text| == 0 then 0 else CharBytes(text[0]) + Bytes(text[1..])
  }

  /** The literal a step passed, if any. */
  function Passed(text: string, cursor: nat, s: Step): (ts: seq<Literal>)
    requires cursor <= s.end <= |text|
  {
    if s.literal then [Literal(cursor, s.end, Bytes(text[cursor..s.end]))] else []
  }

  /** The literals from a cursor on. */
  ghost function Tokens(next: Scanner, text: string, cursor: nat): (ts: seq<Literal>)
    requires Advances(next)
    decreases |text| - cursor
  {
    if cursor >= |text| then []
    else Passed(text, cursor, next(text, cursor)) + Tokens(next, text, next(text, cursor).end)
  }

  method Scan(next: Scanner, text: string) returns (result: seq<Literal>)
    requires Advances(next)
    ensures result == Tokens(next, text, 0)
  {
    result := [];
    var cursor := 0;
    while cursor < |text|
      invariant cursor <= |text|
      invariant result + Tokens(next, text, cursor) == Tokens(next, text, 0)
      decreases |text| - cursor
    {
      var s := next(text, cursor);
      ScanOne(next, text, cursor, s, result);
      assert !s.literal ==> result + Passed(text, cursor, s) == result;
      if s.literal {
        result := result + [Literal(cursor, s.end, Bytes(text[cursor..s.end]))];
      }
      cursor := s.end;
    }
  }

  lemma ScanOne(next: Scanner, text: string, cursor: nat, s: Step, result: seq<Literal>)
    requires Advances(next) && cursor < |text| && s == next(text, cursor)
    ensures result + Tokens(next, text, cursor) == (result + Passed(text, cursor, s)) + Tokens(next, text, s.end)
  {
    Appended(result, Passed(text, cursor, s), Tokens(next, text, s.end));
  }

  lemma Appended(a: seq<Literal>, b: seq<Literal>, c: seq<Literal>)
    ensures a + (b + c) == (a + b) + c
  {
  }

  // ----- the spans -----

  /** Literals are nonempty, in bounds, disjoint, in order and measured in bytes. */
  lemma {:induction false} TokensAreSpans(next: Scanner, text: string, cursor: nat)
    requires Advances(next)
    ensures forall i :: 0 <= i < |Tokens(next, text, cursor)| ==>
      var t := Tokens(next, text, cursor)[i];
      cursor <= t.start < t.end <= |text| && t.bytes == Bytes(text[t.start..t.end])
    ensures forall i :: 0 < i < |Tokens(next, text, cursor)| ==>
      Tokens(next, text, cursor)[i - 1].end <= Tokens(next, text, cursor)[i].start
    decreases |text| - cursor
  {
    if cursor < |text| {
      TokensAreSpans(next, text, next(text, cursor).end);
    }
  }

  /** A step that starts at the place is a literal, and is this one. */
  ghost predicate IsToken(next: Scanner, text: string, from: nat, t: Literal)
    requires Advances(next) && from <= |text|
  {
    && t.start < |text| && Boundary(next, text, from, t.start) && next(text, t.start) == Step(t.end, true)
    && t.start <= t.end <= |text| && t.bytes == Bytes(text[t.start..t.end])
  }

  /** The literals found are the steps that are literals: every one of them, and nothing else. */
  lemma {:induction false} TokensExactly(next: Scanner, text: string, from: nat, t: Literal)
    requires Advances(next) && from <= |text|
    ensures t in Tokens(next, text, from) <==> IsToken(next, text, from, t)
    decreases |text| - from
  {
    if from < |text| {
      var s := next(text, from);
      TokensExactly(next, text, s.end, t);
      if Boundary(next, text, s.end, t.start) { BoundaryAhead(next, text, s.end, t.start); }
      assert t in Tokens(next, text, from) <==> t in Passed(text, from, s) || t in Tokens(next, text, s.end);
    }
  }

  // ----- restarting -----

  function Moved(ts: seq<Literal>, p: nat): (ms: seq<Literal>)
  {
    seq(|ts|, i requires 0 <= i < |ts| => Literal(ts[i].start + p, ts[i].end + p, ts[i].bytes))
  }

  lemma MovedAppend(a: seq<Literal>, b: seq<Literal>, p: nat)
    ensures Moved(a + b, p) == Moved(a, p) + Moved(b, p)
  {
  }

  lemma PassedShift(text: string, p: nat, c: nat, s: Step)
    requires c <= s.end && p + s.end <= |text|
    ensures Passed(text, p + c, Step(s.end + p, s.literal)) == Moved(Passed(text[p..], c, s), p)
  {
    assert text[p..][c..s.end] == text[p + c..p + s.end];
  }

  lemma TokensStep(next: Scanner, text: string, cursor: nat, s: Step)
    requires Advances(next) && cursor < |text| && s == next(text, cursor)
    ensures cursor < s.end <= |text|
    ensures Tokens(next, text, cursor) == Passed(text, cursor, s) + Tokens(next, text, s.end)
  {
  }

  /** Scanning a suffix on its own gives the literals the whole scan finds from there. */
  lemma {:induction false} TokensOfSuffix(next: Scanner, text: string, p: nat, c: nat)
    requires Advances(next) && LooksAhead(next) && p + c <= |text|
    ensures Tokens(next, text, p + c) == Moved(Tokens(next, text[p..], c), p)
    decreases |text| - (p + c)
  {
    if p + c < |text| {
      var tail := text[p..];
      var s := next(tail, c);
      assert Unshifted(next, text, p, c);
      TokensStep(next, tail, c, s);
      TokensStep(next, text, p + c, Step(s.end + p, s.literal));
      PassedShift(text, p, c, s);
      TokensOfSuffix(next, text, p, s.end);
      MovedAppend(Passed(tail, c, s), Tokens(next, tail, s.end), p);
    }
  }

  /** The places where a scan step starts. */
  ghost predicate Boundary(next: Scanner, text: string, from: nat, p: nat)
    requires Advances(next) && from <= |text|
    decreases |text| - from
  {
    p == from || (from < |text| && Boundary(next, text, next(text, from).end, p))
  }

  lemma {:induction false} BoundaryAhead(next: Scanner, text: string, from: nat, p: nat)
    requires Advances(next) && from <= |text| && Boundary(next, text, from, p)
    ensures from <= p <= |text|
    decreases |text| - from
  {
    if p != from { BoundaryAhead(next, text, next(text, from).end, p); }
  }

  /** Every literal starts where a step starts, counted from the end of the literal before it. */
  lemma {:induction false} TokenAtBoundary(next: Scanner, text: string, cursor: nat, i: nat)
    requires Advances(next) && cursor <= |text| && i < |Tokens(next, text, cursor)|
    ensures var ts := Tokens(next, text, cursor);
      var from := if i == 0 then cursor else ts[i - 1].end;
      from <= ts[i].start < |text| && Boundary(next, text, from, ts[i].start)
    decreases |text| - cursor
  {
    var s := next(text, cursor);
    var before, ts := Passed(text, cursor, s), Tokens(next, text, s.end);
    assert Tokens(next, text, cursor) == before + ts;
    if i >= |before| { TokenAtBoundary(next, text, s.end, i - |before|); }
  }

  /** Restarting at a boundary loses nothing: the scan is what came before, then the suffix's own scan. */
  lemma {:induction false} RestartAtBoundary(next: Scanner, text: string, from: nat, p: nat)
    returns (before: seq<Literal>)
    requires Advances(next) && LooksAhead(next) && from <= |text| && Boundary(next, text, from, p)
    ensures p <= |text|
    ensures Tokens(next, text, from) == before + Moved(Tokens(next, text[p..], 0), p)
    ensures forall i :: 0 <= i < |before| ==> before[i].end <= p
    decreases |text| - from
  {
    if p == from {
      before := [];
      TokensOfSuffix(next, text, p, 0);
    } else {
      var s := next(text, from);
      before := RestartAtBoundary(next, text, s.end, p);
      before := Passed(text, from, s) + before;
      BoundaryAhead(next, text, s.end, p);
    }
  }
}
