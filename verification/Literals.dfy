/** Scanning C and C++ text for string literals. */
module Literals {
  import opened Scanning

  // ----- text search -----

  predicate StartsWith(text: string, prefix: string, at: nat)
  {
    at + |prefix| <= |text| && text[at..at + |prefix|] == prefix
  }

  /** The first place at or after `from` where pattern starts, or -1. */
  function Find(text: string, pattern: string, from: nat): (i: int)
    ensures i == -1 || (from <= i && StartsWith(text, pattern, i))
    ensures forall j :: from <= j && (i == -1 || j < i) ==> !StartsWith(text, pattern, j)
    decreases |text| - from
  {
    if from + |pattern| > |text| then -1
    else if StartsWith(text, pattern, from) then from
    else if from == |text| then -1
    else Find(text, pattern, from + 1)
  }

  /** The end of a quoted literal whose opening quote is at `cursor - 1`. */
  function QuoteEnd(text: string, quote: char, cursor: nat): (end: nat)
    ensures end <= |text|
    ensures cursor <= |text| ==> cursor <= end
    decreases |text| - cursor
  {
    if cursor >= |text| then |text|
    else if text[cursor] == '\\' then QuoteEnd(text, quote, cursor + 2)
    else if text[cursor] == quote then cursor + 1
    else QuoteEnd(text, quote, cursor + 1)
  }

  /** How many backslashes stand right before i, counting back to `from`. */
  function Backslashes(text: string, from: nat, i: nat): (n: nat)
    requires from <= i <= |text|
  {
    if i > from && text[i - 1] == '\\' then Backslashes(text, from, i - 1) + 1 else 0
  }

  /** A quote at i that no backslash escapes. */
  predicate Closes(text: string, quote: char, from: nat, i: nat)
    requires from <= i < |text|
  {
    text[i] == quote && Backslashes(text, from, i) % 2 == 0
  }

  /** Starting behind a character that is no backslash, or behind an escape, changes no parity. */
  lemma {:induction false} ParityFrom(text: string, from: nat, next: nat, i: nat)
    requires from < next <= i <= |text|
    requires if text[from] == '\\' then next == from + 2 else next == from + 1
    ensures Backslashes(text, from, i) % 2 == Backslashes(text, next, i) % 2
  {
    if i > next {
      ParityFrom(text, from, next, i - 1);
    } else {
      assert Backslashes(text, from, from) == 0;
      assert Backslashes(text, from, from + 1) == if text[from] == '\\' then 1 else 0;
    }
  }

  /**
   * A literal ends right behind its first quote that is preceded by an even
   * number of backslashes, or with the text if there is none.
   */
  lemma {:induction false} QuoteEndIsFirstClose(text: string, quote: char, from: nat)
    requires quote != '\\' && from <= |text|
    ensures var end := QuoteEnd(text, quote, from);
      || (from < end && Closes(text, quote, from, end - 1) && forall i :: from <= i < end - 1 ==> !Closes(text, quote, from, i))
      || (end == |text| && forall i :: from <= i < |text| ==> !Closes(text, quote, from, i))
    decreases |text| - from
  {
    if from < |text| && (text[from] == '\\' || text[from] != quote) {
      var next := if text[from] == '\\' then from + 2 else from + 1;
      if next <= |text| {
        QuoteEndIsFirstClose(text, quote, next);
        forall i | next <= i < |text|
          ensures Closes(text, quote, from, i) <==> Closes(text, quote, next, i)
        {
          ParityFrom(text, from, next, i);
        }
        forall i | from <= i < next && i < |text|
          ensures !Closes(text, quote, from, i)
        {
          if i == from + 1 {
            assert Backslashes(text, from, from) == 0;
            assert Backslashes(text, from, from + 1) == 1;
          }
        }
      }
    }
  }

  method SkipQuoted(text: string, start: nat, quote: char) returns (end: nat)
    ensures end == QuoteEnd(text, quote, start + 1)
  {
    var cursor := start + 1;
    while cursor < |text|
      invariant QuoteEnd(text, quote, cursor) == QuoteEnd(text, quote, start + 1)
    {
      if text[cursor] == '\\' {
        cursor := cursor + 2;
      } else if text[cursor] == quote {
        return cursor + 1;
      } else {
        cursor := cursor + 1;
      }
    }
    return |text|;
  }

  // ----- one scan step -----

  const RAW_PREFIXES := ["u8R\"", "uR\"", "UR\"", "LR\"", "R\""]
  const PREFIXES := ["u8\"", "u\"", "U\"", "L\"", "\""]

  /** The length of the first prefix in the list that is at the cursor, or 0. */
  function PrefixAt(text: string, prefixes: seq<string>, cursor: nat): (n: nat)
    ensures n > 0 ==> cursor + n <= |text|
  {
    if |prefixes| == 0 then 0
    else if StartsWith(text, prefixes[0], cursor) then |prefixes[0]|
    else PrefixAt(text, prefixes[1..], cursor)
  }

  /** The end of the first occurrence of a closing marker, or -1. */
  function ClosedBy(text: string, marker: string, from: nat): (end: int)
    ensures end == -1 || from + |marker| <= end <= |text|
  {
    var close := Find(text, marker, from);
    if close < 0 then -1 else close + |marker|
  }

  /** The end of a raw literal whose delimiter starts at `at`, or -1: the
      parenthesis after it is looked for from i on, within 17 characters. */
  function RawEnd(text: string, at: nat, i: nat): (end: int)
    requires at <= i <= |text|
    ensures end == -1 || i < end <= |text|
    decreases |text| - i
  {
    if i >= |text| || i >= at + 17 then -1
    else if text[i] == '(' then ClosedBy(text, ")" + text[at..i] + "\"", i + 1)
    else RawEnd(text, at, i + 1)
  }

  /** The end of a comment that runs to the closing mark, or to the end of the text. */
  function CommentEnd(text: string, mark: string, from: nat): (end: nat)
    requires from <= |text|
    ensures from <= end <= |text|
  {
    var close := Find(text, mark, from);
    if close < 0 then |text| else close + |mark|
  }

  /** The end of the raw literal at the cursor, or -1. */
  function RawAt(text: string, raws: seq<string>, cursor: nat): (end: int)
    ensures end == -1 || cursor < end <= |text|
  {
    RawAfter(text, PrefixAt(text, raws, cursor), cursor)
  }

  /** The same when a prefix of length n, if any, is at the cursor. */
  function RawAfter(text: string, n: nat, cursor: nat): (end: int)
    requires n > 0 ==> cursor + n <= |text|
    ensures end == -1 || cursor < end <= |text|
  {
    if n == 0 then -1 else RawEnd(text, cursor + n, cursor + n)
  }

  /** The end of the ordinary literal at the cursor, or -1. */
  function OrdinaryAt(text: string, plains: seq<string>, cursor: nat): (end: int)
    ensures end == -1 || cursor < end <= |text|
  {
    var n := PrefixAt(text, plains, cursor);
    if n == 0 then -1 else QuoteEnd(text, '"', cursor + n)
  }

  /** A step at text that is neither a comment nor a character literal. */
  function LiteralStep(text: string, raws: seq<string>, plains: seq<string>, cursor: nat): (s: Step)
    requires cursor < |text|
    ensures cursor < s.end <= |text|
  {
    if RawAt(text, raws, cursor) >= 0 then Step(RawAt(text, raws, cursor), true)
    else if OrdinaryAt(text, plains, cursor) >= 0 then Step(OrdinaryAt(text, plains, cursor), true)
    else Step(cursor + 1, false)
  }

  /** A scan step, for given raw and ordinary literal prefixes. */
  function StepWith(text: string, raws: seq<string>, plains: seq<string>, cursor: nat): (s: Step)
    requires cursor < |text|
    ensures cursor < s.end <= |text|
  {
    if StartsWith(text, "//", cursor) then Step(CommentEnd(text, "\n", cursor + 2), false)
    else if StartsWith(text, "/*", cursor) then Step(CommentEnd(text, "*/", cursor + 2), false)
    else if text[cursor] == '\'' then Step(QuoteEnd(text, '\'', cursor + 1), false)
    else LiteralStep(text, raws, plains, cursor)
  }

  function Next(text: string, cursor: nat): (s: Step)
    ensures cursor < |text| ==> cursor < s.end <= |text|
  {
    if cursor >= |text| then Step(cursor, false) else StepWith(text, RAW_PREFIXES, PREFIXES, cursor)
  }

  lemma NextAdvances()
    ensures Advances(Next)
  {
  }

  /** The literals of a text: all steps of the scan that are literals, in order. */
  method Literals(text: string) returns (result: seq<Literal>)
    ensures Advances(Next) && result == Tokens(Next, text, 0)
    ensures forall t :: t in result <==> IsToken(Next, text, 0, t)
  {
    NextAdvances();
    result := Scan(Next, text);
    forall t
      ensures t in result <==> IsToken(Next, text, 0, t)
    {
      TokensExactly(Next, text, 0, t);
    }
  }

  // ----- restarting -----

  lemma StartsShift(text: string, p: nat, prefix: string, c: nat)
    requires p <= |text|
    ensures StartsWith(text[p..], prefix, c) <==> StartsWith(text, prefix, p + c)
  {
    if p + c + |prefix| <= |text| {
      assert text[p..][c..c + |prefix|] == text[p + c..p + c + |prefix|];
    }
  }

  lemma {:induction false} FindShift(text: string, p: nat, pattern: string, c: nat)
    requires p <= |text|
    ensures Find(text, pattern, p + c) == if Find(text[p..], pattern, c) < 0 then -1 else Find(text[p..], pattern, c) + p
    decreases |text| - p - c
  {
    StartsShift(text, p, pattern, c);
    if p + c + |pattern| <= |text| && !StartsWith(text, pattern, p + c) && p + c < |text| {
      FindShift(text, p, pattern, c + 1);
    }
  }

  lemma {:induction false} QuoteShift(text: string, p: nat, quote: char, c: nat)
    requires p <= |text|
    ensures QuoteEnd(text, quote, p + c) == QuoteEnd(text[p..], quote, c) + p
    decreases |text| - p - c
  {
    if p + c < |text| {
      assert text[p..][c] == text[p + c];
      if text[p + c] == '\\' {
        QuoteShift(text, p, quote, c + 2);
      } else if text[p + c] != quote {
        QuoteShift(text, p, quote, c + 1);
      }
    }
  }

  lemma {:induction false} PrefixShift(text: string, p: nat, prefixes: seq<string>, c: nat)
    requires p <= |text|
    ensures PrefixAt(text[p..], prefixes, c) == PrefixAt(text, prefixes, p + c)
  {
    if |prefixes| > 0 {
      StartsShift(text, p, prefixes[0], c);
      PrefixShift(text, p, prefixes[1..], c);
    }
  }

  lemma CommentShift(text: string, p: nat, mark: string, c: nat)
    requires p + c <= |text|
    ensures CommentEnd(text, mark, p + c) == CommentEnd(text[p..], mark, c) + p
  {
    FindShift(text, p, mark, c);
  }

  lemma ClosedByShift(text: string, p: nat, marker: string, c: nat)
    requires p <= |text|
    ensures ClosedBy(text, marker, p + c)
         == if ClosedBy(text[p..], marker, c) < 0 then -1 else ClosedBy(text[p..], marker, c) + p
  {
    FindShift(text, p, marker, c);
  }

  lemma {:induction false} RawShift(text: string, p: nat, at: nat, i: nat)
    requires at <= i && p + i <= |text|
    ensures RawEnd(text, p + at, p + i) == if RawEnd(text[p..], at, i) < 0 then -1 else RawEnd(text[p..], at, i) + p
    decreases |text| - i
  {
    if p + i < |text| && i < at + 17 {
      assert text[p..][i] == text[p + i];
      if text[p + i] == '(' {
        assert text[p..][at..i] == text[p + at..p + i];
        ClosedByShift(text, p, ")" + text[p..][at..i] + "\"", i + 1);
      } else {
        RawShift(text, p, at, i + 1);
      }
    }
  }

  lemma RawAfterShift(text: string, n: nat, p: nat, c: nat)
    requires p <= |text| && (n > 0 ==> p + c + n <= |text|)
    ensures RawAfter(text, n, p + c) == if RawAfter(text[p..], n, c) < 0 then -1 else RawAfter(text[p..], n, c) + p
  {
    if n > 0 {
      RawShift(text, p, c + n, c + n);
      assert p + (c + n) == p + c + n;
    }
  }

  lemma RawAtShift(text: string, raws: seq<string>, p: nat, c: nat)
    requires p <= |text|
    ensures RawAt(text, raws, p + c) == if RawAt(text[p..], raws, c) < 0 then -1 else RawAt(text[p..], raws, c) + p
  {
    PrefixShift(text, p, raws, c);
    RawAfterShift(text, PrefixAt(text[p..], raws, c), p, c);
  }

  lemma OrdinaryAtShift(text: string, plains: seq<string>, p: nat, c: nat)
    requires p <= |text|
    ensures OrdinaryAt(text, plains, p + c)
         == if OrdinaryAt(text[p..], plains, c) < 0 then -1 else OrdinaryAt(text[p..], plains, c) + p
  {
    PrefixShift(text, p, plains, c);
    var n := PrefixAt(text[p..], plains, c);
    if n > 0 { QuoteShift(text, p, '"', c + n); }
  }

  lemma LiteralShift(text: string, raws: seq<string>, plains: seq<string>, p: nat, c: nat)
    requires p + c < |text|
    ensures var s := LiteralStep(text[p..], raws, plains, c);
            LiteralStep(text, raws, plains, p + c) == Step(s.end + p, s.literal)
  {
    RawAtShift(text, raws, p, c);
    OrdinaryAtShift(text, plains, p, c);
  }

  /** The same step, p characters further on. */
  ghost predicate Moves(far: Step, near: Step, p: nat)
  {
    far == Step(near.end + p, near.literal)
  }

  lemma CommentStepShift(text: string, raws: seq<string>, plains: seq<string>, p: nat, c: nat)
    requires p + c < |text| && (StartsWith(text, "//", p + c) || StartsWith(text, "/*", p + c))
    ensures Moves(StepWith(text, raws, plains, p + c), StepWith(text[p..], raws, plains, c), p)
  {
    StartsShift(text, p, "//", c);
    StartsShift(text, p, "/*", c);
    CommentShift(text, p, "\n", c + 2);
    CommentShift(text, p, "*/", c + 2);
  }

  lemma StepShift(text: string, raws: seq<string>, plains: seq<string>, p: nat, c: nat)
    requires p + c < |text|
    ensures Moves(StepWith(text, raws, plains, p + c), StepWith(text[p..], raws, plains, c), p)
  {
    StartsShift(text, p, "//", c);
    StartsShift(text, p, "/*", c);
    if StartsWith(text, "//", p + c) || StartsWith(text, "/*", p + c) {
      CommentStepShift(text, raws, plains, p, c);
    } else if text[p + c] == '\'' {
      QuoteShift(text, p, '\'', c + 1);
    } else {
      LiteralShift(text, raws, plains, p, c);
    }
  }

  /** Scanning looks only ahead, so it can be restarted anywhere. */
  lemma NextLooksAhead()
    ensures LooksAhead(Next)
  {
    forall text: string, p: nat, c: nat | p + c < |text|
      ensures Unshifted(Next, text, p, c)
    {
      NextUnshifted(text, p, c);
    }
  }

  lemma NextUnshifted(text: string, p: nat, c: nat)
    requires p + c < |text|
    ensures Unshifted(Next, text, p, c)
  {
    StepShift(text, RAW_PREFIXES, PREFIXES, p, c);
    assert Moves(Next(text, p + c), Next(text[p..], c), p);
  }

  /** The literals of a text are those that end by a step boundary, then those of the rest on its own. */
  lemma RestartLiterals(text: string, p: nat) returns (before: seq<Literal>)
    requires Advances(Next) && Boundary(Next, text, 0, p)
    ensures p <= |text| && Tokens(Next, text, 0) == before + Moved(Tokens(Next, text[p..], 0), p)
    ensures forall i :: 0 <= i < |before| ==> before[i].end <= p
  {
    NextLooksAhead();
    before := RestartAtBoundary(Next, text, 0, p);
  }

  // ----- steps over characters that open nothing -----

  /** The prefix is nonempty and does not start with this character. */
  predicate StartsOtherwise(prefix: string, c: char)
  {
    |prefix| > 0 && prefix[0] != c
  }

  lemma StartsFirst(text: string, prefix: string, p: nat)
    requires StartsWith(text, prefix, p) && |prefix| > 0
    ensures text[p] == prefix[0]
  {
    assert text[p..p + |prefix|][0] == text[p];
  }

  lemma {:induction false} NoPrefix(text: string, prefixes: seq<string>, p: nat)
    requires p < |text| && forall s :: s in prefixes ==> StartsOtherwise(s, text[p])
    ensures PrefixAt(text, prefixes, p) == 0
  {
    if |prefixes| > 0 {
      assert prefixes[0] in prefixes;
      if StartsWith(text, prefixes[0], p) { StartsFirst(text, prefixes[0], p); }
      NoPrefix(text, prefixes[1..], p);
    }
  }

  lemma PlainStepWith(text: string, raws: seq<string>, plains: seq<string>, p: nat)
    requires p < |text| && text[p] != '/' && text[p] != '\''
    requires forall s :: s in raws ==> StartsOtherwise(s, text[p])
    requires forall s :: s in plains ==> StartsOtherwise(s, text[p])
    ensures StepWith(text, raws, plains, p) == Step(p + 1, false)
  {
    NoPrefix(text, raws, p);
    NoPrefix(text, plains, p);
    if StartsWith(text, "//", p) { StartsFirst(text, "//", p); }
    if StartsWith(text, "/*", p) { StartsFirst(text, "/*", p); }
  }

  /** A character that opens neither a comment nor a literal. */
  predicate OpensNothing(c: char)
  {
    c != 'u' && c != 'U' && c != 'L' && c != 'R' && c != '"' && c != '\'' && c != '/'
  }

  lemma PrefixOpeners(c: char)
    requires OpensNothing(c)
    ensures forall s :: s in RAW_PREFIXES || s in PREFIXES ==> StartsOtherwise(s, c)
  {
    forall s | s in RAW_PREFIXES || s in PREFIXES
      ensures StartsOtherwise(s, c)
    {
      assert s == "u8R\"" || s == "uR\"" || s == "UR\"" || s == "LR\"" || s == "R\""
          || s == "u8\"" || s == "u\"" || s == "U\"" || s == "L\"" || s == "\"";
    }
  }

  lemma PlainStep(text: string, p: nat)
    requires p < |text| && OpensNothing(text[p])
    ensures Next(text, p) == Step(p + 1, false)
  {
    PrefixOpeners(text[p]);
    PlainStepWith(text, RAW_PREFIXES, PREFIXES, p);
  }

  // ----- what a scan step passes -----

  /** The mark stands at place i, character by character. */
  ghost predicate Stands(text: string, mark: string, i: nat)
  {
    i + |mark| <= |text| && forall k :: 0 <= k < |mark| ==> text[i + k] == mark[k]
  }

  lemma StandsIsStartsWith(text: string, mark: string, i: nat)
    ensures Stands(text, mark, i) <==> StartsWith(text, mark, i)
  {
    if i + |mark| <= |text| {
      var piece := text[i..i + |mark|];
      assert forall k :: 0 <= k < |mark| ==> piece[k] == text[i + k];
      assert Stands(text, mark, i) ==> piece == mark;
    }
  }

  /** The place behind the first mark at or after `from`. */
  ghost predicate BehindFirst(text: string, mark: string, from: nat, end: nat)
  {
    && from + |mark| <= end && Stands(text, mark, end - |mark|)
    && forall i :: from <= i < end - |mark| ==> !Stands(text, mark, i)
  }

  ghost predicate NoMark(text: string, mark: string, from: nat)
  {
    forall i :: from <= i ==> !Stands(text, mark, i)
  }

  /** The place behind the first quote that an even number of backslashes precedes, or the end of the text. */
  ghost predicate BehindQuote(text: string, quote: char, from: nat, end: nat)
    requires from <= |text|
  {
    || (from < end <= |text| && Closes(text, quote, from, end - 1)
        && forall i :: from <= i < end - 1 ==> !Closes(text, quote, from, i))
    || (end == |text| && forall i :: from <= i < |text| ==> !Closes(text, quote, from, i))
  }

  /** A raw literal: a prefix, a delimiter of at most 16 characters, and all up to the first closing mark. */
  ghost predicate IsRaw(text: string, raws: seq<string>, cursor: nat, end: nat)
  {
    exists prefix, open: nat :: IsRawWith(text, raws, cursor, prefix, open, end)
  }

  ghost predicate IsRawWith(text: string, raws: seq<string>, cursor: nat, prefix: string, open: nat, end: nat)
  {
    && prefix in raws && Stands(text, prefix, cursor)
    && OpensAt(text, cursor + |prefix|, open)
    && BehindFirst(text, ")" + text[cursor + |prefix|..open] + "\"", open + 1, end)
  }

  /** The first parenthesis from `start` on, behind at most 16 characters. */
  ghost predicate OpensAt(text: string, start: nat, open: nat)
  {
    && start <= open < |text| && open <= start + 16 && text[open] == '('
    && forall i :: start <= i < open ==> text[i] != '('
  }

  /** An ordinary literal: a prefix and all up to the closing quote. */
  ghost predicate IsOrdinary(text: string, plains: seq<string>, cursor: nat, end: nat)
  {
    exists prefix :: IsOrdinaryWith(text, plains, cursor, prefix, end)
  }

  ghost predicate IsOrdinaryWith(text: string, plains: seq<string>, cursor: nat, prefix: string, end: nat)
  {
    && prefix in plains && Stands(text, prefix, cursor)
    && BehindQuote(text, '"', cursor + |prefix|, end)
  }

  /** What the step at the cursor is, and where it ends. */
  ghost predicate StepIs(text: string, cursor: nat, s: Step)
    requires cursor < |text|
  {
    StepIsFor(text, ["u8R\"", "uR\"", "UR\"", "LR\"", "R\""], ["u8\"", "u\"", "U\"", "L\"", "\""], cursor, s)
  }

  /** The same for given prefixes of raw and ordinary literals. */
  ghost predicate StepIsFor(text: string, raws: seq<string>, plains: seq<string>, cursor: nat, s: Step)
    requires cursor < |text|
  {
    if Stands(text, "//", cursor) then
      !s.literal && CommentIs(text, "\n", cursor + 2, s.end)
    else if Stands(text, "/*", cursor) then
      !s.literal && CommentIs(text, "*/", cursor + 2, s.end)
    else if text[cursor] == '\'' then
      !s.literal && BehindQuote(text, '\'', cursor + 1, s.end)
    else if exists end: nat :: IsRaw(text, raws, cursor, end) then
      s.literal && IsRaw(text, raws, cursor, s.end)
    else if exists end: nat :: IsOrdinary(text, plains, cursor, end) then
      s.literal && IsOrdinary(text, plains, cursor, s.end)
    else
      s == Step(cursor + 1, false)
  }

  /** A comment ends behind its mark, or with the text. */
  ghost predicate CommentIs(text: string, mark: string, from: nat, end: nat)
  {
    BehindFirst(text, mark, from, end) || (NoMark(text, mark, from) && end == |text|)
  }

  lemma FindIs(text: string, mark: string, from: nat)
    requires |mark| > 0
    ensures Find(text, mark, from) == -1 ==> NoMark(text, mark, from)
    ensures Find(text, mark, from) >= 0 ==> BehindFirst(text, mark, from, Find(text, mark, from) + |mark|)
  {
    forall i: nat
      ensures Stands(text, mark, i) <==> StartsWith(text, mark, i)
    {
      StandsIsStartsWith(text, mark, i);
    }
  }

  lemma FirstIsOne(text: string, mark: string, from: nat, a: nat, b: nat)
    requires |mark| > 0 && BehindFirst(text, mark, from, a)
    ensures !NoMark(text, mark, from)
    ensures BehindFirst(text, mark, from, b) ==> a == b
  {
  }

  lemma QuoteIsOne(text: string, quote: char, from: nat, a: nat, b: nat)
    requires from <= |text| && BehindQuote(text, quote, from, a) && BehindQuote(text, quote, from, b)
    ensures a == b
  {
  }

  lemma CommentEnds(text: string, mark: string, from: nat, end: nat)
    requires from <= |text| && |mark| > 0
    ensures CommentIs(text, mark, from, end) <==> end == CommentEnd(text, mark, from)
  {
    FindIs(text, mark, from);
    var close := Find(text, mark, from);
    if close >= 0 { FirstIsOne(text, mark, from, close + |mark|, end); }
  }

  lemma QuoteEnds(text: string, quote: char, from: nat, end: nat)
    requires from <= |text| && quote != '\\'
    ensures BehindQuote(text, quote, from, end) <==> end == QuoteEnd(text, quote, from)
  {
    QuoteEndIsFirstClose(text, quote, from);
    if BehindQuote(text, quote, from, end) { QuoteIsOne(text, quote, from, end, QuoteEnd(text, quote, from)); }
  }

  // ----- the step function against this -----

  /** No two of the prefixes can stand at one place. */
  ghost predicate Exclusive(prefixes: seq<string>)
  {
    forall p, q :: p in prefixes && q in prefixes && p != q ==> Clash(p, q)
  }

  ghost predicate Clash(p: string, q: string)
  {
    exists k :: 0 <= k < |p| && k < |q| && p[k] != q[k]
  }

  lemma ClashAt(p: string, q: string, k: nat)
    requires k < |p| && k < |q| && p[k] != q[k]
    ensures Clash(p, q) && Clash(q, p)
  {
  }

  /** Strings with different first letters, but for two that start with u and differ in the second. */
  lemma FiveClash(a: string, b: string, c: string, d: string, e: string)
    requires |a| > 1 && |b| > 1 && |c| > 0 && |d| > 0 && |e| > 0 && a[1] != b[1]
    requires a[0] == b[0] == 'u' && c[0] == 'U' && d[0] == 'L' && e[0] != 'u' && e[0] != 'U' && e[0] != 'L'
    ensures Exclusive([a, b, c, d, e])
  {
    ClashAt(a, b, 1);
    ClashAt(a, c, 0);
    ClashAt(a, d, 0);
    ClashAt(a, e, 0);
    ClashAt(b, c, 0);
    ClashAt(b, d, 0);
    ClashAt(b, e, 0);
    ClashAt(c, d, 0);
    ClashAt(c, e, 0);
    ClashAt(d, e, 0);
  }

  lemma {:induction false} PrefixFound(text: string, prefixes: seq<string>, cursor: nat)
    requires forall p :: p in prefixes ==> |p| > 0
    ensures PrefixAt(text, prefixes, cursor) == 0 <==> forall p :: p in prefixes ==> !Stands(text, p, cursor)
    ensures PrefixAt(text, prefixes, cursor) > 0 ==>
      exists p :: p in prefixes && Stands(text, p, cursor) && |p| == PrefixAt(text, prefixes, cursor)
  {
    if |prefixes| > 0 {
      assert prefixes == [prefixes[0]] + prefixes[1..];
      StandsIsStartsWith(text, prefixes[0], cursor);
      PrefixFound(text, prefixes[1..], cursor);
    }
  }

  lemma PrefixIsOne(text: string, prefixes: seq<string>, cursor: nat, p: string)
    requires Exclusive(prefixes) && (forall q :: q in prefixes ==> |q| > 0)
    requires p in prefixes && Stands(text, p, cursor)
    ensures PrefixAt(text, prefixes, cursor) == |p|
  {
    PrefixFound(text, prefixes, cursor);
    forall q | q in prefixes && q != p
      ensures !Stands(text, q, cursor)
    {
      ClashSeparates(text, cursor, p, q);
    }
  }

  lemma ClashSeparates(text: string, cursor: nat, p: string, q: string)
    requires Clash(p, q) && Stands(text, p, cursor)
    ensures !Stands(text, q, cursor)
  {
    var k :| 0 <= k < |p| && k < |q| && p[k] != q[k];
    assert text[cursor + k] == p[k];
  }

  lemma PrefixesClash()
    ensures Exclusive(RAW_PREFIXES) && Exclusive(PREFIXES)
    ensures forall p :: p in RAW_PREFIXES || p in PREFIXES ==> |p| > 0
  {
    FiveClash("u8R\"", "uR\"", "UR\"", "LR\"", "R\"");
    FiveClash("u8\"", "u\"", "U\"", "L\"", "\"");
  }

  lemma {:induction false} RawEndOpens(text: string, at: nat, i: nat) returns (open: int)
    requires at <= i <= |text| && i <= at + 17 && forall k :: at <= k < i ==> text[k] != '('
    ensures open < 0 ==> RawEnd(text, at, i) == -1 && forall o: nat :: !OpensAt(text, at, o)
    ensures open >= 0 ==> OpensAt(text, at, open)
    ensures open >= 0 ==> RawEnd(text, at, i) == ClosedBy(text, ")" + text[at..open] + "\"", open + 1)
    decreases |text| - i
  {
    if i >= |text| || i >= at + 17 {
      open := -1;
    } else if text[i] == '(' {
      open := i;
    } else {
      open := RawEndOpens(text, at, i + 1);
    }
  }

  lemma ClosedByIs(text: string, mark: string, from: nat, end: nat)
    requires |mark| > 0
    ensures BehindFirst(text, mark, from, end) <==> end == ClosedBy(text, mark, from)
  {
    FindIs(text, mark, from);
    var close := Find(text, mark, from);
    if close >= 0 { FirstIsOne(text, mark, from, close + |mark|, end); }
    if BehindFirst(text, mark, from, end) { FirstIsOne(text, mark, from, end, end); }
  }

  lemma OpensOnce(text: string, start: nat, a: nat, b: nat)
    requires OpensAt(text, start, a) && OpensAt(text, start, b)
    ensures a == b
  {
  }

  ghost predicate Usable(prefixes: seq<string>)
  {
    Exclusive(prefixes) && forall p :: p in prefixes ==> |p| > 0
  }

  /** The raw literal behind a given prefix. */
  lemma RawBehind(text: string, raws: seq<string>, cursor: nat, prefix: string, end: nat)
    requires prefix in raws && Stands(text, prefix, cursor)
    ensures (exists open: nat :: IsRawWith(text, raws, cursor, prefix, open, end))
        <==> end == RawEnd(text, cursor + |prefix|, cursor + |prefix|)
  {
    var start := cursor + |prefix|;
    var open := RawEndOpens(text, start, start);
    if open >= 0 {
      ClosedByIs(text, ")" + text[start..open] + "\"", open + 1, end);
      if end == RawEnd(text, start, start) { assert IsRawWith(text, raws, cursor, prefix, open, end); }
      if o: nat :| IsRawWith(text, raws, cursor, prefix, o, end) { OpensOnce(text, start, open, o); }
    }
  }

  lemma RawIs(text: string, raws: seq<string>, cursor: nat, end: nat)
    requires Usable(raws)
    ensures IsRaw(text, raws, cursor, end) <==> end == RawAt(text, raws, cursor)
  {
    if IsRaw(text, raws, cursor, end) { RawIsFound(text, raws, cursor, end); }
    if end == RawAt(text, raws, cursor) { FoundIsRaw(text, raws, cursor, end); }
  }

  lemma RawIsFound(text: string, raws: seq<string>, cursor: nat, end: nat)
    requires Usable(raws) && IsRaw(text, raws, cursor, end)
    ensures end == RawAt(text, raws, cursor)
  {
    var prefix, open: nat :| IsRawWith(text, raws, cursor, prefix, open, end);
    PrefixIsOne(text, raws, cursor, prefix);
    RawBehind(text, raws, cursor, prefix, end);
  }

  lemma FoundIsRaw(text: string, raws: seq<string>, cursor: nat, end: nat)
    requires Usable(raws) && end == RawAt(text, raws, cursor)
    ensures IsRaw(text, raws, cursor, end)
  {
    PrefixFound(text, raws, cursor);
    var p :| p in raws && Stands(text, p, cursor) && |p| == PrefixAt(text, raws, cursor);
    RawBehind(text, raws, cursor, p, end);
    var open: nat :| IsRawWith(text, raws, cursor, p, open, end);
  }

  lemma OrdinaryIs(text: string, plains: seq<string>, cursor: nat, end: nat)
    requires Usable(plains)
    ensures IsOrdinary(text, plains, cursor, end) <==> end == OrdinaryAt(text, plains, cursor)
  {
    PrefixFound(text, plains, cursor);
    var n := PrefixAt(text, plains, cursor);
    if n > 0 {
      var p :| p in plains && Stands(text, p, cursor) && |p| == n;
      QuoteEnds(text, '"', cursor + |p|, end);
      if end == OrdinaryAt(text, plains, cursor) { assert IsOrdinaryWith(text, plains, cursor, p, end); }
    }
    if prefix :| IsOrdinaryWith(text, plains, cursor, prefix, end) {
      PrefixIsOne(text, plains, cursor, prefix);
      QuoteEnds(text, '"', cursor + |prefix|, end);
    }
  }

  /** At text that is no comment and no character literal. */
  lemma LiteralStepIs(text: string, raws: seq<string>, plains: seq<string>, cursor: nat, s: Step)
    requires cursor < |text| && Usable(raws) && Usable(plains)
    requires !Stands(text, "//", cursor) && !Stands(text, "/*", cursor) && text[cursor] != '\''
    ensures StepIsFor(text, raws, plains, cursor, s) <==> s == LiteralStep(text, raws, plains, cursor)
  {
    var raw, ordinary := RawAt(text, raws, cursor), OrdinaryAt(text, plains, cursor);
    RawIs(text, raws, cursor, s.end);
    OrdinaryIs(text, plains, cursor, s.end);
    if raw >= 0 { RawIs(text, raws, cursor, raw); }
    if ordinary >= 0 { OrdinaryIs(text, plains, cursor, ordinary); }
    if end: nat :| IsRaw(text, raws, cursor, end) { RawIs(text, raws, cursor, end); }
    if end: nat :| IsOrdinary(text, plains, cursor, end) { OrdinaryIs(text, plains, cursor, end); }
  }

  lemma StepWithExactly(text: string, raws: seq<string>, plains: seq<string>, cursor: nat, s: Step)
    requires cursor < |text| && Usable(raws) && Usable(plains)
    ensures StepIsFor(text, raws, plains, cursor, s) <==> s == StepWith(text, raws, plains, cursor)
  {
    StandsIsStartsWith(text, "//", cursor);
    StandsIsStartsWith(text, "/*", cursor);
    if Stands(text, "//", cursor) {
      CommentEnds(text, "\n", cursor + 2, s.end);
    } else if Stands(text, "/*", cursor) {
      CommentEnds(text, "*/", cursor + 2, s.end);
    } else if text[cursor] == '\'' {
      QuoteEnds(text, '\'', cursor + 1, s.end);
    } else {
      LiteralStepIs(text, raws, plains, cursor, s);
    }
  }

  /** The scanner's step is the one described, and no other is. */
  lemma NextExactly(text: string, cursor: nat, s: Step)
    requires cursor < |text|
    ensures StepIs(text, cursor, s) <==> s == Next(text, cursor)
  {
    PrefixesClash();
    StepWithExactly(text, RAW_PREFIXES, PREFIXES, cursor, s);
  }

  /** A stretch of text is found exactly when the scan gets to its start and it is a literal there. */
  lemma FoundExactly(text: string, t: Literal)
    requires Advances(Next)
    ensures t in Tokens(Next, text, 0)
       <==> t.start < t.end <= |text| && Boundary(Next, text, 0, t.start) && StepIs(text, t.start, Step(t.end, true))
            && t.bytes == Bytes(text[t.start..t.end])
  {
    TokensExactly(Next, text, 0, t);
    if t.start < |text| { NextExactly(text, t.start, Step(t.end, true)); }
  }
}
