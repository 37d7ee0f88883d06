/** The audit of string literals too long for a compiler: single ones and joined runs. */
module Audit {
  import opened Scanning
  import Literals

  // ----- what may stand between joined literals -----

  /** White space, as Python's isspace has it. */
  predicate IsSpace(c: char)
  {
    var n := c as int;
    || 9 <= n <= 13 || 28 <= n <= 32 || n == 0x85 || n == 0xA0 || n == 0x1680 || 0x2000 <= n <= 0x200A
    || n == 0x2028 || n == 0x2029 || n == 0x202F || n == 0x205F || n == 0x3000
  }

  /** The 29 white space characters of Unicode, one by one. */
  const SPACES: seq<int> := [
    0x9, 0xA, 0xB, 0xC, 0xD, 0x1C, 0x1D, 0x1E, 0x1F, 0x20,
    0x85, 0xA0, 0x1680, 0x2000, 0x2001, 0x2002, 0x2003, 0x2004, 0x2005, 0x2006,
    0x2007, 0x2008, 0x2009, 0x200A, 0x2028, 0x2029, 0x202F, 0x205F, 0x3000]

  lemma IsSpaceIs(c: char)
    ensures IsSpace(c) <==> c as int in SPACES
  {
  }

  /** Where the white space or the closed comment at the cursor ends, or -1. */
  function PieceEnd(text: string, cursor: nat): (end: int)
    ensures cursor < |text| ==> end == -1 || cursor < end <= |text|
  {
    if cursor >= |text| then -1
    else if IsSpace(text[cursor]) then cursor + 1
    else if Literals.StartsWith(text, "//", cursor) then Literals.CommentEnd(text, "\n", cursor + 2)
    else if Literals.StartsWith(text, "/*", cursor) then Literals.ClosedBy(text, "*/", cursor + 2)
    else -1
  }

  /** The text from the cursor on is one piece after another. */
  predicate Pieces(piece: (string, nat) -> int, text: string, cursor: nat)
    decreases |text| - cursor
  {
    cursor >= |text| || (cursor < piece(text, cursor) && Pieces(piece, text, piece(text, cursor)))
  }

  /** Only white space and closed comments from the cursor on. */
  predicate Trivia(text: string, cursor: nat)
  {
    Pieces(PieceEnd, text, cursor)
  }

  method IsTrivia(text: string) returns (trivia: bool)
    ensures trivia == Trivia(text, 0)
  {
    var cursor := 0;
    while cursor < |text|
      invariant Pieces(PieceEnd, text, cursor) == Trivia(text, 0)
      decreases |text| - cursor
    {
      var end := PieceEnd(text, cursor);
      if end < 0 { return false; }
      cursor := end;
    }
    return true;
  }

  // ----- trivia between two literals, as the scanner passes it -----

  /** A scan step that starts here passes white space or a comment. */
  predicate TriviaAt(text: string, p: nat)
    requires p < |text|
  {
    IsSpace(text[p]) || Literals.StartsWith(text, "//", p) || Literals.StartsWith(text, "/*", p)
  }

  /** Every scan step from one place up to another passes white space or a comment. */
  ghost predicate TriviaSteps(next: Scanner, text: string, from: nat, upto: nat)
    requires Advances(next) && from <= upto <= |text|
  {
    forall p :: from <= p < upto && Boundary(next, text, from, p) ==> TriviaAt(text, p)
  }

  lemma SliceInside(text: string, a: nat, upto: nat, c: nat, d: nat)
    requires c <= d && a + d <= upto <= |text|
    ensures text[a..upto][c..d] == text[a + c..a + d]
  {
    var s := text[a..upto];
    assert forall k :: 0 <= k < d - c ==> s[c..d][k] == text[a + c..a + d][k];
  }

  lemma StartsInside(text: string, a: nat, upto: nat, prefix: string, c: nat)
    requires a + c <= upto <= |text|
    ensures Literals.StartsWith(text[a..upto], prefix, c)
       <==> Literals.StartsWith(text, prefix, a + c) && a + c + |prefix| <= upto
  {
    if a + c + |prefix| <= upto {
      SliceInside(text, a, upto, c, c + |prefix|);
    }
  }

  /** A first occurrence that ends within a stretch of the text is the stretch's own. */
  lemma FindInside(text: string, a: nat, upto: nat, pattern: string, c: nat)
    requires a + c <= upto <= |text| && |pattern| > 0
    requires 0 <= Literals.Find(text, pattern, a + c) && Literals.Find(text, pattern, a + c) + |pattern| <= upto
    ensures Literals.Find(text[a..upto], pattern, c) + a == Literals.Find(text, pattern, a + c)
  {
    var far, near := Literals.Find(text, pattern, a + c), Literals.Find(text[a..upto], pattern, c);
    StartsInside(text, a, upto, pattern, far - a);
    if near >= 0 { StartsInside(text, a, upto, pattern, near); }
  }

  /** The piece a stretch of text has at a place is the scan step there. */
  ghost predicate PieceFits(piece: (string, nat) -> int, next: Scanner, text: string, a: nat, upto: nat, c: nat)
    requires a + c < upto < |text|
  {
    && (TriviaAt(text, a + c) ==> piece(text[a..upto], c) + a == next(text, a + c).end)
    && (!TriviaAt(text, a + c) ==> piece(text[a..upto], c) == -1)
  }

  /** Pieces are scan steps wherever the step ends within the stretch. */
  ghost predicate PiecesFit(piece: (string, nat) -> int, next: Scanner)
  {
    forall text: string, a: nat, upto: nat, c: nat ::
      a + c < upto < |text| && next(text, a + c).end <= upto ==> PieceFits(piece, next, text, a, upto, c)
  }

  lemma PieceIsStep(text: string, a: nat, upto: nat, c: nat)
    requires a + c < upto < |text| && Literals.Next(text, a + c).end <= upto
    ensures PieceFits(PieceEnd, Literals.Next, text, a, upto, c)
  {
    StartsInside(text, a, upto, "//", c);
    StartsInside(text, a, upto, "/*", c);
    if IsSpace(text[a + c]) {
      Literals.PlainStep(text, a + c);
    } else if Literals.StartsWith(text, "//", a + c) {
      FindInside(text, a, upto, "\n", c + 2);
    } else if Literals.StartsWith(text, "/*", a + c) {
      FindInside(text, a, upto, "*/", c + 2);
    }
  }

  lemma NextFitsPieces()
    ensures PiecesFit(PieceEnd, Literals.Next)
  {
    forall text: string, a: nat, upto: nat, c: nat
      | a + c < upto < |text| && Literals.Next(text, a + c).end <= upto
      ensures PieceFits(PieceEnd, Literals.Next, text, a, upto, c)
    {
      PieceIsStep(text, a, upto, c);
    }
  }

  lemma {:induction false} PiecesAreSteps(
    piece: (string, nat) -> int, next: Scanner, text: string, a: nat, upto: nat, c: nat)
    requires Advances(next) && PiecesFit(piece, next)
    requires a + c <= upto < |text| && Boundary(next, text, a + c, upto)
    ensures Pieces(piece, text[a..upto], c) <==> TriviaSteps(next, text, a + c, upto)
    decreases upto - (a + c)
  {
    if a + c < upto {
      var end := next(text, a + c).end;
      BoundaryAhead(next, text, end, upto);
      assert PieceFits(piece, next, text, a, upto, c);
      PiecesAreSteps(piece, next, text, a, upto, end - a);
      FirstStep(next, text, a + c, upto);
    }
  }

  lemma FirstStep(next: Scanner, text: string, from: nat, upto: nat)
    requires Advances(next) && from < upto <= |text| && next(text, from).end <= upto
    ensures TriviaSteps(next, text, from, upto)
       <==> TriviaAt(text, from) && TriviaSteps(next, text, next(text, from).end, upto)
  {
    var end := next(text, from).end;
    assert Boundary(next, text, from, from);
    if TriviaSteps(next, text, from, upto) {
      forall p | end <= p < upto && Boundary(next, text, end, p)
        ensures TriviaAt(text, p)
      {
        assert Boundary(next, text, from, p);
      }
    }
    if TriviaAt(text, from) && TriviaSteps(next, text, end, upto) {
      forall p | from <= p < upto && Boundary(next, text, from, p)
        ensures TriviaAt(text, p)
      {
        if p != from { BoundaryAhead(next, text, end, p); }
      }
    }
  }

  // ----- runs of literals -----

  /** Well-placed tokens of a text. */
  ghost predicate Ordered(text: string, tokens: seq<Literal>)
  {
    && (forall i :: 0 <= i < |tokens| ==> tokens[i].start <= tokens[i].end <= |text|)
    && (forall i :: 0 < i < |tokens| ==> tokens[i - 1].end <= tokens[i].start)
  }

  /** Token n is joined to the one before it. */
  predicate Joined(text: string, tokens: seq<Literal>, n: nat)
    requires 0 < n < |tokens| && tokens[n - 1].end <= tokens[n].start <= |text|
  {
    Trivia(text[tokens[n - 1].end..tokens[n].start], 0)
  }

  /** The text between two literals, cut out, is all pieces exactly when the scanner's steps over it are. */
  lemma GapIsSteps(piece: (string, nat) -> int, next: Scanner, text: string, n: nat)
    requires Advances(next) && PiecesFit(piece, next) && 0 < n < |Tokens(next, text, 0)|
    ensures var ts := Tokens(next, text, 0);
      && ts[n - 1].end <= ts[n].start <= |text|
      && (Pieces(piece, text[ts[n - 1].end..ts[n].start], 0)
          <==> TriviaSteps(next, text, ts[n - 1].end, ts[n].start))
  {
    var ts := Tokens(next, text, 0);
    TokenAtBoundary(next, text, 0, n);
    PiecesAreSteps(piece, next, text, ts[n - 1].end, ts[n].start, 0);
  }

  /**
   * The audit cuts out the text between two literals and looks at it alone;
   * that is the same as asking the scan of the whole text whether all it
   * passed between the two was white space and comments.
   */
  lemma JoinedExactly(text: string, n: nat)
    requires Advances(Literals.Next) && 0 < n < |Tokens(Literals.Next, text, 0)|
    ensures var ts := Tokens(Literals.Next, text, 0);
      && ts[n - 1].end <= ts[n].start <= |text|
      && (Joined(text, ts, n) <==> TriviaSteps(Literals.Next, text, ts[n - 1].end, ts[n].start))
  {
    NextFitsPieces();
    GapIsSteps(PieceEnd, Literals.Next, text, n);
  }

  function Total(tokens: seq<Literal>, i: nat, j: nat): (bytes: nat)
    requires i <= j <= |tokens|
  {
    if i == j then 0 else Total(tokens, i, j - 1) + tokens[j - 1].bytes
  }

  /** Tokens i to j - 1 make one string: a nonempty stretch, each joined to the one before. */
  ghost predicate Run(text: string, tokens: seq<Literal>, i: nat, j: nat)
    requires Ordered(text, tokens)
  {
    i < j <= |tokens| && forall k :: i < k < j ==> Joined(text, tokens, k)
  }

  /** The longest run that ends just before token j starts here. */
  ghost function RunStart(text: string, tokens: seq<Literal>, j: nat): (i: nat)
    requires Ordered(text, tokens) && 0 < j <= |tokens|
    ensures i < j
  {
    if j > 1 && Joined(text, tokens, j - 1) then RunStart(text, tokens, j - 1) else j - 1
  }

  lemma {:induction false} RunStartIsRun(text: string, tokens: seq<Literal>, j: nat)
    requires Ordered(text, tokens) && 0 < j <= |tokens|
    ensures Run(text, tokens, RunStart(text, tokens, j), j)
  {
    if j > 1 && Joined(text, tokens, j - 1) { RunStartIsRun(text, tokens, j - 1); }
  }

  /** No run that ends before token j is longer than the one from its start. */
  lemma {:induction false} RunStartIsLongest(text: string, tokens: seq<Literal>, i: nat, j: nat)
    requires Ordered(text, tokens) && Run(text, tokens, i, j)
    ensures RunStart(text, tokens, j) <= i
    ensures Total(tokens, i, j) <= Total(tokens, RunStart(text, tokens, j), j)
    decreases j
  {
    if i < j - 1 {
      RunStartIsLongest(text, tokens, i, j - 1);
    } else if j > 1 && Joined(text, tokens, j - 1) {
      assert Total(tokens, i, j) == tokens[j - 1].bytes;
    }
  }

  // ----- one file -----

  /** The largest total of a run of the first n tokens, with a run that has it. */
  ghost predicate IsMaximum(text: string, tokens: seq<Literal>, n: nat, floor: nat, maximum: nat)
    requires Ordered(text, tokens)
  {
    && floor <= maximum
    && (forall i: nat, j: nat :: Run(text, tokens, i, j) && j <= n ==> Total(tokens, i, j) <= maximum)
    && (maximum > floor ==> exists i: nat, j: nat :: Run(text, tokens, i, j) && j <= n && Total(tokens, i, j) == maximum)
  }

  /** Folds one file into the running maximum; `hits` says whether a single token reached the threshold. */
  method AuditFile(text: string, tokens: seq<Literal>, threshold: int, floor: nat)
    returns (maximum: nat, hits: bool)
    requires Ordered(text, tokens)
    ensures IsMaximum(text, tokens, |tokens|, floor, maximum)
    ensures hits <==> exists i :: 0 <= i < |tokens| && tokens[i].bytes >= threshold
  {
    maximum, hits := floor, false;
    var group := 0;
    for n := 0 to |tokens|
      invariant n > 0 ==> group == Total(tokens, RunStart(text, tokens, n), n)
      invariant IsMaximum(text, tokens, n, floor, maximum)
      invariant hits <==> exists i :: 0 <= i < n && tokens[i].bytes >= threshold
    {
      var token := tokens[n];
      var joined := false;
      if n > 0 {
        joined := IsTrivia(text[tokens[n - 1].end..token.start]);
      }
      group := if joined then group + token.bytes else token.bytes;
      GroupIsRun(text, tokens, n, group);
      OneMoreToken(text, tokens, n, floor, maximum, group);
      if group > maximum {
        maximum := group;
      }
      if token.bytes >= threshold {
        hits := true;
      }
    }
  }

  /** The running group is the longest run that ends here. */
  lemma GroupIsRun(text: string, tokens: seq<Literal>, n: nat, group: nat)
    requires Ordered(text, tokens) && n < |tokens|
    requires group == if n > 0 && Joined(text, tokens, n)
                      then Total(tokens, RunStart(text, tokens, n), n) + tokens[n].bytes else tokens[n].bytes
    ensures group == Total(tokens, RunStart(text, tokens, n + 1), n + 1)
  {
    var i := RunStart(text, tokens, n + 1);
    assert i < n ==> i == RunStart(text, tokens, n);
    assert i == n ==> Total(tokens, i, n + 1) == Total(tokens, n, n) + tokens[n].bytes;
  }

  lemma OneMoreToken(text: string, tokens: seq<Literal>, n: nat, floor: nat, maximum: nat, group: nat)
    requires Ordered(text, tokens) && n < |tokens| && IsMaximum(text, tokens, n, floor, maximum)
    requires group == Total(tokens, RunStart(text, tokens, n + 1), n + 1)
    ensures IsMaximum(text, tokens, n + 1, floor, if group > maximum then group else maximum)
  {
    var m := if group > maximum then group else maximum;
    RunStartIsRun(text, tokens, n + 1);
    forall i: nat, j: nat | Run(text, tokens, i, j) && j <= n + 1
      ensures Total(tokens, i, j) <= m
    {
      if j == n + 1 { RunStartIsLongest(text, tokens, i, j); }
    }
    if m > floor && group <= maximum {
      var i: nat, j: nat :| Run(text, tokens, i, j) && j <= n && Total(tokens, i, j) == maximum;
      assert Run(text, tokens, i, j) && j <= n + 1 && Total(tokens, i, j) == m;
    }
  }

  /** The maximum reaches a threshold when the floor or some run does; a single token is a run. */
  lemma MaximumReaches(text: string, tokens: seq<Literal>, floor: nat, maximum: nat, threshold: int)
    requires Ordered(text, tokens) && IsMaximum(text, tokens, |tokens|, floor, maximum)
    ensures maximum >= threshold
       <==> floor >= threshold || exists i: nat, j: nat :: Run(text, tokens, i, j) && Total(tokens, i, j) >= threshold
    ensures forall i :: 0 <= i < |tokens| ==> tokens[i].bytes <= maximum
  {
    forall i | 0 <= i < |tokens|
      ensures tokens[i].bytes <= maximum
    {
      assert Run(text, tokens, i, i + 1) && Total(tokens, i, i + 1) == tokens[i].bytes;
    }
  }

  // ----- all files -----

  ghost predicate TooLong(text: string, threshold: int)
    requires Advances(Literals.Next)
  {
    var tokens := Tokens(Literals.Next, text, 0);
    Ordered(text, tokens) && exists i: nat, j: nat :: Run(text, tokens, i, j) && Total(tokens, i, j) >= threshold
  }

  lemma TokensOrdered(text: string)
    requires Advances(Literals.Next)
    ensures Ordered(text, Tokens(Literals.Next, text, 0))
  {
    TokensAreSpans(Literals.Next, text, 0);
  }

  method AuditText(text: string, threshold: int, floor: nat) returns (most: nat, hits: bool)
    requires Advances(Literals.Next)
    ensures most >= threshold <==> floor >= threshold || TooLong(text, threshold)
    ensures hits ==> most >= threshold
  {
    var tokens := Literals.Literals(text);
    TokensOrdered(text);
    most, hits := AuditFile(text, tokens, threshold, floor);
    MaximumReaches(text, tokens, floor, most, threshold);
  }

  /**
   * The exit status: for a positive threshold it fails exactly when some file
   * has a run of joined literals that reaches the threshold; for any other
   * threshold it always fails.
   */
  method AuditAll(texts: seq<string>, threshold: int) returns (fails: bool, maximum: nat)
    ensures Advances(Literals.Next)
    ensures threshold > 0 ==> (fails <==> exists f :: 0 <= f < |texts| && TooLong(texts[f], threshold))
    ensures threshold <= 0 ==> fails
    ensures fails <==> maximum >= threshold
  {
    Literals.NextAdvances();
    var violations := false;
    maximum := 0;
    for f := 0 to |texts|
      invariant violations ==> maximum >= threshold
      invariant threshold > 0 ==>
        (maximum >= threshold <==> exists g :: 0 <= g < f && TooLong(texts[g], threshold))
    {
      var most, hits := AuditText(texts[f], threshold, maximum);
      maximum := most;
      violations := violations || hits;
    }
    fails := violations || maximum >= threshold;
  }
}
