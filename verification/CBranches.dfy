/** Stripping the Verilator-only branches of a C companion file. */
module CBranches {
  import opened Common
  import opened Conditionals
  import opened BranchTrees

  /** Another simulator compiles the file with VERILATOR undefined. */
  const ELSEWHERE: Knowledge := map[VERILATOR := false]

  predicate Positive(c: Test)
  {
    c == Defined(VERILATOR)
  }

  predicate Negative(c: Test)
  {
    c == Undefined(VERILATOR)
  }

  /** One open conditional: it tests VERILATOR alone; its current branch is Verilator-only. */
  datatype Frame = Frame(verilator: bool, active: bool)

  // ----- the stack machine -----

  function Advance(stack: List<Frame>, line: Line): (next: List<Frame>)
  {
    match (line, stack)
    case (Open(c), _) => Link(Frame(Positive(c) || Negative(c), Positive(c)), stack)
    case (Elif(c), Link(top, below)) => Link(Frame(top.verilator, Positive(c)), below)
    case (Else, Link(top, below)) => Link(Frame(top.verilator, top.verilator && !top.active), below)
    case (Close, Link(_, below)) => below
    case _ => stack
  }

  predicate Dropping(stack: List<Frame>)
  {
    stack.Link? && (stack.head.active || Dropping(stack.tail))
  }

  /** The stripped file: every directive stays, so that later checks see the nesting. */
  function Stripped(lines: List<Line>, stack: List<Frame>): (kept: List<Line>)
  {
    match lines
    case Done => Done
    case Link(line, more) =>
      var rest := Stripped(more, Advance(stack, line));
      if line.Plain? && Dropping(stack) then rest else Link(line, rest)
  }

  /** For every line, whether it is text that is kept. */
  function Kept(lines: List<Line>, stack: List<Frame>): (marks: List<bool>)
  {
    match lines
    case Done => Done
    case Link(line, more) => Link(line.Plain? && !Dropping(stack), Kept(more, Advance(stack, line)))
  }

  /** The file is the lines at the given places, which are the directives and the marked text, in order. */
  ghost predicate Holds(lines: List<Line>, marks: List<bool>, file: List<Line>, at: seq<nat>)
  {
    && Rising(at)
    && (forall j: nat :: Nth(file, j) == if j < |at| then Nth(lines, at[j]) else None)
    && (forall i: nat :: i in at <==> Nth(lines, i).Some? && (!Nth(lines, i).value.Plain? || Marked(marks, i)))
  }

  function OneOn(at: seq<nat>): (more: seq<nat>)
  {
    seq(|at|, j requires 0 <= j < |at| => at[j] + 1)
  }

  lemma OneOnHolds(at: seq<nat>, i: nat)
    ensures i in OneOn(at) <==> i > 0 && i - 1 in at
    ensures Rising(at) ==> Rising(OneOn(at)) && Rising([0] + OneOn(at))
  {
    if i > 0 && i - 1 in at {
      var j :| 0 <= j < |at| && at[j] == i - 1;
      assert OneOn(at)[j] == i;
    }
  }

  // What holds of the rest holds of the whole, with one more line in front that is kept or not.

  lemma HoldsDropped(line: Line, more: List<Line>, marks: List<bool>, file: List<Line>, at: seq<nat>)
    requires Holds(more, marks, file, at) && line.Plain?
    ensures Holds(Link(line, more), Link(false, marks), file, OneOn(at))
  {
    OneOnHolds(at, 0);
    forall i: nat
      ensures i in OneOn(at) <==> i > 0 && i - 1 in at
    {
      OneOnHolds(at, i);
    }
  }

  lemma HoldsKept(line: Line, more: List<Line>, mark: bool, marks: List<bool>, file: List<Line>, at: seq<nat>)
    requires Holds(more, marks, file, at) && (!line.Plain? || mark)
    ensures Holds(Link(line, more), Link(mark, marks), Link(line, file), [0] + OneOn(at))
  {
    var places := [0] + OneOn(at);
    OneOnHolds(at, 0);
    forall j: nat
      ensures Nth(Link(line, file), j) == if j < |places| then Nth(Link(line, more), places[j]) else None
    {
      if j > 0 { assert Nth(file, j - 1) == if j - 1 < |at| then Nth(more, at[j - 1]) else None; }
    }
    forall i: nat
      ensures i in places <==> i == 0 || i - 1 in at
    {
      OneOnHolds(at, i);
    }
  }

  lemma {:induction false} StrippedHolds(lines: List<Line>, stack: List<Frame>) returns (at: seq<nat>)
    ensures Holds(lines, Kept(lines, stack), Stripped(lines, stack), at)
  {
    match lines
    case Done => at := [];
    case Link(line, more) =>
      var next, mark := Advance(stack, line), line.Plain? && !Dropping(stack);
      at := StrippedHolds(more, next);
      if line.Plain? && Dropping(stack) {
        HoldsDropped(line, more, Kept(more, next), Stripped(more, next), at);
        at := OneOn(at);
      } else {
        HoldsKept(line, more, mark, Kept(more, next), Stripped(more, next), at);
        at := [0] + OneOn(at);
      }
  }

  function Reverse<T>(a: List<T>, onto: List<T>): List<T>
  {
    match a
    case Done => onto
    case Link(x, rest) => Reverse(rest, Link(x, onto))
  }

  method WithoutCVerilatorBranches(lines: List<Line>) returns (kept: List<Line>)
    ensures kept == Stripped(lines, Done)
    ensures exists at: seq<nat> :: Holds(lines, Kept(lines, Done), kept, at)
  {
    ghost var at := StrippedHolds(lines, Done);
    var reversed: List<Line> := Done;
    var stack: List<Frame> := Done;
    var rest := lines;
    while rest.Link?
      invariant Reverse(reversed, Stripped(rest, stack)) == Stripped(lines, Done)
      decreases rest
    {
      if !rest.head.Plain? || !Dropping(stack) {
        reversed := Link(rest.head, reversed);
      }
      match rest.head {
        case Open(c) =>
          stack := Link(Frame(Positive(c) || Negative(c), Positive(c)), stack);
        case Elif(c) =>
          if stack.Link? { stack := Link(Frame(stack.head.verilator, Positive(c)), stack.tail); }
        case Else =>
          if stack.Link? {
            stack := Link(Frame(stack.head.verilator, stack.head.verilator && !stack.head.active), stack.tail);
          }
        case Close =>
          if stack.Link? { stack := stack.tail; }
        case Plain(_) =>
      }
      rest := rest.tail;
    }
    kept := Reverse(reversed, Done);
  }

  // ----- for every file, well nested or not -----

  lemma {:induction false} StrippingIsIdempotent(lines: List<Line>, stack: List<Frame>)
    ensures Stripped(Stripped(lines, stack), stack) == Stripped(lines, stack)
  {
    match lines
    case Done =>
    case Link(line, more) => StrippingIsIdempotent(more, Advance(stack, line));
  }

  function Directives(lines: List<Line>): (ds: List<Line>)
  {
    match lines
    case Done => Done
    case Link(line, more) => if line.Plain? then Directives(more) else Link(line, Directives(more))
  }

  lemma {:induction false} StrippingKeepsDirectives(lines: List<Line>, stack: List<Frame>)
    ensures Directives(Stripped(lines, stack)) == Directives(lines)
  {
    match lines
    case Done =>
    case Link(line, more) => StrippingKeepsDirectives(more, Advance(stack, line));
  }

  /** Some Verilator header is included outside every conditional. */
  predicate UnconditionalInclude(lines: List<Line>, verilated: Content -> bool, depth: nat)
  {
    match lines
    case Done => false
    case Link(Open(_), more) => UnconditionalInclude(more, verilated, depth + 1)
    case Link(Close, more) => UnconditionalInclude(more, verilated, if depth == 0 then 0 else depth - 1)
    case Link(Plain(line), more) => (depth == 0 && verilated(line)) || UnconditionalInclude(more, verilated, depth)
    case Link(_, more) => UnconditionalInclude(more, verilated, depth)
  }

  method UnconditionalVerilatedInclude(lines: List<Line>, verilated: Content -> bool) returns (found: bool)
    ensures found == UnconditionalInclude(lines, verilated, 0)
  {
    var depth: nat := 0;
    var rest := lines;
    while rest.Link?
      invariant UnconditionalInclude(rest, verilated, depth) == UnconditionalInclude(lines, verilated, 0)
      decreases rest
    {
      if rest.head.Open? {
        depth := depth + 1;
      } else if rest.head.Close? {
        depth := if depth == 0 then 0 else depth - 1;
      } else if rest.head.Plain? && depth == 0 && verilated(rest.head.line) {
        return true;
      }
      rest := rest.tail;
    }
    return false;
  }

  /** Some line outside every group satisfies the predicate. */
  predicate Outside(t: Text, verilated: Content -> bool)
  {
    match t
    case Nil => false
    case Cons(line, rest) => verilated(line) || Outside(rest, verilated)
    case Group(_, _, _, rest) => Outside(rest, verilated)
  }

  /** On well-nested text the depth count looks at the lines outside every group and at no other. */
  lemma {:induction false} IncludeIsOutside(t: Text, more: List<Line>, verilated: Content -> bool, depth: nat)
    ensures UnconditionalInclude(Lines(t, more), verilated, depth)
        <==> (depth == 0 && Outside(t, verilated)) || UnconditionalInclude(more, verilated, depth)
  {
    match t
    case Nil =>
    case Cons(_, rest) =>
      IncludeIsOutside(rest, more, verilated, depth);
    case Group(_, body, arms, rest) =>
      IncludeIsOutside(body, ArmLines(arms, Lines(rest, more)), verilated, depth + 1);
      ArmsAreInside(arms, Lines(rest, more), verilated, depth);
      IncludeIsOutside(rest, more, verilated, depth);
  }

  lemma {:induction false} ArmsAreInside(a: Arms, more: List<Line>, verilated: Content -> bool, depth: nat)
    ensures UnconditionalInclude(ArmLines(a, more), verilated, depth + 1)
        <==> UnconditionalInclude(more, verilated, depth)
  {
    match a
    case End =>
    case Otherwise(body) =>
      IncludeIsOutside(body, Link(Close, more), verilated, depth + 1);
    case Alternative(_, body, arms) =>
      IncludeIsOutside(body, ArmLines(arms, more), verilated, depth + 1);
      ArmsAreInside(arms, more, verilated, depth);
  }

  /** The check finds a header exactly when one is included outside every conditional, stripped or not. */
  lemma IncludeCheckIsExact(t: Text, verilated: Content -> bool)
    ensures UnconditionalInclude(Lines(t, Done), verilated, 0) <==> Outside(t, verilated)
    ensures UnconditionalInclude(Stripped(Lines(t, Done), Done), verilated, 0) <==> Outside(t, verilated)
  {
    IncludeIsOutside(t, Done, verilated, 0);
    StrippingKeepsIncludes(Lines(t, Done), Done, verilated);
  }

  function Height(stack: List<Frame>): nat
  {
    if stack.Done? then 0 else 1 + Height(stack.tail)
  }

  /** The check's depth is the stripper's stack height, so stripping cannot change its answer. */
  lemma {:induction false} StrippingKeepsIncludes(lines: List<Line>, stack: List<Frame>, verilated: Content -> bool)
    ensures UnconditionalInclude(Stripped(lines, stack), verilated, Height(stack))
        <==> UnconditionalInclude(lines, verilated, Height(stack))
  {
    match lines
    case Done =>
    case Link(line, more) => StrippingKeepsIncludes(more, Advance(stack, line), verilated);
  }

  // ----- the branches the stripper retains -----

  function Retained(t: Text): (x: Tree)
  {
    match t
    case Nil => TNil
    case Cons(_, rest) => TLine(Retained(rest))
    case Group(c, body, arms, rest) =>
      TGroup(!Positive(c), Retained(body), RetainedArms(arms, Opened(c)), Retained(rest))
  }

  function RetainedArms(a: Arms, f: Frame): (x: TArms)
  {
    match a
    case End => TEnd
    case Otherwise(body) => TArm(!(f.verilator && !f.active), Retained(body), TEnd)
    case Alternative(c, body, arms) =>
      TArm(!Positive(c), Retained(body), RetainedArms(arms, Frame(f.verilator, Positive(c))))
  }

  function Opened(c: Test): Frame
  {
    Frame(Positive(c) || Negative(c), Positive(c))
  }

  /** On well-nested text the machine's marks follow the structure and its stack is restored. */
  lemma {:induction false} KeptIsMarks(t: Text, more: List<Line>, stack: List<Frame>)
    ensures Kept(Lines(t, more), stack) == Marks(Retained(t), !Dropping(stack), Kept(more, stack))
  {
    match t
    case Nil =>
    case Cons(_, rest) =>
      KeptIsMarks(rest, more, stack);
    case Group(c, body, arms, rest) =>
      KeptIsMarks(body, ArmLines(arms, Lines(rest, more)), Link(Opened(c), stack));
      KeptIsArmMarks(arms, Lines(rest, more), Opened(c), stack);
      KeptIsMarks(rest, more, stack);
  }

  lemma {:induction false} KeptIsArmMarks(a: Arms, more: List<Line>, f: Frame, stack: List<Frame>)
    ensures Kept(ArmLines(a, more), Link(f, stack))
         == ArmMarks(RetainedArms(a, f), !Dropping(stack), Kept(more, stack))
  {
    match a
    case End =>
    case Otherwise(body) =>
      var e := Frame(f.verilator, f.verilator && !f.active);
      KeptIsMarks(body, Link(Close, more), Link(e, stack));
    case Alternative(c, body, arms) =>
      var e := Frame(f.verilator, Positive(c));
      KeptIsMarks(body, ArmLines(arms, more), Link(e, stack));
      KeptIsArmMarks(arms, more, e, stack);
  }

  lemma {:induction false} RetainedLikeAllowed(t: Text)
    ensures Alike(Retained(t), Allowed(t, ELSEWHERE)) && Alike(Allowed(t, ELSEWHERE), Retained(t))
  {
    match t
    case Nil =>
    case Cons(_, rest) => RetainedLikeAllowed(rest);
    case Group(c, body, arms, rest) =>
      RetainedLikeAllowed(body);
      RetainedArmsLikeAllowed(arms, Opened(c), Known(ELSEWHERE, c) == Yes);
      RetainedLikeAllowed(rest);
  }

  lemma {:induction false} RetainedArmsLikeAllowed(a: Arms, f: Frame, taken: bool)
    ensures AlikeArms(RetainedArms(a, f), AllowedArms(a, ELSEWHERE, taken))
    ensures AlikeArms(AllowedArms(a, ELSEWHERE, taken), RetainedArms(a, f))
  {
    match a
    case End =>
    case Otherwise(body) => RetainedLikeAllowed(body);
    case Alternative(c, body, arms) =>
      RetainedLikeAllowed(body);
      RetainedArmsLikeAllowed(arms, Frame(f.verilator, Positive(c)), taken || Known(ELSEWHERE, c) == Yes);
  }

  // ----- when the stripped file is what another simulator compiles -----

  /** Line i is text and stands in the stripped file. */
  predicate Survives(t: Text, i: nat)
  {
    Marked(Kept(Lines(t, Done), Done), i)
  }

  /** The text that survives is that of the branches the structure retains. */
  lemma StrippedHoldsSurvivors(t: Text, i: nat)
    ensures Survives(t, i) <==> Shows(Retained(t), true, i)
  {
    KeptIsMarks(t, Done, Done);
    MarksAreShown(Retained(t), i);
  }

  /** Every line another simulator may compile is in the stripped file. */
  ghost predicate Sound(t: Text)
  {
    forall i: nat :: Compilable(t, ELSEWHERE, i) ==> Survives(t, i)
  }

  /** Every line of text in the stripped file may be compiled by another simulator. */
  ghost predicate Precise(t: Text)
  {
    forall i: nat :: Survives(t, i) ==> Compilable(t, ELSEWHERE, i)
  }

  /** Some line of the text may be compiled where VERILATOR is undefined. */
  predicate Reachable(t: Text)
  {
    Lively(Allowed(t, ELSEWHERE))
  }

  /**
   * The text has a reachable chain that opens with a VERILATOR test and ends
   * in an #else with reachable lines, such that the last #elif before the
   * #else is not the VERILATOR test and no test of the chain is its negation.
   */
  predicate Misjudged(t: Text)
  {
    match t
    case Nil => false
    case Cons(_, rest) => Misjudged(rest)
    case Group(c, body, arms, rest) =>
      || (!Positive(c) && Misjudged(body))
      || MisjudgedArms(arms, Negative(c), Opened(c))
      || Misjudged(rest)
  }

  predicate MisjudgedArms(a: Arms, taken: bool, f: Frame)
  {
    match a
    case End => false
    case Otherwise(body) => !taken && if f.verilator && !f.active then Reachable(body) else Misjudged(body)
    case Alternative(c, body, arms) =>
      || (!taken && !Positive(c) && Misjudged(body))
      || MisjudgedArms(arms, taken || Negative(c), Frame(f.verilator, Positive(c)))
  }

  /**
   * The text has a retained chain in which, behind a negated VERILATOR test,
   * there is text in an #elif of some other test, or in an #else that the
   * stripper does not take for the Verilator-only branch.
   */
  predicate Overkept(t: Text)
  {
    match t
    case Nil => false
    case Cons(_, rest) => Overkept(rest)
    case Group(c, body, arms, rest) =>
      || (!Positive(c) && Overkept(body))
      || OverkeptArms(arms, Negative(c), Opened(c))
      || Overkept(rest)
  }

  predicate OverkeptArms(a: Arms, taken: bool, f: Frame)
  {
    match a
    case End => false
    case Otherwise(body) =>
      !(f.verilator && !f.active) && if taken then Lively(Retained(body)) else Overkept(body)
    case Alternative(c, body, arms) =>
      || (!Positive(c) && if taken then Lively(Retained(body)) else Overkept(body))
      || OverkeptArms(arms, taken || Negative(c), Frame(f.verilator, Positive(c)))
  }

  lemma VerilatorIsUndefined(c: Test)
    ensures Known(ELSEWHERE, c) == if Positive(c) then No else if Negative(c) then Yes else Unknown
  {
  }

  lemma {:induction false} MisjudgedIsExceeding(t: Text)
    ensures Alike(Allowed(t, ELSEWHERE), Retained(t))
    ensures Misjudged(t) <==> Exceeds(Allowed(t, ELSEWHERE), Retained(t))
  {
    RetainedLikeAllowed(t);
    match t
    case Nil =>
    case Cons(_, rest) => MisjudgedIsExceeding(rest);
    case Group(c, body, arms, rest) =>
      VerilatorIsUndefined(c);
      MisjudgedIsExceeding(body);
      MisjudgedArmIsExceeding(arms, Negative(c), Opened(c));
      MisjudgedIsExceeding(rest);
  }

  lemma {:induction false} MisjudgedArmIsExceeding(a: Arms, taken: bool, f: Frame)
    ensures AlikeArms(AllowedArms(a, ELSEWHERE, taken), RetainedArms(a, f))
    ensures MisjudgedArms(a, taken, f) <==> ExceedsArms(AllowedArms(a, ELSEWHERE, taken), RetainedArms(a, f))
  {
    RetainedArmsLikeAllowed(a, f, taken);
    match a
    case End =>
    case Otherwise(body) => MisjudgedIsExceeding(body);
    case Alternative(c, body, arms) =>
      VerilatorIsUndefined(c);
      MisjudgedIsExceeding(body);
      MisjudgedArmIsExceeding(arms, taken || Negative(c), Frame(f.verilator, Positive(c)));
  }

  lemma {:induction false} OverkeptIsExceeding(t: Text)
    ensures Alike(Retained(t), Allowed(t, ELSEWHERE))
    ensures Overkept(t) <==> Exceeds(Retained(t), Allowed(t, ELSEWHERE))
  {
    RetainedLikeAllowed(t);
    match t
    case Nil =>
    case Cons(_, rest) => OverkeptIsExceeding(rest);
    case Group(c, body, arms, rest) =>
      VerilatorIsUndefined(c);
      OverkeptIsExceeding(body);
      OverkeptArmIsExceeding(arms, Negative(c), Opened(c));
      OverkeptIsExceeding(rest);
  }

  lemma {:induction false} OverkeptArmIsExceeding(a: Arms, taken: bool, f: Frame)
    ensures AlikeArms(RetainedArms(a, f), AllowedArms(a, ELSEWHERE, taken))
    ensures OverkeptArms(a, taken, f) <==> ExceedsArms(RetainedArms(a, f), AllowedArms(a, ELSEWHERE, taken))
  {
    RetainedArmsLikeAllowed(a, f, taken);
    match a
    case End =>
    case Otherwise(body) => OverkeptIsExceeding(body);
    case Alternative(c, body, arms) =>
      VerilatorIsUndefined(c);
      OverkeptIsExceeding(body);
      OverkeptArmIsExceeding(arms, taken || Negative(c), Frame(f.verilator, Positive(c)));
  }

  lemma StrippedAgainstReference(t: Text)
    ensures Sound(t) <==> Covers(Retained(t), Allowed(t, ELSEWHERE))
    ensures Precise(t) <==> Covers(Allowed(t, ELSEWHERE), Retained(t))
  {
    forall i: nat
      ensures Survives(t, i) <==> Shows(Retained(t), true, i)
      ensures Compilable(t, ELSEWHERE, i) <==> Shows(Allowed(t, ELSEWHERE), true, i)
    {
      StrippedHoldsSurvivors(t, i);
      PossibleIsExact(t, ELSEWHERE, i);
      PossibleIsShown(t, ELSEWHERE, true, i);
    }
  }

  /** The stripped file lacks nothing another simulator compiles exactly when no #else is misjudged. */
  lemma SoundExactlyIfNotMisjudged(t: Text)
    ensures Sound(t) <==> !Misjudged(t)
  {
    StrippedAgainstReference(t);
    MisjudgedIsExceeding(t);
    CoversExactly(Allowed(t, ELSEWHERE), Retained(t));
  }

  /** The stripped file holds nothing else exactly when no branch behind a negated test is kept. */
  lemma PreciseExactlyIfNotOverkept(t: Text)
    ensures Precise(t) <==> !Overkept(t)
  {
    StrippedAgainstReference(t);
    OverkeptIsExceeding(t);
    CoversExactly(Retained(t), Allowed(t, ELSEWHERE));
  }

  // ----- groups without #elif -----

  predicate NoElif(t: Text)
  {
    match t
    case Nil => true
    case Cons(_, rest) => NoElif(rest)
    case Group(_, body, arms, rest) =>
      NoElif(body) && !arms.Alternative? && (arms.Otherwise? ==> NoElif(arms.body)) && NoElif(rest)
  }

  lemma {:induction false} NoElifIsJudgedWell(t: Text)
    requires NoElif(t)
    ensures !Misjudged(t) && !Overkept(t)
  {
    match t
    case Nil =>
    case Cons(_, rest) => NoElifIsJudgedWell(rest);
    case Group(_, body, arms, rest) =>
      NoElifIsJudgedWell(body);
      if arms.Otherwise? { NoElifIsJudgedWell(arms.body); }
      NoElifIsJudgedWell(rest);
  }

  /** Without #elif the stripped file's text is what another simulator may compile, no more and no less. */
  lemma ExactWithoutElif(t: Text)
    requires NoElif(t)
    ensures Sound(t) && Precise(t)
  {
    NoElifIsJudgedWell(t);
    SoundExactlyIfNotMisjudged(t);
    PreciseExactlyIfNotOverkept(t);
  }

  // ----- files the stripper gets wrong -----

  /** The #else is dropped although only the #elif could exclude it. */
  lemma ElifLosesElse(kept: Content, lost: Content)
    ensures var last := Otherwise(Cons(lost, Nil));
            !Sound(Group(Defined(VERILATOR), Nil, Alternative(Expression("X"), Cons(kept, Nil), last), Nil))
  {
    var last := Otherwise(Cons(lost, Nil));
    var arms := Alternative(Expression("X"), Cons(kept, Nil), last);
    assert Reachable(Cons(lost, Nil));
    assert MisjudgedArms(last, false, Frame(true, false));
    assert MisjudgedArms(arms, false, Frame(true, true));
    SoundExactlyIfNotMisjudged(Group(Defined(VERILATOR), Nil, arms, Nil));
  }

  /** The #elif is kept although the negated test before it always succeeds. */
  lemma ElifKeptAfterNegation(first: Content, extra: Content)
    ensures !Precise(Group(Undefined(VERILATOR), Cons(first, Nil),
                           Alternative(Expression("X"), Cons(extra, Nil), End), Nil))
  {
    var arms := Alternative(Expression("X"), Cons(extra, Nil), End);
    assert Lively(Retained(Cons(extra, Nil)));
    assert OverkeptArms(arms, true, Opened(Undefined(VERILATOR)));
    PreciseExactlyIfNotOverkept(Group(Undefined(VERILATOR), Cons(first, Nil), arms, Nil));
  }
}
