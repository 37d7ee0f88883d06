/** Resolving `ifdef chains in Verilog text with some macros known. */
module VerilogBranches {
  import opened Common
  import opened Conditionals
  import opened BranchTrees

  /** One open conditional: a branch is known taken; the current branch is known dropped. */
  datatype Branch = Branch(taken: bool, dropped: bool)

  // ----- the stack machine -----

  /** The stack after one line; a directive with no open conditional is ignored. */
  function Advance(known: Knowledge, stack: List<Branch>, line: Line): (next: List<Branch>)
  {
    match (line, stack)
    case (Open(c), _) => Link(Branch(Known(known, c) == Yes, Known(known, c) == No), stack)
    case (Elif(c), Link(top, below)) =>
      Link(Branch(top.taken || Known(known, c) == Yes, top.taken || Known(known, c) == No), below)
    case (Else, Link(top, below)) => Link(Branch(top.taken, top.taken), below)
    case (Close, Link(_, below)) => below
    case _ => stack
  }

  /** Some open conditional is in a dropped branch. */
  predicate Dropping(stack: List<Branch>)
  {
    stack.Link? && (stack.head.dropped || Dropping(stack.tail))
  }

  /** For every line, whether the machine keeps it. */
  function Kept(known: Knowledge, lines: List<Line>, stack: List<Branch>): (marks: List<bool>)
  {
    match lines
    case Done => Done
    case Link(line, more) =>
      Link(line.Plain? && !Dropping(stack), Kept(known, more, Advance(known, stack, line)))
  }

  /** Updates the stack for a directive line. */
  method Track(known: Knowledge, stack: List<Branch>, line: Line) returns (next: List<Branch>)
    ensures next == Advance(known, stack, line)
  {
    next := stack;
    match line {
      case Open(c) =>
        var value := Known(known, c);
        next := Link(Branch(value == Yes, value == No), stack);
      case Elif(c) =>
        if stack.Link? {
          var value, taken := Known(known, c), stack.head.taken;
          next := Link(Branch(taken || value == Yes, taken || value == No), stack.tail);
        }
      case Else =>
        if stack.Link? { next := Link(Branch(stack.head.taken, stack.head.taken), stack.tail); }
      case Close =>
        if stack.Link? { next := stack.tail; }
      case Plain(_) =>
    }
  }

  /** The text at the given places, which are the marked ones, in order. */
  ghost predicate Picks(lines: List<Line>, marks: List<bool>, kept: seq<Content>, at: seq<nat>)
  {
    && |at| == |kept| && Rising(at)
    && (forall j :: 0 <= j < |at| ==> Nth(lines, at[j]) == Some(Plain(kept[j])))
    && (forall i: nat :: i in at <==> Marked(marks, i))
  }

  /** The first n lines are done; the rest, with the stack they left, is what is still to be marked. */
  ghost predicate Picked(lines: List<Line>, marks: List<bool>, kept: seq<Content>, at: seq<nat>,
                         n: nat, rest: List<Line>, restMarks: List<bool>)
  {
    && |at| == |kept| && Rising(at) && (forall j :: 0 <= j < |at| ==> at[j] < n)
    && (forall j :: 0 <= j < |at| ==> Nth(lines, at[j]) == Some(Plain(kept[j])))
    && (forall i: nat :: i < n ==> (i in at <==> Marked(marks, i)))
    && (forall i: nat :: Ahead(lines, marks, n, rest, restMarks, i))
  }

  /** Line n + i of the whole is line i of the rest. */
  ghost predicate Ahead(lines: List<Line>, marks: List<bool>, n: nat, rest: List<Line>, restMarks: List<bool>, i: nat)
  {
    Nth(lines, n + i) == Nth(rest, i) && Marked(marks, n + i) == Marked(restMarks, i)
  }

  lemma PickOne(lines: List<Line>, marks: List<bool>, kept: seq<Content>, at: seq<nat>, n: nat,
                rest: List<Line>, restMarks: List<bool>)
    requires Picked(lines, marks, kept, at, n, rest, restMarks) && rest.Link? && restMarks.Link?
    requires restMarks.head ==> rest.head.Plain?
    ensures Picked(lines, marks, if restMarks.head then kept + [rest.head.line] else kept,
                   if restMarks.head then at + [n] else at, n + 1, rest.tail, restMarks.tail)
  {
    assert Ahead(lines, marks, n, rest, restMarks, 0);
    var m, tail, tailMarks := n + 1, rest.tail, restMarks.tail;
    forall i: nat
      ensures Ahead(lines, marks, m, tail, tailMarks, i)
    {
      assert Ahead(lines, marks, n, rest, restMarks, i + 1);
    }
  }

  lemma PickedAll(lines: List<Line>, marks: List<bool>, kept: seq<Content>, at: seq<nat>, n: nat)
    requires Picked(lines, marks, kept, at, n, Done, Done)
    ensures Picks(lines, marks, kept, at)
  {
    forall i: nat | i >= n
      ensures !Marked(marks, i) && i !in at
    {
      assert Ahead(lines, marks, n, Done, Done, i - n);
    }
  }

  /** Returns the marked lines of text, in order. */
  method WithoutVerilatorBranches(lines: List<Line>, known: Knowledge) returns (kept: seq<Content>)
    ensures exists at: seq<nat> :: Picks(lines, Kept(known, lines, Done), kept, at)
  {
    kept := [];
    var stack: List<Branch> := Done;
    var rest := lines;
    ghost var marks, at, n: nat := Kept(known, lines, Done), [], 0;
    while rest.Link?
      invariant Picked(lines, marks, kept, at, n, rest, Kept(known, rest, stack))
      decreases rest
    {
      PickOne(lines, marks, kept, at, n, rest, Kept(known, rest, stack));
      if rest.head.Plain? {
        if !Dropping(stack) {
          kept := kept + [rest.head.line];
          at := at + [n];
        }
      } else {
        stack := Track(known, stack, rest.head);
      }
      rest, n := rest.tail, n + 1;
    }
    PickedAll(lines, marks, kept, at, n);
  }

  // ----- the machine on well-nested text -----

  /** On a well-nested text the machine marks the lines of allowed branches and restores its stack. */
  lemma {:induction false} KeptIsMarks(known: Knowledge, t: Text, more: List<Line>, stack: List<Branch>)
    ensures Kept(known, Lines(t, more), stack)
         == Marks(Allowed(t, known), !Dropping(stack), Kept(known, more, stack))
  {
    match t
    case Nil =>
    case Cons(_, rest) =>
      KeptIsMarks(known, rest, more, stack);
    case Group(c, body, arms, rest) =>
      var b := Branch(Known(known, c) == Yes, Known(known, c) == No);
      KeptIsMarks(known, body, ArmLines(arms, Lines(rest, more)), Link(b, stack));
      KeptIsArmMarks(known, arms, Lines(rest, more), b, stack);
      KeptIsMarks(known, rest, more, stack);
  }

  lemma {:induction false} KeptIsArmMarks(known: Knowledge, a: Arms, more: List<Line>, b: Branch, stack: List<Branch>)
    ensures Kept(known, ArmLines(a, more), Link(b, stack))
         == ArmMarks(AllowedArms(a, known, b.taken), !Dropping(stack), Kept(known, more, stack))
  {
    match a
    case End =>
    case Otherwise(body) =>
      var e := Branch(b.taken, b.taken);
      KeptIsMarks(known, body, Link(Close, more), Link(e, stack));
    case Alternative(c, body, arms) =>
      var e := Branch(b.taken || Known(known, c) == Yes, b.taken || Known(known, c) == No);
      KeptIsMarks(known, body, ArmLines(arms, more), Link(e, stack));
      KeptIsArmMarks(known, arms, more, e, stack);
  }

  /** Line i of the text is in the resolver's output. */
  predicate Keeps(known: Knowledge, t: Text, i: nat)
  {
    Marked(Kept(known, Lines(t, Done), Done), i)
  }

  lemma KeepsIsShown(known: Knowledge, t: Text, i: nat)
    ensures Keeps(known, t, i) <==> Shows(Allowed(t, known), true, i)
  {
    KeptIsMarks(known, t, Done, Done);
    MarksAreShown(Allowed(t, known), i);
  }

  /**
   * The resolver is sound and as sharp as it can be: it keeps a line of
   * well-nested text exactly when some run that agrees with the known macros
   * compiles it.
   */
  lemma KeptExactlyCompilable(known: Knowledge, t: Text, i: nat)
    ensures Keeps(known, t, i) <==> Compilable(t, known, i)
  {
    KeepsIsShown(known, t, i);
    PossibleIsShown(t, known, true, i);
    PossibleIsExact(t, known, i);
  }

  /** Of well-nested text the resolver returns the lines that some agreeing run compiles, and no other. */
  lemma ReturnsExactlyCompilable(known: Knowledge, t: Text, kept: seq<Content>, at: seq<nat>)
    requires Picks(Lines(t, Done), Kept(known, Lines(t, Done), Done), kept, at)
    ensures forall i: nat :: i in at <==> Compilable(t, known, i)
  {
    forall i: nat
      ensures i in at <==> Compilable(t, known, i)
    {
      KeptExactlyCompilable(known, t, i);
    }
  }

  /** When every tested macro is known, the kept lines are the compiled lines. */
  lemma KeptExactlyCompiled(known: Knowledge, t: Text, r: Run, i: nat)
    requires Plays(t, known, r) && AllKnown(t, known)
    ensures Keeps(known, t, i) <==> Active(t, r, true, i)
  {
    KeepsIsShown(known, t, i);
    PossibleIsShown(t, known, true, i);
    KnownIsActive(t, known, r, true, i);
  }

  // ----- running the preprocessor on a macro table -----

  predicate Holds(table: set<string>, c: Test)
  {
    match c
    case Defined(m) => m in table
    case Undefined(m) => m !in table
    case Expression(_) => false
  }

  /** The macro table after a compiled line. */
  function Updated(table: set<string>, effect: map<string, bool>): set<string>
  {
    (table + set m | m in effect && effect[m]) - set m | m in effect && !effect[m]
  }

  /** The run over t from a macro table, and the table it leaves. */
  function Execute(t: Text, table: set<string>, on: bool): (Run, set<string>)
  {
    match t
    case Nil => (RNil, table)
    case Cons(l, rest) =>
      var (r, final) := Execute(rest, if on then Updated(table, l.effect) else table, on);
      (RCons(r), final)
    case Group(c, body, arms, rest) =>
      var outcome := Holds(table, c);
      var (r, table1) := Execute(body, table, on && outcome);
      var (ra, table2) := ExecuteArms(arms, table1, on, outcome);
      var (rr, final) := Execute(rest, table2, on);
      (RGroup(outcome, r, ra, rr), final)
  }

  function ExecuteArms(a: Arms, table: set<string>, on: bool, taken: bool): (RunArms, set<string>)
  {
    match a
    case End => (REnd, table)
    case Otherwise(body) =>
      var (r, final) := Execute(body, table, on && !taken);
      (ROtherwise(r), final)
    case Alternative(c, body, arms) =>
      var outcome := Holds(table, c);
      var (r, table1) := Execute(body, table, on && !taken && outcome);
      var (ra, final) := ExecuteArms(arms, table1, on, taken || outcome);
      (RAlternative(outcome, r, ra), final)
  }

  /** The table has every known macro in its known state. */
  predicate Consistent(table: set<string>, known: Knowledge)
  {
    forall m :: m in known ==> (m in table <==> known[m])
  }

  predicate Harmless(effect: map<string, bool>, known: Knowledge)
  {
    forall m :: m in effect && m in known ==> effect[m] == known[m]
  }

  /** No line takes a known macro out of its known state. */
  predicate Steady(t: Text, known: Knowledge)
  {
    match t
    case Nil => true
    case Cons(l, rest) => Harmless(l.effect, known) && Steady(rest, known)
    case Group(c, body, arms, rest) => Steady(body, known) && SteadyArms(arms, known) && Steady(rest, known)
  }

  predicate SteadyArms(a: Arms, known: Knowledge)
  {
    match a
    case End => true
    case Otherwise(body) => Steady(body, known)
    case Alternative(_, body, arms) => Steady(body, known) && SteadyArms(arms, known)
  }

  lemma UpdatedConsistent(table: set<string>, effect: map<string, bool>, known: Knowledge)
    requires Consistent(table, known) && Harmless(effect, known)
    ensures Consistent(Updated(table, effect), known)
  {
  }

  lemma {:induction false} ExecutePlays(t: Text, known: Knowledge, table: set<string>, on: bool)
    requires Consistent(table, known) && Steady(t, known)
    ensures Plays(t, known, Execute(t, table, on).0) && Consistent(Execute(t, table, on).1, known)
  {
    match t
    case Nil =>
    case Cons(l, rest) =>
      UpdatedConsistent(table, l.effect, known);
      ExecutePlays(rest, known, if on then Updated(table, l.effect) else table, on);
    case Group(c, body, arms, rest) =>
      var outcome := Holds(table, c);
      ExecutePlays(body, known, table, on && outcome);
      var table1 := Execute(body, table, on && outcome).1;
      ExecuteArmsPlay(arms, known, table1, on, outcome);
      var table2 := ExecuteArms(arms, table1, on, outcome).1;
      ExecutePlays(rest, known, table2, on);
  }

  lemma {:induction false} ExecuteArmsPlay(a: Arms, known: Knowledge, table: set<string>, on: bool, taken: bool)
    requires Consistent(table, known) && SteadyArms(a, known)
    ensures ArmsPlay(a, known, ExecuteArms(a, table, on, taken).0)
    ensures Consistent(ExecuteArms(a, table, on, taken).1, known)
  {
    match a
    case End =>
    case Otherwise(body) =>
      ExecutePlays(body, known, table, on && !taken);
    case Alternative(c, body, arms) =>
      var outcome := Holds(table, c);
      ExecutePlays(body, known, table, on && !taken && outcome);
      ExecuteArmsPlay(arms, known, Execute(body, table, on && !taken && outcome).1, on, taken || outcome);
  }

  // ----- the resolver against the preprocessor -----

  /** No line the run compiles is dropped. */
  ghost predicate DropsNothing(known: Knowledge, t: Text, r: Run)
  {
    forall i: nat :: Active(t, r, true, i) ==> Keeps(known, t, i)
  }

  /** No line is kept that the run does not compile. */
  ghost predicate KeepsNothingElse(known: Knowledge, t: Text, r: Run)
  {
    forall i: nat :: Keeps(known, t, i) ==> Active(t, r, true, i)
  }

  /** The run compiles some line of the text. */
  predicate Compiles(t: Text, r: Run)
    requires Shaped(t, r)
  {
    Lively(Entered(t, r))
  }

  /** The known tests rule out less than the whole text. */
  predicate Allows(t: Text, known: Knowledge)
  {
    Lively(Allowed(t, known))
  }

  /**
   * In a chain that is reached and not ruled out, the run enters a branch
   * although its own test is known to fail or an earlier test of the chain is
   * known to succeed, and compiles a line there.
   */
  predicate EntersDropped(t: Text, known: Knowledge, r: Run)
    requires Shaped(t, r)
  {
    match t
    case Nil => false
    case Cons(_, rest) => EntersDropped(rest, known, r.rest)
    case Group(c, body, arms, rest) =>
      || (r.outcome && if Known(known, c) == No then Compiles(body, r.body) else EntersDropped(body, known, r.body))
      || EntersDroppedArm(arms, known, r.arms, r.outcome, Known(known, c) == Yes)
      || EntersDropped(rest, known, r.rest)
  }

  /** `taken`: the run entered an earlier branch; `sure`: an earlier test is known to succeed. */
  predicate EntersDroppedArm(a: Arms, known: Knowledge, r: RunArms, taken: bool, sure: bool)
    requires ArmsPlay(a, map[], r)
  {
    match a
    case End => false
    case Otherwise(body) =>
      !taken && if sure then Compiles(body, r.body) else EntersDropped(body, known, r.body)
    case Alternative(c, body, arms) =>
      || (!taken && r.outcome
          && if sure || Known(known, c) == No then Compiles(body, r.body) else EntersDropped(body, known, r.body))
      || EntersDroppedArm(arms, known, r.arms, taken || r.outcome, sure || Known(known, c) == Yes)
  }

  /**
   * In a chain that is reached and not ruled out, the run passes by a branch,
   * because its test fails or it entered an earlier one, although neither is
   * known, and the branch has a line that is not ruled out.
   */
  predicate PassesByKept(t: Text, known: Knowledge, r: Run)
    requires Shaped(t, r)
  {
    match t
    case Nil => false
    case Cons(_, rest) => PassesByKept(rest, known, r.rest)
    case Group(c, body, arms, rest) =>
      || (Known(known, c) != No && if !r.outcome then Allows(body, known) else PassesByKept(body, known, r.body))
      || PassesByKeptArm(arms, known, r.arms, r.outcome, Known(known, c) == Yes)
      || PassesByKept(rest, known, r.rest)
  }

  predicate PassesByKeptArm(a: Arms, known: Knowledge, r: RunArms, taken: bool, sure: bool)
    requires ArmsPlay(a, map[], r)
  {
    match a
    case End => false
    case Otherwise(body) =>
      !sure && if taken then Allows(body, known) else PassesByKept(body, known, r.body)
    case Alternative(c, body, arms) =>
      || (!sure && Known(known, c) != No
          && if taken || !r.outcome then Allows(body, known) else PassesByKept(body, known, r.body))
      || PassesByKeptArm(arms, known, r.arms, taken || r.outcome, sure || Known(known, c) == Yes)
  }

  lemma {:induction false} GuardsAreExceeding(t: Text, known: Knowledge, r: Run)
    requires Shaped(t, r)
    ensures Alike(Entered(t, r), Allowed(t, known)) && Alike(Allowed(t, known), Entered(t, r))
    ensures EntersDropped(t, known, r) <==> Exceeds(Entered(t, r), Allowed(t, known))
    ensures PassesByKept(t, known, r) <==> Exceeds(Allowed(t, known), Entered(t, r))
  {
    EnteredLikeAllowed(t, r, known);
    match t
    case Nil =>
    case Cons(_, rest) => GuardsAreExceeding(rest, known, r.rest);
    case Group(c, body, arms, rest) =>
      GuardsAreExceeding(body, known, r.body);
      ArmGuardsAreExceeding(arms, known, r.arms, r.outcome, Known(known, c) == Yes);
      GuardsAreExceeding(rest, known, r.rest);
  }

  lemma {:induction false} ArmGuardsAreExceeding(a: Arms, known: Knowledge, r: RunArms, taken: bool, sure: bool)
    requires ArmsPlay(a, map[], r)
    ensures AlikeArms(EnteredArms(a, r, taken), AllowedArms(a, known, sure))
    ensures AlikeArms(AllowedArms(a, known, sure), EnteredArms(a, r, taken))
    ensures EntersDroppedArm(a, known, r, taken, sure)
       <==> ExceedsArms(EnteredArms(a, r, taken), AllowedArms(a, known, sure))
    ensures PassesByKeptArm(a, known, r, taken, sure)
       <==> ExceedsArms(AllowedArms(a, known, sure), EnteredArms(a, r, taken))
  {
    EnteredArmsLikeAllowed(a, r, known, taken, sure);
    match a
    case End =>
    case Otherwise(body) => GuardsAreExceeding(body, known, r.body);
    case Alternative(c, body, arms) =>
      GuardsAreExceeding(body, known, r.body);
      ArmGuardsAreExceeding(arms, known, r.arms, taken || r.outcome, sure || Known(known, c) == Yes);
  }

  lemma RunMatchesExactly(known: Knowledge, t: Text, r: Run)
    requires Shaped(t, r)
    ensures DropsNothing(known, t, r) <==> !EntersDropped(t, known, r)
    ensures KeepsNothingElse(known, t, r) <==> !PassesByKept(t, known, r)
  {
    GuardsAreExceeding(t, known, r);
    var entered, allowed := Entered(t, r), Allowed(t, known);
    forall i: nat
      ensures Active(t, r, true, i) <==> Shows(entered, true, i)
      ensures Keeps(known, t, i) <==> Shows(allowed, true, i)
    {
      ActiveIsShown(t, r, true, i);
      KeepsIsShown(known, t, i);
    }
    assert DropsNothing(known, t, r) <==> Covers(allowed, entered);
    assert KeepsNothingElse(known, t, r) <==> Covers(entered, allowed);
    CoversExactly(entered, allowed);
    CoversExactly(allowed, entered);
  }

  lemma {:induction false} SteadyWithout(t: Text)
    ensures Steady(t, map[])
  {
    match t
    case Nil =>
    case Cons(_, rest) => SteadyWithout(rest);
    case Group(_, body, arms, rest) =>
      SteadyWithout(body);
      SteadyArmsWithout(arms);
      SteadyWithout(rest);
  }

  lemma {:induction false} SteadyArmsWithout(a: Arms)
    ensures SteadyArms(a, map[])
  {
    match a
    case End =>
    case Otherwise(body) => SteadyWithout(body);
    case Alternative(_, body, arms) =>
      SteadyWithout(body);
      SteadyArmsWithout(arms);
  }

  lemma ExecuteShaped(t: Text, table: set<string>)
    ensures Shaped(t, Execute(t, table, true).0)
  {
    SteadyWithout(t);
    ExecutePlays(t, map[], table, true);
  }

  /**
   * Whatever the text defines or undefines on the way, the resolver's output
   * holds every line the preprocessor compiles exactly when the preprocessor
   * enters no ruled-out branch that has such a line, and holds no other line
   * exactly when it passes by no branch that has a kept one.
   */
  lemma ResolverMatchesPreprocessor(known: Knowledge, t: Text, table: set<string>)
    ensures var r := Execute(t, table, true).0;
      && Shaped(t, r)
      && (DropsNothing(known, t, r) <==> !EntersDropped(t, known, r))
      && (KeepsNothingElse(known, t, r) <==> !PassesByKept(t, known, r))
  {
    ExecuteShaped(t, table);
    RunMatchesExactly(known, t, Execute(t, table, true).0);
  }

  /**
   * While no line takes a known macro out of its known state, the preprocessor
   * compiles no line the resolver dropped, and every line it kept when all
   * tested macros are known.
   */
  lemma SteadyTextMatches(known: Knowledge, t: Text, table: set<string>)
    requires Consistent(table, known) && Steady(t, known)
    ensures DropsNothing(known, t, Execute(t, table, true).0)
    ensures AllKnown(t, known) ==> KeepsNothingElse(known, t, Execute(t, table, true).0)
  {
    var r := Execute(t, table, true).0;
    ExecutePlays(t, known, table, true);
    forall i: nat
      ensures Active(t, r, true, i) ==> Keeps(known, t, i)
      ensures AllKnown(t, known) && Keeps(known, t, i) ==> Active(t, r, true, i)
    {
      KeptExactlyCompilable(known, t, i);
      if AllKnown(t, known) { KeptExactlyCompiled(known, t, r, i); }
    }
  }

  // ----- the macros a call knows -----

  /**
   * VERILATOR is undefined; a tested macro is defined when the caller defines
   * it and undefined when neither the caller nor the text does.
   */
  ghost predicate Knows(known: Knowledge, tested: seq<string>, own: set<string>, defined: set<string>)
  {
    && (forall m :: m in known <==> m == VERILATOR || (m in tested && (m in defined || m !in own)))
    && (forall m :: m in known ==> (known[m] <==> m in tested && m in defined))
  }

  method KnownMacros(tested: seq<string>, own: set<string>, defined: set<string>) returns (known: Knowledge)
    ensures Knows(known, tested, own, defined)
  {
    known := map[VERILATOR := false];
    for i := 0 to |tested|
      invariant Knows(known, tested[..i], own, defined)
    {
      var macro := tested[i];
      if macro in defined {
        known := known[macro := true];
      } else if macro !in own {
        known := known[macro := false];
      }
      assert tested[..i + 1] == tested[..i] + [macro];
    }
    assert tested[..|tested|] == tested;
  }

  /** The macros some line of the text defines (value true) or undefines. */
  function Sets(t: Text, value: bool): (ms: set<string>)
  {
    match t
    case Nil => {}
    case Cons(l, rest) => (set m | m in l.effect && l.effect[m] == value) + Sets(rest, value)
    case Group(_, body, arms, rest) => Sets(body, value) + ArmSets(arms, value) + Sets(rest, value)
  }

  function ArmSets(a: Arms, value: bool): (ms: set<string>)
  {
    match a
    case End => {}
    case Otherwise(body) => Sets(body, value)
    case Alternative(_, body, arms) => Sets(body, value) + ArmSets(arms, value)
  }

  /** Every test is of a single macro from the list. */
  predicate TestsOnly(t: Text, tested: seq<string>)
  {
    match t
    case Nil => true
    case Cons(_, rest) => TestsOnly(rest, tested)
    case Group(c, body, arms, rest) =>
      !c.Expression? && c.macro in tested
      && TestsOnly(body, tested) && ArmTestsOnly(arms, tested) && TestsOnly(rest, tested)
  }

  predicate ArmTestsOnly(a: Arms, tested: seq<string>)
  {
    match a
    case End => true
    case Otherwise(body) => TestsOnly(body, tested)
    case Alternative(c, body, arms) =>
      !c.Expression? && c.macro in tested && TestsOnly(body, tested) && ArmTestsOnly(arms, tested)
  }

  lemma {:induction false} KnownIsSteady(t: Text, known: Knowledge)
    requires forall m :: m in Sets(t, true) && m in known ==> known[m]
    requires forall m :: m in Sets(t, false) && m in known ==> !known[m]
    ensures Steady(t, known)
  {
    match t
    case Nil =>
    case Cons(l, rest) =>
      assert forall m :: m in l.effect ==> m in Sets(t, l.effect[m]);
      KnownIsSteady(rest, known);
    case Group(_, body, arms, rest) =>
      KnownIsSteady(body, known);
      KnownArmsAreSteady(arms, known);
      KnownIsSteady(rest, known);
  }

  lemma {:induction false} KnownArmsAreSteady(a: Arms, known: Knowledge)
    requires forall m :: m in ArmSets(a, true) && m in known ==> known[m]
    requires forall m :: m in ArmSets(a, false) && m in known ==> !known[m]
    ensures SteadyArms(a, known)
  {
    match a
    case End =>
    case Otherwise(body) => KnownIsSteady(body, known);
    case Alternative(_, body, arms) =>
      KnownIsSteady(body, known);
      KnownArmsAreSteady(arms, known);
  }

  lemma {:induction false} TestedIsKnown(t: Text, tested: seq<string>, known: Knowledge)
    requires TestsOnly(t, tested) && forall m :: m in tested ==> m in known
    ensures AllKnown(t, known)
  {
    match t
    case Nil =>
    case Cons(_, rest) => TestedIsKnown(rest, tested, known);
    case Group(_, body, arms, rest) =>
      TestedIsKnown(body, tested, known);
      TestedArmsAreKnown(arms, tested, known);
      TestedIsKnown(rest, tested, known);
  }

  lemma {:induction false} TestedArmsAreKnown(a: Arms, tested: seq<string>, known: Knowledge)
    requires ArmTestsOnly(a, tested) && forall m :: m in tested ==> m in known
    ensures ArmsKnown(a, known)
  {
    match a
    case End =>
    case Otherwise(body) => TestedIsKnown(body, tested, known);
    case Alternative(_, body, arms) =>
      TestedIsKnown(body, tested, known);
      TestedArmsAreKnown(arms, tested, known);
  }

  /**
   * What a call with the caller's defined macros promises. The preprocessor
   * that starts with them compiles no dropped line, as long as the text
   * undefines none of them; a tested macro that some line defines, be it
   * through an included file, is theirs or one the text's own defines name;
   * and VERILATOR is defined by the text only if by the caller, whose text
   * then tests it. If moreover the text itself defines no tested macro but
   * theirs, the preprocessor compiles every kept line.
   */
  lemma CallerGetsItsText(known: Knowledge, t: Text, tested: seq<string>, own: set<string>, defined: set<string>)
    requires Knows(known, tested, own, defined)
    requires Sets(t, false) !! defined
    requires forall m :: m in Sets(t, true) && m in tested ==> m in own || m in defined
    requires (VERILATOR in Sets(t, true) ==> VERILATOR in defined) && (VERILATOR in defined ==> VERILATOR in tested)
    ensures DropsNothing(known, t, Execute(t, defined, true).0)
    ensures TestsOnly(t, tested) && (forall m :: m in tested && m in own ==> m in defined)
        ==> KeepsNothingElse(known, t, Execute(t, defined, true).0)
  {
    KnownIsSteady(t, known);
    SteadyTextMatches(known, t, defined);
    if TestsOnly(t, tested) && (forall m :: m in tested && m in own ==> m in defined) {
      TestedIsKnown(t, tested, known);
    }
  }

  // ----- texts for which the resolver's output is not the preprocessor's -----

  /** One group that tests a macro, with one line if it is defined and one if not. */
  function Choice(macro: string, yes: Content, no: Content): Text
  {
    Group(Defined(macro), Cons(yes, Nil), Otherwise(Cons(no, Nil)), Nil)
  }

  /** A text that undefines a caller's macro and then tests it: the compiled line is dropped, the other kept. */
  lemma UndefinedMacroMisleads(yes: Content, no: Content, known: Knowledge)
    requires Knows(known, ["A"], {}, {"A"})
    ensures var t := Cons(Content("undef A", map["A" := false]), Choice("A", yes, no));
      var r := Execute(t, {"A"}, true).0;
      && Active(t, r, true, 4) && !Keeps(known, t, 4) && !DropsNothing(known, t, r)
      && Keeps(known, t, 2) && !Active(t, r, true, 2) && !KeepsNothingElse(known, t, r)
  {
    MisledAfter(Content("undef A", map["A" := false]), "A", yes, no, known, {"A"});
  }

  /** A text that defines VERILATOR and then tests it is misled the same way. */
  lemma DefinedVerilatorMisleads(yes: Content, no: Content, known: Knowledge)
    requires Knows(known, [VERILATOR], {VERILATOR}, {})
    ensures var t := Cons(Content("define VERILATOR", map[VERILATOR := true]), Choice(VERILATOR, yes, no));
      var r := Execute(t, {}, true).0;
      && Active(t, r, true, 2) && !Keeps(known, t, 2) && !DropsNothing(known, t, r)
      && Keeps(known, t, 4) && !Active(t, r, true, 4) && !KeepsNothingElse(known, t, r)
  {
    MisledAfter(Content("define VERILATOR", map[VERILATOR := true]), VERILATOR, yes, no, known, {});
  }

  /** So is a text that includes a file which defines a macro the text does not define itself. */
  lemma IncludedMacroMisleads(yes: Content, no: Content, known: Knowledge)
    requires Knows(known, ["A"], {}, {})
    ensures var t := Cons(Content("include a file that defines A", map["A" := true]), Choice("A", yes, no));
      var r := Execute(t, {}, true).0;
      && Active(t, r, true, 2) && !Keeps(known, t, 2) && !DropsNothing(known, t, r)
      && Keeps(known, t, 4) && !Active(t, r, true, 4) && !KeepsNothingElse(known, t, r)
  {
    MisledAfter(Content("include a file that defines A", map["A" := true]), "A", yes, no, known, {});
  }

  /** A line that turns a known macro round, and a test of it: each branch is judged wrongly. */
  lemma MisledAfter(line: Content, macro: string, yes: Content, no: Content, known: Knowledge, table: set<string>)
    requires macro in known && (macro in Updated(table, line.effect) <==> !known[macro])
    ensures var t := Cons(line, Choice(macro, yes, no));
      var r := Execute(t, table, true).0;
      var compiled, other := if known[macro] then 4 else 2, if known[macro] then 2 else 4;
      && Active(t, r, true, compiled) && !Keeps(known, t, compiled)
      && Keeps(known, t, other) && !Active(t, r, true, other)
  {
    var t := Cons(line, Choice(macro, yes, no));
    var outcome := macro in Updated(table, line.effect);
    var after := Execute(Choice(macro, yes, no), Updated(table, line.effect), true).0;
    ChoiceRun(macro, yes, no, Updated(table, line.effect));
    assert Execute(t, table, true).0 == RCons(after);
    assert Size(Cons(yes, Nil)) == 1 && Size(Cons(no, Nil)) == 1 && ArmSize(Otherwise(Cons(no, Nil))) == 3;
    KeepsIsShown(known, t, 2);
    KeepsIsShown(known, t, 4);
    PossibleIsShown(t, known, true, 2);
    PossibleIsShown(t, known, true, 4);
    ChoicePossible(macro, yes, no, known, true);
    ChoiceActive(macro, yes, no, outcome);
  }

  lemma OneLineRun(line: Content, table: set<string>, on: bool)
    ensures Execute(Cons(line, Nil), table, on).0 == RCons(RNil)
  {
    assert forall s :: Execute(Nil, s, on).0 == RNil;
  }

  lemma ChoiceRun(macro: string, yes: Content, no: Content, table: set<string>)
    ensures Execute(Choice(macro, yes, no), table, true).0
         == RGroup(macro in table, RCons(RNil), ROtherwise(RCons(RNil)), RNil)
  {
    var outcome := macro in table;
    OneLineRun(yes, table, true && outcome);
    var table1 := Execute(Cons(yes, Nil), table, true && outcome).1;
    OneLineRun(no, table1, true && !outcome);
    assert ExecuteArms(Otherwise(Cons(no, Nil)), table1, true, outcome).0 == ROtherwise(RCons(RNil));
  }

  lemma ChoicePossible(macro: string, yes: Content, no: Content, known: Knowledge, on: bool)
    requires macro in known
    ensures Possible(Choice(macro, yes, no), known, on, 1) <==> on && known[macro]
    ensures Possible(Choice(macro, yes, no), known, on, 3) <==> on && !known[macro]
  {
    assert Size(Cons(yes, Nil)) == 1 && Size(Cons(no, Nil)) == 1 && ArmSize(Otherwise(Cons(no, Nil))) == 3;
    assert PossibleArm(Otherwise(Cons(no, Nil)), known, on, known[macro], 1) <==> on && !known[macro];
  }

  lemma ChoiceActive(macro: string, yes: Content, no: Content, outcome: bool)
    ensures var r := RGroup(outcome, RCons(RNil), ROtherwise(RCons(RNil)), RNil);
      && (Active(Choice(macro, yes, no), r, true, 1) <==> outcome)
      && (Active(Choice(macro, yes, no), r, true, 3) <==> !outcome)
  {
    assert Size(Cons(yes, Nil)) == 1 && Size(Cons(no, Nil)) == 1 && ArmSize(Otherwise(Cons(no, Nil))) == 3;
    assert ActiveArm(Otherwise(Cons(no, Nil)), ROtherwise(RCons(RNil)), true, outcome, 1) <==> !outcome;
  }
}
