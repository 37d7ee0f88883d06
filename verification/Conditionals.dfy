/**
 * Conditionally compiled text and what a preprocessor makes of it: the shared
 * reference for the Verilog directives (section 22.6 of IEEE 1800-2017) and
 * the C directives (section 6.10.1 of ISO/IEC 9899:2011).
 */
module Conditionals {
  import opened Common

  datatype List<+T> = Done | Link(head: T, tail: List<T>)

  /** Entry i of a list of marks; past the end there is none. */
  predicate Marked(marks: List<bool>, i: nat)
  {
    marks.Link? && if i == 0 then marks.head else Marked(marks.tail, i - 1)
  }

  function Nth<T>(l: List<T>, i: nat): (x: Option<T>)
  {
    if l.Done? then None else if i == 0 then Some(l.head) else Nth(l.tail, i - 1)
  }

  const VERILATOR := "VERILATOR"

  /** What a directive tests. An expression other than a single macro has no known value. */
  datatype Test = Defined(macro: string) | Undefined(macro: string) | Expression(text: string)

  datatype Truth = Yes | No | Unknown

  /** The macros whose state is known throughout the text. */
  type Knowledge = map<string, bool>

  function Known(known: Knowledge, c: Test): (v: Truth)
  {
    match c
    case Defined(m) => if m !in known then Unknown else if known[m] then Yes else No
    case Undefined(m) => if m !in known then Unknown else if known[m] then No else Yes
    case Expression(_) => Unknown
  }

  /**
   * A line of ordinary text: what it says, and what compiling it does to the
   * macro table.
   */
  datatype Content = Content(text: string, effect: map<string, bool>)

  datatype Line = Open(test: Test) | Elif(test: Test) | Else | Close | Plain(line: Content)

  /** Well-nested text: lines and groups, each group a chain of branches. */
  datatype Text =
    | Nil
    | Cons(line: Content, rest: Text)
    | Group(test: Test, body: Text, arms: Arms, rest: Text)

  datatype Arms =
    | End
    | Otherwise(body: Text)
    | Alternative(test: Test, body: Text, arms: Arms)

  /** The lines of the text, followed by `more`. */
  function Lines(t: Text, more: List<Line>): (ls: List<Line>)
  {
    match t
    case Nil => more
    case Cons(l, rest) => Link(Plain(l), Lines(rest, more))
    case Group(c, body, arms, rest) => Link(Open(c), Lines(body, ArmLines(arms, Lines(rest, more))))
  }

  function ArmLines(a: Arms, more: List<Line>): (ls: List<Line>)
  {
    match a
    case End => Link(Close, more)
    case Otherwise(body) => Link(Else, Lines(body, Link(Close, more)))
    case Alternative(c, body, arms) => Link(Elif(c), Lines(body, ArmLines(arms, more)))
  }

  /** Number of lines. */
  function Size(t: Text): (n: nat)
  {
    match t
    case Nil => 0
    case Cons(_, rest) => 1 + Size(rest)
    case Group(_, body, arms, rest) => 1 + Size(body) + ArmSize(arms) + Size(rest)
  }

  function ArmSize(a: Arms): (n: nat)
  {
    match a
    case End => 1
    case Otherwise(body) => 2 + Size(body)
    case Alternative(_, body, arms) => 1 + Size(body) + ArmSize(arms)
  }

  // ----- the reference preprocessor -----

  /**
   * One pass of a preprocessor over a text: the text's shape with the outcome
   * each test had when its directive was reached. Nothing ties the outcomes of
   * one macro together, so macros may change between lines.
   */
  datatype Run = RNil | RCons(rest: Run) | RGroup(outcome: bool, body: Run, arms: RunArms, rest: Run)

  datatype RunArms = REnd | ROtherwise(body: Run) | RAlternative(outcome: bool, body: Run, arms: RunArms)

  /** A single outcome against what is known of its test. */
  predicate Fits(outcome: bool, v: Truth)
  {
    v == Unknown || outcome == (v == Yes)
  }

  /** r is a pass over t in which every known test came out as known. */
  predicate Plays(t: Text, known: Knowledge, r: Run)
  {
    match (t, r)
    case (Nil, RNil) => true
    case (Cons(_, rest), RCons(rest')) => Plays(rest, known, rest')
    case (Group(c, body, arms, rest), RGroup(o, body', arms', rest')) =>
      && Fits(o, Known(known, c))
      && Plays(body, known, body') && ArmsPlay(arms, known, arms') && Plays(rest, known, rest')
    case _ => false
  }

  predicate ArmsPlay(a: Arms, known: Knowledge, r: RunArms)
  {
    match (a, r)
    case (End, REnd) => true
    case (Otherwise(body), ROtherwise(body')) => Plays(body, known, body')
    case (Alternative(c, body, arms), RAlternative(o, body', arms')) =>
      Fits(o, Known(known, c)) && Plays(body, known, body') && ArmsPlay(arms, known, arms')
    case _ => false
  }

  /** Whether line i of the text is compiled; `on` says whether the text itself is. */
  predicate Active(t: Text, r: Run, on: bool, i: nat)
  {
    match (t, r)
    case (Cons(_, rest), RCons(rest')) => if i == 0 then on else Active(rest, rest', on, i - 1)
    case (Group(_, body, arms, rest), RGroup(o, body', arms', rest')) =>
      var m, n := Size(body), ArmSize(arms);
      if i == 0 then false
      else if i <= m then Active(body, body', on && o, i - 1)
      else if i <= m + n then ActiveArm(arms, arms', on, o, i - 1 - m)
      else Active(rest, rest', on, i - 1 - m - n)
    case _ => false
  }

  predicate ActiveArm(a: Arms, r: RunArms, on: bool, taken: bool, i: nat)
  {
    match (a, r)
    case (Otherwise(body), ROtherwise(body')) =>
      0 < i <= Size(body) && Active(body, body', on && !taken, i - 1)
    case (Alternative(_, body, arms), RAlternative(o, body', arms')) =>
      var m := Size(body);
      if i == 0 then false
      else if i <= m then Active(body, body', on && !taken && o, i - 1)
      else ActiveArm(arms, arms', on, taken || o, i - 1 - m)
    case _ => false
  }

  // ----- what can be said when only some tests are known -----

  /** Whether no known test rules line i out. */
  predicate Possible(t: Text, known: Knowledge, on: bool, i: nat)
  {
    match t
    case Nil => false
    case Cons(_, rest) => if i == 0 then on else Possible(rest, known, on, i - 1)
    case Group(c, body, arms, rest) =>
      var m, n := Size(body), ArmSize(arms);
      if i == 0 then false
      else if i <= m then Possible(body, known, on && Known(known, c) != No, i - 1)
      else if i <= m + n then PossibleArm(arms, known, on, Known(known, c) == Yes, i - 1 - m)
      else Possible(rest, known, on, i - 1 - m - n)
  }

  predicate PossibleArm(a: Arms, known: Knowledge, on: bool, taken: bool, i: nat)
  {
    match a
    case End => false
    case Otherwise(body) => 0 < i <= Size(body) && Possible(body, known, on && !taken, i - 1)
    case Alternative(c, body, arms) =>
      var m := Size(body);
      if i == 0 then false
      else if i <= m then Possible(body, known, on && !taken && Known(known, c) != No, i - 1)
      else PossibleArm(arms, known, on, taken || Known(known, c) == Yes, i - 1 - m)
  }

  lemma {:induction false} ActiveIsPossible(t: Text, known: Knowledge, r: Run, on: bool, may: bool, i: nat)
    requires Plays(t, known, r) && (on ==> may)
    ensures Active(t, r, on, i) ==> Possible(t, known, may, i)
  {
    match t
    case Nil =>
    case Cons(_, rest) =>
      if i > 0 { ActiveIsPossible(rest, known, r.rest, on, may, i - 1); }
    case Group(c, body, arms, rest) =>
      var m, n, v := Size(body), ArmSize(arms), Known(known, c);
      if 0 < i <= m {
        ActiveIsPossible(body, known, r.body, on && r.outcome, may && v != No, i - 1);
      } else if m < i <= m + n {
        ActiveArmIsPossible(arms, known, r.arms, on, may, r.outcome, v == Yes, i - 1 - m);
      } else if i > 0 {
        ActiveIsPossible(rest, known, r.rest, on, may, i - 1 - m - n);
      }
  }

  lemma {:induction false} ActiveArmIsPossible(
    a: Arms, known: Knowledge, r: RunArms, on: bool, may: bool, taken: bool, must: bool, i: nat)
    requires ArmsPlay(a, known, r) && (on ==> may) && (must ==> taken)
    ensures ActiveArm(a, r, on, taken, i) ==> PossibleArm(a, known, may, must, i)
  {
    match a
    case End =>
    case Otherwise(body) =>
      if 0 < i <= Size(body) {
        ActiveIsPossible(body, known, r.body, on && !taken, may && !must, i - 1);
      }
    case Alternative(c, body, arms) =>
      var m, v := Size(body), Known(known, c);
      if 0 < i <= m {
        ActiveIsPossible(body, known, r.body, on && !taken && r.outcome, may && !must && v != No, i - 1);
      } else if i > 0 {
        ActiveArmIsPossible(arms, known, r.arms, on, may, taken || r.outcome, must || v == Yes, i - 1 - m);
      }
  }

  // ----- every possible line has a run that compiles it -----

  lemma {:induction false} PossibleNeedsOn(t: Text, known: Knowledge, i: nat)
    ensures !Possible(t, known, false, i)
  {
    match t
    case Nil =>
    case Cons(_, rest) =>
      if i > 0 { PossibleNeedsOn(rest, known, i - 1); }
    case Group(c, body, arms, rest) =>
      var m, n := Size(body), ArmSize(arms);
      if 0 < i <= m {
        PossibleNeedsOn(body, known, i - 1);
      } else if m < i <= m + n {
        ArmNeedsOn(arms, known, false, Known(known, c) == Yes, i - 1 - m);
      } else if i > 0 {
        PossibleNeedsOn(rest, known, i - 1 - m - n);
      }
  }

  /** Neither a suppressed group nor a branch after a taken one is possible. */
  lemma {:induction false} ArmNeedsOn(a: Arms, known: Knowledge, on: bool, taken: bool, i: nat)
    requires !on || taken
    ensures !PossibleArm(a, known, on, taken, i)
  {
    match a
    case End =>
    case Otherwise(body) =>
      if 0 < i <= Size(body) { PossibleNeedsOn(body, known, i - 1); }
    case Alternative(c, body, arms) =>
      var m := Size(body);
      if 0 < i <= m {
        PossibleNeedsOn(body, known, i - 1);
      } else if i > 0 {
        ArmNeedsOn(arms, known, on, taken || Known(known, c) == Yes, i - 1 - m);
      }
  }

  function Favoured(v: Truth, here: bool): bool
  {
    v == Yes || (v == Unknown && here)
  }

  /** The run in which an unknown test succeeds just when its branch holds line i. */
  function Towards(t: Text, known: Knowledge, i: int): (r: Run)
    ensures Plays(t, known, r)
  {
    match t
    case Nil => RNil
    case Cons(_, rest) => RCons(Towards(rest, known, i - 1))
    case Group(c, body, arms, rest) =>
      var m, n := Size(body), ArmSize(arms);
      RGroup(Favoured(Known(known, c), 0 < i <= m), Towards(body, known, i - 1),
             ArmsTowards(arms, known, i - 1 - m), Towards(rest, known, i - 1 - m - n))
  }

  function ArmsTowards(a: Arms, known: Knowledge, i: int): (r: RunArms)
    ensures ArmsPlay(a, known, r)
  {
    match a
    case End => REnd
    case Otherwise(body) => ROtherwise(Towards(body, known, i - 1))
    case Alternative(c, body, arms) =>
      var m := Size(body);
      RAlternative(Favoured(Known(known, c), 0 < i <= m), Towards(body, known, i - 1),
                   ArmsTowards(arms, known, i - 1 - m))
  }

  lemma {:induction false} PossibleIsReached(t: Text, known: Knowledge, i: nat)
    requires Possible(t, known, true, i)
    ensures Active(t, Towards(t, known, i), true, i)
    decreases t, 1
  {
    match t
    case Cons(_, rest) =>
      if i > 0 { PossibleIsReached(rest, known, i - 1); }
    case Group(_, body, arms, rest) =>
      var m, n := Size(body), ArmSize(arms);
      if i <= m + n {
        PossibleInGroupIsReached(t, known, i);
      } else {
        PossibleIsReached(rest, known, i - 1 - m - n);
      }
  }

  lemma {:induction false} PossibleInGroupIsReached(t: Text, known: Knowledge, i: nat)
    requires t.Group? && i <= Size(t.body) + ArmSize(t.arms) && Possible(t, known, true, i)
    ensures Active(t, Towards(t, known, i), true, i)
    decreases t, 0
  {
    var Group(c, body, arms, rest) := t;
    var m := Size(body);
    if i <= m {
      BranchIsOn(body, known, Known(known, c) != No, i - 1);
      PossibleIsReached(body, known, i - 1);
    } else {
      ArmIsOn(arms, known, Known(known, c) == Yes, i - 1 - m);
      PossibleArmIsReached(arms, known, i - 1 - m);
    }
  }

  lemma {:induction false} PossibleArmIsReached(a: Arms, known: Knowledge, i: nat)
    requires PossibleArm(a, known, true, false, i)
    ensures ActiveArm(a, ArmsTowards(a, known, i), true, false, i)
    decreases a, 1
  {
    match a
    case Otherwise(body) =>
      PossibleIsReached(body, known, i - 1);
    case Alternative(c, body, arms) =>
      var m := Size(body);
      if i <= m {
        BranchIsOn(body, known, Known(known, c) != No, i - 1);
        PossibleIsReached(body, known, i - 1);
      } else {
        ArmIsOn(arms, known, Known(known, c) == Yes, i - 1 - m);
        PossibleArmIsReached(arms, known, i - 1 - m);
      }
  }

  lemma BranchIsOn(t: Text, known: Knowledge, on: bool, i: nat)
    requires Possible(t, known, on, i)
    ensures on
  {
    PossibleNeedsOn(t, known, i);
  }

  lemma ArmIsOn(a: Arms, known: Knowledge, taken: bool, i: nat)
    requires PossibleArm(a, known, true, taken, i)
    ensures !taken
  {
    if taken { ArmNeedsOn(a, known, true, taken, i); }
  }

  /** Some run that agrees with what is known compiles line i. */
  ghost predicate Compilable(t: Text, known: Knowledge, i: nat)
  {
    exists r :: Plays(t, known, r) && Active(t, r, true, i)
  }

  /** A line is ruled out exactly when no agreeing run compiles it. */
  lemma PossibleIsExact(t: Text, known: Knowledge, i: nat)
    ensures Possible(t, known, true, i) <==> Compilable(t, known, i)
  {
    if Possible(t, known, true, i) {
      PossibleIsReached(t, known, i);
      var r := Towards(t, known, i);
      assert Plays(t, known, r) && Active(t, r, true, i);
    }
    if Compilable(t, known, i) {
      var r :| Plays(t, known, r) && Active(t, r, true, i);
      ActiveIsPossible(t, known, r, true, true, i);
    }
  }

  // ----- when every test is known -----

  predicate AllKnown(t: Text, known: Knowledge)
  {
    match t
    case Nil => true
    case Cons(_, rest) => AllKnown(rest, known)
    case Group(c, body, arms, rest) =>
      Known(known, c) != Unknown && AllKnown(body, known) && ArmsKnown(arms, known) && AllKnown(rest, known)
  }

  predicate ArmsKnown(a: Arms, known: Knowledge)
  {
    match a
    case End => true
    case Otherwise(body) => AllKnown(body, known)
    case Alternative(c, body, arms) =>
      Known(known, c) != Unknown && AllKnown(body, known) && ArmsKnown(arms, known)
  }

  /** With every test known, the possible lines are the compiled lines. */
  lemma {:induction false} KnownIsActive(t: Text, known: Knowledge, r: Run, on: bool, i: nat)
    requires Plays(t, known, r) && AllKnown(t, known)
    ensures Active(t, r, on, i) == Possible(t, known, on, i)
  {
    match t
    case Nil =>
    case Cons(_, rest) =>
      if i > 0 { KnownIsActive(rest, known, r.rest, on, i - 1); }
    case Group(c, body, arms, rest) =>
      var m, n := Size(body), ArmSize(arms);
      if 0 < i <= m {
        KnownIsActive(body, known, r.body, on && r.outcome, i - 1);
      } else if m < i <= m + n {
        KnownArmIsActive(arms, known, r.arms, on, r.outcome, i - 1 - m);
      } else if i > 0 {
        KnownIsActive(rest, known, r.rest, on, i - 1 - m - n);
      }
  }

  lemma {:induction false} KnownArmIsActive(a: Arms, known: Knowledge, r: RunArms, on: bool, taken: bool, i: nat)
    requires ArmsPlay(a, known, r) && ArmsKnown(a, known)
    ensures ActiveArm(a, r, on, taken, i) == PossibleArm(a, known, on, taken, i)
  {
    match a
    case End =>
    case Otherwise(body) =>
      if 0 < i <= Size(body) { KnownIsActive(body, known, r.body, on && !taken, i - 1); }
    case Alternative(c, body, arms) =>
      var m := Size(body);
      if 0 < i <= m {
        KnownIsActive(body, known, r.body, on && !taken && r.outcome, i - 1);
      } else if i > 0 {
        KnownArmIsActive(arms, known, r.arms, on, taken || r.outcome, i - 1 - m);
      }
  }
}
