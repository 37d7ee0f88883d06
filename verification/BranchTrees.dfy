/**
 * Which branches of a conditionally compiled text a judge shows, and when one
 * judge shows every line another shows.
 */
module BranchTrees {
  import opened Conditionals

  /** A text with a verdict on each branch: shown within its group, or not. */
  datatype Tree = TNil | TLine(rest: Tree) | TGroup(shown: bool, body: Tree, arms: TArms, rest: Tree)

  datatype TArms = TEnd | TArm(shown: bool, body: Tree, arms: TArms)

  function Count(x: Tree): (n: nat)
  {
    match x
    case TNil => 0
    case TLine(rest) => 1 + Count(rest)
    case TGroup(_, body, arms, rest) => 1 + Count(body) + ArmCount(arms) + Count(rest)
  }

  function ArmCount(a: TArms): (n: nat)
  {
    match a
    case TEnd => 1
    case TArm(_, body, arms) => 1 + Count(body) + ArmCount(arms)
  }

  /** Line i is text and every branch around it is shown. */
  predicate Shows(x: Tree, on: bool, i: nat)
  {
    match x
    case TNil => false
    case TLine(rest) => if i == 0 then on else Shows(rest, on, i - 1)
    case TGroup(shown, body, arms, rest) =>
      var m, n := Count(body), ArmCount(arms);
      if i == 0 then false
      else if i <= m then Shows(body, on && shown, i - 1)
      else if i <= m + n then ShowsArm(arms, on, i - 1 - m)
      else Shows(rest, on, i - 1 - m - n)
  }

  predicate ShowsArm(a: TArms, on: bool, i: nat)
  {
    match a
    case TEnd => false
    case TArm(shown, body, arms) =>
      var m := Count(body);
      if i == 0 then false
      else if i <= m then Shows(body, on && shown, i - 1)
      else ShowsArm(arms, on, i - 1 - m)
  }

  /** The same as a list of marks, one per line, followed by `more`. */
  function Marks(x: Tree, on: bool, more: List<bool>): (marks: List<bool>)
  {
    match x
    case TNil => more
    case TLine(rest) => Link(on, Marks(rest, on, more))
    case TGroup(shown, body, arms, rest) =>
      Link(false, Marks(body, on && shown, ArmMarks(arms, on, Marks(rest, on, more))))
  }

  function ArmMarks(a: TArms, on: bool, more: List<bool>): (marks: List<bool>)
  {
    match a
    case TEnd => Link(false, more)
    case TArm(shown, body, arms) => Link(false, Marks(body, on && shown, ArmMarks(arms, on, more)))
  }

  lemma {:induction false} MarkedIsShown(x: Tree, on: bool, more: List<bool>, i: nat)
    ensures Marked(Marks(x, on, more), i) == if i < Count(x) then Shows(x, on, i) else Marked(more, i - Count(x))
    decreases x, 1
  {
    match x
    case TNil =>
    case TLine(rest) =>
      if i > 0 { MarkedIsShown(rest, on, more, i - 1); }
    case TGroup(_, body, arms, rest) =>
      var m, n := Count(body), ArmCount(arms);
      if i > 0 { MarkedInGroup(x, on, more, i - 1); }
      if m + n < i { MarkedIsShown(rest, on, more, i - 1 - m - n); }
  }

  /** Mark i behind the opening line of a group is one of its body, of its other branches, or of what follows. */
  lemma {:induction false} MarkedInGroup(x: Tree, on: bool, more: List<bool>, i: nat)
    requires x.TGroup?
    ensures var m, n := Count(x.body), ArmCount(x.arms);
      Marked(Marks(x, on, more), i + 1) == if i < m then Shows(x.body, on && x.shown, i)
                                           else if i < m + n then ShowsArm(x.arms, on, i - m)
                                           else Marked(Marks(x.rest, on, more), i - m - n)
    decreases x, 0
  {
    var m, last := Count(x.body), Marks(x.rest, on, more);
    MarkedIsShown(x.body, on && x.shown, ArmMarks(x.arms, on, last), i);
    if m <= i { MarkedArmIsShown(x.arms, on, last, i - m); }
  }

  lemma {:induction false} MarkedArmIsShown(a: TArms, on: bool, more: List<bool>, i: nat)
    ensures Marked(ArmMarks(a, on, more), i)
         == if i < ArmCount(a) then ShowsArm(a, on, i) else Marked(more, i - ArmCount(a))
    decreases a, 1
  {
    match a
    case TEnd =>
    case TArm(shown, body, arms) =>
      if i > 0 {
        MarkedIsShown(body, on && shown, ArmMarks(arms, on, more), i - 1);
        if Count(body) < i { MarkedArmIsShown(arms, on, more, i - 1 - Count(body)); }
      }
  }

  lemma {:induction false} ShowsWithin(x: Tree, on: bool, i: nat)
    ensures Shows(x, on, i) ==> i < Count(x)
  {
    match x
    case TNil =>
    case TLine(rest) =>
      if i > 0 { ShowsWithin(rest, on, i - 1); }
    case TGroup(_, body, arms, rest) =>
      var m, n := Count(body), ArmCount(arms);
      if i > m + n { ShowsWithin(rest, on, i - 1 - m - n); }
  }

  /** The marks of a whole text are the lines shown. */
  lemma MarksAreShown(x: Tree, i: nat)
    ensures Marked(Marks(x, true, Done), i) <==> Shows(x, true, i)
  {
    MarkedIsShown(x, true, Done, i);
    ShowsWithin(x, true, i);
  }

  // ----- one judge against another -----

  predicate Alike(x: Tree, y: Tree)
  {
    match (x, y)
    case (TNil, TNil) => true
    case (TLine(r), TLine(r')) => Alike(r, r')
    case (TGroup(_, b, a, r), TGroup(_, b', a', r')) => Alike(b, b') && AlikeArms(a, a') && Alike(r, r')
    case _ => false
  }

  predicate AlikeArms(a: TArms, b: TArms)
  {
    match (a, b)
    case (TEnd, TEnd) => true
    case (TArm(_, x, r), TArm(_, x', r')) => Alike(x, x') && AlikeArms(r, r')
    case _ => false
  }

  /** Some line is shown. */
  predicate Lively(x: Tree)
  {
    match x
    case TNil => false
    case TLine(_) => true
    case TGroup(shown, body, arms, rest) => (shown && Lively(body)) || LivelyArms(arms) || Lively(rest)
  }

  predicate LivelyArms(a: TArms)
  {
    match a
    case TEnd => false
    case TArm(shown, body, arms) => (shown && Lively(body)) || LivelyArms(arms)
  }

  /** Some branch that x shows and y does not, within branches both show, has a line that x shows. */
  predicate Exceeds(x: Tree, y: Tree)
    requires Alike(x, y)
  {
    match x
    case TNil => false
    case TLine(rest) => Exceeds(rest, y.rest)
    case TGroup(shown, body, arms, rest) =>
      || (shown && if y.shown then Exceeds(body, y.body) else Lively(body))
      || ExceedsArms(arms, y.arms)
      || Exceeds(rest, y.rest)
  }

  predicate ExceedsArms(a: TArms, b: TArms)
    requires AlikeArms(a, b)
  {
    match a
    case TEnd => false
    case TArm(shown, body, arms) =>
      || (shown && if b.shown then Exceeds(body, b.body) else Lively(body))
      || ExceedsArms(arms, b.arms)
  }

  lemma {:induction false} AlikeCount(x: Tree, y: Tree)
    requires Alike(x, y)
    ensures Count(x) == Count(y)
  {
    match x
    case TNil =>
    case TLine(rest) => AlikeCount(rest, y.rest);
    case TGroup(_, body, arms, rest) =>
      AlikeCount(body, y.body);
      AlikeArmCount(arms, y.arms);
      AlikeCount(rest, y.rest);
  }

  lemma {:induction false} AlikeArmCount(a: TArms, b: TArms)
    requires AlikeArms(a, b)
    ensures ArmCount(a) == ArmCount(b)
  {
    match a
    case TEnd =>
    case TArm(_, body, arms) =>
      AlikeCount(body, b.body);
      AlikeArmCount(arms, b.arms);
  }

  lemma {:induction false} HiddenShowsNothing(x: Tree, i: nat)
    ensures !Shows(x, false, i)
  {
    match x
    case TNil =>
    case TLine(rest) =>
      if i > 0 { HiddenShowsNothing(rest, i - 1); }
    case TGroup(_, body, arms, rest) =>
      var m, n := Count(body), ArmCount(arms);
      if 0 < i <= m {
        HiddenShowsNothing(body, i - 1);
      } else if m < i <= m + n {
        HiddenArmShowsNothing(arms, i - 1 - m);
      } else if i > 0 {
        HiddenShowsNothing(rest, i - 1 - m - n);
      }
  }

  lemma {:induction false} HiddenArmShowsNothing(a: TArms, i: nat)
    ensures !ShowsArm(a, false, i)
  {
    match a
    case TEnd =>
    case TArm(_, body, arms) =>
      if 0 < i <= Count(body) {
        HiddenShowsNothing(body, i - 1);
      } else if i > 0 {
        HiddenArmShowsNothing(arms, i - 1 - Count(body));
      }
  }

  lemma {:induction false} ShownIsLively(x: Tree, on: bool, i: nat)
    requires Shows(x, on, i)
    ensures on && Lively(x)
  {
    match x
    case TLine(rest) =>
      if i > 0 { ShownIsLively(rest, on, i - 1); }
    case TGroup(shown, body, arms, rest) =>
      var m, n := Count(body), ArmCount(arms);
      if i <= m {
        ShownIsLively(body, on && shown, i - 1);
      } else if i <= m + n {
        ShownArmIsLively(arms, on, i - 1 - m);
      } else {
        ShownIsLively(rest, on, i - 1 - m - n);
      }
  }

  lemma {:induction false} ShownArmIsLively(a: TArms, on: bool, i: nat)
    requires ShowsArm(a, on, i)
    ensures on && LivelyArms(a)
  {
    if i <= Count(a.body) {
      ShownIsLively(a.body, on && a.shown, i - 1);
    } else {
      ShownArmIsLively(a.arms, on, i - 1 - Count(a.body));
    }
  }

  lemma {:induction false} LivelyLine(x: Tree) returns (i: nat)
    requires Lively(x)
    ensures i < Count(x) && Shows(x, true, i)
  {
    match x
    case TLine(_) => i := 0;
    case TGroup(shown, body, arms, rest) =>
      if Lively(rest) {
        i := LivelyLine(rest);
        i := i + 1 + Count(body) + ArmCount(arms);
      } else if LivelyArms(arms) {
        i := LivelyArmLine(arms);
        i := i + 1 + Count(body);
      } else {
        i := LivelyLine(body);
        i := i + 1;
      }
  }

  lemma {:induction false} LivelyArmLine(a: TArms) returns (i: nat)
    requires LivelyArms(a)
    ensures i < ArmCount(a) && ShowsArm(a, true, i)
  {
    if LivelyArms(a.arms) {
      i := LivelyArmLine(a.arms);
      i := i + 1 + Count(a.body);
    } else {
      i := LivelyLine(a.body);
      i := i + 1;
    }
  }

  lemma {:induction false} ShownByBoth(x: Tree, y: Tree, i: nat)
    requires Alike(x, y) && !Exceeds(x, y) && Shows(x, true, i)
    ensures Shows(y, true, i)
  {
    match x
    case TLine(rest) =>
      if i > 0 { ShownByBoth(rest, y.rest, i - 1); }
    case TGroup(shown, body, arms, rest) =>
      AlikeCount(body, y.body);
      AlikeArmCount(arms, y.arms);
      var m, n := Count(body), ArmCount(arms);
      if i <= m {
        ShownIsLively(body, shown, i - 1);
        ShownByBoth(body, y.body, i - 1);
      } else if i <= m + n {
        ShownByBothArms(arms, y.arms, i - 1 - m);
      } else {
        ShownByBoth(rest, y.rest, i - 1 - m - n);
      }
  }

  lemma {:induction false} ShownByBothArms(a: TArms, b: TArms, i: nat)
    requires AlikeArms(a, b) && !ExceedsArms(a, b) && ShowsArm(a, true, i)
    ensures ShowsArm(b, true, i)
  {
    AlikeCount(a.body, b.body);
    if i <= Count(a.body) {
      ShownIsLively(a.body, a.shown, i - 1);
      ShownByBoth(a.body, b.body, i - 1);
    } else {
      ShownByBothArms(a.arms, b.arms, i - 1 - Count(a.body));
    }
  }

  lemma {:induction false} ExceedingLine(x: Tree, y: Tree) returns (i: nat)
    requires Alike(x, y) && Exceeds(x, y)
    ensures i < Count(x) && Shows(x, true, i) && !Shows(y, true, i)
    decreases x, 2
  {
    match x
    case TLine(rest) =>
      i := ExceedingLine(rest, y.rest);
      i := i + 1;
    case TGroup(_, body, arms, rest) =>
      if Exceeds(rest, y.rest) {
        AlikeCount(body, y.body);
        AlikeArmCount(arms, y.arms);
        i := ExceedingLine(rest, y.rest);
        i := i + 1 + Count(body) + ArmCount(arms);
      } else {
        i := ExceedingGroupLine(x, y);
      }
  }

  lemma {:induction false} ExceedingGroupLine(x: Tree, y: Tree) returns (i: nat)
    requires x.TGroup? && Alike(x, y) && Exceeds(x, y) && !Exceeds(x.rest, y.rest)
    ensures i < Count(x) && Shows(x, true, i) && !Shows(y, true, i)
    decreases x, 1
  {
    AlikeCount(x.body, y.body);
    AlikeArmCount(x.arms, y.arms);
    if ExceedsArms(x.arms, y.arms) {
      i := ExceedingArmLine(x.arms, y.arms);
      i := i + 1 + Count(x.body);
    } else {
      i := ExceedingBranchLine(x.body, y.body, y.shown);
      i := i + 1;
    }
  }

  /** The line of a branch that the first judge shows. */
  lemma {:induction false} ExceedingBranchLine(x: Tree, y: Tree, shown: bool) returns (i: nat)
    requires Alike(x, y) && if shown then Exceeds(x, y) else Lively(x)
    ensures i < Count(x) && Shows(x, true, i) && !Shows(y, shown, i)
    decreases x, 3
  {
    if shown {
      i := ExceedingLine(x, y);
    } else {
      i := LivelyLine(x);
      HiddenShowsNothing(y, i);
    }
  }

  lemma {:induction false} ExceedingArmLine(a: TArms, b: TArms) returns (i: nat)
    requires AlikeArms(a, b) && ExceedsArms(a, b)
    ensures i < ArmCount(a) && ShowsArm(a, true, i) && !ShowsArm(b, true, i)
    decreases a, 0
  {
    AlikeCount(a.body, b.body);
    if ExceedsArms(a.arms, b.arms) {
      i := ExceedingArmLine(a.arms, b.arms);
      i := i + 1 + Count(a.body);
    } else {
      i := ExceedingBranchLine(a.body, b.body, b.shown);
      i := i + 1;
    }
  }

  /** y shows every line that x shows. */
  ghost predicate Covers(y: Tree, x: Tree)
  {
    forall i: nat :: Shows(x, true, i) ==> Shows(y, true, i)
  }

  lemma CoversExactly(x: Tree, y: Tree)
    requires Alike(x, y)
    ensures Covers(y, x) <==> !Exceeds(x, y)
  {
    if Exceeds(x, y) {
      var i := ExceedingLine(x, y);
      assert Shows(x, true, i) && !Shows(y, true, i);
    } else {
      forall i: nat | Shows(x, true, i)
        ensures Shows(y, true, i)
      {
        ShownByBoth(x, y, i);
      }
    }
  }

  // ----- the branches a run enters -----

  predicate Shaped(t: Text, r: Run)
  {
    Plays(t, map[], r)
  }

  function Entered(t: Text, r: Run): (x: Tree)
    requires Shaped(t, r)
  {
    match t
    case Nil => TNil
    case Cons(_, rest) => TLine(Entered(rest, r.rest))
    case Group(_, body, arms, rest) =>
      TGroup(r.outcome, Entered(body, r.body), EnteredArms(arms, r.arms, r.outcome), Entered(rest, r.rest))
  }

  function EnteredArms(a: Arms, r: RunArms, taken: bool): (x: TArms)
    requires ArmsPlay(a, map[], r)
  {
    match a
    case End => TEnd
    case Otherwise(body) => TArm(!taken, Entered(body, r.body), TEnd)
    case Alternative(_, body, arms) =>
      TArm(!taken && r.outcome, Entered(body, r.body), EnteredArms(arms, r.arms, taken || r.outcome))
  }

  lemma {:induction false} EnteredCount(t: Text, r: Run)
    requires Shaped(t, r)
    ensures Count(Entered(t, r)) == Size(t)
  {
    match t
    case Nil =>
    case Cons(_, rest) => EnteredCount(rest, r.rest);
    case Group(_, body, arms, rest) =>
      EnteredCount(body, r.body);
      EnteredArmCount(arms, r.arms, r.outcome);
      EnteredCount(rest, r.rest);
  }

  lemma {:induction false} EnteredArmCount(a: Arms, r: RunArms, taken: bool)
    requires ArmsPlay(a, map[], r)
    ensures ArmCount(EnteredArms(a, r, taken)) == ArmSize(a)
  {
    match a
    case End =>
    case Otherwise(body) => EnteredCount(body, r.body);
    case Alternative(_, body, arms) =>
      EnteredCount(body, r.body);
      EnteredArmCount(arms, r.arms, taken || r.outcome);
  }

  lemma {:induction false} ActiveIsShown(t: Text, r: Run, on: bool, i: nat)
    requires Shaped(t, r)
    ensures Active(t, r, on, i) <==> Shows(Entered(t, r), on, i)
  {
    match t
    case Nil =>
    case Cons(_, rest) =>
      if i > 0 { ActiveIsShown(rest, r.rest, on, i - 1); }
    case Group(_, body, arms, rest) =>
      EnteredCount(body, r.body);
      EnteredArmCount(arms, r.arms, r.outcome);
      var m, n := Size(body), ArmSize(arms);
      if 0 < i <= m {
        ActiveIsShown(body, r.body, on && r.outcome, i - 1);
      } else if m < i <= m + n {
        ActiveArmIsShown(arms, r.arms, on, r.outcome, i - 1 - m);
      } else if i > 0 {
        ActiveIsShown(rest, r.rest, on, i - 1 - m - n);
      }
  }

  lemma {:induction false} ActiveArmIsShown(a: Arms, r: RunArms, on: bool, taken: bool, i: nat)
    requires ArmsPlay(a, map[], r)
    ensures ActiveArm(a, r, on, taken, i) <==> ShowsArm(EnteredArms(a, r, taken), on, i)
  {
    match a
    case End =>
    case Otherwise(body) =>
      EnteredCount(body, r.body);
      if 0 < i <= Size(body) { ActiveIsShown(body, r.body, on && !taken, i - 1); }
    case Alternative(_, body, arms) =>
      EnteredCount(body, r.body);
      if 0 < i <= Size(body) {
        ActiveIsShown(body, r.body, on && !taken && r.outcome, i - 1);
      } else if i > 0 {
        ActiveArmIsShown(arms, r.arms, on, taken || r.outcome, i - 1 - Size(body));
      }
  }

  // ----- the branches the known tests allow -----

  function Allowed(t: Text, known: Knowledge): (x: Tree)
  {
    match t
    case Nil => TNil
    case Cons(_, rest) => TLine(Allowed(rest, known))
    case Group(c, body, arms, rest) =>
      TGroup(Known(known, c) != No, Allowed(body, known), AllowedArms(arms, known, Known(known, c) == Yes),
             Allowed(rest, known))
  }

  function AllowedArms(a: Arms, known: Knowledge, taken: bool): (x: TArms)
  {
    match a
    case End => TEnd
    case Otherwise(body) => TArm(!taken, Allowed(body, known), TEnd)
    case Alternative(c, body, arms) =>
      TArm(!taken && Known(known, c) != No, Allowed(body, known),
           AllowedArms(arms, known, taken || Known(known, c) == Yes))
  }

  lemma {:induction false} AllowedCount(t: Text, known: Knowledge)
    ensures Count(Allowed(t, known)) == Size(t)
  {
    match t
    case Nil =>
    case Cons(_, rest) => AllowedCount(rest, known);
    case Group(c, body, arms, rest) =>
      AllowedCount(body, known);
      AllowedArmCount(arms, known, Known(known, c) == Yes);
      AllowedCount(rest, known);
  }

  lemma {:induction false} AllowedArmCount(a: Arms, known: Knowledge, taken: bool)
    ensures ArmCount(AllowedArms(a, known, taken)) == ArmSize(a)
  {
    match a
    case End =>
    case Otherwise(body) => AllowedCount(body, known);
    case Alternative(c, body, arms) =>
      AllowedCount(body, known);
      AllowedArmCount(arms, known, taken || Known(known, c) == Yes);
  }

  lemma {:induction false} PossibleIsShown(t: Text, known: Knowledge, on: bool, i: nat)
    ensures Possible(t, known, on, i) <==> Shows(Allowed(t, known), on, i)
  {
    match t
    case Nil =>
    case Cons(_, rest) =>
      if i > 0 { PossibleIsShown(rest, known, on, i - 1); }
    case Group(c, body, arms, rest) =>
      var m, n, v := Size(body), ArmSize(arms), Known(known, c);
      AllowedCount(body, known);
      AllowedArmCount(arms, known, v == Yes);
      if 0 < i <= m {
        PossibleIsShown(body, known, on && v != No, i - 1);
      } else if m < i <= m + n {
        PossibleArmIsShown(arms, known, on, v == Yes, i - 1 - m);
      } else if i > 0 {
        PossibleIsShown(rest, known, on, i - 1 - m - n);
      }
  }

  lemma {:induction false} PossibleArmIsShown(a: Arms, known: Knowledge, on: bool, taken: bool, i: nat)
    ensures PossibleArm(a, known, on, taken, i) <==> ShowsArm(AllowedArms(a, known, taken), on, i)
  {
    match a
    case End =>
    case Otherwise(body) =>
      AllowedCount(body, known);
      if 0 < i <= Size(body) { PossibleIsShown(body, known, on && !taken, i - 1); }
    case Alternative(c, body, arms) =>
      AllowedCount(body, known);
      var v := Known(known, c);
      if 0 < i <= Size(body) {
        PossibleIsShown(body, known, on && !taken && v != No, i - 1);
      } else if i > 0 {
        PossibleArmIsShown(arms, known, on, taken || v == Yes, i - 1 - Size(body));
      }
  }

  lemma {:induction false} EnteredLikeAllowed(t: Text, r: Run, known: Knowledge)
    requires Shaped(t, r)
    ensures Alike(Entered(t, r), Allowed(t, known)) && Alike(Allowed(t, known), Entered(t, r))
  {
    match t
    case Nil =>
    case Cons(_, rest) => EnteredLikeAllowed(rest, r.rest, known);
    case Group(c, body, arms, rest) =>
      EnteredLikeAllowed(body, r.body, known);
      EnteredArmsLikeAllowed(arms, r.arms, known, r.outcome, Known(known, c) == Yes);
      EnteredLikeAllowed(rest, r.rest, known);
  }

  lemma {:induction false} EnteredArmsLikeAllowed(a: Arms, r: RunArms, known: Knowledge, taken: bool, must: bool)
    requires ArmsPlay(a, map[], r)
    ensures AlikeArms(EnteredArms(a, r, taken), AllowedArms(a, known, must))
    ensures AlikeArms(AllowedArms(a, known, must), EnteredArms(a, r, taken))
  {
    match a
    case End =>
    case Otherwise(body) => EnteredLikeAllowed(body, r.body, known);
    case Alternative(c, body, arms) =>
      EnteredLikeAllowed(body, r.body, known);
      EnteredArmsLikeAllowed(arms, r.arms, known, taken || r.outcome, must || Known(known, c) == Yes);
  }
}
