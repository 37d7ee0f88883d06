/** The xorshift32 generator (shifts 13, 17, 5) behind every stimulus stream. */
module Xorshift {
  import opened Common

  const TWO32 := 0x1_0000_0000

  // ----- the three xor-shifts and how to undo them -----

  function Left13(x: bv32): bv32 { x ^ (x << 13) }

  function Right17(x: bv32): bv32 { x ^ (x >> 17) }

  function Left5(x: bv32): bv32 { x ^ (x << 5) }

  function Unleft13(y: bv32): bv32 { y ^ (y << 13) ^ (y << 26) }

  function Unleft5(y: bv32): bv32
  {
    y ^ (y << 5) ^ (y << 10) ^ (y << 15) ^ (y << 20) ^ (y << 25) ^ (y << 30)
  }

  lemma UndoLeft13Plain(x: bv32)
    ensures Unleft13(x ^ (x << 13)) == x
  {
  }

  lemma UndoLeft13(x: bv32)
    ensures Unleft13(Left13(x)) == x
  {
    UndoLeft13Plain(x);
  }

  lemma RedoLeft13Plain(x: bv32)
    ensures Left13(x ^ (x << 13) ^ (x << 26)) == x
  {
  }

  lemma RedoLeft13(x: bv32)
    ensures Left13(Unleft13(x)) == x
  {
    RedoLeft13Plain(x);
  }

  lemma UndoRight17Plain(x: bv32)
    ensures Right17(x ^ (x >> 17)) == x
  {
  }

  lemma UndoRight17(x: bv32)
    ensures Right17(Right17(x)) == x
  {
    UndoRight17Plain(x);
  }

  lemma UndoLeft5Plain(x: bv32)
    ensures Unleft5(x ^ (x << 5)) == x
  {
  }

  lemma UndoLeft5(x: bv32)
    ensures Unleft5(Left5(x)) == x
  {
    UndoLeft5Plain(x);
  }

  lemma RedoLeft5Plain(x: bv32)
    ensures Left5(x ^ (x << 5) ^ (x << 10) ^ (x << 15) ^ (x << 20) ^ (x << 25) ^ (x << 30)) == x
  {
  }

  lemma RedoLeft5(x: bv32)
    ensures Left5(Unleft5(x)) == x
  {
    RedoLeft5Plain(x);
  }

  ghost predicate Undoes<T(!new)>(g: T -> T, f: T -> T)
  {
    forall x :: g(f(x)) == x
  }

  /** Three functions in a row are undone in the opposite order. */
  lemma UndoThree<T(!new)>(f: T -> T, g: T -> T, h: T -> T, f': T -> T, g': T -> T, h': T -> T, x: T)
    requires Undoes(f', f) && Undoes(g', g) && Undoes(h', h)
    ensures f'(g'(h'(h(g(f(x)))))) == x
  {
  }

  /** One generator step on 32-bit words, as the HDL functions compute it. */
  function Step(x: bv32): (y: bv32)
  {
    Left5(Right17(Left13(x)))
  }

  /** The step undone: each xor-shift unfolded by repeated self-substitution. */
  function Unstep(y: bv32): (x: bv32)
  {
    Unleft13(Right17(Unleft5(y)))
  }

  lemma ShiftsUndone()
    ensures Undoes(Unleft13, Left13) && Undoes(Left13, Unleft13) && Undoes(Right17, Right17)
    ensures Undoes(Unleft5, Left5) && Undoes(Left5, Unleft5)
  {
    forall x: bv32
      ensures Unleft13(Left13(x)) == x && Left13(Unleft13(x)) == x && Right17(Right17(x)) == x
      ensures Unleft5(Left5(x)) == x && Left5(Unleft5(x)) == x
    {
      UndoLeft13(x);
      RedoLeft13(x);
      UndoRight17(x);
      UndoLeft5(x);
      RedoLeft5(x);
    }
  }

  lemma UnstepUndoesStep(x: bv32)
    ensures Unstep(Step(x)) == x
  {
    ShiftsUndone();
    UndoThree(Left13, Right17, Left5, Unleft13, Right17, Unleft5, x);
  }

  lemma StepUndoesUnstep(y: bv32)
    ensures Step(Unstep(y)) == y
  {
    ShiftsUndone();
    UndoThree(Unleft5, Right17, Unleft13, Left5, Right17, Left13, y);
  }

  lemma StepInjective(x: bv32, y: bv32)
    requires Step(x) == Step(y)
    ensures x == y
  {
    UnstepUndoesStep(x);
    UnstepUndoesStep(y);
  }

  /** Zero is fixed, and nothing else reaches it. */
  lemma StepZero(x: bv32)
    ensures Step(x) == 0 <==> x == 0
  {
    assert Step(0) == 0;
    if Step(x) == 0 {
      StepInjective(x, 0);
    }
  }

  // ----- streams -----

  /** The word a stream seeded with `seed` holds after n draws. */
  function Draw(seed: bv32, n: nat): (w: bv32)
  {
    if n == 0 then seed else Step(Draw(seed, n - 1))
  }

  lemma {:induction false} DrawNonzero(seed: bv32, n: nat)
    requires seed != 0
    ensures Draw(seed, n) != 0
  {
    if n > 0 {
      DrawNonzero(seed, n - 1);
      StepZero(Draw(seed, n - 1));
    }
  }

  lemma {:induction false} DrawCancels(seed: bv32, i: nat, j: nat)
    requires i <= j && Draw(seed, i) == Draw(seed, j)
    ensures Draw(seed, j - i) == seed
    decreases i
  {
    if i > 0 {
      StepInjective(Draw(seed, i - 1), Draw(seed, j - 1));
      DrawCancels(seed, i - 1, j - 1);
    }
  }

  lemma WordNumbering(x: bv32, y: bv32)
    ensures 0 <= x as int < TWO32
    ensures x as int == y as int ==> x == y
  {
    if x as int == y as int {
      assert (x as int) as bv32 == (y as int) as bv32;
    }
  }

  /** Every stream is purely periodic: it comes back to its own seed. */
  lemma StreamReturns(seed: bv32) returns (period: nat)
    ensures 0 < period <= TWO32
    ensures Draw(seed, period) == seed
  {
    var word := (n: nat) => Draw(seed, n) as int;
    forall n: nat
      ensures 0 <= word(n) < TWO32
    {
      WordNumbering(Draw(seed, n), 0);
    }
    var i, j := Collision(word, 0, TWO32);
    WordNumbering(Draw(seed, i), Draw(seed, j));
    DrawCancels(seed, i, j);
    period := j - i;
  }

  /** The published known-answer vector. */
  lemma KnownAnswer()
    ensures Draw(0x6D2B79F5, 1) == 0x40AEC71F
    ensures Draw(0x6D2B79F5, 2) == 0x91E00C19
    ensures Draw(0x6D2B79F5, 3) == 0x9C0FE128
    ensures Draw(0x6D2B79F5, 4) == 0x6570F69D
    ensures Draw(0x6D2B79F5, 5) == 0x0FCE02CC
  {
    assert Step(0x6D2B79F5) == 0x40AEC71F;
    assert Step(0x40AEC71F) == 0x91E00C19;
    assert Step(0x91E00C19) == 0x9C0FE128;
    assert Step(0x9C0FE128) == 0x6570F69D;
    assert Step(0x6570F69D) == 0x0FCE02CC;
  }

  // ----- the Python versions -----
  // A Python integer is reduced first, so every intermediate value fits 64 bits.

  function CodecStep(state: bv64): (r: bv64)
  {
    var s := state & 0xFFFFFFFF;
    var a := (s ^ ((s << 13) & 0xFFFFFFFF)) & 0xFFFFFFFF;
    var b := (a ^ (a >> 17)) & 0xFFFFFFFF;
    (b ^ ((b << 5) & 0xFFFFFFFF)) & 0xFFFFFFFF
  }

  function CodexStep(state: bv64): (r: bv64)
  {
    var s := state & 0xFFFFFFFF;
    var a := (s ^ ((s << 13) & 0xFFFFFFFF)) & 0xFFFFFFFF;
    var b := (a ^ (a >> 17)) & 0xFFFFFFFF;
    var c := b ^ ((b << 5) & 0xFFFFFFFF);
    c & 0xFFFFFFFF
  }

  function ThroughputStep(state: bv64): (r: bv64)
  {
    var s := state & 0xFFFFFFFF;
    var a := s ^ ((s << 13) & 0xFFFFFFFF);
    var b := a ^ (a >> 17);
    var c := b ^ ((b << 5) & 0xFFFFFFFF);
    c & 0xFFFFFFFF
  }

  /** The Python integer that holds a 32-bit word. */
  function Wide(x: bv32): bv64
  {
    x as bv64
  }

  lemma StepUnfolded(x: bv32)
    ensures Step(x) == (var a := x ^ (x << 13); var b := a ^ (a >> 17); b ^ (b << 5))
  {
    calc {
      Step(x);
      Left5(Right17(x ^ (x << 13)));
      Left5(var a := x ^ (x << 13); a ^ (a >> 17));
      (var a := x ^ (x << 13); var b := a ^ (a >> 17); b ^ (b << 5));
    }
  }

  lemma ThroughputAgrees(x: bv32)
    ensures ThroughputStep(Wide(x)) == Wide(Step(x))
  {
    calc {
      Wide(Step(x));
      { StepUnfolded(x); }
      Wide(var a := x ^ (x << 13); var b := a ^ (a >> 17); b ^ (b << 5));
      ThroughputStep(x as bv64);
    }
  }

  lemma CodecAgrees(s: bv64)
    ensures CodecStep(s) == ThroughputStep(s) == CodexStep(s)
  {
    calc {
      CodecStep(s);
      (var s := s & 0xFFFFFFFF;
       var a := (s ^ ((s << 13) & 0xFFFFFFFF)) & 0xFFFFFFFF;
       var b := (a ^ (a >> 17)) & 0xFFFFFFFF;
       (b ^ ((b << 5) & 0xFFFFFFFF)) & 0xFFFFFFFF);
      (var s := s & 0xFFFFFFFF;
       var a := s ^ ((s << 13) & 0xFFFFFFFF);
       var b := a ^ (a >> 17);
       (b ^ ((b << 5) & 0xFFFFFFFF)) & 0xFFFFFFFF);
      ThroughputStep(s);
    }
  }

  /** The three Python versions, for all their different masking, are one step. */
  lemma PythonStepsAgree(x: bv32)
    ensures CodecStep(Wide(x)) == Wide(Step(x))
    ensures CodexStep(Wide(x)) == Wide(Step(x))
    ensures ThroughputStep(Wide(x)) == Wide(Step(x))
  {
    ThroughputAgrees(x);
    CodecAgrees(Wide(x));
  }
}
