/** The random corruption of a codec scenario's codeword. */
module Corruption {
  import opened Common
  import Xorshift
  import opened ReedSolomon
  import opened MinimumDistance
  import opened CodecTable

  // ----- the words drawn -----

  function Pick(state: bv32, len: nat): (p: nat)
    requires len > 0
    ensures p < len
  {
    Number(state) % len
  }

  function Number(state: bv32): nat
  {
    state as nat
  }

  lemma NumberIs(state: bv32)
    ensures Number(state) == state as nat
  {
  }

  /** The position is the remainder of the word's number. */
  lemma PickIs(state: bv32, len: nat, q: nat, r: nat)
    requires len > 0 && r < len && Number(state) == q * len + r
    ensures Pick(state, len) == r
  {
    RemainderIs(Number(state), len, q, r);
  }

  /** An erasure that is not zeroed: the masked word, or one. */
  function ErasureDelta(state: bv32, mask: bv32): (d: bv32)
    ensures d != 0
  {
    if state & mask == 0 then 1 else state & mask
  }

  /** An error: the masked word with its low bit set. */
  function ErrorDelta(state: bv32, mask: bv32): (d: bv32)
  {
    ((state & (mask - 1)) + 1) & mask
  }

  lemma ErrorDeltaNonzero(state: bv32, mask: bv32)
    requires mask & 1 == 1
    ensures ErrorDelta(state, mask) != 0
  {
    LowBit(state, mask);
  }

  /**
   * For a mask with its low bit set, the word without its low bit, plus one, is
   * the word with its low bit set, as in the throughput testbench.
   */
  lemma ErrorDeltaIs(state: bv32, m: bv32)
    ensures ErrorDelta(state, m | 1) == (state & (m | 1)) | 1
  {
  }

  /** An erasure's magnitude is the masked word itself, and only in place of zero the error's. */
  lemma ErasureDeltaIs(state: bv32, m: bv32)
    ensures state & (m | 1) != 0 ==> ErasureDelta(state, m | 1) == state & (m | 1)
    ensures state & (m | 1) == 0 ==> ErasureDelta(state, m | 1) == ErrorDelta(state, m | 1)
  {
    ErrorDeltaIs(state, m);
  }

  lemma LowBit(state: bv32, mask: bv32)
    requires mask & 1 == 1
    ensures ((state & (mask - 1)) + 1) & mask != 0
  {
    assert (state & (mask - 1)) & 1 == 0;
    assert (((state & (mask - 1)) + 1) & mask) & 1 == 1;
  }

  lemma XorChanges(c: bv32, d: bv32)
    ensures c ^ d == c <==> d == 0
  {
  }

  /** How many magnitude words the first i corruptions use up: one for every other erasure, one for each error. */
  function WordsUsed(ns: nat, i: nat): nat
  {
    if i <= ns then (i + 1) / 2 else (ns + 1) / 2 + (i - ns)
  }

  /** The magnitude of corruption i, when the first ns are erasures. */
  function Magnitude(seed: bv32, mask: bv32, ns: nat, i: nat): (d: bv32)
  {
    if i < ns then if i % 2 == 1 then 0 else ErasureDelta(Xorshift.Draw(seed, WordsUsed(ns, i + 1)), mask)
    else ErrorDelta(Xorshift.Draw(seed, WordsUsed(ns, i + 1)), mask)
  }

  lemma MagnitudeZero(seed: bv32, mask: bv32, ns: nat, i: nat)
    requires mask & 1 == 1
    ensures Magnitude(seed, mask, ns, i) == 0 <==> i < ns && i % 2 == 1
  {
    ErrorDeltaNonzero(Xorshift.Draw(seed, WordsUsed(ns, i + 1)), mask);
  }

  /** What corruption i makes of a symbol. */
  function Marker(seed: bv32, mask: bv32, ns: nat): (bv32, nat) -> bv32
  {
    (c: bv32, i: nat) => c ^ Magnitude(seed, mask, ns, i)
  }

  // ----- the positions drawn -----

  /** The positions the first n draws fall on, in the order in which they first come up. */
  ghost function Order(seed: bv32, n: nat, len: nat): (ps: seq<nat>)
    requires len > 0
  {
    if n == 0 then [] else Listed(Order(seed, n - 1, len), Pick(Xorshift.Draw(seed, n), len))
  }

  ghost function Listed(ps: seq<nat>, p: nat): (qs: seq<nat>)
  {
    if p in ps then ps else ps + [p]
  }

  ghost predicate Distinct(ps: seq<nat>)
  {
    forall i, j :: 0 <= i < j < |ps| ==> ps[i] != ps[j]
  }

  ghost predicate Below(ps: seq<nat>, len: nat)
  {
    forall i :: 0 <= i < |ps| ==> ps[i] < len
  }

  lemma {:induction false} OrderIsDistinct(seed: bv32, n: nat, len: nat)
    requires len > 0
    ensures Distinct(Order(seed, n, len)) && Below(Order(seed, n, len), len)
  {
    if n > 0 { OrderIsDistinct(seed, n - 1, len); }
  }

  lemma {:induction false} OrderGrows(seed: bv32, m: nat, n: nat, len: nat)
    requires len > 0 && m <= n
    ensures Order(seed, m, len) <= Order(seed, n, len)
  {
    if m < n { OrderGrows(seed, m, n - 1, len); }
  }

  lemma {:induction false} Visits(seed: bv32, i: nat, n: nat, len: nat)
    requires len > 0 && 0 < i <= n
    ensures Pick(Xorshift.Draw(seed, i), len) in Order(seed, n, len)
  {
    if i < n { Visits(seed, i, n - 1, len); }
  }

  lemma {:induction false} DrawRepeats(seed: bv32, period: nat, n: nat)
    requires Xorshift.Draw(seed, period) == seed
    ensures Xorshift.Draw(seed, period + n) == Xorshift.Draw(seed, n)
  {
    if n > 0 { DrawRepeats(seed, period, n - 1); }
  }

  /** Draw n > 0 already came up among the draws 1 to period. */
  lemma {:induction false} DrawnBefore(seed: bv32, period: nat, n: nat) returns (i: nat)
    requires period > 0 && n > 0 && Xorshift.Draw(seed, period) == seed
    ensures 0 < i <= period && Xorshift.Draw(seed, i) == Xorshift.Draw(seed, n)
    decreases n
  {
    if n <= period {
      i := n;
    } else {
      DrawRepeats(seed, period, n - period);
      i := DrawnBefore(seed, period, n - period);
    }
  }

  /** No run of draws, however long, visits a position that 2^32 draws miss. */
  lemma {:induction false} VisitedInOnePeriod(seed: bv32, n: nat, len: nat)
    requires len > 0
    ensures forall p :: p in Order(seed, n, len) ==> p in Order(seed, Xorshift.TWO32, len)
  {
    if n > 0 {
      VisitedInOnePeriod(seed, n - 1, len);
      var period := Xorshift.StreamReturns(seed);
      var i := DrawnBefore(seed, period, n);
      Visits(seed, i, Xorshift.TWO32, len);
    }
  }

  ghost function Elements(ps: seq<nat>): (s: set<nat>)
  {
    set p | p in ps
  }

  /** Distinct elements make a set of the same size. */
  lemma {:induction false} DistinctSize(ps: seq<nat>)
    requires Distinct(ps)
    ensures |Elements(ps)| == |ps|
  {
    if |ps| > 0 {
      var n := |ps| - 1;
      var less := ps[..n];
      DistinctSize(less);
      assert ps == less + [ps[n]];
      assert ps[n] !in less;
      assert Elements(ps) == Elements(less) + {ps[n]};
    }
  }

  /**
   * Some number of draws visits `wanted` positions exactly when 2^32 do. As
   * Corrupt is done exactly when its draws visit as many positions as it
   * corrupts, this says when drawing without a bound comes to an end.
   */
  lemma EndsExactlyIf(seed: bv32, len: nat, wanted: nat)
    requires len > 0
    ensures (exists draws: nat :: |Order(seed, draws, len)| >= wanted)
        <==> |Order(seed, Xorshift.TWO32, len)| >= wanted
  {
    if draws: nat :| |Order(seed, draws, len)| >= wanted {
      var few, all := Order(seed, draws, len), Order(seed, Xorshift.TWO32, len);
      VisitedInOnePeriod(seed, draws, len);
      OrderIsDistinct(seed, draws, len);
      OrderIsDistinct(seed, Xorshift.TWO32, len);
      DistinctSize(few);
      DistinctSize(all);
      SubsetSize(Elements(few), Elements(all));
    }
  }

  // ----- a corrupted word -----

  ghost function Flagged(er: seq<bool>): (ps: set<nat>)
  {
    set p: nat | p < |er| && er[p]
  }

  /**
   * The word is the codeword with corruption i at the i-th position of the
   * list, and the first ns positions of the list are flagged.
   */
  ghost predicate Corrupted<S(!new)>(
    cw: seq<S>, rx: seq<S>, er: seq<bool>, ps: seq<nat>, mark: (S, nat) -> S, ns: nat)
  {
    && |rx| == |er| == |cw| && Distinct(ps) && Below(ps, |cw|)
    && (forall i :: 0 <= i < |ps| ==> rx[ps[i]] == mark(cw[ps[i]], i) && (er[ps[i]] <==> i < ns))
    && (forall p :: 0 <= p < |cw| && p !in ps ==> rx[p] == cw[p] && !er[p])
  }

  ghost predicate Uses(used: seq<bool>, ps: seq<nat>)
  {
    forall p :: 0 <= p < |used| ==> (used[p] <==> p in ps)
  }

  lemma CorruptOneMore<S(!new)>(
    cw: seq<S>, rx: seq<S>, er: seq<bool>, ps: seq<nat>, mark: (S, nat) -> S, ns: nat, p: nat)
    requires Corrupted(cw, rx, er, ps, mark, ns) && p < |cw| && p !in ps
    ensures Corrupted(cw, rx[p := mark(cw[p], |ps|)], if |ps| < ns then er[p := true] else er, ps + [p], mark, ns)
  {
    assert !er[p];
  }

  lemma UseOneMore(used: seq<bool>, ps: seq<nat>, p: nat)
    requires Uses(used, ps) && p < |used|
    ensures Uses(used[p := true], ps + [p])
  {
  }

  // ----- counting corruptions -----

  function CountIf(keep: nat -> bool, n: nat): (k: nat)
  {
    if n == 0 then 0 else CountIf(keep, n - 1) + if keep(n - 1) then 1 else 0
  }

  ghost function Picked(ps: seq<nat>, keep: nat -> bool, n: nat): (s: set<nat>)
    requires n <= |ps|
  {
    set i: nat | i < n && keep(i) :: ps[i]
  }

  lemma {:induction false} PickedSize(ps: seq<nat>, keep: nat -> bool, n: nat)
    requires n <= |ps| && Distinct(ps)
    ensures |Picked(ps, keep, n)| == CountIf(keep, n)
  {
    if n == 0 {
      assert Picked(ps, keep, 0) == {};
    } else {
      PickedSize(ps, keep, n - 1);
      PickedNext(ps, keep, n - 1);
    }
  }

  lemma PickedNext(ps: seq<nat>, keep: nat -> bool, n: nat)
    requires n < |ps| && Distinct(ps)
    ensures Picked(ps, keep, n + 1) == Picked(ps, keep, n) + if keep(n) then {ps[n]} else {}
    ensures ps[n] !in Picked(ps, keep, n)
  {
    forall x
      ensures x in Picked(ps, keep, n + 1) <==> x in Picked(ps, keep, n) || (keep(n) && x == ps[n])
    {
      if x in Picked(ps, keep, n + 1) {
        var i: nat :| i < n + 1 && keep(i) && x == ps[i];
      }
    }
  }

  /** Of the first n corruptions: those flagged, and those not. */
  lemma {:induction false} CountFlagged(ns: nat, n: nat)
    ensures CountIf((i: nat) => i < ns, n) == if n < ns then n else ns
    ensures CountIf((i: nat) => i >= ns, n) == if n < ns then 0 else n - ns
  {
    if n > 0 { CountFlagged(ns, n - 1); }
  }

  /** Of the first n corruptions: those that change their symbol, and those that do not. */
  lemma {:induction false} CountChanging(ns: nat, n: nat)
    ensures CountIf((i: nat) => !(i < ns && i % 2 == 1), n) == WordsUsed(ns, n)
    ensures CountIf((i: nat) => i < ns && i % 2 == 1, n) == (if n < ns then n else ns) / 2
  {
    if n > 0 { CountChanging(ns, n - 1); }
  }

  /** Every other erasure leaves its symbol as it was; nothing else does. */
  ghost predicate MarksAllBut<S(!new)>(mark: (S, nat) -> S, ns: nat)
  {
    forall c: S, i: nat :: mark(c, i) == c <==> i < ns && i % 2 == 1
  }

  lemma CorruptedSets<S(!new)>(
    cw: seq<S>, rx: seq<S>, er: seq<bool>, ps: seq<nat>, mark: (S, nat) -> S, ns: nat)
    requires Corrupted(cw, rx, er, ps, mark, ns) && MarksAllBut(mark, ns)
    ensures Flagged(er) == Picked(ps, (i: nat) => i < ns, |ps|)
    ensures Differing(rx, cw) == Picked(ps, (i: nat) => !(i < ns && i % 2 == 1), |ps|)
    ensures Flagged(er) - Differing(rx, cw) == Picked(ps, (i: nat) => i < ns && i % 2 == 1, |ps|)
    ensures Differing(rx, cw) - Flagged(er) == Picked(ps, (i: nat) => i >= ns, |ps|)
  {
    forall p: nat
      ensures p in Flagged(er) <==> exists i: nat :: i < |ps| && p == ps[i] && i < ns
      ensures p in Differing(rx, cw) <==> exists i: nat :: i < |ps| && p == ps[i] && !(i < ns && i % 2 == 1)
    {
      if p < |cw| && p in ps {
        var i: nat :| i < |ps| && p == ps[i];
        assert mark(cw[p], i) == cw[p] <==> i < ns && i % 2 == 1;
        assert forall j: nat :: j < |ps| && ps[j] == p ==> j == i;
      }
    }
  }

  /** The counts of a corrupted word. */
  lemma CorruptedCounts<S(!new)>(
    cw: seq<S>, rx: seq<S>, er: seq<bool>, ps: seq<nat>, mark: (S, nat) -> S, ns: nat)
    requires Corrupted(cw, rx, er, ps, mark, ns) && MarksAllBut(mark, ns) && ns <= |ps|
    ensures |Flagged(er)| == ns && |Flagged(er) - Differing(rx, cw)| == ns / 2
    ensures |Differing(rx, cw) - Flagged(er)| == |ps| - ns
    ensures |Differing(rx, cw)| == (ns + 1) / 2 + (|ps| - ns)
    ensures |ps| <= |cw|
  {
    CorruptedSets(cw, rx, er, ps, mark, ns);
    CountFlagged(ns, |ps|);
    CountChanging(ns, |ps|);
    PickedSize(ps, (i: nat) => i < ns, |ps|);
    PickedSize(ps, (i: nat) => !(i < ns && i % 2 == 1), |ps|);
    PickedSize(ps, (i: nat) => i < ns && i % 2 == 1, |ps|);
    PickedSize(ps, (i: nat) => i >= ns, |ps|);
    DistinctSize(ps);
    var all: set<int> := Elements(ps);
    Pigeonhole(all, 0, |cw|);
  }

  lemma MarkerMarks(seed: bv32, mask: bv32, ns: nat)
    requires mask & 1 == 1
    ensures MarksAllBut(Marker(seed, mask, ns), ns)
  {
    forall c: bv32, i: nat
      ensures Marker(seed, mask, ns)(c, i) == c <==> i < ns && i % 2 == 1
    {
      MagnitudeZero(seed, mask, ns, i);
      XorChanges(c, Magnitude(seed, mask, ns, i));
    }
  }

  // ----- the corruption task -----

  /** Between two draws: the position stream after n draws, and the buffers corrupted at the positions so far. */
  ghost predicate Underway(cw: seq<bv32>, rx: seq<bv32>, er: seq<bool>, used: seq<bool>,
                           ps: seq<nat>, mark: (bv32, nat) -> bv32, ns: nat)
  {
    Corrupted(cw, rx, er, ps, mark, ns) && |used| == |cw| && Uses(used, ps)
  }

  /** Puts corruption |ps| on a free position. */
  method Place(cw: seq<bv32>, p: nat, symbol: bv32, flag: bool, rx: array<bv32>, er: array<bool>, used: array<bool>,
               ghost ps: seq<nat>, ghost mark: (bv32, nat) -> bv32, ghost ns: nat)
    requires er != used && rx as object != er && rx as object != used
    requires Underway(cw, rx[..], er[..], used[..], ps, mark, ns) && p < |cw| && p !in ps
    requires symbol == mark(cw[p], |ps|) && (flag <==> |ps| < ns)
    modifies rx, er, used
    ensures Underway(cw, rx[..], er[..], used[..], ps + [p], mark, ns)
  {
    CorruptOneMore(cw, rx[..], er[..], ps, mark, ns, p);
    UseOneMore(used[..], ps, p);
    used[p] := true;
    if flag { er[p] := true; }
    rx[p] := symbol;
  }

  /** The magnitude of erasure i, and the magnitude stream after it. */
  method ErasureMagnitude(i: nat, state: bv32, mask: bv32, ghost seed: bv32, ghost ns: nat)
    returns (delta: bv32, next: bv32)
    requires i < ns && state == Xorshift.Draw(seed, WordsUsed(ns, i))
    ensures delta == Magnitude(seed, mask, ns, i) && next == Xorshift.Draw(seed, WordsUsed(ns, i + 1))
  {
    if i % 2 == 1 {
      return 0, state;
    }
    next := Xorshift.Step(state);
    delta := ErasureDelta(next, mask);
  }

  /** The magnitude of the error that is corruption i. */
  method ErrorMagnitude(state: bv32, mask: bv32, ghost i: nat, ghost seed: bv32, ghost ns: nat)
    returns (delta: bv32, next: bv32)
    requires i >= ns && state == Xorshift.Draw(seed, WordsUsed(ns, i))
    ensures delta == Magnitude(seed, mask, ns, i) && next == Xorshift.Draw(seed, WordsUsed(ns, i + 1))
  {
    assert WordsUsed(ns, i + 1) == WordsUsed(ns, i) + 1;
    next := Xorshift.Step(state);
    delta := ErrorDelta(next, mask);
  }

  lemma OrderNext(seed: bv32, n: nat, len: nat, word: bv32, ps: seq<nat>)
    requires len > 0 && word == Xorshift.Draw(seed, n) && ps == Order(seed, n, len)
    ensures Xorshift.Step(word) == Xorshift.Draw(seed, n + 1)
    ensures Order(seed, n + 1, len) == Listed(ps, Pick(Xorshift.Step(word), len))
  {
  }

  /** Both streams after n draws of positions, which brought the positions ps. */
  ghost predicate InStep(position: bv32, magnitude: bv32, ps: seq<nat>, n: nat, len: nat,
                         positionSeed: bv32, magnitudeSeed: bv32, ns: nat)
  {
    && len > 0 && position == Xorshift.Draw(positionSeed, n) && ps == Order(positionSeed, n, len)
    && magnitude == Xorshift.Draw(magnitudeSeed, WordsUsed(ns, |ps|))
  }

  /** One turn of either loop: a position is drawn, and corrupted if it is free. */
  method Turn(cw: seq<bv32>, mask: bv32, erasing: bool, ordinal: nat, position0: bv32, magnitude0: bv32,
              rx: array<bv32>, er: array<bool>, used: array<bool>, ghost ps0: seq<nat>, ghost n: nat,
              ghost positionSeed: bv32, ghost magnitudeSeed: bv32, ghost ns: nat)
    returns (hit: bool, position: bv32, magnitude: bv32, ghost ps: seq<nat>)
    requires er != used && rx as object != er && rx as object != used
    requires ordinal == |ps0| && (erasing <==> ordinal < ns)
    requires InStep(position0, magnitude0, ps0, n, |cw|, positionSeed, magnitudeSeed, ns)
    requires Underway(cw, rx[..], er[..], used[..], ps0, Marker(magnitudeSeed, mask, ns), ns)
    modifies rx, er, used
    ensures |ps| == |ps0| + if hit then 1 else 0
    ensures InStep(position, magnitude, ps, n + 1, |cw|, positionSeed, magnitudeSeed, ns)
    ensures Underway(cw, rx[..], er[..], used[..], ps, Marker(magnitudeSeed, mask, ns), ns)
  {
    OrderNext(positionSeed, n, |cw|, position0, ps0);
    position, magnitude, ps := Xorshift.Step(position0), magnitude0, ps0;
    var p := Pick(position, |cw|);
    hit := !used[p];
    if hit {
      magnitude := Hit(cw, mask, erasing, ordinal, p, magnitude0, rx, er, used, ps0, magnitudeSeed, ns);
      ps := ps0 + [p];
    }
  }

  /** Corrupts a free position with the next magnitude. */
  method Hit(cw: seq<bv32>, mask: bv32, erasing: bool, ordinal: nat, p: nat, magnitude0: bv32,
             rx: array<bv32>, er: array<bool>, used: array<bool>, ghost ps: seq<nat>, ghost magnitudeSeed: bv32, ghost ns: nat)
    returns (magnitude: bv32)
    requires er != used && rx as object != er && rx as object != used
    requires ordinal == |ps| && (erasing <==> ordinal < ns) && p < |cw| && p !in ps
    requires magnitude0 == Xorshift.Draw(magnitudeSeed, WordsUsed(ns, |ps|))
    requires Underway(cw, rx[..], er[..], used[..], ps, Marker(magnitudeSeed, mask, ns), ns)
    modifies rx, er, used
    ensures magnitude == Xorshift.Draw(magnitudeSeed, WordsUsed(ns, |ps| + 1))
    ensures Underway(cw, rx[..], er[..], used[..], ps + [p], Marker(magnitudeSeed, mask, ns), ns)
  {
    var delta;
    if erasing {
      delta, magnitude := ErasureMagnitude(ordinal, magnitude0, mask, magnitudeSeed, ns);
    } else {
      delta, magnitude := ErrorMagnitude(magnitude0, mask, ordinal, magnitudeSeed, ns);
    }
    Place(cw, p, cw[p] ^ delta, erasing, rx, er, used, ps, Marker(magnitudeSeed, mask, ns), ns);
  }

  /** Draws positions until ns free ones are erased, every second one with zero magnitude. */
  method PlaceErasures(cw: seq<bv32>, mask: bv32, ns: nat, positionSeed: bv32, magnitudeSeed: bv32, draws: nat,
                       rx: array<bv32>, er: array<bool>, used: array<bool>)
    returns (placed: nat, position: bv32, magnitude: bv32, zeros: nat, left: nat, ghost ps: seq<nat>, ghost n: nat)
    requires |cw| > 0 && er != used && rx as object != er && rx as object != used
    requires Underway(cw, rx[..], er[..], used[..], [], Marker(magnitudeSeed, mask, ns), ns)
    modifies rx, er, used
    ensures Underway(cw, rx[..], er[..], used[..], ps, Marker(magnitudeSeed, mask, ns), ns)
    ensures InStep(position, magnitude, ps, n, |cw|, positionSeed, magnitudeSeed, ns) && n + left == draws
    ensures placed == |ps| <= ns && (placed < ns ==> left == 0) && zeros == placed / 2
  {
    placed, position, magnitude, zeros, left, ps, n := 0, positionSeed, magnitudeSeed, 0, draws, [], 0;
    while placed < ns && left > 0
      invariant placed == |ps| <= ns && n + left == draws && zeros == placed / 2
      invariant InStep(position, magnitude, ps, n, |cw|, positionSeed, magnitudeSeed, ns)
      invariant Underway(cw, rx[..], er[..], used[..], ps, Marker(magnitudeSeed, mask, ns), ns)
      decreases left
    {
      var hit;
      hit, position, magnitude, ps := Turn(cw, mask, true, placed, position, magnitude, rx, er, used,
                                           ps, n, positionSeed, magnitudeSeed, ns);
      left, n := left - 1, n + 1;
      if hit {
        zeros, placed := zeros + placed % 2, placed + 1;
      }
    }
  }

  /** Draws positions until ne free ones carry an error; n0 positions came before. */
  method PlaceErrors(cw: seq<bv32>, mask: bv32, ne: nat, ns: nat, position0: bv32, magnitude0: bv32, draws: nat,
                     rx: array<bv32>, er: array<bool>, used: array<bool>, ghost ps0: seq<nat>, ghost n0: nat,
                     ghost positionSeed: bv32, ghost magnitudeSeed: bv32)
    returns (placed: nat, ghost ps: seq<nat>, ghost n: nat)
    requires |ps0| == ns && er != used && rx as object != er && rx as object != used
    requires InStep(position0, magnitude0, ps0, n0, |cw|, positionSeed, magnitudeSeed, ns)
    requires Underway(cw, rx[..], er[..], used[..], ps0, Marker(magnitudeSeed, mask, ns), ns)
    modifies rx, er, used
    ensures Underway(cw, rx[..], er[..], used[..], ps, Marker(magnitudeSeed, mask, ns), ns)
    ensures n <= n0 + draws && ps == Order(positionSeed, n, |cw|)
    ensures |ps| == ns + placed && placed <= ne && (placed < ne ==> n == n0 + draws)
  {
    var position, magnitude, left := position0, magnitude0, draws;
    placed, ps, n := 0, ps0, n0;
    while placed < ne && left > 0
      invariant placed <= ne && |ps| == ns + placed && n + left == n0 + draws
      invariant InStep(position, magnitude, ps, n, |cw|, positionSeed, magnitudeSeed, ns)
      invariant Underway(cw, rx[..], er[..], used[..], ps, Marker(magnitudeSeed, mask, ns), ns)
      decreases left
    {
      var hit;
      hit, position, magnitude, ps := Turn(cw, mask, false, ns + placed, position, magnitude, rx, er, used,
                                           ps, n, positionSeed, magnitudeSeed, ns);
      left, n := left - 1, n + 1;
      if hit { placed := placed + 1; }
    }
  }

  /** Starts from the clean codeword. */
  method Reset(cw: seq<bv32>, rx: array<bv32>, er: array<bool>, used: array<bool>,
               ghost mark: (bv32, nat) -> bv32, ghost ns: nat)
    requires |cw| == rx.Length == er.Length == used.Length
    requires er != used && rx as object != er && rx as object != used
    modifies rx, er, used
    ensures Underway(cw, rx[..], er[..], used[..], [], mark, ns)
  {
    for i := 0 to |cw|
      invariant forall j :: 0 <= j < i ==> rx[j] == cw[j] && !er[j] && !used[j]
    {
      rx[i] := cw[i];
      er[i] := false;
      used[i] := false;
    }
  }

  /** The received word and its flags, if the first n draws of positions brought `count` corruptions. */
  ghost predicate CorruptedBy(cw: seq<bv32>, rx: seq<bv32>, er: seq<bool>, mask: bv32, ns: nat,
                              positionSeed: bv32, magnitudeSeed: bv32, n: nat, count: nat)
    requires |cw| > 0
  {
    && |Order(positionSeed, n, |cw|)| == count
    && Corrupted(cw, rx, er, Order(positionSeed, n, |cw|), Marker(magnitudeSeed, mask, ns), ns)
  }

  /**
   * Corrupts a codeword with ns erasures, every second one of zero magnitude,
   * and ne errors, at positions drawn until a free one comes up. At most
   * `draws` positions are drawn; done says whether they sufficed. The result
   * is fixed by the two seeds: corruption i stands at the i-th position to
   * come up, and its magnitude is the one of the magnitude stream.
   */
  method Corrupt(cw: seq<bv32>, mask: bv32, ne: nat, ns: nat, positionSeed: bv32, magnitudeSeed: bv32, draws: nat,
                 rx: array<bv32>, er: array<bool>)
    returns (done: bool, corruptions: nat, zeroErasures: nat)
    requires |cw| == rx.Length == er.Length > 0 && mask & 1 == 1 && rx as object != er
    modifies rx, er
    ensures done <==> |Order(positionSeed, draws, |cw|)| >= ne + ns
    ensures exists n: nat :: CorruptedBy(cw, rx[..], er[..], mask, ns, positionSeed, magnitudeSeed, n, corruptions)
    ensures corruptions <= ne + ns
    ensures done ==> corruptions == ne + ns <= |cw|
    ensures done ==> |Flagged(er[..])| == ns
    ensures done ==> |Flagged(er[..]) - Differing(rx[..], cw)| == ns / 2 == zeroErasures
    ensures done ==> |Differing(rx[..], cw) - Flagged(er[..])| == ne
    ensures done ==> |Differing(rx[..], cw)| == ne + (ns + 1) / 2
  {
    var used := new bool[|cw|];
    Reset(cw, rx, er, used, Marker(magnitudeSeed, mask, ns), ns);
    ghost var ps, n;
    corruptions, zeroErasures, ps, n := PlaceAll(cw, mask, ne, ns, positionSeed, magnitudeSeed, draws, rx, er, used);
    done := corruptions == ne + ns;
    OrderGrows(positionSeed, n, draws, |cw|);
    assert CorruptedBy(cw, rx[..], er[..], mask, ns, positionSeed, magnitudeSeed, n, corruptions);
    if done {
      MarkerMarks(magnitudeSeed, mask, ns);
      CorruptedCounts(cw, rx[..], er[..], ps, Marker(magnitudeSeed, mask, ns), ns);
    }
  }

  /** Both loops after each other, on one budget of draws; the second is reached once the first has ended. */
  method PlaceAll(cw: seq<bv32>, mask: bv32, ne: nat, ns: nat, positionSeed: bv32, magnitudeSeed: bv32, draws: nat,
                  rx: array<bv32>, er: array<bool>, used: array<bool>)
    returns (placed: nat, zeros: nat, ghost ps: seq<nat>, ghost n: nat)
    requires |cw| > 0 && er != used && rx as object != er && rx as object != used
    requires Underway(cw, rx[..], er[..], used[..], [], Marker(magnitudeSeed, mask, ns), ns)
    modifies rx, er, used
    ensures Underway(cw, rx[..], er[..], used[..], ps, Marker(magnitudeSeed, mask, ns), ns)
    ensures n <= draws && ps == Order(positionSeed, n, |cw|)
    ensures placed == |ps| <= ne + ns && (placed < ne + ns ==> n == draws)
    ensures placed == ne + ns ==> zeros == ns / 2
  {
    var position, magnitude, left;
    placed, position, magnitude, zeros, left, ps, n :=
      PlaceErasures(cw, mask, ns, positionSeed, magnitudeSeed, draws, rx, er, used);
    if placed == ns {
      var errors;
      errors, ps, n := PlaceErrors(cw, mask, ne, ns, position, magnitude, left, rx, er, used, ps, n,
                                   positionSeed, magnitudeSeed);
      placed := placed + errors;
    }
  }

  lemma SameOrder(seed: bv32, m: nat, n: nat, len: nat)
    requires len > 0 && |Order(seed, m, len)| == |Order(seed, n, len)|
    ensures Order(seed, m, len) == Order(seed, n, len)
  {
    if m <= n {
      OrderGrows(seed, m, n, len);
    } else {
      OrderGrows(seed, n, m, len);
    }
  }

  /** The seeds alone fix the outcome: a larger bound on the draws never changes what a finished run produced. */
  lemma CorruptionIsFixed(cw: seq<bv32>, rx: seq<bv32>, er: seq<bool>, rx': seq<bv32>, er': seq<bool>, mask: bv32,
                          ns: nat, positionSeed: bv32, magnitudeSeed: bv32, m: nat, n: nat, count: nat)
    requires |cw| > 0
    requires CorruptedBy(cw, rx, er, mask, ns, positionSeed, magnitudeSeed, m, count)
    requires CorruptedBy(cw, rx', er', mask, ns, positionSeed, magnitudeSeed, n, count)
    ensures rx == rx' && er == er'
  {
    SameOrder(positionSeed, m, n, |cw|);
    var ps := Order(positionSeed, n, |cw|);
    forall p | 0 <= p < |cw|
      ensures rx[p] == rx'[p] && er[p] == er'[p]
    {
      if p in ps {
        var i :| 0 <= i < |ps| && ps[i] == p;
      }
    }
  }

  /**
   * Every scenario's corruption has one right answer: with the parity's worth
   * of consecutive roots, only one codeword explains a received word with the
   * scenario's erasures and at most its errors.
   */
  lemma ScenarioHasOneAnswer<S(!new)>(c: Config, i: nat, f: Field<S>, beta: S, first: nat,
                                      cw: seq<S>, other: seq<S>, rx: seq<S>, er: seq<bool>)
    requires c.k <= c.n && i < |Scenarios(c)|
    requires var s := Scenarios(c)[i];
      && |cw| == |other| == |rx| == |er| == s.Length()
      && Vanishes(f, cw, beta, first, s.par) && Vanishes(f, other, beta, first, s.par)
      && |Flagged(er)| == s.erasures
      && |Differing(rx, cw) - Flagged(er)| <= s.errors && |Differing(rx, other) - Flagged(er)| <= s.errors
    requires f.Laws() && NoZeroDivisors(f) && Generates(f, beta, |cw|)
    ensures cw == other
  {
    ScenariosCorrectable(c, i);
    var s := Scenarios(c)[i];
    UniqueDecoding(f, cw, other, rx, Flagged(er), s.errors, beta, first, s.par);
  }

  /** A codeword that differs from the received word in at most the scenario's errors outside the flags. */
  ghost predicate Explains<S(!new)>(f: Field<S>, word: seq<S>, beta: S, first: nat, s: Scenario, rx: seq<S>, er: seq<bool>)
  {
    && |word| == |rx| && Vanishes(f, word, beta, first, s.par)
    && |Differing(rx, word) - Flagged(er)| <= s.errors
  }

  /**
   * Corrupts a codeword as its scenario says. Once done, the counters are the
   * ones the scenario table declares, and whichever codeword differs from the
   * received word in at most the scenario's errors outside the flags is the
   * one that was corrupted.
   */
  method CorruptScenario(c: Config, i: nat, cw: seq<bv32>, mask: bv32, positionSeed: bv32, magnitudeSeed: bv32,
                         draws: nat, rx: array<bv32>, er: array<bool>,
                         ghost f: Field<bv32>, ghost beta: bv32, ghost first: nat)
    returns (done: bool, corruptions: nat, zeroErasures: nat)
    requires c.k <= c.n && i < |Scenarios(c)| && |cw| == Scenarios(c)[i].Length() > 0
    requires |cw| == rx.Length == er.Length && mask & 1 == 1 && rx as object != er
    requires f.Laws() && NoZeroDivisors(f) && Generates(f, beta, |cw|)
    requires Vanishes(f, cw, beta, first, Scenarios(c)[i].par)
    modifies rx, er
    ensures done <==> |Order(positionSeed, draws, |cw|)| >= Scenarios(c)[i].CorruptionCount()
    ensures done ==> corruptions == Scenarios(c)[i].CorruptionCount() && zeroErasures == Scenarios(c)[i].ZeroErasures()
    ensures done ==> forall other :: Explains(f, other, beta, first, Scenarios(c)[i], rx[..], er[..]) ==> other == cw
  {
    var s := Scenarios(c)[i];
    done, corruptions, zeroErasures :=
      Corrupt(cw, mask, s.errors, s.erasures, positionSeed, magnitudeSeed, draws, rx, er);
    if done {
      forall other | Explains(f, other, beta, first, s, rx[..], er[..])
        ensures other == cw
      {
        ScenarioHasOneAnswer(c, i, f, beta, first, cw, other, rx[..], er[..]);
      }
    }
  }
}
