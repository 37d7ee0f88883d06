/** The throughput burst: encoded codewords and their directed corruption. */
module Burst {
  import Xorshift
  import StreamSeeds
  import opened ReedSolomon
  import opened MinimumDistance

  /**
   * A testbench instance. `symbol` keeps the low M bits of a 32-bit word,
   * those under `mask`.
   */
  datatype Config<!S(!new)> = Config(
    field: Field<S>, gp: seq<S>, n: nat, k: nat, t: nat,
    mask: bv32, symbol: bv32 -> S, seed: bv32, stream: bv32)
  {
    /** N = K + 2T with T errors per codeword, and at least one bit per symbol. */
    ghost predicate Valid()
    {
      && field.Laws()
      && t > 0 && |gp| == 2 * t && n == k + 2 * t
      && mask & 1 == 1
      && (forall w :: symbol(w) == field.zero <==> w & mask == 0)
    }

    // ----- random streams -----

    /** The seed of a stream, as the testbench derives it. */
    function StreamSeed(scenario: bv32, purpose: bv32): (s: bv32)
      ensures s != 0
    {
      StreamSeeds.Seed(seed, stream, scenario, purpose)
    }

    function Payload(c: bv32): (msg: seq<S>)
      ensures |msg| == k
    {
      seq(k, i requires 0 <= i => symbol(Xorshift.Draw(StreamSeed(c, 0), i + 1) & mask))
    }

    function Magnitude(c: bv32, i: nat): (m: S)
    {
      MagnitudeFrom(StreamSeed(c, 2), i)
    }

    function MagnitudeFrom(start: bv32, i: nat): (m: S)
    {
      symbol((Xorshift.Draw(start, i + 1) & mask) | 1)
    }

    lemma MagnitudeNonzero(c: bv32, i: nat)
      requires Valid()
      ensures Magnitude(c, i) != field.zero
    {
      LowBitSurvives(Xorshift.Draw(StreamSeed(c, 2), i + 1), mask);
    }

    // ----- directed positions -----

    function Position(i: nat): (p: nat)
      requires n > 0 && t > 0
    {
      (i * (n / t)) % n
    }

    /** The T positions go up strictly and never wrap. */
    lemma PositionsSpread(i: nat, j: nat)
      requires 0 < t <= n && i < j <= t
      ensures i * (n / t) < n && Position(i) == i * (n / t)
      ensures j < t ==> Position(i) < Position(j) < n
    {
      var d := n / t;
      QuotientFits(n, t);
      Spread(d, i, j, t);
      BelowModulus(i * d, n);
      if j < t {
        Spread(d, j, t, t);
        BelowModulus(j * d, n);
      }
    }

    // ----- the burst as a function -----

    function Expected(c: bv32): (cw: seq<S>)
      requires t > 0 && |gp| == 2 * t
      ensures |cw| == k + 2 * t
    {
      field.Codeword(gp, Payload(c))
    }

    /** A codeword after its first `count` corruptions. */
    function Corrupted(cw: seq<S>, c: bv32, count: nat): (tx: seq<S>)
      requires |cw| == n > 0 && t > 0
      ensures |tx| == n
    {
      if count == 0 then cw
      else
        var before := Corrupted(cw, c, count - 1);
        var p := Position(count - 1);
        before[p := field.add(before[p], Magnitude(c, count - 1))]
    }

    /** After `count` corruptions exactly the first `count` positions differ. */
    lemma {:induction false} CorruptedDiffers(cw: seq<S>, c: bv32, count: nat)
      requires Valid() && |cw| == n && count <= t
      ensures forall p :: 0 <= p < n ==>
        (Corrupted(cw, c, count)[p] != cw[p] <==> exists i :: 0 <= i < count && p == Position(i))
    {
      if count > 0 {
        CorruptedDiffers(cw, c, count - 1);
        var before := Corrupted(cw, c, count - 1);
        var q := Position(count - 1);
        forall i | 0 <= i < count - 1
          ensures Position(i) != q
        {
          PositionsSpread(i, count - 1);
        }
        assert before[q] == cw[q];
        MagnitudeNonzero(c, count - 1);
        AddChanges(cw[q], Magnitude(c, count - 1));
      }
    }

    lemma AddChanges(x: S, m: S)
      requires field.Laws() && m != field.zero
      ensures field.add(x, m) != x
    {
      field.AddCancels(m, x);
      assert field.AddLaw(x, m, x) && field.AddLaw(m, x, x) && field.AddLaw(x, x, x);
    }

    ghost function PositionSet(count: nat): (ps: set<nat>)
      requires n > 0 && t > 0
    {
      set i | 0 <= i < count :: Position(i)
    }

    lemma {:induction false} PositionSetSize(count: nat)
      requires 0 < t <= n && count <= t
      ensures |PositionSet(count)| == count
    {
      if count > 0 {
        PositionSetSize(count - 1);
        forall i | 0 <= i < count - 1
          ensures Position(i) != Position(count - 1)
        {
          PositionsSpread(i, count - 1);
        }
        assert PositionSet(count) == PositionSet(count - 1) + {Position(count - 1)};
      }
    }

    /** Every transmitted codeword is at distance exactly T from the expected one. */
    lemma DistanceIsT(c: bv32)
      requires Valid()
      ensures |Differing(Corrupted(Expected(c), c, t), Expected(c))| == t
    {
      CorruptedDiffers(Expected(c), c, t);
      PositionSetSize(t);
      var d := Differing(Corrupted(Expected(c), c, t), Expected(c));
      forall p | p in PositionSet(t)
        ensures p in d
      {
        var i :| 0 <= i < t && p == Position(i);
      }
      assert d == PositionSet(t);
    }

    /** The c-th scenario number as the 32-bit word the seed mixes in. */
    function Scenario(c: nat): bv32
    {
      StreamSeeds.Counter(c)
    }

    /** No two codewords of a burst, nor the payload and the magnitudes of one, share a stream. */
    lemma StreamsApart(c: nat, d: nat, purpose: bv32)
      requires c < d < StreamSeeds.Power(32)
      ensures StreamSeeds.Apart(StreamSeed(Scenario(c), purpose), StreamSeed(Scenario(d), purpose))
      ensures StreamSeeds.Apart(StreamSeed(Scenario(c), 0), StreamSeed(Scenario(c), 2))
    {
      if Scenario(c) == Scenario(d) { StreamSeeds.CounterTells(c, d, 32); }
      StreamSeeds.ScenariosApart(seed, stream, Scenario(c), Scenario(d), purpose);
      StreamSeeds.PurposesApart(seed, stream, Scenario(c), 0, 2);
    }

    function Transmitted(c: nat): (tx: seq<S>)
      requires t > 0 && |gp| == 2 * t && n == k + 2 * t
      ensures |tx| == n
    {
      Corrupted(Expected(Scenario(c)), Scenario(c), t)
    }

    /** The first `count` codewords. */
    function ExpectedBlocks(count: nat): (bs: seq<seq<S>>)
      requires t > 0 && |gp| == 2 * t && n == k + 2 * t
      ensures forall b :: b in bs ==> |b| == n
    {
      seq(count, c requires 0 <= c < count => Expected(Scenario(c)))
    }

    /** The first `count` codewords with their errors. */
    function TransmittedBlocks(count: nat): (bs: seq<seq<S>>)
      requires t > 0 && |gp| == 2 * t && n == k + 2 * t
      ensures forall b :: b in bs ==> |b| == n
    {
      seq(count, c requires 0 <= c < count => Transmitted(c))
    }

    lemma BlocksExtend(c: nat)
      requires t > 0 && |gp| == 2 * t && n == k + 2 * t
      ensures Flat(ExpectedBlocks(c + 1), n) == Flat(ExpectedBlocks(c), n) + Expected(Scenario(c))
      ensures Flat(TransmittedBlocks(c + 1), n) == Flat(TransmittedBlocks(c), n) + Transmitted(c)
    {
      assert ExpectedBlocks(c + 1)[..c] == ExpectedBlocks(c);
      assert TransmittedBlocks(c + 1)[..c] == TransmittedBlocks(c);
    }

    /**
     * What the decoder under test is fed: every expected block is a codeword,
     * zero at every root of the generator, and the transmitted block differs
     * from it in exactly T places.
     */
    lemma BlockIsDecodable(c: nat, root: S)
      requires Valid()
      requires field.Eval(field.Generator(gp), root) == field.zero
      ensures field.Eval(Expected(Scenario(c)), root) == field.zero
      ensures |Differing(Transmitted(c), Expected(Scenario(c)))| == t
    {
      field.SyndromesVanish(gp, Payload(Scenario(c)), root);
      DistanceIsT(Scenario(c));
    }

    /**
     * What the testbench holds the decoder to is the only right answer: when
     * the generator has 2T consecutive powers of beta as roots, no other
     * codeword is within T symbols of the transmitted block.
     */
    lemma OnlyExpectedDecodes(c: nat, other: seq<S>, beta: S, first: nat)
      requires Valid() && NoZeroDivisors(field) && Generates(field, beta, n)
      requires Vanishes(field, field.Generator(gp), beta, first, 2 * t)
      requires |other| == n && Vanishes(field, other, beta, first, 2 * t)
      requires |Differing(Transmitted(c), other)| <= t
      ensures other == Expected(Scenario(c))
    {
      var cw := Expected(Scenario(c));
      forall l: nat | l < 2 * t
        ensures Syndrome(field, cw, beta, first, l) == field.zero
      {
        assert Syndrome(field, field.Generator(gp), beta, first, l) == field.zero;
        field.SyndromesVanish(gp, Payload(Scenario(c)), Pow(field, beta, first + l));
      }
      DistanceIsT(Scenario(c));
      assert Differing(Transmitted(c), other) - {} == Differing(Transmitted(c), other);
      assert Differing(Transmitted(c), cw) - {} == Differing(Transmitted(c), cw);
      UniqueDecoding(field, cw, other, Transmitted(c), {}, t, beta, first, 2 * t);
    }

    // ----- the testbench task -----

    method DrawPayload(c: bv32, msg: array<S>)
      requires msg.Length == k
      modifies msg
      ensures msg[..] == Payload(c)
    {
      var state := StreamSeed(c, 0);
      for i := 0 to k
        invariant state == Xorshift.Draw(StreamSeed(c, 0), i)
        invariant forall j :: 0 <= j < i ==> msg[j] == Payload(c)[j]
      {
        state := Xorshift.Step(state);
        msg[i] := symbol(state & mask);
      }
    }

    /** Writes the message and the reversed register into one block of a buffer. */
    method WriteBlock(buffer: array<S>, base: nat, msg: array<S>, lf: array<S>)
      requires msg.Length == k && lf.Length == 2 * t && n == k + 2 * t
      requires base + n <= buffer.Length && buffer != msg && buffer != lf
      modifies buffer
      ensures buffer[..] == Spliced(old(buffer[..]), base, msg[..] + Reversed(lf[..]))
    {
      for i := 0 to k
        invariant msg[..] == old(msg[..]) && lf[..] == old(lf[..])
        invariant forall j :: 0 <= j < buffer.Length ==>
          buffer[j] == if base <= j < base + i then msg[j - base] else old(buffer[j])
      {
        buffer[base + i] := msg[i];
      }
      for i := 0 to 2 * t
        invariant msg[..] == old(msg[..]) && lf[..] == old(lf[..])
        invariant forall j :: 0 <= j < buffer.Length ==>
          buffer[j] == if base <= j < base + k then msg[j - base]
                       else if base + k <= j < base + k + i then lf[2 * t - 1 - (j - base - k)]
                       else old(buffer[j])
      {
        buffer[base + k + i] := lf[2 * t - 1 - i];
      }
    }

    method DrawNext(state: bv32, ghost start: bv32, ghost i: nat) returns (next: bv32)
      requires state == Xorshift.Draw(start, i)
      ensures next == Xorshift.Draw(start, i + 1)
    {
      next := Xorshift.Step(state);
    }

    /** The next word of the magnitude stream, and the magnitude it gives. */
    method NextMagnitude(state: bv32, ghost start: bv32, ghost i: nat) returns (next: bv32, magnitude: S)
      requires state == Xorshift.Draw(start, i)
      ensures next == Xorshift.Draw(start, i + 1) && magnitude == MagnitudeFrom(start, i)
    {
      next := DrawNext(state, start, i);
      magnitude := symbol((next & mask) | 1);
    }

    /** Injects the T directed errors into one block. */
    method CorruptBlock(tx: array<S>, base: nat, c: bv32)
      requires 0 < t <= n && base + n <= tx.Length
      modifies tx
      ensures tx[..] == Spliced(old(tx[..]), base, Corrupted(old(tx[base..base + n]), c, t))
    {
      var state := StreamSeed(c, 2);
      ghost var cw := tx[base..base + n];
      for i := 0 to t
        invariant state == Xorshift.Draw(StreamSeed(c, 2), i)
        invariant tx[..] == Spliced(old(tx[..]), base, Corrupted(cw, c, i))
      {
        var p := Position(i);
        var magnitude;
        state, magnitude := NextMagnitude(state, StreamSeed(c, 2), i);
        ghost var before := Corrupted(cw, c, i);
        var received := field.add(tx[base + p], magnitude);
        SplicedUpdate(old(tx[..]), base, before, p, received);
        tx[base + p] := received;
        assert Corrupted(cw, c, i + 1) == before[p := received];
      }
    }

    /** Fills both buffers, codeword by codeword, and counts what it drew. */
    method BuildBurst(ncw: nat, msg: array<S>, lf: array<S>, exp: array<S>, tx: array<S>)
      returns (payloadCount: nat, corruptionCount: nat)
      requires t > 0 && |gp| == 2 * t && n == k + 2 * t
      requires msg.Length == k && lf.Length == 2 * t && exp.Length == tx.Length == ncw * n
      requires msg != lf && exp != tx && exp != msg && exp != lf && tx != msg && tx != lf
      modifies msg, lf, exp, tx
      ensures exp[..] == Flat(ExpectedBlocks(ncw), n)
      ensures tx[..] == Flat(TransmittedBlocks(ncw), n)
      ensures payloadCount == ncw * k && corruptionCount == ncw * t
    {
      payloadCount, corruptionCount := 0, 0;
      ghost var done := 0;
      for c := 0 to ncw
        invariant done == c * n <= exp.Length
        invariant exp[..done] == Flat(ExpectedBlocks(c), n)
        invariant tx[..done] == Flat(TransmittedBlocks(c), n)
        invariant payloadCount == c * k && corruptionCount == c * t
      {
        BlockFits(c, ncw, n);
        BlockFits(c, ncw, k);
        BlockFits(c, ncw, t);
        BlocksExtend(c);
        BuildCodeword(c * n, Scenario(c), msg, lf, exp, tx);
        payloadCount := payloadCount + k;
        corruptionCount := corruptionCount + t;
        done := done + n;
      }
      assert exp[..] == exp[..done] && tx[..] == tx[..done];
    }

    /** One iteration of the burst loop: encode, copy out twice, corrupt one copy. */
    method BuildCodeword(base: nat, c: bv32, msg: array<S>, lf: array<S>, exp: array<S>, tx: array<S>)
      requires t > 0 && |gp| == 2 * t && n == k + 2 * t
      requires msg.Length == k && lf.Length == 2 * t
      requires base + n <= exp.Length == tx.Length
      requires msg != lf && exp != tx && exp != msg && exp != lf && tx != msg && tx != lf
      modifies msg, lf, exp, tx
      ensures exp[..] == Spliced(old(exp[..]), base, Expected(c))
      ensures tx[..] == Spliced(old(tx[..]), base, Corrupted(Expected(c), c, t))
      ensures exp[..base + n] == old(exp[..base]) + Expected(c)
      ensures tx[..base + n] == old(tx[..base]) + Corrupted(Expected(c), c, t)
    {
      DrawPayload(c, msg);
      field.Encode(gp, msg, lf);
      WriteBlock(exp, base, msg, lf);
      WriteBlock(tx, base, msg, lf);
      SplicedTwice(old(tx[..]), base, Expected(c), Corrupted(Expected(c), c, t));
      assert tx[base..base + n] == tx[..][base..base + n];
      CorruptBlock(tx, base, c);
      SplicedPrefix(old(exp[..]), base, Expected(c));
      SplicedPrefix(old(tx[..]), base, Corrupted(Expected(c), c, t));
    }
  }

  /** Blocks of length n, one after the other. */
  function Flat<S>(blocks: seq<seq<S>>, n: nat): (s: seq<S>)
    requires forall b :: b in blocks ==> |b| == n
    ensures |s| == |blocks| * n
  {
    if |blocks| == 0 then [] else
      var last := |blocks| - 1;
      BlockLength(|blocks|, n);
      Flat(blocks[..last], n) + blocks[last]
  }

  lemma {:induction false} FlatBlock<S>(blocks: seq<seq<S>>, n: nat, c: nat, lo: nat)
    requires forall b :: b in blocks ==> |b| == n
    requires c < |blocks| && lo == c * n
    ensures lo + n <= |Flat(blocks, n)|
    ensures Flat(blocks, n)[lo..lo + n] == blocks[c]
  {
    var last := |blocks| - 1;
    var before := Flat(blocks[..last], n);
    assert Flat(blocks, n) == before + blocks[last];
    if c < last {
      FlatBlock(blocks[..last], n, c, lo);
      SliceOfPrefix(before, blocks[last], lo, lo + n);
    } else {
      assert |before| == lo;
    }
  }

  /** A buffer with one block replaced. */
  function Spliced<S>(a: seq<S>, base: nat, block: seq<S>): (s: seq<S>)
    requires base + |block| <= |a|
    ensures |s| == |a|
    ensures s[base..base + |block|] == block
  {
    a[..base] + block + a[base + |block|..]
  }

  /** A block written over is read back, and written over again leaves only the second. */
  lemma SplicedTwice<S>(s: seq<S>, base: nat, a: seq<S>, b: seq<S>)
    requires |a| == |b| && base + |a| <= |s|
    ensures Spliced(s, base, a)[base..base + |a|] == a
    ensures Spliced(Spliced(s, base, a), base, b) == Spliced(s, base, b)
  {
  }

  lemma SplicedPrefix<S>(a: seq<S>, base: nat, block: seq<S>)
    requires base + |block| <= |a|
    ensures Spliced(a, base, block)[..base + |block|] == a[..base] + block
  {
  }

  lemma SplicedUpdate<S>(a: seq<S>, base: nat, block: seq<S>, p: nat, v: S)
    requires base + |block| <= |a| && p < |block|
    ensures Spliced(a, base, block)[base + p] == block[p]
    ensures Spliced(a, base, block)[base + p := v] == Spliced(a, base, block[p := v])
  {
  }

  lemma SliceOfPrefix<S>(a: seq<S>, b: seq<S>, lo: nat, hi: nat)
    requires lo <= hi <= |a|
    ensures (a + b)[lo..hi] == a[lo..hi]
  {
  }

  lemma LowBitSurvives(w: bv32, mask: bv32)
    requires mask & 1 == 1
    ensures ((w & mask) | 1) & mask != 0
  {
    assert (((w & mask) | 1) & mask) & 1 == mask & 1;
  }

  lemma Spread(d: nat, i: nat, j: nat, t: nat)
    requires i < j <= t && d >= 1
    ensures i * d < j * d <= t * d
  {
  }

  lemma QuotientFits(n: nat, t: nat)
    requires 0 < t <= n
    ensures n / t >= 1 && t * (n / t) <= n
  {
    assert n == t * (n / t) + n % t;
  }

  lemma BelowModulus(x: nat, n: nat)
    requires x < n
    ensures x % n == x
  {
  }

  lemma BlockLength(count: nat, n: nat)
    requires count > 0
    ensures count * n == (count - 1) * n + n
  {
  }

  lemma BlockFits(c: nat, ncw: nat, n: nat)
    requires c < ncw
    ensures (c + 1) * n == c * n + n <= ncw * n
  {
  }
}
