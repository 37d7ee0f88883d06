/** Seed allocation: a hashed starting word, then wraparound linear probing. */
module Seeds {
  import Xorshift

  const WORDS := Xorshift.TWO32

  type Word = w: int | 0 <= w < WORDS

  /** A word no stream may receive: zero, or one already handed out. */
  predicate Taken(used: set<Word>, w: Word)
  {
    w == 0 || w in used
  }

  /** The word reached from w by d probes. */
  function Probed(w: Word, d: nat): (r: Word)
  {
    (w + d) % WORDS
  }

  /** While fewer than 2^32 - 1 words are used, one is still free. */
  lemma SomeWordFree(used: set<Word>) returns (free: Word)
    requires |used| < WORDS - 1
    ensures !Taken(used, free)
  {
    if forall w: Word :: Taken(used, w) {
      forall w: Word | 1 <= w <= WORDS - 1
        ensures w in used
      {
        assert Taken(used, w);
      }
      AllUsed(used, WORDS - 1);
      assert false;
    }
    free :| !Taken(used, free);
  }

  lemma {:induction false} AllUsed(used: set<Word>, n: nat)
    requires n < WORDS && forall w: Word :: 1 <= w <= n ==> w in used
    ensures |used| >= n
  {
    if n > 0 {
      AllUsed(used - {n}, n - 1);
    }
  }

  /** The first free word at or after `hash`, going round through zero. */
  method Probe(used: set<Word>, hash: Word) returns (word: Word)
    requires |used| < WORDS - 1
    ensures Nearest(hash, word, used)
  {
    ghost var free := SomeWordFree(used);
    ghost var steps: nat := 0;
    word := hash;
    while Taken(used, word)
      invariant word == Probed(hash, steps)
      invariant forall d: nat :: d < steps ==> Taken(used, Probed(hash, d))
      invariant steps + Distance(word, free) == Distance(hash, free)
      decreases Distance(word, free)
    {
      word := (word + 1) % WORDS;
      steps := steps + 1;
    }
    assert Reached(hash, word, used, steps);
  }

  ghost function Distance(from: Word, to: Word): (d: nat)
    ensures d < WORDS
  {
    if from <= to then to - from else to + WORDS - from
  }

  ghost predicate Distinct(s: seq<Word>)
  {
    forall i, j :: 0 <= i < j < |s| ==> s[i] != s[j]
  }

  ghost function Elements(s: seq<Word>): (r: set<Word>)
  {
    set w | w in s
  }

  /** Every word from the hash up to the seed, going round, was taken. */
  ghost predicate Nearest(hash: Word, seed: Word, used: set<Word>)
  {
    exists steps: nat :: Reached(hash, seed, used, steps)
  }

  ghost predicate Reached(hash: Word, seed: Word, used: set<Word>, steps: nat)
  {
    && seed == Probed(hash, steps) && steps < WORDS
    && !Taken(used, seed)
    && forall d: nat :: d < steps ==> Taken(used, Probed(hash, d))
  }

  /** Seed i is the nearest word to its hash that the earlier seeds left free. */
  ghost predicate Placed(hashes: seq<Word>, seeds: seq<Word>, i: nat)
    requires i < |seeds| <= |hashes|
  {
    Nearest(hashes[i], seeds[i], Elements(seeds[..i]))
  }

  /**
   * One seed per stream, in table order, for any hash values: distinct,
   * nonzero, and each the nearest word at or after its own hash that the
   * earlier streams left free.
   */
  method Allocate(hashes: seq<Word>) returns (seeds: seq<Word>)
    requires |hashes| < WORDS
    ensures |seeds| == |hashes|
    ensures forall i :: 0 <= i < |seeds| ==> seeds[i] != 0
    ensures Distinct(seeds)
    ensures forall i :: 0 <= i < |seeds| ==> Placed(hashes, seeds, i)
  {
    seeds := [];
    var used: set<Word> := {};
    while |seeds| < |hashes|
      invariant |seeds| <= |hashes|
      invariant |used| == |seeds| && used == Elements(seeds)
      invariant forall i :: 0 <= i < |seeds| ==> seeds[i] != 0
      invariant Distinct(seeds)
      invariant forall i :: 0 <= i < |seeds| ==> Placed(hashes, seeds, i)
      decreases |hashes| - |seeds|
    {
      var word := Probe(used, hashes[|seeds|]);
      ghost var steps: nat :| Reached(hashes[|seeds|], word, used, steps);
      OneMore(hashes, seeds, word, steps);
      used := used + {word};
      seeds := seeds + [word];
    }
  }

  lemma OneMore(hashes: seq<Word>, seeds: seq<Word>, word: Word, steps: nat)
    requires |seeds| < |hashes| && Reached(hashes[|seeds|], word, Elements(seeds), steps)
    requires forall i :: 0 <= i < |seeds| ==> Placed(hashes, seeds, i)
    ensures forall i :: 0 <= i < |seeds| + 1 ==> Placed(hashes, seeds + [word], i)
  {
    var more := seeds + [word];
    forall i | 0 <= i < |more|
      ensures Placed(hashes, more, i)
    {
      if i < |seeds| {
        assert Placed(hashes, seeds, i);
        assert more[..i] == seeds[..i];
      } else {
        assert more[..i] == seeds;
      }
    }
  }

  /** The allocation is a function of the hashes: no other table meets its contract. */
  lemma {:induction false} AllocationUnique(hashes: seq<Word>, a: seq<Word>, b: seq<Word>, n: nat)
    requires |a| == |b| == |hashes| && n <= |a|
    requires forall i :: 0 <= i < |a| ==> Placed(hashes, a, i)
    requires forall i :: 0 <= i < |b| ==> Placed(hashes, b, i)
    ensures a[..n] == b[..n]
  {
    if n > 0 {
      var m := n - 1;
      AllocationUnique(hashes, a, b, m);
      assert Placed(hashes, a, m) && Placed(hashes, b, m);
      NearestUnique(hashes[m], a[m], b[m], Elements(a[..m]));
      assert a[..n] == a[..m] + [a[m]] && b[..n] == b[..m] + [b[m]];
    }
  }

  lemma NearestUnique(hash: Word, a: Word, b: Word, used: set<Word>)
    requires Nearest(hash, a, used) && Nearest(hash, b, used)
    ensures a == b
  {
    var m: nat :| Reached(hash, a, used, m);
    var n: nat :| Reached(hash, b, used, n);
    assert !(m < n) && !(n < m);
  }
}
