/**
 * Stimulus parity is trace equivalence: two accepted transcripts have the same
 * parity payload exactly when one becomes the other by swapping neighbouring
 * records that belong to different tracks.
 */
module TranscriptParity {
  import opened Common
  import CodecTable
  import opened Transcript

  // ----- swaps -----

  /** Neighbours that may change places: a summary with anything, else different tracks. */
  predicate Independent(rd: Reading, a: string, b: string)
  {
    rd.track(a).OfSummary? || rd.track(b).OfSummary? || rd.track(a) != rd.track(b)
  }

  ghost predicate SwapAt(rd: Reading, s: seq<string>, t: seq<string>, i: nat)
  {
    && i + 1 < |s|
    && Independent(rd, s[i], s[i + 1])
    && t == s[..i] + [s[i + 1], s[i]] + s[i + 2..]
  }

  ghost predicate Swap(rd: Reading, s: seq<string>, t: seq<string>)
  {
    exists i: nat :: SwapAt(rd, s, t, i)
  }

  /** t is n swaps away from s. */
  ghost predicate Reaches(rd: Reading, s: seq<string>, t: seq<string>, n: nat)
    decreases n
  {
    if n == 0 then s == t else exists m :: Swap(rd, s, m) && Reaches(rd, m, t, n - 1)
  }

  ghost predicate Equivalent(rd: Reading, s: seq<string>, t: seq<string>)
  {
    exists n: nat :: Reaches(rd, s, t, n)
  }

  lemma {:induction false} ReachesCompose(rd: Reading, s: seq<string>, t: seq<string>, u: seq<string>, m: nat, n: nat)
    requires Reaches(rd, s, t, m) && Reaches(rd, t, u, n)
    ensures Reaches(rd, s, u, m + n)
    decreases m
  {
    if m > 0 {
      var x :| Swap(rd, s, x) && Reaches(rd, x, t, m - 1);
      ReachesCompose(rd, x, t, u, m - 1, n);
      assert Swap(rd, s, x) && Reaches(rd, x, u, m + n - 1);
    }
  }

  lemma EquivalentTransitive(rd: Reading, s: seq<string>, t: seq<string>, u: seq<string>)
    requires Equivalent(rd, s, t) && Equivalent(rd, t, u)
    ensures Equivalent(rd, s, u)
  {
    var m: nat :| Reaches(rd, s, t, m);
    var n: nat :| Reaches(rd, t, u, n);
    ReachesCompose(rd, s, t, u, m, n);
  }

  lemma SwapIsEquivalent(rd: Reading, s: seq<string>, t: seq<string>)
    requires Swap(rd, s, t)
    ensures Equivalent(rd, s, t)
  {
    assert Reaches(rd, t, t, 0);
    assert Reaches(rd, s, t, 1);
  }

  lemma SwapCons(rd: Reading, a: string, s: seq<string>, t: seq<string>)
    requires Swap(rd, s, t)
    ensures Swap(rd, [a] + s, [a] + t)
  {
    var i: nat :| SwapAt(rd, s, t, i);
    var s', t' := [a] + s, [a] + t;
    assert s'[..i + 1] == [a] + s[..i] && s'[i + 3..] == s[i + 2..];
    assert t' == s'[..i + 1] + [s'[i + 2], s'[i + 1]] + s'[i + 3..];
    assert SwapAt(rd, s', t', i + 1);
  }

  lemma {:induction false} ReachesCons(rd: Reading, a: string, s: seq<string>, t: seq<string>, n: nat)
    requires Reaches(rd, s, t, n)
    ensures Reaches(rd, [a] + s, [a] + t, n)
    decreases n
  {
    if n > 0 {
      var x :| Swap(rd, s, x) && Reaches(rd, x, t, n - 1);
      SwapCons(rd, a, s, x);
      ReachesCons(rd, a, x, t, n - 1);
    }
  }

  // ----- projections -----

  lemma {:induction false} FilterAppend(rd: Reading, a: seq<string>, b: seq<string>, t: Track)
    ensures Filter(rd, a + b, t) == Filter(rd, a, t) + Filter(rd, b, t)
  {
    if |b| == 0 {
      assert a + b == a;
    } else {
      var n := |b| - 1;
      assert (a + b)[..|a| + n] == a + b[..n];
      FilterAppend(rd, a, b[..n], t);
    }
  }

  lemma FilterOne(rd: Reading, a: string, t: Track)
    ensures Filter(rd, [a], t) == if rd.track(a) == t then [a] else []
  {
    assert [a][..0] == [];
  }

  /** The share of a track in a transcript with two neighbours singled out. */
  lemma FilterAround(rd: Reading, p: seq<string>, a: string, b: string, q: seq<string>, t: Track)
    ensures Filter(rd, p + [a, b] + q, t)
         == Filter(rd, p, t) + (Filter(rd, [a], t) + Filter(rd, [b], t)) + Filter(rd, q, t)
  {
    FilterAppend(rd, p + [a, b], q, t);
    FilterAppend(rd, p, [a, b], t);
    assert [a, b] == [a] + [b];
    FilterAppend(rd, [a], [b], t);
  }

  lemma FilterSwap(rd: Reading, s: seq<string>, u: seq<string>, i: nat, t: Track)
    requires SwapAt(rd, s, u, i)
    ensures |Filter(rd, s, t)| == |Filter(rd, u, t)|
    ensures rd.track(s[i]) != rd.track(s[i + 1]) || rd.track(s[i]) != t
      ==> Filter(rd, s, t) == Filter(rd, u, t)
  {
    var p, a, b, q := s[..i], s[i], s[i + 1], s[i + 2..];
    assert s == p + [a, b] + q;
    FilterAround(rd, p, a, b, q, t);
    FilterAround(rd, p, b, a, q, t);
    FilterOne(rd, a, t);
    FilterOne(rd, b, t);
    MiddleSwap(Filter(rd, p, t), Filter(rd, [a], t), Filter(rd, [b], t), Filter(rd, q, t));
  }

  lemma MiddleSwap(p: seq<string>, a: seq<string>, b: seq<string>, q: seq<string>)
    ensures |p + (a + b) + q| == |p + (b + a) + q|
    ensures a == [] || b == [] ==> p + (a + b) + q == p + (b + a) + q
  {
    if a == [] || b == [] { assert a + b == b + a; }
  }

  lemma TracksSwap(rd: Reading, s: seq<string>, u: seq<string>)
    requires Swap(rd, s, u)
    ensures Tracks(rd, s) == Tracks(rd, u)
  {
    var i: nat :| SwapAt(rd, s, u, i);
    forall t
      ensures t in Tracks(rd, s) <==> t in Tracks(rd, u)
    {
      FilterSwap(rd, s, u, i, t);
      FilterMembers(rd, s, t);
      FilterMembers(rd, u, t);
    }
  }

  /** A swap changes neither the verdict nor, if accepted, anything of the canonical form. */
  lemma SwapKeepsVerdict(rd: Reading, s: seq<string>, u: seq<string>, preflight: bool, required: set<string>)
    requires rd.Sorts() && Swap(rd, s, u)
    ensures Accepted(rd, s, preflight, required) <==> Accepted(rd, u, preflight, required)
    ensures Accepted(rd, s, preflight, required) ==> CanonicalOf(rd, s) == CanonicalOf(rd, u)
  {
    var i: nat :| SwapAt(rd, s, u, i);
    TracksSwap(rd, s, u);
    forall t: Track
      ensures |Filter(rd, s, t)| == |Filter(rd, u, t)|
      ensures !t.OfSummary? || |Filter(rd, s, t)| <= 1 ==> Filter(rd, s, t) == Filter(rd, u, t)
    {
      FilterSwap(rd, s, u, i, t);
      if rd.track(s[i]) == rd.track(s[i + 1]) == t {
        TwoOnTrack(rd, s, i, t);
      }
    }
  }

  lemma TwoOnTrack(rd: Reading, s: seq<string>, i: nat, t: Track)
    requires i + 1 < |s| && rd.track(s[i]) == rd.track(s[i + 1]) == t
    ensures |Filter(rd, s, t)| >= 2
  {
    assert s == s[..i] + ([s[i]] + ([s[i + 1]] + s[i + 2..]));
    FilterAppend(rd, s[..i], [s[i]] + ([s[i + 1]] + s[i + 2..]), t);
    FilterAppend(rd, [s[i]], [s[i + 1]] + s[i + 2..], t);
    FilterAppend(rd, [s[i + 1]], s[i + 2..], t);
    FilterOne(rd, s[i], t);
    FilterOne(rd, s[i + 1], t);
  }

  lemma {:induction false} ReachesKeepsVerdict(
    rd: Reading, s: seq<string>, u: seq<string>, n: nat, preflight: bool, required: set<string>)
    requires rd.Sorts() && Reaches(rd, s, u, n)
    decreases n
    ensures Accepted(rd, s, preflight, required) <==> Accepted(rd, u, preflight, required)
    ensures Accepted(rd, s, preflight, required) ==> CanonicalOf(rd, s) == CanonicalOf(rd, u)
  {
    if n > 0 {
      var x :| Swap(rd, s, x) && Reaches(rd, x, u, n - 1);
      SwapKeepsVerdict(rd, s, x, preflight, required);
      ReachesKeepsVerdict(rd, x, u, n - 1, preflight, required);
    }
  }

  // ----- equal projections give equivalence -----

  ghost predicate SameProjections(rd: Reading, s: seq<string>, u: seq<string>)
  {
    forall t: Track :: Filter(rd, s, t) == Filter(rd, u, t)
  }

  /** A record moves to the front past records of other tracks. */
  lemma {:induction false} MoveToFront(rd: Reading, u: seq<string>, a: string, v: seq<string>)
    requires forall x :: x in u ==> rd.track(x) != rd.track(a)
    ensures Equivalent(rd, [a] + (u + v), u + ([a] + v))
  {
    if |u| == 0 {
      assert [a] + (u + v) == u + ([a] + v);
      assert Reaches(rd, [a] + (u + v), u + ([a] + v), 0);
    } else {
      var n := |u| - 1;
      var y := u[n];
      MoveToFront(rd, u[..n], a, [y] + v);
      var mid := u[..n] + ([a] + ([y] + v));
      assert [a] + (u[..n] + ([y] + v)) == [a] + (u + v);
      assert SwapAt(rd, mid, u + ([a] + v), n) by {
        assert mid[..n] == u[..n] && mid[n + 2..] == v;
      }
      SwapIsEquivalent(rd, mid, u + ([a] + v));
      EquivalentTransitive(rd, [a] + (u + v), mid, u + ([a] + v));
    }
  }

  /** Splits off the first record of a track that occurs. */
  lemma {:induction false} FirstOnTrack(rd: Reading, s: seq<string>, t: Track) returns (u: seq<string>, v: seq<string>)
    requires Filter(rd, s, t) != []
    ensures s == u + ([Filter(rd, s, t)[0]] + v)
    ensures forall x :: x in u ==> rd.track(x) != t
  {
    var n := |s| - 1;
    if Filter(rd, s[..n], t) != [] {
      u, v := FirstOnTrack(rd, s[..n], t);
      v := v + [s[n]];
    } else {
      u, v := s[..n], [];
      FilterMembers(rd, s[..n], t);
    }
  }

  /** Equal shares of a track stay equal when the same record is taken out of both. */
  lemma RestSame(one: seq<string>, x: seq<string>, y: seq<string>, z: seq<string>)
    requires one + x == y + (one + z)
    requires (|one| == 1 && y == []) || one == []
    ensures x == y + z
  {
    if one == [] {
      assert one + x == x && y + (one + z) == y + z;
    } else {
      assert (one + x)[1..] == x && (y + (one + z))[1..] == z;
    }
  }

  lemma RestSameOn(rd: Reading, s: seq<string>, u: seq<string>, v: seq<string>, t: Track)
    requires |s| > 0 && Filter(rd, s, t) == Filter(rd, u + ([s[0]] + v), t)
    requires forall x :: x in u ==> rd.track(x) != rd.track(s[0])
    ensures Filter(rd, s[1..], t) == Filter(rd, u + v, t)
  {
    var a := s[0];
    assert s == [a] + s[1..];
    FilterAppend(rd, [a], s[1..], t);
    FilterAppend(rd, u, [a] + v, t);
    FilterAppend(rd, [a], v, t);
    FilterAppend(rd, u, v, t);
    FilterOne(rd, a, t);
    FilterMembers(rd, u, t);
    RestSame(Filter(rd, [a], t), Filter(rd, s[1..], t), Filter(rd, u, t), Filter(rd, v, t));
  }

  lemma RestSameProjections(rd: Reading, s: seq<string>, u: seq<string>, v: seq<string>)
    requires |s| > 0 && SameProjections(rd, s, u + ([s[0]] + v))
    requires forall x :: x in u ==> rd.track(x) != rd.track(s[0])
    ensures SameProjections(rd, s[1..], u + v)
  {
    forall t: Track
      ensures Filter(rd, s[1..], t) == Filter(rd, u + v, t)
    {
      RestSameOn(rd, s, u, v, t);
    }
  }

  lemma {:induction false} SameProjectionsEquivalent(rd: Reading, s: seq<string>, u: seq<string>)
    requires SameProjections(rd, s, u)
    ensures Equivalent(rd, s, u)
  {
    if |s| == 0 {
      if |u| > 0 {
        FilterMembers(rd, u, rd.track(u[0]));
        FilterMembers(rd, s, rd.track(u[0]));
        assert false;
      }
      assert Reaches(rd, s, u, 0);
    } else {
      var a, t := s[0], rd.track(s[0]);
      assert s == [a] + s[1..];
      FilterAppend(rd, [a], s[1..], t);
      FilterOne(rd, a, t);
      var p, q := FirstOnTrack(rd, u, t);
      assert Filter(rd, u, t)[0] == a;
      RestSameProjections(rd, s, p, q);
      SameProjectionsEquivalent(rd, s[1..], p + q);
      var n: nat :| Reaches(rd, s[1..], p + q, n);
      ReachesCons(rd, a, s[1..], p + q, n);
      MoveToFront(rd, p, a, q);
      EquivalentTransitive(rd, s, [a] + (p + q), u);
    }
  }

  // ----- equal payloads give equal projections -----

  lemma PayloadGivesProjections(rd: Reading, s: seq<string>, u: seq<string>, preflight: bool, required: set<string>)
    requires rd.Sorts()
    requires Accepted(rd, s, preflight, required) && Accepted(rd, u, preflight, required)
    requires ParityPayload(CanonicalOf(rd, s)) == ParityPayload(CanonicalOf(rd, u))
    ensures SameProjections(rd, s, u)
  {
    var c, d := CanonicalOf(rd, s), CanonicalOf(rd, u);
    forall t: Track
      ensures Filter(rd, s, t) == Filter(rd, u, t)
    {
      FilterMembers(rd, s, t);
      FilterMembers(rd, u, t);
      match t
      case OfStream(k) =>
        StreamListed(rd, s, u, k);
        StreamListed(rd, u, s, k);
      case OfSummary(k) =>
        if k in SummaryKeys(rd, s) {
          SummaryListed(rd, s, u, k);
        } else if k in SummaryKeys(rd, u) {
          SummaryListed(rd, u, s, k);
        }
      case OfKat =>
        assert c.knownAnswer == d.knownAnswer;
      case Unreadable =>
    }
  }

  lemma StreamListed(rd: Reading, s: seq<string>, u: seq<string>, k: Key)
    requires rd.Sorts()
    requires forall x :: x in SummaryKeys(rd, s) ==> |Filter(rd, s, OfSummary(x))| == 1
    requires forall x :: x in SummaryKeys(rd, u) ==> |Filter(rd, u, OfSummary(x))| == 1
    requires CanonicalOf(rd, s).events == CanonicalOf(rd, u).events
    ensures OfStream(k) in Tracks(rd, s) ==> Filter(rd, s, OfStream(k)) == Filter(rd, u, OfStream(k))
  {
    if OfStream(k) in Tracks(rd, s) {
      assert k in Streams(rd, s);
      var list, list' := rd.sorted(Streams(rd, s)), rd.sorted(Streams(rd, u));
      assert Enumerates(list, Streams(rd, s));
      var i :| 0 <= i < |list| && list[i] == k;
      assert CanonicalOf(rd, s).events[i] == Stream(k, Filter(rd, s, OfStream(k)));
      assert CanonicalOf(rd, u).events[i] == Stream(list'[i], Filter(rd, u, OfStream(list'[i])));
    }
  }

  lemma SummaryListed(rd: Reading, s: seq<string>, u: seq<string>, k: Key)
    requires rd.Sorts()
    requires forall x :: x in SummaryKeys(rd, s) ==> |Filter(rd, s, OfSummary(x))| == 1
    requires forall x :: x in SummaryKeys(rd, u) ==> |Filter(rd, u, OfSummary(x))| == 1
    requires CanonicalOf(rd, s).summaries == CanonicalOf(rd, u).summaries
    requires k in SummaryKeys(rd, s)
    ensures Filter(rd, s, OfSummary(k)) == Filter(rd, u, OfSummary(k))
  {
    var list, list' := rd.sorted(SummaryKeys(rd, s)), rd.sorted(SummaryKeys(rd, u));
    assert Enumerates(list, SummaryKeys(rd, s)) && Enumerates(list', SummaryKeys(rd, u));
    var i :| 0 <= i < |list| && list[i] == k;
    var line := CanonicalOf(rd, s).summaries[i];
    var k' := list'[i];
    assert k' in list' && k' in SummaryKeys(rd, u);
    assert line in Filter(rd, s, OfSummary(k)) && line in Filter(rd, u, OfSummary(k'));
    FilterMembers(rd, s, OfSummary(k));
    FilterMembers(rd, u, OfSummary(k'));
    assert k == k';
    assert Filter(rd, s, OfSummary(k)) == [line] == Filter(rd, u, OfSummary(k));
  }

  /** Parity holds exactly between equivalent transcripts. */
  lemma ParityIsEquivalence(rd: Reading, s: seq<string>, u: seq<string>, preflight: bool, required: set<string>)
    requires rd.Sorts()
    requires Accepted(rd, s, preflight, required) && Accepted(rd, u, preflight, required)
    ensures ParityPayload(CanonicalOf(rd, s)) == ParityPayload(CanonicalOf(rd, u)) <==> Equivalent(rd, s, u)
  {
    if Equivalent(rd, s, u) {
      var n: nat :| Reaches(rd, s, u, n);
      ReachesKeepsVerdict(rd, s, u, n, preflight, required);
    }
    if ParityPayload(CanonicalOf(rd, s)) == ParityPayload(CanonicalOf(rd, u)) {
      PayloadGivesProjections(rd, s, u, preflight, required);
      SameProjectionsEquivalent(rd, s, u);
    }
  }

  /** Swaps never turn an accepted transcript into a rejected one, or back. */
  lemma EquivalentSameVerdict(rd: Reading, s: seq<string>, u: seq<string>, preflight: bool, required: set<string>)
    requires rd.Sorts() && Equivalent(rd, s, u)
    ensures Accepted(rd, s, preflight, required) <==> Accepted(rd, u, preflight, required)
  {
    var n: nat :| Reaches(rd, s, u, n);
    ReachesKeepsVerdict(rd, s, u, n, preflight, required);
  }

  // ----- a pair of checked runs -----

  /** What the correctness check keeps of a run. */
  datatype Checked = Checked(stimulus: Canonical, codecTags: Option<seq<int>>, correctness: seq<string>)

  /** The run passed: its transcript is accepted, and in the reduced codec case its scenarios are in order. */
  ghost predicate Passed(rd: Reading, raw: seq<string>, preflight: bool, required: set<string>, reduced: bool, c: Checked)
  {
    && rd.Sorts() && Accepted(rd, raw, preflight, required) && c.stimulus == CanonicalOf(rd, raw)
    && c.codecTags == if reduced then Some(CodecTable.CODEC_SCENARIOS) else None
  }

  /** The comparison of the two simulators' runs of one case. */
  predicate PairParity(a: Checked, b: Checked)
  {
    && ParityPayload(a.stimulus) == ParityPayload(b.stimulus) && a.codecTags == b.codecTags
    && a.correctness == b.correctness
  }

  /** Two runs that passed agree exactly when swaps relate their transcripts and their result lines are the same. */
  lemma PairParityExactly(rd: Reading, s: seq<string>, u: seq<string>, preflight: bool, required: set<string>,
                          reduced: bool, a: Checked, b: Checked)
    requires Passed(rd, s, preflight, required, reduced, a) && Passed(rd, u, preflight, required, reduced, b)
    ensures PairParity(a, b) <==> Equivalent(rd, s, u) && a.correctness == b.correctness
  {
    ParityIsEquivalence(rd, s, u, preflight, required);
  }
}
