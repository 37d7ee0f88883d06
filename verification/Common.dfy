/** What several modules share. */
module Common {

  datatype Option<+T> = None | Some(value: T)

  datatype Path = Path(text: string)

  /** Places in a text, in order. */
  ghost predicate Rising(at: seq<nat>)
  {
    forall i, j :: 0 <= i < j < |at| ==> at[i] < at[j]
  }

  /** The places below n that qualify, in order. */
  function PlacesOf(keep: nat -> bool, n: nat): (at: seq<nat>)
  {
    if n == 0 then [] else PlacesOf(keep, n - 1) + if keep(n - 1) then [n - 1] else []
  }

  lemma {:induction false} PlacesRise(keep: nat -> bool, n: nat)
    ensures Rising(PlacesOf(keep, n)) && forall j :: 0 <= j < |PlacesOf(keep, n)| ==> PlacesOf(keep, n)[j] < n
  {
    if n > 0 { PlacesRise(keep, n - 1); }
  }

  lemma {:induction false} PlacesQualify(keep: nat -> bool, n: nat, i: nat)
    ensures i in PlacesOf(keep, n) <==> i < n && keep(i)
  {
    if n > 0 { PlacesQualify(keep, n - 1, i); }
  }

  /** A remainder is what is left of a number after whole multiples. */
  lemma RemainderIs(x: nat, n: nat, q: nat, r: nat)
    requires n > 0 && r < n && x == q * n + r
    ensures x % n == r
  {
    var p, s := x / n, x % n;
    assert x == p * n + s;
    if p < q {
      MultiplesApart(p, q, n);
    } else if q < p {
      MultiplesApart(q, p, n);
    }
  }

  lemma MultiplesApart(p: nat, q: nat, n: nat)
    requires p < q
    ensures p * n + n <= q * n
  {
    assert (p + 1) * n <= q * n;
  }

  lemma SubsetSize<T>(a: set<T>, b: set<T>)
    requires a <= b
    ensures |a| <= |b|
  {
    assert b == a + (b - a);
  }

  /** At most n distinct numbers lie in the range lo..lo+n. */
  lemma {:induction false} Pigeonhole(s: set<int>, lo: int, n: nat)
    requires forall x :: x in s ==> lo <= x < lo + n
    ensures |s| <= n
  {
    if n == 0 {
      assert forall x :: x !in s;
      assert s == {};
    } else {
      var t := s - {lo + n - 1};
      Pigeonhole(t, lo, n - 1);
      SubsetSize(s, t + {lo + n - 1});
    }
  }

  ghost function Image(f: nat -> int, n: nat): (s: set<int>)
  {
    set i: nat | i < n :: f(i)
  }

  /** n different values make a set of n. */
  lemma {:induction false} ImageSize(f: nat -> int, n: nat)
    requires forall i: nat, j: nat :: i < j < n ==> f(i) != f(j)
    ensures |Image(f, n)| == n
  {
    if n > 0 {
      ImageSize(f, n - 1);
      var less, last := Image(f, n - 1), f(n - 1);
      assert last !in less;
      forall x
        ensures x in Image(f, n) <==> x in less + {last}
      {
        if x in Image(f, n) && x != last {
          var i: nat :| i < n && f(i) == x;
          assert i < n - 1;
        }
      }
      assert Image(f, n) == less + {last};
    }
  }

  /** Among more values than the range lo..lo+n holds, two are equal. */
  lemma Collision(f: nat -> int, lo: int, n: nat) returns (i: nat, j: nat)
    requires forall k: nat :: lo <= f(k) < lo + n
    ensures i < j <= n && f(i) == f(j)
  {
    if forall i: nat, j: nat :: i < j < n + 1 ==> f(i) != f(j) {
      ImageSize(f, n + 1);
      Pigeonhole(Image(f, n + 1), lo, n);
      assert false;
    }
    i, j :| i < j < n + 1 && f(i) == f(j);
  }
}
