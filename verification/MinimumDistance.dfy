/**
 * Why a corrupted codeword has one right answer: words that vanish at m
 * consecutive powers of an element differ in more than m places.
 */
module MinimumDistance {
  import opened Common
  import opened ReedSolomon

  // ----- powers -----

  function Pow<S(!new)>(f: Field<S>, x: S, n: nat): (p: S)
  {
    if n == 0 then f.one else f.mul(Pow(f, x, n - 1), x)
  }

  lemma {:induction false} PowAdd<S(!new)>(f: Field<S>, x: S, m: nat, n: nat)
    requires f.Laws()
    ensures Pow(f, x, m + n) == f.mul(Pow(f, x, m), Pow(f, x, n))
  {
    if n == 0 {
      assert f.MulLaw(Pow(f, x, m), f.one, f.one);
    } else {
      PowAdd(f, x, m, n - 1);
      assert f.MulLaw(Pow(f, x, m), Pow(f, x, n - 1), x);
    }
  }

  lemma {:induction false} PowMul<S(!new)>(f: Field<S>, x: S, y: S, n: nat)
    requires f.Laws()
    ensures Pow(f, f.mul(x, y), n) == f.mul(Pow(f, x, n), Pow(f, y, n))
  {
    if n == 0 {
      assert f.MulLaw(f.one, f.one, f.one);
    } else {
      PowMul(f, x, y, n - 1);
      var a, b := Pow(f, x, n - 1), Pow(f, y, n - 1);
      assert f.MulLaw(a, b, f.mul(x, y)) && f.MulLaw(b, x, y) && f.MulLaw(x, b, y);
      assert f.MulLaw(a, x, f.mul(b, y)) && f.MulLaw(b, f.mul(x, y), y);
    }
  }

  /** Exponents may change places. */
  lemma {:induction false} PowSwap<S(!new)>(f: Field<S>, x: S, m: nat, n: nat)
    requires f.Laws()
    ensures Pow(f, Pow(f, x, m), n) == Pow(f, Pow(f, x, n), m)
  {
    if m == 0 {
      PowOne(f, n);
    } else {
      PowSwap(f, x, m - 1, n);
      PowMul(f, Pow(f, x, m - 1), x, n);
    }
  }

  lemma {:induction false} PowOne<S(!new)>(f: Field<S>, n: nat)
    requires f.Laws()
    ensures Pow(f, f.one, n) == f.one
  {
    if n > 0 {
      PowOne(f, n - 1);
      assert f.MulLaw(f.one, f.one, f.one);
    }
  }

  /** A product is zero only when a factor is. */
  ghost predicate NoZeroDivisors<S(!new)>(f: Field<S>)
  {
    f.one != f.zero && forall x, y :: f.mul(x, y) == f.zero ==> x == f.zero || y == f.zero
  }

  lemma {:induction false} PowNonzero<S(!new)>(f: Field<S>, x: S, n: nat)
    requires NoZeroDivisors(f) && x != f.zero
    ensures Pow(f, x, n) != f.zero
  {
    if n > 0 { PowNonzero(f, x, n - 1); }
  }

  // ----- weighted power sums -----

  /** A coefficient at a locator. */
  datatype Term<S> = Term(c: S, x: S)

  function PowerSum<S(!new)>(f: Field<S>, terms: seq<Term<S>>, l: nat): (s: S)
  {
    if |terms| == 0 then f.zero
    else f.add(f.mul(terms[0].c, Pow(f, terms[0].x, l)), PowerSum(f, terms[1..], l))
  }

  ghost predicate DistinctLocators<S(!new)>(terms: seq<Term<S>>)
  {
    forall i, j :: 0 <= i < j < |terms| ==> terms[i].x != terms[j].x
  }

  /** Every coefficient times the sum of its locator and x. */
  function Eliminated<S(!new)>(f: Field<S>, terms: seq<Term<S>>, x: S): (ts: seq<Term<S>>)
    ensures |ts| == |terms|
  {
    seq(|terms|, i requires 0 <= i < |terms| => Term(f.mul(terms[i].c, f.add(terms[i].x, x)), terms[i].x))
  }

  /** One term: c (X + x) X^l is c X^(l+1) + x c X^l. */
  lemma EliminateTerm<S(!new)>(f: Field<S>, t: Term<S>, x: S, l: nat)
    requires f.Laws()
    ensures f.mul(f.mul(t.c, f.add(t.x, x)), Pow(f, t.x, l))
         == f.add(f.mul(t.c, Pow(f, t.x, l + 1)), f.mul(x, f.mul(t.c, Pow(f, t.x, l))))
  {
    var p := Pow(f, t.x, l);
    calc {
      f.mul(f.mul(t.c, f.add(t.x, x)), p);
      { assert f.DistributesOver(t.c, t.x, x); f.DistributesRight(p, f.mul(t.c, t.x), f.mul(t.c, x)); }
      f.add(f.mul(f.mul(t.c, t.x), p), f.mul(f.mul(t.c, x), p));
      { assert f.MulLaw(t.c, t.x, p) && f.MulLaw(t.x, p, p); }
      f.add(f.mul(t.c, Pow(f, t.x, l + 1)), f.mul(f.mul(t.c, x), p));
      { assert f.MulLaw(t.c, x, p) && f.MulLaw(x, t.c, p); }
      f.add(f.mul(t.c, Pow(f, t.x, l + 1)), f.mul(x, f.mul(t.c, p)));
    }
  }

  lemma {:induction false} EliminatedSum<S(!new)>(f: Field<S>, terms: seq<Term<S>>, x: S, l: nat)
    requires f.Laws()
    ensures PowerSum(f, Eliminated(f, terms, x), l)
         == f.add(PowerSum(f, terms, l + 1), f.mul(x, PowerSum(f, terms, l)))
  {
    if |terms| == 0 {
      f.MulZero(x);
      assert f.AddLaw(f.zero, f.zero, f.zero);
    } else {
      var t, rest := terms[0], terms[1..];
      assert Eliminated(f, terms, x)[1..] == Eliminated(f, rest, x);
      EliminatedSum(f, rest, x, l);
      EliminateTerm(f, t, x, l);
      var a, b := f.mul(t.c, Pow(f, t.x, l + 1)), f.mul(t.c, Pow(f, t.x, l));
      var u, v := PowerSum(f, rest, l + 1), PowerSum(f, rest, l);
      assert f.DistributesOver(x, b, v);
      f.AddRegroup(a, f.mul(x, b), u, f.mul(x, v));
    }
  }

  lemma AddZeroOnly<S(!new)>(f: Field<S>, x: S, y: S)
    requires f.Laws() && f.add(x, y) == f.zero
    ensures x == y
  {
    f.AddCancels(x, y);
    assert f.AddLaw(x, y, y) && f.AddLaw(y, f.zero, f.zero);
  }

  /** A sum of m terms whose first m power sums vanish has only zero coefficients. */
  lemma {:induction false} PowerSumsVanish<S(!new)>(f: Field<S>, terms: seq<Term<S>>, m: nat)
    requires f.Laws() && NoZeroDivisors(f) && DistinctLocators(terms) && |terms| <= m
    requires forall l: nat :: l < m ==> PowerSum(f, terms, l) == f.zero
    ensures forall i :: 0 <= i < |terms| ==> terms[i].c == f.zero
    decreases m
  {
    if |terms| > 0 {
      var t, rest := terms[0], terms[1..];
      var shrunk := Eliminated(f, terms, t.x);
      forall l: nat | l < m - 1
        ensures PowerSum(f, shrunk[1..], l) == f.zero
      {
        EliminatedSum(f, terms, t.x, l);
        f.MulZero(t.x);
        assert f.AddLaw(f.zero, f.zero, f.zero);
        FirstDropsOut(f, terms, l);
      }
      PowerSumsVanish(f, shrunk[1..], m - 1);
      forall i | 0 <= i < |rest|
        ensures rest[i].c == f.zero
      {
        assert shrunk[1..][i].c == f.mul(rest[i].c, f.add(rest[i].x, t.x)) == f.zero;
        assert terms[0].x != terms[i + 1].x;
        if rest[i].c != f.zero { AddZeroOnly(f, rest[i].x, t.x); }
      }
      ZeroSum(f, rest, 0);
      assert PowerSum(f, terms, 0) == f.zero;
      assert f.MulLaw(t.c, f.one, f.one) && f.AddLaw(t.c, f.zero, f.zero);
    }
  }

  /** After eliminating its own locator the first term contributes nothing. */
  lemma FirstDropsOut<S(!new)>(f: Field<S>, terms: seq<Term<S>>, l: nat)
    requires f.Laws() && |terms| > 0
    ensures PowerSum(f, Eliminated(f, terms, terms[0].x), l)
         == PowerSum(f, Eliminated(f, terms, terms[0].x)[1..], l)
  {
    var t := terms[0];
    var rest := PowerSum(f, Eliminated(f, terms, t.x)[1..], l);
    assert f.AddLaw(t.x, t.x, t.x) && f.AddLaw(f.zero, rest, f.zero) && f.AddLaw(rest, f.zero, f.zero);
    f.MulZero(t.c);
    f.MulZero(Pow(f, t.x, l));
  }

  lemma {:induction false} ZeroSum<S(!new)>(f: Field<S>, terms: seq<Term<S>>, l: nat)
    requires f.Laws() && forall i :: 0 <= i < |terms| ==> terms[i].c == f.zero
    ensures PowerSum(f, terms, l) == f.zero
  {
    if |terms| > 0 {
      ZeroSum(f, terms[1..], l);
      f.MulZero(Pow(f, terms[0].x, l));
      assert f.AddLaw(f.zero, f.zero, f.zero);
    }
  }

  // ----- words -----

  lemma {:induction false} EvalFront<S(!new)>(f: Field<S>, x: S, rest: seq<S>, r: S)
    requires f.Laws()
    ensures f.Eval([x] + rest, r) == f.add(f.mul(x, Pow(f, r, |rest|)), f.Eval(rest, r))
  {
    var w := [x] + rest;
    if |rest| == 0 {
      assert w[..0] == [];
      f.MulZero(r);
      assert f.MulLaw(x, f.one, f.one) && f.AddLaw(f.zero, x, x) && f.AddLaw(x, f.zero, x);
    } else {
      var n := |rest| - 1;
      var u, v := f.mul(x, Pow(f, r, n)), f.Eval(rest[..n], r);
      assert w[..|w| - 1] == [x] + rest[..n];
      EvalFront(f, x, rest[..n], r);
      f.DistributesRight(r, u, v);
      assert f.MulLaw(x, Pow(f, r, n), r);
      assert f.AddLaw(f.mul(u, r), f.mul(v, r), rest[n]);
    }
  }

  /** The nonzero symbols of a word as terms, the power x^first folded into each coefficient. */
  ghost function Terms<S(!new)>(f: Field<S>, w: seq<S>, beta: S, first: nat): (ts: seq<Term<S>>)
  {
    if |w| == 0 then []
    else
      var x := Pow(f, beta, |w| - 1);
      (if w[0] != f.zero then [Term(f.mul(w[0], Pow(f, x, first)), x)] else []) + Terms(f, w[1..], beta, first)
  }

  /** The terms' power sums are the word's values at consecutive powers of beta. */
  lemma {:induction false} TermsSum<S(!new)>(f: Field<S>, w: seq<S>, beta: S, first: nat, l: nat)
    requires f.Laws()
    ensures PowerSum(f, Terms(f, w, beta, first), l) == f.Eval(w, Pow(f, beta, first + l))
  {
    if |w| > 0 {
      var rest, r := w[1..], Pow(f, beta, first + l);
      var x := Pow(f, beta, |rest|);
      assert w == [w[0]] + rest;
      EvalFront(f, w[0], rest, r);
      TermsSum(f, rest, beta, first, l);
      if w[0] != f.zero {
        PowSwap(f, beta, first + l, |rest|);
        PowAdd(f, x, first, l);
        assert f.MulLaw(w[0], Pow(f, x, first), Pow(f, x, l));
        assert Terms(f, w, beta, first)[1..] == Terms(f, rest, beta, first);
      } else {
        f.MulZero(Pow(f, r, |rest|));
        assert f.AddLaw(f.zero, f.Eval(rest, r), f.zero) && f.AddLaw(f.Eval(rest, r), f.zero, f.zero);
        assert Terms(f, w, beta, first) == Terms(f, rest, beta, first);
      }
    }
  }

  /** The powers of beta up to n are all different and none is zero. */
  ghost predicate Generates<S(!new)>(f: Field<S>, beta: S, n: nat)
  {
    beta != f.zero && forall i, j :: 0 <= i < j < n ==> Pow(f, beta, i) != Pow(f, beta, j)
  }

  ghost predicate IsPower<S(!new)>(f: Field<S>, beta: S, n: nat, x: S)
  {
    exists k: nat :: k < n && x == Pow(f, beta, k)
  }

  lemma {:induction false} TermsArePowers<S(!new)>(f: Field<S>, w: seq<S>, beta: S, first: nat)
    ensures forall i :: 0 <= i < |Terms(f, w, beta, first)| ==> IsPower(f, beta, |w|, Terms(f, w, beta, first)[i].x)
  {
    if |w| > 0 {
      var ts, rest := Terms(f, w, beta, first), Terms(f, w[1..], beta, first);
      TermsArePowers(f, w[1..], beta, first);
      forall i | 0 <= i < |ts|
        ensures IsPower(f, beta, |w|, ts[i].x)
      {
        if i == 0 && w[0] != f.zero {
          assert ts[i].x == Pow(f, beta, |w| - 1);
        } else {
          var t := rest[if w[0] != f.zero then i - 1 else i];
          assert ts[i] == t && IsPower(f, beta, |w| - 1, t.x);
        }
      }
    }
  }

  lemma {:induction false} TermsDistinct<S(!new)>(f: Field<S>, w: seq<S>, beta: S, first: nat)
    requires Generates(f, beta, |w|)
    ensures DistinctLocators(Terms(f, w, beta, first))
  {
    if |w| > 0 {
      var rest := Terms(f, w[1..], beta, first);
      TermsDistinct(f, w[1..], beta, first);
      TermsArePowers(f, w[1..], beta, first);
      forall i | 0 <= i < |rest|
        ensures rest[i].x != Pow(f, beta, |w| - 1)
      {
        assert IsPower(f, beta, |w| - 1, rest[i].x);
      }
    }
  }

  lemma {:induction false} TermsNonzero<S(!new)>(f: Field<S>, w: seq<S>, beta: S, first: nat)
    requires NoZeroDivisors(f) && beta != f.zero
    ensures forall i :: 0 <= i < |Terms(f, w, beta, first)| ==> Terms(f, w, beta, first)[i].c != f.zero
  {
    if |w| > 0 {
      TermsNonzero(f, w[1..], beta, first);
      PowNonzero(f, beta, |w| - 1);
      PowNonzero(f, Pow(f, beta, |w| - 1), first);
    }
  }

  /** Where a word is not zero. */
  ghost function Support<S(!new)>(f: Field<S>, w: seq<S>): (ps: set<nat>)
  {
    set p: nat | p < |w| && w[p] != f.zero
  }

  lemma {:induction false} TermsCount<S(!new)>(f: Field<S>, w: seq<S>, beta: S, first: nat)
    ensures |Terms(f, w, beta, first)| == |Support(f, w)|
  {
    if |w| > 0 {
      var rest := w[1..];
      TermsCount(f, rest, beta, first);
      var moved := set p | p in Support(f, rest) :: p + 1;
      ShiftedSize(Support(f, rest), moved);
      forall p: nat
        ensures p in Support(f, w) <==> p in moved || (p == 0 && w[0] != f.zero)
      {
        if p > 0 { assert p - 1 in Support(f, rest) <==> p in Support(f, w); }
      }
      assert Support(f, w) == moved + if w[0] != f.zero then {0} else {};
    }
  }

  lemma {:induction false} ShiftedSize(s: set<nat>, t: set<nat>)
    requires t == set p | p in s :: p + 1
    ensures |t| == |s|
  {
    if s != {} {
      var p :| p in s;
      var less := set q | q in s - {p} :: q + 1;
      assert p + 1 in t;
      forall q
        ensures q in t - {p + 1} <==> q in less
      {
        if q in t - {p + 1} {
          var x :| x in s && q == x + 1;
          assert x in s - {p};
        }
        if q in less {
          var x :| x in s - {p} && q == x + 1;
          assert x in s;
        }
      }
      assert t - {p + 1} == less;
      ShiftedSize(s - {p}, less);
    }
  }

  /** The word's value at the l-th of the consecutive powers. */
  function Syndrome<S(!new)>(f: Field<S>, w: seq<S>, beta: S, first: nat, l: nat): (s: S)
  {
    f.Eval(w, Pow(f, beta, first + l))
  }

  /** The word is zero at m consecutive powers of beta. */
  ghost predicate Vanishes<S(!new)>(f: Field<S>, w: seq<S>, beta: S, first: nat, m: nat)
  {
    forall l: nat :: l < m ==> Syndrome(f, w, beta, first, l) == f.zero
  }

  /** A word that vanishes m times and is nonzero in at most m places is zero. */
  lemma LightIsZero<S(!new)>(f: Field<S>, w: seq<S>, beta: S, first: nat, m: nat)
    requires f.Laws() && NoZeroDivisors(f) && Generates(f, beta, |w|)
    requires Vanishes(f, w, beta, first, m) && |Support(f, w)| <= m
    ensures Support(f, w) == {}
  {
    var terms := Terms(f, w, beta, first);
    TermsDistinct(f, w, beta, first);
    TermsCount(f, w, beta, first);
    forall l: nat | l < m
      ensures PowerSum(f, terms, l) == f.zero
    {
      TermsSum(f, w, beta, first, l);
      assert Syndrome(f, w, beta, first, l) == f.zero;
    }
    PowerSumsVanish(f, terms, m);
    if |terms| > 0 {
      assert terms[0].c == f.zero;
      TermsNonzero(f, w, beta, first);
      assert false;
    }
  }

  lemma SumVanishes<S(!new)>(f: Field<S>, a: seq<S>, b: seq<S>, beta: S, first: nat, m: nat)
    requires f.Laws() && |a| == |b| && Vanishes(f, a, beta, first, m) && Vanishes(f, b, beta, first, m)
    ensures Vanishes(f, f.Sum(a, b), beta, first, m)
  {
    forall l: nat | l < m
      ensures Syndrome(f, f.Sum(a, b), beta, first, l) == f.zero
    {
      assert Syndrome(f, a, beta, first, l) == f.zero && Syndrome(f, b, beta, first, l) == f.zero;
      f.EvalSum(a, b, Pow(f, beta, first + l));
      assert f.AddLaw(f.zero, f.zero, f.zero);
    }
  }

  lemma SumSupport<S(!new)>(f: Field<S>, a: seq<S>, b: seq<S>)
    requires f.Laws() && |a| == |b|
    ensures Support(f, f.Sum(a, b)) == Differing(a, b)
  {
    var d := f.Sum(a, b);
    forall p: nat | p < |a|
      ensures d[p] == f.zero <==> a[p] == b[p]
    {
      assert f.AddLaw(a[p], a[p], a[p]);
      if d[p] == f.zero { AddZeroOnly(f, a[p], b[p]); }
    }
  }

  /** Two words that vanish at the same m powers are equal or differ in more than m places. */
  lemma CodewordsFarApart<S(!new)>(f: Field<S>, a: seq<S>, b: seq<S>, beta: S, first: nat, m: nat)
    requires f.Laws() && NoZeroDivisors(f) && |a| == |b| && Generates(f, beta, |a|)
    requires Vanishes(f, a, beta, first, m) && Vanishes(f, b, beta, first, m)
    ensures a == b || |Differing(a, b)| > m
  {
    SumVanishes(f, a, b, beta, first, m);
    SumSupport(f, a, b);
    if |Differing(a, b)| <= m {
      LightIsZero(f, f.Sum(a, b), beta, first, m);
      forall p | 0 <= p < |a|
        ensures a[p] == b[p]
      {
        assert p !in Differing(a, b);
      }
    }
  }

  lemma UnionSize(a: set<nat>, b: set<nat>, c: set<nat>)
    requires a <= b + c
    ensures |a| <= |b| + |c|
  {
    assert |b + c| <= |b| + |c|;
    SubsetSize(a, b + c);
  }

  /**
   * A received word with at most e errors outside its erased positions has at
   * most one codeword behind it, as long as 2e plus the erasures is at most m.
   */
  lemma UniqueDecoding<S(!new)>(f: Field<S>, a: seq<S>, b: seq<S>, rx: seq<S>, erased: set<nat>, e: nat,
                                    beta: S, first: nat, m: nat)
    requires f.Laws() && NoZeroDivisors(f) && |a| == |b| == |rx| && Generates(f, beta, |a|)
    requires Vanishes(f, a, beta, first, m) && Vanishes(f, b, beta, first, m)
    requires |Differing(rx, a) - erased| <= e && |Differing(rx, b) - erased| <= e
    requires 2 * e + |erased| <= m
    ensures a == b
  {
    var x, y := Differing(rx, a) - erased, Differing(rx, b) - erased;
    assert Differing(a, b) <= (x + y) + erased;
    UnionSize(Differing(a, b), x + y, erased);
    UnionSize(x + y, x, y);
    CodewordsFarApart(f, a, b, beta, first, m);
  }
}
