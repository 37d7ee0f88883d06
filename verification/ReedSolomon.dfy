/**
 * The systematic Reed-Solomon encoder of the throughput testbench: a shift
 * register with feedback, updated in place. Symbols, their xor and the
 * Galois-field product are parameters; only their laws are used.
 */
module ReedSolomon {

  datatype Field<!S(!new)> = Field(zero: S, one: S, add: (S, S) -> S, mul: (S, S) -> S) {

    // ----- the laws, one named instance at a time -----

    /** Addition is xor: an abelian group in which every element is its own inverse. */
    ghost predicate AddLaw(x: S, y: S, z: S)
    {
      && add(x, y) == add(y, x)
      && add(add(x, y), z) == add(x, add(y, z))
      && add(x, zero) == x
      && add(x, x) == zero
    }

    ghost predicate MulLaw(x: S, y: S, z: S)
    {
      && mul(x, y) == mul(y, x)
      && mul(mul(x, y), z) == mul(x, mul(y, z))
      && mul(x, one) == x
    }

    ghost predicate DistributesOver(x: S, y: S, z: S)
    {
      mul(x, add(y, z)) == add(mul(x, y), mul(x, z))
    }

    ghost predicate Laws()
    {
      && (forall x, y, z :: AddLaw(x, y, z))
      && (forall x, y, z :: MulLaw(x, y, z))
      && (forall x, y, z :: DistributesOver(x, y, z))
    }

    lemma MulZero(x: S)
      requires Laws()
      ensures mul(x, zero) == zero && mul(zero, x) == zero
    {
      var m := mul(x, zero);
      assert AddLaw(zero, zero, zero) && AddLaw(m, m, m);
      assert DistributesOver(x, zero, zero) && MulLaw(x, zero, zero);
    }

    lemma AddRegroup(a: S, b: S, c: S, d: S)
      requires Laws()
      ensures add(add(a, b), add(c, d)) == add(add(a, c), add(b, d))
    {
      calc {
        add(add(a, b), add(c, d));
        { assert AddLaw(a, b, add(c, d)); }
        add(a, add(b, add(c, d)));
        { assert AddLaw(b, c, d) && AddLaw(c, b, d); }
        add(a, add(c, add(b, d)));
        { assert AddLaw(a, c, add(b, d)); }
        add(add(a, c), add(b, d));
      }
    }

    lemma AddCancels(m: S, x: S)
      requires Laws()
      ensures add(x, add(m, x)) == m
    {
      calc {
        add(x, add(m, x));
        { assert AddLaw(x, add(m, x), x); }
        add(add(m, x), x);
        { assert AddLaw(m, x, x) && AddLaw(x, x, x); }
        add(m, zero);
        { assert AddLaw(m, m, m); }
        m;
      }
    }

    lemma DistributesRight(x: S, y: S, z: S)
      requires Laws()
      ensures mul(add(y, z), x) == add(mul(y, x), mul(z, x))
    {
      assert DistributesOver(x, y, z);
      assert MulLaw(x, add(y, z), x) && MulLaw(x, y, x) && MulLaw(x, z, x);
    }

    // ----- polynomials, highest coefficient first -----

    /** The value at r of the polynomial with these coefficients. */
    function Eval(p: seq<S>, r: S): (v: S)
    {
      if |p| == 0 then zero else add(mul(Eval(p[..|p| - 1], r), r), p[|p| - 1])
    }

    function Zeros(n: nat): (z: seq<S>)
    {
      seq(n, _ => zero)
    }

    function Sum(a: seq<S>, b: seq<S>): (s: seq<S>)
      requires |a| == |b|
      ensures |s| == |a|
    {
      seq(|a|, i requires 0 <= i < |a| => add(a[i], b[i]))
    }

    function Scale(f: S, a: seq<S>): (s: seq<S>)
      ensures |s| == |a|
    {
      seq(|a|, i requires 0 <= i < |a| => mul(f, a[i]))
    }

    lemma {:induction false} EvalSum(a: seq<S>, b: seq<S>, r: S)
      requires Laws() && |a| == |b|
      ensures Eval(Sum(a, b), r) == add(Eval(a, r), Eval(b, r))
    {
      if |a| == 0 {
        assert AddLaw(zero, zero, zero);
      } else {
        var n := |a| - 1;
        var u, v := Eval(a[..n], r), Eval(b[..n], r);
        assert Sum(a, b)[..n] == Sum(a[..n], b[..n]);
        EvalSum(a[..n], b[..n], r);
        DistributesRight(r, u, v);
        AddRegroup(mul(u, r), mul(v, r), a[n], b[n]);
      }
    }

    lemma {:induction false} EvalScale(f: S, a: seq<S>, r: S)
      requires Laws()
      ensures Eval(Scale(f, a), r) == mul(f, Eval(a, r))
    {
      if |a| == 0 {
        MulZero(f);
      } else {
        var n := |a| - 1;
        var u := Eval(a[..n], r);
        assert Scale(f, a)[..n] == Scale(f, a[..n]);
        EvalScale(f, a[..n], r);
        assert MulLaw(f, u, r) && DistributesOver(f, mul(u, r), a[n]);
      }
    }

    lemma {:induction false} EvalLeadingZeros(n: nat, a: seq<S>, r: S)
      requires Laws()
      ensures Eval(Zeros(n) + a, r) == Eval(a, r)
    {
      var p := Zeros(n) + a;
      if |a| > 0 {
        assert p[..|p| - 1] == Zeros(n) + a[..|a| - 1];
        EvalLeadingZeros(n, a[..|a| - 1], r);
      } else if n > 0 {
        assert p[..|p| - 1] == Zeros(n - 1) + a;
        EvalLeadingZeros(n - 1, a, r);
        MulZero(r);
        assert AddLaw(zero, zero, zero);
      }
    }

    // ----- the shift register -----

    /** The monic generator, highest coefficient first, from its stored low part. */
    function Generator(gp: seq<S>): (g: seq<S>)
    {
      [one] + Reversed(gp)
    }

    function Feedback(reg: seq<S>, m: S): (fb: S)
      requires |reg| > 0
    {
      add(m, reg[|reg| - 1])
    }

    /** The register after one symbol, every cell computed from the old cells at once. */
    function Shifted(gp: seq<S>, reg: seq<S>, m: S): (s: seq<S>)
      requires |reg| == |gp| > 0
      ensures |s| == |reg|
    {
      var fb := Feedback(reg, m);
      seq(|reg|, j requires 0 <= j < |reg| =>
        if j == 0 then mul(fb, gp[0]) else add(reg[j - 1], mul(fb, gp[j])))
    }

    /** The register after the first n symbols of msg, from the cleared register. */
    function Register(gp: seq<S>, msg: seq<S>, n: nat): (reg: seq<S>)
      requires n <= |msg| && |gp| > 0
      ensures |reg| == |gp|
    {
      if n == 0 then Zeros(|gp|) else Shifted(gp, Register(gp, msg, n - 1), msg[n - 1])
    }

    /** The feedback symbols of the first n steps. */
    function Feedbacks(gp: seq<S>, msg: seq<S>, n: nat): (q: seq<S>)
      requires n <= |msg| && |gp| > 0
      ensures |q| == n
    {
      if n == 0 then []
      else Feedbacks(gp, msg, n - 1) + [Feedback(Register(gp, msg, n - 1), msg[n - 1])]
    }

    /** The transmitted order: the message, then the register from its top cell down. */
    function Codeword(gp: seq<S>, msg: seq<S>): (cw: seq<S>)
      requires |gp| > 0
      ensures |cw| == |msg| + |gp|
    {
      msg + Reversed(Register(gp, msg, |msg|))
    }

    /** One step multiplies by x and adds a multiple of the generator. */
    lemma StepIsDivision(gp: seq<S>, reg: seq<S>, sent: seq<S>, m: S)
      requires Laws() && |reg| == |gp| > 0
      ensures sent + [m] + Reversed(Shifted(gp, reg, m))
           == Sum(sent + Reversed(reg) + [zero],
                  Zeros(|sent|) + Scale(Feedback(reg, m), Generator(gp)))
    {
      var fb := Feedback(reg, m);
      var g := Generator(gp);
      var l := sent + [m] + Reversed(Shifted(gp, reg, m));
      var w := sent + Reversed(reg) + [zero];
      var z := Zeros(|sent|) + Scale(fb, g);
      assert |l| == |w| == |z|;
      forall i | 0 <= i < |l|
        ensures l[i] == add(w[i], z[i])
      {
        if i < |sent| {
          assert AddLaw(w[i], zero, zero);
        } else if i == |sent| {
          assert MulLaw(fb, one, one);
          AddCancels(m, reg[|reg| - 1]);
        } else {
          var j := |reg| - (i - |sent|);
          assert z[i] == mul(fb, g[i - |sent|]) == mul(fb, gp[j]);
          assert l[i] == Shifted(gp, reg, m)[j];
          assert AddLaw(zero, z[i], zero) && AddLaw(z[i], zero, zero);
        }
      }
      assert l == Sum(w, z);
    }

    /** One more symbol: the value is multiplied by r and a multiple of the generator added. */
    lemma StepValue(gp: seq<S>, reg: seq<S>, sent: seq<S>, m: S, r: S)
      requires Laws() && |reg| == |gp| > 0
      ensures Eval(sent + [m] + Reversed(Shifted(gp, reg, m)), r)
           == add(mul(Eval(sent + Reversed(reg), r), r), mul(Feedback(reg, m), Eval(Generator(gp), r)))
    {
      var w := sent + Reversed(reg);
      var fb, g := Feedback(reg, m), Generator(gp);
      StepIsDivision(gp, reg, sent, m);
      EvalSum(w + [zero], Zeros(|sent|) + Scale(fb, g), r);
      EvalLeadingZeros(|sent|, Scale(fb, g), r);
      EvalScale(fb, g, r);
      assert (w + [zero])[..|w|] == w;
      assert AddLaw(mul(Eval(w, r), r), zero, zero);
    }

    /**
     * At every point r, what the encoder has sent plus what its register holds
     * is the feedback polynomial times the generator.
     */
    lemma {:induction false} RegisterDivides(gp: seq<S>, msg: seq<S>, n: nat, r: S)
      requires Laws() && n <= |msg| && |gp| > 0
      ensures Eval(msg[..n] + Reversed(Register(gp, msg, n)), r)
           == mul(Eval(Feedbacks(gp, msg, n), r), Eval(Generator(gp), r))
    {
      var g := Eval(Generator(gp), r);
      if n == 0 {
        assert msg[..0] + Reversed(Zeros(|gp|)) == Zeros(|gp|) + [];
        EvalLeadingZeros(|gp|, [], r);
        MulZero(g);
      } else {
        var reg, m := Register(gp, msg, n - 1), msg[n - 1];
        RegisterDivides(gp, msg, n - 1, r);
        StepValue(gp, reg, msg[..n - 1], m, r);
        assert msg[..n] == msg[..n - 1] + [m];
        var qs := Feedbacks(gp, msg, n);
        assert qs[..n - 1] == Feedbacks(gp, msg, n - 1);
        QuotientStep(Eval(Feedbacks(gp, msg, n - 1), r), g, r, Feedback(reg, m));
      }
    }

    lemma QuotientStep(q: S, g: S, r: S, fb: S)
      requires Laws()
      ensures mul(add(mul(q, r), fb), g) == add(mul(mul(q, g), r), mul(fb, g))
    {
      DistributesRight(g, mul(q, r), fb);
      assert MulLaw(q, r, g) && MulLaw(r, g, g) && MulLaw(q, g, r);
    }

    /** Every codeword is a multiple of the generator. */
    lemma CodewordIsMultiple(gp: seq<S>, msg: seq<S>, r: S)
      requires Laws() && |gp| > 0
      ensures Eval(Codeword(gp, msg), r)
           == mul(Eval(Feedbacks(gp, msg, |msg|), r), Eval(Generator(gp), r))
    {
      RegisterDivides(gp, msg, |msg|, r);
      assert msg[..|msg|] == msg;
    }

    /** All syndromes vanish: a codeword is zero at every root of the generator. */
    lemma SyndromesVanish(gp: seq<S>, msg: seq<S>, root: S)
      requires Laws() && |gp| > 0
      requires Eval(Generator(gp), root) == zero
      ensures Eval(Codeword(gp, msg), root) == zero
    {
      CodewordIsMultiple(gp, msg, root);
      MulZero(Eval(Feedbacks(gp, msg, |msg|), root));
    }

    // ----- the encoder loop -----

    /** Shifts one symbol into the register, from the top cell down, in place. */
    method ShiftIn(gp: seq<S>, lf: array<S>, m: S)
      requires lf.Length == |gp| > 0
      modifies lf
      ensures lf[..] == Shifted(gp, old(lf[..]), m)
    {
      var fb := add(m, lf[lf.Length - 1]);
      ghost var before := lf[..];
      var j := lf.Length - 1;
      while j > 0
        invariant 0 <= j < lf.Length
        invariant forall i :: 0 <= i <= j ==> lf[i] == before[i]
        invariant forall i :: j < i < lf.Length ==> lf[i] == Shifted(gp, before, m)[i]
      {
        lf[j] := add(lf[j - 1], mul(fb, gp[j]));
        j := j - 1;
      }
      lf[0] := mul(fb, gp[0]);
    }

    /** Runs a whole message through a cleared register. */
    method Encode(gp: seq<S>, msg: array<S>, lf: array<S>)
      requires lf.Length == |gp| > 0 && lf != msg
      modifies lf
      ensures lf[..] == Register(gp, msg[..], msg.Length)
    {
      for i := 0 to lf.Length
        invariant forall j :: 0 <= j < i ==> lf[j] == zero
      {
        lf[i] := zero;
      }
      assert lf[..] == Zeros(|gp|);
      for i := 0 to msg.Length
        invariant msg[..] == old(msg[..])
        invariant lf[..] == Register(gp, msg[..], i)
      {
        ShiftIn(gp, lf, msg[i]);
      }
    }
  }

  function Reversed<S>(a: seq<S>): (s: seq<S>)
    ensures |s| == |a|
  {
    seq(|a|, i requires 0 <= i < |a| => a[|a| - 1 - i])
  }

  /** Where two words of equal length differ. */
  ghost function Differing<S(!new)>(a: seq<S>, b: seq<S>): (ps: set<nat>)
    requires |a| == |b|
  {
    set p: nat | p < |a| && a[p] != b[p]
  }
}
