/** Polynomials over GF(256) as coefficient sequences, constant term first. */
module Polynomials {
  import opened Sequences
  import opened GF256

  function Eval(f: seq<Byte>, x: Byte): Byte {
    if f == [] then ZERO else Add(Mul(Eval(f[1..], x), x), f[0])
  }

  /** Horner evaluation of the polynomial with constant term `secret`. */
  method Evaluate(secret: Byte, coefficients: seq<Byte>, x: Byte) returns (result: Byte)
    ensures result == Eval([secret] + coefficients, x)
  {
    hide Mul, Add;
    var remaining := |coefficients|;
    var value := ZERO;
    while remaining > 0
      invariant 0 <= remaining <= |coefficients|
      invariant value == Eval(coefficients[remaining..], x)
    {
      remaining := remaining - 1;
      assert coefficients[remaining..][1..] == coefficients[remaining + 1..];
      value := Add(Mul(value, x), coefficients[remaining]);
    }
    assert coefficients[0..] == coefficients;
    assert ([secret] + coefficients)[1..] == coefficients;
    result := Add(Mul(value, x), secret);
  }

  // ----- division by x - c -----

  /** Synthetic division: the quotient by (x - c). */
  function Quotient(f: seq<Byte>, c: Byte): (q: seq<Byte>)
    ensures |q| == if f == [] then 0 else |f| - 1
  {
    if |f| <= 1 then [] else [Eval(f[1..], c)] + Quotient(f[1..], c)
  }

  /** (x - c) * q + r, written as a coefficient sequence. */
  function Combine(q: seq<Byte>, c: Byte, r: Byte): (f: seq<Byte>)
    ensures |f| == |q| + 1
  {
    if q == [] then [r] else [Add(Mul(q[0], c), r)] + Combine(q[1..], c, q[0])
  }

  lemma {:induction false} CombineQuotient(f: seq<Byte>, c: Byte)
    requires f != []
    ensures Combine(Quotient(f, c), c, Eval(f, c)) == f
  {
    hide Mul, Add;
    if |f| == 1 {
      MulZero(c);
      AddZero(f[0]);
      assert f == [f[0]];
    } else {
      var g := f[1..];
      CombineQuotient(g, c);
      var q := Quotient(f, c);
      assert q[1..] == Quotient(g, c);
      var v := Mul(Eval(g, c), c);
      AddCancel(v, f[0]);
      assert f == [f[0]] + g;
    }
  }

  lemma {:induction false} QuotientCombine(q: seq<Byte>, c: Byte, r: Byte)
    ensures Quotient(Combine(q, c, r), c) == q
    ensures Eval(Combine(q, c, r), c) == r
  {
    hide Mul, Add;
    var f := Combine(q, c, r);
    if q == [] {
      MulZero(c);
      AddZero(r);
      assert f[1..] == [];
    } else {
      QuotientCombine(q[1..], c, q[0]);
      assert f[1..] == Combine(q[1..], c, q[0]);
      var v := Mul(q[0], c);
      AddCancel(v, r);
      assert q == [q[0]] + q[1..];
    }
  }

  /** f(x) == (x - c) * q(x) + r */
  lemma {:induction false} EvalCombine(q: seq<Byte>, c: Byte, r: Byte, x: Byte)
    ensures Eval(Combine(q, c, r), x) == Add(Mul(Add(x, c), Eval(q, x)), r)
  {
    hide Mul, Add;
    var f := Combine(q, c, r);
    if q == [] {
      assert f[1..] == [];
      MulZero(x);
      MulZero(Add(x, c));
    } else {
      var q0, q' := q[0], q[1..];
      EvalCombine(q', c, q0, x);
      assert f[1..] == Combine(q', c, q0);
      var d, e := Add(x, c), Eval(q', x);
      calc {
        Eval(f, x);
        Add(Mul(Add(Mul(d, e), q0), x), Add(Mul(q0, c), r));
        { MulDistributes(Mul(d, e), q0, x); }
        Add(Add(Mul(Mul(d, e), x), Mul(q0, x)), Add(Mul(q0, c), r));
        { MulAssoc(d, e, x); AddAssoc(Mul(d, Mul(e, x)), Mul(q0, x), Add(Mul(q0, c), r)); }
        Add(Mul(d, Mul(e, x)), Add(Mul(q0, x), Add(Mul(q0, c), r)));
        { AddAssoc(Mul(q0, x), Mul(q0, c), r); MulDistributes(q0, x, c); MulComm(q0, d); }
        Add(Mul(d, Mul(e, x)), Add(Mul(d, q0), r));
        { AddAssoc(Mul(d, Mul(e, x)), Mul(d, q0), r); MulDistributes(d, Mul(e, x), q0); }
        Add(Mul(d, Add(Mul(e, x), q0)), r);
        Add(Mul(d, Eval(q, x)), r);
      }
    }
  }

  // ----- interpolation -----

  /** `f` passes through every point. */
  predicate Through(f: seq<Byte>, xs: seq<Byte>, ys: seq<Byte>)
    requires |xs| == |ys|
  {
    forall i :: 0 <= i < |xs| ==> Eval(f, xs[i]) == ys[i]
  }

  /** The slope from (c, r) to (x, y). */
  function Slope(c: Byte, r: Byte, x: Byte, y: Byte): Byte {
    Mul(Add(y, r), Inverse(Add(x, c)))
  }

  lemma SlopeExact(c: Byte, r: Byte, x: Byte, y: Byte, v: Byte)
    requires x != c
    ensures Add(Mul(Add(x, c), v), r) == y <==> v == Slope(c, r, x, y)
  {
    hide Mul, Add, Inverse;
    var d := Add(x, c);
    AddCancel(x, c);
    MulInverse(d);
    var i := Inverse(d);
    if v == Slope(c, r, x, y) {
      MulComm(Add(y, r), i);
      MulAssoc(d, i, Add(y, r));
      MulOne(Add(y, r));
      AddAssoc(y, r, r);
      AddSelf(r);
      AddZero(y);
    }
    if Add(Mul(d, v), r) == y {
      AddAssoc(Mul(d, v), r, r);
      AddSelf(r);
      AddZero(Mul(d, v));
      MulComm(d, v);
      MulAssoc(v, d, i);
      MulOne(v);
    }
  }

  function Slopes(c: Byte, r: Byte, xs: seq<Byte>, ys: seq<Byte>): (zs: seq<Byte>)
    requires |xs| == |ys|
    ensures |zs| == |xs|
  {
    seq(|xs|, i requires 0 <= i < |xs| => Slope(c, r, xs[i], ys[i]))
  }

  /** Newton's form of the polynomial through all the points. */
  function Interpolant(xs: seq<Byte>, ys: seq<Byte>): (f: seq<Byte>)
    requires |xs| == |ys|
    ensures |f| == |xs|
    decreases |xs|
  {
    if xs == [] then []
    else Combine(Interpolant(xs[1..], Slopes(xs[0], ys[0], xs[1..], ys[1..])), xs[0], ys[0])
  }

  /** A polynomial passes through the points exactly when its first remainder is the first value
      and its quotient passes through the slopes. */
  lemma ThroughQuotient(f: seq<Byte>, xs: seq<Byte>, ys: seq<Byte>)
    requires |f| == |xs| == |ys| > 0 && Distinct(xs)
    ensures Through(f, xs, ys)
       <==> Eval(f, xs[0]) == ys[0]
            && Through(Quotient(f, xs[0]), xs[1..], Slopes(xs[0], ys[0], xs[1..], ys[1..]))
  {
    hide Mul, Add, Slope, Eval;
    var c := xs[0];
    var r := Eval(f, c);
    var q := Quotient(f, c);
    var xs', zs := xs[1..], Slopes(c, ys[0], xs[1..], ys[1..]);
    CombineQuotient(f, c);
    if r == ys[0] {
      forall i | 0 <= i < |xs'|
        ensures Eval(f, xs[i + 1]) == ys[i + 1] <==> Eval(q, xs'[i]) == zs[i]
      {
        EvalCombine(q, c, r, xs'[i]);
        SlopeExact(c, r, xs'[i], ys[i + 1], Eval(q, xs'[i]));
      }
      if Through(q, xs', zs) {
        forall i | 0 <= i < |xs| ensures Eval(f, xs[i]) == ys[i] {
          if i > 0 {
            assert Eval(q, xs'[i - 1]) == zs[i - 1];
          }
        }
      }
    }
  }

  /** Exactly one polynomial of length n passes through n points with distinct coordinates. */
  lemma {:induction false} UniqueInterpolant(f: seq<Byte>, xs: seq<Byte>, ys: seq<Byte>)
    requires |f| == |xs| == |ys| && Distinct(xs)
    ensures Through(f, xs, ys) <==> f == Interpolant(xs, ys)
    decreases |xs|
  {
    hide Mul, Add, Eval, Slope;
    if xs != [] {
      var c := xs[0];
      var q := Quotient(f, c);
      var zs := Slopes(c, ys[0], xs[1..], ys[1..]);
      var g := Interpolant(xs[1..], zs);
      ThroughQuotient(f, xs, ys);
      UniqueInterpolant(q, xs[1..], zs);
      CombineQuotient(f, c);
      QuotientCombine(g, c, ys[0]);
    }
  }

  /** Polynomials of one length that agree on that many points are the same coefficients. */
  lemma AgreeingPolynomials(f: seq<Byte>, g: seq<Byte>, xs: seq<Byte>)
    requires |f| == |g| == |xs| && Distinct(xs)
    requires forall i :: 0 <= i < |xs| ==> Eval(f, xs[i]) == Eval(g, xs[i])
    ensures f == g
  {
    hide Eval;
    var ys := seq(|xs|, i requires 0 <= i < |xs| => Eval(f, xs[i]));
    UniqueInterpolant(f, xs, ys);
    UniqueInterpolant(g, xs, ys);
  }

  /** Share independence, byte by byte: for any t - 1 coordinates other than zero and any bytes seen there,
      every candidate secret is explained by exactly one coefficient vector. */
  lemma SecretIndependence(xs: seq<Byte>, ys: seq<Byte>, secret: Byte, coefficients: seq<Byte>)
    requires |coefficients| == |xs| == |ys| && Distinct(xs) && ZERO !in xs
    ensures (forall i :: 0 <= i < |xs| ==> Eval([secret] + coefficients, xs[i]) == ys[i])
       <==> coefficients == Interpolant([ZERO] + xs, [secret] + ys)[1..]
  {
    hide Eval, Interpolant, Through, Distinct;
    var f, xs', ys' := [secret] + coefficients, [ZERO] + xs, [secret] + ys;
    var g := Interpolant(xs', ys');
    DistinctCons(ZERO, xs);
    UniqueInterpolant(f, xs', ys');
    UniqueInterpolant(g, xs', ys');
    EvalAtZero(f);
    EvalAtZero(g);
    ThroughCons(f, xs, ys, secret);
    ThroughCons(g, xs, ys, secret);
    assert g == [g[0]] + g[1..] && f[1..] == coefficients;
  }

  lemma DistinctCons(x: Byte, xs: seq<Byte>)
    requires Distinct(xs) && x !in xs
    ensures Distinct([x] + xs)
  {}

  lemma ThroughCons(f: seq<Byte>, xs: seq<Byte>, ys: seq<Byte>, secret: Byte)
    requires |xs| == |ys|
    ensures Through(f, [ZERO] + xs, [secret] + ys)
       <==> Eval(f, ZERO) == secret && forall i :: 0 <= i < |xs| ==> Eval(f, xs[i]) == ys[i]
  {
    hide Eval;
    var xs', ys' := [ZERO] + xs, [secret] + ys;
    if Through(f, xs', ys') {
      assert Eval(f, xs'[0]) == ys'[0];
      forall i | 0 <= i < |xs| ensures Eval(f, xs[i]) == ys[i] {
        assert Eval(f, xs'[i + 1]) == ys'[i + 1];
      }
    }
    if Eval(f, ZERO) == secret && forall i :: 0 <= i < |xs| ==> Eval(f, xs[i]) == ys[i] {
      forall i | 0 <= i < |xs'| ensures Eval(f, xs'[i]) == ys'[i] {
        if i > 0 {
          assert xs'[i] == xs[i - 1] && ys'[i] == ys[i - 1];
        }
      }
    }
  }

  lemma EvalAtZero(f: seq<Byte>)
    ensures f != [] ==> Eval(f, ZERO) == f[0]
  {
    hide Mul, Add;
    if f != [] {
      MulZero(Eval(f[1..], ZERO));
      AddZero(f[0]);
    }
  }
}
