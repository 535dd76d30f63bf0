/** Lagrange weights and the interpolation identity over GF(256). */
module Lagrange {
  import opened Sequences
  import opened GF256
  import opened Polynomials

  /** Product of (target - x_j) over the first `n` coordinates other than `selected`. */
  function Numerator(xs: seq<Byte>, target: Byte, selected: nat, n: nat): Byte
    requires n <= |xs|
    decreases n
  {
    if n == 0 then ONE
    else if n - 1 == selected then Numerator(xs, target, selected, n - 1)
    else Mul(Numerator(xs, target, selected, n - 1), Add(target, xs[n - 1]))
  }

  function Denominator(xs: seq<Byte>, selected: nat): Byte
    requires selected < |xs|
  {
    Numerator(xs, xs[selected], selected, |xs|)
  }

  function Weight(xs: seq<Byte>, target: Byte, selected: nat): Byte
    requires selected < |xs|
  {
    Mul(Numerator(xs, target, selected, |xs|), Inverse(Denominator(xs, selected)))
  }

  /** The two inner products and one inversion per coordinate, as the source runs them. */
  method Weights(indices: seq<Byte>, target: Byte) returns (result: seq<Byte>)
    ensures |result| == |indices|
    ensures forall i :: 0 <= i < |indices| ==> result[i] == Weight(indices, target, i)
  {
    hide Mul, Add, Inverse;
    result := [];
    var i := 0;
    while i < |indices|
      invariant 0 <= i <= |indices| && |result| == i
      invariant forall k :: 0 <= k < i ==> result[k] == Weight(indices, target, k)
    {
      var top, bottom := ONE, ONE;
      var j := 0;
      while j < |indices|
        invariant 0 <= j <= |indices|
        invariant top == Numerator(indices, target, i, j)
        invariant bottom == Numerator(indices, indices[i], i, j)
      {
        if i != j {
          top := Mul(top, Add(target, indices[j]));
          bottom := Mul(bottom, Add(indices[i], indices[j]));
        }
        j := j + 1;
      }
      result := result + [Mul(top, Inverse(bottom))];
      i := i + 1;
    }
  }

  function WeightedPrefix(values: seq<Byte>, weights: seq<Byte>, n: nat): Byte
    requires n <= |values| && n <= |weights|
    decreases n
  {
    if n == 0 then ZERO
    else Add(WeightedPrefix(values, weights, n - 1), Mul(values[n - 1], weights[n - 1]))
  }

  method WeightedSum(values: seq<Byte>, weights: seq<Byte>) returns (result: Byte)
    requires |values| == |weights|
    ensures result == WeightedPrefix(values, weights, |values|)
  {
    hide Mul, Add;
    result := ZERO;
    var i := 0;
    while i < |values|
      invariant 0 <= i <= |values|
      invariant result == WeightedPrefix(values, weights, i)
    {
      result := Add(result, Mul(values[i], weights[i]));
      i := i + 1;
    }
  }

  // ----- products of differences -----

  /** Product of (target - x_j) over all the first `n` coordinates. */
  function Product(xs: seq<Byte>, target: Byte, n: nat): Byte
    requires n <= |xs|
    decreases n
  {
    if n == 0 then ONE else Mul(Product(xs, target, n - 1), Add(target, xs[n - 1]))
  }

  lemma {:induction false} NumeratorProduct(xs: seq<Byte>, target: Byte, i: nat, n: nat)
    requires n <= |xs|
    ensures Product(xs, target, n)
         == if i < n then Mul(Numerator(xs, target, i, n), Add(target, xs[i])) else Numerator(xs, target, i, n)
    decreases n
  {
    hide Mul, Add;
    if n > 0 {
      NumeratorProduct(xs, target, i, n - 1);
      if i < n - 1 {
        MulSwap(Numerator(xs, target, i, n - 1), Add(target, xs[i]), Add(target, xs[n - 1]));
      }
    }
  }

  lemma {:induction false} NumeratorPrefix(xs: seq<Byte>, target: Byte, i: nat, n: nat, m: nat)
    requires n <= m <= |xs|
    ensures Numerator(xs, target, i, n) == Numerator(xs[..m], target, i, n)
    decreases n
  {
    hide Mul, Add;
    if n > 0 {
      NumeratorPrefix(xs, target, i, n - 1, m);
    }
  }

  lemma {:induction false} NumeratorNonzero(xs: seq<Byte>, target: Byte, i: nat, n: nat)
    requires n <= |xs|
    requires forall j :: 0 <= j < n && j != i ==> xs[j] != target
    ensures Numerator(xs, target, i, n) != ZERO
    decreases n
  {
    hide Mul, Add;
    if n > 0 {
      NumeratorNonzero(xs, target, i, n - 1);
      if i != n - 1 {
        AddCancel(target, xs[n - 1]);
        NoZeroDivisors(Numerator(xs, target, i, n - 1), Add(target, xs[n - 1]));
      }
    }
  }

  /** A weight times its denominator is its numerator, and nothing else is. */
  lemma WeightExact(xs: seq<Byte>, target: Byte, i: nat, w: Byte)
    requires i < |xs| && Distinct(xs)
    ensures Denominator(xs, i) != ZERO
    ensures Mul(w, Denominator(xs, i)) == Numerator(xs, target, i, |xs|) <==> w == Weight(xs, target, i)
  {
    hide Mul, Inverse, Numerator;
    NumeratorNonzero(xs, xs[i], i, |xs|);
    var d, top := Denominator(xs, i), Numerator(xs, target, i, |xs|);
    DivideExact(w, d, top);
  }

  lemma DivideExact(w: Byte, d: Byte, top: Byte)
    requires d != ZERO
    ensures Mul(w, d) == top <==> w == Mul(top, Inverse(d))
  {
    hide *;
    var i := Inverse(d);
    MulInverse(d);
    MulAssoc(w, d, i);
    MulOne(w);
    MulComm(d, i);
    MulAssoc(top, i, d);
    MulOne(top);
  }

  // ----- dropping the last coordinate -----

  lemma PrefixDistinct(xs: seq<Byte>, n: nat)
    requires Distinct(xs) && n <= |xs|
    ensures Distinct(xs[..n])
  {}

  /** W_i * (x_i - x_last) == (target - x_last) * W'_i, where W' drops the last coordinate. */
  lemma DropLast(xs: seq<Byte>, target: Byte, i: nat)
    requires Distinct(xs) && i < |xs| - 1
    ensures Mul(Weight(xs, target, i), Add(xs[i], xs[|xs| - 1]))
         == Mul(Add(target, xs[|xs| - 1]), Weight(xs[..|xs| - 1], target, i))
  {
    hide Mul, Add, Inverse, Weight;
    var l := |xs| - 1;
    var xs' := xs[..l];
    PrefixDistinct(xs, l);
    var w, w' := Weight(xs, target, i), Weight(xs', target, i);
    var d, d' := Denominator(xs, i), Denominator(xs', i);
    var u, v := Add(target, xs[l]), Add(xs[i], xs[l]);
    WeightExact(xs, target, i, w);
    WeightExact(xs', target, i, w');
    NumeratorPrefix(xs, target, i, l, l);
    NumeratorPrefix(xs, xs[i], i, l, l);
    assert d == Mul(d', v);
    calc {
      Mul(Mul(w, v), d');
      { MulAssoc(w, v, d'); MulComm(v, d'); }
      Mul(w, d);
      Numerator(xs, target, i, |xs|);
      Mul(Numerator(xs', target, i, l), u);
      Mul(Mul(w', d'), u);
      { MulSwap(w', d', u); MulComm(w', u); }
      Mul(Mul(u, w'), d');
    }
    MulComm(Mul(w, v), d');
    MulComm(Mul(u, w'), d');
    MulCancel(d', Mul(w, v), Mul(u, w'));
  }

  /** (x - x_i) * W'_i(x) * den'_i == product of all (x - x_j). */
  lemma WeightProduct(xs: seq<Byte>, x: Byte, i: nat)
    requires Distinct(xs) && i < |xs|
    ensures Mul(Mul(Weight(xs, x, i), Denominator(xs, i)), Add(x, xs[i])) == Product(xs, x, |xs|)
  {
    hide Mul, Add, Inverse, Weight, Numerator;
    WeightExact(xs, x, i, Weight(xs, x, i));
    NumeratorProduct(xs, x, i, |xs|);
  }

  lemma {:induction false} ProductPrefix(xs: seq<Byte>, x: Byte, n: nat, m: nat)
    requires n <= m <= |xs|
    ensures Product(xs, x, n) == Product(xs[..m], x, n)
    decreases n
  {
    hide Mul, Add;
    if n > 0 {
      ProductPrefix(xs, x, n - 1, m);
    }
  }

  /** The weight of the last coordinate: W_last(x) * Product'(x_last) == Product'(x). */
  lemma LastWeight(xs: seq<Byte>, x: Byte)
    requires Distinct(xs) && xs != []
    ensures var l := |xs| - 1;
            && Product(xs[..l], xs[l], l) != ZERO
            && Mul(Weight(xs, x, l), Product(xs[..l], xs[l], l)) == Product(xs[..l], x, l)
  {
    hide Mul, Add, Inverse, Weight;
    var l := |xs| - 1;
    WeightExact(xs, x, l, Weight(xs, x, l));
    NumeratorProduct(xs, x, l, l);
    NumeratorProduct(xs, xs[l], l, l);
    ProductPrefix(xs, x, l, l);
    ProductPrefix(xs, xs[l], l, l);
  }

  /** (x - x_i) W'_i(x) == (x_last - x_i) W'_i(x_last) W_last(x) */
  lemma WeightAtLast(xs: seq<Byte>, x: Byte, i: nat)
    requires Distinct(xs) && i < |xs| - 1
    ensures var l := |xs| - 1;
            Mul(Add(x, xs[i]), Weight(xs[..l], x, i))
            == Mul(Mul(Add(xs[l], xs[i]), Weight(xs[..l], xs[l], i)), Weight(xs, x, l))
  {
    hide Mul, Add, Inverse, Weight, Product, Denominator;
    var l := |xs| - 1;
    var xs' := xs[..l];
    PrefixDistinct(xs, l);
    var d, pl, px := Denominator(xs', i), Product(xs', xs[l], l), Product(xs', x, l);
    var a, b := Mul(Add(x, xs[i]), Weight(xs', x, i)), Mul(Add(xs[l], xs[i]), Weight(xs', xs[l], i));
    var w := Weight(xs, x, l);
    WeightExact(xs', x, i, ZERO);
    LastWeight(xs, x);
    assert Mul(a, d) == px by {
      WeightProduct(xs', x, i);
      MulSwap(Weight(xs', x, i), d, Add(x, xs[i]));
      MulComm(Weight(xs', x, i), Add(x, xs[i]));
    }
    assert Mul(b, d) == pl by {
      WeightProduct(xs', xs[l], i);
      MulSwap(Weight(xs', xs[l], i), d, Add(xs[l], xs[i]));
      MulComm(Weight(xs', xs[l], i), Add(xs[l], xs[i]));
    }
    assert Mul(Mul(b, w), d) == px by {
      MulSwap(b, w, d);
      MulComm(pl, w);
    }
    MulComm(a, d);
    MulComm(Mul(b, w), d);
    MulCancel(d, a, Mul(b, w));
  }

  /** W_i(x) == W'_i(x) + W'_i(x_last) W_last(x) */
  lemma NewtonStep(xs: seq<Byte>, x: Byte, i: nat)
    requires Distinct(xs) && i < |xs| - 1
    ensures var l := |xs| - 1;
            Weight(xs, x, i) == Add(Weight(xs[..l], x, i), Mul(Weight(xs[..l], xs[l], i), Weight(xs, x, l)))
  {
    hide Mul, Add, Inverse, Weight;
    var l := |xs| - 1;
    var w, w', wl, m := Weight(xs, x, i), Weight(xs[..l], x, i), Weight(xs[..l], xs[l], i), Weight(xs, x, l);
    var v := Add(xs[l], xs[i]);
    calc {
      Mul(v, w);
      { AddComm(xs[l], xs[i]); MulComm(v, w); DropLast(xs, x, i); }
      Mul(Add(x, xs[l]), w');
      { AddThrough(x, xs[l], xs[i]); }
      Mul(Add(v, Add(x, xs[i])), w');
      { MulDistributes(v, Add(x, xs[i]), w'); WeightAtLast(xs, x, i); }
      Add(Mul(v, w'), Mul(Mul(v, wl), m));
      { MulAssoc(v, wl, m); MulDistributes(v, w', Mul(wl, m)); }
      Mul(v, Add(w', Mul(wl, m)));
    }
    AddCancel(xs[l], xs[i]);
    MulCancel(v, w, Add(w', Mul(wl, m)));
  }

  lemma AddThrough(x: Byte, y: Byte, z: Byte)
    ensures Add(x, y) == Add(Add(y, z), Add(x, z))
  {
    hide Add;
    AddComm(y, z);
    AddComm(x, z);
    AddInterchange(z, y, z, x);
    AddSelf(z);
    AddZero(Add(y, x));
    AddComm(x, y);
  }

  // ----- the interpolation identity -----

  /** Sum of value_i * W_i(x) over the first `n` of the coordinates. */
  function Interpolated(xs: seq<Byte>, ys: seq<Byte>, x: Byte, n: nat): Byte
    requires n <= |xs| && n <= |ys|
    decreases n
  {
    if n == 0 then ZERO else Add(Interpolated(xs, ys, x, n - 1), Mul(ys[n - 1], Weight(xs, x, n - 1)))
  }

  lemma {:induction false} WeightedPrefixIsInterpolated(xs: seq<Byte>, ys: seq<Byte>, ws: seq<Byte>, x: Byte, n: nat)
    requires n <= |xs| == |ys| == |ws|
    requires forall i :: 0 <= i < |xs| ==> ws[i] == Weight(xs, x, i)
    ensures WeightedPrefix(ys, ws, n) == Interpolated(xs, ys, x, n)
    decreases n
  {
    hide Mul, Add, Weight;
    if n > 0 {
      WeightedPrefixIsInterpolated(xs, ys, ws, x, n - 1);
    }
  }

  function Ones(n: nat): (ones: seq<Byte>)
    ensures |ones| == n
  {
    seq(n, _ => ONE)
  }

  /** Dropping the last coordinate from the first `n` terms of the sum. */
  lemma {:induction false} PartialNewton(xs: seq<Byte>, ys: seq<Byte>, x: Byte, n: nat)
    requires Distinct(xs) && |xs| == |ys| && n < |xs|
    ensures var l := |xs| - 1;
            Interpolated(xs, ys, x, n)
            == Add(Interpolated(xs[..l], ys[..l], x, n),
                   Mul(Interpolated(xs[..l], ys[..l], xs[l], n), Weight(xs, x, l)))
    decreases n
  {
    hide Mul, Add, Weight;
    var l := |xs| - 1;
    var m := Weight(xs, x, l);
    if n == 0 {
      MulZero(m);
      AddZero(ZERO);
    } else {
      PartialNewton(xs, ys, x, n - 1);
      NewtonStep(xs, x, n - 1);
      var y := ys[n - 1];
      var w', wl := Weight(xs[..l], x, n - 1), Weight(xs[..l], xs[l], n - 1);
      var s, t := Interpolated(xs[..l], ys[..l], x, n - 1), Interpolated(xs[..l], ys[..l], xs[l], n - 1);
      calc {
        Interpolated(xs, ys, x, n);
        Add(Add(s, Mul(t, m)), Mul(y, Add(w', Mul(wl, m))));
        { MulDistributes(y, w', Mul(wl, m)); MulAssoc(y, wl, m); }
        Add(Add(s, Mul(t, m)), Add(Mul(y, w'), Mul(Mul(y, wl), m)));
        { AddInterchange(s, Mul(t, m), Mul(y, w'), Mul(Mul(y, wl), m)); }
        Add(Add(s, Mul(y, w')), Add(Mul(t, m), Mul(Mul(y, wl), m)));
        { MulDistributes(t, Mul(y, wl), m); }
        Add(Add(s, Mul(y, w')), Mul(Add(t, Mul(y, wl)), m));
      }
    }
  }

  /** The weights at any target sum to one. */
  lemma {:induction false} PartitionOfUnity(xs: seq<Byte>, x: Byte)
    requires Distinct(xs) && xs != []
    ensures Interpolated(xs, Ones(|xs|), x, |xs|) == ONE
    decreases |xs|
  {
    hide Mul, Add, Weight;
    var l := |xs| - 1;
    var m := Weight(xs, x, l);
    PartialNewton(xs, Ones(|xs|), x, l);
    assert Ones(|xs|)[..l] == Ones(l);
    MulOne(m);
    if l == 0 {
      SingleWeight(xs, x);
      MulZero(m);
      AddZero(ZERO);
      AddZero(ONE);
    } else {
      PrefixDistinct(xs, l);
      PartitionOfUnity(xs[..l], x);
      PartitionOfUnity(xs[..l], xs[l]);
      AddAssoc(ONE, m, m);
      AddSelf(m);
      AddZero(ONE);
    }
  }

  lemma SingleWeight(xs: seq<Byte>, x: Byte)
    requires |xs| == 1
    ensures Weight(xs, x, 0) == ONE
  {
    hide Mul, Add, Inverse;
    LastWeight(xs, x);
    MulOne(Weight(xs, x, 0));
  }

  /** Splitting f as r + (x - x_last) q inside the sum. */
  lemma {:induction false} PartialDivide(xs: seq<Byte>, ys: seq<Byte>, zs: seq<Byte>, r: Byte, x: Byte, n: nat)
    requires Distinct(xs) && |ys| == |xs| && |zs| == |xs| - 1 && n <= |zs|
    requires forall i :: 0 <= i < |zs| ==> ys[i] == Add(Mul(Add(xs[i], xs[|xs| - 1]), zs[i]), r)
    ensures var l := |xs| - 1;
            Interpolated(xs, ys, x, n)
            == Add(Mul(Add(x, xs[l]), Interpolated(xs[..l], zs, x, n)), Mul(r, Interpolated(xs, Ones(|xs|), x, n)))
    decreases n
  {
    hide Mul, Add, Weight;
    var l := |xs| - 1;
    var u := Add(x, xs[l]);
    if n == 0 {
      MulZero(u);
      MulZero(r);
      AddZero(ZERO);
    } else {
      var i := n - 1;
      PartialDivide(xs, ys, zs, r, x, i);
      var z, v, w, w' := zs[i], Add(xs[i], xs[l]), Weight(xs, x, i), Weight(xs[..l], x, i);
      var s, o := Interpolated(xs[..l], zs, x, i), Interpolated(xs, Ones(|xs|), x, i);
      assert Mul(ys[i], w) == Add(Mul(u, Mul(z, w')), Mul(r, w)) by {
        MulDistributes(Mul(v, z), r, w);
        MulSwap(v, z, w);
        MulComm(v, w);
        DropLast(xs, x, i);
        MulAssoc(u, w', z);
        MulComm(w', z);
      }
      MulOne(w);
      calc {
        Interpolated(xs, ys, x, n);
        Add(Add(Mul(u, s), Mul(r, o)), Add(Mul(u, Mul(z, w')), Mul(r, w)));
        { AddInterchange(Mul(u, s), Mul(r, o), Mul(u, Mul(z, w')), Mul(r, w)); }
        Add(Add(Mul(u, s), Mul(u, Mul(z, w'))), Add(Mul(r, o), Mul(r, w)));
        { MulDistributes(u, s, Mul(z, w')); MulDistributes(r, o, w); }
        Add(Mul(u, Add(s, Mul(z, w'))), Mul(r, Add(o, w)));
      }
    }
  }

  /** General interpolation: from any n points with distinct coordinates on a polynomial of length n,
      the weighted sum gives the polynomial's value at every target. */
  lemma {:induction false} Interpolation(f: seq<Byte>, xs: seq<Byte>, ys: seq<Byte>, x: Byte)
    requires |f| == |xs| == |ys| && Distinct(xs) && Through(f, xs, ys)
    ensures Interpolated(xs, ys, x, |xs|) == Eval(f, x)
    decreases |xs|
  {
    hide Mul, Add, Weight, Eval;
    if xs == [] {
      assert f == [];
      EvalEmpty(x);
    } else {
      var l := |xs| - 1;
      var c := xs[l];
      var r, q := Eval(f, c), Quotient(f, c);
      var zs := seq(l, i requires 0 <= i < l => Eval(q, xs[i]));
      CombineQuotient(f, c);
      forall i | 0 <= i < l ensures ys[i] == Add(Mul(Add(xs[i], c), zs[i]), r) {
        EvalCombine(q, c, r, xs[i]);
      }
      EvalCombine(q, c, r, x);
      PrefixDistinct(xs, l);
      Interpolation(q, xs[..l], zs, x);
      PartialDivide(xs, ys, zs, r, x, l);
      PartitionOfUnity(xs, x);
      var u, e, o, w := Add(x, c), Eval(q, x), Interpolated(xs, Ones(|xs|), x, l), Weight(xs, x, l);
      assert ys[l] == r;
      MulOne(w);
      calc {
        Interpolated(xs, ys, x, |xs|);
        Add(Add(Mul(u, e), Mul(r, o)), Mul(r, w));
        { AddAssoc(Mul(u, e), Mul(r, o), Mul(r, w)); MulDistributes(r, o, w); }
        Add(Mul(u, e), Mul(r, Add(o, w)));
        { MulOne(r); }
        Add(Mul(u, e), r);
        Eval(f, x);
      }
    }
  }

  lemma EvalEmpty(x: Byte)
    ensures Eval([], x) == ZERO
  {}
}
