/** Moving the secret of one sharing while chosen shares stay as they are. */
module SecretShift {
  import opened Sequences
  import opened GF256
  import opened Polynomials
  import opened Sharing

  // ----- adding a multiple of a polynomial -----

  /** f + d * p, by coefficient. */
  function Shifted(f: seq<Byte>, p: seq<Byte>, d: Byte): (g: seq<Byte>)
    requires |f| == |p|
    ensures |g| == |f|
  {
    seq(|f|, i requires 0 <= i < |f| => Add(f[i], Mul(d, p[i])))
  }

  /** (a + d b) x + (e + d g) == (a x + e) + d (b x + g) */
  lemma ShiftStep(a: Byte, b: Byte, d: Byte, x: Byte, e: Byte, g: Byte)
    ensures Add(Mul(Add(a, Mul(d, b)), x), Add(e, Mul(d, g))) == Add(Add(Mul(a, x), e), Mul(d, Add(Mul(b, x), g)))
  {
    hide *;
    MulDistributes(a, Mul(d, b), x);
    MulAssoc(d, b, x);
    AddInterchange(Mul(a, x), Mul(d, Mul(b, x)), e, Mul(d, g));
    MulDistributes(d, Mul(b, x), g);
  }

  lemma {:induction false} EvalShifted(f: seq<Byte>, p: seq<Byte>, d: Byte, x: Byte)
    requires |f| == |p|
    ensures Eval(Shifted(f, p, d), x) == Add(Eval(f, x), Mul(d, Eval(p, x)))
  {
    hide Mul, Add;
    if f == [] {
      MulZero(d);
      AddZero(ZERO);
    } else {
      assert Shifted(f, p, d)[1..] == Shifted(f[1..], p[1..], d);
      EvalShifted(f[1..], p[1..], d, x);
      ShiftStep(Eval(f[1..], x), Eval(p[1..], x), d, x, f[0], p[0]);
    }
  }

  lemma AddTwice(a: Byte, b: Byte)
    ensures Add(Add(a, b), b) == a
  {
    hide *;
    AddAssoc(a, b, b);
    AddSelf(b);
    AddZero(a);
  }

  lemma ShiftedTwice(f: seq<Byte>, p: seq<Byte>, d: Byte)
    requires |f| == |p|
    ensures Shifted(Shifted(f, p, d), p, d) == f
  {
    hide Mul, Add;
    forall i | 0 <= i < |f| ensures Shifted(Shifted(f, p, d), p, d)[i] == f[i] {
      AddTwice(f[i], Mul(d, p[i]));
    }
  }

  // ----- a polynomial that is one at zero and zero at given coordinates -----

  predicate Maskable(xs: seq<Byte>) { Distinct(xs) && ZERO !in xs }

  function Zeros(n: nat): seq<Byte> { seq(n, _ => ZERO) }

  function Mask(xs: seq<Byte>): (p: seq<Byte>)
    ensures |p| == |xs| + 1
  {
    Interpolant([ZERO] + xs, [ONE] + Zeros(|xs|))
  }

  lemma MaskValues(xs: seq<Byte>)
    requires Maskable(xs)
    ensures Mask(xs)[0] == ONE
    ensures forall i :: 0 <= i < |xs| ==> Eval(Mask(xs), xs[i]) == ZERO
  {
    hide Eval, Interpolant, Distinct;
    var p := Mask(xs);
    DistinctCons(ZERO, xs);
    UniqueInterpolant(p, [ZERO] + xs, [ONE] + Zeros(|xs|));
    ThroughCons(p, xs, Zeros(|xs|), ONE);
    EvalAtZero(p);
  }

  // ----- moving the secret of a table -----

  function Difference(secret: Secret, secret': Secret, b: nat): Byte
    requires b < 32
  {
    Add(secret[b], secret'[b])
  }

  /** The coefficients of byte b after the secret moved along `mask`. */
  function ShiftRow(secret: Secret, secret': Secret, table: Table, mask: seq<Byte>, b: nat): (row: seq<Byte>)
    requires b < 32 == |table| && |mask| == |table[b]| + 1
    ensures |row| == |table[b]|
  {
    Shifted([secret[b]] + table[b], mask, Difference(secret, secret', b))[1..]
  }

  function ShiftTable(secret: Secret, secret': Secret, table: Table, mask: seq<Byte>): (t: Table)
    requires mask != [] && TableOf(table, |mask|)
    ensures TableOf(t, |mask|)
  {
    seq(32, b requires 0 <= b < 32 => ShiftRow(secret, secret', table, mask, b))
  }

  /** The polynomial of byte b moves by a multiple of the mask and has the new secret at zero. */
  lemma RowPolynomial(secret: Secret, secret': Secret, table: Table, mask: seq<Byte>, b: nat)
    requires b < 32 && mask != [] && mask[0] == ONE && TableOf(table, |mask|)
    ensures [secret'[b]] + ShiftTable(secret, secret', table, mask)[b]
         == Shifted([secret[b]] + table[b], mask, Difference(secret, secret', b))
  {
    hide Mul, Add;
    var g := Shifted([secret[b]] + table[b], mask, Difference(secret, secret', b));
    MulOne(Difference(secret, secret', b));
    AddCancel(secret[b], secret'[b]);
    assert g[0] == secret'[b];
    assert g == [g[0]] + g[1..];
  }

  /** A share at a coordinate where the mask vanishes does not change. */
  lemma ShareStays(secret: Secret, secret': Secret, table: Table, mask: seq<Byte>, x: Byte)
    requires mask != [] && mask[0] == ONE && TableOf(table, |mask|) && Eval(mask, x) == ZERO
    ensures ShareValue(secret', ShiftTable(secret, secret', table, mask), x) == ShareValue(secret, table, x)
  {
    hide Eval, Mul, Add, ShiftTable;
    forall b | 0 <= b < 32
      ensures ShareValue(secret', ShiftTable(secret, secret', table, mask), x)[b] == ShareValue(secret, table, x)[b]
    {
      RowPolynomial(secret, secret', table, mask, b);
      EvalShifted([secret[b]] + table[b], mask, Difference(secret, secret', b), x);
      MulZero(Difference(secret, secret', b));
      AddZero(Eval([secret[b]] + table[b], x));
    }
  }

  /** Moving the secret back restores the table. */
  lemma ShiftTableBack(secret: Secret, secret': Secret, table: Table, mask: seq<Byte>)
    requires mask != [] && mask[0] == ONE && TableOf(table, |mask|)
    ensures ShiftTable(secret', secret, ShiftTable(secret, secret', table, mask), mask) == table
  {
    hide Mul, Add, Shifted;
    var moved := ShiftTable(secret, secret', table, mask);
    forall b | 0 <= b < 32 ensures ShiftTable(secret', secret, moved, mask)[b] == table[b] {
      RowPolynomial(secret, secret', table, mask, b);
      AddComm(secret[b], secret'[b]);
      ShiftedTwice([secret[b]] + table[b], mask, Difference(secret, secret', b));
    }
  }
}
