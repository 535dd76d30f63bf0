/** Arithmetic in GF(2^8), polynomial basis modulo x^8 + x^4 + x^3 + x + 1 (0x11b). */
module GF256 {
  /** A field element. The constructor keeps bit-level facts out of the algebra built on top. */
  datatype Byte = Byte(bits: bv8)

  const ZERO := Byte(0)
  const ONE := Byte(1)

  /** Field addition, and subtraction: exclusive or. */
  function Add(a: Byte, b: Byte): Byte { Byte(a.bits ^ b.bits) }

  /** Multiplication by x: shift, then a masked reduction by 0x1b. */
  function Xtime(a: Byte): Byte {
    var reduce := 0 - (a.bits >> 7);
    Byte((a.bits << 1) ^ (0x1b & reduce))
  }

  /** `a` when the low bit of `b` is set, otherwise zero. */
  function Masked(a: Byte, b: Byte): Byte {
    var mask := 0 - (b.bits & 1);
    Byte(a.bits & mask)
  }

  function Shift(b: Byte, n: nat): Byte
    requires n <= 8
  {
    Byte(b.bits >> n)
  }

  /** Eight fixed masked rounds. */
  function Mul(a: Byte, b: Byte): Byte {
    var a1 := Xtime(a);
    var a2 := Xtime(a1);
    var a3 := Xtime(a2);
    var a4 := Xtime(a3);
    var a5 := Xtime(a4);
    var a6 := Xtime(a5);
    var a7 := Xtime(a6);
    var p0 := Masked(a, b);
    var p1 := Masked(a1, Shift(b, 1));
    var p2 := Masked(a2, Shift(b, 2));
    var p3 := Masked(a3, Shift(b, 3));
    var p4 := Masked(a4, Shift(b, 4));
    var p5 := Masked(a5, Shift(b, 5));
    var p6 := Masked(a6, Shift(b, 6));
    var p7 := Masked(a7, Shift(b, 7));
    Add(Add(Add(Add(Add(Add(Add(p0, p1), p2), p3), p4), p5), p6), p7)
  }

  /** a^254, by the fixed exponent chain; zero for zero. */
  function Inverse(a: Byte): Byte {
    var a2 := Mul(a, a);
    var a4 := Mul(a2, a2);
    var a8 := Mul(a4, a4);
    var a16 := Mul(a8, a8);
    var a32 := Mul(a16, a16);
    var a64 := Mul(a32, a32);
    var a128 := Mul(a64, a64);
    Mul(Mul(Mul(a2, a4), Mul(a8, a16)), Mul(a32, Mul(a64, a128)))
  }

  // ----- bit-level facts -----

  lemma AddAssoc(a: Byte, b: Byte, c: Byte)
    ensures Add(Add(a, b), c) == Add(a, Add(b, c))
  {}

  lemma AddComm(a: Byte, b: Byte)
    ensures Add(a, b) == Add(b, a)
  {}

  lemma AddZero(a: Byte)
    ensures Add(a, ZERO) == a && Add(ZERO, a) == a
  {}

  lemma AddSelf(a: Byte)
    ensures Add(a, a) == ZERO
  {}

  lemma AddInterchange(a: Byte, b: Byte, c: Byte, d: Byte)
    ensures Add(Add(a, b), Add(c, d)) == Add(Add(a, c), Add(b, d))
  {}

  /** Adding the same element twice changes nothing; so addition cancels. */
  lemma AddCancel(a: Byte, b: Byte)
    ensures Add(a, Add(a, b)) == b
    ensures Add(a, b) == ZERO <==> a == b
  {}

  lemma XtimeLinear(a: Byte, b: Byte)
    ensures Xtime(Add(a, b)) == Add(Xtime(a), Xtime(b))
  {}

  lemma MaskedBit(a: Byte, b: Byte)
    ensures Masked(a, b) == if b.bits & 1 == 1 then a else ZERO
  {}

  lemma MaskedLinearLeft(a: Byte, b: Byte, c: Byte)
    ensures Masked(Add(a, b), c) == Add(Masked(a, c), Masked(b, c))
  {
    hide Masked;
    MaskedBit(a, c);
    MaskedBit(b, c);
    MaskedBit(Add(a, b), c);
  }

  lemma MaskedLinearRight(a: Byte, b: Byte, c: Byte)
    ensures Masked(a, Add(b, c)) == Add(Masked(a, b), Masked(a, c))
  {}

  lemma MaskedXtime(a: Byte, b: Byte)
    ensures Masked(Xtime(a), b) == Xtime(Masked(a, b))
  {
    hide Masked;
    MaskedBit(a, b);
    MaskedBit(Xtime(a), b);
  }

  lemma MaskedUnit(a: Byte)
    ensures Masked(ZERO, a) == ZERO && Masked(a, ZERO) == ZERO && Masked(a, ONE) == a
  {}

  lemma ShiftLinear(a: Byte, b: Byte)
    ensures Shift(Add(a, b), 1) == Add(Shift(a, 1), Shift(b, 1))
    ensures Shift(ZERO, 1) == ZERO
    ensures Shift(ONE, 1) == ZERO
    ensures Xtime(ZERO) == ZERO
  {}

  lemma ShiftByOne(b: Byte)
    ensures Shift(b, 2) == Shift(Shift(b, 1), 1)
    ensures Shift(b, 3) == Shift(Shift(b, 2), 1)
    ensures Shift(b, 4) == Shift(Shift(b, 3), 1)
    ensures Shift(b, 5) == Shift(Shift(b, 4), 1)
    ensures Shift(b, 6) == Shift(Shift(b, 5), 1)
    ensures Shift(b, 7) == Shift(Shift(b, 6), 1)
    ensures Shift(Shift(b, 7), 1) == ZERO
  {}

  // ----- the product as a recursion over the bits of the multiplier -----

  function Rounds(a: Byte, b: Byte, n: nat): Byte
    decreases n
  {
    if n == 0 then ZERO else Add(Masked(a, b), Rounds(Xtime(a), Shift(b, 1), n - 1))
  }

  lemma MulIsRounds(a: Byte, b: Byte)
    ensures Mul(a, b) == Rounds(a, b, 8)
  {
    hide Xtime;
    hide Masked;
    hide Shift;
    hide Add;
    ShiftByOne(b);
    var a1 := Xtime(a);
    var a2 := Xtime(a1);
    var a3 := Xtime(a2);
    var a4 := Xtime(a3);
    var a5 := Xtime(a4);
    var a6 := Xtime(a5);
    var a7 := Xtime(a6);
    var p0 := Masked(a, b);
    var p1 := Masked(a1, Shift(b, 1));
    var p2 := Masked(a2, Shift(b, 2));
    var p3 := Masked(a3, Shift(b, 3));
    var p4 := Masked(a4, Shift(b, 4));
    var p5 := Masked(a5, Shift(b, 5));
    var p6 := Masked(a6, Shift(b, 6));
    var p7 := Masked(a7, Shift(b, 7));
    var s1 := Add(p0, p1);
    var s2 := Add(s1, p2);
    var s3 := Add(s2, p3);
    var s4 := Add(s3, p4);
    var s5 := Add(s4, p5);
    var s6 := Add(s5, p6);
    calc {
      Rounds(a, b, 8);
      Add(p0, Rounds(a1, Shift(b, 1), 7));
      { AddAssoc(p0, p1, Rounds(a2, Shift(b, 2), 6)); }
      Add(s1, Rounds(a2, Shift(b, 2), 6));
      { AddAssoc(s1, p2, Rounds(a3, Shift(b, 3), 5)); }
      Add(s2, Rounds(a3, Shift(b, 3), 5));
      { AddAssoc(s2, p3, Rounds(a4, Shift(b, 4), 4)); }
      Add(s3, Rounds(a4, Shift(b, 4), 4));
      { AddAssoc(s3, p4, Rounds(a5, Shift(b, 5), 3)); }
      Add(s4, Rounds(a5, Shift(b, 5), 3));
      { AddAssoc(s4, p5, Rounds(a6, Shift(b, 6), 2)); }
      Add(s5, Rounds(a6, Shift(b, 6), 2));
      { AddAssoc(s5, p6, Rounds(a7, Shift(b, 7), 1)); }
      Add(s6, Rounds(a7, Shift(b, 7), 1));
      { AddZero(p7); }
      Add(s6, p7);
    }
  }

  lemma {:induction false} RoundsRightLinear(a: Byte, b: Byte, c: Byte, n: nat)
    ensures Rounds(a, Add(b, c), n) == Add(Rounds(a, b, n), Rounds(a, c, n))
    decreases n
  {
    hide Xtime, Masked, Shift, Add;
    if n == 0 {
      AddZero(ZERO);
    } else {
      ShiftLinear(b, c);
      MaskedLinearRight(a, b, c);
      RoundsRightLinear(Xtime(a), Shift(b, 1), Shift(c, 1), n - 1);
      AddInterchange(Masked(a, b), Masked(a, c),
                     Rounds(Xtime(a), Shift(b, 1), n - 1), Rounds(Xtime(a), Shift(c, 1), n - 1));
    }
  }

  lemma {:induction false} RoundsLeftLinear(a: Byte, b: Byte, c: Byte, n: nat)
    ensures Rounds(Add(a, b), c, n) == Add(Rounds(a, c, n), Rounds(b, c, n))
    decreases n
  {
    hide Xtime, Masked, Shift, Add;
    if n == 0 {
      AddZero(ZERO);
    } else {
      XtimeLinear(a, b);
      MaskedLinearLeft(a, b, c);
      RoundsLeftLinear(Xtime(a), Xtime(b), Shift(c, 1), n - 1);
      AddInterchange(Masked(a, c), Masked(b, c),
                     Rounds(Xtime(a), Shift(c, 1), n - 1), Rounds(Xtime(b), Shift(c, 1), n - 1));
    }
  }

  lemma {:induction false} RoundsXtime(a: Byte, b: Byte, n: nat)
    ensures Rounds(Xtime(a), b, n) == Xtime(Rounds(a, b, n))
    decreases n
  {
    hide Xtime, Masked, Shift, Add;
    ShiftLinear(ZERO, ZERO);
    if n > 0 {
      MaskedXtime(a, b);
      RoundsXtime(Xtime(a), Shift(b, 1), n - 1);
      XtimeLinear(Masked(a, b), Rounds(Xtime(a), Shift(b, 1), n - 1));
    }
  }

  lemma {:induction false} RoundsZeroRight(a: Byte, n: nat)
    ensures Rounds(a, ZERO, n) == ZERO
    decreases n
  {
    hide Xtime, Masked, Shift, Add;
    if n > 0 {
      ShiftLinear(ZERO, ZERO);
      MaskedUnit(a);
      RoundsZeroRight(Xtime(a), n - 1);
      AddZero(ZERO);
    }
  }

  // ----- the ring laws -----

  lemma MulDistributes(a: Byte, b: Byte, c: Byte)
    ensures Mul(a, Add(b, c)) == Add(Mul(a, b), Mul(a, c))
    ensures Mul(Add(a, b), c) == Add(Mul(a, c), Mul(b, c))
  {
    hide *;
    MulIsRounds(a, Add(b, c));
    MulIsRounds(a, b);
    MulIsRounds(a, c);
    MulIsRounds(b, c);
    MulIsRounds(Add(a, b), c);
    RoundsRightLinear(a, b, c, 8);
    RoundsLeftLinear(a, b, c, 8);
  }

  lemma MulXtimeLeft(a: Byte, b: Byte)
    ensures Mul(Xtime(a), b) == Xtime(Mul(a, b))
  {
    hide *;
    MulIsRounds(a, b);
    MulIsRounds(Xtime(a), b);
    RoundsXtime(a, b, 8);
  }

  lemma MulZero(a: Byte)
    ensures Mul(a, ZERO) == ZERO && Mul(ZERO, a) == ZERO
  {}

  lemma MulOneRight(a: Byte)
    ensures Mul(a, ONE) == a
  {
    hide Mul, Xtime, Masked, Shift, Add;
    MulIsRounds(a, ONE);
    MaskedUnit(a);
    ShiftLinear(ZERO, ZERO);
    RoundsZeroRight(Xtime(a), 7);
    AddZero(a);
  }

  /** `b` has no bit at position `n` or above. */
  predicate Bits(b: Byte, n: nat)
    decreases n
  {
    if n == 0 then b == ZERO else Bits(Shift(b, 1), n - 1)
  }

  lemma EightBits(b: Byte)
    ensures Bits(b, 8)
  {
    hide Shift;
    ShiftByOne(b);
    assert Bits(Shift(b, 7), 1);
    assert Bits(Shift(b, 5), 3);
    assert Bits(Shift(b, 3), 5);
    assert Bits(Shift(b, 1), 7);
  }

  /** Low bit plus x times the remaining bits. */
  lemma Horner(b: Byte)
    ensures b == Add(Masked(ONE, b), Xtime(Shift(b, 1)))
  {}

  lemma {:induction false} RoundsOne(b: Byte, n: nat)
    requires Bits(b, n)
    ensures Rounds(ONE, b, n) == b
    decreases n
  {
    hide Xtime, Masked, Shift, Add;
    if n > 0 {
      Horner(b);
      RoundsOne(Shift(b, 1), n - 1);
      RoundsXtime(ONE, Shift(b, 1), n - 1);
    }
  }

  lemma MulOne(a: Byte)
    ensures Mul(a, ONE) == a && Mul(ONE, a) == a
  {
    hide *;
    MulOneRight(a);
    MulIsRounds(ONE, a);
    EightBits(a);
    RoundsOne(a, 8);
  }

  /** A run of `n` rounds agrees with the full product when the multiplier has `n` bits. */
  lemma {:induction false} RoundsEnough(a: Byte, b: Byte, n: nat, m: nat)
    requires Bits(b, n) && n <= m
    ensures Rounds(a, b, m) == Rounds(a, b, n)
    decreases n
  {
    hide Xtime, Masked, Shift, Add;
    if n == 0 {
      RoundsZeroRight(a, m);
    } else {
      RoundsEnough(Xtime(a), Shift(b, 1), n - 1, m - 1);
    }
  }

  /** Horner step for the multiplier. */
  lemma MulHorner(a: Byte, b: Byte, n: nat)
    requires 0 < n <= 8 && Bits(b, n)
    ensures Mul(a, b) == Add(Masked(a, b), Xtime(Mul(a, Shift(b, 1))))
  {
    hide Xtime, Masked, Shift, Add, Mul;
    MulIsRounds(a, b);
    MulIsRounds(a, Shift(b, 1));
    RoundsEnough(a, b, n, 8);
    RoundsEnough(a, Shift(b, 1), n - 1, 8);
    RoundsXtime(a, Shift(b, 1), n - 1);
  }

  lemma MaskedIsMul(a: Byte, b: Byte)
    ensures Masked(a, b) == Mul(Masked(ONE, b), a)
  {
    hide Mul, Masked;
    MaskedBit(a, b);
    MaskedBit(ONE, b);
    MulOne(a);
    MulZero(a);
  }

  lemma {:induction false} MulCommBits(a: Byte, b: Byte, n: nat)
    requires n <= 8 && Bits(b, n)
    ensures Mul(a, b) == Mul(b, a)
    decreases n
  {
    hide Xtime, Masked, Shift, Add, Mul;
    if n == 0 {
      MulZero(a);
    } else {
      var b' := Shift(b, 1);
      MulCommBits(a, b', n - 1);
      MulHorner(a, b, n);
      Horner(b);
      MulDistributes(Masked(ONE, b), Xtime(b'), a);
      MulXtimeLeft(b', a);
      MaskedIsMul(a, b);
    }
  }

  lemma MulComm(a: Byte, b: Byte)
    ensures Mul(a, b) == Mul(b, a)
  {
    hide *;
    EightBits(b);
    MulCommBits(a, b, 8);
  }

  lemma MulMasked(a: Byte, b: Byte, c: Byte)
    ensures Mul(a, Masked(b, c)) == Masked(Mul(a, b), c)
  {
    hide Mul, Masked;
    MaskedBit(b, c);
    MaskedBit(Mul(a, b), c);
    MulZero(a);
  }

  lemma {:induction false} MulAssocBits(a: Byte, b: Byte, c: Byte, n: nat)
    requires n <= 8 && Bits(c, n)
    ensures Mul(Mul(a, b), c) == Mul(a, Mul(b, c))
    decreases n
  {
    hide Xtime, Masked, Shift, Add, Mul;
    if n == 0 {
      MulZero(Mul(a, b));
      MulZero(b);
      MulZero(a);
    } else {
      var c' := Shift(c, 1);
      MulAssocBits(a, b, c', n - 1);
      MulHorner(b, c, n);
      MulHorner(Mul(a, b), c, n);
      MulDistributes(a, Masked(b, c), Xtime(Mul(b, c')));
      MulMasked(a, b, c);
      MulXtimeRight(a, Mul(b, c'));
    }
  }

  lemma MulXtimeRight(a: Byte, b: Byte)
    ensures Mul(a, Xtime(b)) == Xtime(Mul(a, b))
  {
    hide *;
    MulComm(a, Xtime(b));
    MulXtimeLeft(b, a);
    MulComm(a, b);
  }

  lemma MulAssoc(a: Byte, b: Byte, c: Byte)
    ensures Mul(Mul(a, b), c) == Mul(a, Mul(b, c))
  {
    hide *;
    EightBits(c);
    MulAssocBits(a, b, c, 8);
  }

  // ----- squaring, and inverses -----

  function Square(a: Byte): Byte { Mul(a, a) }

  lemma SquareAdd(a: Byte, b: Byte)
    ensures Square(Add(a, b)) == Add(Square(a), Square(b))
  {
    hide Mul, Add;
    var ab := Mul(a, b);
    calc {
      Square(Add(a, b));
      { MulDistributes(a, b, Add(a, b)); }
      Add(Mul(a, Add(a, b)), Mul(b, Add(a, b)));
      { MulDistributes(a, a, b); MulDistributes(b, a, b); MulComm(b, a); }
      Add(Add(Square(a), ab), Add(ab, Square(b)));
      { AddComm(ab, Square(b)); AddInterchange(Square(a), ab, Square(b), ab); AddSelf(ab); }
      Add(Add(Square(a), Square(b)), ZERO);
      { AddZero(Add(Square(a), Square(b))); }
      Add(Square(a), Square(b));
    }
  }

  lemma SquareXtime(a: Byte)
    ensures Square(Xtime(a)) == Xtime(Xtime(Square(a)))
  {
    hide Mul, Xtime;
    MulXtimeLeft(a, Xtime(a));
    MulXtimeRight(a, a);
  }

  function Spread(c: Byte, b: Byte, n: nat): Byte
    decreases n
  {
    if n == 0 then ZERO else Add(Masked(c, b), Spread(Xtime(Xtime(c)), Shift(b, 1), n - 1))
  }

  lemma {:induction false} SpreadXtime(c: Byte, b: Byte, n: nat)
    ensures Spread(Xtime(c), b, n) == Xtime(Spread(c, b, n))
    decreases n
  {
    hide Xtime, Masked, Shift, Add;
    ShiftLinear(ZERO, ZERO);
    if n > 0 {
      MaskedXtime(c, b);
      SpreadXtime(Xtime(Xtime(c)), Shift(b, 1), n - 1);
      XtimeLinear(Masked(c, b), Spread(Xtime(Xtime(c)), Shift(b, 1), n - 1));
    }
  }

  lemma {:induction false} SquareIsSpread(b: Byte, n: nat)
    requires Bits(b, n)
    ensures Square(b) == Spread(ONE, b, n)
    decreases n
  {
    hide Xtime, Masked, Shift, Add, Mul;
    if n == 0 {
      MulZero(ZERO);
    } else {
      var b' := Shift(b, 1);
      Horner(b);
      SquareAdd(Masked(ONE, b), Xtime(b'));
      SquareXtime(b');
      SquareIsSpread(b', n - 1);
      SpreadXtime(ONE, b', n - 1);
      SpreadXtime(Xtime(ONE), b', n - 1);
      MaskedIsMul(Masked(ONE, b), b);
      MaskedBit(ONE, b);
      MulOne(ONE);
      MulZero(ZERO);
    }
  }

  /** `c` when `b` has the bit `mask`, otherwise zero. */
  function Pick(b: Byte, mask: bv8, c: Byte): Byte {
    if b.bits & mask != 0 then c else ZERO
  }

  lemma ShiftBit(b: Byte)
    ensures (Shift(b, 1).bits & 1 == 1) == (b.bits & 0x02 != 0)
    ensures (Shift(b, 2).bits & 1 == 1) == (b.bits & 0x04 != 0)
    ensures (Shift(b, 3).bits & 1 == 1) == (b.bits & 0x08 != 0)
    ensures (Shift(b, 4).bits & 1 == 1) == (b.bits & 0x10 != 0)
    ensures (Shift(b, 5).bits & 1 == 1) == (b.bits & 0x20 != 0)
    ensures (Shift(b, 6).bits & 1 == 1) == (b.bits & 0x40 != 0)
    ensures (Shift(b, 7).bits & 1 == 1) == (b.bits & 0x80 != 0)
  {}

  lemma MaskedShift(c: Byte, b: Byte)
    ensures Masked(c, b) == Pick(b, 0x01, c)
    ensures Masked(c, Shift(b, 1)) == Pick(b, 0x02, c)
    ensures Masked(c, Shift(b, 2)) == Pick(b, 0x04, c)
    ensures Masked(c, Shift(b, 3)) == Pick(b, 0x08, c)
    ensures Masked(c, Shift(b, 4)) == Pick(b, 0x10, c)
    ensures Masked(c, Shift(b, 5)) == Pick(b, 0x20, c)
    ensures Masked(c, Shift(b, 6)) == Pick(b, 0x40, c)
    ensures Masked(c, Shift(b, 7)) == Pick(b, 0x80, c)
  {
    hide Masked, Shift;
    ShiftBit(b);
    MaskedBit(c, b);
    MaskedBit(c, Shift(b, 1));
    MaskedBit(c, Shift(b, 2));
    MaskedBit(c, Shift(b, 3));
    MaskedBit(c, Shift(b, 4));
    MaskedBit(c, Shift(b, 5));
    MaskedBit(c, Shift(b, 6));
    MaskedBit(c, Shift(b, 7));
  }

  lemma SquareSum(b: Byte)
    ensures Square(b)
         == Add(Masked(Byte(0x01), b), Add(Masked(Byte(0x04), Shift(b, 1)),
            Add(Masked(Byte(0x10), Shift(b, 2)), Add(Masked(Byte(0x40), Shift(b, 3)),
            Add(Masked(Byte(0x1b), Shift(b, 4)), Add(Masked(Byte(0x6c), Shift(b, 5)),
            Add(Masked(Byte(0xab), Shift(b, 6)), Masked(Byte(0x9a), Shift(b, 7)))))))))
  {
    hide Masked, Shift, Add, Square;
    EightBits(b);
    SquareIsSpread(b, 8);
    ShiftByOne(b);
    assert Xtime(Xtime(Byte(0x01))) == Byte(0x04);
    assert Xtime(Xtime(Byte(0x04))) == Byte(0x10);
    assert Xtime(Xtime(Byte(0x10))) == Byte(0x40);
    assert Xtime(Xtime(Byte(0x40))) == Byte(0x1b);
    assert Xtime(Xtime(Byte(0x1b))) == Byte(0x6c);
    assert Xtime(Xtime(Byte(0x6c))) == Byte(0xab);
    assert Xtime(Xtime(Byte(0xab))) == Byte(0x9a);
    hide Xtime;
    AddZero(Masked(Byte(0x9a), Shift(b, 7)));
    assert Spread(Byte(0x9a), Shift(b, 7), 1) == Masked(Byte(0x9a), Shift(b, 7));
  }

  /** Squaring is linear: bit k of the argument contributes x^(2k). */
  lemma SquareBits(b: Byte)
    ensures Square(b)
         == Add(Pick(b, 0x01, Byte(0x01)), Add(Pick(b, 0x02, Byte(0x04)),
            Add(Pick(b, 0x04, Byte(0x10)), Add(Pick(b, 0x08, Byte(0x40)),
            Add(Pick(b, 0x10, Byte(0x1b)), Add(Pick(b, 0x20, Byte(0x6c)),
            Add(Pick(b, 0x40, Byte(0xab)), Pick(b, 0x80, Byte(0x9a)))))))))
  {
    hide Masked, Shift, Square, Add, Pick;
    SquareSum(b);
    MaskedShift(Byte(0x01), b);
    MaskedShift(Byte(0x04), b);
    MaskedShift(Byte(0x10), b);
    MaskedShift(Byte(0x40), b);
    MaskedShift(Byte(0x1b), b);
    MaskedShift(Byte(0x6c), b);
    MaskedShift(Byte(0xab), b);
    MaskedShift(Byte(0x9a), b);
  }

  lemma Idempotents(e: Byte)
    requires Square(e) == e
    ensures e == ZERO || e == ONE
  {
    hide Square;
    SquareBits(e);
  }

  lemma SquareMul(a: Byte, b: Byte)
    ensures Square(Mul(a, b)) == Mul(Square(a), Square(b))
  {
    hide Mul;
    MulAssoc(a, b, Mul(a, b));
    MulComm(a, b);
    MulAssoc(b, b, a);
    MulAssoc(a, Square(b), a);
    MulComm(Square(b), a);
    MulAssoc(a, a, Square(b));
    MulAssoc(b, b, a);
    assert Mul(b, Mul(b, a)) == Mul(Square(b), a);
  }

  /** a^(2^k) */
  function Frobenius(a: Byte, k: nat): Byte
    decreases k
  {
    if k == 0 then a else Square(Frobenius(a, k - 1))
  }

  lemma {:induction false} FrobeniusHomomorphism(a: Byte, b: Byte, k: nat)
    ensures Frobenius(Add(a, b), k) == Add(Frobenius(a, k), Frobenius(b, k))
    ensures Frobenius(Mul(a, b), k) == Mul(Frobenius(a, k), Frobenius(b, k))
    decreases k
  {
    hide Mul, Add, Square;
    if k > 0 {
      FrobeniusHomomorphism(a, b, k - 1);
      SquareAdd(Frobenius(a, k - 1), Frobenius(b, k - 1));
      SquareMul(Frobenius(a, k - 1), Frobenius(b, k - 1));
    }
  }

  lemma {:induction false} FrobeniusUnit(k: nat)
    ensures Frobenius(ZERO, k) == ZERO && Frobenius(ONE, k) == ONE
    decreases k
  {
    hide Mul;
    MulZero(ZERO);
    MulOne(ONE);
    if k > 0 {
      FrobeniusUnit(k - 1);
    }
  }

  lemma XtimeIsMul(a: Byte)
    ensures Xtime(a) == Mul(Byte(2), a)
  {
    hide Mul;
    assert Xtime(ONE) == Byte(2);
    hide Xtime;
    MulOne(a);
    MulXtimeLeft(ONE, a);
  }

  /** The powers x^2, x^4, ..., x^256: the last is x again. */
  lemma FrobeniusOfX()
    ensures Frobenius(Byte(2), 8) == Byte(2)
  {
    hide Square;
    assert Square(Byte(0x02)) == Byte(0x04) by { SquareBits(Byte(0x02)); }
    assert Square(Byte(0x04)) == Byte(0x10) by { SquareBits(Byte(0x04)); }
    assert Square(Byte(0x10)) == Byte(0x1b) by { SquareBits(Byte(0x10)); }
    assert Square(Byte(0x1b)) == Byte(0x5e) by { SquareBits(Byte(0x1b)); }
    assert Square(Byte(0x5e)) == Byte(0xe4) by { SquareBits(Byte(0x5e)); }
    assert Square(Byte(0xe4)) == Byte(0x4d) by { SquareBits(Byte(0xe4)); }
    assert Square(Byte(0x4d)) == Byte(0xfa) by { SquareBits(Byte(0x4d)); }
    assert Square(Byte(0xfa)) == Byte(0x02) by { SquareBits(Byte(0xfa)); }
    assert Frobenius(Byte(0x02), 2) == Byte(0x10);
    assert Frobenius(Byte(0x02), 4) == Byte(0x5e);
    assert Frobenius(Byte(0x02), 6) == Byte(0x4d);
  }

  lemma {:induction false} FrobeniusFixes(b: Byte, n: nat)
    requires Bits(b, n)
    ensures Frobenius(b, 8) == b
    decreases n
  {
    hide Xtime, Masked, Shift, Add, Mul, Frobenius;
    FrobeniusUnit(8);
    if n > 0 {
      var b' := Shift(b, 1);
      Horner(b);
      XtimeIsMul(b');
      FrobeniusFixes(b', n - 1);
      FrobeniusHomomorphism(Masked(ONE, b), Xtime(b'), 8);
      FrobeniusHomomorphism(Byte(2), b', 8);
      FrobeniusOfX();
      MaskedBit(ONE, b);
    }
  }

  lemma Telescope(a: Byte, b: Byte)
    ensures Mul(a, Mul(a, b)) == Mul(Square(a), b)
  {
    hide Mul;
    MulAssoc(a, a, b);
  }

  /** a * (a * a^254) == a^256 == a */
  lemma InverseChain(a: Byte)
    ensures Mul(a, Mul(a, Inverse(a))) == a
  {
    hide Mul;
    var a2 := Square(a);
    var a4 := Square(a2);
    var a8 := Square(a4);
    var a16 := Square(a8);
    var a32 := Square(a16);
    var a64 := Square(a32);
    var a128 := Square(a64);
    var r6 := Mul(a64, a128);
    var r5 := Mul(a32, r6);
    var r4 := Mul(a16, r5);
    var r3 := Mul(a8, r4);
    var r2 := Mul(a4, r3);
    var r1 := Mul(a2, r2);
    assert Inverse(a) == r1 by {
      MulAssoc(Mul(a2, a4), Mul(a8, a16), r5);
      MulAssoc(a8, a16, r5);
      MulAssoc(a2, a4, r3);
    }
    Telescope(a, r1);
    Telescope(a2, r2);
    Telescope(a4, r3);
    Telescope(a8, r4);
    Telescope(a16, r5);
    Telescope(a32, r6);
    Telescope(a64, a128);
    assert Mul(a, Mul(a, r1)) == Square(a128);
    assert Square(a128) == Frobenius(a, 8) by {
      hide Square;
      assert Frobenius(a, 2) == a4;
      assert Frobenius(a, 4) == a16;
      assert Frobenius(a, 6) == a64;
    }
    EightBits(a);
    FrobeniusFixes(a, 8);
  }

  /** Every nonzero element times its computed inverse is one. */
  lemma MulInverse(a: Byte)
    requires a != ZERO
    ensures Mul(a, Inverse(a)) == ONE
  {
    hide Mul, Inverse;
    var r := Inverse(a);
    var e := Mul(a, r);
    InverseChain(a);
    assert Square(e) == e by {
      MulComm(a, r);
      MulAssoc(r, a, e);
      assert Mul(e, e) == Mul(r, Mul(a, e));
    }
    Idempotents(e);
    MulZero(a);
  }

  lemma MulCancel(a: Byte, b: Byte, c: Byte)
    requires a != ZERO && Mul(a, b) == Mul(a, c)
    ensures b == c
  {
    hide *;
    var i := Inverse(a);
    MulInverse(a);
    MulComm(a, i);
    MulAssoc(i, a, b);
    MulAssoc(i, a, c);
    MulOne(b);
    MulOne(c);
  }

  lemma NoZeroDivisors(a: Byte, b: Byte)
    ensures Mul(a, b) == ZERO <==> a == ZERO || b == ZERO
  {
    hide *;
    MulZero(a);
    MulZero(b);
    if a != ZERO && Mul(a, b) == ZERO {
      MulCancel(a, b, ZERO);
    }
  }

  lemma MulSwap(a: Byte, b: Byte, c: Byte)
    ensures Mul(Mul(a, b), c) == Mul(Mul(a, c), b)
  {
    hide *;
    MulAssoc(a, b, c);
    MulComm(b, c);
    MulAssoc(a, c, b);
  }

  // ----- agreement with polynomial multiplication modulo 0x11b -----

  /** A polynomial over GF(2) of degree below 16, before reduction. */
  datatype Wide = Wide(bits: bv16)

  function Widen(a: Byte): Wide { Wide(a.bits as bv16) }

  function WideAdd(p: Wide, q: Wide): Wide { Wide(p.bits ^ q.bits) }

  function WideShift(p: Wide): Wide { Wide(p.bits << 1) }

  /** The unreduced product of two polynomials over GF(2), by Horner on the bits of `b`. */
  function Carryless(a: Byte, b: Byte, n: nat): Wide
    decreases n
  {
    if n == 0 then Wide(0)
    else WideAdd(if b.bits & 1 == 1 then Widen(a) else Wide(0), WideShift(Carryless(a, Shift(b, 1), n - 1)))
  }

  /** The product q * (x^8 + x^4 + x^3 + x + 1). */
  function TimesModulus(q: Wide): Wide {
    var s1 := WideShift(q);
    var s3 := WideShift(WideShift(s1));
    var s4 := WideShift(s3);
    var s6 := WideShift(WideShift(s4));
    var s8 := WideShift(WideShift(s6));
    WideAdd(WideAdd(WideAdd(WideAdd(q, s1), s3), s4), s8)
  }

  /** The quotient grows by one bit at each Horner step. */
  function NextQuotient(q: Wide, carry: bool): Wide {
    Wide((q.bits << 1) ^ (if carry then 1 else 0))
  }

  function Carry(carry: bool): Wide { Wide(if carry then 0x11b else 0) }

  lemma WideShiftAdd(p: Wide, q: Wide)
    ensures WideShift(WideAdd(p, q)) == WideAdd(WideShift(p), WideShift(q))
  {}

  lemma WideInterchange(p: Wide, q: Wide, r: Wide, s: Wide)
    ensures WideAdd(WideAdd(p, q), WideAdd(r, s)) == WideAdd(WideAdd(p, r), WideAdd(q, s))
  {}

  lemma TimesModulusShift(q: Wide)
    ensures TimesModulus(WideShift(q)) == WideShift(TimesModulus(q))
  {
    hide WideAdd, WideShift;
    var s1 := WideShift(q);
    var s3 := WideShift(WideShift(s1));
    var s4 := WideShift(s3);
    var s8 := WideShift(WideShift(WideShift(WideShift(s4))));
    WideShiftAdd(q, s1);
    WideShiftAdd(WideAdd(q, s1), s3);
    WideShiftAdd(WideAdd(WideAdd(q, s1), s3), s4);
    WideShiftAdd(WideAdd(WideAdd(WideAdd(q, s1), s3), s4), s8);
  }

  lemma TimesModulusAdd(p: Wide, q: Wide)
    ensures TimesModulus(WideAdd(p, q)) == WideAdd(TimesModulus(p), TimesModulus(q))
  {
    hide WideAdd, WideShift;
    var p1, q1 := WideShift(p), WideShift(q);
    var p2, q2 := WideShift(p1), WideShift(q1);
    var p3, q3 := WideShift(p2), WideShift(q2);
    var p4, q4 := WideShift(p3), WideShift(q3);
    var p5, q5 := WideShift(p4), WideShift(q4);
    var p6, q6 := WideShift(p5), WideShift(q5);
    var p7, q7 := WideShift(p6), WideShift(q6);
    var p8, q8 := WideShift(p7), WideShift(q7);
    WideShiftAdd(p, q);
    WideShiftAdd(p1, q1);
    WideShiftAdd(p2, q2);
    WideShiftAdd(p3, q3);
    WideShiftAdd(p4, q4);
    WideShiftAdd(p5, q5);
    WideShiftAdd(p6, q6);
    WideShiftAdd(p7, q7);
    WideInterchange(p, q, p1, q1);
    WideInterchange(WideAdd(p, p1), WideAdd(q, q1), p3, q3);
    WideInterchange(WideAdd(WideAdd(p, p1), p3), WideAdd(WideAdd(q, q1), q3), p4, q4);
    WideInterchange(WideAdd(WideAdd(WideAdd(p, p1), p3), p4), WideAdd(WideAdd(WideAdd(q, q1), q3), q4), p8, q8);
  }

  lemma TimesModulusStep(q: Wide, carry: bool)
    ensures TimesModulus(NextQuotient(q, carry)) == WideAdd(WideShift(TimesModulus(q)), Carry(carry))
  {
    var low := Wide(if carry then 1 else 0);
    assert TimesModulus(low) == Carry(carry);
    assert NextQuotient(q, carry) == WideAdd(WideShift(q), low);
    hide *;
    TimesModulusShift(q);
    TimesModulusAdd(WideShift(q), low);
  }

  lemma XtimeModulus(a: Byte)
    ensures WideShift(Widen(a)) == WideAdd(Widen(Xtime(a)), Carry(a.bits >> 7 == 1))
  {}

  /** `q` has degree below `n`. */
  predicate Below(q: Wide, n: nat)
    requires n <= 16
  {
    q.bits & !(LowMask(n)) == 0
  }

  function LowMask(n: nat): bv16
    decreases n
  {
    if n == 0 then 0 else (LowMask(n - 1) << 1) | 1
  }

  lemma LowMaskStep(q: bv16, low: bv16, carry: bool)
    requires q & !low == 0
    ensures ((q << 1) ^ (if carry then 1 else 0)) & !((low << 1) | 1) == 0
  {}

  lemma BelowStep(q: Wide, carry: bool, n: nat)
    requires n < 16 && Below(q, n)
    ensures Below(NextQuotient(q, carry), n + 1)
  {
    LowMaskStep(q.bits, LowMask(n), carry);
  }

  lemma WideDistributes(a: Byte, b: Byte)
    ensures Widen(Add(a, b)) == WideAdd(Widen(a), Widen(b))
  {}

  lemma WideAssoc(p: Wide, q: Wide, r: Wide)
    ensures WideAdd(WideAdd(p, q), r) == WideAdd(p, WideAdd(q, r))
  {}

  lemma WideComm(p: Wide, q: Wide)
    ensures WideAdd(p, q) == WideAdd(q, p)
  {}

  lemma WideRegroup(p: Wide, t: Wide, x: Wide, k: Wide)
    ensures WideAdd(p, WideAdd(t, WideAdd(x, k))) == WideAdd(WideAdd(t, k), WideAdd(p, x))
  {
    hide WideAdd;
    WideAssoc(t, x, k);
    WideAssoc(p, WideAdd(t, x), k);
    WideAssoc(p, t, x);
    WideComm(p, t);
    WideAssoc(t, p, x);
    WideAssoc(t, WideAdd(p, x), k);
    WideComm(WideAdd(p, x), k);
    WideAssoc(t, k, WideAdd(p, x));
  }

  lemma {:induction false} ProductQuotient(a: Byte, b: Byte, n: nat) returns (q: Wide)
    requires n <= 8 && Bits(b, n)
    ensures Below(q, n)
    ensures Carryless(a, b, n) == WideAdd(TimesModulus(q), Widen(Mul(a, b)))
    decreases n
  {
    if n == 0 {
      hide Mul;
      MulZero(a);
      q := Wide(0);
    } else {
      hide Xtime, Mul, Masked, Shift, Add, Below, TimesModulus, NextQuotient, Carry, WideAdd, WideShift;
      var b' := Shift(b, 1);
      var q' := ProductQuotient(a, b', n - 1);
      var m := Mul(a, b');
      var carry := m.bits >> 7 == 1;
      q := NextQuotient(q', carry);
      BelowStep(q', carry, n - 1);
      TimesModulusStep(q', carry);
      XtimeModulus(m);
      MulHorner(a, b, n);
      MaskedBit(a, b);
      WideDistributes(Masked(a, b), Xtime(m));
      WideShiftAdd(TimesModulus(q'), Widen(m));
      WideRegroup(Widen(Masked(a, b)), WideShift(TimesModulus(q')), Widen(Xtime(m)), Carry(carry));
    }
  }

  /** The polynomial product is a multiple of 0x11b plus `Mul`: reduction is exact. */
  lemma MulIsRemainder(a: Byte, b: Byte)
    ensures exists q :: Below(q, 8) && Carryless(a, b, 8) == WideAdd(TimesModulus(q), Widen(Mul(a, b)))
  {
    hide *;
    EightBits(b);
    var q := ProductQuotient(a, b, 8);
  }
}
