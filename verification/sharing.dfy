/** Fixed-size Shamir sharing: `split` and `reconstruct` over 32-byte secrets. */
module Sharing {
  import opened Sequences
  import opened Wrappers
  import opened GF256
  import opened Polynomials
  import opened Lagrange

  const SECRET_LEN: nat := 32
  const MAX_SHARES: nat := 31

  type Secret = s: seq<Byte> | |s| == 32 witness seq(32, _ => ZERO)

  datatype Share = Share(index: Byte, value: Secret)

  datatype Error =
    | InvalidThreshold(threshold: nat)
    | InvalidShareCount(count: nat)
    | InsufficientShares(required: nat, provided: nat)
    | ZeroIndex
    | DuplicateIndex(index: Byte)
    | EntropyUnavailable
    | InconsistentShares

  /** Import a share: the coordinate may be any nonzero field element. */
  function FromParts(index: Byte, value: Secret): Result<Share, Error> {
    if index == ZERO then Failure(ZeroIndex) else Success(Share(index, value))
  }

  function Digit(one: bool, weight: bv8): bv8 { if one then weight else 0 }

  function Compose(b0: bool, b1: bool, b2: bool, b3: bool, b4: bool, b5: bool, b6: bool, b7: bool): Byte {
    Byte(Digit(b0, 1) | Digit(b1, 2) | Digit(b2, 4) | Digit(b3, 8) | Digit(b4, 16) | Digit(b5, 32) | Digit(b6, 64) | Digit(b7, 128))
  }

  predicate Odd(n: nat) { n % 2 == 1 }

  function Half(n: nat): nat { n / 2 }

  /** The coordinate of the i-th share, for i in 1..=255: the byte with the binary digits of i. */
  function Coordinate(i: nat): Byte
    requires i < 256
  {
    var i1 := Half(i);
    var i2 := Half(i1);
    var i3 := Half(i2);
    var i4 := Half(i3);
    var i5 := Half(i4);
    var i6 := Half(i5);
    var i7 := Half(i6);
    Compose(Odd(i), Odd(i1), Odd(i2), Odd(i3), Odd(i4), Odd(i5), Odd(i6), Odd(i7))
  }

  lemma ComposeInjective(a0: bool, a1: bool, a2: bool, a3: bool, a4: bool, a5: bool, a6: bool, a7: bool,
                         b0: bool, b1: bool, b2: bool, b3: bool, b4: bool, b5: bool, b6: bool, b7: bool)
    requires Compose(a0, a1, a2, a3, a4, a5, a6, a7) == Compose(b0, b1, b2, b3, b4, b5, b6, b7)
    ensures a0 == b0 && a1 == b1 && a2 == b2 && a3 == b3 && a4 == b4 && a5 == b5 && a6 == b6 && a7 == b7
  {}

  /** Equal last digits and equal halves make equal numbers. */
  lemma HalvesDetermine(i: nat, j: nat)
    requires Odd(i) == Odd(j) && Half(i) == Half(j)
    ensures i == j
  {}

  lemma HalfBound(i: nat, n: nat)
    requires i < 2 * n
    ensures Half(i) < n
  {}

  lemma CoordinateInjective(i: nat, j: nat)
    requires i < 256 && j < 256
    ensures Coordinate(i) == Coordinate(j) <==> i == j
  {
    hide Compose, Odd, Half;
    if Coordinate(i) == Coordinate(j) {
      var (i1, j1) := (Half(i), Half(j));
      var (i2, j2) := (Half(i1), Half(j1));
      var (i3, j3) := (Half(i2), Half(j2));
      var (i4, j4) := (Half(i3), Half(j3));
      var (i5, j5) := (Half(i4), Half(j4));
      var (i6, j6) := (Half(i5), Half(j5));
      var (i7, j7) := (Half(i6), Half(j6));
      ComposeInjective(Odd(i), Odd(i1), Odd(i2), Odd(i3), Odd(i4), Odd(i5), Odd(i6), Odd(i7),
                       Odd(j), Odd(j1), Odd(j2), Odd(j3), Odd(j4), Odd(j5), Odd(j6), Odd(j7));
      EighthHalf(i);
      EighthHalf(j);
      HalvesDetermine(i7, j7);
      HalvesDetermine(i6, j6);
      HalvesDetermine(i5, j5);
      HalvesDetermine(i4, j4);
      HalvesDetermine(i3, j3);
      HalvesDetermine(i2, j2);
      HalvesDetermine(i1, j1);
      HalvesDetermine(i, j);
    }
  }

  lemma EighthHalf(i: nat)
    requires i < 256
    ensures Half(Half(Half(Half(Half(Half(Half(Half(i)))))))) == 0
  {
    hide Half;
    HalfBound(i, 128);
    HalfBound(Half(i), 64);
    HalfBound(Half(Half(i)), 32);
    HalfBound(Half(Half(Half(i))), 16);
    HalfBound(Half(Half(Half(Half(i)))), 8);
    HalfBound(Half(Half(Half(Half(Half(i))))), 4);
    HalfBound(Half(Half(Half(Half(Half(Half(i)))))), 2);
    HalfBound(Half(Half(Half(Half(Half(Half(Half(i))))))), 1);
  }

  lemma CoordinateNonzero(i: nat)
    requires 0 < i < 256
    ensures Coordinate(i) != ZERO
  {
    ZeroCoordinate();
    hide Coordinate;
    CoordinateInjective(i, 0);
  }

  lemma ZeroCoordinate()
    ensures Coordinate(0) == ZERO
  {
    assert !Odd(0) && Half(0) == 0;
    hide Odd, Half;
  }

  // ----- randomness -----

  /** A finite supply of random bytes; a draw that exceeds it reports failure. */
  class Entropy {
    var bytes: seq<Byte>

    constructor (supply: seq<Byte>)
      ensures bytes == supply
    {
      bytes := supply;
    }

    method TryFill(n: nat) returns (draw: Option<seq<Byte>>)
      modifies this
      ensures draw.Some? <==> n <= |old(bytes)|
      ensures draw.Some? ==> |draw.value| == n && old(bytes) == draw.value + bytes
      ensures draw.None? ==> bytes == old(bytes)
    {
      if n <= |bytes| {
        draw := Some(bytes[..n]);
        bytes := bytes[n..];
      } else {
        draw := None;
      }
    }
  }

  /** One coefficient vector per secret byte. */
  type Table = seq<seq<Byte>>

  predicate TableOf(table: Table, threshold: nat) {
    |table| == SECRET_LEN && forall b :: 0 <= b < SECRET_LEN ==> |table[b]| + 1 == threshold
  }

  function Concat(table: Table): seq<Byte> {
    if table == [] then [] else Concat(table[..|table| - 1]) + table[|table| - 1]
  }

  // ----- split -----

  /** The bytes of the share with coordinate `x`. */
  function ShareValue(secret: Secret, table: Table, x: Byte): (value: Secret)
    requires |table| == SECRET_LEN
  {
    seq(32, b requires 0 <= b < 32 => Eval([secret[b]] + table[b], x))
  }

  function SplitShare(secret: Secret, table: Table, i: nat): Share
    requires |table| == SECRET_LEN && i + 1 < 256
  {
    Share(Coordinate(i + 1), ShareValue(secret, table, Coordinate(i + 1)))
  }

  /** The shares at coordinates 1..=count. */
  function SplitShares(secret: Secret, table: Table, count: nat): (shares: seq<Share>)
    requires |table| == SECRET_LEN && count < 256
    ensures |shares| == count
  {
    seq(count, i requires 0 <= i < count => SplitShare(secret, table, i))
  }

  /** Write byte `byte` of every share. */
  method FillColumn(shares: array<Share>, byte: nat, secretByte: Byte, coefficients: seq<Byte>)
    requires byte < SECRET_LEN
    modifies shares
    ensures forall i :: 0 <= i < shares.Length ==>
              shares[i] == old(shares[i]).(value := old(shares[i]).value[byte := Eval([secretByte] + coefficients, old(shares[i]).index)])
  {
    hide Eval;
    var i := 0;
    while i < shares.Length
      invariant 0 <= i <= shares.Length
      invariant forall k :: i <= k < shares.Length ==> shares[k] == old(shares[k])
      invariant forall k :: 0 <= k < i ==>
                  shares[k] == old(shares[k]).(value := old(shares[k]).value[byte := Eval([secretByte] + coefficients, old(shares[k]).index)])
    {
      var v := Evaluate(secretByte, coefficients, shares[i].index);
      shares[i] := Share(shares[i].index, shares[i].value[byte := v]);
      i := i + 1;
    }
  }

  /** Bytes consumed by `rows` draws. */
  function Drawn(rows: nat, degree: nat): nat { rows * degree }

  lemma DrawnStep(rows: nat, degree: nat)
    requires rows < SECRET_LEN
    ensures Drawn(0, degree) == 0
    ensures Drawn(rows + 1, degree) == Drawn(rows, degree) + degree
    ensures Drawn(rows + 1, degree) <= Drawn(SECRET_LEN, degree) == SECRET_LEN * degree
  {}

  lemma ConcatStep(table: Table, row: seq<Byte>, before: seq<Byte>, rest: seq<Byte>)
    requires before == row + rest
    ensures Concat(table) + before == Concat(table + [row]) + rest
    ensures |Concat(table + [row])| == |Concat(table)| + |row|
  {
    assert (table + [row])[..|table|] == table;
    assert Concat(table + [row]) == Concat(table) + row;
  }

  /** The first `rows` bytes of every share lie on the polynomials drawn so far. */
  predicate Filled(shares: seq<Share>, secret: Secret, table: Table)
    requires |shares| < 255 && |table| <= SECRET_LEN
  {
    && (forall i :: 0 <= i < |shares| ==> shares[i].index == Coordinate(i + 1))
    && (forall i, b :: 0 <= i < |shares| && 0 <= b < |table| ==>
          shares[i].value[b] == Eval([secret[b]] + table[b], shares[i].index))
  }

  lemma FilledIsSplit(shares: seq<Share>, secret: Secret, table: Table)
    requires |shares| < 255 && |table| == SECRET_LEN && Filled(shares, secret, table)
    ensures shares == SplitShares(secret, table, |shares|)
  {
    hide Eval, Coordinate;
    forall i | 0 <= i < |shares| ensures shares[i] == SplitShare(secret, table, i) {
      assert shares[i].value == ShareValue(secret, table, shares[i].index);
    }
  }

  /** Draw one coefficient vector per byte and evaluate it at every coordinate. */
  method FillShares(shares: array<Share>, secret: Secret, degree: nat, rng: Entropy)
    returns (filled: bool, ghost table: Table)
    requires shares.Length < 255
    requires forall i :: 0 <= i < shares.Length ==> shares[i].index == Coordinate(i + 1)
    modifies shares, rng
    ensures filled <==> |old(rng.bytes)| >= SECRET_LEN * degree
    ensures filled ==> && TableOf(table, degree + 1)
                       && old(rng.bytes) == Concat(table) + rng.bytes
                       && Filled(shares[..], secret, table)
  {
    hide Eval, Coordinate, Concat, Drawn;
    table := [];
    var byte := 0;
    DrawnStep(0, degree);
    ConcatEmpty();
    while byte < SECRET_LEN
      invariant 0 <= byte <= SECRET_LEN && |table| == byte
      invariant forall b :: 0 <= b < byte ==> |table[b]| == degree
      invariant old(rng.bytes) == Concat(table) + rng.bytes
      invariant |Concat(table)| == Drawn(byte, degree)
      invariant Filled(shares[..], secret, table)
    {
      ghost var before := rng.bytes;
      DrawnStep(byte, degree);
      var draw := rng.TryFill(degree);
      if draw.None? {
        return false, table;
      }
      ConcatStep(table, draw.value, before, rng.bytes);
      FillColumn(shares, byte, secret[byte], draw.value);
      table := table + [draw.value];
      byte := byte + 1;
    }
    filled := true;
    DrawnStep(0, degree);
  }

  method Split(secret: Secret, threshold: nat, count: nat, rng: Entropy)
    returns (result: Result<seq<Share>, Error>, ghost table: Table)
    requires threshold < 256 && count < 256
    modifies rng
    ensures threshold == 0 || threshold > MAX_SHARES ==> result == Failure(InvalidThreshold(threshold))
    ensures 0 < threshold <= MAX_SHARES && (count == 0 || count > MAX_SHARES)
            ==> result == Failure(InvalidShareCount(count))
    ensures 0 < count < threshold <= MAX_SHARES ==> result == Failure(InsufficientShares(threshold, count))
    ensures 0 < threshold <= count <= MAX_SHARES ==>
              if |old(rng.bytes)| < SECRET_LEN * (threshold - 1) then result == Failure(EntropyUnavailable)
              else && TableOf(table, threshold)
                   && old(rng.bytes) == Concat(table) + rng.bytes
                   && result == Success(SplitShares(secret, table, count))
    ensures result.Failure? && !result.error.EntropyUnavailable? ==> rng.bytes == old(rng.bytes)
  {
    hide Eval, Coordinate, Concat, SplitShares;
    table := [];
    if threshold == 0 || threshold > MAX_SHARES {
      return Failure(InvalidThreshold(threshold)), table;
    }
    if count == 0 || count > MAX_SHARES {
      return Failure(InvalidShareCount(count)), table;
    }
    if threshold > count {
      return Failure(InsufficientShares(threshold, count)), table;
    }
    var shares := new Share[count](i requires 0 <= i < count => Share(Coordinate(i + 1), seq(32, _ => ZERO)));
    var filled;
    filled, table := FillShares(shares, secret, threshold - 1, rng);
    if !filled {
      return Failure(EntropyUnavailable), table;
    }
    FilledIsSplit(shares[..], secret, table);
    result := Success(shares[..]);
  }

  lemma ConcatEmpty()
    ensures Concat([]) == []
  {}

  // ----- reconstruct -----

  function Indices(shares: seq<Share>): (xs: seq<Byte>)
    ensures |xs| == |shares|
  {
    seq(|shares|, i requires 0 <= i < |shares| => shares[i].index)
  }

  function Column(shares: seq<Share>, b: nat): (ys: seq<Byte>)
    requires b < 32
    ensures |ys| == |shares|
  {
    seq(|shares|, i requires 0 <= i < |shares| => shares[i].value[b])
  }

  /** Bytewise Lagrange interpolation at `target`. */
  function InterpolatedAt(shares: seq<Share>, target: Byte): (value: Secret) {
    seq(32, b requires 0 <= b < 32 => Interpolated(Indices(shares), Column(shares, b), target, |shares|))
  }

  method LoadColumn(values: array<Byte>, shares: seq<Share>, byte: nat)
    requires byte < 32 && |shares| <= values.Length
    modifies values
    ensures values[..|shares|] == Column(shares, byte)
  {
    var i := 0;
    while i < |shares|
      invariant 0 <= i <= |shares|
      invariant forall k :: 0 <= k < i ==> values[k] == shares[k].value[byte]
    {
      values[i] := shares[i].value[byte];
      i := i + 1;
    }
  }

  method Interpolate(shares: seq<Share>, target: Byte) returns (value: Secret)
    requires |shares| <= MAX_SHARES
    ensures value == InterpolatedAt(shares, target)
  {
    hide Weight, Interpolated, WeightedPrefix, Column;
    var indices := Indices(shares);
    var coefficients := Weights(indices, target);
    var result := new Byte[SECRET_LEN](_ => ZERO);
    var values := new Byte[MAX_SHARES](_ => ZERO);
    var byte := 0;
    while byte < SECRET_LEN
      invariant 0 <= byte <= SECRET_LEN
      invariant forall b :: 0 <= b < byte ==>
                  result[b] == Interpolated(indices, Column(shares, b), target, |shares|)
    {
      LoadColumn(values, shares, byte);
      var sum := WeightedSum(values[..|shares|], coefficients);
      WeightedPrefixIsInterpolated(indices, Column(shares, byte), coefficients, target, |shares|);
      result[byte] := sum;
      byte := byte + 1;
    }
    value := result[..];
  }

  /** The first coordinate, in order, that is zero or repeats an earlier one. */
  function BadIndex(shares: seq<Share>, i: nat): Option<Error>
    requires i <= |shares|
    decreases |shares| - i
  {
    if i == |shares| then None
    else if shares[i].index == ZERO then Some(ZeroIndex)
    else if exists j :: 0 <= j < i && shares[j].index == shares[i].index then Some(DuplicateIndex(shares[i].index))
    else BadIndex(shares, i + 1)
  }

  /** Distinct nonzero coordinates. */
  predicate ValidIndices(shares: seq<Share>) {
    && (forall i :: 0 <= i < |shares| ==> shares[i].index != ZERO)
    && (forall i, j :: 0 <= i < j < |shares| ==> shares[i].index != shares[j].index)
  }

  lemma {:induction false} BadIndexExact(shares: seq<Share>, i: nat)
    requires i <= |shares|
    ensures BadIndex(shares, i).None? <==>
              && (forall k :: i <= k < |shares| ==> shares[k].index != ZERO)
              && (forall j, k :: 0 <= j < k < |shares| && i <= k ==> shares[j].index != shares[k].index)
    decreases |shares| - i
  {
    if i < |shares| {
      BadIndexExact(shares, i + 1);
    }
  }

  /** Surplus shares agree with the polynomial of the first `threshold` shares. */
  predicate SurplusAgrees(threshold: nat, shares: seq<Share>)
    requires threshold <= |shares|
  {
    forall j :: threshold <= j < |shares| ==>
      InterpolatedAt(shares[..threshold], shares[j].index) == shares[j].value
  }

  function Reconstructed(threshold: nat, shares: seq<Share>): Result<Secret, Error> {
    if threshold == 0 || threshold > MAX_SHARES then Failure(InvalidThreshold(threshold))
    else if |shares| > MAX_SHARES then Failure(InvalidShareCount(|shares|))
    else if |shares| < threshold then Failure(InsufficientShares(threshold, |shares|))
    else match BadIndex(shares, 0)
         case Some(error) => Failure(error)
         case None =>
           if SurplusAgrees(threshold, shares) then Success(InterpolatedAt(shares[..threshold], ZERO))
           else Failure(InconsistentShares)
  }

  function Or(a: Byte, b: Byte): Byte { Byte(a.bits | b.bits) }

  lemma OrAddZero(acc: Byte, a: Byte, b: Byte)
    ensures Or(acc, Add(a, b)) == ZERO <==> acc == ZERO && a == b
  {}

  method CheckIndices(shares: seq<Share>) returns (error: Option<Error>)
    ensures error == BadIndex(shares, 0)
  {
    var i := 0;
    while i < |shares|
      invariant 0 <= i <= |shares|
      invariant BadIndex(shares, 0) == BadIndex(shares, i)
    {
      if shares[i].index == ZERO {
        return Some(ZeroIndex);
      }
      if exists j :: 0 <= j < i && shares[j].index == shares[i].index {
        return Some(DuplicateIndex(shares[i].index));
      }
      i := i + 1;
    }
    error := None;
  }

  /** Fold the difference of two byte strings into the accumulator. */
  method Accumulate(disagreement: Byte, expected: Secret, value: Secret) returns (acc: Byte)
    ensures acc == ZERO <==> disagreement == ZERO && expected == value
  {
    hide Or, Add;
    acc := disagreement;
    var byte := 0;
    while byte < SECRET_LEN
      invariant 0 <= byte <= SECRET_LEN
      invariant acc == ZERO <==> disagreement == ZERO && expected[..byte] == value[..byte]
    {
      OrAddZero(acc, expected[byte], value[byte]);
      acc := Or(acc, Add(expected[byte], value[byte]));
      assert expected[..byte + 1] == expected[..byte] + [expected[byte]];
      assert value[..byte + 1] == value[..byte] + [value[byte]];
      byte := byte + 1;
    }
    assert expected[..32] == expected && value[..32] == value;
  }

  /** Share `i` has coordinate zero or repeats an earlier coordinate. */
  predicate BadAt(shares: seq<Share>, i: nat)
    requires i < |shares|
  {
    shares[i].index == ZERO || exists j :: 0 <= j < i && shares[j].index == shares[i].index
  }

  /** The refusal of a bad coordinate: zero has its own error, any other is a duplicate. */
  function BadIndexError(index: Byte): Error {
    if index == ZERO then ZeroIndex else DuplicateIndex(index)
  }

  /** Share `i` is the earliest bad one. */
  predicate FirstBad(shares: seq<Share>, i: nat) {
    i < |shares| && BadAt(shares, i) && forall k :: 0 <= k < i ==> !BadAt(shares, k)
  }

  /** The earliest bad share decides the error, by its own coordinate. */
  lemma {:induction false} BadIndexFirst(shares: seq<Share>, i: nat, bad: nat)
    requires i <= bad && FirstBad(shares, bad)
    ensures BadIndex(shares, i) == Some(BadIndexError(shares[bad].index))
    decreases bad - i
  {
    if i < bad {
      assert !BadAt(shares, i);
      BadIndexFirst(shares, i + 1, bad);
    }
  }

  /** Coordinates are valid exactly when no share is bad, and otherwise one share is the earliest bad one. */
  lemma {:induction false} SomeFirstBad(shares: seq<Share>, n: nat)
    requires n <= |shares|
    ensures (forall k :: 0 <= k < n ==> !BadAt(shares, k)) || (exists i: nat :: FirstBad(shares, i))
  {
    if n > 0 {
      SomeFirstBad(shares, n - 1);
      if (forall k :: 0 <= k < n - 1 ==> !BadAt(shares, k)) && BadAt(shares, n - 1) {
        assert FirstBad(shares, n - 1);
      }
    }
  }

  method Reconstruct(threshold: nat, shares: seq<Share>) returns (result: Result<Secret, Error>)
    ensures threshold == 0 || threshold > MAX_SHARES ==> result == Failure(InvalidThreshold(threshold))
    ensures 0 < threshold <= MAX_SHARES < |shares| ==> result == Failure(InvalidShareCount(|shares|))
    ensures |shares| < threshold <= MAX_SHARES ==> result == Failure(InsufficientShares(threshold, |shares|))
    ensures 0 < threshold <= |shares| <= MAX_SHARES ==>
              forall i: nat :: FirstBad(shares, i) ==> result == Failure(BadIndexError(shares[i].index))
    ensures result.Success?
       <==> ValidPoints(threshold, shares) && exists polys :: Fits(polys, threshold, shares)
    ensures ValidPoints(threshold, shares) && result.Failure? ==> result.error == InconsistentShares
    ensures ValidPoints(threshold, shares) ==>
              forall polys :: Fits(polys, threshold, shares) ==> result == Success(Constants(polys))
    ensures result == Reconstructed(threshold, shares)
  {
    hide InterpolatedAt, BadIndex, ValidPoints, Fits, BadAt;
    ReconstructOutcome(threshold, shares);
    RefusedIndex(threshold, shares);
    if threshold == 0 || threshold > MAX_SHARES {
      return Failure(InvalidThreshold(threshold));
    }
    if |shares| > MAX_SHARES {
      return Failure(InvalidShareCount(|shares|));
    }
    if |shares| < threshold {
      return Failure(InsufficientShares(threshold, |shares|));
    }
    var bad := CheckIndices(shares);
    if bad.Some? {
      return Failure(bad.value);
    }
    var basis := shares[..threshold];
    var disagreement := ZERO;
    var j := threshold;
    while j < |shares|
      invariant threshold <= j <= |shares|
      invariant disagreement == ZERO <==>
                  forall k :: threshold <= k < j ==> InterpolatedAt(basis, shares[k].index) == shares[k].value
    {
      var expected := Interpolate(basis, shares[j].index);
      disagreement := Accumulate(disagreement, expected, shares[j].value);
      j := j + 1;
    }
    if disagreement != ZERO {
      return Failure(InconsistentShares);
    }
    var secret := Interpolate(basis, ZERO);
    result := Success(secret);
  }

  // ----- what reconstruction means -----

  predicate ValidPoints(threshold: nat, shares: seq<Share>) {
    0 < threshold <= |shares| <= MAX_SHARES && ValidIndices(shares)
  }

  /** Every share lies on the polynomials with the given coefficients, one polynomial per byte. */
  predicate Fits(polys: seq<seq<Byte>>, threshold: nat, shares: seq<Share>) {
    && |polys| == SECRET_LEN
    && (forall b :: 0 <= b < SECRET_LEN ==> |polys[b]| == threshold)
    && (forall share :: share in shares ==> FitsShare(polys, share))
  }

  predicate FitsShare(polys: seq<seq<Byte>>, share: Share) {
    |polys| == SECRET_LEN && forall b :: 0 <= b < SECRET_LEN ==> Eval(polys[b], share.index) == share.value[b]
  }

  function Constants(polys: seq<seq<Byte>>): (secret: Secret)
    requires |polys| == SECRET_LEN && forall b :: 0 <= b < SECRET_LEN ==> polys[b] != []
  {
    seq(32, b requires 0 <= b < 32 => polys[b][0])
  }

  /** The polynomials through the first `threshold` shares. */
  function Basis(threshold: nat, shares: seq<Share>): (polys: seq<seq<Byte>>)
    requires threshold <= |shares|
    ensures |polys| == SECRET_LEN
    ensures forall b :: 0 <= b < SECRET_LEN ==> |polys[b]| == threshold
  {
    seq(SECRET_LEN, b requires 0 <= b < SECRET_LEN =>
      Interpolant(Indices(shares[..threshold]), Column(shares[..threshold], b)))
  }

  lemma DistinctIndices(shares: seq<Share>, n: nat)
    requires ValidIndices(shares) && n <= |shares|
    ensures Distinct(Indices(shares[..n]))
  {}

  /** The basis is the only family that fits the first `threshold` shares. */
  lemma BasisUnique(polys: seq<seq<Byte>>, threshold: nat, shares: seq<Share>)
    requires ValidPoints(threshold, shares)
    ensures Fits(polys, threshold, shares[..threshold]) <==> polys == Basis(threshold, shares)
  {
    hide Eval, Interpolant;
    var basis := shares[..threshold];
    var xs := Indices(basis);
    DistinctIndices(shares, threshold);
    if |polys| == SECRET_LEN && forall b :: 0 <= b < SECRET_LEN ==> |polys[b]| == threshold {
      forall b | 0 <= b < SECRET_LEN
        ensures Through(polys[b], xs, Column(basis, b)) <==> polys[b] == Basis(threshold, shares)[b]
      {
        UniqueInterpolant(polys[b], xs, Column(basis, b));
      }
      if Fits(polys, threshold, basis) {
        forall b | 0 <= b < SECRET_LEN ensures Through(polys[b], xs, Column(basis, b)) {
          forall i | 0 <= i < |xs| ensures Eval(polys[b], xs[i]) == Column(basis, b)[i] {
            assert basis[i] in basis;
            assert FitsShare(polys, basis[i]);
          }
        }
      }
      if polys == Basis(threshold, shares) {
        forall share | share in basis ensures FitsShare(polys, share) {
          var i :| 0 <= i < |basis| && basis[i] == share;
          forall b | 0 <= b < SECRET_LEN ensures Eval(polys[b], share.index) == share.value[b] {
            assert Through(polys[b], xs, Column(basis, b));
            assert Eval(polys[b], xs[i]) == Column(basis, b)[i];
          }
        }
      }
    }
  }

  /** The weighted sums give the values of the basis polynomials at every target. */
  lemma BasisEvaluates(threshold: nat, shares: seq<Share>, target: Byte)
    requires ValidPoints(threshold, shares)
    ensures forall b :: 0 <= b < 32 ==>
              InterpolatedAt(shares[..threshold], target)[b] == Eval(Basis(threshold, shares)[b], target)
  {
    hide Eval, Interpolant, Interpolated;
    var basis := shares[..threshold];
    var xs := Indices(basis);
    DistinctIndices(shares, threshold);
    forall b | 0 <= b < 32
      ensures InterpolatedAt(basis, target)[b] == Eval(Basis(threshold, shares)[b], target)
    {
      var f := Basis(threshold, shares)[b];
      UniqueInterpolant(f, xs, Column(basis, b));
      Interpolation(f, xs, Column(basis, b), target);
    }
  }

  /** Surplus shares agree exactly when all shares lie on the basis polynomials. */
  lemma SurplusFits(threshold: nat, shares: seq<Share>)
    requires ValidPoints(threshold, shares)
    ensures SurplusAgrees(threshold, shares) <==> Fits(Basis(threshold, shares), threshold, shares)
  {
    hide Eval, Basis, InterpolatedAt;
    var polys := Basis(threshold, shares);
    BasisUnique(polys, threshold, shares);
    forall j | threshold <= j < |shares|
      ensures InterpolatedAt(shares[..threshold], shares[j].index) == shares[j].value <==> FitsShare(polys, shares[j])
    {
      BasisEvaluates(threshold, shares, shares[j].index);
    }
    if SurplusAgrees(threshold, shares) {
      forall share | share in shares ensures FitsShare(polys, share) {
        var i :| 0 <= i < |shares| && shares[i] == share;
        if i < threshold {
          assert share == shares[..threshold][i];
        }
      }
    }
  }

  /** Reconstruction succeeds exactly when all points lie on polynomials of degree below the threshold,
      and then returns their constant terms. */
  lemma ReconstructExact(threshold: nat, shares: seq<Share>, secret: Secret)
    requires ValidPoints(threshold, shares)
    ensures Reconstructed(threshold, shares) == Success(secret)
       <==> exists polys :: Fits(polys, threshold, shares) && secret == Constants(polys)
    ensures Reconstructed(threshold, shares).Failure? ==>
              && Reconstructed(threshold, shares).error == InconsistentShares
              && !exists polys :: Fits(polys, threshold, shares)
  {
    hide Eval, Basis, InterpolatedAt, BadIndex, SurplusAgrees;
    var basis := Basis(threshold, shares);
    BadIndexExact(shares, 0);
    SurplusFits(threshold, shares);
    BasisEvaluates(threshold, shares, ZERO);
    forall b | 0 <= b < 32 ensures Eval(basis[b], ZERO) == basis[b][0] {
      EvalAtZero(basis[b]);
    }
    assert InterpolatedAt(shares[..threshold], ZERO) == Constants(basis);
    forall polys | Fits(polys, threshold, shares) ensures polys == basis {
      FitsPrefix(polys, threshold, shares);
      BasisUnique(polys, threshold, shares);
    }
  }

  /** For every threshold and every list of shares: what makes reconstruction succeed, and with what. */
  lemma ReconstructOutcome(threshold: nat, shares: seq<Share>)
    ensures Reconstructed(threshold, shares).Success?
       <==> ValidPoints(threshold, shares) && exists polys :: Fits(polys, threshold, shares)
    ensures ValidPoints(threshold, shares) && Reconstructed(threshold, shares).Failure? ==>
              Reconstructed(threshold, shares).error == InconsistentShares
    ensures ValidPoints(threshold, shares) ==>
              forall polys :: Fits(polys, threshold, shares) ==>
                Reconstructed(threshold, shares) == Success(Constants(polys))
  {
    hide InterpolatedAt, BadIndex, SurplusAgrees, Constants, FitsShare;
    var result := Reconstructed(threshold, shares);
    if ValidPoints(threshold, shares) {
      if result.Success? {
        ReconstructExact(threshold, shares, result.value);
      } else {
        ReconstructExact(threshold, shares, seq(SECRET_LEN, _ => ZERO));
      }
      forall polys | Fits(polys, threshold, shares) ensures result == Success(Constants(polys)) {
        ReconstructExact(threshold, shares, Constants(polys));
      }
    } else if 0 < threshold <= |shares| <= MAX_SHARES {
      BadIndexExact(shares, 0);
    }
  }

  /** A list of the right length is refused at its earliest bad share. */
  lemma RefusedIndex(threshold: nat, shares: seq<Share>)
    ensures 0 < threshold <= |shares| <= MAX_SHARES ==>
              forall i: nat :: FirstBad(shares, i) ==>
                Reconstructed(threshold, shares) == Failure(BadIndexError(shares[i].index))
    ensures ValidIndices(shares) <==> !exists i: nat :: FirstBad(shares, i)
  {
    hide BadIndex, InterpolatedAt, SurplusAgrees;
    forall i: nat | FirstBad(shares, i) ensures BadIndex(shares, 0) == Some(BadIndexError(shares[i].index))
    {
      BadIndexFirst(shares, 0, i);
    }
    SomeFirstBad(shares, |shares|);
    assert ValidIndices(shares) <==> forall k :: 0 <= k < |shares| ==> !BadAt(shares, k);
  }

  lemma FitsPrefix(polys: seq<seq<Byte>>, threshold: nat, shares: seq<Share>)
    requires threshold <= |shares| && Fits(polys, threshold, shares)
    ensures Fits(polys, threshold, shares[..threshold])
  {}

  // ----- any quorum recovers the secret -----

  /** Coefficients of the sharing polynomials, with the secret as constant terms. */
  function SharingPolynomials(secret: Secret, table: Table): (polys: seq<seq<Byte>>)
    requires |table| == SECRET_LEN
    ensures |polys| == SECRET_LEN
    ensures forall b :: 0 <= b < SECRET_LEN ==> polys[b] == [secret[b]] + table[b]
  {
    seq(SECRET_LEN, b requires 0 <= b < SECRET_LEN => [secret[b]] + table[b])
  }

  lemma {:induction false} CoordinateCount(n: nat)
    requires n < 256
    ensures |set i | 1 <= i <= n :: Coordinate(i)| <= n
  {
    hide Coordinate;
    var all := set i | 1 <= i <= n :: Coordinate(i);
    if n == 0 {
      assert all == {};
    } else {
      CoordinateCount(n - 1);
      assert all == (set i | 1 <= i <= n - 1 :: Coordinate(i)) + {Coordinate(n)};
    }
  }

  lemma {:induction false} DistinctCount(xs: seq<Byte>, within: set<Byte>)
    requires Distinct(xs) && forall x :: x in xs ==> x in within
    ensures |xs| <= |within|
  {
    if xs != [] {
      var last := xs[|xs| - 1];
      assert last in xs;
      forall x | x in xs[..|xs| - 1] ensures x in within - {last} {
        assert x in xs;
      }
      DistinctCount(xs[..|xs| - 1], within - {last});
    }
  }

  /** No more than `count` shares of a split can have distinct coordinates. */
  lemma SublistBound(secret: Secret, table: Table, count: nat, chosen: seq<Share>)
    requires |table| == SECRET_LEN && count < 256 && ValidIndices(chosen)
    requires forall share :: share in chosen ==> share in SplitShares(secret, table, count)
    ensures |chosen| <= count
  {
    hide Coordinate, ShareValue;
    var all := set i | 1 <= i <= count :: Coordinate(i);
    CoordinateCount(count);
    var xs := Indices(chosen);
    forall x | x in xs ensures x in all {
      var k :| 0 <= k < |xs| && xs[k] == x;
      assert chosen[k] in chosen;
      var i :| 0 <= i < count && SplitShares(secret, table, count)[i] == chosen[k];
      assert x == Coordinate(i + 1);
    }
    DistinctCount(xs, all);
  }

  /** General t-of-n recovery: any `threshold` or more of the shares, in any order, give the secret back,
      for every secret and every coefficient table, zero coefficients included. */
  lemma QuorumRecovers(secret: Secret, table: Table, threshold: nat, count: nat, chosen: seq<Share>)
    requires 0 < threshold <= count <= MAX_SHARES && TableOf(table, threshold)
    requires forall share :: share in chosen ==> share in SplitShares(secret, table, count)
    requires forall i, j :: 0 <= i < j < |chosen| ==> chosen[i].index != chosen[j].index
    requires threshold <= |chosen|
    ensures Reconstructed(threshold, chosen) == Success(secret)
  {
    hide Eval, Reconstructed, Coordinate;
    var polys := SharingPolynomials(secret, table);
    forall i | 0 <= i < |chosen| ensures chosen[i].index != ZERO {
      assert chosen[i] in chosen;
      var k :| 0 <= k < count && SplitShares(secret, table, count)[k] == chosen[i];
      CoordinateNonzero(k + 1);
    }
    SublistBound(secret, table, count, chosen);
    forall share | share in chosen ensures FitsShare(polys, share) {
      var k :| 0 <= k < count && SplitShares(secret, table, count)[k] == share;
    }
    assert Fits(polys, threshold, chosen);
    assert Constants(polys) == secret;
    ReconstructExact(threshold, chosen, secret);
  }

  lemma MultiplicityAtMostOne(shares: seq<Share>, share: Share)
    requires ValidIndices(shares)
    ensures multiset(shares)[share] <= 1
  {
    if shares != [] {
      var n := |shares| - 1;
      MultiplicityAtMostOne(shares[..n], share);
      assert shares == shares[..n] + [shares[n]];
    }
  }

  lemma TwoPositions(shares: seq<Share>, i: nat, j: nat)
    requires i < j < |shares| && shares[i] == shares[j]
    ensures multiset(shares)[shares[i]] >= 2
  {
    assert shares == shares[..i] + [shares[i]] + shares[i + 1..];
    assert shares[j] in shares[i + 1..];
  }

  lemma PermutedIndices(shares: seq<Share>, permuted: seq<Share>)
    requires ValidIndices(shares) && multiset(permuted) == multiset(shares)
    ensures ValidIndices(permuted) && |permuted| == |shares|
  {
    assert |multiset(permuted)| == |permuted| && |multiset(shares)| == |shares|;
    forall i | 0 <= i < |permuted| ensures permuted[i] in shares {
      assert permuted[i] in multiset(permuted);
    }
    forall i, j | 0 <= i < j < |permuted| ensures permuted[i].index != permuted[j].index {
      if permuted[i].index == permuted[j].index {
        assert permuted[i] in shares && permuted[j] in shares;
        assert permuted[i] == permuted[j];
        TwoPositions(permuted, i, j);
        MultiplicityAtMostOne(shares, permuted[i]);
      }
    }
  }

  /** The outcome does not depend on the order of the shares. */
  lemma OrderIndependent(threshold: nat, shares: seq<Share>, permuted: seq<Share>)
    requires ValidPoints(threshold, shares) && multiset(permuted) == multiset(shares)
    ensures ValidPoints(threshold, permuted)
    ensures Reconstructed(threshold, permuted) == Reconstructed(threshold, shares)
  {
    hide Reconstructed, FitsShare;
    PermutedIndices(shares, permuted);
    forall share ensures share in shares <==> share in permuted {
      assert share in multiset(shares) <==> share in multiset(permuted);
    }
    forall polys ensures Fits(polys, threshold, shares) <==> Fits(polys, threshold, permuted) {}
    var r := Reconstructed(threshold, shares);
    var r' := Reconstructed(threshold, permuted);
    if r.Success? {
      ReconstructExact(threshold, shares, r.value);
      ReconstructExact(threshold, permuted, r.value);
    } else if r'.Success? {
      ReconstructExact(threshold, shares, r'.value);
      ReconstructExact(threshold, permuted, r'.value);
    } else {
      var any: Secret := seq(32, _ => ZERO);
      ReconstructExact(threshold, shares, any);
      ReconstructExact(threshold, permuted, any);
    }
  }

  /** Replacing any one share of a consistent set larger than the threshold by any share at a coordinate of its own: the
      secret survives exactly if the new share lies on the polynomials, and otherwise the shares are inconsistent. In
      particular a changed value is always detected. */
  lemma TamperingDetected(threshold: nat, shares: seq<Share>, polys: seq<seq<Byte>>, k: nat, forged: Share)
    requires ValidPoints(threshold, shares) && threshold < |shares| && Fits(polys, threshold, shares)
    requires k < |shares| && forged.index != ZERO && forall i :: 0 <= i < |shares| && i != k ==> shares[i].index != forged.index
    ensures Reconstructed(threshold, shares[k := forged])
         == if FitsShare(polys, forged) then Success(Constants(polys)) else Failure(InconsistentShares)
    ensures forged.index == shares[k].index && forged.value != shares[k].value ==> !FitsShare(polys, forged)
  {
    hide Reconstructed, Eval;
    var tampered := shares[k := forged];
    var honest := shares[..k] + shares[k + 1..];
    assert ValidPoints(threshold, tampered);
    assert ValidPoints(threshold, honest);
    var r := Reconstructed(threshold, tampered);
    ReconstructExact(threshold, tampered, if r.Success? then r.value else Constants(polys));
    ReconstructExact(threshold, tampered, Constants(polys));
    if FitsShare(polys, forged) {
      assert Fits(polys, threshold, tampered);
    } else if r.Success? {
      var polys' :| Fits(polys', threshold, tampered) && r.value == Constants(polys');
      HonestAgree(polys, polys', threshold, shares, tampered, honest, k);
    }
    assert FitsShare(polys, shares[k]);
  }

  /** Families that fit two sets differing in one share fit the shares in common, so they are equal. */
  lemma HonestAgree(polys: seq<seq<Byte>>, polys': seq<seq<Byte>>, threshold: nat,
                    shares: seq<Share>, tampered: seq<Share>, honest: seq<Share>, k: nat)
    requires k < |shares| == |tampered| && honest == shares[..k] + shares[k + 1..]
    requires honest == tampered[..k] + tampered[k + 1..]
    requires ValidPoints(threshold, honest)
    requires Fits(polys, threshold, shares) && Fits(polys', threshold, tampered)
    ensures polys == polys' && FitsShare(polys, tampered[k])
  {
    hide Eval, Basis;
    assert forall share :: share in honest ==> share in shares && share in tampered;
    assert Fits(polys, threshold, honest) && Fits(polys', threshold, honest);
    FitsPrefix(polys, threshold, honest);
    FitsPrefix(polys', threshold, honest);
    BasisUnique(polys, threshold, honest);
    BasisUnique(polys', threshold, honest);
    assert FitsShare(polys', tampered[k]);
  }

  // ----- fewer than threshold shares -----

  /** `observed` are the shares that this secret and table give at those coordinates. */
  predicate Explains(secret: Secret, table: Table, observed: seq<Share>)
    requires |table| == SECRET_LEN
  {
    forall i :: 0 <= i < |observed| ==> observed[i].value == ShareValue(secret, table, observed[i].index)
  }

  /** The one coefficient table under which `secret` produces the observed shares. */
  function Explanation(secret: Secret, observed: seq<Share>): (table: Table)
    ensures |table| == SECRET_LEN
    ensures TableOf(table, |observed| + 1)
  {
    seq(SECRET_LEN, b requires 0 <= b < SECRET_LEN =>
      Interpolant([ZERO] + Indices(observed), [secret[b]] + Column(observed, b))[1..])
  }

  /** Counting form of secrecy: any t - 1 shares are explained by every candidate secret,
      each by exactly one table of coefficients, so the uniform table carries no information about the secret. */
  lemma EveryCandidateOnce(secret: Secret, table: Table, observed: seq<Share>)
    requires ValidIndices(observed) && TableOf(table, |observed| + 1)
    ensures Explains(secret, table, observed) <==> table == Explanation(secret, observed)
  {
    hide Eval, Interpolant;
    var xs := Indices(observed);
    forall b | 0 <= b < SECRET_LEN
      ensures (forall i :: 0 <= i < |xs| ==> Eval([secret[b]] + table[b], xs[i]) == Column(observed, b)[i])
              <==> table[b] == Explanation(secret, observed)[b]
    {
      SecretIndependence(xs, Column(observed, b), secret[b], table[b]);
    }
    if Explains(secret, table, observed) {
      forall b, i | 0 <= b < SECRET_LEN && 0 <= i < |xs|
        ensures Eval([secret[b]] + table[b], xs[i]) == Column(observed, b)[i]
      {
        assert observed[i].value[b] == ShareValue(secret, table, observed[i].index)[b];
      }
    }
    if table == Explanation(secret, observed) {
      forall i | 0 <= i < |observed| ensures observed[i].value == ShareValue(secret, table, observed[i].index) {
        forall b | 0 <= b < 32 ensures observed[i].value[b] == ShareValue(secret, table, observed[i].index)[b] {
          assert Eval([secret[b]] + table[b], xs[i]) == Column(observed, b)[i];
        }
      }
    }
  }
}
