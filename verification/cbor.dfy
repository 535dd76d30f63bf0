/** Deterministic CBOR heads and strings (sections 3 and 4.2.1 of RFC 8949), with a decoder that also accepts
    longer heads than needed. */
module Cbor {
  import opened Wrappers
  import opened Bytes
  import opened Sequences

  // ----- big-endian integers -----

  function Pow256(w: nat): (p: nat)
    ensures p > 0
  {
    if w == 0 then 1 else 256 * Pow256(w - 1)
  }

  function BigEndian(n: nat, w: nat): (b: Bytes)
    ensures |b| == w
  {
    if w == 0 then [] else BigEndian(n / 256, w - 1) + [n % 256]
  }

  function FromBig(b: Bytes): nat {
    if b == [] then 0 else FromBig(b[..|b| - 1]) * 256 + b[|b| - 1]
  }

  lemma {:induction false} BigEndianRoundTrip(n: nat, w: nat)
    requires n < Pow256(w)
    ensures FromBig(BigEndian(n, w)) == n
  {
    if w > 0 {
      BigEndianRoundTrip(n / 256, w - 1);
      assert BigEndian(n, w)[..w - 1] == BigEndian(n / 256, w - 1);
    }
  }

  lemma {:induction false} FromBigBound(b: Bytes)
    ensures FromBig(b) < Pow256(|b|)
  {
    if b != [] {
      FromBigBound(b[..|b| - 1]);
    }
  }

  lemma Powers()
    ensures Pow256(1) == 0x100 && Pow256(2) == 0x1_0000
    ensures Pow256(4) == 0x1_0000_0000 && Pow256(8) == 0x1_0000_0000_0000_0000
  {
    assert Pow256(2) == 256 * 256;
    assert Pow256(3) == 256 * Pow256(2);
    assert Pow256(4) == 256 * Pow256(3);
    assert Pow256(5) == 256 * Pow256(4);
    assert Pow256(6) == 256 * Pow256(5);
    assert Pow256(7) == 256 * Pow256(6);
    assert Pow256(8) == 256 * Pow256(7);
  }

  // ----- heads -----

  const UNSIGNED: nat := 0
  const BYTE_STRING: nat := 2
  const TEXT_STRING: nat := 3
  const ARRAY: nat := 4

  /** The shortest head for a major type and argument. */
  function Head(major: nat, n: U64): (b: Bytes)
    requires major < 8
    ensures 1 <= |b| <= 9
  {
    if n < 24 then [32 * major + n]
    else if n < 0x100 then [32 * major + 24] + BigEndian(n, 1)
    else if n < 0x1_0000 then [32 * major + 25] + BigEndian(n, 2)
    else if n < 0x1_0000_0000 then [32 * major + 26] + BigEndian(n, 4)
    else [32 * major + 27] + BigEndian(n, 8)
  }

  datatype Argument = Definite(n: U64) | Indefinite

  datatype HeadItem = HeadItem(major: nat, argument: Argument, length: nat)

  function Width(info: nat): nat
    requires 24 <= info <= 27
  {
    if info == 24 then 1 else if info == 25 then 2 else if info == 26 then 4 else 8
  }

  /** Read a head of any width. */
  function DecodeHead(raw: Bytes): (item: Option<HeadItem>)
    ensures item.Some? ==> 0 < item.value.length <= |raw|
  {
    if raw == [] then None
    else
      var major, info := raw[0] / 32, raw[0] % 32;
      if info < 24 then Some(HeadItem(major, Definite(info), 1))
      else if info <= 27 then
        var w := Width(info);
        if |raw| < 1 + w then None
        else
          FromBigBound(raw[1..1 + w]);
          Powers();
          Some(HeadItem(major, Definite(FromBig(raw[1..1 + w])), 1 + w))
      else if info == 31 then Some(HeadItem(major, Indefinite, 1))
      else None
  }

  lemma WideHead(major: nat, n: U64, rest: Bytes, info: nat)
    requires major < 8 && 24 <= info <= 27 && n < Pow256(Width(info))
    ensures DecodeHead([32 * major + info] + BigEndian(n, Width(info)) + rest)
         == Some(HeadItem(major, Definite(n), 1 + Width(info)))
  {
    hide BigEndian, FromBig, Pow256;
    var w := Width(info);
    var raw := [32 * major + info] + BigEndian(n, w) + rest;
    assert raw[1..1 + w] == BigEndian(n, w);
    BigEndianRoundTrip(n, w);
    assert raw[0] / 32 == major && raw[0] % 32 == info;
  }

  lemma HeadRoundTrip(major: nat, n: U64, rest: Bytes)
    requires major < 8
    ensures DecodeHead(Head(major, n) + rest) == Some(HeadItem(major, Definite(n), |Head(major, n)|))
  {
    hide BigEndian, FromBig, Pow256, DecodeHead;
    Powers();
    if n < 24 {
      SmallHead(major, n, rest);
    } else if n < 0x100 {
      WideHead(major, n, rest, 24);
    } else if n < 0x1_0000 {
      WideHead(major, n, rest, 25);
    } else if n < 0x1_0000_0000 {
      WideHead(major, n, rest, 26);
    } else {
      WideHead(major, n, rest, 27);
    }
  }

  lemma SmallHead(major: nat, n: U64, rest: Bytes)
    requires major < 8 && n < 24
    ensures DecodeHead([32 * major + n] + rest) == Some(HeadItem(major, Definite(n), 1))
  {
    assert (32 * major + n) / 32 == major && (32 * major + n) % 32 == n;
  }

  /** A string of the given major type. */
  function Str(major: nat, b: Bytes): Bytes
    requires major < 8 && |b| < 0x1_0000_0000
  {
    Head(major, |b|) + b
  }

  // ----- encoder -----

  /** An append-only buffer; `items` are the encoded items written so far. */
  class Encoder {
    var buffer: Bytes
    ghost var items: seq<Bytes>

    ghost predicate Valid()
      reads this
    {
      buffer == Cat(items)
    }

    constructor ()
      ensures Valid() && items == []
    {
      buffer, items := [], [];
    }

    method Put(item: Bytes)
      requires Valid()
      modifies this
      ensures Valid() && items == old(items) + [item]
    {
      CatConcat(items, [item]);
      CatSingle(item);
      buffer := buffer + item;
      items := items + [item];
    }

    method PutHead(major: nat, n: U64)
      requires Valid() && major < 8
      modifies this
      ensures Valid() && items == old(items) + [Head(major, n)]
    {
      if n < 24 {
        Put([32 * major + n]);
      } else if n < 0x100 {
        Put([32 * major + 24] + BigEndian(n, 1));
      } else if n < 0x1_0000 {
        Put([32 * major + 25] + BigEndian(n, 2));
      } else if n < 0x1_0000_0000 {
        Put([32 * major + 26] + BigEndian(n, 4));
      } else {
        Put([32 * major + 27] + BigEndian(n, 8));
      }
    }

    method PutString(major: nat, b: Bytes)
      requires Valid() && major < 8 && |b| < 0x1_0000_0000
      modifies this
      ensures Valid() && items == old(items) + [Str(major, b)]
    {
      hide Head;
      PutHead(major, |b|);
      Put(b);
      Fold(|old(items)|);
      CatPair(Head(major, |b|), b);
    }

    /** Regard everything after the first `n` items as one item. */
    ghost method Fold(n: nat)
      requires Valid() && n <= |items|
      modifies this`items
      ensures Valid() && items == old(items)[..n] + [Cat(old(items)[n..])]
    {
      CatFold(items[..n], items[n..], []);
      assert items[..n] + items[n..] + [] == items;
      items := items[..n] + [Cat(items[n..])];
      assert items + [] == items;
    }
  }

  lemma CatPair(a: Bytes, b: Bytes)
    ensures Cat([a, b]) == a + b
  {
    assert [a, b] == [a] + [b];
    CatConcat([a], [b]);
    CatSingle(a);
    CatSingle(b);
  }

  // ----- decoder -----

  /** What reading a head of this major type from `from` gives on any input, and where it stops. */
  predicate HeadRead(raw: Bytes, from: nat, major: nat, argument: Option<Argument>, to: nat) {
    from <= |raw| &&
    match DecodeHead(raw[from..])
    case Some(item) =>
      if item.major == major then argument == Some(item.argument) && to == from + item.length else argument == None && to == from
    case None => argument == None && to == from
  }

  /** What reading a string gives on any input: the bytes its head announces, if they are there. */
  predicate StringRead(raw: Bytes, from: nat, major: nat, b: Option<Bytes>, to: nat) {
    from <= |raw| &&
    match DecodeHead(raw[from..])
    case Some(item) =>
      var start := from + item.length;
      if item.major == major && item.argument.Definite? && item.argument.n <= |raw| - start
      then b == Some(raw[start..start + item.argument.n]) && to == start + item.argument.n
      else b == None && to == from
    case None => b == None && to == from
  }

  /** A cursor over `raw`. While `known`, the rest of the input is exactly the `expected` items: an item of the kind
      being read is then consumed, and anything else ends the expectation. */
  class Decoder {
    const raw: Bytes
    var position: nat
    ghost var known: bool
    ghost var expected: seq<Bytes>

    ghost predicate Valid()
      reads this
    {
      position <= |raw| && (known ==> raw[position..] == Cat(expected))
    }

    constructor (raw: Bytes, ghost known: bool, ghost expected: seq<Bytes>)
      requires known ==> Cat(expected) == raw
      ensures this.raw == raw && this.known == known && this.expected == expected && Valid() && position == 0
    {
      this.raw := raw;
      position := 0;
      this.known := known;
      this.expected := expected;
    }

    ghost predicate Next(item: Bytes)
      reads this
    {
      known && expected != [] && expected[0] == item
    }

    ghost predicate Left(items: seq<Bytes>)
      reads this
    {
      known && expected == items
    }

    /** Expect the parts of the next item one by one. */
    ghost method Expand(parts: seq<Bytes>)
      requires Valid() && Next(Cat(parts))
      modifies this`expected
      ensures Valid() && Left(parts + old(expected)[1..])
    {
      CatFold([], parts, expected[1..]);
      assert [] + parts + expected[1..] == parts + expected[1..];
      assert [] + [Cat(parts)] + expected[1..] == expected;
      expected := parts + expected[1..];
    }

    /** Move to `end`, which is past the first expected item if `met`. */
    method Advance(end: nat, ghost met: bool)
      requires Valid() && position <= end <= |raw|
      requires met ==> known && expected != [] && end == position + |expected[0]|
      modifies this
      ensures Valid() && position == end
      ensures met ==> Left(old(expected)[1..])
    {
      if met {
        assert raw[end..] == raw[position..][|expected[0]|..];
        assert Cat(expected)[|expected[0]|..] == Cat(expected[1..]);
        expected := expected[1..];
      } else {
        known := false;
      }
      position := end;
    }

    /** The next head, if it has the expected major type. Any encoded head is read back, shortest or not. */
    method GetHead(major: nat) returns (argument: Option<Argument>)
      requires Valid() && major < 8
      modifies this
      ensures Valid() && HeadRead(raw, old(position), major, argument, position)
      ensures forall n: U64 :: old(Next(Head(major, n))) ==>
                argument == Some(Definite(n)) && Left(old(expected)[1..])
    {
      hide Head, DecodeHead, Cat;
      var item := DecodeHead(raw[position..]);
      forall n: U64 | Next(Head(major, n)) ensures item == Some(HeadItem(major, Definite(n), |Head(major, n)|)) {
        HeadAt(raw, position, expected, major, n);
      }
      ghost var met := exists n: U64 :: Next(Head(major, n));
      if item.None? || item.value.major != major {
        Advance(position, false);
        return None;
      }
      Advance(position + item.value.length, met);
      argument := Some(item.value.argument);
    }

    /** An unsigned integer below `limit`. */
    method GetUint(limit: nat) returns (n: Option<nat>)
      requires Valid()
      modifies this
      ensures Valid()
      ensures n.Some? ==> n.value < limit
      ensures forall k: U64 :: old(Next(Head(UNSIGNED, k))) && k < limit ==> n == Some(k) && Left(old(expected)[1..])
    {
      hide Head, Cat, HeadRead;
      var argument := GetHead(UNSIGNED);
      if argument.None? || argument.value.Indefinite? || argument.value.n >= limit {
        return None;
      }
      n := Some(argument.value.n);
    }

    /** The number of elements of a definite-length array. */
    method GetArray() returns (n: Option<nat>)
      requires Valid()
      modifies this
      ensures Valid()
      ensures forall k: U64 :: old(Next(Head(ARRAY, k))) ==> n == Some(k) && Left(old(expected)[1..])
    {
      hide Head, Cat, HeadRead;
      var argument := GetHead(ARRAY);
      if argument.None? || argument.value.Indefinite? {
        return None;
      }
      n := Some(argument.value.n);
    }

    /** A definite-length string of the given major type. */
    method GetString(major: nat) returns (b: Option<Bytes>)
      requires Valid() && major < 8
      modifies this
      ensures Valid() && StringRead(raw, old(position), major, b, position)
      ensures forall s: Bytes :: |s| < 0x1_0000_0000 && old(Next(Str(major, s))) ==> b == Some(s) && Left(old(expected)[1..])
    {
      hide Head, Cat, DecodeHead, At, Str;
      ghost var from, parts := position, expected;
      ghost var met := exists s: Bytes :: |s| < 0x1_0000_0000 && Next(Str(major, s));
      if met {
        ghost var s: Bytes :| |s| < 0x1_0000_0000 && Next(Str(major, s));
        StringAt(raw, from, parts, major, s);
      }
      var item := DecodeHead(raw[position..]);
      if item.None? || item.value.major != major || item.value.argument.Indefinite?
         || item.value.argument.n > |raw| - position - item.value.length {
        Advance(position, false);
        return None;
      }
      var start, n := position + item.value.length, item.value.argument.n;
      b := Some(raw[start..start + n]);
      Advance(start + n, met);
      forall s: Bytes | |s| < 0x1_0000_0000 && met && parts != [] && parts[0] == Str(major, s) ensures b == Some(s) {
        StringAt(raw, from, parts, major, s);
      }
    }
  }

  lemma HeadAt(raw: Bytes, position: nat, expected: seq<Bytes>, major: nat, n: U64)
    requires position <= |raw| && raw[position..] == Cat(expected) && expected != [] && major < 8 && expected[0] == Head(major, n)
    ensures DecodeHead(raw[position..]) == Some(HeadItem(major, Definite(n), |Head(major, n)|))
  {
    hide Head, DecodeHead;
    HeadRoundTrip(major, n, Cat(expected[1..]));
  }

  lemma StringAt(raw: Bytes, position: nat, expected: seq<Bytes>, major: nat, s: Bytes)
    requires position <= |raw| && raw[position..] == Cat(expected) && expected != [] && major < 8
    requires |s| < 0x1_0000_0000 && expected[0] == Str(major, s)
    ensures var h := |Head(major, |s|)|;
            && DecodeHead(raw[position..]) == Some(HeadItem(major, Definite(|s|), h)) && |Str(major, s)| == h + |s|
            && position + h + |s| <= |raw| && raw[position + h..position + h + |s|] == s
  {
    hide Head, DecodeHead;
    var head, rest := Head(major, |s|), Cat(expected[1..]);
    assert raw[position..] == head + (s + rest);
    HeadRoundTrip(major, |s|, s + rest);
    var h := |head|;
    assert raw[position + h..position + h + |s|] == (head + (s + rest))[h..h + |s|];
  }

  // ----- no two values share an encoding -----

  lemma HeadCancel(major: nat, a: U64, b: U64, r: Bytes, t: Bytes)
    requires major < 8 && Head(major, a) + r == Head(major, b) + t
    ensures a == b && r == t
  {
    hide Head, DecodeHead;
    HeadRoundTrip(major, a, r);
    HeadRoundTrip(major, b, t);
    assert r == (Head(major, a) + r)[|Head(major, a)|..];
    assert t == (Head(major, b) + t)[|Head(major, b)|..];
  }

  /** Equal concatenations whose item `k` is a head on both sides have the same head there and agree after it. */
  lemma CutHead(p: seq<Bytes>, q: seq<Bytes>, k: nat, major: nat, a: U64, b: U64)
    requires major < 8 && k < |p| && k < |q| && p[k] == Head(major, a) && q[k] == Head(major, b)
    requires Cat(p[k..]) == Cat(q[k..])
    ensures a == b && Cat(p[k + 1..]) == Cat(q[k + 1..])
  {
    hide Head;
    assert p[k..][1..] == p[k + 1..] && q[k..][1..] == q[k + 1..];
    HeadCancel(major, a, b, Cat(p[k + 1..]), Cat(q[k + 1..]));
  }

  lemma CutString(p: seq<Bytes>, q: seq<Bytes>, k: nat, major: nat, s: Bytes, t: Bytes)
    requires major < 8 && |s| < 0x1_0000_0000 && |t| < 0x1_0000_0000
    requires k < |p| && k < |q| && p[k] == Str(major, s) && q[k] == Str(major, t)
    requires Cat(p[k..]) == Cat(q[k..])
    ensures s == t && Cat(p[k + 1..]) == Cat(q[k + 1..])
  {
    hide Head;
    assert p[k..][1..] == p[k + 1..] && q[k..][1..] == q[k + 1..];
    var r1, r2 := Cat(p[k + 1..]), Cat(q[k + 1..]);
    assert Str(major, s) + r1 == Head(major, |s|) + (s + r1);
    assert Str(major, t) + r2 == Head(major, |t|) + (t + r2);
    HeadCancel(major, |s|, |t|, s + r1, t + r2);
    assert s == (s + r1)[..|s|] && r1 == (s + r1)[|s|..];
    assert t == (t + r2)[..|t|] && r2 == (t + r2)[|t|..];
  }

  /** An item that is itself a concatenation can be opened up. */
  lemma CutOpen(p: seq<Bytes>, k: nat, parts: seq<Bytes>)
    requires k < |p| && p[k] == Cat(parts)
    ensures Cat(p[k..]) == Cat(parts + p[k + 1..])
  {
    CatFold([], parts, p[k + 1..]);
    assert [] + parts + p[k + 1..] == parts + p[k + 1..];
    assert [] + [Cat(parts)] + p[k + 1..] == p[k..];
  }
}
