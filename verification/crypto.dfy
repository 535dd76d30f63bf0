/** The cryptographic primitives the engine is built on, as functions with the laws it relies on. */
module CryptoLaws {
  import opened Wrappers
  import opened Bytes
  import GF256
  import opened Sharing
  import opened Descriptors

  const MAX_CONTEXT_BYTES: nat := 65_536

  /** HKDF, AEAD, VOPRF, hash and signature. Randomness is an explicit argument. */
  datatype Crypto = Crypto(
    rules: KeyRules,
    hash: Bytes -> Bytes48,
    publicKey: Bytes32 -> Bytes32,
    sign: (Bytes32, Bytes) -> Bytes64,
    verify: (Bytes32, Bytes, Bytes64) -> bool,
    derive: (Secret, Bytes, Bytes) -> Secret,
    wrapKey: (Bytes48, Bytes) -> Secret,
    seal: (Secret, Secret, Bytes, Bytes12) -> Bytes48,
    open: (Secret, WrappedKey, Bytes) -> Option<Secret>,
    blind: (Bytes, nat) -> Bytes49,
    evaluate: (Bytes49, Bytes49) -> Bytes,
    finalize: (Bytes, nat, Bytes, Bytes49) -> Option<Bytes48>,
    prf: (Bytes49, Bytes) -> Bytes48)

  /** A signature by a key verifies under its public key. */
  ghost predicate SignatureLaw(c: Crypto) {
    forall key, message :: c.verify(c.publicKey(key), message, c.sign(key, message))
  }

  /** Opening what was sealed under the same key and context gives the plaintext. */
  ghost predicate AeadLaw(c: Crypto) {
    forall key, plaintext, aad, nonce :: c.open(key, WrappedKey(nonce, c.seal(key, plaintext, aad, nonce)), aad) == Some(plaintext)
  }

  /** The server's answer finalizes to the pseudorandom output for that key, for every blind. */
  ghost predicate VoprfLaw(c: Crypto) {
    forall key, input, r :: c.finalize(input, r, c.evaluate(key, c.blind(input, r)), key) == Some(c.prf(key, input))
  }

  /** Verifiability: whatever evaluation passes the proof check gives that same output. */
  ghost predicate VerifiableLaw(c: Crypto) {
    forall key, input, r, evaluation ::
      c.finalize(input, r, evaluation, key).Some? ==> c.finalize(input, r, evaluation, key) == Some(c.prf(key, input))
  }

  ghost predicate Laws(c: Crypto) {
    SignatureLaw(c) && AeadLaw(c) && VoprfLaw(c) && VerifiableLaw(c)
  }

  // ----- the laws are consistent -----

  function Weighted(one: bool, rest: nat): nat { (if one then 1 else 0) + 2 * rest }

  predicate BitSet(b: GF256.Byte, mask: bv8) { b.bits & mask != 0 }

  /** A byte as a number. */
  function Number(b: GF256.Byte): nat {
    Weighted(BitSet(b, 1), Weighted(BitSet(b, 2), Weighted(BitSet(b, 4), Weighted(BitSet(b, 8),
      Weighted(BitSet(b, 16), Weighted(BitSet(b, 32), Weighted(BitSet(b, 64), Weighted(BitSet(b, 128), 0))))))))
  }

  lemma WeightedDigit(one: bool, rest: nat)
    ensures Odd(Weighted(one, rest)) == one && Half(Weighted(one, rest)) == rest
  {}

  lemma WeightedBound(one: bool, rest: nat, n: nat)
    requires rest < n
    ensures Weighted(one, rest) < 2 * n
  {}

  lemma ComposeBits(b: GF256.Byte)
    ensures Compose(BitSet(b, 1), BitSet(b, 2), BitSet(b, 4), BitSet(b, 8), BitSet(b, 16), BitSet(b, 32), BitSet(b, 64), BitSet(b, 128)) == b
  {}

  /** The coordinate of a byte's number is the byte. */
  lemma NumberRoundTrip(b: GF256.Byte)
    ensures Number(b) < 256 && Coordinate(Number(b)) == b
  {
    hide Weighted, BitSet, Compose, Odd, Half;
    var n7 := Weighted(BitSet(b, 128), 0);
    var n6 := Weighted(BitSet(b, 64), n7);
    var n5 := Weighted(BitSet(b, 32), n6);
    var n4 := Weighted(BitSet(b, 16), n5);
    var n3 := Weighted(BitSet(b, 8), n4);
    var n2 := Weighted(BitSet(b, 4), n3);
    var n1 := Weighted(BitSet(b, 2), n2);
    WeightedDigit(BitSet(b, 128), 0);
    WeightedDigit(BitSet(b, 64), n7);
    WeightedDigit(BitSet(b, 32), n6);
    WeightedDigit(BitSet(b, 16), n5);
    WeightedDigit(BitSet(b, 8), n4);
    WeightedDigit(BitSet(b, 4), n3);
    WeightedDigit(BitSet(b, 2), n2);
    WeightedDigit(BitSet(b, 1), n1);
    WeightedBound(BitSet(b, 128), 0, 1);
    WeightedBound(BitSet(b, 64), n7, 2);
    WeightedBound(BitSet(b, 32), n6, 4);
    WeightedBound(BitSet(b, 16), n5, 8);
    WeightedBound(BitSet(b, 8), n4, 16);
    WeightedBound(BitSet(b, 4), n3, 32);
    WeightedBound(BitSet(b, 2), n2, 64);
    WeightedBound(BitSet(b, 1), n1, 128);
    ComposeBits(b);
  }

  function Carried(plaintext: Secret): Bytes48 {
    seq(48, i requires 0 <= i < 48 => if i < 32 then NumberRoundTrip(plaintext[i]); Number(plaintext[i]) else 0)
  }

  function Extracted(ciphertext: Bytes48): Secret {
    seq(32, i requires 0 <= i < 32 => Coordinate(ciphertext[i]))
  }

  lemma ExtractCarried(plaintext: Secret)
    ensures Extracted(Carried(plaintext)) == plaintext
  {
    hide Number, Coordinate;
    forall i | 0 <= i < 32 ensures Extracted(Carried(plaintext))[i] == plaintext[i] {
      NumberRoundTrip(plaintext[i]);
    }
  }

  /** Primitives without any secrecy that still keep every law. */
  const TRANSPARENT: Crypto := Crypto(
    KeyRules(key => key[..32], _ => true),
    _ => seq(48, _ => 0),
    key => key,
    (_, _) => seq(64, _ => 0),
    (_, _, _) => true,
    (secret, _, _) => secret,
    (_, _) => seq(32, _ => GF256.ZERO),
    (_, plaintext, _, _) => Carried(plaintext),
    (_, wrapped: WrappedKey, _) => Some(Extracted(wrapped.ciphertext)),
    (_, _) => seq(49, _ => 0),
    (_, _) => [],
    (_, _, _, _) => Some(seq(48, _ => 0)),
    (_, _) => seq(48, _ => 0))

  lemma LawsConsistent()
    ensures Laws(TRANSPARENT)
  {
    hide Carried, Extracted;
    forall key, plaintext, aad, nonce
      ensures TRANSPARENT.open(key, WrappedKey(nonce, TRANSPARENT.seal(key, plaintext, aad, nonce)), aad) == Some(plaintext)
    {
      ExtractCarried(plaintext);
    }
  }
}
