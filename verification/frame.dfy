/** The signed outer frame of an envelope. */
module Frames {
  import opened Wrappers
  import opened Bytes
  import opened Sequences
  import opened Cbor
  import opened PolicyCompile
  import opened Descriptors
  import opened Envelopes
  import opened CryptoLaws

  const SIGN_DOMAIN: Bytes :=
    [0x6c, 0x65, 0x65, 0x6c, 0x6f, 0x2f, 0x76, 0x31, 0x2f, 0x65, 0x6e, 0x76, 0x65, 0x6c, 0x6f, 0x70, 0x65, 0] // "leelo/v1/envelope\0"

  const CONTEXT_DOMAIN: Bytes :=
    [0x6c, 0x65, 0x65, 0x6c, 0x6f, 0x2f, 0x76, 0x31, 0x2f, 0x63, 0x6f, 0x6e, 0x74, 0x65, 0x78, 0x74, 0] // "leelo/v1/context\0"

  datatype AuthenticatedEnvelope = AuthenticatedEnvelope(body: EnvelopeBody, context: Bytes48)

  function ContextOf(c: Crypto, d: Descriptor): Bytes48
    requires Encodable(d)
  {
    c.hash(CONTEXT_DOMAIN + DescriptorEncoding(d))
  }

  function FrameParts(body: Bytes, signature: Bytes64): (parts: seq<Bytes>)
    requires |body| <= 0xffff
    ensures |parts| == 3
  {
    [Head(ARRAY, 2), Str(BYTE_STRING, body), Str(BYTE_STRING, signature)]
  }

  function Frame(body: Bytes, signature: Bytes64): Bytes
    requires |body| <= 0xffff
  {
    Cat(FrameParts(body, signature))
  }

  method PutFrame(body: Bytes, signature: Bytes64) returns (raw: Bytes)
    requires |body| <= 0xffff
    ensures raw == Frame(body, signature)
  {
    hide Head, Str, Cat;
    var e := new Encoder();
    e.PutHead(ARRAY, 2);
    e.PutString(BYTE_STRING, body);
    e.PutString(BYTE_STRING, signature);
    assert e.items == FrameParts(body, signature);
    raw := e.buffer;
  }

  lemma FrameInjective(body: Bytes, signature: Bytes64, body': Bytes, signature': Bytes64)
    requires |body| <= 0xffff && |body'| <= 0xffff && Frame(body, signature) == Frame(body', signature')
    ensures body == body' && signature == signature'
  {
    hide Head, Str, Cat;
    var p, q := FrameParts(body, signature), FrameParts(body', signature');
    assert p[0..] == p && q[0..] == q;
    CutHead(p, q, 0, ARRAY, 2, 2);
    CutString(p, q, 1, BYTE_STRING, body, body');
    CutString(p, q, 2, BYTE_STRING, signature, signature');
  }

  /** A frame around a valid body is within the envelope limit, and its signed message within the context limit. */
  lemma FrameSize(c: Crypto, body: EnvelopeBody, signature: Bytes64)
    requires ValidBody(c.rules, body)
    ensures BodyEncodable(body) && |BodyEncoding(body)| <= 0xffff
    ensures |Frame(BodyEncoding(body), signature)| <= MAX_ENVELOPE
    ensures |SIGN_DOMAIN + BodyEncoding(body)| <= MAX_CONTEXT_BYTES
  {
    BodySize(c.rules, body);
    hide Cat, BodyEncoding, ValidBody;
    var raw := BodyEncoding(body);
    var p := FrameParts(raw, signature);
    assert p == [p[0]] + [p[1], p[2]];
    CatConcat([p[0]], [p[1], p[2]]);
    CatSingle(p[0]);
    CatPair(p[1], p[2]);
  }

  /** `raw` is the frame of `body` under a signature that the trusted key verifies. */
  ghost predicate Signed(c: Crypto, raw: Bytes, trusted: Bytes32, body: EnvelopeBody, signature: Bytes64) {
    && ValidBody(c.rules, body) && BodyEncodable(body) && |BodyEncoding(body)| <= 0xffff
    && raw == Frame(BodyEncoding(body), signature)
    && c.verify(trusted, SIGN_DOMAIN + BodyEncoding(body), signature)
  }

  /** `raw` authenticates as the envelope `e`. */
  ghost predicate Authentic(c: Crypto, raw: Bytes, trusted: Bytes32, e: AuthenticatedEnvelope) {
    exists signature: Bytes64 ::
      Signed(c, raw, trusted, e.body, signature) && e.context == ContextOf(c, e.body.descriptor)
  }

  method Sign(c: Crypto, body: EnvelopeBody, key: Bytes32) returns (result: Result<Bytes, EnvelopeError>)
    requires ValidPolicy(body.descriptor.policy) && SignatureLaw(c)
    ensures result.Success? <==> ValidBody(c.rules, body)
    ensures result.Success? ==> && Encodable(body.descriptor)
                                && Authentic(c, result.value, c.publicKey(key), AuthenticatedEnvelope(body, ContextOf(c, body.descriptor)))
    ensures result.Failure? ==> result.error != InvalidSignature
  {
    hide ValidBody, BodyEncoding, Cat, ValidPolicy, DescriptorError, BlobValid;
    var encoded := BodyBytes(c.rules, body);
    if encoded.Failure? {
      ErrorKinds(c.rules, body.descriptor);
      return Failure(encoded.error);
    }
    FrameSize(c, body, seq(64, _ => 0));
    var message := SIGN_DOMAIN + encoded.value;
    if |message| > MAX_CONTEXT_BYTES {
      return Failure(InvalidSignature);
    }
    var raw := PutFrame(encoded.value, c.sign(key, message));
    assert Signed(c, raw, c.publicKey(key), body, c.sign(key, message));
    result := Success(raw);
  }

  lemma ErrorKinds(rules: KeyRules, d: Descriptor)
    ensures DescriptorError(rules, d) != Some(InvalidSignature)
  {}

  /** Authentication succeeds exactly on the frame of a valid body with a verifying signature. */
  method Authenticate(c: Crypto, raw: Bytes, trusted: Bytes32) returns (result: Result<AuthenticatedEnvelope, EnvelopeError>)
    ensures forall e :: Authentic(c, raw, trusted, e) ==> result == Success(e)
    ensures result.Success? ==> Authentic(c, raw, trusted, result.value)
  {
    hide Signed;
    ghost var want: Option<(EnvelopeBody, Bytes64)> := None;
    if exists e :: Authentic(c, raw, trusted, e) {
      ghost var e :| Authentic(c, raw, trusted, e);
      ghost var signature: Bytes64 :| Signed(c, raw, trusted, e.body, signature);
      want := Some((e.body, signature));
    }
    ghost var signature;
    result, signature := AuthenticateFor(c, raw, trusted, want);
    forall e | Authentic(c, raw, trusted, e) ensures result == Success(e) {
      var proof: Bytes64 :| Signed(c, raw, trusted, e.body, proof);
      SignedOne(c, raw, trusted, e.body, proof, want.value.0, want.value.1);
    }
  }

  lemma SignedOne(c: Crypto, raw: Bytes, trusted: Bytes32, b: EnvelopeBody, s: Bytes64, b': EnvelopeBody, s': Bytes64)
    requires Signed(c, raw, trusted, b, s) && Signed(c, raw, trusted, b', s')
    ensures b == b' && Encodable(b.descriptor)
  {
    hide Cat;
    FrameInjective(BodyEncoding(b), s, BodyEncoding(b'), s');
    EncodesOne(c.rules, BodyEncoding(b), b, b');
  }

  /** Split a frame into body and signature, consuming all input. */
  method ReadFrame(raw: Bytes, ghost want: Option<(Bytes, Bytes64)>) returns (result: Option<(Bytes, Bytes64)>)
    requires want.Some? ==> |want.value.0| <= 0xffff && raw == Frame(want.value.0, want.value.1)
    ensures want.Some? ==> result == want
  {
    hide Head, Str, Cat;
    ghost var all: seq<Bytes> := if want.Some? then FrameParts(want.value.0, want.value.1) else [];
    var d := new Decoder(raw, want.Some?, all);
    var ok := GetArrayOf(d, 2);
    assert want.Some? ==> d.Left(all[1..]);
    if !ok {
      return None;
    }
    var inner := d.GetString(BYTE_STRING);
    assert want.Some? ==> d.Left(all[2..]);
    if inner.None? {
      return None;
    }
    var signature := GetFixed(d, 64);
    assert want.Some? ==> d.Left([]);
    if want.Some? {
      CatEmpty();
    }
    if signature.None? || d.position != |raw| {
      return None;
    }
    result := Some((inner.value, signature.value));
  }

  method AuthenticateFor(c: Crypto, raw: Bytes, trusted: Bytes32, ghost want: Option<(EnvelopeBody, Bytes64)>)
    returns (result: Result<AuthenticatedEnvelope, EnvelopeError>, ghost signed: Bytes64)
    requires want.Some? ==> Signed(c, raw, trusted, want.value.0, want.value.1)
    ensures want.Some? ==> Encodable(want.value.0.descriptor)
                           && result == Success(AuthenticatedEnvelope(want.value.0, ContextOf(c, want.value.0.descriptor)))
    ensures result.Success? ==>
              && Signed(c, raw, trusted, result.value.body, signed)
              && result.value.context == ContextOf(c, result.value.body.descriptor)
  {
    hide Head, Str, Cat, ValidBody, BodyEncoding, DescriptorEncoding;
    signed := seq(64, _ => 0);
    ghost var parts: Option<(Bytes, Bytes64)> := None;
    if want.Some? {
      FrameSize(c, want.value.0, want.value.1);
      parts := Some((BodyEncoding(want.value.0), want.value.1));
    }
    if |raw| > MAX_ENVELOPE {
      return Failure(TooLarge), signed;
    }
    var split := ReadFrame(raw, parts);
    if split.None? {
      return Failure(Malformed), signed;
    }
    var (inner, signature) := split.value;
    if |SIGN_DOMAIN + inner| > MAX_CONTEXT_BYTES || !c.verify(trusted, SIGN_DOMAIN + inner, signature) {
      return Failure(InvalidSignature), signed;
    }
    var again := PutFrame(inner, signature);
    if again != raw {
      return Failure(NonCanonical), signed;
    }
    var body := ReadBody(c.rules, inner);
    assert want.Some? ==> Encodes(c.rules, inner, want.value.0);
    if body.Failure? {
      return Failure(body.error), signed;
    }
    assert Encodes(c.rules, inner, body.value);
    signed := signature;
    result := Success(AuthenticatedEnvelope(body.value, ContextOf(c, body.value.descriptor)));
  }
}
