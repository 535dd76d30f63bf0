/** How the key of each leaf is derived and its share opened. */
module LeafKeys {
  import opened Wrappers
  import opened Bytes
  import opened Sharing
  import opened Descriptors
  import opened NetworkPhase
  import opened CryptoLaws
  import opened Frames

  const LEAF_DOMAIN: Bytes :=
    [0x6c, 0x65, 0x65, 0x6c, 0x6f, 0x2f, 0x76, 0x31, 0x2f, 0x6c, 0x65, 0x61, 0x66, 0] // "leelo/v1/leaf\0"

  const INPUT_DOMAIN: Bytes := // "leelo/v1/network-input\0"
    [0x6c, 0x65, 0x65, 0x6c, 0x6f, 0x2f, 0x76, 0x31, 0x2f, 0x6e, 0x65, 0x74, 0x77, 0x6f, 0x72, 0x6b, 0x2d, 0x69, 0x6e, 0x70, 0x75, 0x74, 0]

  const TPM_WRAP: Bytes :=
    [0x6c, 0x65, 0x65, 0x6c, 0x6f, 0x2f, 0x76, 0x31, 0x2f, 0x74, 0x70, 0x6d, 0x2d, 0x77, 0x72, 0x61, 0x70] // "leelo/v1/tpm-wrap"

  const LUKS_SLOT: Bytes :=
    [0x6c, 0x65, 0x65, 0x6c, 0x6f, 0x2f, 0x76, 0x31, 0x2f, 0x6c, 0x75, 0x6b, 0x73, 0x2d, 0x73, 0x6c, 0x6f, 0x74] // "leelo/v1/luks-slot"

  function LeafContext(context: Bytes48, id: U8): Bytes {
    LEAF_DOMAIN + context + [id]
  }

  function NetworkInput(d: Descriptor, b: NetworkBinding): Bytes {
    INPUT_DOMAIN + d.bindingId + [b.nodeId] + b.inputSeed
  }

  /** No two leaves, of one envelope or of two, share a wrapping context. */
  lemma LeafContextInjective(context: Bytes48, id: U8, context': Bytes48, id': U8)
    requires LeafContext(context, id) == LeafContext(context', id')
    ensures context == context' && id == id'
  {
    var n := |LEAF_DOMAIN|;
    assert context == LeafContext(context, id)[n..n + 48];
    assert context' == LeafContext(context', id')[n..n + 48];
    assert id == LeafContext(context, id)[n + 48] && id' == LeafContext(context', id')[n + 48];
  }

  /** Nor an evaluation input. */
  lemma NetworkInputInjective(d: Descriptor, b: NetworkBinding, d': Descriptor, b': NetworkBinding)
    requires NetworkInput(d, b) == NetworkInput(d', b')
    ensures d.bindingId == d'.bindingId && b.nodeId == b'.nodeId && b.inputSeed == b'.inputSeed
  {
    var n := |INPUT_DOMAIN|;
    var input, input' := NetworkInput(d, b), NetworkInput(d', b');
    assert d.bindingId == input[n..n + 32] && d'.bindingId == input'[n..n + 32];
    assert b.nodeId == input[n + 32] && b'.nodeId == input'[n + 32];
    assert b.inputSeed == input[n + 33..] && b'.inputSeed == input'[n + 33..];
  }

  /** The wrapping key from a provider's reply to the blinded input. */
  function NetworkKey(c: Crypto, d: Descriptor, b: NetworkBinding, context: Bytes48, blinding: nat, reply: Result<Bytes, NetworkFailure>)
    : Result<Secret, NetworkFailure>
  {
    if reply.Failure? then Failure(reply.error)
    else if !c.rules.isKey(b.publicKey) then Failure(Configuration)
    else match c.finalize(NetworkInput(d, b), blinding, reply.value, b.publicKey)
         case None => Failure(InvalidProof)
         case Some(output) => Success(c.wrapKey(output, LeafContext(context, b.nodeId)))
  }

  function FindWrapped(leaves: seq<WrappedLeaf>, id: U8): Option<WrappedKey> {
    if leaves == [] then None
    else if leaves[0].nodeId == id then Some(leaves[0].value)
    else FindWrapped(leaves[1..], id)
  }

  /** One provider's evaluation: derive the key from its reply and open the leaf that carries its identity. */
  function RecoverLeaf(c: Crypto, e: AuthenticatedEnvelope, b: NetworkBinding, blinding: nat, reply: Result<Bytes, NetworkFailure>)
    : LeafResult
  {
    match NetworkKey(c, e.body.descriptor, b, e.context, blinding, reply)
    case Failure(kind) => Failure(kind)
    case Success(key) =>
      match FindWrapped(e.body.leaves, b.nodeId)
      case None => Failure(Configuration)
      case Some(wrapped) =>
        match c.open(key, wrapped, LeafContext(e.context, b.nodeId))
        case None => Failure(Authentication)
        case Some(share) => Success(share)
  }

  /** The leaf of binding `b` opens to `share` under the key of its pseudorandom output. */
  predicate LeafHolds(c: Crypto, e: AuthenticatedEnvelope, b: NetworkBinding, share: Secret) {
    && c.rules.isKey(b.publicKey)
    && FindWrapped(e.body.leaves, b.nodeId).Some?
    && var leafContext := LeafContext(e.context, b.nodeId);
       c.open(c.wrapKey(c.prf(b.publicKey, NetworkInput(e.body.descriptor, b)), leafContext),
              FindWrapped(e.body.leaves, b.nodeId).value, leafContext) == Some(share)
  }

  /** Whatever a provider replies, an authenticated leaf is the enrolled share; and the enrolled key's own answer, to
      whichever blinding, authenticates. */
  lemma RecoverLeafExact(c: Crypto, e: AuthenticatedEnvelope, b: NetworkBinding, blinding: nat, reply: Result<Bytes, NetworkFailure>,
                         share: Secret)
    requires Laws(c) && LeafHolds(c, e, b, share)
    ensures RecoverLeaf(c, e, b, blinding, reply).Success? ==> RecoverLeaf(c, e, b, blinding, reply) == Success(share)
    ensures var blinded := c.blind(NetworkInput(e.body.descriptor, b), blinding);
            reply == Success(c.evaluate(b.publicKey, blinded)) ==> RecoverLeaf(c, e, b, blinding, reply) == Success(share)
    ensures RecoverLeaf(c, e, b, blinding, reply)
         == if reply.Failure? then Failure(reply.error)
            else if c.finalize(NetworkInput(e.body.descriptor, b), blinding, reply.value, b.publicKey).None? then Failure(InvalidProof)
            else Success(share)
  {
    hide LeafContext, NetworkInput, FindWrapped;
  }
}
