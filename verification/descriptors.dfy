/** The values an envelope carries, and the rules a descriptor must meet. */
module Descriptors {
  import opened Sequences
  import opened Wrappers
  import opened Bytes
  import opened PolicyTree
  import opened PolicyCompile
  import opened PolicyDecision

  const MAX_TPM_BLOB: nat := 4096

  datatype NetworkBinding = NetworkBinding(
    nodeId: U8, providerId: Bytes32, keyId: Bytes32, publicKey: Bytes49, inputSeed: Bytes32)

  datatype Descriptor = Descriptor(
    bindingId: Bytes32, volumeUuid: Bytes16, slot: U8, generation: U64, policy: ProductionPolicy,
    networks: seq<NetworkBinding>, pcrMask: U32, pcrDigest: Bytes32)

  datatype TpmBlob = TpmBlob(public: Bytes, private: Bytes, name: Bytes, parentName: Bytes)

  datatype WrappedKey = WrappedKey(nonce: Bytes12, ciphertext: Bytes48)

  datatype WrappedLeaf = WrappedLeaf(nodeId: U8, value: WrappedKey)

  datatype EnvelopeBody = EnvelopeBody(descriptor: Descriptor, tpm: TpmBlob, leaves: seq<WrappedLeaf>, payload: WrappedKey)

  datatype EnvelopeError =
    | TooLarge
    | Malformed
    | NonCanonical
    | Unsupported
    | InvalidPolicy
    | InvalidProvider
    | InvalidSignature

  /** Key rules supplied by the protocol crate: the identity of a public key, and which encodings are keys. */
  datatype KeyRules = KeyRules(keyId: Bytes49 -> Bytes32, isKey: Bytes49 -> bool)

  predicate FieldsValid(d: Descriptor) {
    && d.slot < 32
    && d.generation != 0
    && d.bindingId != seq(32, _ => 0)
    && d.volumeUuid != seq(16, _ => 0)
    && 0 < d.pcrMask < 0x0100_0000
  }

  /** Bindings follow the policy's leaves in order, and each carries the identity of its own public key. */
  predicate BindingMatches(rules: KeyRules, leaf: LeafEntry, binding: NetworkBinding) {
    && leaf == (binding.nodeId, binding.providerId)
    && binding.keyId == rules.keyId(binding.publicKey)
    && rules.isKey(binding.publicKey)
  }

  predicate ProvidersValid(rules: KeyRules, d: Descriptor) {
    && |d.networks| == |d.policy.plan.leaves|
    && (forall i :: 0 <= i < |d.networks| ==> BindingMatches(rules, d.policy.plan.leaves[i], d.networks[i]))
    && (forall i, j :: 0 <= i < j < |d.networks| ==>
          d.networks[i].keyId != d.networks[j].keyId && d.networks[i].publicKey != d.networks[j].publicKey)
  }

  predicate ValidDescriptor(rules: KeyRules, d: Descriptor) {
    ValidPolicy(d.policy) && FieldsValid(d) && ProvidersValid(rules, d)
  }

  /** The refusal, if any: scalar fields first, then providers. */
  function DescriptorError(rules: KeyRules, d: Descriptor): Option<EnvelopeError> {
    if !FieldsValid(d) then Some(InvalidPolicy)
    else if !ProvidersValid(rules, d) then Some(InvalidProvider)
    else None
  }

  method ValidateDescriptor(rules: KeyRules, d: Descriptor) returns (error: Option<EnvelopeError>)
    ensures error == DescriptorError(rules, d)
  {
    if d.slot >= 32 || d.generation == 0 || d.bindingId == seq(32, _ => 0) || d.volumeUuid == seq(16, _ => 0)
       || d.pcrMask == 0 || d.pcrMask >= 0x0100_0000 {
      return Some(InvalidPolicy);
    }
    var leaves := d.policy.plan.leaves;
    if |leaves| != |d.networks| {
      return Some(InvalidProvider);
    }
    var i := 0;
    while i < |leaves|
      invariant 0 <= i <= |leaves|
      invariant forall k :: 0 <= k < i ==> BindingMatches(rules, leaves[k], d.networks[k])
    {
      var binding := d.networks[i];
      if leaves[i].0 != binding.nodeId || leaves[i].1 != binding.providerId
         || binding.keyId != rules.keyId(binding.publicKey) || !rules.isKey(binding.publicKey) {
        assert !BindingMatches(rules, leaves[i], d.networks[i]);
        return Some(InvalidProvider);
      }
      i := i + 1;
    }
    i := 0;
    while i < |d.networks|
      invariant 0 <= i <= |d.networks|
      invariant forall j, k :: 0 <= j < k < i ==>
                  d.networks[j].keyId != d.networks[k].keyId && d.networks[j].publicKey != d.networks[k].publicKey
    {
      if exists j :: 0 <= j < i && (d.networks[j].keyId == d.networks[i].keyId || d.networks[j].publicKey == d.networks[i].publicKey) {
        return Some(InvalidProvider);
      }
      i := i + 1;
    }
    error := None;
  }

  /** A policy has at least one and at most 29 leaves, with distinct identities and distinct providers. */
  lemma PolicyLeaves(policy: ProductionPolicy)
    requires ValidPolicy(policy)
    ensures 0 < |policy.plan.leaves| <= 29
    ensures Distinct(IdsOf(policy.plan.leaves)) && Distinct(Providers(policy.plan.leaves))
  {
    PolicyLeafIds(policy);
    ValidHasLeaves(policy.network);
    LeafBound(policy.network);
  }

  lemma {:induction false} LeafBound(node: NetworkNode)
    ensures |Leaves(node)| <= Size(node)
    decreases node, 1
  {
    if node.Threshold? {
      ForestLeafBound(node.children);
    }
  }

  lemma {:induction false} ForestLeafBound(nodes: seq<NetworkNode>)
    ensures |ForestLeaves(nodes)| <= ForestSize(nodes)
    decreases nodes, 0
  {
    if nodes != [] {
      LeafBound(nodes[0]);
      ForestLeafBound(nodes[1..]);
    }
  }
}
