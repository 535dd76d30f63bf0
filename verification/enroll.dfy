/** Preparing an enrollment: secrets, shares, wrapped leaves and the signed envelope. */
module Enrolling {
  import opened Sequences
  import opened Wrappers
  import opened Bytes
  import GF256
  import opened Sharing
  import opened PolicyTree
  import opened PolicyCompile
  import opened PolicyDecision
  import opened PolicySharing
  import opened Descriptors
  import opened NetworkPhase
  import opened Envelopes
  import opened CryptoLaws
  import opened Frames
  import opened LeafKeys
  import opened Unlocking
  import opened RoundTrips

  datatype PreparedEnrollment = PreparedEnrollment(envelope: Bytes, credential: Secret)

  /** A provider's evaluation of a blinded input, or none before the deadline. */
  datatype Reply = Answered(blinding: nat, reply: Result<Bytes, NetworkFailure>) | Expired

  method FreshSecret(rng: Entropy) returns (secret: Option<Secret>)
    modifies rng
    ensures secret.Some? <==> 32 <= |old(rng.bytes)|
    ensures secret.Some? ==> old(rng.bytes) == secret.value + rng.bytes
    ensures secret.None? ==> rng.bytes == old(rng.bytes)
  {
    var draw := rng.TryFill(32);
    if draw.None? {
      return None;
    }
    secret := Some(draw.value);
  }

  /** Wrapped leaf `i` of the network share list. */
  predicate Wrapped(c: Crypto, d: Descriptor, context: Bytes48, shares: seq<NetworkShare>, i: nat, leaf: WrappedLeaf)
    requires i < |d.networks| && i < |shares|
  {
    var b := d.networks[i];
    && leaf.nodeId == b.nodeId
    && c.open(c.wrapKey(c.prf(b.publicKey, NetworkInput(d, b)), LeafContext(context, b.nodeId)), leaf.value, LeafContext(context, b.nodeId))
       == Some(shares[i].1)
  }

  /** Every provider answers in time with an evaluation that passes its proof. */
  predicate AllAnswer(c: Crypto, d: Descriptor, context: Bytes48, replies: nat -> Reply, n: nat)
    requires n <= |d.networks|
  {
    forall i :: 0 <= i < n ==>
      replies(i).Answered? && NetworkKey(c, d, d.networks[i], context, replies(i).blinding, replies(i).reply).Success?
  }

  /** The refusal of the first provider, from i on, that does not answer in time with a valid proof. */
  function WrapError(c: Crypto, d: Descriptor, context: Bytes48, replies: nat -> Reply, i: nat): Option<EngineError>
    requires i <= |d.networks|
    decreases |d.networks| - i
  {
    if i == |d.networks| then None
    else
      var b := d.networks[i];
      match replies(i)
      case Expired => Some(DeadlinePassed([ProviderFailure(b.providerId, Timeout)]))
      case Answered(blinding, reply) =>
        match NetworkKey(c, d, b, context, blinding, reply)
        case Failure(kind) => Some(FactorsMissing([ProviderFailure(b.providerId, kind)]))
        case Success(_) => WrapError(c, d, context, replies, i + 1)
  }

  /** Wrap each network share under its provider's key, in binding order. */
  method WrapLeaves(c: Crypto, d: Descriptor, context: Bytes48, shares: seq<NetworkShare>, replies: nat -> Reply, nonce: nat -> Bytes12)
    returns (result: Result<seq<WrappedLeaf>, EngineError>)
    requires Laws(c) && |shares| == |d.networks| && forall i :: 0 <= i < |shares| ==> shares[i].0 == d.networks[i].nodeId
    ensures result.Success? <==> AllAnswer(c, d, context, replies, |d.networks|)
    ensures result.Success? ==> |result.value| == |shares| && forall i :: 0 <= i < |shares| ==> Wrapped(c, d, context, shares, i, result.value[i])
    ensures result.Success? ==> forall i :: 0 <= i < |result.value| ==> result.value[i].value.nonce == nonce(i)
    ensures WrapError(c, d, context, replies, 0) == match result case Failure(error) => Some(error) case Success(_) => None
  {
    hide LeafContext, NetworkInput;
    var leaves: seq<WrappedLeaf> := [];
    var i := 0;
    while i < |shares|
      invariant 0 <= i <= |shares| && |leaves| == i
      invariant AllAnswer(c, d, context, replies, i) && WrapError(c, d, context, replies, 0) == WrapError(c, d, context, replies, i)
      invariant forall k :: 0 <= k < i ==> Wrapped(c, d, context, shares, k, leaves[k])
      invariant forall k :: 0 <= k < i ==> leaves[k].value.nonce == nonce(k)
    {
      var (id, secret) := shares[i];
      var b := d.networks[i];
      var reply := replies(i);
      if reply.Expired? {
        return Failure(DeadlinePassed([ProviderFailure(b.providerId, Timeout)]));
      }
      var key := NetworkKey(c, d, b, context, reply.blinding, reply.reply);
      if key.Failure? {
        return Failure(FactorsMissing([ProviderFailure(b.providerId, key.error)]));
      }
      match WrapLeaf(c, id, secret, b, context, key.value, nonce(i))
      case Failure(error) =>
        return Failure(error);
      case Success(leaf) =>
        leaves := leaves + [leaf];
        i := i + 1;
    }
    result := Success(leaves);
  }

  /** Seal one share and check that it opens again. */
  function WrapLeaf(c: Crypto, id: U8, secret: Secret, b: NetworkBinding, context: Bytes48, key: Secret, nonce: Bytes12)
    : Result<WrappedLeaf, EngineError>
  {
    var leafContext := LeafContext(context, id);
    var value := WrappedKey(nonce, c.seal(key, secret, leafContext, nonce));
    if id != b.nodeId then Failure(PolicyFailed)
    else match c.open(key, value, leafContext)
         case None => Failure(CryptoFailed)
         case Some(checked) => if checked != secret then Failure(SharesDisagree) else Success(WrappedLeaf(id, value))
  }

  /** The leaf list of an enrollment: the TPM leaf, then the network leaves. */
  lemma {:induction false} FindWrappedAt(leaves: seq<WrappedLeaf>, i: nat)
    requires i < |leaves| && forall j :: 0 <= j < i ==> leaves[j].nodeId != leaves[i].nodeId
    ensures FindWrapped(leaves, leaves[i].nodeId) == Some(leaves[i].value)
  {
    if i > 0 {
      FindWrappedAt(leaves[1..], i - 1);
    }
  }

  lemma NetworkLeafFound(rules: KeyRules, b: EnvelopeBody, i: nat)
    requires ValidBody(rules, b) && i < |b.descriptor.networks|
    ensures |b.leaves| == 1 + |b.descriptor.networks|
    ensures FindWrapped(b.leaves, b.descriptor.networks[i].nodeId) == Some(b.leaves[i + 1].value)
    ensures rules.isKey(b.descriptor.networks[i].publicKey)
  {
    hide ValidPolicy, FindWrapped;
    var d := b.descriptor;
    PolicyLeafIds(d.policy);
    var ids := IdsOf(d.policy.plan.leaves);
    forall k | 0 <= k < |d.networks| ensures d.networks[k].nodeId == ids[k] && rules.isKey(d.networks[k].publicKey) {
      assert BindingMatches(rules, d.policy.plan.leaves[k], d.networks[k]);
    }
    forall j | 0 <= j < i + 1 ensures b.leaves[j].nodeId != b.leaves[i + 1].nodeId {
      assert ids[i] in ids;
      if j > 0 {
        assert ids[j - 1] != ids[i];
      }
    }
    FindWrappedAt(b.leaves, i + 1);
  }

  /** What the wrapped leaves of a valid body amount to. */
  lemma LeavesHold(c: Crypto, e: AuthenticatedEnvelope, first: WrappedLeaf, leaves: seq<WrappedLeaf>, shares: seq<NetworkShare>)
    requires ValidBody(c.rules, e.body) && e.body.leaves == [first] + leaves && |shares| == |leaves| == |e.body.descriptor.networks|
    requires forall i :: 0 <= i < |shares| ==> Wrapped(c, e.body.descriptor, e.context, shares, i, leaves[i])
    ensures forall i :: 0 <= i < |shares| ==> LeafHolds(c, e, e.body.descriptor.networks[i], shares[i].1)
  {
    hide ValidBody, FindWrapped, LeafContext, NetworkInput;
    forall i | 0 <= i < |shares| ensures LeafHolds(c, e, e.body.descriptor.networks[i], shares[i].1) {
      NetworkLeafFound(c.rules, e.body, i);
      assert Wrapped(c, e.body.descriptor, e.context, shares, i, leaves[i]);
    }
  }

  /** Credential, root, root coefficients and seed are the next bytes of the supply, in this order. */
  predicate DrawnInOrder(before: seq<GF256.Byte>, credential: Secret, root: Secret, table: Table, seed: Secret, after: seq<GF256.Byte>) {
    before == credential + root + Concat(table) + seed + after
  }

  /** The secrets of an enrollment: credential, root with its two shares, and the seed for the TPM. */
  method DrawSecrets(rng: Entropy) returns (result: Result<(Secret, Secret, seq<Share>, Secret), EngineError>, ghost table: Table)
    modifies rng
    ensures result.Success? <==> 128 <= |old(rng.bytes)|
    ensures result.Success? ==>
              && TableOf(table, 2) && result.value.2 == SplitShares(result.value.1, table, 2)
              && DrawnInOrder(old(rng.bytes), result.value.0, result.value.1, table, result.value.3, rng.bytes)
              && |rng.bytes| == |old(rng.bytes)| - 128
    ensures result.Failure? ==> result.error == if 64 <= |old(rng.bytes)| < 96 then SplitFailed else CryptoFailed
  {
    hide SplitShares;
    table := [];
    var credential := FreshSecret(rng);
    if credential.None? {
      return Failure(CryptoFailed), table;
    }
    var root := FreshSecret(rng);
    if root.None? {
      return Failure(CryptoFailed), table;
    }
    var held;
    held, table := Split(root.value, 2, 2, rng);
    if held.Failure? {
      return Failure(SplitFailed), table;
    }
    ConcatLength(table, 1);
    var seed := FreshSecret(rng);
    if seed.None? {
      return Failure(CryptoFailed), table;
    }
    result := Success((credential.value, root.value, held.value, seed.value));
  }

  /** When an enrollment can be prepared. */
  ghost predicate Preparable(c: Crypto, d: Descriptor, supported: Mode -> bool, supply: nat, blob: Result<TpmBlob, EngineError>,
                             replies: nat -> Reply, late: bool)
    requires ValidPolicy(d.policy)
  {
    && ValidDescriptor(c.rules, d) && supported(d.policy.mode)
    && 128 + Draws(d.policy.network) <= supply
    && blob.Success? && BlobValid(blob.value)
    && (ValidEncodable(c.rules, d); AllAnswer(c, d, ContextOf(c, d), replies, |d.networks|))
    && !late
  }

  /** Why an enrollment is refused, in the order of the steps; the deadline is looked at after sealing and at the end. */
  ghost predicate Refuses(c: Crypto, d: Descriptor, supported: Mode -> bool, supply: nat, blob: Result<TpmBlob, EngineError>,
                          replies: nat -> Reply, late: bool, error: EngineError)
    requires ValidPolicy(d.policy)
  {
    || RefusesEarly(c.rules, d, supported, supply, blob, late, error)
    || (&& ValidDescriptor(c.rules, d) && supported(d.policy.mode) && 128 <= supply && blob.Success?
        && ((late && error == DeadlinePassed([])) || RefusesLate(c, d, supply, blob.value, replies, error)))
  }

  /** Why the steps from the network on fail. */
  ghost predicate RefusesLate(c: Crypto, d: Descriptor, supply: nat, blob: TpmBlob, replies: nat -> Reply, error: EngineError)
    requires ValidDescriptor(c.rules, d)
  {
    if supply < 128 + Draws(d.policy.network) then error == PolicyFailed
    else
      ValidEncodable(c.rules, d);
      match WrapError(c, d, ContextOf(c, d), replies, 0)
      case Some(e) => error == e
      case None => error.EnvelopeFailed? && !BlobValid(blob)
  }

  /** All shares of a fresh split recover its secret, so the check before signing never fails. */
  lemma FreshSplitRecovers(policy: ProductionPolicy, secret: Secret, coins: Coins)
    requires ValidPolicy(policy) && CoinsFit(policy.network, coins)
    ensures PlanOk(policy.plan) && Recovered(policy.plan, LeafShares(policy.network, secret, coins)) == Success(secret)
  {
    hide LeafShares, Satisfied, Recovered, CoinsFit, Leaves;
    var shares := LeafShares(policy.network, secret, coins);
    var ids := IdsOf(shares);
    PolicyLeafIds(policy);
    assert ids == IdsOf(policy.plan.leaves);
    NestedRecovery(policy, secret, coins, shares);
    forall i | 0 <= i < |Leaves(policy.network)| ensures Leaves(policy.network)[i].0 in Elements(ids) {
      assert ids[i] == Leaves(policy.network)[i].0;
    }
    EverythingSatisfied(policy.network, Elements(ids));
  }

  /** The descriptor's bindings carry the identities of the network shares, in order. */
  lemma SharesFollowBindings(rules: KeyRules, d: Descriptor, secret: Secret, coins: Coins)
    requires ValidDescriptor(rules, d) && CoinsFit(d.policy.network, coins)
    ensures var shares := LeafShares(d.policy.network, secret, coins);
            |shares| == |d.networks| == |Leaves(d.policy.network)|
            && forall i :: 0 <= i < |shares| ==> shares[i].0 == d.networks[i].nodeId
  {
    hide LeafShares, CoinsFit, Leaves;
    forall i | 0 <= i < |d.networks| ensures d.policy.plan.leaves[i].0 == d.networks[i].nodeId {
      assert BindingMatches(rules, d.policy.plan.leaves[i], d.networks[i]);
    }
  }

  datatype Secrets = Secrets(credential: Secret, root: Secret, held: seq<Share>, seed: Secret)

  /** Why the steps before the network fail. */
  predicate RefusesEarly(rules: KeyRules, d: Descriptor, supported: Mode -> bool, supply: nat, blob: Result<TpmBlob, EngineError>,
                         late: bool, error: EngineError)
  {
    match DescriptorError(rules, d)
    case Some(e) => error == EnvelopeFailed(e)
    case None =>
      if !supported(d.policy.mode) then error == UnsupportedMode
      else if supply < 128 then error == if 64 <= supply < 96 then SplitFailed else CryptoFailed
      else if blob.Failure? then error == blob.error
      else late && error == DeadlinePassed([])
  }

  /** The steps before the network: context, mode, secrets, sealing, deadline. */
  method GatherSecrets(c: Crypto, d: Descriptor, supported: Mode -> bool, rng: Entropy, blob: Result<TpmBlob, EngineError>,
                       clock: Clock, deadline: nat)
    returns (result: Result<(Bytes48, Secrets), EngineError>, ghost table: Table)
    requires ValidPolicy(d.policy)
    modifies rng, clock
    ensures old(clock.now) <= clock.now
    ensures result.Success? <==>
              ValidDescriptor(c.rules, d) && supported(d.policy.mode) && 128 <= |old(rng.bytes)| && blob.Success? && clock.now < deadline
    ensures result.Success? ==>
              && TableOf(table, 2) && result.value.1.held == SplitShares(result.value.1.root, table, 2)
              && Encodable(d) && result.value.0 == ContextOf(c, d) && |rng.bytes| == |old(rng.bytes)| - 128
              && DrawnInOrder(old(rng.bytes), result.value.1.credential, result.value.1.root, table, result.value.1.seed, rng.bytes)
    ensures result.Failure? ==> RefusesEarly(c.rules, d, supported, |old(rng.bytes)|, blob, clock.now >= deadline, result.error)
  {
    hide ValidPolicy, ValidDescriptor, DescriptorError, DescriptorEncoding, SplitShares, TableOf, Encodable, DrawnInOrder;
    ValidMeansNoError(c.rules, d);
    table := [];
    var encoded := DescriptorBytes(c.rules, d);
    if encoded.Failure? {
      return Failure(EnvelopeFailed(encoded.error)), table;
    }
    var context := c.hash(CONTEXT_DOMAIN + encoded.value);
    if !supported(d.policy.mode) {
      return Failure(UnsupportedMode), table;
    }
    var secrets;
    secrets, table := DrawSecrets(rng);
    if secrets.Failure? {
      return Failure(secrets.error), table;
    }
    var (credential, root, held, seed) := secrets.value;
    if blob.Failure? {
      return Failure(blob.error), table;
    }
    var late := clock.CheckDeadline(deadline);
    if late.Some? {
      return Failure(late.value), table;
    }
    result := Success((context, Secrets(credential, root, held, seed)));
  }

  /** The network leaves: share, compare, wrap. */
  method ShareNetwork(c: Crypto, d: Descriptor, context: Bytes48, secret: Secret, rng: Entropy, replies: nat -> Reply, nonce: nat -> Bytes12)
    returns (result: Result<seq<WrappedLeaf>, EngineError>, ghost coins: Coins)
    requires Laws(c) && ValidDescriptor(c.rules, d)
    modifies rng
    ensures result.Success? <==> Draws(d.policy.network) <= |old(rng.bytes)| && AllAnswer(c, d, context, replies, |d.networks|)
    ensures result.Success? ==>
              && CoinsFit(d.policy.network, coins)
              && var shares := LeafShares(d.policy.network, secret, coins);
                 && |shares| == |result.value| == |d.networks|
                 && forall i :: 0 <= i < |shares| ==> Wrapped(c, d, context, shares, i, result.value[i])
    ensures result.Success? ==>
              && old(rng.bytes) == CoinBytes(coins) + rng.bytes
              && forall i :: 0 <= i < |result.value| ==> result.value[i].value.nonce == nonce(i)
    ensures result.Failure? ==>
              if Draws(d.policy.network) > |old(rng.bytes)| then result.error == PolicyFailed
              else WrapError(c, d, context, replies, 0) == Some(result.error)
  {
    hide Laws, ValidPolicy, ValidDescriptor, WrapError, AllAnswer, Wrapped, LeafShares, CoinsFit, Draws, Recovered, PlanOk, CoinBytes;
    DescriptorPolicy(c.rules, d);
    var shares;
    shares, coins := SplitNetwork(d.policy, secret, rng);
    if shares.Failure? {
      return Failure(PolicyErrorOf(shares.error)), coins;
    }
    FreshSplitRecovers(d.policy, secret, coins);
    SharesFollowBindings(c.rules, d, secret, coins);
    var again := RecoverNetwork(d.policy, shares.value);
    match again {
      case Failure(error) =>
        return Failure(PolicyErrorOf(error)), coins;
      case Success(recovered) =>
        if recovered != secret {
          return Failure(SharesDisagree), coins;
        }
    }
    result := WrapLeaves(c, d, context, shares.value, replies, nonce);
  }

  /** Each leaf, in order, and then the payload has its own nonce. */
  ghost predicate NoncesFrom(b: EnvelopeBody, nonce: nat -> Bytes12) {
    && (forall i :: 0 <= i < |b.leaves| ==> b.leaves[i].value.nonce == nonce(i))
    && b.payload.nonce == nonce(|b.leaves|)
  }

  /** The supply is spent on the credential, the root, the root's coefficients, the seed and the network's coins, in this order. */
  predicate SpentOn(before: seq<GF256.Byte>, credential: Secret, m: Material, after: seq<GF256.Byte>) {
    before == credential + m.root + Concat(m.table) + m.seed + CoinBytes(m.coins) + after
  }

  lemma SpendBoth(before: seq<GF256.Byte>, m: Material, middle: seq<GF256.Byte>, after: seq<GF256.Byte>)
    requires DrawnInOrder(before, m.credential, m.root, m.table, m.seed, middle) && middle == CoinBytes(m.coins) + after
    ensures SpentOn(before, m.credential, m, after)
  {
    var start := m.credential + m.root + Concat(m.table) + m.seed;
    assert start + (CoinBytes(m.coins) + after) == start + CoinBytes(m.coins) + after;
  }

  /** The last step: wrap the TPM share and the credential, and sign. */
  method SealEnvelope(c: Crypto, d: Descriptor, key: Bytes32, context: Bytes48, secrets: Secrets, blob: TpmBlob, leaves: seq<WrappedLeaf>,
                      nonce: nat -> Bytes12, ghost table: Table, ghost coins: Coins)
    returns (result: Result<PreparedEnrollment, EngineError>, ghost e: AuthenticatedEnvelope, ghost m: Material)
    requires Laws(c) && ValidDescriptor(c.rules, d) && Encodable(d) && context == ContextOf(c, d)
    requires forall i :: 0 <= i < |leaves| ==> leaves[i].value.nonce == nonce(i + 1)
    requires TableOf(table, 2) && secrets.held == SplitShares(secrets.root, table, 2) && CoinsFit(d.policy.network, coins)
    requires var shares := LeafShares(d.policy.network, secrets.held[1].value, coins);
             && |shares| == |leaves| == |d.networks|
             && forall i :: 0 <= i < |shares| ==> Wrapped(c, d, context, shares, i, leaves[i])
    ensures result.Success? <==> BlobValid(blob)
    ensures result.Failure? ==> result.error.EnvelopeFailed?
    ensures result.Success? ==> Made(c, d, key, result.value, e, m)
    ensures result.Success? ==>
              && result.value.credential == secrets.credential && e.body.tpm == blob
              && m == Material(secrets.credential, secrets.root, table, secrets.seed, coins)
              && NoncesFrom(e.body, nonce)
  {
    assert ValidPolicy(d.policy);
    hide Laws, ValidPolicy, ValidDescriptor, BlobValid, Wrapped, LeafShares, SplitShares, TableOf, CoinsFit, Made, LeafContext, Encodable, ContextOf, NoncesFrom;
    var tpmNonce, payloadNonce := nonce(0), nonce(|leaves| + 1);
    var tpmContext := LeafContext(context, d.policy.tpmNodeId);
    var tpmLeaf := WrappedLeaf(d.policy.tpmNodeId,
                               Sealed(c, c.derive(secrets.seed, tpmContext, TPM_WRAP), secrets.held[0].value, tpmContext, tpmNonce));
    var payload := Sealed(c, c.derive(secrets.root, context, LUKS_SLOT), secrets.credential, context, payloadNonce);
    var body := EnvelopeBody(d, blob, [tpmLeaf] + leaves, payload);
    e := AuthenticatedEnvelope(body, context);
    m := Material(secrets.credential, secrets.root, table, secrets.seed, coins);
    NoncesOfParts(body, tpmLeaf, leaves, nonce);
    BodyOfParts(c, body, tpmLeaf, leaves, LeafShares(d.policy.network, secrets.held[1].value, coins), context);
    SigningLaw(c);
    var raw := Sign(c, body, key);
    if raw.Failure? {
      return Failure(EnvelopeFailed(raw.error)), e, m;
    }
    result := Success(PreparedEnrollment(raw.value, secrets.credential));
    MadeFromParts(c, d, key, result.value, e, m, tpmLeaf, leaves, tpmNonce, payloadNonce);
  }

  /** Prepare an enrollment. It succeeds exactly when it can, with the refusal of the first step that fails; the envelope
      then authenticates under the signer's public key and holds the drawn material. */
  method Prepare(c: Crypto, d: Descriptor, key: Bytes32, supported: Mode -> bool, rng: Entropy, blob: Result<TpmBlob, EngineError>,
                 replies: nat -> Reply, nonce: nat -> Bytes12, clock: Clock, deadline: nat)
    returns (result: Result<PreparedEnrollment, EngineError>, ghost made: Option<(AuthenticatedEnvelope, Material)>)
    requires Laws(c) && ValidPolicy(d.policy)
    modifies rng, clock
    ensures old(clock.now) <= clock.now
    ensures result.Success? <==> Preparable(c, d, supported, |old(rng.bytes)|, blob, replies, clock.now >= deadline)
    ensures result.Failure? ==> Refuses(c, d, supported, |old(rng.bytes)|, blob, replies, clock.now >= deadline, result.error)
    ensures result.Success? ==>
              && made.Some? && Made(c, d, key, result.value, made.value.0, made.value.1)
              && SpentOn(old(rng.bytes), result.value.credential, made.value.1, rng.bytes)
              && blob == Success(made.value.0.body.tpm) && NoncesFrom(made.value.0.body, nonce)
  {
    hide Laws, ValidPolicy, ValidDescriptor, DescriptorError, WrapError, AllAnswer, BlobValid, Wrapped, LeafShares, SplitShares, TableOf,
         CoinsFit, Draws, Made, Encodable, ContextOf, RefusesEarly, DrawnInOrder, SpentOn, CoinBytes, NoncesFrom;
    made := None;
    var gathered;
    ghost var table;
    gathered, table := GatherSecrets(c, d, supported, rng, blob, clock, deadline);
    if gathered.Failure? {
      return Failure(gathered.error), made;
    }
    var (context, secrets) := gathered.value;
    ghost var middle := rng.bytes;
    var leaves;
    ghost var coins;
    leaves, coins := ShareNetwork(c, d, context, secrets.held[1].value, rng, replies, i => nonce(i + 1));
    if leaves.Failure? {
      return Failure(leaves.error), made;
    }
    AllAnswerNoError(c, d, context, replies, 0);
    ghost var e, m;
    result, e, m := SealEnvelope(c, d, key, context, secrets, blob.value, leaves.value, nonce, table, coins);
    if result.Failure? {
      return;
    }
    var late := clock.CheckDeadline(deadline);
    if late.Some? {
      return Failure(late.value), made;
    }
    SpendBoth(old(rng.bytes), m, middle, rng.bytes);
    made := Some((e, m));
  }

  lemma {:induction false} AllAnswerNoError(c: Crypto, d: Descriptor, context: Bytes48, replies: nat -> Reply, i: nat)
    requires i <= |d.networks| && AllAnswer(c, d, context, replies, |d.networks|)
    ensures WrapError(c, d, context, replies, i) == None
    decreases |d.networks| - i
  {
    hide NetworkKey;
    if i < |d.networks| {
      AllAnswerNoError(c, d, context, replies, i + 1);
    }
  }

  lemma DescriptorPolicy(rules: KeyRules, d: Descriptor)
    requires ValidDescriptor(rules, d)
    ensures ValidPolicy(d.policy)
  {}

  lemma ValidMeansNoError(rules: KeyRules, d: Descriptor)
    requires ValidPolicy(d.policy)
    ensures ValidDescriptor(rules, d) <==> DescriptorError(rules, d).None?
  {
    hide FieldsValid, ProvidersValid, ValidPolicy;
  }

  function Sealed(c: Crypto, key: Secret, plaintext: Secret, aad: Bytes, nonce: Bytes12): WrappedKey {
    WrappedKey(nonce, c.seal(key, plaintext, aad, nonce))
  }

  /** The prepared envelope authenticates and holds the material whose credential was handed out. */
  ghost predicate Made(c: Crypto, d: Descriptor, key: Bytes32, p: PreparedEnrollment, e: AuthenticatedEnvelope, m: Material) {
    && e.body.descriptor == d && m.credential == p.credential
    && Authentic(c, p.envelope, c.publicKey(key), e) && ValidBody(c.rules, e.body) && Enrolled(c, e, m)
  }

  lemma SigningLaw(c: Crypto)
    requires Laws(c)
    ensures SignatureLaw(c)
  {}

  lemma NoncesOfParts(b: EnvelopeBody, first: WrappedLeaf, leaves: seq<WrappedLeaf>, nonce: nat -> Bytes12)
    requires b.leaves == [first] + leaves && first.value.nonce == nonce(0) && b.payload.nonce == nonce(|leaves| + 1)
    requires forall i :: 0 <= i < |leaves| ==> leaves[i].value.nonce == nonce(i + 1)
    ensures NoncesFrom(b, nonce)
  {
    forall i | 0 <= i < |b.leaves| ensures b.leaves[i].value.nonce == nonce(i) {
      if i > 0 {
        assert leaves[i - 1].value.nonce == nonce(i);
      }
    }
  }

  lemma BodyOfParts(c: Crypto, b: EnvelopeBody, first: WrappedLeaf, leaves: seq<WrappedLeaf>, shares: seq<NetworkShare>, context: Bytes48)
    requires ValidDescriptor(c.rules, b.descriptor) && b.leaves == [first] + leaves && first.nodeId == b.descriptor.policy.tpmNodeId
    requires |shares| == |leaves| == |b.descriptor.networks|
    requires forall i :: 0 <= i < |shares| ==> Wrapped(c, b.descriptor, context, shares, i, leaves[i])
    ensures ValidBody(c.rules, b) <==> BlobValid(b.tpm)
  {
    hide ValidDescriptor, LeafContext, NetworkInput, BlobValid;
    forall i | 0 <= i < |leaves| ensures leaves[i].nodeId == b.descriptor.networks[i].nodeId {
      assert Wrapped(c, b.descriptor, context, shares, i, leaves[i]);
    }
  }

  lemma MadeFromParts(c: Crypto, d: Descriptor, key: Bytes32, p: PreparedEnrollment, e: AuthenticatedEnvelope, m: Material,
                      first: WrappedLeaf, leaves: seq<WrappedLeaf>, tpmNonce: Bytes12, payloadNonce: Bytes12)
    requires Laws(c) && e.body.descriptor == d && m.credential == p.credential
    requires Authentic(c, p.envelope, c.publicKey(key), e) && ValidBody(c.rules, e.body) && Fitting(d.policy, m)
    requires e.body.leaves == [first] + leaves
    requires first.value == var aad := LeafContext(e.context, d.policy.tpmNodeId); Sealed(c, c.derive(m.seed, aad, TPM_WRAP), TpmShare(m), aad, tpmNonce)
    requires e.body.payload == Sealed(c, c.derive(m.root, e.context, LUKS_SLOT), m.credential, e.context, payloadNonce)
    requires var shares := LeafShares(d.policy.network, NetworkSecret(m), m.coins);
             && |shares| == |leaves| == |d.networks|
             && forall i :: 0 <= i < |shares| ==> Wrapped(c, d, e.context, shares, i, leaves[i])
    ensures Made(c, d, key, p, e, m)
  {
    hide Authentic, ValidBody, LeafShares, LeafHolds, Wrapped, LeafContext, CoinsFit, TableOf, Leaves, NetworkSecret, TpmShare;
    LeavesHold(c, e, first, leaves, LeafShares(d.policy.network, NetworkSecret(m), m.coins));
    assert TpmHolds(c, e, m);
  }

  /** Unlocking a prepared envelope on its own volume and slot with the sealed seed: a quorum reached in time returns the
      enrolled credential, and any success returns that credential. */
  lemma PreparedUnlocks(c: Crypto, d: Descriptor, key: Bytes32, p: PreparedEnrollment, e: AuthenticatedEnvelope, m: Material,
                        supported: Mode -> bool, signals: seq<Signal>, unsealed: UnsealedSeed, deadline: nat, now: nat,
                        result: Result<UnlockResult, EngineError>)
    requires Laws(c) && Made(c, d, key, p, e, m) && supported(d.policy.mode) && Authorized(d.policy, m, unsealed)
    requires ValidBody(c.rules, e.body) && Settled(c, e, signals)
    requires UnlockVerdict(c, e, d.volumeUuid, d.slot, supported, signals, Success(unsealed), deadline, now, result)
    ensures ValidDescriptor(c.rules, d)
    ensures Phase(c, e, signals).exit.Quorum? && now < deadline ==> result.Success?
    ensures result.Success? ==> now < deadline && Phase(c, e, signals).exit.Quorum? && result.value.credential == p.credential
    ensures result.Failure? ==> result.error.FactorsMissing? || result.error.DeadlinePassed?
  {
    hide Laws, ValidBody, ValidDescriptor, Enrolled, Authorized, Phase, Verdict, Authentic;
    BodyFacts(c.rules, e.body);
    if now < deadline || result != Failure(DeadlinePassed([])) {
      UnlockRoundTrip(c, e, m, signals, unsealed, deadline, now, result);
    }
  }
}
