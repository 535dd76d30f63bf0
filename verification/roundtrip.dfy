/** What unlocking an enrolled envelope returns. */
module RoundTrips {
  import opened Sequences
  import opened Wrappers
  import opened Bytes
  import opened Sharing
  import opened PolicyTree
  import opened PolicyCompile
  import opened PolicyDecision
  import opened PolicySharing
  import opened Descriptors
  import opened NetworkPhase
  import opened Envelopes
  import opened CryptoLaws
  import opened Frames
  import opened LeafKeys
  import opened Unlocking

  /** The secrets and sharing coefficients drawn at enrollment. */
  datatype Material = Material(credential: Secret, root: Secret, table: Table, seed: Secret, coins: Coins)

  predicate Fitting(policy: ProductionPolicy, m: Material) { TableOf(m.table, 2) && CoinsFit(policy.network, m.coins) }

  function TpmShare(m: Material): Secret
    requires TableOf(m.table, 2)
  {
    SplitShares(m.root, m.table, 2)[0].value
  }

  function NetworkSecret(m: Material): Secret
    requires TableOf(m.table, 2)
  {
    SplitShares(m.root, m.table, 2)[1].value
  }

  /** What the envelope of an enrollment holds: the first root share under the sealed seed, the leaf shares of the second
      under the providers' outputs, the credential under the root. */
  predicate Enrolled(c: Crypto, e: AuthenticatedEnvelope, m: Material) {
    var d := e.body.descriptor;
    && Fitting(d.policy, m) && e.body.leaves != [] && |d.networks| == |Leaves(d.policy.network)|
    && TpmHolds(c, e, m)
    && (forall i :: 0 <= i < |d.networks| ==>
          LeafHolds(c, e, d.networks[i], LeafShares(d.policy.network, NetworkSecret(m), m.coins)[i].1))
    && PayloadEvidence(c, m.root, e) == Success(m.credential)
  }

  predicate TpmHolds(c: Crypto, e: AuthenticatedEnvelope, m: Material)
    requires TableOf(m.table, 2) && e.body.leaves != []
  {
    var leafContext := LeafContext(e.context, e.body.descriptor.policy.tpmNodeId);
    c.open(c.derive(m.seed, leafContext, TPM_WRAP), e.body.leaves[0].value, leafContext) == Some(TpmShare(m))
  }

  /** The sealed seed under the authorization of the mode. */
  predicate Authorized(policy: ProductionPolicy, m: Material, unsealed: UnsealedSeed) {
    unsealed.seed == m.seed && (policy.mode.Attested? ==> Live(unsealed))
  }

  // ----- the two root shares -----

  lemma RootRecovered(m: Material)
    requires TableOf(m.table, 2)
    ensures Reconstructed(2, RootShares(TpmShare(m), NetworkSecret(m))) == Success(m.root)
  {
    hide Reconstructed, Coordinate;
    var held := SplitShares(m.root, m.table, 2);
    var shares := RootShares(TpmShare(m), NetworkSecret(m));
    assert held[0].index == Coordinate(1) && held[1].index == Coordinate(2);
    assert shares[0] == held[0] && shares[1] == held[1];
    CoordinateDistinct();
    QuorumRecovers(m.root, m.table, 2, 2, shares);
  }

  lemma CoordinateDistinct()
    ensures Coordinate(1) != Coordinate(2)
  {
    hide Coordinate;
    if Coordinate(1) == Coordinate(2) {
      CoordinateInjective(1, 2);
    }
  }

  /** With the network secret and the authorized seed the payload opens to the enrolled credential. */
  lemma EvidenceOpens(c: Crypto, e: AuthenticatedEnvelope, m: Material, unsealed: UnsealedSeed)
    requires Enrolled(c, e, m) && Authorized(e.body.descriptor.policy, m, unsealed)
    ensures Opened(c, e, NetworkSecret(m), unsealed) == Success(m.credential)
  {
    hide Reconstructed, RootShares, TpmShare, NetworkSecret, LeafHolds, LeafShares, CoinsFit, PayloadEvidence, LeafContext;
    RootRecovered(m);
  }

  // ----- where completions come from -----

  /** Every completion of the state, and a deadline exit, is among the events. */
  predicate Caused(s: PhaseState, events: seq<Event>) {
    && (forall k :: 0 <= k < |s.completed| ==> Complete(s.completed[k].0, s.completed[k].1) in events)
    && (s.exit.DeadlineExceeded? ==> Deadline in events)
  }

  lemma CausedStep(s: PhaseState, t: PhaseState, e: Event, events: seq<Event>)
    requires Caused(s, events) && !s.exit.DeadlineExceeded?
    requires t.completed == if e.Complete? then s.completed + [(e.index, e.result)] else s.completed
    requires t.exit.DeadlineExceeded? ==> e.Deadline?
    ensures Caused(t, events + [e])
  {
    assert (events + [e])[|events|] == e;
  }

  lemma CausedMore(s: PhaseState, e: Event, events: seq<Event>)
    requires Caused(s, events)
    ensures Caused(s, events + [e])
  {}

  lemma {:induction false} CompletedFromEvents(context: Context, events: seq<Event>)
    requires ValidContext(context)
    ensures Caused(NetworkPhase.Run(context, events), events)
  {
    hide ValidContext, Inv, Step;
    if events == [] {
      InitialInv(context);
    } else {
      hide Caused;
      var n := |events| - 1;
      var before, e := NetworkPhase.Run(context, events[..n]), events[n];
      assert events == events[..n] + [e];
      CompletedFromEvents(context, events[..n]);
      InvBounds(context, before);
      if Enabled(before, e) {
        StepCompletes(context, before, e);
        CausedStep(before, Step(context, before, e), e, events[..n]);
      } else {
        CausedMore(before, e, events[..n]);
      }
    }
  }

  lemma StepCompletes(context: Context, s: PhaseState, e: Event)
    requires ValidContext(context) && s.queued <= |context.bindings| && Enabled(s, e)
    requires forall i :: i in s.pending ==> i < |context.bindings|
    ensures Step(context, s, e).completed == if e.Complete? then s.completed + [(e.index, e.result)] else s.completed
    ensures Step(context, s, e).exit.DeadlineExceeded? ==> e.Deadline?
  {
    hide ValidPolicy, SatisfiedBy, Timeouts, Canceled, Recovered;
  }

  lemma EventFromSignal(c: Crypto, e: AuthenticatedEnvelope, signals: seq<Signal>, i: nat, result: LeafResult)
    returns (blinding: nat, reply: Result<Bytes, NetworkFailure>)
    requires i < |e.body.descriptor.networks| && Complete(i, result) in Events(c, e, signals)
    ensures Replied(i, blinding, reply) in signals && result == RecoverLeaf(c, e, e.body.descriptor.networks[i], blinding, reply)
  {
    hide RecoverLeaf;
    var k :| 0 <= k < |signals| && EventOf(c, e, signals[k]) == Complete(i, result);
    blinding, reply := signals[k].blinding, signals[k].reply;
  }

  // ----- authenticated leaves are the enrolled ones -----

  /** Every successful completion carries the enrolled share of its provider. */
  predicate Honest(completed: seq<(nat, LeafResult)>, shares: seq<NetworkShare>) {
    forall k :: 0 <= k < |completed| ==>
      completed[k].0 < |shares| && (completed[k].1.Success? ==> completed[k].1.value == shares[completed[k].0].1)
  }

  lemma {:induction false} HonestShares(context: Context, completed: seq<(nat, LeafResult)>, shares: seq<NetworkShare>)
    requires Honest(completed, shares) && |context.bindings| == |shares|
    requires forall i :: 0 <= i < |shares| ==> shares[i].0 == context.bindings[i].nodeId
    ensures forall share :: share in Shares(context, completed) ==> share in shares
  {
    if completed != [] {
      HonestShares(context, completed[..|completed| - 1], shares);
      var last := completed[|completed| - 1];
      assert shares[last.0] in shares;
    }
  }

  lemma PhaseHonest(c: Crypto, e: AuthenticatedEnvelope, m: Material, signals: seq<Signal>)
    requires Laws(c) && ValidBody(c.rules, e.body) && Enrolled(c, e, m)
    ensures ValidContext(ContextFor(e.body.descriptor)) && Inv(ContextFor(e.body.descriptor), Phase(c, e, signals))
    ensures Honest(Phase(c, e, signals).completed, LeafShares(e.body.descriptor.policy.network, NetworkSecret(m), m.coins))
    ensures Phase(c, e, signals).exit.DeadlineExceeded? ==> TimedOut in signals
  {
    hide LeafShares, Leaves, RecoverLeaf, LeafHolds, Inv, ValidContext, ValidDescriptor, Laws, NetworkSecret, TpmHolds, PayloadEvidence, CoinsFit;
    var d := e.body.descriptor;
    var context, s := ContextFor(d), Phase(c, e, signals);
    CompletedFromEvents(context, Events(c, e, signals));
    CompletedBounds(context, s);
    var shares := LeafShares(d.policy.network, NetworkSecret(m), m.coins);
    forall k | 0 <= k < |s.completed|
      ensures s.completed[k].1.Success? ==> s.completed[k].1.value == shares[s.completed[k].0].1
    {
      var (i, result) := s.completed[k];
      var blinding, reply := EventFromSignal(c, e, signals, i, result);
      RecoverLeafExact(c, e, d.networks[i], blinding, reply, shares[i].1);
    }
    if s.exit.DeadlineExceeded? {
      var k :| 0 <= k < |signals| && EventOf(c, e, signals[k]) == Deadline;
    }
  }

  lemma CompletedBounds(context: Context, s: PhaseState)
    requires Inv(context, s)
    ensures forall k :: 0 <= k < |s.completed| ==> s.completed[k].0 < |context.bindings|
  {
    hide ExitExact, Shares;
  }

  lemma RecoveredEnrolled(c: Crypto, e: AuthenticatedEnvelope, m: Material, signals: seq<Signal>)
    requires Laws(c) && ValidBody(c.rules, e.body) && Enrolled(c, e, m)
    ensures Sublist(Phase(c, e, signals).recovered, LeafShares(e.body.descriptor.policy.network, NetworkSecret(m), m.coins))
  {
    hide LeafShares, Phase, LeafHolds, ValidPolicy, Laws, NetworkSecret, TpmHolds, PayloadEvidence, CoinsFit, Shares, ExitExact;
    PhaseHonest(c, e, m, signals);
    var d := e.body.descriptor;
    var context, s := ContextFor(d), Phase(c, e, signals);
    var shares := LeafShares(d.policy.network, NetworkSecret(m), m.coins);
    ContextLeaves(context);
    HonestShares(context, s.completed, shares);
    AvailableObservable(context, s.completed);
  }

  lemma ContextLeaves(context: Context)
    requires ValidContext(context)
    ensures |context.bindings| == |Leaves(context.policy.network)|
    ensures forall i :: 0 <= i < |context.bindings| ==> context.bindings[i].nodeId == Leaves(context.policy.network)[i].0
  {}

  /** The quorum of an enrolled envelope yields the enrolled network secret, whichever providers answered and in whatever
      order, and whatever the others replied. */
  lemma QuorumShare(c: Crypto, e: AuthenticatedEnvelope, m: Material, signals: seq<Signal>)
    requires Laws(c) && ValidBody(c.rules, e.body) && Enrolled(c, e, m)
    ensures Phase(c, e, signals).exit.Quorum? ==> Phase(c, e, signals).exit.share == Success(NetworkSecret(m))
  {
    hide LeafShares, Phase, LeafHolds, Laws, NetworkSecret, TpmHolds, PayloadEvidence, CoinsFit, Shares, Satisfied, Recovered, SlotsAfter, SlotsMatch, SatisfiedBy;
    PhaseHonest(c, e, m, signals);
    RecoveredEnrolled(c, e, m, signals);
    NestedRecovery(e.body.descriptor.policy, NetworkSecret(m), m.coins, Phase(c, e, signals).recovered);
  }

  /** Unlocking an enrolled envelope with its seed returns the enrolled credential exactly when the quorum is reached and
      the last clock reading is before the deadline; otherwise the reason is missing factors or the deadline. */
  lemma UnlockRoundTrip(c: Crypto, e: AuthenticatedEnvelope, m: Material, signals: seq<Signal>, unsealed: UnsealedSeed,
                        deadline: nat, now: nat, result: Result<UnlockResult, EngineError>)
    requires Laws(c) && ValidBody(c.rules, e.body) && Enrolled(c, e, m) && Authorized(e.body.descriptor.policy, m, unsealed)
    requires !Phase(c, e, signals).exit.Running?
    requires Verdict(c, e, Phase(c, e, signals), Success(unsealed), deadline, now, result)
    ensures Phase(c, e, signals).exit.Quorum? && now < deadline ==> result.Success?
    ensures result.Success? ==> Phase(c, e, signals).exit.Quorum? && now < deadline && result.value.credential == m.credential
    ensures result.Failure? ==> result.error.FactorsMissing? || result.error.DeadlinePassed?
  {
    hide Phase, Laws, Enrolled, Authorized, Opened, NetworkSecret, ValidBody, Inv, PhaseError, ValidContext;
    BodyFacts(c.rules, e.body);
    QuorumShare(c, e, m, signals);
    EvidenceOpens(c, e, m, unsealed);
    PhaseHonest(c, e, m, signals);
    if !Reached(Phase(c, e, signals).exit) {
      PhaseErrorKinds(ContextFor(e.body.descriptor), Phase(c, e, signals));
    }
  }

  /** The providers in `honest` answer only with the enrolled key's own evaluation. */
  predicate AnswerHonestly(c: Crypto, e: AuthenticatedEnvelope, signals: seq<Signal>, honest: set<nat>) {
    var d := e.body.descriptor;
    forall signal :: signal in signals && signal.Replied? && signal.index in honest && signal.index < |d.networks| ==>
      var b := d.networks[signal.index];
      signal.reply == Success(c.evaluate(b.publicKey, c.blind(NetworkInput(d, b), signal.blinding)))
  }

  function NodeIds(d: Descriptor, providers: set<nat>): set<U8> {
    set i | i in providers && i < |d.networks| :: d.networks[i].nodeId
  }

  /** If some providers that satisfy the threshold answer honestly and the deadline does not strike, the phase ends with a
      quorum, whatever the remaining providers do. */
  lemma HonestQuorum(c: Crypto, e: AuthenticatedEnvelope, m: Material, signals: seq<Signal>, honest: set<nat>)
    requires Laws(c) && ValidBody(c.rules, e.body) && Enrolled(c, e, m)
    requires AnswerHonestly(c, e, signals, honest) && TimedOut !in signals
    requires Satisfied(e.body.descriptor.policy.network, NodeIds(e.body.descriptor, honest))
    requires !Phase(c, e, signals).exit.Running?
    ensures Phase(c, e, signals).exit.Quorum?
  {
    hide Phase, Laws, Enrolled, ValidBody, ValidContext, Satisfied, AnswerHonestly, SlotsAfter, SlotsMatch, Shares;
    BodyFacts(c.rules, e.body);
    PhaseHonest(c, e, m, signals);
    var d := e.body.descriptor;
    var context, s := ContextFor(d), Phase(c, e, signals);
    if s.exit.InsufficientFactors? {
      forall i | i in honest && i < |d.networks| ensures d.networks[i].nodeId in Elements(s.available) {
        HonestAvailable(c, e, m, signals, honest, i);
      }
      SatisfiedMonotone(d.policy.network, NodeIds(d, honest), Elements(s.available));
    }
  }

  lemma HonestAvailable(c: Crypto, e: AuthenticatedEnvelope, m: Material, signals: seq<Signal>, honest: set<nat>, i: nat)
    requires Laws(c) && ValidBody(c.rules, e.body) && Enrolled(c, e, m) && AnswerHonestly(c, e, signals, honest)
    requires Phase(c, e, signals).exit.InsufficientFactors? && i in honest && i < |e.body.descriptor.networks|
    ensures e.body.descriptor.networks[i].nodeId in Phase(c, e, signals).available
  {
    hide Laws, ValidBody, ValidContext, Satisfied, LeafShares, LeafHolds, RecoverLeaf, NetworkInput, TpmHolds, PayloadEvidence, CoinsFit, NetworkSecret;
    BodyFacts(c.rules, e.body);
    var d := e.body.descriptor;
    var context, s := ContextFor(d), Phase(c, e, signals);
    var shares := LeafShares(d.policy.network, NetworkSecret(m), m.coins);
    hide Phase, Inv, ValidDescriptor;
    CompletedFromEvents(context, Events(c, e, signals));
    var k := AllCompleted(context, s, i);
    var blinding, reply := EventFromSignal(c, e, signals, i, s.completed[k].1);
    RecoverLeafExact(c, e, d.networks[i], blinding, reply, shares[i].1);
    SucceededAvailable(context, s, k);
  }

  lemma AllCompleted(context: Context, s: PhaseState, i: nat) returns (k: nat)
    requires Inv(context, s) && s.exit.InsufficientFactors? && i < |context.bindings|
    ensures k < |s.completed| && s.completed[k].0 == i
  {
    hide Satisfied, SlotsMatch, Shares, Failures;
    PendingCount(context, s);
    assert s.pending == {};
    assert i in IdsOf(s.completed);
    k :| 0 <= k < |s.completed| && IdsOf(s.completed)[k] == i;
  }

  lemma SucceededAvailable(context: Context, s: PhaseState, k: nat)
    requires ValidContext(context) && Inv(context, s) && k < |s.completed| && s.completed[k].1.Success?
    ensures s.completed[k].0 < |context.bindings| && context.bindings[s.completed[k].0].nodeId in s.available
  {
    hide ExitExact, ValidContext;
    SucceededListed(context, s.completed, k);
  }

  lemma {:induction false} SucceededListed(context: Context, completed: seq<(nat, LeafResult)>, k: nat)
    requires k < |completed| && completed[k].1.Success?
    requires forall j :: 0 <= j < |completed| ==> completed[j].0 < |context.bindings|
    ensures context.bindings[completed[k].0].nodeId in IdsOf(Shares(context, completed))
  {
    var n := |completed| - 1;
    var shares := Shares(context, completed);
    if k == n {
      assert IdsOf(shares)[|shares| - 1] == context.bindings[completed[k].0].nodeId;
    } else {
      SucceededListed(context, completed[..n], k);
      var before := Shares(context, completed[..n]);
      var j :| 0 <= j < |before| && IdsOf(before)[j] == context.bindings[completed[k].0].nodeId;
      assert IdsOf(shares)[j] == IdsOf(before)[j];
    }
  }
}
