/** One unlock operation: network quorum, TPM, payload and the final release. */
module Unlocking {
  import opened Sequences
  import opened Wrappers
  import opened Bytes
  import GF256
  import opened Sharing
  import opened PolicyTree
  import opened PolicyCompile
  import opened PolicyDecision
  import opened PolicySharing
  import opened PolicySessions
  import opened Descriptors
  import opened NetworkPhase
  import opened Envelopes
  import opened CryptoLaws
  import opened Frames
  import opened LeafKeys
  import opened ReleaseGates

  datatype EngineError =
    | EnvelopeFailed(envelope: EnvelopeError)
    | CryptoFailed
    | SplitFailed
    | PolicyFailed
    | TpmFailed
    | FactorsMissing(failures: seq<ProviderFailure>)
    | DeadlinePassed(failures: seq<ProviderFailure>)
    | SharesDisagree
    | TargetMismatch
    | UnsupportedMode

  datatype TpmAuthorization = LocalMeasuredBoot | FreshSessionAuthorization

  datatype UnsealedSeed = UnsealedSeed(seed: Secret, authorization: TpmAuthorization)

  datatype UnlockResult = UnlockResult(credential: Secret, diagnostics: seq<ProviderFailure>)

  /** A monotone clock; the environment chooses how far it advances before each reading. */
  class Clock {
    var now: nat
    var advances: seq<nat>

    constructor (now: nat, advances: seq<nat>)
      ensures this.now == now && this.advances == advances
    {
      this.now, this.advances := now, advances;
    }

    method Read() returns (reading: nat)
      modifies this
      ensures old(now) <= now == reading
    {
      if advances != [] {
        now, advances := now + advances[0], advances[1..];
      }
      reading := now;
    }

    method CheckDeadline(deadline: nat) returns (error: Option<EngineError>)
      modifies this
      ensures old(now) <= now && error == if now >= deadline then Some(DeadlinePassed([])) else None
    {
      var reading := Read();
      error := if reading >= deadline then Some(DeadlinePassed([])) else None;
    }
  }

  function PolicyErrorOf(error: PolicyError): EngineError {
    match error
    case FactorsNotSatisfied => FactorsMissing([])
    case SharingFailed(InconsistentShares) => SharesDisagree
    case _ => PolicyFailed
  }

  // ----- evidence -----

  predicate Live(unsealed: UnsealedSeed) { unsealed.authorization.FreshSessionAuthorization? }

  /** The TPM share, once the unsealed seed opens the TPM leaf under the mode's authorization. */
  function TpmEvidence(c: Crypto, unsealed: UnsealedSeed, e: AuthenticatedEnvelope): Result<Secret, EngineError>
    requires e.body.leaves != []
  {
    var policy := e.body.descriptor.policy;
    if policy.mode.Attested? && !Live(unsealed) then Failure(UnsupportedMode)
    else
      var leafContext := LeafContext(e.context, policy.tpmNodeId);
      match c.open(c.derive(unsealed.seed, leafContext, TPM_WRAP), e.body.leaves[0].value, leafContext)
      case None => Failure(CryptoFailed)
      case Some(share) => Success(share)
  }

  function PayloadEvidence(c: Crypto, root: Secret, e: AuthenticatedEnvelope): Result<Secret, EngineError> {
    match c.open(c.derive(root, e.context, LUKS_SLOT), e.body.payload, e.context)
    case None => Failure(CryptoFailed)
    case Some(credential) => Success(credential)
  }

  function RootShares(tpm: Secret, network: Secret): seq<Share> {
    [Share(Coordinate(1), tpm), Share(Coordinate(2), network)]
  }

  /** Two shares at distinct coordinates always determine a root. */
  lemma RootDetermined(tpm: Secret, network: Secret)
    ensures Coordinate(1) != GF256.ZERO && Coordinate(2) != GF256.ZERO
    ensures Reconstructed(2, RootShares(tpm, network)).Success?
  {
    hide Coordinate, InterpolatedAt;
    CoordinateNonzero(1);
    CoordinateNonzero(2);
    if Coordinate(1) == Coordinate(2) {
      CoordinateInjective(1, 2);
    }
    BadIndexExact(RootShares(tpm, network), 0);
  }

  method RootOf(tpm: Secret, network: Secret) returns (root: Result<Secret, EngineError>)
    ensures root.Success? && Reconstructed(2, RootShares(tpm, network)) == Success(root.value)
  {
    hide Reconstructed, Coordinate;
    RootDetermined(tpm, network);
    var shares: seq<Share> := [];
    match FromParts(Coordinate(1), tpm) {
      case Failure(_) => return Failure(SplitFailed);
      case Success(share) => shares := [share];
    }
    match FromParts(Coordinate(2), network) {
      case Failure(_) => return Failure(SplitFailed);
      case Success(share) => shares := shares + [share];
    }
    assert shares == RootShares(tpm, network);
    var candidate := Reconstruct(2, shares);
    root := match candidate case Failure(_) => Failure(SplitFailed) case Success(secret) => Success(secret);
  }

  /** The credential behind a network share and an unsealed seed. */
  function Opened(c: Crypto, e: AuthenticatedEnvelope, network: Secret, unsealed: UnsealedSeed): Result<Secret, EngineError>
    requires e.body.leaves != []
  {
    match TpmEvidence(c, unsealed, e)
    case Failure(error) => Failure(error)
    case Success(tpm) => FromRoot(c, e, tpm, network)
  }

  function FromRoot(c: Crypto, e: AuthenticatedEnvelope, tpm: Secret, network: Secret): Result<Secret, EngineError> {
    match Reconstructed(2, RootShares(tpm, network))
    case Failure(_) => Failure(SplitFailed)
    case Success(root) => PayloadEvidence(c, root, e)
  }

  // ----- the network stage -----

  /** What reaches the operation from outside during the network stage. */
  datatype Signal =
    | Polled(index: nat)
    | Replied(index: nat, blinding: nat, reply: Result<Bytes, NetworkFailure>)
    | TimedOut

  function EventOf(c: Crypto, e: AuthenticatedEnvelope, signal: Signal): Event {
    match signal
    case Polled(i) => Poll(i)
    case Replied(i, blinding, reply) =>
      var networks := e.body.descriptor.networks;
      Complete(i, if i < |networks| then RecoverLeaf(c, e, networks[i], blinding, reply) else Failure(Configuration))
    case TimedOut => Deadline
  }

  function Events(c: Crypto, e: AuthenticatedEnvelope, signals: seq<Signal>): seq<Event> {
    seq(|signals|, i requires 0 <= i < |signals| => EventOf(c, e, signals[i]))
  }

  function ContextFor(d: Descriptor): Context { Context(d.policy, d.networks) }

  lemma ContextValid(rules: KeyRules, d: Descriptor)
    requires ValidDescriptor(rules, d)
    ensures ValidContext(ContextFor(d))
  {
    hide ValidPolicy;
    forall i | 0 <= i < |d.networks| ensures d.policy.plan.leaves[i] == (d.networks[i].nodeId, d.networks[i].providerId) {
      assert BindingMatches(rules, d.policy.plan.leaves[i], d.networks[i]);
    }
  }

  /** The state in which the network stage ends. */
  function Phase(c: Crypto, e: AuthenticatedEnvelope, signals: seq<Signal>): (s: PhaseState)
    requires ValidDescriptor(c.rules, e.body.descriptor)
    ensures ValidContext(ContextFor(e.body.descriptor)) && Inv(ContextFor(e.body.descriptor), s)
  {
    ContextValid(c.rules, e.body.descriptor);
    NetworkPhase.Run(ContextFor(e.body.descriptor), Events(c, e, signals))
  }

  predicate Reached(exit: Exit) { exit.Quorum? && exit.share.Success? }

  function PhaseError(s: PhaseState): EngineError
    requires !s.exit.Running? && !Reached(s.exit)
  {
    match s.exit
    case Quorum(share) => PolicyErrorOf(share.error)
    case InsufficientFactors => FactorsMissing(s.failures)
    case DeadlineExceeded => DeadlinePassed(s.failures)
    case Refused(error) => PolicyErrorOf(error)
  }

  /** Without a share the stage ends in exactly one of three ways; the generic policy refusal is not among them. */
  lemma PhaseErrorKinds(context: Context, s: PhaseState)
    requires ValidContext(context) && Inv(context, s) && !s.exit.Running? && !Reached(s.exit)
    ensures PhaseError(s) == SharesDisagree || PhaseError(s) == FactorsMissing(s.failures) || PhaseError(s) == DeadlinePassed(s.failures)
    ensures PhaseError(s) == SharesDisagree <==> s.exit.Quorum?
    ensures PhaseError(s).FactorsMissing? <==> s.exit.InsufficientFactors?
  {
    hide Recovered, SlotsAfter, SlotsMatch;
    if s.exit.Quorum? {
      QuorumObservable(context, s);
      RecoveredOutcomes(context.policy, s.recovered);
    }
  }

  lemma QuorumObservable(context: Context, s: PhaseState)
    requires ValidContext(context) && Inv(context, s)
    ensures ValidPolicy(context.policy) && Observable(context.policy, s.available) && s.available == IdsOf(s.recovered)
  {
    hide ExitExact, ValidPolicy, Satisfied, Shares;
    AvailableObservable(context, s.completed);
  }

  // ----- session and gate advance together -----

  function Begun(policy: ProductionPolicy): SessionState { Start(policy).(envelope := true) }

  function CallsFor(ids: seq<U8>): set<Call> { {AuthenticateEnvelope} + set id | id in ids :: AcceptNetwork(id) }

  lemma CallIds(ids: seq<U8>)
    ensures AcceptedIds(CallsFor(ids)) == Elements(ids)
    ensures ConfirmTpm !in CallsFor(ids) && ConfirmLive !in CallsFor(ids) && AuthenticateRoot !in CallsFor(ids) && Release !in CallsFor(ids)
    ensures AuthenticateEnvelope in CallsFor(ids)
  {
    forall id | id in Elements(ids) ensures id in AcceptedIds(CallsFor(ids)) {
      assert AcceptNetwork(id) in CallsFor(ids);
    }
  }

  /** Accepting a leaf that is known and new succeeds. */
  lemma AcceptOne(policy: ProductionPolicy, ids: seq<U8>, id: U8)
    requires ValidPolicy(policy) && Observable(policy, ids + [id])
    ensures Apply(policy, StateOf(policy, CallsFor(ids)), AcceptNetwork(id)) == Success(StateOf(policy, CallsFor(ids + [id])))
  {
    hide ValidPolicy, Evaluated, IndexOf, Satisfied;
    CallIds(ids);
    assert (ids + [id])[|ids|] == id;
    forall k | 0 <= k < |ids| ensures ids[k] != id {
      assert (ids + [id])[k] == ids[k];
    }
    AcceptNetworkStep(policy, CallsFor(ids), id);
    assert CallsFor(ids + [id]) == CallsFor(ids) + {AcceptNetwork(id)};
  }

  lemma BegunState(policy: ProductionPolicy)
    requires ValidPolicy(policy)
    ensures Begun(policy) == StateOf(policy, CallsFor([]))
  {
    hide Satisfied;
    CallIds([]);
    NothingSatisfied(policy.network);
    assert Elements<U8>([]) == {};
  }

  method AcceptAll(session: PolicySession, ids: seq<U8>) returns (error: Option<PolicyError>)
    requires ValidPolicy(session.policy) && Observable(session.policy, ids) && session.Current() == Begun(session.policy)
    modifies session, session.responses
    ensures error.None? && session.Current() == StateOf(session.policy, CallsFor(ids))
  {
    hide ValidPolicy, Apply, StateOf, Start;
    BegunState(session.policy);
    var i := 0;
    assert ids[..0] == [];
    while i < |ids|
      invariant 0 <= i <= |ids|
      invariant session.Current() == StateOf(session.policy, CallsFor(ids[..i]))
    {
      assert ids[..i + 1] == ids[..i] + [ids[i]];
      AcceptOne(session.policy, ids[..i], ids[i]);
      error := session.DoAcceptNetwork(ids[i]);
      if error.Some? {
        return;
      }
      i := i + 1;
    }
    assert ids[..|ids|] == ids;
    error := None;
  }

  /** What each phase of the gate says about the session, and conversely. */
  predicate Lockstep(policy: ProductionPolicy, s: SessionState, phase: nat) {
    && phase <= 4 && s.envelope
    && (phase >= 1 ==> s.network)
    && (phase >= 2 ==> s.tpm && (policy.mode.Attested? ==> s.live))
    && (phase >= 3 ==> s.root)
    && (phase == 4 ==> s.released)
    && (s.root ==> phase >= 2) && (s.released ==> phase >= 3)
  }

  /** Exactly when a credential leaves, which one, and the reason otherwise. `now` is the last clock reading. */
  predicate Verdict(c: Crypto, e: AuthenticatedEnvelope, s: PhaseState, unsealed: Result<UnsealedSeed, EngineError>,
                    deadline: nat, now: nat, result: Result<UnlockResult, EngineError>)
    requires e.body.leaves != [] && !s.exit.Running?
  {
    if !Reached(s.exit) then result == Failure(PhaseError(s))
    else
      var found := if unsealed.Failure? then Failure(unsealed.error) else Opened(c, e, s.exit.share.value, unsealed.value);
      match result
      case Success(unlocked) => now < deadline && found == Success(unlocked.credential) && unlocked.diagnostics == s.failures
      case Failure(error) => (now >= deadline && error == DeadlinePassed([])) || found == Failure(error)
  }

  lemma BodyFacts(rules: KeyRules, b: EnvelopeBody)
    requires ValidBody(rules, b)
    ensures ValidDescriptor(rules, b.descriptor) && b.leaves != []
  {}

  class UnlockOperation {
    const envelope: AuthenticatedEnvelope
    const deadline: nat
    const session: PolicySession
    const gate: ReleaseState

    ghost predicate Valid(c: Crypto) {
      && ValidBody(c.rules, envelope.body) && envelope.body.leaves != []
      && gate.context == envelope.context
      && gate.requireLive == envelope.body.descriptor.policy.mode.Attested?
      && session.policy == envelope.body.descriptor.policy
    }

    ghost predicate InStep()
      reads session, session.responses, gate
    {
      Lockstep(session.policy, session.Current(), gate.phase)
    }

    ghost predicate Started(c: Crypto, deadline: nat)
      reads session, session.responses, gate
    {
      && this.deadline == deadline && Valid(c) && InStep() && session.Current() == Begun(session.policy) && gate.phase == 0
    }

    constructor (c: Crypto, envelope: AuthenticatedEnvelope, deadline: nat, session: PolicySession)
      requires ValidBody(c.rules, envelope.body) && session.policy == envelope.body.descriptor.policy
      ensures this.envelope == envelope && this.deadline == deadline && this.session == session && fresh(gate)
      ensures Valid(c) && gate.phase == 0
    {
      this.envelope, this.deadline, this.session := envelope, deadline, session;
      gate := new ReleaseState(envelope.context, envelope.body.descriptor.policy.mode.Attested?);
    }

    /** The network stage: with a share both session and gate have recorded the network factor. */
    method NetworkStage(c: Crypto, signals: seq<Signal>, report: OperationReport)
      returns (result: Result<Secret, EngineError>, diagnostics: seq<ProviderFailure>)
      requires Valid(c) && session.Current() == Begun(session.policy) && gate.phase == 0
      requires report.providers[..] == Configured(envelope.body.descriptor.networks)
      requires !Phase(c, envelope, signals).exit.Running?
      modifies session, session.responses, gate, report.providers
      ensures var s := Phase(c, envelope, signals);
              && diagnostics == s.failures && report.providers[..] == s.slots
              && if Reached(s.exit)
                 then && result == Success(s.exit.share.value) && gate.phase == 1
                      && session.Current() == StateOf(session.policy, CallsFor(s.available)) && session.network
                 else result == Failure(PhaseError(s)) && gate.phase == 0 && session.Current() == Begun(session.policy)
      ensures InStep() && !session.tpm && !session.root && !session.released
    {
      hide ValidPolicy, Inv, ValidContext, Apply, Configured;
      var d := envelope.body.descriptor;
      ghost var s := Phase(c, envelope, signals);
      var loop := RecoverNetworkObserved(ContextFor(d), Events(c, envelope, signals), report);
      assert loop.Current() == s;
      diagnostics := loop.failures;
      match loop.exit
      case Quorum(share) =>
        if share.Failure? {
          return Failure(PolicyErrorOf(share.error)), diagnostics;
        }
        QuorumObservable(ContextFor(d), s);
        var refused := AcceptAll(session, loop.available);
        match refused {
          case Some(error) => return Failure(PolicyErrorOf(error)), diagnostics;
          case None =>
        }
        CallIds(loop.available);
        QuorumSatisfied(ContextFor(d), s);
        var accepted := gate.Network(envelope.context);
        if !accepted {
          return Failure(PolicyFailed), diagnostics;
        }
        result := Success(share.value);
      case InsufficientFactors =>
        result := Failure(FactorsMissing(loop.failures));
      case DeadlineExceeded =>
        result := Failure(DeadlinePassed(loop.failures));
      case Refused(error) =>
        result := Failure(PolicyErrorOf(error));
    }

    /** The TPM stage succeeds exactly with an authorized seed that opens the TPM leaf before the deadline. */
    method TpmStage(c: Crypto, unsealed: Result<UnsealedSeed, EngineError>, clock: Clock) returns (result: Result<Secret, EngineError>)
      requires Valid(c) && InStep() && gate.phase == 1 && !session.root && !session.released
      modifies session, gate, clock
      ensures result.Success? <==>
                clock.now < deadline && unsealed.Success? && TpmEvidence(c, unsealed.value, envelope).Success?
      ensures result.Success? ==> result == TpmEvidence(c, unsealed.value, envelope)
      ensures result.Failure? ==>
                || (result.error == DeadlinePassed([]) && clock.now >= deadline)
                || (if unsealed.Failure? then result.error == unsealed.error
                    else result == TpmEvidence(c, unsealed.value, envelope))
      ensures InStep() && old(clock.now) <= clock.now && gate.phase == (if result.Success? then 2 else 1)
      ensures session.Current() == if result.Success? then old(session.Current()).(tpm := true, live := old(session.live) || Live(unsealed.value))
                                   else old(session.Current())
    {
      hide ValidBody, TpmEvidence;
      EvidenceLive(c, envelope);
      var late := clock.CheckDeadline(deadline);
      if late.Some? {
        return Failure(late.value);
      }
      if unsealed.Failure? {
        return Failure(unsealed.error);
      }
      late := clock.CheckDeadline(deadline);
      if late.Some? {
        return Failure(late.value);
      }
      var evidence := TpmEvidence(c, unsealed.value, envelope);
      if evidence.Failure? {
        return evidence;
      }
      var live := Live(unsealed.value);
      if live {
        var refused := session.DoConfirmLive();
        match refused {
          case Some(error) => return Failure(PolicyErrorOf(error));
          case None =>
        }
      }
      var refused := session.DoConfirmTpm();
      match refused {
        case Some(error) => return Failure(PolicyErrorOf(error));
        case None =>
      }
      var accepted := gate.Tpm(envelope.context, live);
      if !accepted {
        return Failure(PolicyFailed);
      }
      result := evidence;
    }

    /** The payload stage and the release: exactly with an opening payload, before the deadline at the last reading. */
    method PayloadStage(c: Crypto, tpm: Secret, network: Secret, clock: Clock) returns (result: Result<Secret, EngineError>)
      requires Valid(c) && InStep() && gate.phase == 2 && !session.root && !session.released
      modifies session, gate, clock
      ensures result.Success? <==> clock.now < deadline && FromRoot(c, envelope, tpm, network).Success?
      ensures result.Success? ==> result == FromRoot(c, envelope, tpm, network) && gate.phase == 4
      ensures result.Failure? ==>
                && (result == FromRoot(c, envelope, tpm, network) || (result.error == DeadlinePassed([]) && clock.now >= deadline))
                && result.error != SplitFailed && result.error != PolicyFailed && gate.phase < 4
      ensures InStep() && old(clock.now) <= clock.now
    {
      hide ValidBody, Reconstructed, Coordinate;
      RootDetermined(tpm, network);
      var root := RootOf(tpm, network);
      match root {
        case Failure(error) => return Failure(error);
        case Success(secret) =>
          result := PayloadEvidence(c, secret, envelope);
      }
      if result.Failure? {
        return;
      }
      var refused := session.DoAuthenticateRoot();
      match refused {
        case Some(error) => return Failure(PolicyErrorOf(error));
        case None =>
      }
      var accepted := gate.Payload(envelope.context);
      if !accepted {
        return Failure(PolicyFailed);
      }
      var late := ReleaseStage(c, clock);
      match late {
        case Some(error) => result := Failure(error);
        case None =>
      }
    }

    /** The release is refused exactly at or after the deadline; the session's release is not undone when the gate is late. */
    method ReleaseStage(c: Crypto, clock: Clock) returns (refusal: Option<EngineError>)
      requires Valid(c) && InStep() && gate.phase == 3 && !session.released
      modifies session, gate, clock
      ensures refusal == if clock.now < deadline then None else Some(DeadlinePassed([]))
      ensures InStep() && old(clock.now) <= clock.now && gate.phase == if refusal.None? then 4 else 3
    {
      hide ValidBody;
      refusal := clock.CheckDeadline(deadline);
      if refusal.Some? {
        return;
      }
      var refused := session.DoRelease();
      match refused {
        case Some(error) => return Some(PolicyErrorOf(error));
        case None =>
      }
      var now := clock.Read();
      var accepted := gate.Release(envelope.context, now < deadline);
      if !accepted {
        refusal := clock.CheckDeadline(deadline);
        match refusal {
          case Some(_) =>
          case None => refusal := Some(PolicyFailed);
        }
      }
    }

    /** The whole operation. A credential leaves exactly when the network stage reaches its quorum with a share, the seed
        is unsealed with the authorization of the mode, the shares open the payload, and the last clock reading is still
        before the deadline. Then session and gate have both released; otherwise the gate has not. */
    method Run(c: Crypto, signals: seq<Signal>, unsealed: Result<UnsealedSeed, EngineError>, clock: Clock, report: OperationReport)
      returns (result: Result<UnlockResult, EngineError>)
      requires Valid(c) && session.Current() == Begun(session.policy) && gate.phase == 0
      requires report.providers[..] == Configured(envelope.body.descriptor.networks)
      requires !Phase(c, envelope, signals).exit.Running?
      modifies session, session.responses, gate, report.providers, clock
      ensures Verdict(c, envelope, Phase(c, envelope, signals), unsealed, deadline, clock.now, result)
      ensures (gate.phase == 4 <==> result.Success?) && old(clock.now) <= clock.now
      ensures InStep() && report.providers[..] == Phase(c, envelope, signals).slots
    {
      hide ValidBody, Reached, PhaseError, Phase, TpmEvidence, FromRoot, Configured, StateOf, Lockstep;
      BodyFacts(c.rules, envelope.body);
      var network, diagnostics := NetworkStage(c, signals, report);
      if network.Failure? {
        return Failure(network.error);
      }
      var tpm := TpmStage(c, unsealed, clock);
      if tpm.Failure? {
        return Failure(tpm.error);
      }
      var credential := PayloadStage(c, tpm.value, network.value, clock);
      if credential.Failure? {
        return Failure(credential.error);
      }
      result := Success(UnlockResult(credential.value, diagnostics));
    }
  }

  predicate Targets(d: Descriptor, volume: Bytes16, slot: U8) { d.volumeUuid == volume && d.slot == slot }

  /** The checks before any provider is asked, in order. */
  function Admission(e: AuthenticatedEnvelope, volume: Bytes16, slot: U8, supported: Mode -> bool, late: bool)
    : Result<AuthenticatedEnvelope, EngineError>
  {
    if !Targets(e.body.descriptor, volume, slot) then Failure(TargetMismatch)
    else if !supported(e.body.descriptor.policy.mode) then Failure(UnsupportedMode)
    else if late then Failure(DeadlinePassed([]))
    else Success(e)
  }

  /** The admission of the envelope `raw` authenticates as, and an envelope error if there is none. */
  ghost predicate Admits(c: Crypto, raw: Bytes, signer: Bytes32, volume: Bytes16, slot: U8, supported: Mode -> bool, late: bool,
                         admitted: Result<AuthenticatedEnvelope, EngineError>)
  {
    && (forall e | Authentic(c, raw, signer, e) :: admitted == Admission(e, volume, slot, supported, late))
    && ((forall e :: !Authentic(c, raw, signer, e)) ==> admitted.Failure? && admitted.error.EnvelopeFailed?)
    && (admitted.Success? ==> Authentic(c, raw, signer, admitted.value))
  }

  function EnvelopeOf(begun: Result<UnlockOperation, EngineError>): Result<AuthenticatedEnvelope, EngineError> {
    match begun
    case Success(op) => Success(op.envelope)
    case Failure(error) => Failure(error)
  }

  /** An operation begins exactly on an authentic envelope for this volume and slot, in a supported mode, in time. */
  method Begin(c: Crypto, raw: Bytes, signer: Bytes32, volume: Bytes16, slot: U8, supported: Mode -> bool, clock: Clock, deadline: nat,
               report: OperationReport)
    returns (result: Result<UnlockOperation, EngineError>)
    requires report.providers.Length == MAX_PROVIDER_OBSERVATIONS
    requires forall i :: 0 <= i < report.providers.Length ==> report.providers[i].None?
    modifies clock, report.providers
    ensures old(clock.now) <= clock.now
    ensures result.Success? ==> fresh(result.value) && fresh(result.value.session) && fresh(result.value.gate)
    ensures result.Success? ==> fresh(result.value.session.responses) && result.value.Started(c, deadline)
    ensures result.Success? ==> report.providers[..] == Configured(result.value.envelope.body.descriptor.networks)
    ensures Admits(c, raw, signer, volume, slot, supported, clock.now >= deadline, EnvelopeOf(result))
  {
    hide Authentic, Configured, ValidBody;
    var authenticated := Authenticate(c, raw, signer);
    if authenticated.Failure? {
      return Failure(EnvelopeFailed(authenticated.error));
    }
    var envelope := authenticated.value;
    AuthenticBody(c, raw, signer, envelope);
    BodyFacts(c.rules, envelope.body);
    var d := envelope.body.descriptor;
    report.Configure(d.networks);
    if !Targets(d, volume, slot) {
      return Failure(TargetMismatch);
    }
    if !supported(d.policy.mode) {
      return Failure(UnsupportedMode);
    }
    var late := clock.CheckDeadline(deadline);
    if late.Some? {
      return Failure(late.value);
    }
    var session := new PolicySession(d.policy);
    var refused := session.DoAuthenticateEnvelope();
    match refused {
      case Some(error) => return Failure(PolicyErrorOf(error));
      case None =>
    }
    var op := new UnlockOperation(c, envelope, deadline, session);
    result := Success(op);
  }

  lemma AuthenticBody(c: Crypto, raw: Bytes, trusted: Bytes32, e: AuthenticatedEnvelope)
    requires Authentic(c, raw, trusted, e)
    ensures ValidBody(c.rules, e.body)
  {
    hide ValidBody;
  }

  /** Every network stage of an envelope that `raw` authenticates as comes to its end. */
  ghost predicate Settles(c: Crypto, raw: Bytes, signer: Bytes32, signals: seq<Signal>) {
    forall e | Authentic(c, raw, signer, e) :: Settled(c, e, signals)
  }

  ghost predicate Settled(c: Crypto, e: AuthenticatedEnvelope, signals: seq<Signal>) {
    ValidBody(c.rules, e.body) ==> !Phase(c, e, signals).exit.Running?
  }

  /** A schedule in which the deadline strikes always comes to its end. */
  lemma TimeoutSettles(c: Crypto, e: AuthenticatedEnvelope, signals: seq<Signal>)
    requires TimedOut in signals
    ensures Settled(c, e, signals)
  {
    if ValidBody(c.rules, e.body) {
      BodyFacts(c.rules, e.body);
      hide ValidBody, ValidDescriptor, ValidContext, Inv;
      ContextValid(c.rules, e.body.descriptor);
      var k :| 0 <= k < |signals| && signals[k] == TimedOut;
      assert Events(c, e, signals)[k] == Deadline;
      DeadlineEnds(ContextFor(e.body.descriptor), Events(c, e, signals));
    }
  }

  /** The outcome on an authentic envelope. */
  ghost predicate UnlockVerdict(c: Crypto, e: AuthenticatedEnvelope, volume: Bytes16, slot: U8, supported: Mode -> bool,
                                signals: seq<Signal>, unsealed: Result<UnsealedSeed, EngineError>, deadline: nat, now: nat,
                                result: Result<UnlockResult, EngineError>)
    requires ValidBody(c.rules, e.body) && Settled(c, e, signals)
  {
    match Admission(e, volume, slot, supported, false)
    case Failure(error) => result == Failure(error)
    case Success(_) =>
      || (result == Failure(DeadlinePassed([])) && now >= deadline)
      || Verdict(c, e, Phase(c, e, signals), unsealed, deadline, now, result)
  }

  /** The complete unlock of a raw envelope for a volume and slot. */
  method Unlock(c: Crypto, raw: Bytes, signer: Bytes32, volume: Bytes16, slot: U8, supported: Mode -> bool, signals: seq<Signal>,
                unsealed: Result<UnsealedSeed, EngineError>, clock: Clock, deadline: nat, report: OperationReport)
    returns (result: Result<UnlockResult, EngineError>)
    requires report.providers.Length == MAX_PROVIDER_OBSERVATIONS
    requires forall i :: 0 <= i < report.providers.Length ==> report.providers[i].None?
    requires Settles(c, raw, signer, signals)
    modifies clock, report.providers
    ensures old(clock.now) <= clock.now
    ensures (forall e :: !Authentic(c, raw, signer, e)) ==> result.Failure? && result.error.EnvelopeFailed?
    ensures forall e | Authentic(c, raw, signer, e) ::
              && ValidBody(c.rules, e.body) && Settled(c, e, signals)
              && UnlockVerdict(c, e, volume, slot, supported, signals, unsealed, deadline, clock.now, result)
  {
    hide Authentic, ValidBody, Phase, Configured, Verdict, Begun, Lockstep, UnlockVerdict, Targets;
    var begun := Begin(c, raw, signer, volume, slot, supported, clock, deadline, report);
    forall e | Authentic(c, raw, signer, e) ensures ValidBody(c.rules, e.body) && Settled(c, e, signals) {
      AuthenticBody(c, raw, signer, e);
    }
    if begun.Failure? {
      result := Failure(begun.error);
    } else {
      result := begun.value.Run(c, signals, unsealed, clock, report);
    }
    forall e | Authentic(c, raw, signer, e)
      ensures UnlockVerdict(c, e, volume, slot, supported, signals, unsealed, deadline, clock.now, result)
    {
      UnlockSettled(c, e, volume, slot, supported, signals, unsealed, deadline, clock.now, result);
    }
  }

  lemma UnlockSettled(c: Crypto, e: AuthenticatedEnvelope, volume: Bytes16, slot: U8, supported: Mode -> bool, signals: seq<Signal>,
                      unsealed: Result<UnsealedSeed, EngineError>, deadline: nat, now: nat, result: Result<UnlockResult, EngineError>)
    requires ValidBody(c.rules, e.body) && Settled(c, e, signals)
    requires (result.Failure? && Admission(e, volume, slot, supported, now >= deadline) == Failure(result.error))
          || (e.body.leaves != [] && Admission(e, volume, slot, supported, false).Success?
              && Verdict(c, e, Phase(c, e, signals), unsealed, deadline, now, result))
    ensures UnlockVerdict(c, e, volume, slot, supported, signals, unsealed, deadline, now, result)
  {
    hide Phase, Verdict, ValidBody;
  }

  /** An accepted TPM share carries the authorization its mode asks for, and evidence fails only in these two ways. */
  lemma EvidenceLive(c: Crypto, e: AuthenticatedEnvelope)
    requires ValidBody(c.rules, e.body)
    ensures e.body.leaves != []
    ensures forall unsealed :: TpmEvidence(c, unsealed, e).Success? && e.body.descriptor.policy.mode.Attested? ==> Live(unsealed)
    ensures forall unsealed :: TpmEvidence(c, unsealed, e).Failure? ==>
              TpmEvidence(c, unsealed, e).error == UnsupportedMode || TpmEvidence(c, unsealed, e).error == CryptoFailed
  {
    hide ValidDescriptor, LeafContext;
  }

  /** With a monotone clock the generic refusals of session, gate and root sharing cannot be the reason. */
  lemma NoGenericRefusal(c: Crypto, e: AuthenticatedEnvelope, s: PhaseState, unsealed: Result<UnsealedSeed, EngineError>,
                         deadline: nat, now: nat, result: Result<UnlockResult, EngineError>)
    requires ValidBody(c.rules, e.body) && e.body.leaves != [] && !s.exit.Running?
    requires ValidContext(ContextFor(e.body.descriptor)) && Inv(ContextFor(e.body.descriptor), s)
    requires Verdict(c, e, s, unsealed, deadline, now, result)
    ensures result == Failure(PolicyFailed) || result == Failure(SplitFailed) ==> unsealed == Failure(result.error)
  {
    hide ValidContext, TpmEvidence, Inv, PhaseError, Reconstructed, RootShares, ValidBody;
    EvidenceLive(c, e);
    if !Reached(s.exit) {
      PhaseErrorKinds(ContextFor(e.body.descriptor), s);
    } else if unsealed.Success? && TpmEvidence(c, unsealed.value, e).Success? {
      RootDetermined(TpmEvidence(c, unsealed.value, e).value, s.exit.share.value);
    }
  }

  lemma QuorumSatisfied(context: Context, s: PhaseState)
    requires Inv(context, s) && s.exit.Quorum?
    ensures Satisfied(context.policy.network, Elements(s.available))
  {
    hide Satisfied, SlotsAfter, Recovered;
  }
}
