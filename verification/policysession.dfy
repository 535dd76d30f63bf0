/** The one-release decision session. */
module PolicySessions {
  import opened Wrappers
  import opened Bytes
  import opened Sequences
  import opened PolicyTree
  import opened PolicyCompile
  import opened PolicyDecision

  /** Flags of the session, with the recorded responses. */
  datatype SessionState = SessionState(
    responses: seq<bool>, envelope: bool, tpm: bool, network: bool, live: bool, root: bool, released: bool)

  datatype Call =
    | AuthenticateEnvelope
    | AcceptNetwork(id: U8)
    | ConfirmTpm
    | ConfirmLive
    | AuthenticateRoot
    | Release

  function Start(policy: ProductionPolicy): SessionState {
    SessionState(seq(|policy.plan.leaves|, _ => false), false, false, false, false, false, false)
  }

  predicate RequireLive(policy: ProductionPolicy) { policy.mode.Attested? }

  predicate CanReconstruct(policy: ProductionPolicy, s: SessionState) {
    s.envelope && s.tpm && s.network && (!RequireLive(policy) || s.live) && !s.released
  }

  predicate CanRelease(policy: ProductionPolicy, s: SessionState) {
    s.envelope && s.tpm && s.network && (!RequireLive(policy) || s.live) && s.root && !s.released
  }

  function IndexOf(leaves: seq<LeafEntry>, id: U8): Option<nat> {
    if leaves == [] then None
    else if leaves[0].0 == id then Some(0)
    else match IndexOf(leaves[1..], id) case None => None case Some(i) => Some(i + 1)
  }

  function Evaluated(policy: ProductionPolicy, responses: seq<bool>): bool {
    var gates := policy.plan.gates;
    gates != [] && Values(gates, responses, |gates|)[|gates| - 1]
  }

  /** What each call does: its refusal, or the new state. */
  function Apply(policy: ProductionPolicy, s: SessionState, call: Call): Result<SessionState, PolicyError> {
    if s.released then Failure(AlreadyReleased)
    else if call.AuthenticateEnvelope? then Success(s.(envelope := true))
    else if !s.envelope then Failure(EnvelopeNotAuthenticated)
    else match call
         case AcceptNetwork(id) =>
           (match IndexOf(policy.plan.leaves, id)
            case None => Failure(UnknownNetworkLeaf(id))
            case Some(i) =>
              if i < |s.responses| && !s.responses[i]
              then var responses := s.responses[i := true];
                   Success(s.(responses := responses, network := Evaluated(policy, responses)))
              else Failure(DuplicateResponse(id)))
         case ConfirmTpm => Success(s.(tpm := true))
         case ConfirmLive => Success(s.(live := true))
         case AuthenticateRoot =>
           if CanReconstruct(policy, s) then Success(s.(root := true)) else Failure(FactorsNotSatisfied)
         case Release =>
           if !CanReconstruct(policy, s) then Failure(FactorsNotSatisfied)
           else if !s.root then Failure(RootNotAuthenticated)
           else Success(s.(released := true))
  }

  // ----- the session object -----

  class PolicySession {
    const policy: ProductionPolicy
    const responses: array<bool>
    var envelope: bool
    var tpm: bool
    var network: bool
    var live: bool
    var root: bool
    var released: bool

    ghost function Current(): SessionState
      reads this, responses
    {
      SessionState(responses[..], envelope, tpm, network, live, root, released)
    }

    constructor (policy: ProductionPolicy)
      ensures this.policy == policy && Current() == Start(policy) && fresh(responses)
    {
      this.policy := policy;
      responses := new bool[|policy.plan.leaves|](_ => false);
      envelope, tpm, network, live, root, released := false, false, false, false, false, false;
      new;
      assert responses[..] == seq(|policy.plan.leaves|, _ => false);
    }

    method DoAuthenticateEnvelope() returns (error: Option<PolicyError>)
      modifies this
      ensures Answers(Apply(policy, old(Current()), AuthenticateEnvelope), old(Current()), Current(), error)
    {
      if released {
        return Some(AlreadyReleased);
      }
      envelope := true;
      error := None;
    }

    method RequireAuthenticated() returns (error: Option<PolicyError>)
      ensures error == if released then Some(AlreadyReleased)
                       else if !envelope then Some(EnvelopeNotAuthenticated) else None
    {
      error := if released then Some(AlreadyReleased) else if !envelope then Some(EnvelopeNotAuthenticated) else None;
    }

    method DoAcceptNetwork(id: U8) returns (error: Option<PolicyError>)
      modifies this, responses
      ensures Answers(Apply(policy, old(Current()), AcceptNetwork(id)), old(Current()), Current(), error)
    {
      error := RequireAuthenticated();
      if error.Some? {
        return;
      }
      var index := FirstIndex(policy.plan.leaves, id);
      if index.None? {
        return Some(UnknownNetworkLeaf(id));
      }
      var accepted := RecordResponse(responses, index.value);
      if !accepted {
        return Some(DuplicateResponse(id));
      }
      network := EvaluateNetwork(policy.plan.gates, responses[..]);
      error := None;
    }

    method DoConfirmTpm() returns (error: Option<PolicyError>)
      modifies this
      ensures Answers(Apply(policy, old(Current()), ConfirmTpm), old(Current()), Current(), error)
    {
      error := RequireAuthenticated();
      if error.None? {
        tpm := true;
      }
    }

    method DoConfirmLive() returns (error: Option<PolicyError>)
      modifies this
      ensures Answers(Apply(policy, old(Current()), ConfirmLive), old(Current()), Current(), error)
    {
      error := RequireAuthenticated();
      if error.None? {
        live := true;
      }
    }

    method DoAuthenticateRoot() returns (error: Option<PolicyError>)
      modifies this
      ensures Answers(Apply(policy, old(Current()), AuthenticateRoot), old(Current()), Current(), error)
    {
      error := RequireAuthenticated();
      if error.Some? {
        return;
      }
      if !(envelope && tpm && network && (!policy.mode.Attested? || live) && !released) {
        return Some(FactorsNotSatisfied);
      }
      root := true;
    }

    method DoRelease() returns (error: Option<PolicyError>)
      modifies this
      ensures Answers(Apply(policy, old(Current()), Release), old(Current()), Current(), error)
    {
      error := RequireAuthenticated();
      if error.Some? {
        return;
      }
      if !(envelope && tpm && network && (!policy.mode.Attested? || live) && !released) {
        return Some(FactorsNotSatisfied);
      }
      if !root {
        return Some(RootNotAuthenticated);
      }
      var allowed := TryRelease();
      if !allowed {
        return Some(AlreadyReleased);
      }
      error := None;
    }

    /** A release is possible only when every mandatory observation is present, and only once. */
    method TryRelease() returns (allowed: bool)
      modifies this
      ensures allowed == CanRelease(policy, old(Current()))
      ensures Current() == old(Current()).(released := old(released) || allowed)
    {
      allowed := envelope && tpm && network && (!policy.mode.Attested? || live) && root && !released;
      if allowed {
        released := true;
      }
    }
  }

  /** A call either changes the state as specified or refuses and changes nothing. */
  predicate Answers(outcome: Result<SessionState, PolicyError>, before: SessionState, after: SessionState, error: Option<PolicyError>) {
    match outcome
    case Success(next) => error.None? && after == next
    case Failure(e) => error == Some(e) && after == before
  }

  method FirstIndex(leaves: seq<LeafEntry>, id: U8) returns (index: Option<nat>)
    ensures index == IndexOf(leaves, id)
  {
    var i := 0;
    while i < |leaves|
      invariant 0 <= i <= |leaves|
      invariant IndexOf(leaves, id) == match IndexOf(leaves[i..], id) case None => None case Some(k) => Some(k + i)
    {
      assert leaves[i..][1..] == leaves[i + 1..];
      if leaves[i].0 == id {
        return Some(i);
      }
      i := i + 1;
    }
    index := None;
  }

  // ----- arbitrary call sequences -----

  /** State after a call sequence, and the calls that were accepted. */
  function Run(policy: ProductionPolicy, calls: seq<Call>): (SessionState, set<Call>) {
    if calls == [] then (Start(policy), {})
    else
      var (s, accepted) := Run(policy, calls[..|calls| - 1]);
      var call := calls[|calls| - 1];
      match Apply(policy, s, call)
      case Success(next) => (next, accepted + {call})
      case Failure(_) => (s, accepted)
  }

  function AcceptedIds(accepted: set<Call>): set<U8> {
    set call | call in accepted && call.AcceptNetwork? :: call.id
  }

  /** The state is a function of the set of accepted calls: flags say which calls were accepted, responses which leaves,
      and the network flag is the threshold semantics of the accepted leaves. */
  function StateOf(policy: ProductionPolicy, accepted: set<Call>): SessionState {
    SessionState(
      seq(|policy.plan.leaves|, i requires 0 <= i < |policy.plan.leaves| => policy.plan.leaves[i].0 in AcceptedIds(accepted)),
      AuthenticateEnvelope in accepted, ConfirmTpm in accepted, Satisfied(policy.network, AcceptedIds(accepted)),
      ConfirmLive in accepted, AuthenticateRoot in accepted, Release in accepted)
  }

  /** Root authentication was granted only with all mandatory factors, and release only after it. */
  predicate Ordered(policy: ProductionPolicy, s: SessionState) {
    && (s.root ==> s.envelope && s.tpm && s.network && (!RequireLive(policy) || s.live))
    && (s.released ==> s.root)
    && (s.tpm || s.live || s.root || (exists i :: 0 <= i < |s.responses| && s.responses[i]) ==> s.envelope)
  }

  lemma {:induction false} IndexOfMeaning(leaves: seq<LeafEntry>, id: U8)
    ensures IndexOf(leaves, id).None? <==> id !in IdsOf(leaves)
    ensures IndexOf(leaves, id).Some? ==> var i := IndexOf(leaves, id).value; i < |leaves| && leaves[i].0 == id
  {
    if leaves != [] {
      IndexOfMeaning(leaves[1..], id);
      assert IdsOf(leaves) == [leaves[0].0] + IdsOf(leaves[1..]);
    }
  }

  /** Evaluating recorded responses gives the tree's meaning on the recorded leaves. */
  lemma EvaluatedMeansTree(policy: ProductionPolicy, responses: seq<bool>, available: set<U8>)
    requires ValidPolicy(policy) && |responses| == |policy.plan.leaves|
    requires forall i :: 0 <= i < |responses| ==> responses[i] == (policy.plan.leaves[i].0 in available)
    ensures Evaluated(policy, responses) == Satisfied(policy.network, available)
  {
    hide Values, Gates, Leaves;
    var node, plan := policy.network, policy.plan;
    AtWhole(plan.gates, Gates(node, 0, 0));
    AtWhole(plan.leaves, Leaves(node));
    NodeValue(node, plan.gates, plan.leaves, 0, 0, responses, available, |plan.gates|);
  }

  lemma StartOf(policy: ProductionPolicy)
    requires ValidPolicy(policy)
    ensures Start(policy) == StateOf(policy, {}) && Ordered(policy, Start(policy))
  {
    NothingSatisfied(policy.network);
    assert AcceptedIds({}) == {};
  }

  lemma AcceptNetworkStep(policy: ProductionPolicy, accepted: set<Call>, id: U8)
    requires ValidPolicy(policy) && id in IdsOf(policy.plan.leaves)
    ensures var s := StateOf(policy, accepted);
            var i := IndexOf(policy.plan.leaves, id);
            && i.Some? && i.value < |s.responses|
            && (s.responses[i.value] <==> id in AcceptedIds(accepted))
            && var responses := s.responses[i.value := true];
               && responses == StateOf(policy, accepted + {AcceptNetwork(id)}).responses
               && Evaluated(policy, responses) == Satisfied(policy.network, AcceptedIds(accepted + {AcceptNetwork(id)}))
  {
    hide Evaluated, Satisfied, ValidPolicy;
    IndexOfMeaning(policy.plan.leaves, id);
    PolicyLeafIds(policy);
    var leaves := policy.plan.leaves;
    var i := IndexOf(leaves, id).value;
    var more := accepted + {AcceptNetwork(id)};
    assert AcceptedIds(more) == AcceptedIds(accepted) + {id} by {
      assert AcceptNetwork(id) in more;
    }
    var responses := StateOf(policy, accepted).responses[i := true];
    forall k | 0 <= k < |leaves| ensures responses[k] == (leaves[k].0 in AcceptedIds(more)) {
      if k != i {
        assert IdsOf(leaves)[k] != IdsOf(leaves)[i];
      }
    }
    EvaluatedMeansTree(policy, responses, AcceptedIds(more));
  }

  lemma OtherCallIds(accepted: set<Call>, call: Call)
    requires !call.AcceptNetwork?
    ensures AcceptedIds(accepted + {call}) == AcceptedIds(accepted)
  {}

  /** One call keeps the closed form and the order of authentication. */
  lemma ApplyKeeps(policy: ProductionPolicy, accepted: set<Call>, call: Call)
    requires ValidPolicy(policy) && Ordered(policy, StateOf(policy, accepted))
    ensures var r := Apply(policy, StateOf(policy, accepted), call);
            r.Success? ==> r.value == StateOf(policy, accepted + {call}) && Ordered(policy, r.value)
  {
    var s := StateOf(policy, accepted);
    var r := Apply(policy, s, call);
    if r.Success? {
      if call.AcceptNetwork? {
        IndexOfMeaning(policy.plan.leaves, call.id);
        AcceptNetworkStep(policy, accepted, call.id);
        hide Evaluated, ValidPolicy, IndexOf;
        if Satisfied(policy.network, AcceptedIds(accepted)) {
          assert AcceptedIds(accepted) <= AcceptedIds(accepted + {call});
          SatisfiedMonotone(policy.network, AcceptedIds(accepted), AcceptedIds(accepted + {call}));
        }
        hide Satisfied;
      } else {
        hide Evaluated, ValidPolicy, IndexOf, Satisfied;
        OtherCallIds(accepted, call);
      }
    }
  }

  /** Over every call sequence the state is determined by the set of accepted calls, so the order in which observations
      were accepted does not matter; root authentication implies every mandatory factor. */
  lemma {:induction false} SessionRuns(policy: ProductionPolicy, calls: seq<Call>)
    requires ValidPolicy(policy)
    ensures var (s, accepted) := Run(policy, calls);
            s == StateOf(policy, accepted) && Ordered(policy, s)
  {
    hide Apply, ValidPolicy, StateOf, Ordered;
    if calls == [] {
      StartOf(policy);
    } else {
      SessionRuns(policy, calls[..|calls| - 1]);
      var (s, accepted) := Run(policy, calls[..|calls| - 1]);
      ApplyKeeps(policy, accepted, calls[|calls| - 1]);
    }
  }

  /** All mandatory factors are among the accepted calls: the TPM, a satisfying set of leaves, and live evidence if the
      mode requires it. */
  predicate Mandatory(policy: ProductionPolicy, accepted: set<Call>) {
    && ConfirmTpm in accepted && Satisfied(policy.network, AcceptedIds(accepted))
    && (policy.mode.Attested? ==> ConfirmLive in accepted)
  }

  /** Why a call is refused after these accepted calls. */
  function Refusal(policy: ProductionPolicy, accepted: set<Call>, call: Call): Option<PolicyError> {
    if Release in accepted then Some(AlreadyReleased)
    else if call != AuthenticateEnvelope && AuthenticateEnvelope !in accepted then Some(EnvelopeNotAuthenticated)
    else match call
         case AcceptNetwork(id) =>
           if id !in IdsOf(Leaves(policy.network)) then Some(UnknownNetworkLeaf(id))
           else if call in accepted then Some(DuplicateResponse(id)) else None
         case AuthenticateRoot => if Mandatory(policy, accepted) then None else Some(FactorsNotSatisfied)
         case Release =>
           if !Mandatory(policy, accepted) then Some(FactorsNotSatisfied)
           else if AuthenticateRoot !in accepted then Some(RootNotAuthenticated) else None
         case _ => None
  }

  lemma NetworkRefusal(policy: ProductionPolicy, accepted: set<Call>, id: U8)
    requires ValidPolicy(policy) && AuthenticateEnvelope in accepted && Release !in accepted
    ensures match Refusal(policy, accepted, AcceptNetwork(id))
            case Some(error) => Apply(policy, StateOf(policy, accepted), AcceptNetwork(id)) == Failure(error)
            case None => Apply(policy, StateOf(policy, accepted), AcceptNetwork(id)).Success?
  {
    hide Evaluated, Satisfied;
    IndexOfMeaning(policy.plan.leaves, id);
    PolicyLeafIds(policy);
    hide IndexOf, ValidPolicy;
    if id in IdsOf(policy.plan.leaves) {
      AcceptNetworkStep(policy, accepted, id);
      assert id in AcceptedIds(accepted) <==> AcceptNetwork(id) in accepted;
    }
  }

  /** After every call sequence, which calls are granted and why the others are refused, by the accepted calls alone. */
  lemma CallExact(policy: ProductionPolicy, calls: seq<Call>, call: Call)
    requires ValidPolicy(policy)
    ensures var (s, accepted) := Run(policy, calls);
            match Refusal(policy, accepted, call)
            case Some(error) => Apply(policy, s, call) == Failure(error)
            case None => Apply(policy, s, call) == Success(StateOf(policy, accepted + {call}))
  {
    var (s, accepted) := Run(policy, calls);
    SessionRuns(policy, calls);
    ApplyKeeps(policy, accepted, call);
    if call.AcceptNetwork? && AuthenticateEnvelope in accepted && Release !in accepted {
      NetworkRefusal(policy, accepted, call.id);
    }
    hide Run, ValidPolicy, Satisfied, IndexOf, Evaluated, AcceptedIds;
  }

  /** After a release nothing changes any more and every call is refused. */
  lemma {:induction false} FrozenAfterRelease(policy: ProductionPolicy, calls: seq<Call>, more: seq<Call>)
    requires Run(policy, calls).0.released
    ensures Run(policy, calls + more) == Run(policy, calls)
    ensures forall call :: Apply(policy, Run(policy, calls + more).0, call) == Failure(AlreadyReleased)
    decreases |more|
  {
    hide StateOf;
    if more == [] {
      assert calls + more == calls;
    } else {
      var n := |more| - 1;
      FrozenAfterRelease(policy, calls, more[..n]);
      var all := calls + more;
      assert all[..|all| - 1] == calls + more[..n];
    }
  }
}
