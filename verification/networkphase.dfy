/** The bounded-concurrency network phase of recovery, as a step system over its events. */
module NetworkPhase {
  import opened Sequences
  import opened Wrappers
  import opened Bytes
  import opened PolicyTree
  import opened PolicyCompile
  import opened PolicyDecision
  import opened PolicySharing
  import opened Descriptors
  import opened Sharing

  const MAX_NETWORK_OPERATIONS: nat := 4
  const MAX_PROVIDER_OBSERVATIONS: nat := 31

  datatype NetworkFailure =
    | Configuration
    | Unavailable
    | Timeout
    | RemoteRejected
    | InvalidResponse
    | InvalidProof
    | Authentication
    | Cryptography

  datatype ProviderFailure = ProviderFailure(providerId: Bytes32, kind: NetworkFailure)

  datatype ProviderOutcome =
    | NotStarted
    | Authenticated
    | Failed(kind: NetworkFailure)
    | CanceledQuorum
    | CanceledDeadline
    | CanceledOperation

  datatype Observation = Observation(providerId: Bytes32, outcome: ProviderOutcome)

  type Slots = seq<Option<Observation>>

  /** The outcome of one provider evaluation: its opened share, or why there is none. */
  type LeafResult = Result<Secret, NetworkFailure>

  // ----- provider slots of the report -----

  function Configured(bindings: seq<NetworkBinding>): (slots: Slots)
    ensures |slots| == MAX_PROVIDER_OBSERVATIONS
  {
    seq(MAX_PROVIDER_OBSERVATIONS, i requires 0 <= i < MAX_PROVIDER_OBSERVATIONS =>
      if i < |bindings| then Some(Observation(bindings[i].providerId, NotStarted)) else None)
  }

  function Marked(slots: Slots, index: nat, outcome: ProviderOutcome): (marked: Slots)
    ensures |marked| == |slots|
  {
    if index < |slots| && slots[index].Some?
    then slots[index := Some(slots[index].value.(outcome := outcome))]
    else slots
  }

  predicate SlotPending(slots: Slots, index: nat) {
    index < |slots| && slots[index].Some? && slots[index].value.outcome == NotStarted
  }

  predicate AnyFailed(slots: Slots) {
    exists i :: 0 <= i < |slots| && slots[i].Some? && slots[i].value.outcome.Failed?
  }

  function Canceled(slots: Slots, started: set<nat>, outcome: ProviderOutcome): (marked: Slots)
    ensures |marked| == |slots|
  {
    seq(|slots|, i requires 0 <= i < |slots| =>
      if i in started && SlotPending(slots, i) then Some(slots[i].value.(outcome := outcome)) else slots[i])
  }

  class OperationReport {
    const providers: array<Option<Observation>>

    constructor ()
      ensures providers.Length == MAX_PROVIDER_OBSERVATIONS && fresh(providers)
      ensures forall i :: 0 <= i < providers.Length ==> providers[i].None?
    {
      providers := new Option<Observation>[MAX_PROVIDER_OBSERVATIONS](_ => None);
    }

    method Configure(bindings: seq<NetworkBinding>)
      requires providers.Length == MAX_PROVIDER_OBSERVATIONS
      requires forall i :: 0 <= i < providers.Length ==> providers[i].None?
      modifies providers
      ensures providers[..] == Configured(bindings)
    {
      var i := 0;
      while i < providers.Length && i < |bindings|
        invariant 0 <= i <= providers.Length && i <= |bindings|
        invariant forall k :: 0 <= k < i ==> providers[k] == Some(Observation(bindings[k].providerId, NotStarted))
        invariant forall k :: i <= k < providers.Length ==> providers[k].None?
      {
        providers[i] := Some(Observation(bindings[i].providerId, NotStarted));
        i := i + 1;
      }
    }

    method Provider(index: nat, outcome: ProviderOutcome)
      modifies providers
      ensures providers[..] == Marked(old(providers[..]), index, outcome)
    {
      if index < providers.Length && providers[index].Some? {
        providers[index] := Some(providers[index].value.(outcome := outcome));
      }
    }

    method Pending(index: nat) returns (pending: bool)
      ensures pending == SlotPending(providers[..], index)
    {
      pending := index < providers.Length && providers[index].Some? && providers[index].value.outcome == NotStarted;
    }

    method Degraded() returns (degraded: bool)
      ensures degraded == AnyFailed(providers[..])
    {
      var i := 0;
      while i < providers.Length
        invariant 0 <= i <= providers.Length
        invariant forall k :: 0 <= k < i ==> !(providers[k].Some? && providers[k].value.outcome.Failed?)
      {
        if providers[i].Some? && providers[i].value.outcome.Failed? {
          assert providers[..][i].Some? && providers[..][i].value.outcome.Failed?;
          return true;
        }
        i := i + 1;
      }
      degraded := false;
    }

    /** Mark every started provider that has no outcome yet. */
    method Cancel(started: set<nat>, outcome: ProviderOutcome)
      modifies providers
      ensures providers[..] == Canceled(old(providers[..]), started, outcome)
    {
      ghost var before := providers[..];
      var i := 0;
      while i < providers.Length
        invariant 0 <= i <= providers.Length
        invariant forall k :: 0 <= k < i ==> providers[k] == Canceled(before, started, outcome)[k]
        invariant forall k :: i <= k < providers.Length ==> providers[k] == before[k]
      {
        var pending := Pending(i);
        if pending && i in started {
          Provider(i, outcome);
        }
        i := i + 1;
      }
    }
  }

  // ----- the step system -----

  /** An authenticated descriptor's policy with its bindings. */
  datatype Context = Context(policy: ProductionPolicy, bindings: seq<NetworkBinding>)

  predicate ValidContext(c: Context) {
    && ValidPolicy(c.policy)
    && |c.bindings| == |c.policy.plan.leaves|
    && forall i :: 0 <= i < |c.bindings| ==> c.policy.plan.leaves[i] == (c.bindings[i].nodeId, c.bindings[i].providerId)
  }

  /** How the phase ends. */
  datatype Exit =
    | Running
    | Quorum(share: Result<Secret, PolicyError>)
    | InsufficientFactors
    | DeadlineExceeded
    | Refused(error: PolicyError)

  /** `completed` records provider indices and results in completion order. */
  datatype PhaseState = PhaseState(
    queued: nat, pending: set<nat>, started: set<nat>, completed: seq<(nat, LeafResult)>,
    recovered: seq<NetworkShare>, available: seq<U8>, failures: seq<ProviderFailure>, slots: Slots, exit: Exit)

  /** First poll of a queued evaluation, completion of a polled one, or the deadline. */
  datatype Event = Poll(index: nat) | Complete(index: nat, result: LeafResult) | Deadline

  function Min(a: nat, b: nat): nat { if a < b then a else b }

  function Range(n: nat): (r: set<nat>)
    ensures forall i: nat :: i in r <==> i < n
  {
    if n == 0 then {} else Range(n - 1) + {n - 1}
  }

  function Initial(c: Context): PhaseState {
    var queued := Min(MAX_NETWORK_OPERATIONS, |c.bindings|);
    PhaseState(queued, Range(queued), {}, [], [], [], [], Configured(c.bindings),
          if queued == 0 then InsufficientFactors else Running)
  }

  predicate Enabled(s: PhaseState, e: Event) {
    s.exit.Running? && match e
                       case Poll(i) => i in s.pending
                       case Complete(i, _) => i in s.pending && i in s.started
                       case Deadline => true
  }

  function ResultOutcome(result: LeafResult): ProviderOutcome {
    match result
    case Success(_) => Authenticated
    case Failure(kind) => Failed(kind)
  }

  /** Bookkeeping of one completion, before the threshold is evaluated. */
  function Recorded(c: Context, s: PhaseState, i: nat, result: LeafResult): PhaseState
    requires i < |c.bindings|
  {
    var b := c.bindings[i];
    var done := s.(pending := s.pending - {i}, completed := s.completed + [(i, result)],
                   slots := Marked(s.slots, i, ResultOutcome(result)));
    match result
    case Success(secret) => done.(recovered := s.recovered + [(b.nodeId, secret)], available := s.available + [b.nodeId])
    case Failure(kind) => done.(failures := s.failures + [ProviderFailure(b.providerId, kind)])
  }

  /** Start the next queued provider, if any; end when nothing is pending. */
  function Refilled(c: Context, s: PhaseState): PhaseState {
    if s.queued < |c.bindings| then s.(pending := s.pending + {s.queued}, queued := s.queued + 1)
    else if s.pending == {} then s.(exit := InsufficientFactors)
    else s
  }

  function Decided(c: Context, s: PhaseState): PhaseState
    requires ValidContext(c)
  {
    match SatisfiedBy(c.policy, s.available)
    case Failure(error) => s.(slots := Canceled(s.slots, s.started, CanceledOperation), exit := Refused(error))
    case Success(true) =>
      PolicyPlanOk(c.policy);
      s.(slots := Canceled(s.slots, s.started, CanceledQuorum), exit := Quorum(Recovered(c.policy.plan, s.recovered)))
    case Success(false) => Refilled(c, s)
  }

  /** Deadline diagnostics: queued providers from `k` on that neither answered nor failed. */
  function Timeouts(bindings: seq<NetworkBinding>, available: seq<U8>, failures: seq<ProviderFailure>, k: nat, queued: nat)
    : seq<ProviderFailure>
    requires k <= queued <= |bindings|
    decreases queued - k
  {
    if k == queued then failures
    else if bindings[k].nodeId !in available && !Named(failures, bindings[k].providerId)
    then Timeouts(bindings, available, failures + [ProviderFailure(bindings[k].providerId, Timeout)], k + 1, queued)
    else Timeouts(bindings, available, failures, k + 1, queued)
  }

  predicate Named(failures: seq<ProviderFailure>, provider: Bytes32) {
    exists i :: 0 <= i < |failures| && failures[i].providerId == provider
  }

  function Expired(c: Context, s: PhaseState): PhaseState
    requires s.queued <= |c.bindings|
  {
    s.(failures := Timeouts(c.bindings, s.available, s.failures, 0, s.queued),
       slots := Canceled(s.slots, s.started, CanceledDeadline), exit := DeadlineExceeded)
  }

  function Step(c: Context, s: PhaseState, e: Event): PhaseState
    requires ValidContext(c) && s.queued <= |c.bindings| && Enabled(s, e)
    requires forall i :: i in s.pending ==> i < |c.bindings|
  {
    match e
    case Poll(i) => s.(started := s.started + {i})
    case Complete(i, result) => Decided(c, Recorded(c, s, i, result))
    case Deadline => Expired(c, s)
  }

  // ----- invariant -----

  /** Payloads of the successful completions, in order. */
  function Shares(c: Context, completed: seq<(nat, LeafResult)>): seq<NetworkShare>
    requires forall k :: 0 <= k < |completed| ==> completed[k].0 < |c.bindings|
  {
    if completed == [] then []
    else
      var last := completed[|completed| - 1];
      Shares(c, completed[..|completed| - 1])
      + if last.1.Success? then [(c.bindings[last.0].nodeId, last.1.value)] else []
  }

  /** Diagnostics of the failed completions, in order. */
  function Failures(c: Context, completed: seq<(nat, LeafResult)>): seq<ProviderFailure>
    requires forall k :: 0 <= k < |completed| ==> completed[k].0 < |c.bindings|
  {
    if completed == [] then []
    else
      var last := completed[|completed| - 1];
      Failures(c, completed[..|completed| - 1])
      + if last.1.Failure? then [ProviderFailure(c.bindings[last.0].providerId, last.1.error)] else []
  }

  /** What the phase knows about provider `i` from its completions. */
  function OutcomeOf(completed: seq<(nat, LeafResult)>, i: nat): ProviderOutcome {
    if completed == [] then NotStarted
    else if completed[|completed| - 1].0 == i then ResultOutcome(completed[|completed| - 1].1)
    else OutcomeOf(completed[..|completed| - 1], i)
  }

  predicate SlotsMatch(c: Context, s: PhaseState) {
    && |s.slots| == MAX_PROVIDER_OBSERVATIONS
    && forall i :: 0 <= i < |s.slots| ==>
         s.slots[i] == if i < |c.bindings| then Some(Observation(c.bindings[i].providerId, OutcomeOf(s.completed, i))) else None
  }

  /** Queueing discipline: every provider below `queued` was launched exactly once and is pending or completed. */
  predicate Discipline(c: Context, s: PhaseState) {
    && s.queued <= |c.bindings|
    && Distinct(IdsOf(s.completed))
    && (forall i :: i in s.pending ==> i < s.queued)
    && (forall k :: 0 <= k < |s.completed| ==> s.completed[k].0 < s.queued && s.completed[k].0 in s.started && s.completed[k].0 !in s.pending)
    && (forall i :: 0 <= i < s.queued ==> i in s.pending || i in IdsOf(s.completed))
    && (forall i :: i in s.started ==> i < s.queued)
  }

  /** The slot of each provider: its result, `canceled` if it was started without one, else untouched. */
  predicate SlotsAfter(c: Context, s: PhaseState, canceled: ProviderOutcome) {
    && |s.slots| == MAX_PROVIDER_OBSERVATIONS
    && forall i :: 0 <= i < |s.slots| ==>
         s.slots[i] == if i >= |c.bindings| then None
                       else Some(Observation(c.bindings[i].providerId,
                                             if i in IdsOf(s.completed) then OutcomeOf(s.completed, i)
                                             else if i in s.started then canceled else NotStarted))
  }

  /** Timeouts of the queued providers from `k` on without a completion, in order. */
  function Missing(c: Context, completed: seq<(nat, LeafResult)>, k: nat, queued: nat): seq<ProviderFailure>
    requires k <= queued <= |c.bindings|
    decreases queued - k
  {
    if k == queued then []
    else (if k in IdsOf(completed) then [] else [ProviderFailure(c.bindings[k].providerId, Timeout)])
         + Missing(c, completed, k + 1, queued)
  }

  /** Exact classification at every exit. */
  predicate ExitExact(c: Context, s: PhaseState)
    requires Discipline(c, s)
  {
    match s.exit
    case Running =>
      && s.failures == Failures(c, s.completed) && SlotsMatch(c, s)
      && s.queued == Min(|c.bindings|, MAX_NETWORK_OPERATIONS + |s.completed|)
      && s.pending != {}
      && !Satisfied(c.policy.network, Elements(s.available))
    case Quorum(share) =>
      && s.failures == Failures(c, s.completed) && SlotsAfter(c, s, CanceledQuorum)
      && s.completed != []
      && Satisfied(c.policy.network, Elements(s.available))
      && !Satisfied(c.policy.network, Elements(IdsOf(Shares(c, s.completed[..|s.completed| - 1]))))
      && PlanOk(c.policy.plan) && share == Recovered(c.policy.plan, s.recovered)
    case InsufficientFactors =>
      && s.failures == Failures(c, s.completed) && SlotsMatch(c, s)
      && |s.completed| == |c.bindings| == s.queued
      && !Satisfied(c.policy.network, Elements(s.available))
    case DeadlineExceeded =>
      && s.failures == Failures(c, s.completed) + Missing(c, s.completed, 0, s.queued)
      && SlotsAfter(c, s, CanceledDeadline)
      && s.pending != {}
      && !Satisfied(c.policy.network, Elements(s.available))
    case Refused(_) => false
  }

  predicate Inv(c: Context, s: PhaseState) {
    && Discipline(c, s)
    && s.recovered == Shares(c, s.completed)
    && s.available == IdsOf(s.recovered)
    && ExitExact(c, s)
  }

  // ----- counting pending evaluations -----

  lemma {:induction false} RangeCard(n: nat)
    ensures |Range(n)| == n
  {
    if n > 0 {
      RangeCard(n - 1);
    }
  }

  lemma {:induction false} DistinctCard(s: seq<nat>)
    requires Distinct(s)
    ensures |Elements(s)| == |s|
  {
    if s == [] {
      assert Elements(s) == {};
    } else {
      var n := |s| - 1;
      DistinctCard(s[..n]);
      assert s == s[..n] + [s[n]];
      assert Elements(s) == Elements(s[..n]) + {s[n]};
      assert s[n] !in Elements(s[..n]);
    }
  }

  /** Pending and completed partition the launched providers. */
  lemma PendingCount(c: Context, s: PhaseState)
    requires Discipline(c, s)
    ensures |s.completed| <= s.queued && |s.pending| == s.queued - |s.completed|
  {
    var done := Elements(IdsOf(s.completed));
    DistinctCard(IdsOf(s.completed));
    RangeCard(s.queued);
    forall i | i in done ensures i in Range(s.queued) && i !in s.pending {
      var k :| 0 <= k < |s.completed| && IdsOf(s.completed)[k] == i;
    }
    assert s.pending + done == Range(s.queued);
    assert s.pending !! done;
  }

  /** At most four evaluations are ever pending, and exactly min(4, n - completed) while the phase runs. */
  lemma BoundedConcurrency(c: Context, s: PhaseState)
    requires Inv(c, s)
    ensures |s.completed| <= |c.bindings|
    ensures s.exit.Running? ==> |s.completed| < |c.bindings|
    ensures s.exit.Running? ==> |s.pending| == Min(MAX_NETWORK_OPERATIONS, |c.bindings| - |s.completed|)
  {
    hide ExitExact;
    PendingCount(c, s);
    if s.exit.Running? {
      RunningFacts(c, s);
      if s.pending != {} {
        var i :| i in s.pending;
        assert |s.pending| > 0;
      }
    }
  }

  lemma RunningFacts(c: Context, s: PhaseState)
    requires Inv(c, s) && s.exit.Running?
    ensures s.queued == Min(|c.bindings|, MAX_NETWORK_OPERATIONS + |s.completed|) && s.pending != {}
  {}

  // ----- the start of the phase -----

  lemma InitialInv(c: Context)
    requires ValidContext(c)
    ensures Inv(c, Initial(c)) && Initial(c).exit.Running?
  {
    var s := Initial(c);
    PolicyLeaves(c.policy);
    NothingSatisfied(c.policy.network);
    assert s.queued > 0 && 0 in s.pending;
    assert Elements(s.available) == {};
    assert Discipline(c, s);
    assert SlotsMatch(c, s);
  }

  // ----- one completion -----

  lemma CompletedSnoc(c: Context, completed: seq<(nat, LeafResult)>, i: nat, result: LeafResult)
    requires i < |c.bindings| && forall k :: 0 <= k < |completed| ==> completed[k].0 < |c.bindings|
    ensures var more := completed + [(i, result)];
            && (forall k :: 0 <= k < |more| ==> more[k].0 < |c.bindings|)
            && IdsOf(more) == IdsOf(completed) + [i]
            && Shares(c, more) == Shares(c, completed)
                                  + (if result.Success? then [(c.bindings[i].nodeId, result.value)] else [])
            && Failures(c, more) == Failures(c, completed)
                                    + (if result.Failure? then [ProviderFailure(c.bindings[i].providerId, result.error)] else [])
            && (forall j: nat :: OutcomeOf(more, j) == if j == i then ResultOutcome(result) else OutcomeOf(completed, j))
  {
    var more := completed + [(i, result)];
    assert more[..|more| - 1] == completed;
  }

  lemma ShareIdsSnoc(shares: seq<NetworkShare>, id: U8, secret: Secret)
    ensures IdsOf(shares + [(id, secret)]) == IdsOf(shares) + [id]
  {}

  lemma RecordedDiscipline(c: Context, s: PhaseState, i: nat, result: LeafResult)
    requires Discipline(c, s) && i in s.pending && i in s.started
    ensures Discipline(c, Recorded(c, s, i, result))
  {
    var s' := Recorded(c, s, i, result);
    var before, after := IdsOf(s.completed), IdsOf(s'.completed);
    CompletedSnoc(c, s.completed, i, result);
    assert after == before + [i];
    forall j, k | 0 <= j < k < |after| ensures after[j] != after[k] {
      if k == |before| {
        assert s.completed[j].0 !in s.pending;
      } else {
        assert before[j] != before[k];
      }
    }
    forall j: nat | j < s.queued ensures j in s'.pending || j in after {
      if j == i {
        assert after[|before|] == i;
      }
    }
  }

  lemma RecordedFacts(c: Context, s: PhaseState, i: nat, result: LeafResult)
    requires Inv(c, s) && s.exit.Running? && i in s.pending && i in s.started && |c.bindings| <= MAX_PROVIDER_OBSERVATIONS
    ensures var s' := Recorded(c, s, i, result);
            && Discipline(c, s')
            && s'.recovered == Shares(c, s'.completed) && s'.available == IdsOf(s'.recovered)
            && s'.failures == Failures(c, s'.completed) && SlotsMatch(c, s')
  {
    hide Shares, Failures, OutcomeOf, Satisfied;
    RecordedDiscipline(c, s, i, result);
    CompletedSnoc(c, s.completed, i, result);
    var s' := Recorded(c, s, i, result);
    if result.Success? {
      ShareIdsSnoc(s.recovered, c.bindings[i].nodeId, result.value);
    } else {
      assert Shares(c, s.completed) + [] == Shares(c, s.completed);
    }
    assert Failures(c, s.completed) + [] == Failures(c, s.completed);
    assert Shares(c, s.completed) + [] == Shares(c, s.completed);
  }

  // ----- what has been observed is acceptable to the decision -----

  lemma LastIsNew(completed: seq<(nat, LeafResult)>)
    requires completed != [] && Distinct(IdsOf(completed))
    ensures var before := completed[..|completed| - 1];
            && Distinct(IdsOf(before))
            && completed[|completed| - 1].0 !in IdsOf(before)
            && IdsOf(completed) == IdsOf(before) + [completed[|completed| - 1].0]
            && completed == before + [completed[|completed| - 1]]
  {
    var n := |completed| - 1;
    var before := completed[..n];
    forall k | 0 <= k < n ensures IdsOf(before)[k] != completed[n].0 {
      assert IdsOf(completed)[k] != IdsOf(completed)[n];
    }
    assert IdsOf(before) == IdsOf(completed)[..n];
  }

  /** Successful completions are the available identities. */
  lemma {:induction false} AvailableMeansAuthenticated(c: Context, completed: seq<(nat, LeafResult)>)
    requires ValidContext(c)
    requires forall k :: 0 <= k < |completed| ==> completed[k].0 < |c.bindings|
    requires Distinct(IdsOf(completed))
    ensures forall i: nat :: i < |c.bindings| ==>
              (c.bindings[i].nodeId in IdsOf(Shares(c, completed)) <==> OutcomeOf(completed, i) == Authenticated)
  {
    if completed != [] {
      var n := |completed| - 1;
      var before, last := completed[..n], completed[n];
      LastIsNew(completed);
      AvailableMeansAuthenticated(c, before);
      CompletedSnoc(c, before, last.0, last.1);
      CompletedOutcome(before, last.0);
      BindingIds(c);
      hide Shares, OutcomeOf, ValidContext, IdsOf;
      if last.1.Success? {
        ShareIdsSnoc(Shares(c, before), c.bindings[last.0].nodeId, last.1.value);
      } else {
        assert Shares(c, before) + [] == Shares(c, before);
      }
    }
  }

  /** The available identities are distinct known leaves, so the decision never refuses them. */
  lemma {:induction false} AvailableObservable(c: Context, completed: seq<(nat, LeafResult)>)
    requires ValidContext(c)
    requires forall k :: 0 <= k < |completed| ==> completed[k].0 < |c.bindings|
    requires Distinct(IdsOf(completed))
    ensures Observable(c.policy, IdsOf(Shares(c, completed)))
  {
    if completed != [] {
      var n := |completed| - 1;
      var before, last := completed[..n], completed[n];
      LastIsNew(completed);
      AvailableObservable(c, before);
      CompletedSnoc(c, before, last.0, last.1);
      if last.1.Success? {
        AvailableMeansAuthenticated(c, before);
        CompletedOutcome(before, last.0);
        BindingIds(c);
        hide Shares, OutcomeOf, ValidContext, IdsOf;
        var id := c.bindings[last.0].nodeId;
        ShareIdsSnoc(Shares(c, before), id, last.1.value);
        assert id !in IdsOf(Shares(c, before));
        assert IdsOf(c.policy.plan.leaves)[last.0] == id;
      } else {
        assert Shares(c, before) + [] == Shares(c, before);
      }
    }
  }

  lemma BindingIds(c: Context)
    requires ValidContext(c)
    ensures |c.bindings| == |c.policy.plan.leaves| <= 29
    ensures forall i :: 0 <= i < |c.bindings| ==> c.bindings[i].nodeId == IdsOf(c.policy.plan.leaves)[i]
    ensures forall i, j :: 0 <= i < j < |c.bindings| ==> c.bindings[i].nodeId != c.bindings[j].nodeId
    ensures forall i, j :: 0 <= i < j < |c.bindings| ==> c.bindings[i].providerId != c.bindings[j].providerId
  {
    PolicyLeaves(c.policy);
    var leaves := c.policy.plan.leaves;
    hide ValidPolicy;
    forall i, j | 0 <= i < j < |c.bindings|
      ensures c.bindings[i].nodeId != c.bindings[j].nodeId && c.bindings[i].providerId != c.bindings[j].providerId
    {
      assert IdsOf(leaves)[i] != IdsOf(leaves)[j];
      assert Providers(leaves)[i] != Providers(leaves)[j];
    }
  }

  lemma {:induction false} CompletedOutcome(completed: seq<(nat, LeafResult)>, i: nat)
    ensures OutcomeOf(completed, i) == NotStarted <==> i !in IdsOf(completed)
    ensures OutcomeOf(completed, i) == NotStarted || OutcomeOf(completed, i) == Authenticated || OutcomeOf(completed, i).Failed?
  {
    if completed != [] {
      var n := |completed| - 1;
      CompletedOutcome(completed[..n], i);
      assert IdsOf(completed) == IdsOf(completed[..n]) + [completed[n].0];
    }
  }

  /** Failure diagnostics name exactly the failed completions' providers. */
  lemma {:induction false} FailuresFromBindings(c: Context, completed: seq<(nat, LeafResult)>)
    requires ValidContext(c)
    requires forall k :: 0 <= k < |completed| ==> completed[k].0 < |c.bindings|
    requires Distinct(IdsOf(completed))
    ensures forall i: nat :: i < |c.bindings| ==>
              (Named(Failures(c, completed), c.bindings[i].providerId) <==> OutcomeOf(completed, i).Failed?)
  {
    if completed != [] {
      var n := |completed| - 1;
      var before, last := completed[..n], completed[n];
      LastIsNew(completed);
      FailuresFromBindings(c, before);
      CompletedSnoc(c, before, last.0, last.1);
      BindingIds(c);
      CompletedOutcome(before, last.0);
      hide Failures, OutcomeOf, ValidContext, Named, IdsOf;
      if last.1.Failure? {
        NamedSnoc(Failures(c, before), ProviderFailure(c.bindings[last.0].providerId, last.1.error));
      } else {
        assert Failures(c, before) + [] == Failures(c, before);
      }
    }
  }

  lemma NamedSnoc(failures: seq<ProviderFailure>, failure: ProviderFailure)
    ensures forall p: Bytes32 :: Named(failures + [failure], p) <==> Named(failures, p) || p == failure.providerId
  {
    var more := failures + [failure];
    assert more[|failures|] == failure;
    forall p: Bytes32 | Named(failures, p) ensures Named(more, p) {
      var i :| 0 <= i < |failures| && failures[i].providerId == p;
      assert more[i].providerId == p;
    }
  }

  // ----- cancellation marks -----

  lemma CanceledSlots(c: Context, s: PhaseState, s': PhaseState, outcome: ProviderOutcome)
    requires SlotsMatch(c, s)
    requires s'.completed == s.completed && s'.started == s.started
    requires s'.slots == Canceled(s.slots, s.started, outcome)
    ensures SlotsAfter(c, s', outcome)
  {
    hide IdsOf, OutcomeOf;
    forall i | 0 <= i < |s.slots| && i < |c.bindings|
      ensures s'.slots[i] == Some(Observation(c.bindings[i].providerId,
                                              if i in IdsOf(s.completed) then OutcomeOf(s.completed, i)
                                              else if i in s.started then outcome else NotStarted))
    {
      CompletedOutcome(s.completed, i);
    }
  }

  // ----- deadline diagnostics -----

  lemma {:induction false} TimeoutsExact(c: Context, completed: seq<(nat, LeafResult)>, acc: seq<ProviderFailure>, k: nat, queued: nat)
    requires ValidContext(c) && k <= queued <= |c.bindings|
    requires forall j :: 0 <= j < |completed| ==> completed[j].0 < |c.bindings|
    requires Distinct(IdsOf(completed))
    requires forall i: nat :: k <= i < |c.bindings| ==> (Named(acc, c.bindings[i].providerId) <==> OutcomeOf(completed, i).Failed?)
    ensures Timeouts(c.bindings, IdsOf(Shares(c, completed)), acc, k, queued) == acc + Missing(c, completed, k, queued)
    decreases queued - k
  {
    hide Named, OutcomeOf, Shares, IdsOf, ValidContext;
    if k == queued {
      assert acc + [] == acc;
    } else {
      AvailableMeansAuthenticated(c, completed);
      CompletedOutcome(completed, k);
      BindingIds(c);
      var timeout := ProviderFailure(c.bindings[k].providerId, Timeout);
      var rest := Missing(c, completed, k + 1, queued);
      if k in IdsOf(completed) {
        TimeoutsExact(c, completed, acc, k + 1, queued);
        assert [] + rest == rest;
      } else {
        NamedSnoc(acc, timeout);
        TimeoutsExact(c, completed, acc + [timeout], k + 1, queued);
        assert (acc + [timeout]) + rest == acc + ([timeout] + rest);
      }
    }
  }

  // ----- every step keeps the invariant -----

  lemma PollInv(c: Context, s: PhaseState, i: nat)
    requires Inv(c, s) && Enabled(s, Poll(i))
    ensures Inv(c, s.(started := s.started + {i}))
  {}

  lemma DeadlineInv(c: Context, s: PhaseState)
    requires ValidContext(c) && Inv(c, s) && s.exit.Running?
    ensures Inv(c, Expired(c, s))
  {
    hide Shares, Failures, OutcomeOf, Satisfied, ValidContext, SlotsMatch, SlotsAfter, Missing, Timeouts, Canceled;
    var s' := Expired(c, s);
    FailuresFromBindings(c, s.completed);
    TimeoutsExact(c, s.completed, s.failures, 0, s.queued);
    CanceledSlots(c, s, s', CanceledDeadline);
  }

  lemma QuorumInv(c: Context, s: PhaseState, s': PhaseState)
    requires ValidContext(c)
    requires Discipline(c, s) && s.recovered == Shares(c, s.completed) && s.available == IdsOf(s.recovered)
    requires s.failures == Failures(c, s.completed) && SlotsMatch(c, s)
    requires s.completed != [] && Satisfied(c.policy.network, Elements(s.available))
    requires !Satisfied(c.policy.network, Elements(IdsOf(Shares(c, s.completed[..|s.completed| - 1]))))
    requires PlanOk(c.policy.plan)
    requires s' == s.(slots := Canceled(s.slots, s.started, CanceledQuorum), exit := Quorum(Recovered(c.policy.plan, s.recovered)))
    ensures Inv(c, s')
  {
    hide Shares, Failures, OutcomeOf, Satisfied, ValidContext, SlotsMatch, SlotsAfter, Canceled, Recovered, PlanOk, IdsOf;
    CanceledSlots(c, s, s', CanceledQuorum);
  }

  lemma RefillDiscipline(c: Context, s: PhaseState)
    requires Discipline(c, s) && s.queued < |c.bindings|
    ensures Discipline(c, Refilled(c, s))
  {}

  lemma RefillInv(c: Context, s: PhaseState)
    requires Discipline(c, s) && s.exit.Running?
    requires s.recovered == Shares(c, s.completed) && s.available == IdsOf(s.recovered)
    requires s.failures == Failures(c, s.completed) && SlotsMatch(c, s)
    requires s.completed != [] && s.queued == Min(|c.bindings|, MAX_NETWORK_OPERATIONS + |s.completed| - 1)
    requires !Satisfied(c.policy.network, Elements(s.available))
    ensures Inv(c, Refilled(c, s))
  {
    hide Shares, Failures, OutcomeOf, Satisfied, SlotsAfter, IdsOf;
    var s' := Refilled(c, s);
    PendingCount(c, s);
    if s.queued < |c.bindings| {
      RefillDiscipline(c, s);
      assert s.queued in s'.pending;
    }
    assert SlotsMatch(c, s');
  }

  lemma CompleteInv(c: Context, s: PhaseState, i: nat, result: LeafResult)
    requires ValidContext(c) && Inv(c, s) && Enabled(s, Complete(i, result))
    ensures Inv(c, Decided(c, Recorded(c, s, i, result)))
  {
    hide Shares, Failures, OutcomeOf, Satisfied, SlotsMatch, SlotsAfter, Canceled, PlanOk, Recovered, IdsOf, ValidContext,
         SatisfiedBy, Marked;
    BindingIds(c);
    RecordedFacts(c, s, i, result);
    var r := Recorded(c, s, i, result);
    assert r.completed[..|r.completed| - 1] == s.completed;
    AvailableObservable(c, r.completed);
    ContextPolicy(c);
    DecisionMeansTree(c.policy, r.available);
    if Satisfied(c.policy.network, Elements(r.available)) {
      PolicyPlanOk(c.policy);
      QuorumInv(c, r, Decided(c, r));
    } else {
      RefillInv(c, r);
    }
  }

  lemma ContextPolicy(c: Context)
    requires ValidContext(c)
    ensures ValidPolicy(c.policy)
  {}

  lemma StepInv(c: Context, s: PhaseState, e: Event)
    requires ValidContext(c) && Inv(c, s) && Enabled(s, e)
    ensures Inv(c, Step(c, s, e))
  {
    hide ValidContext, Inv, Decided, Recorded, Expired;
    InvBounds(c, s);
    match e {
      case Poll(i) => PollInv(c, s, i);
      case Complete(i, result) => CompleteInv(c, s, i, result);
      case Deadline => DeadlineInv(c, s);
    }
  }

  lemma InvBounds(c: Context, s: PhaseState)
    requires Inv(c, s)
    ensures s.queued <= |c.bindings| && forall i :: i in s.pending ==> i < |c.bindings|
  {}

  // ----- runs -----

  /** The state after a schedule of events; an event that is not enabled has no effect.
      Every state of every interleaving of polls, completions and the deadline satisfies the invariant. */
  function Run(c: Context, events: seq<Event>): (s: PhaseState)
    requires ValidContext(c)
    ensures Inv(c, s)
  {
    if events == [] then
      InitialInv(c);
      Initial(c)
    else
      var before := Run(c, events[..|events| - 1]);
      var e := events[|events| - 1];
      InvBounds(c, before);
      if Enabled(before, e) then
        StepInv(c, before, e);
        Step(c, before, e)
      else before
  }

  /** The variables of the recovery loop. */
  class RecoveryLoop {
    const c: Context
    const report: OperationReport
    var remaining: nat
    var pending: set<nat>
    var started: set<nat>
    var recovered: seq<NetworkShare>
    var available: seq<U8>
    var failures: seq<ProviderFailure>
    var exit: Exit
    ghost var completed: seq<(nat, LeafResult)>

    ghost function Current(): PhaseState
      reads this, report.providers
    {
      PhaseState(remaining, pending, started, completed, recovered, available, failures, report.providers[..], exit)
    }

    /** Queue the first evaluations. */
    constructor (c: Context, report: OperationReport)
      requires ValidContext(c) && report.providers[..] == Configured(c.bindings)
      ensures this.c == c && this.report == report && Current() == Initial(c)
    {
      this.c := c;
      this.report := report;
      var next: nat, queue: set<nat> := 0, {};
      while next < |c.bindings| && next < MAX_NETWORK_OPERATIONS
        invariant 0 <= next <= Min(MAX_NETWORK_OPERATIONS, |c.bindings|)
        invariant queue == Range(next)
      {
        queue := queue + {next};
        next := next + 1;
      }
      remaining, pending, started, completed := next, queue, {}, [];
      recovered, available, failures := [], [], [];
      exit := if queue == {} then InsufficientFactors else Running;
      new;
      PolicyLeaves(c.policy);
      assert 0 in pending;
    }

    method OnPoll(i: nat)
      requires ValidContext(c) && Inv(c, Current()) && Enabled(Current(), Poll(i))
      modifies this
      ensures Current() == old(Current()).(started := old(started) + {i})
    {
      started := started + {i};
    }

    method OnDeadline()
      requires ValidContext(c) && Inv(c, Current()) && exit.Running?
      modifies this, report.providers
      ensures Current() == Expired(c, old(Current()))
    {
      failures := AppendTimeouts(c.bindings, available, failures, remaining);
      report.Cancel(started, CanceledDeadline);
      exit := DeadlineExceeded;
    }

    method OnComplete(i: nat, result: LeafResult)
      requires ValidContext(c) && Inv(c, Current()) && Enabled(Current(), Complete(i, result))
      modifies this, report.providers
      ensures Current() == Decided(c, Recorded(c, old(Current()), i, result))
    {
      hide Inv, ValidContext, Discipline, SatisfiedBy, Recovered, Canceled, Marked;
      InvBounds(c, Current());
      BindingIds(c);
      ContextPolicy(c);
      PolicyPlanOk(c.policy);
      ghost var before := Current();
      pending := pending - {i};
      completed := completed + [(i, result)];
      var binding := c.bindings[i];
      var position := BindingPosition(c.bindings, binding.nodeId);
      report.Provider(position.value, ResultOutcome(result));
      match result {
        case Success(share) =>
          recovered := recovered + [(binding.nodeId, share)];
          available := available + [binding.nodeId];
        case Failure(kind) =>
          failures := failures + [ProviderFailure(binding.providerId, kind)];
      }
      assert Current() == Recorded(c, before, i, result);
      var satisfied := NetworkSatisfied(c.policy, available);
      match satisfied {
        case Failure(error) =>
          report.Cancel(started, CanceledOperation);
          exit := Refused(error);
        case Success(true) =>
          report.Cancel(started, CanceledQuorum);
          var share := RecoverNetwork(c.policy, recovered);
          exit := Quorum(share);
        case Success(false) =>
          if remaining < |c.bindings| {
            pending := pending + {remaining};
            remaining := remaining + 1;
          } else if pending == {} {
            exit := InsufficientFactors;
          }
      }
    }
  }

  /** The recovery phase, driven by a schedule of polls, completions and the deadline. */
  method RecoverNetworkObserved(c: Context, schedule: seq<Event>, report: OperationReport) returns (loop: RecoveryLoop)
    requires ValidContext(c) && report.providers[..] == Configured(c.bindings)
    modifies report.providers
    ensures loop.c == c && loop.report == report && loop.Current() == Run(c, schedule)
  {
    hide Inv, ValidContext, Decided, Recorded, Expired;
    loop := new RecoveryLoop(c, report);
    var k := 0;
    while k < |schedule|
      invariant 0 <= k <= |schedule|
      invariant fresh(loop) && loop.c == c && loop.report == report && loop.Current() == Run(c, schedule[..k])
    {
      assert schedule[..k + 1][..k] == schedule[..k];
      InvBounds(c, loop.Current());
      match schedule[k] {
        case Poll(i) =>
          if loop.exit.Running? && i in loop.pending {
            loop.OnPoll(i);
          }
        case Complete(i, result) =>
          if loop.exit.Running? && i in loop.pending && i in loop.started {
            loop.OnComplete(i, result);
          }
        case Deadline =>
          if loop.exit.Running? {
            loop.OnDeadline();
          }
      }
      k := k + 1;
    }
    assert schedule[..k] == schedule;
  }

  method BindingPosition(bindings: seq<NetworkBinding>, nodeId: U8) returns (index: Option<nat>)
    ensures index.None? <==> forall k :: 0 <= k < |bindings| ==> bindings[k].nodeId != nodeId
    ensures index.Some? ==> index.value < |bindings| && bindings[index.value].nodeId == nodeId
  {
    var i := 0;
    while i < |bindings|
      invariant 0 <= i <= |bindings|
      invariant forall k :: 0 <= k < i ==> bindings[k].nodeId != nodeId
    {
      if bindings[i].nodeId == nodeId {
        return Some(i);
      }
      i := i + 1;
    }
    index := None;
  }

  method AppendTimeouts(bindings: seq<NetworkBinding>, available: seq<U8>, failures: seq<ProviderFailure>, queued: nat)
    returns (all: seq<ProviderFailure>)
    requires queued <= |bindings|
    ensures all == Timeouts(bindings, available, failures, 0, queued)
  {
    all := failures;
    var k := 0;
    while k < queued
      invariant 0 <= k <= queued
      invariant Timeouts(bindings, available, failures, 0, queued) == Timeouts(bindings, available, all, k, queued)
    {
      if bindings[k].nodeId !in available && !Named(all, bindings[k].providerId) {
        all := all + [ProviderFailure(bindings[k].providerId, Timeout)];
      }
      k := k + 1;
    }
  }

  // ----- what each exit tells the caller -----

  predicate DistinctProviders(failures: seq<ProviderFailure>) {
    forall i, j :: 0 <= i < j < |failures| ==> failures[i].providerId != failures[j].providerId
  }

  lemma NamedConcat(a: seq<ProviderFailure>, b: seq<ProviderFailure>)
    ensures forall p: Bytes32 :: Named(a + b, p) <==> Named(a, p) || Named(b, p)
    ensures DistinctProviders(a) && DistinctProviders(b) && (forall i :: 0 <= i < |b| ==> !Named(a, b[i].providerId))
       ==> DistinctProviders(a + b)
  {
    var ab := a + b;
    assert forall i :: 0 <= i < |a| ==> ab[i] == a[i];
    assert forall i :: 0 <= i < |b| ==> ab[|a| + i] == b[i];
    forall p: Bytes32 ensures Named(ab, p) <==> Named(a, p) || Named(b, p) {
      if Named(a, p) {
        var i :| 0 <= i < |a| && a[i].providerId == p;
        assert ab[i].providerId == p;
      }
      if Named(b, p) {
        var i :| 0 <= i < |b| && b[i].providerId == p;
        assert ab[|a| + i].providerId == p;
      }
      if Named(ab, p) {
        var i :| 0 <= i < |ab| && ab[i].providerId == p;
        if i >= |a| {
          assert b[i - |a|].providerId == p;
        }
      }
    }
  }

  lemma {:induction false} FailuresDistinct(c: Context, completed: seq<(nat, LeafResult)>)
    requires ValidContext(c)
    requires forall k :: 0 <= k < |completed| ==> completed[k].0 < |c.bindings|
    requires Distinct(IdsOf(completed))
    ensures DistinctProviders(Failures(c, completed))
  {
    if completed != [] {
      var n := |completed| - 1;
      var before, last := completed[..n], completed[n];
      LastIsNew(completed);
      FailuresDistinct(c, before);
      CompletedSnoc(c, before, last.0, last.1);
      CompletedOutcome(before, last.0);
      FailuresFromBindings(c, before);
      hide Failures, OutcomeOf, ValidContext, Named, IdsOf;
      var tail := if last.1.Failure? then [ProviderFailure(c.bindings[last.0].providerId, last.1.error)] else [];
      NamedConcat(Failures(c, before), tail);
    }
  }

  lemma {:induction false} FailuresNonempty(c: Context, completed: seq<(nat, LeafResult)>) returns (i: nat)
    requires forall k :: 0 <= k < |completed| ==> completed[k].0 < |c.bindings|
    requires Distinct(IdsOf(completed)) && Failures(c, completed) != []
    ensures i < |c.bindings| && OutcomeOf(completed, i).Failed?
  {
    var n := |completed| - 1;
    var before, last := completed[..n], completed[n];
    LastIsNew(completed);
    CompletedSnoc(c, before, last.0, last.1);
    if last.1.Failure? {
      i := last.0;
    } else {
      i := FailuresNonempty(c, before);
      CompletedOutcome(before, last.0);
      CompletedOutcome(before, i);
    }
  }

  /** Missing providers are queued, incomplete, and listed in index order. */
  lemma {:induction false} MissingNames(c: Context, completed: seq<(nat, LeafResult)>, k: nat, queued: nat, p: Bytes32)
    requires k <= queued <= |c.bindings|
    ensures Named(Missing(c, completed, k, queued), p)
       <==> exists i :: k <= i < queued && i !in IdsOf(completed) && c.bindings[i].providerId == p
    decreases queued - k
  {
    hide IdsOf, Named;
    if k == queued {
      NamedNothing(p);
    } else {
      MissingNames(c, completed, k + 1, queued, p);
      var head := if k in IdsOf(completed) then [] else [ProviderFailure(c.bindings[k].providerId, Timeout)];
      NamedConcat(head, Missing(c, completed, k + 1, queued));
      if k in IdsOf(completed) {
        NamedNothing(p);
      } else {
        NamedSingle(head[0], p);
      }
    }
  }

  lemma NamedNothing(p: Bytes32)
    ensures !Named([], p)
  {}

  lemma NamedSingle(failure: ProviderFailure, p: Bytes32)
    ensures Named([failure], p) <==> failure.providerId == p
  {
    assert [failure][0] == failure;
  }

  lemma {:induction false} MissingDistinct(c: Context, completed: seq<(nat, LeafResult)>, k: nat, queued: nat)
    requires ValidContext(c) && k <= queued <= |c.bindings|
    ensures DistinctProviders(Missing(c, completed, k, queued))
    decreases queued - k
  {
    BindingIds(c);
    hide ValidContext, IdsOf, Named;
    if k < queued {
      MissingDistinct(c, completed, k + 1, queued);
      var rest := Missing(c, completed, k + 1, queued);
      if k !in IdsOf(completed) {
        var head := ProviderFailure(c.bindings[k].providerId, Timeout);
        NamedConcat([head], rest);
        forall i | 0 <= i < |rest| ensures !Named([head], rest[i].providerId) {
          NamedSelf(rest, i);
          MissingNames(c, completed, k + 1, queued, rest[i].providerId);
          NamedSingle(head, rest[i].providerId);
        }
      } else {
        assert [] + rest == rest;
      }
    }
  }

  /** At the deadline the diagnostics name exactly the failed and the queued-but-incomplete providers, once each. */
  lemma DeadlineDiagnostics(c: Context, s: PhaseState)
    requires ValidContext(c) && Inv(c, s) && s.exit.DeadlineExceeded?
    ensures DistinctProviders(s.failures)
    ensures forall i: nat :: i < |c.bindings| ==>
              (Named(s.failures, c.bindings[i].providerId) <==> i < s.queued && OutcomeOf(s.completed, i) != Authenticated)
  {
    hide Failures, Missing, OutcomeOf, Named, ValidContext, IdsOf, Shares, Satisfied, SlotsAfter;
    var a, b := Failures(c, s.completed), Missing(c, s.completed, 0, s.queued);
    FailuresDistinct(c, s.completed);
    FailuresFromBindings(c, s.completed);
    MissingDistinct(c, s.completed, 0, s.queued);
    BindingIds(c);
    NamedConcat(a, b);
    forall j | 0 <= j < |b| ensures !Named(a, b[j].providerId) {
      NamedSelf(b, j);
      MissingNames(c, s.completed, 0, s.queued, b[j].providerId);
      var i :| 0 <= i < s.queued && i !in IdsOf(s.completed) && c.bindings[i].providerId == b[j].providerId;
      CompletedOutcome(s.completed, i);
    }
    forall i: nat | i < |c.bindings|
      ensures Named(s.failures, c.bindings[i].providerId) <==> i < s.queued && OutcomeOf(s.completed, i) != Authenticated
    {
      CompletedOutcome(s.completed, i);
      CompletedQueued(c, s, i);
      MissingNames(c, s.completed, 0, s.queued, c.bindings[i].providerId);
    }
  }

  lemma CompletedQueued(c: Context, s: PhaseState, i: nat)
    requires Discipline(c, s)
    ensures i in IdsOf(s.completed) ==> i < s.queued
    ensures i in s.started ==> (i in s.pending <==> i !in IdsOf(s.completed))
  {
    if i in IdsOf(s.completed) {
      var k :| 0 <= k < |s.completed| && IdsOf(s.completed)[k] == i;
    }
  }

  lemma NamedSelf(failures: seq<ProviderFailure>, j: nat)
    requires j < |failures|
    ensures Named(failures, failures[j].providerId)
  {}

  /** The report entry of provider `i`. */
  function Entry(c: Context, i: nat, outcome: ProviderOutcome): Option<Observation>
    requires i < |c.bindings|
  {
    Some(Observation(c.bindings[i].providerId, outcome))
  }

  lemma QuorumSlot(c: Context, s: PhaseState, i: nat)
    requires ValidContext(c) && Inv(c, s) && s.exit.Quorum? && i < |c.bindings|
    ensures |s.slots| == MAX_PROVIDER_OBSERVATIONS && i < |s.slots|
    ensures s.slots[i] == Entry(c, i, CanceledQuorum) <==> i in s.started && i in s.pending
    ensures s.slots[i] == Entry(c, i, Authenticated) <==> c.bindings[i].nodeId in s.available
    ensures s.slots[i].Some? && (s.slots[i].value.outcome.Failed? <==> OutcomeOf(s.completed, i).Failed?)
  {
    AvailableMeansAuthenticated(c, s.completed);
    BindingIds(c);
    CompletedOutcome(s.completed, i);
    CompletedQueued(c, s, i);
    hide Failures, OutcomeOf, ValidContext, Shares, Satisfied, IdsOf;
  }

  /** On success the report is degraded exactly when there are diagnostics. */
  lemma QuorumReport(c: Context, s: PhaseState)
    requires ValidContext(c) && Inv(c, s) && s.exit.Quorum?
    ensures AnyFailed(s.slots) <==> s.failures != []
  {
    hide Failures, OutcomeOf, ValidContext, Shares, Satisfied, IdsOf, SlotsAfter;
    QuorumLength(c, s);
    if s.failures != [] {
      var i := FailuresNonempty(c, s.completed);
      QuorumSlot(c, s, i);
      assert s.slots[i].Some? && s.slots[i].value.outcome.Failed?;
    } else {
      forall i | 0 <= i < |s.slots| ensures !(s.slots[i].Some? && s.slots[i].value.outcome.Failed?) {
        if i < |c.bindings| {
          QuorumSlot(c, s, i);
          FailuresFromBindings(c, s.completed);
          assert !Named(Failures(c, s.completed), c.bindings[i].providerId);
        }
      }
    }
  }

  lemma QuorumLength(c: Context, s: PhaseState)
    requires Inv(c, s) && s.exit.Quorum?
    ensures |s.slots| == MAX_PROVIDER_OBSERVATIONS
    ensures forall i :: |c.bindings| <= i < |s.slots| ==> s.slots[i].None?
  {}

  /** The policy never refuses the observed leaves, so no provider is ever canceled by a failed operation. */
  lemma NoOperationCancel(c: Context, events: seq<Event>)
    requires ValidContext(c)
    ensures var s := Run(c, events);
            && !s.exit.Refused?
            && forall i :: 0 <= i < |s.slots| && s.slots[i].Some? ==> s.slots[i].value.outcome != CanceledOperation
  {
    hide Run, ValidContext, Failures, Shares, Satisfied, OutcomeOf, Missing;
    var s := Run(c, events);
    forall i | 0 <= i < |s.slots| && s.slots[i].Some? ensures s.slots[i].value.outcome != CanceledOperation {
      CompletedOutcome(s.completed, i);
    }
  }

  /** Each provider is launched at most once: a step launches nothing but the next unlaunched provider. */
  lemma LaunchesOnce(c: Context, s: PhaseState, e: Event)
    requires ValidContext(c) && Inv(c, s) && Enabled(s, e)
    ensures s.queued <= |c.bindings| && forall i :: i in s.pending ==> i < |c.bindings|
    ensures var s' := Step(c, s, e);
            var launched := s'.pending - s.pending;
            && (launched == {} ==> s'.queued == s.queued)
            && (launched != {} ==> launched == {s.queued} && s'.queued == s.queued + 1)
            && s.queued !in s.pending && s.queued !in IdsOf(s.completed)
  {
    hide ValidContext, Failures, Shares, Satisfied, OutcomeOf, Missing, SlotsMatch, SlotsAfter, SatisfiedBy, Canceled, Recovered, Marked,
         Timeouts;
    InvBounds(c, s);
    CompletedQueued(c, s, s.queued);
    var s' := Step(c, s, e);
    if s'.queued != s.queued {
      assert s.queued in s'.pending - s.pending;
    }
  }

  // ----- the phase ends -----

  lemma RunSnoc(c: Context, events: seq<Event>, e: Event)
    requires ValidContext(c)
    ensures var s := Run(c, events);
            && s.queued <= |c.bindings| && (forall i :: i in s.pending ==> i < |c.bindings|)
            && Run(c, events + [e]) == if Enabled(s, e) then Step(c, s, e) else s
  {
    hide ValidContext, Inv, Step;
    InvBounds(c, Run(c, events));
    assert (events + [e])[..|events|] == events;
  }

  lemma DeadlineExits(c: Context, s: PhaseState)
    requires ValidContext(c) && s.queued <= |c.bindings| && s.exit.Running? && forall i :: i in s.pending ==> i < |c.bindings|
    ensures Step(c, s, Deadline).exit == DeadlineExceeded
  {
    hide ValidPolicy, Timeouts, Canceled;
  }

  /** The deadline ends the phase whenever it strikes, and nothing reopens it. */
  lemma {:induction false} DeadlineEnds(c: Context, events: seq<Event>)
    requires ValidContext(c) && Deadline in events
    ensures !Run(c, events).exit.Running?
  {
    hide ValidContext, Inv, Step, Run;
    var n := |events| - 1;
    assert events == events[..n] + [events[n]];
    RunSnoc(c, events[..n], events[n]);
    if events[n].Deadline? {
      if Run(c, events[..n]).exit.Running? {
        DeadlineExits(c, Run(c, events[..n]));
      }
    } else {
      DeadlineEnds(c, events[..n]);
    }
  }

  lemma CompletionCounts(c: Context, s: PhaseState, i: nat, result: LeafResult)
    requires ValidContext(c) && s.queued <= |c.bindings| && Enabled(s, Complete(i, result)) && forall j :: j in s.pending ==> j < |c.bindings|
    ensures Step(c, s, Complete(i, result)).completed == s.completed + [(i, result)]
  {
    hide ValidPolicy, SatisfiedBy, Canceled, Recovered;
  }

  /** From every state, letting pending providers answer, whatever they answer, ends the phase after at most as many
      completions as there are providers left, without the deadline. */
  lemma {:induction false} AnswersEnd(c: Context, events: seq<Event>, answers: nat -> LeafResult) returns (more: seq<Event>)
    requires ValidContext(c)
    ensures |Run(c, events).completed| <= |c.bindings|
    ensures |more| <= 2 * (|c.bindings| - |Run(c, events).completed|) && Deadline !in more
    ensures !Run(c, events + more).exit.Running?
    decreases |c.bindings| - |Run(c, events).completed|
  {
    hide ValidContext, Inv, Step, Run;
    var s := Run(c, events);
    BoundedConcurrency(c, s);
    if !s.exit.Running? {
      assert events + [] == events;
      more := [];
    } else {
      RunningFacts(c, s);
      var i :| i in s.pending;
      var poll, done := Poll(i), Complete(i, answers(i));
      RunSnoc(c, events, poll);
      PollStarts(c, s, i);
      RunSnoc(c, events + [poll], done);
      CompletionCounts(c, Run(c, events + [poll]), i, answers(i));
      var rest := AnswersEnd(c, events + [poll] + [done], answers);
      more := [poll, done] + rest;
      assert events + [poll] + [done] + rest == events + more;
    }
  }

  lemma PollStarts(c: Context, s: PhaseState, i: nat)
    requires ValidContext(c) && s.queued <= |c.bindings| && Enabled(s, Poll(i)) && forall j :: j in s.pending ==> j < |c.bindings|
    ensures var t := Step(c, s, Poll(i)); t == s.(started := s.started + {i})
  {}
}
