/** What the network phase knows, told from the schedule alone. */
module PhaseHistory {
  import opened Wrappers
  import opened Bytes
  import opened Sequences
  import opened PolicyTree
  import opened PolicyCompile
  import opened PolicyDecision
  import PolicySharing
  import opened NetworkPhase

  /** Which answers counted, in order, which providers were polled, and whether the deadline struck in time. */
  datatype History = History(answered: seq<(nat, LeafResult)>, polled: set<nat>, late: bool)

  predicate InRange(c: Context, answered: seq<(nat, LeafResult)>) {
    forall k :: 0 <= k < |answered| ==> answered[k].0 < |c.bindings|
  }

  /** The first four providers are launched, and one more for each answer. */
  predicate Launched(c: Context, answered: seq<(nat, LeafResult)>, i: nat) {
    i < |c.bindings| && i < MAX_NETWORK_OPERATIONS + |answered| && i !in IdsOf(answered)
  }

  /** The phase is over: the deadline struck, the answers satisfy the policy, or every provider has answered. */
  predicate Over(c: Context, h: History)
    requires InRange(c, h.answered)
  {
    h.late || Satisfied(c.policy.network, Elements(IdsOf(Shares(c, h.answered)))) || |h.answered| == |c.bindings|
  }

  /** The effect of one event: none after the end, nor on providers not launched, nor an answer that was not polled for. */
  function Next(c: Context, h: History, e: Event): (next: History)
    requires InRange(c, h.answered)
    ensures InRange(c, next.answered)
  {
    if Over(c, h) then h
    else match e
         case Poll(i) => if Launched(c, h.answered, i) then h.(polled := h.polled + {i}) else h
         case Complete(i, result) =>
           if Launched(c, h.answered, i) && i in h.polled then h.(answered := h.answered + [(i, result)]) else h
         case Deadline => h.(late := true)
  }

  function Told(c: Context, events: seq<Event>): (h: History)
    ensures InRange(c, h.answered)
  {
    if events == [] then History([], {}, false) else Next(c, Told(c, events[..|events| - 1]), events[|events| - 1])
  }

  /** The state says what the history says. */
  predicate Agrees(c: Context, s: PhaseState, h: History)
    requires InRange(c, h.answered)
  {
    && s.completed == h.answered && s.started == h.polled
    && (s.exit.Running? <==> !Over(c, h)) && (s.exit.DeadlineExceeded? <==> h.late)
  }

  lemma InitialAgrees(c: Context)
    requires ValidContext(c)
    ensures Agrees(c, Initial(c), History([], {}, false))
  {
    InitialInv(c);
    hide ValidContext, Inv, Over, Configured;
    ExitOver(c, Initial(c));
  }

  /** In a running phase an event is enabled exactly when it has an effect on the history. */
  lemma EnabledExact(c: Context, s: PhaseState, i: nat)
    requires Inv(c, s) && s.exit.Running?
    ensures i in s.pending <==> Launched(c, s.completed, i)
  {
    hide SlotsMatch, Failures, Shares, Satisfied, Distinct;
  }

  /** What each event leaves in the record, and which exits it can cause. */
  lemma StepRecord(c: Context, s: PhaseState, e: Event)
    requires ValidContext(c) && s.queued <= |c.bindings| && Enabled(s, e)
    requires forall i :: i in s.pending ==> i < |c.bindings|
    ensures var t := Step(c, s, e);
            match e
            case Poll(i) => t.completed == s.completed && t.started == s.started + {i} && t.exit == s.exit
            case Complete(i, result) =>
              t.completed == s.completed + [(i, result)] && t.started == s.started && !t.exit.DeadlineExceeded?
            case Deadline => t.completed == s.completed && t.started == s.started && t.exit == DeadlineExceeded
  {
    hide SatisfiedBy, PolicySharing.Recovered, Canceled, Marked, Timeouts, ValidPolicy;
  }

  lemma ExitOver(c: Context, s: PhaseState)
    requires ValidContext(c) && Inv(c, s) && !s.exit.DeadlineExceeded?
    ensures InRange(c, s.completed)
    ensures s.exit.Running? <==> !Over(c, History(s.completed, s.started, false))
  {
    BoundedConcurrency(c, s);
    hide SlotsMatch, SlotsAfter, Failures, Missing, Shares, Satisfied, Distinct, ValidContext, PolicySharing.Recovered, PolicySharing.PlanOk;
  }

  lemma AgreesStep(c: Context, s: PhaseState, h: History, e: Event)
    requires ValidContext(c) && Inv(c, s) && InRange(c, h.answered) && Agrees(c, s, h)
    requires s.queued <= |c.bindings| && forall i :: i in s.pending ==> i < |c.bindings|
    ensures Agrees(c, if Enabled(s, e) then Step(c, s, e) else s, Next(c, h, e))
  {
    hide ValidContext, Inv, Step, Over, Launched;
    if s.exit.Running? {
      if !e.Deadline? {
        EnabledExact(c, s, e.index);
      }
      if Enabled(s, e) {
        StepInv(c, s, e);
        StepRecord(c, s, e);
        var t := Step(c, s, e);
        if e.Deadline? {
          LateOver(c, Next(c, h, e));
        } else {
          ExitOver(c, t);
        }
      }
    }
  }

  lemma LateOver(c: Context, h: History)
    requires InRange(c, h.answered) && h.late
    ensures Over(c, h)
  {}

  /** For every schedule: exactly the answers that were launched, polled for and in time count, with the results they
      carried, and the phase runs exactly until the deadline, a satisfying set of answers or the last provider. */
  lemma {:induction false} HistoryExact(c: Context, events: seq<Event>)
    requires ValidContext(c)
    ensures Agrees(c, Run(c, events), Told(c, events))
  {
    hide ValidContext, Inv, Step, Agrees, Next, Enabled;
    if events == [] {
      InitialAgrees(c);
    } else {
      var n := |events| - 1;
      HistoryExact(c, events[..n]);
      InvBounds(c, Run(c, events[..n]));
      AgreesStep(c, Run(c, events[..n]), Told(c, events[..n]), events[n]);
    }
  }
}
