/** Which events the collector accepts over every run, and what its totals count, in terms of the received events alone. */
module VerdictRuns {
  import opened Wrappers
  import opened Bytes
  import opened Sequences
  import opened Metrics
  import opened MetricRuns
  import opened AttemptRuns

  // ----- the verdict -----

  predicate Admissible(valid: Record -> bool, r: Received) { valid(r.record) && r.record.attemptId.Some? }

  /** The event is among the last 65,536 accepted ones. */
  predicate Repeated(taken: seq<Received>, r: Received)
    requires Identified(taken) && r.record.attemptId.Some?
  {
    KeyOf(r) in Suffix(Keys(taken), MAX_REPLAY)
  }

  /** A terminal event of an attempt that is in the window and already had one there. */
  predicate Closed(taken: seq<Received>, r: Received)
    requires Identified(taken) && r.record.attemptId.Some?
  {
    Terminal(r.record) && AttemptOf(r) in Window(taken) && HasTerminal(Recent(taken, AttemptOf(r)))
  }

  /** The verdict on the next event is decided by the accepted events so far: it is a duplicate exactly when it repeats one
      of the last 65,536, and rejected exactly when it is inadmissible or closes an attempt a second time. */
  lemma VerdictExact(valid: Record -> bool, events: seq<Received>, r: Received)
    ensures Identified(Run(valid, events).1)
    ensures var (s, taken) := Run(valid, events);
            var verdict := Judged(s.core, valid, r);
            && (verdict.Duplicate? <==> Admissible(valid, r) && Repeated(taken, r))
            && (verdict.Fresh? <==> Admissible(valid, r) && !Repeated(taken, r) && !Closed(taken, r))
  {
    hide Run, Suffix, Window, Recent, LargestDrop, Distinct;
    RunBounded(valid, events);
    AttemptsExact(valid, events);
  }

  /** The accepted events of a run, chosen from the received ones. */
  function Selected(valid: Record -> bool, events: seq<Received>): (taken: seq<Received>)
    ensures Identified(taken)
  {
    if events == [] then []
    else
      var taken, r := Selected(valid, events[..|events| - 1]), events[|events| - 1];
      if Admissible(valid, r) && !Repeated(taken, r) && !Closed(taken, r) then taken + [r] else taken
  }

  /** How many events of a run are duplicates. */
  function Repeats(valid: Record -> bool, events: seq<Received>): nat {
    if events == [] then 0
    else
      var taken, r := Selected(valid, events[..|events| - 1]), events[|events| - 1];
      Repeats(valid, events[..|events| - 1]) + if Admissible(valid, r) && Repeated(taken, r) then 1 else 0
  }

  /** How many events of a run are rejected. */
  function Rejections(valid: Record -> bool, events: seq<Received>): nat {
    if events == [] then 0
    else
      var taken, r := Selected(valid, events[..|events| - 1]), events[|events| - 1];
      Rejections(valid, events[..|events| - 1])
      + if !Admissible(valid, r) || (!Repeated(taken, r) && Closed(taken, r)) then 1 else 0
  }

  /** Each received event is accepted, rejected or a duplicate, and counted as exactly that. */
  lemma {:induction false} EventsConserved(valid: Record -> bool, events: seq<Received>)
    ensures var (s, taken) := Run(valid, events);
            && taken == Selected(valid, events)
            && s.core.accepted == Saturated(|Selected(valid, events)|)
            && s.rejected == Saturated(Rejections(valid, events)) && s.duplicates == Saturated(Repeats(valid, events))
    ensures |Selected(valid, events)| + Rejections(valid, events) + Repeats(valid, events) == |events|
  {
    hide Accepted, Judged, Taken, Bounded, Suffix, Repeated, Closed, Admissible;
    RunBounded(valid, events);
    if events != [] {
      var n := |events| - 1;
      EventsConserved(valid, events[..n]);
      VerdictExact(valid, events[..n], events[n]);
      AcceptedCounts(Run(valid, events[..n]).0, valid, events[n]);
    }
  }

  lemma AcceptedCounts(s: State, valid: Record -> bool, r: Received)
    ensures var (t, taken) := Accepted(s, valid, r);
            && taken == Judged(s.core, valid, r).Fresh?
            && t.rejected == (if Judged(s.core, valid, r).Rejected? then Bumped(s.rejected) else s.rejected)
            && t.duplicates == (if Judged(s.core, valid, r).Duplicate? then Bumped(s.duplicates) else s.duplicates)
  {
    hide Judged, Taken;
  }

  // ----- evictions and the latest time -----

  /** How often an attempt entered the window. */
  function Entries(taken: seq<Received>): nat
    requires Identified(taken)
  {
    if taken == [] then 0
    else
      var n := |taken| - 1;
      Entries(taken[..n]) + if AttemptOf(taken[n]) in Window(taken[..n]) then 0 else 1
  }

  function Latest(taken: seq<Received>): U64 {
    if taken == [] then 0 else Max(Latest(taken[..|taken| - 1]), taken[|taken| - 1].receivedAt)
  }

  lemma {:induction false} LatestIsMaximum(taken: seq<Received>)
    ensures forall i :: 0 <= i < |taken| ==> taken[i].receivedAt <= Latest(taken)
    ensures taken != [] ==> exists i :: 0 <= i < |taken| && taken[i].receivedAt == Latest(taken)
  {
    if taken != [] {
      var n := |taken| - 1;
      LatestIsMaximum(taken[..n]);
      if Latest(taken[..n]) <= taken[n].receivedAt {
        assert taken[n].receivedAt == Latest(taken);
      } else {
        var i :| 0 <= i < n && taken[..n][i].receivedAt == Latest(taken[..n]);
        assert taken[i].receivedAt == Latest(taken);
      }
    }
  }

  /** What one fresh event does to the eviction count and the latest time. */
  lemma TakenTotals(s: Core, r: Received)
    requires Bounded(s) && r.record.attemptId.Some? && KeyOf(r) !in s.seen
    ensures Taken(s, r).lastReceived == Max(s.lastReceived, r.receivedAt)
    ensures Taken(s, r).evictions
         == Saturated(s.evictions + (if |s.order| == MAX_REPLAY then 1 else 0)
                      + if AttemptOf(r) !in s.attempts && |s.attemptOrder| == MAX_REPLAY then 1 else 0)
  {
    TakenSteps(s, r);
    WindowEvictions(s, KeyOf(r), AttemptOf(r));
    hide Taken, Seen, Entered, Bounded;
  }

  lemma WindowEvictions(s: Core, key: EventId, id: AttemptId)
    requires |s.order| <= MAX_REPLAY
    ensures var entered := Entered(Seen(s, key), id);
            && entered.lastReceived == s.lastReceived
            && entered.evictions == Saturated(s.evictions + (if |s.order| == MAX_REPLAY then 1 else 0)
                                              + if id !in s.attempts && |s.attemptOrder| == MAX_REPLAY then 1 else 0)
  {}

  /** Events and attempts that entered their window and are no longer there. */
  function Evicted(taken: seq<Received>): int
    requires Identified(taken)
  {
    |taken| - |Suffix(Keys(taken), MAX_REPLAY)| + Entries(taken) - |Window(taken)|
  }

  lemma EvictedSnoc(taken: seq<Received>, r: Received)
    requires Identified(taken) && r.record.attemptId.Some? && |Window(taken)| <= MAX_REPLAY
    ensures Identified(taken + [r])
    ensures Evicted(taken + [r])
         == Evicted(taken) + (if |Suffix(Keys(taken), MAX_REPLAY)| == MAX_REPLAY then 1 else 0)
            + if AttemptOf(r) !in Window(taken) && |Window(taken)| == MAX_REPLAY then 1 else 0
  {
    hide Window;
    WindowSnoc(taken, r);
    var more := taken + [r];
    assert more[..|more| - 1] == taken;
  }

  /** Over every run: the eviction count is what entered the two windows and is no longer there, and the last time is the
      largest of the accepted events. */
  lemma {:induction false} TotalsExact(valid: Record -> bool, events: seq<Received>)
    ensures Identified(Run(valid, events).1)
    ensures var (s, taken) := Run(valid, events);
            && 0 <= Evicted(taken) && s.core.evictions == Saturated(Evicted(taken))
            && s.core.lastReceived == Latest(taken)
  {
    RunBounded(valid, events);
    hide Taken, Bounded, Suffix, Evicted, Window;
    if events == [] {
      EmptyTotals();
    } else {
      var n := |events| - 1;
      TotalsExact(valid, events[..n]);
      var (s, taken) := Run(valid, events[..n]);
      RunBounded(valid, events[..n]);
      AttemptsExact(valid, events[..n]);
      WindowBound(s.core);
      if Judged(s.core, valid, events[n]).Fresh? {
        TotalsStep(s.core, taken, events[n]);
      }
    }
  }

  lemma EmptyTotals()
    ensures Evicted([]) == 0 && Latest([]) == 0
  {}

  lemma TotalsStep(s: Core, taken: seq<Received>, r: Received)
    requires Identified(taken) && r.record.attemptId.Some? && KeyOf(r) !in s.seen
    requires Bounded(s) && AttemptsBounded(s.attempts, s.attemptOrder) && Mirrors(s, taken) && s.order == Suffix(Keys(taken), MAX_REPLAY)
    requires 0 <= Evicted(taken) && s.evictions == Saturated(Evicted(taken)) && s.lastReceived == Latest(taken)
    ensures Identified(taken + [r]) && 0 <= Evicted(taken + [r])
    ensures Taken(s, r).evictions == Saturated(Evicted(taken + [r])) && Taken(s, r).lastReceived == Latest(taken + [r])
  {
    hide Taken, Bounded, Suffix, Evicted, Window, Recent, LargestDrop, Distinct;
    TakenTotals(s, r);
    EvictedSnoc(taken, r);
    var more := taken + [r];
    assert more[..|more| - 1] == taken;
    assert AttemptOf(r) in s.attempts <==> AttemptOf(r) in s.attemptOrder;
  }
}
