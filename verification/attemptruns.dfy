/** The attempt window over every run: which attempts it holds, what it knows of each, and what it reports in total. */
module AttemptRuns {
  import opened Wrappers
  import opened Bytes
  import opened Sequences
  import opened Metrics
  import opened MetricRuns

  // ----- the window in terms of the accepted events -----

  /** The attempts a first-in first-out window of 65,536 places holds after these events, oldest first. */
  function Window(taken: seq<Received>): seq<AttemptId>
    requires Identified(taken)
  {
    if taken == [] then []
    else
      var n := |taken| - 1;
      var before, id := Window(taken[..n]), AttemptOf(taken[n]);
      if id in before then before else Suffix(before + [id], MAX_REPLAY)
  }

  /** The events of an attempt since it last entered the window; none for an attempt outside it. */
  function Recent(taken: seq<Received>, id: AttemptId): seq<Received>
    requires Identified(taken)
  {
    if taken == [] then []
    else
      var n := |taken| - 1;
      if AttemptOf(taken[n]) == id then (if id in Window(taken[..n]) then Recent(taken[..n], id) else []) + [taken[n]]
      else if id in Window(taken) then Recent(taken[..n], id)
      else []
  }

  function LargestDrop(events: seq<Received>): U64 {
    if events == [] then 0 else Max(LargestDrop(events[..|events| - 1]), events[|events| - 1].record.droppedBefore)
  }

  predicate HasTerminal(events: seq<Received>) {
    exists i :: 0 <= i < |events| && Terminal(events[i].record)
  }

  lemma {:induction false} LargestIsMaximum(events: seq<Received>)
    requires events != []
    ensures forall i :: 0 <= i < |events| ==> events[i].record.droppedBefore <= LargestDrop(events)
    ensures exists i :: 0 <= i < |events| && events[i].record.droppedBefore == LargestDrop(events)
  {
    var n := |events| - 1;
    if n > 0 {
      LargestIsMaximum(events[..n]);
      var i :| 0 <= i < n && events[..n][i].record.droppedBefore == LargestDrop(events[..n]);
      assert events[..n][i] == events[i];
    } else {
      assert events[..n] == [];
      assert events[0].record.droppedBefore == LargestDrop(events);
    }
  }

  /** What the window keeps of an attempt with these events. */
  function Summary(events: seq<Received>): Attempt { Attempt(LargestDrop(events), HasTerminal(events)) }

  lemma SummarySnoc(events: seq<Received>, r: Received)
    ensures var before := Summary(events);
            Summary(events + [r]) == Attempt(Max(before.reportedDrops, r.record.droppedBefore), before.terminal || Terminal(r.record))
  {
    var more := events + [r];
    assert more[..|more| - 1] == events;
    assert more[|events|] == r;
    if HasTerminal(events) {
      var i :| 0 <= i < |events| && Terminal(events[i].record);
      assert more[i] == events[i];
    }
    if HasTerminal(more) && !Terminal(r.record) {
      var i :| 0 <= i < |more| && Terminal(more[i].record);
      assert events[i] == more[i];
    }
  }

  /** Order and contents of the window are those of the accepted events. */
  predicate Mirrors(s: Core, taken: seq<Received>)
    requires Identified(taken)
  {
    && s.attemptOrder == Window(taken)
    && forall id :: id in s.attempts ==> s.attempts[id] == Summary(Recent(taken, id))
  }

  lemma WindowSnoc(taken: seq<Received>, r: Received)
    requires Identified(taken) && r.record.attemptId.Some?
    ensures Identified(taken + [r])
    ensures Window(taken + [r]) == if AttemptOf(r) in Window(taken) then Window(taken) else Suffix(Window(taken) + [AttemptOf(r)], MAX_REPLAY)
  {
    hide Suffix;
    var more := taken + [r];
    assert more[..|more| - 1] == taken;
  }

  lemma RecentSnoc(taken: seq<Received>, r: Received, id: AttemptId)
    requires Identified(taken) && r.record.attemptId.Some?
    ensures Identified(taken + [r])
    ensures id == AttemptOf(r) ==> Recent(taken + [r], id) == (if id in Window(taken) then Recent(taken, id) else []) + [r]
    ensures id != AttemptOf(r) && id in Window(taken + [r]) ==> Recent(taken + [r], id) == Recent(taken, id)
  {
    hide Window;
    var more := taken + [r];
    assert more[..|more| - 1] == taken;
  }

  /** What one fresh event does to the attempt window. */
  predicate WindowStep(s: Core, t: Core, r: Received)
    requires r.record.attemptId.Some?
  {
    var id, dropped, terminal := AttemptOf(r), r.record.droppedBefore, Terminal(r.record);
    && t.attemptOrder == (if id in s.attempts then s.attemptOrder else Suffix(s.attemptOrder + [id], MAX_REPLAY))
    && id in t.attempts
    && t.attempts[id] == (if id in s.attempts then Attempt(Max(s.attempts[id].reportedDrops, dropped), s.attempts[id].terminal || terminal)
                          else Attempt(dropped, terminal))
    && forall other :: other in t.attempts && other != id ==> other in s.attempts && t.attempts[other] == s.attempts[other]
  }

  lemma TakenWindow(s: Core, r: Received)
    requires Bounded(s) && r.record.attemptId.Some? && KeyOf(r) !in s.seen
    ensures WindowStep(s, Taken(s, r), r)
  {
    TakenSteps(s, r);
    hide Taken, Bounded, Seen;
    SeenWindows(s, KeyOf(r));
    SizeBound(s);
    ReportedWindow(Seen(s, KeyOf(r)), r);
  }

  /** The registry step leaves the windows alone. */
  lemma TakenSteps(s: Core, r: Received)
    requires Bounded(s) && r.record.attemptId.Some? && KeyOf(r) !in s.seen
    ensures var reported := Reported(Entered(Seen(s, KeyOf(r)), AttemptOf(r)), AttemptOf(r), r.record.droppedBefore, Terminal(r.record));
            && Taken(s, r).attempts == reported.attempts && Taken(s, r).attemptOrder == reported.attemptOrder
            && Taken(s, r).reportedDrops == reported.reportedDrops && Taken(s, r).evictions == reported.evictions
            && Taken(s, r).lastReceived == Max(reported.lastReceived, r.receivedAt)
  {
    SeenBounded(s, KeyOf(r));
    var seen := Seen(s, KeyOf(r));
    EnteredBounded(seen, AttemptOf(r));
    var entered := Entered(seen, AttemptOf(r));
    ReportedBounded(entered, AttemptOf(r), r.record.droppedBefore, Terminal(r.record));
    var reported := Reported(entered, AttemptOf(r), r.record.droppedBefore, Terminal(r.record));
    RegistryBound(reported);
    hide Bounded, Seen, Entered, Reported, Tallied;
    TalliedBounded(reported.(accepted := Bumped(reported.accepted), lastReceived := Max(reported.lastReceived, r.receivedAt)), r.record);
  }

  lemma ReportedWindow(s: Core, r: Received)
    requires r.record.attemptId.Some? && |s.attemptOrder| <= MAX_REPLAY
    ensures WindowStep(s, Reported(Entered(s, AttemptOf(r)), AttemptOf(r), r.record.droppedBefore, Terminal(r.record)), r)
  {}

  lemma MirrorsStep(s: Core, t: Core, taken: seq<Received>, r: Received)
    requires Identified(taken) && r.record.attemptId.Some?
    requires AttemptsBounded(s.attempts, s.attemptOrder) && AttemptsBounded(t.attempts, t.attemptOrder)
    requires Mirrors(s, taken) && WindowStep(s, t, r)
    ensures Identified(taken + [r]) && Mirrors(t, taken + [r])
  {
    hide Window, Recent, Summary, Suffix, Distinct;
    var id := AttemptOf(r);
    WindowSnoc(taken, r);
    assert t.attemptOrder == Window(taken + [r]);
    forall other | other in t.attempts ensures t.attempts[other] == Summary(Recent(taken + [r], other)) {
      RecentSnoc(taken, r, other);
      if other == id {
        if id in s.attempts {
          SummarySnoc(Recent(taken, id), r);
        } else {
          SummarySnoc([], r);
          EmptySummary();
          assert [] + [r] == [r];
        }
      }
    }
  }

  lemma EmptySummary()
    ensures Summary([]) == Attempt(0, false)
  {}

  /** Over every run the attempt window is the first-in first-out window of the accepted events, and each attempt in it
      holds the largest drop count, and whether there was a terminal event, of its events since it entered. */
  lemma {:induction false} AttemptsExact(valid: Record -> bool, events: seq<Received>)
    ensures Identified(Run(valid, events).1)
    ensures Mirrors(Run(valid, events).0.core, Run(valid, events).1)
  {
    RunBounded(valid, events);
    hide Taken, Bounded, Suffix, WindowStep, Mirrors;
    if events == [] {
      EmptyMirrors();
    } else {
      var n := |events| - 1;
      AttemptsExact(valid, events[..n]);
      RunBounded(valid, events[..n]);
      var (s, taken) := Run(valid, events[..n]);
      if Judged(s.core, valid, events[n]).Fresh? {
        TakenWindow(s.core, events[n]);
        WindowBound(s.core);
        WindowBound(Run(valid, events).0.core);
        MirrorsStep(s.core, Taken(s.core, events[n]), taken, events[n]);
      }
    }
  }

  lemma EmptyMirrors()
    ensures Mirrors(EMPTY, [])
  {}

  lemma WindowBound(s: Core)
    requires Bounded(s)
    ensures AttemptsBounded(s.attempts, s.attemptOrder)
  {}

  // ----- terminal events -----

  lemma {:induction false} RecentKeeps(taken: seq<Received>, i: nat, j: nat)
    requires i < j <= |taken| && Identified(taken)
    requires forall k :: i < k <= j ==> AttemptOf(taken[i]) in Window(taken[..k])
    ensures taken[i] in Recent(taken[..j], AttemptOf(taken[i]))
    decreases j - i
  {
    hide Window;
    var id := AttemptOf(taken[i]);
    var m := j - 1;
    assert taken[..j] == taken[..m] + [taken[m]];
    RecentSnoc(taken[..m], taken[m], id);
    if m == i {
      assert taken[i] in [taken[m]];
    } else {
      RecentKeeps(taken, i, m);
    }
  }

  lemma TerminalRemembered(s: Core, taken: seq<Received>, i: nat, j: nat)
    requires i < j <= |taken| && Identified(taken) && Mirrors(s, taken[..j]) && AttemptsBounded(s.attempts, s.attemptOrder)
    requires Terminal(taken[i].record) && forall k :: i < k <= j ==> AttemptOf(taken[i]) in Window(taken[..k])
    ensures AttemptOf(taken[i]) in s.attempts && s.attempts[AttemptOf(taken[i])].terminal
  {
    hide Window, Recent, LargestDrop, Distinct;
    RecentKeeps(taken, i, j);
    var recent := Recent(taken[..j], AttemptOf(taken[i]));
    var m :| 0 <= m < |recent| && recent[m] == taken[i];
    assert AttemptOf(taken[i]) in s.attemptOrder;
  }

  /** A second terminal event of one attempt is accepted only if the attempt left the window in between. */
  lemma TerminalOnce(valid: Record -> bool, events: seq<Received>, i: nat, j: nat)
    requires i < j < |Run(valid, events).1|
    ensures Identified(Run(valid, events).1)
    ensures var taken := Run(valid, events).1;
            Terminal(taken[i].record) && Terminal(taken[j].record) && AttemptOf(taken[i]) == AttemptOf(taken[j]) ==>
              exists k :: i < k <= j && AttemptOf(taken[i]) !in Window(taken[..k])
  {
    hide Run, Window, Recent, Bounded, LargestDrop;
    var taken := Run(valid, events).1;
    RunBounded(valid, events);
    ReplayRebuilds(valid, events);
    AcceptedPrefix(valid, taken, j);
    AttemptsExact(valid, taken[..j]);
    RunBounded(valid, taken[..j]);
    var core, id := Run(valid, taken[..j]).0.core, AttemptOf(taken[i]);
    WindowBound(core);
    if Terminal(taken[i].record) && Terminal(taken[j].record) && id == AttemptOf(taken[j])
       && forall k :: i < k <= j ==> id in Window(taken[..k])
    {
      TerminalRemembered(core, taken, i, j);
    }
  }

  // ----- reported drops -----

  function DropSum(order: seq<AttemptId>, attempts: map<AttemptId, Attempt>): nat
    requires forall i :: 0 <= i < |order| ==> order[i] in attempts
  {
    if order == [] then 0 else attempts[order[0]].reportedDrops + DropSum(order[1..], attempts)
  }

  /** Drops of an attempt that leaves the window as this event enters. */
  function Leaving(s: Core, r: Received): nat
    requires r.record.attemptId.Some? && AttemptsBounded(s.attempts, s.attemptOrder)
  {
    if AttemptOf(r) !in s.attempts && |s.attemptOrder| == MAX_REPLAY then s.attempts[s.attemptOrder[0]].reportedDrops else 0
  }

  lemma {:induction false} DropSumSame(order: seq<AttemptId>, a: map<AttemptId, Attempt>, b: map<AttemptId, Attempt>)
    requires forall i :: 0 <= i < |order| ==> order[i] in a && order[i] in b && a[order[i]].reportedDrops == b[order[i]].reportedDrops
    ensures DropSum(order, a) == DropSum(order, b)
  {
    if order != [] {
      DropSumSame(order[1..], a, b);
    }
  }

  lemma {:induction false} DropSumSnoc(order: seq<AttemptId>, id: AttemptId, attempts: map<AttemptId, Attempt>)
    requires forall i :: 0 <= i < |order| ==> order[i] in attempts
    requires id in attempts
    ensures DropSum(order + [id], attempts) == DropSum(order, attempts) + attempts[id].reportedDrops
  {
    if order == [] {
      assert order + [id] == [id];
      assert DropSum([id], attempts) == attempts[id].reportedDrops + DropSum([], attempts);
    } else {
      assert (order + [id])[1..] == order[1..] + [id];
      DropSumSnoc(order[1..], id, attempts);
    }
  }

  /** Raising one attempt raises the sum by as much. */
  lemma {:induction false} DropSumRaise(order: seq<AttemptId>, attempts: map<AttemptId, Attempt>, id: AttemptId, next: Attempt)
    requires Distinct(order) && id in order && forall i :: 0 <= i < |order| ==> order[i] in attempts
    ensures DropSum(order, attempts[id := next]) + attempts[id].reportedDrops == DropSum(order, attempts) + next.reportedDrops
  {
    var rest := order[1..];
    UniqueTail(order);
    if order[0] == id {
      DropSumSame(rest, attempts, attempts[id := next]);
    } else {
      DropSumRaise(rest, attempts, id, next);
    }
  }

  /** The reported total: what the window holds, and what left it. */
  predicate Accounted(s: Core, retired: nat)
    requires AttemptsBounded(s.attempts, s.attemptOrder)
  {
    s.reportedDrops == Saturated(retired + DropSum(s.attemptOrder, s.attempts))
  }

  lemma EnteredAccounts(s: Core, id: AttemptId, retired: nat)
    requires Bounded(s) && Accounted(s, retired)
    ensures var left := if id !in s.attempts && |s.attemptOrder| == MAX_REPLAY then s.attempts[s.attemptOrder[0]].reportedDrops else 0;
            Bounded(Entered(s, id)) && Accounted(Entered(s, id), retired + left)
  {
    EnteredBounded(s, id);
    hide Distinct;
    var next := Entered(s, id);
    if id !in s.attempts {
      var order := if |s.attemptOrder| == MAX_REPLAY then s.attemptOrder[1..] else s.attemptOrder;
      DropSumSnoc(order, id, next.attempts);
      OrderInAttempts(s, id, order);
      DropSumSame(order, s.attempts, next.attempts);
    }
  }

  lemma OrderInAttempts(s: Core, id: AttemptId, order: seq<AttemptId>)
    requires Bounded(s) && id !in s.attempts && order == (if |s.attemptOrder| == MAX_REPLAY then s.attemptOrder[1..] else s.attemptOrder)
    ensures forall i :: 0 <= i < |order| ==>
              && order[i] in s.attempts && order[i] in Entered(s, id).attempts
              && s.attempts[order[i]] == Entered(s, id).attempts[order[i]]
  {
    forall i | 0 <= i < |order|
      ensures order[i] in s.attempts && order[i] in Entered(s, id).attempts && s.attempts[order[i]] == Entered(s, id).attempts[order[i]]
    {
      if |s.attemptOrder| == MAX_REPLAY {
        assert order[i] == s.attemptOrder[i + 1];
        assert s.attemptOrder[0] != s.attemptOrder[i + 1];
      }
      assert order[i] in s.attemptOrder;
    }
  }

  lemma ReportedAccounts(s: Core, id: AttemptId, dropped: U64, terminal: bool, retired: nat)
    requires Bounded(s) && id in s.attempts && Accounted(s, retired)
    ensures Bounded(Reported(s, id, dropped, terminal)) && Accounted(Reported(s, id, dropped, terminal), retired)
  {
    hide Distinct, DropSum;
    ReportedBounded(s, id, dropped, terminal);
    DropSumRaise(s.attemptOrder, s.attempts, id, Reported(s, id, dropped, terminal).attempts[id]);
  }

  lemma TakenAccounts(s: Core, r: Received, retired: nat)
    requires Bounded(s) && r.record.attemptId.Some? && KeyOf(r) !in s.seen && Accounted(s, retired)
    ensures Bounded(Taken(s, r)) && Accounted(Taken(s, r), retired + Leaving(s, r))
  {
    TakenBounded(s, r);
    SeenBounded(s, KeyOf(r));
    var seen := Seen(s, KeyOf(r));
    var entered := Entered(seen, AttemptOf(r));
    SeenWindows(s, KeyOf(r));
    hide Tallied, Seen, Entered, Reported, Suffix, Bounded, DropSum, AttemptsBounded;
    EnteredAccounts(seen, AttemptOf(r), retired);
    var reported := Reported(entered, AttemptOf(r), r.record.droppedBefore, Terminal(r.record));
    ReportedAccounts(entered, AttemptOf(r), r.record.droppedBefore, Terminal(r.record), retired + Leaving(s, r));
    var counted := reported.(accepted := Bumped(reported.accepted), lastReceived := Max(reported.lastReceived, r.receivedAt));
    RegistryBound(reported);
    TalliedBounded(counted, r.record);
  }

  lemma RegistryBound(s: Core)
    requires Bounded(s)
    ensures Series(s) <= MAX_SERIES
  {}

  lemma SeenWindows(s: Core, key: EventId)
    ensures Seen(s, key).attempts == s.attempts && Seen(s, key).attemptOrder == s.attemptOrder && Seen(s, key).reportedDrops == s.reportedDrops
  {}

  /** Drops reported by attempts that left the window. */
  function Retired(taken: seq<Received>): nat
    requires Identified(taken)
  {
    if taken == [] then 0
    else
      var n := |taken| - 1;
      var before := Window(taken[..n]);
      Retired(taken[..n])
      + if AttemptOf(taken[n]) !in before && |before| == MAX_REPLAY then LargestDrop(Recent(taken[..n], before[0])) else 0
  }

  /** Drops reported by these attempts of the window. */
  function Held(order: seq<AttemptId>, taken: seq<Received>): nat
    requires Identified(taken)
  {
    if order == [] then 0 else LargestDrop(Recent(taken, order[0])) + Held(order[1..], taken)
  }

  lemma {:induction false} HeldSum(order: seq<AttemptId>, attempts: map<AttemptId, Attempt>, taken: seq<Received>)
    requires Identified(taken)
    requires forall i :: 0 <= i < |order| ==> order[i] in attempts && attempts[order[i]].reportedDrops == LargestDrop(Recent(taken, order[i]))
    ensures DropSum(order, attempts) == Held(order, taken)
  {
    hide LargestDrop, Recent;
    if order != [] {
      HeldSum(order[1..], attempts, taken);
    }
  }

  lemma RetiredSnoc(s: Core, taken: seq<Received>, r: Received)
    requires Identified(taken) && r.record.attemptId.Some?
    requires AttemptsBounded(s.attempts, s.attemptOrder) && Mirrors(s, taken)
    ensures Identified(taken + [r]) && Retired(taken + [r]) == Retired(taken) + Leaving(s, r)
  {
    hide Window, Recent, LargestDrop;
    var more := taken + [r];
    assert more[..|more| - 1] == taken;
    if |s.attemptOrder| == MAX_REPLAY {
      assert s.attemptOrder[0] in s.attemptOrder;
    }
  }

  lemma {:induction false} DropsAccounted(valid: Record -> bool, events: seq<Received>)
    ensures Identified(Run(valid, events).1) && Bounded(Run(valid, events).0.core)
    ensures Accounted(Run(valid, events).0.core, Retired(Run(valid, events).1))
  {
    RunBounded(valid, events);
    hide Taken, Suffix, Bounded, Leaving;
    if events == [] {
      assert DropSum([], map[]) == 0;
    } else {
      hide Accounted, Mirrors, Retired;
      var n := |events| - 1;
      DropsAccounted(valid, events[..n]);
      AttemptsExact(valid, events[..n]);
      var (s, taken) := Run(valid, events[..n]);
      WindowBound(s.core);
      if Judged(s.core, valid, events[n]).Fresh? {
        TakenAccounts(s.core, events[n], Retired(taken));
        RetiredSnoc(s.core, taken, events[n]);
      }
    }
  }

  /** Conservation of reported drops, in terms of the accepted events alone: the total is the sum, over every stay of an
      attempt in the window, of the largest drop count reported during that stay, saturating. */
  lemma DropsConserved(valid: Record -> bool, events: seq<Received>)
    ensures Identified(Run(valid, events).1)
    ensures var (s, taken) := Run(valid, events);
            s.core.reportedDrops == Saturated(Retired(taken) + Held(Window(taken), taken))
  {
    hide Run, Retired, Window, Recent, LargestDrop, HasTerminal, Bounded, Held, DropSum;
    DropsAccounted(valid, events);
    AttemptsExact(valid, events);
    var (s, taken) := Run(valid, events);
    WindowBound(s.core);
    var order := s.core.attemptOrder;
    forall i | 0 <= i < |order|
      ensures order[i] in s.core.attempts && s.core.attempts[order[i]].reportedDrops == LargestDrop(Recent(taken, order[i]))
    {
      assert order[i] in order;
    }
    HeldSum(order, s.core.attempts, taken);
  }
}
