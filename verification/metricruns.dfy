/** What holds of the collector's event state over every run of events. */
module MetricRuns {
  import opened Sequences
  import opened Wrappers
  import opened Bytes
  import opened Metrics

  /** The state after a run, with the accepted events in order. */
  function Run(valid: Record -> bool, events: seq<Received>): (State, seq<Received>) {
    if events == [] then (State(EMPTY, 0, 0, 0), [])
    else
      var (before, taken) := Run(valid, events[..|events| - 1]);
      var last := events[|events| - 1];
      var (after, fresh') := Accepted(before, valid, last);
      (after, if fresh' then taken + [last] else taken)
  }

  lemma RunSnoc(valid: Record -> bool, events: seq<Received>, r: Received)
    ensures var (s, taken) := Run(valid, events);
            Run(valid, events + [r]) == (Accepted(s, valid, r).0, if Accepted(s, valid, r).1 then taken + [r] else taken)
  {
    hide Accepted;
    assert (events + [r])[..|events|] == events;
  }

  /** A call of accept judges by the core alone. */
  lemma AcceptedByCore(s: State, t: State, valid: Record -> bool, r: Received)
    requires s.core == t.core
    ensures Accepted(s, valid, r).1 == Accepted(t, valid, r).1 && Accepted(s, valid, r).0.core == Accepted(t, valid, r).0.core
    ensures Accepted(s, valid, r).1 ==> Accepted(s, valid, r).0 == s.(core := Accepted(s, valid, r).0.core)
    ensures !Accepted(s, valid, r).1 ==> Accepted(s, valid, r).0.core == s.core
    ensures Accepted(s, valid, r).0.writeFailures == s.writeFailures
  {
    hide Judged, Taken;
  }

  /** Replaying only the accepted events, in order, rebuilds windows, attempts, counters and histograms, across evictions
      too; only the rejected and duplicate counts start over. */
  lemma {:induction false} ReplayRebuilds(valid: Record -> bool, events: seq<Received>)
    ensures var (s, taken) := Run(valid, events); Run(valid, taken) == (State(s.core, 0, 0, 0), taken)
    ensures Run(valid, events).0.writeFailures == 0
  {
    hide Accepted;
    if events != [] {
      hide Run;
      var n := |events| - 1;
      var (s, taken) := Run(valid, events[..n]);
      ReplayRebuilds(valid, events[..n]);
      assert events == events[..n] + [events[n]];
      RunSnoc(valid, events[..n], events[n]);
      RunSnoc(valid, taken, events[n]);
      AcceptedByCore(s, State(s.core, 0, 0, 0), valid, events[n]);
      AcceptedByCore(State(s.core, 0, 0, 0), s, valid, events[n]);
    }
  }

  // ----- windows -----

  function Suffix<T>(s: seq<T>, n: nat): seq<T> { if |s| <= n then s else s[|s| - n..] }

  predicate Identified(events: seq<Received>) { forall i :: 0 <= i < |events| ==> events[i].record.attemptId.Some? }

  function Keys(events: seq<Received>): (keys: seq<EventId>)
    requires Identified(events)
    ensures |keys| == |events|
  {
    seq(|events|, i requires 0 <= i < |events| => KeyOf(events[i]))
  }

  /** Set and queue of both windows are in bijection and bounded, and so is the registry. */
  predicate Bounded(s: Core) {
    && |s.order| <= MAX_REPLAY && Distinct(s.order) && s.seen == Elements(s.order)
    && AttemptsBounded(s.attempts, s.attemptOrder)
    && Series(s) <= MAX_SERIES
  }

  predicate AttemptsBounded(attempts: map<AttemptId, Attempt>, order: seq<AttemptId>) {
    |order| <= MAX_REPLAY && Distinct(order) && attempts.Keys == Elements(order)
  }

  lemma UniqueSnoc<T>(s: seq<T>, x: T)
    requires Distinct(s) && x !in s
    ensures Distinct(s + [x]) && Elements(s + [x]) == Elements(s) + {x}
  {}

  lemma UniqueTail<T>(s: seq<T>)
    requires Distinct(s) && s != []
    ensures Distinct(s[1..]) && Elements(s[1..]) == Elements(s) - {s[0]}
  {
    assert s == [s[0]] + s[1..];
    assert s[0] !in s[1..];
  }

  lemma SeenBounded(s: Core, key: EventId)
    requires Bounded(s) && key !in s.seen
    ensures Bounded(Seen(s, key)) && Seen(s, key).order == Suffix(s.order + [key], MAX_REPLAY)
  {
    hide AttemptsBounded, Distinct;
    UniqueSnoc(s.order, key);
    if |s.order| == MAX_REPLAY {
      UniqueTail(s.order + [key]);
    }
  }

  lemma EvictOldest(attempts: map<AttemptId, Attempt>, order: seq<AttemptId>)
    requires AttemptsBounded(attempts, order) && order != []
    ensures AttemptsBounded(Without(attempts, order[0]), order[1..])
  {
    hide Distinct, Elements;
    UniqueTail(order);
    assert Without(attempts, order[0]).Keys == attempts.Keys - {order[0]};
  }

  lemma AddAttempt(attempts: map<AttemptId, Attempt>, order: seq<AttemptId>, id: AttemptId)
    requires AttemptsBounded(attempts, order) && |order| < MAX_REPLAY && id !in attempts
    ensures AttemptsBounded(attempts[id := Attempt(0, false)], order + [id])
  {
    hide Distinct;
    UniqueSnoc(order, id);
    assert attempts[id := Attempt(0, false)].Keys == attempts.Keys + {id};
  }

  lemma EnteredBounded(s: Core, id: AttemptId)
    requires Bounded(s)
    ensures Bounded(Entered(s, id)) && Entered(s, id).order == s.order
  {
    hide Distinct, Elements, AttemptsBounded, Without;
    if id !in s.attempts {
      if |s.attemptOrder| == MAX_REPLAY {
        EvictOldest(s.attempts, s.attemptOrder);
        assert id !in Without(s.attempts, s.attemptOrder[0]) by { WithoutLess(s.attempts, s.attemptOrder[0], id); }
        AddAttempt(Without(s.attempts, s.attemptOrder[0]), s.attemptOrder[1..], id);
      } else {
        SizeBound(s);
        AddAttempt(s.attempts, s.attemptOrder, id);
      }
    }
  }

  lemma SizeBound(s: Core)
    requires Bounded(s)
    ensures |s.attemptOrder| <= MAX_REPLAY
  {}

  lemma WithoutLess(attempts: map<AttemptId, Attempt>, oldest: AttemptId, id: AttemptId)
    ensures id !in attempts ==> id !in Without(attempts, oldest)
  {}

  lemma ReportedBounded(s: Core, id: AttemptId, dropped: U64, terminal: bool)
    requires Bounded(s) && id in s.attempts
    ensures Bounded(Reported(s, id, dropped, terminal)) && Reported(s, id, dropped, terminal).order == s.order
  {
    hide Distinct, Elements;
    assert Reported(s, id, dropped, terminal).attempts.Keys == s.attempts.Keys;
  }

  /** The registry step touches nothing else. */
  predicate SameWindows(s: Core, t: Core) {
    && t.order == s.order && t.seen == s.seen && t.attempts == s.attempts && t.attemptOrder == s.attemptOrder
    && t.reportedDrops == s.reportedDrops && t.accepted == s.accepted && t.evictions == s.evictions && t.lastReceived == s.lastReceived
  }

  lemma IncrementedBounded(s: Core, key: CounterKey)
    requires Series(s) <= MAX_SERIES
    ensures Series(Incremented(s, key)) <= MAX_SERIES && SameWindows(s, Incremented(s, key))
  {
    if key in s.counters {
      assert s.counters[key := Bumped(s.counters[key])].Keys == s.counters.Keys;
      KeysCard(s.counters, s.counters[key := Bumped(s.counters[key])]);
    }
  }

  lemma KeysCard<K, V>(m: map<K, V>, n: map<K, V>)
    requires m.Keys == n.Keys
    ensures |m| == |n|
  {
    assert |m| == |m.Keys| && |n| == |n.Keys|;
  }

  lemma ObservedBounded(s: Core, key: TimingKey, duration: real)
    requires Series(s) <= MAX_SERIES
    ensures Series(Observed(s, key, duration)) <= MAX_SERIES && SameWindows(s, Observed(s, key, duration))
  {
    hide Timed;
    if key in s.histograms {
      var next := s.histograms[key := Timed(s.histograms[key], duration)];
      assert next.Keys == s.histograms.Keys;
      KeysCard(s.histograms, next);
    }
  }

  lemma TalliedBounded(s: Core, r: Record)
    requires Series(s) <= MAX_SERIES
    ensures Series(Tallied(s, r)) <= MAX_SERIES && SameWindows(s, Tallied(s, r))
  {
    hide Incremented, Observed, Series;
    if r.component == "client" && r.operation in OPERATIONS {
      if r.event == "operation_completed" {
        var counted := Incremented(s, OperationsTotal(r.operation, r.mode, r.outcome));
        IncrementedBounded(s, OperationsTotal(r.operation, r.mode, r.outcome));
        ObservedBounded(counted, OperationDuration(r.operation), r.duration);
        var timed := Observed(counted, OperationDuration(r.operation), r.duration);
        IncrementedBounded(timed, FailuresTotal(r.operation, r.stage, r.reason));
        IncrementedBounded(timed, DegradedTotal);
      } else if r.event == "phase_completed" {
        ObservedBounded(s, PhaseDuration(r.operation, r.stage), r.duration);
      } else if r.providerIndex.Some? {
        var provider := r.providerIndex.value;
        IncrementedBounded(s, ProviderAttempts(provider, r.stage, r.outcome));
        var counted := Incremented(s, ProviderAttempts(provider, r.stage, r.outcome));
        IncrementedBounded(counted, ProviderFailures(provider, r.stage, r.reason));
        var failed := Incremented(counted, ProviderFailures(provider, r.stage, r.reason));
        ObservedBounded(counted, ProviderDuration(provider, r.stage), r.duration);
        ObservedBounded(failed, ProviderDuration(provider, r.stage), r.duration);
      }
    }
  }

  lemma TakenBounded(s: Core, r: Received)
    requires Bounded(s) && r.record.attemptId.Some? && KeyOf(r) !in s.seen
    ensures Bounded(Taken(s, r)) && Taken(s, r).order == Suffix(s.order + [KeyOf(r)], MAX_REPLAY)
    ensures Taken(s, r).accepted == Bumped(s.accepted)
  {
    hide Tallied, Seen, Entered, Reported, Suffix, Bounded;
    var seen := Seen(s, KeyOf(r));
    var entered := Entered(seen, AttemptOf(r));
    var reported := Reported(entered, AttemptOf(r), r.record.droppedBefore, Terminal(r.record));
    var counted := reported.(accepted := Bumped(reported.accepted), lastReceived := Max(reported.lastReceived, r.receivedAt));
    SeenBounded(s, KeyOf(r));
    EnteredBounded(seen, AttemptOf(r));
    ReportedBounded(entered, AttemptOf(r), r.record.droppedBefore, Terminal(r.record));
    CountedBounded(reported, counted, r.record);
    StepsAccepted(s, r);
  }

  lemma StepsAccepted(s: Core, r: Received)
    requires r.record.attemptId.Some?
    ensures Seen(s, KeyOf(r)).accepted == s.accepted
    ensures Entered(Seen(s, KeyOf(r)), AttemptOf(r)).accepted == s.accepted
    ensures Reported(Entered(Seen(s, KeyOf(r)), AttemptOf(r)), AttemptOf(r), r.record.droppedBefore, Terminal(r.record)).accepted == s.accepted
  {}

  lemma CountedBounded(s: Core, counted: Core, r: Record)
    requires Bounded(s) && counted == s.(accepted := counted.accepted, lastReceived := counted.lastReceived)
    ensures Bounded(Tallied(counted, r)) && Tallied(counted, r).order == s.order && Tallied(counted, r).accepted == counted.accepted
  {
    hide Tallied, Distinct;
    TalliedBounded(counted, r);
  }

  lemma SuffixSnoc<T>(s: seq<T>, x: T, n: nat)
    requires n > 0
    ensures Suffix(Suffix(s, n) + [x], n) == Suffix(s + [x], n)
  {}

  /** Over every run: both windows are bounded queues in bijection with their sets, the registry stays within its cap, and
      the event window is exactly the keys of the last 65,536 accepted events. */
  lemma {:induction false} RunBounded(valid: Record -> bool, events: seq<Received>)
    ensures var (s, taken) := Run(valid, events);
            && Bounded(s.core) && Identified(taken)
            && s.core.order == Suffix(Keys(taken), MAX_REPLAY)
            && s.core.accepted == Saturated(|taken|)
  {
    hide Taken, Bounded, Suffix;
    if events == [] {
      EmptyBounded();
    } else {
      var n := |events| - 1;
      RunBounded(valid, events[..n]);
      var (s, taken) := Run(valid, events[..n]);
      if Judged(s.core, valid, events[n]).Fresh? {
        TakenBounded(s.core, events[n]);
        assert Keys(taken + [events[n]]) == Keys(taken) + [KeyOf(events[n])];
        SuffixSnoc(Keys(taken), KeyOf(events[n]), MAX_REPLAY);
      }
    }
  }

  lemma EmptyBounded()
    ensures Bounded(EMPTY) && EMPTY.order == Suffix<EventId>([], MAX_REPLAY)
  {
    assert EMPTY.attempts.Keys == {};
  }

  // ----- what is counted twice -----

  /** Every prefix of a sequence of accepted events is accepted as well. */
  lemma {:induction false} AcceptedPrefix(valid: Record -> bool, taken: seq<Received>, k: nat)
    requires Run(valid, taken).1 == taken && k <= |taken|
    ensures Run(valid, taken[..k]).1 == taken[..k]
    ensures k < |taken| ==> Judged(Run(valid, taken[..k]).0.core, valid, taken[k]).Fresh?
  {
    hide Judged, Taken;
    if k < |taken| {
      var n := |taken| - 1;
      RunShorter(valid, taken[..n]);
      var (before, kept) := Run(valid, taken[..n]);
      assert Run(valid, taken).1 == if Judged(before.core, valid, taken[n]).Fresh? then kept + [taken[n]] else kept;
      assert |kept| == n;
      assert kept == taken[..n];
      if k < n {
        AcceptedPrefix(valid, taken[..n], k);
        assert taken[..n][..k] == taken[..k];
      }
    } else {
      assert taken[..k] == taken;
    }
  }

  lemma {:induction false} RunShorter(valid: Record -> bool, events: seq<Received>)
    ensures |Run(valid, events).1| <= |events|
  {
    hide Judged, Taken;
    if events != [] {
      RunShorter(valid, events[..|events| - 1]);
    }
  }

  /** An event is counted a second time only after 65,536 other accepted events. */
  lemma CountedOnce(valid: Record -> bool, events: seq<Received>, i: nat, j: nat)
    requires i < j < |Run(valid, events).1|
    ensures Identified(Run(valid, events).1)
    ensures Keys(Run(valid, events).1)[i] == Keys(Run(valid, events).1)[j] ==> j - i > MAX_REPLAY
  {
    hide Run, Taken, AttemptsBounded;
    var taken := Run(valid, events).1;
    RunBounded(valid, events);
    ReplayRebuilds(valid, events);
    AcceptedPrefix(valid, taken, j);
    RunBounded(valid, taken[..j]);
    var window := Run(valid, taken[..j]).0.core.order;
    if j - i <= MAX_REPLAY {
      var k := if j <= MAX_REPLAY then i else i - (j - MAX_REPLAY);
      assert window[k] == Keys(taken[..j])[i] == Keys(taken)[i];
    }
  }
}
