/** What the metric registry counts over every run, before and after it is full. */
module RegistryRuns {
  import opened Wrappers
  import opened Bytes
  import opened Metrics
  import opened MetricRuns

  // ----- what a series stands for -----

  predicate Relevant(r: Record, event: string) { r.component == "client" && r.operation in OPERATIONS && r.event == event }

  predicate ProviderDone(r: Record, provider: U8) {
    Relevant(r, "provider_completed") && r.outcome != "not_started" && r.providerIndex == Some(provider)
  }

  /** The events a counter stands for. */
  predicate Counts(key: CounterKey, r: Record) {
    match key
    case OperationsTotal(operation, mode, outcome) =>
      Relevant(r, "operation_completed") && (r.operation, r.mode, r.outcome) == (operation, mode, outcome)
    case FailuresTotal(operation, stage, reason) =>
      Relevant(r, "operation_completed") && r.outcome == "failure" && (r.operation, r.stage, r.reason) == (operation, stage, reason)
    case DegradedTotal =>
      && Relevant(r, "operation_completed") && r.degraded && r.outcome == "success"
      && (r.operation == "check" || r.operation == "activate")
    case ProviderAttempts(provider, stage, outcome) => ProviderDone(r, provider) && (r.stage, r.outcome) == (stage, outcome)
    case ProviderFailures(provider, stage, reason) =>
      ProviderDone(r, provider) && r.outcome == "failed" && (r.stage, r.reason) == (stage, reason)
  }

  /** The events a histogram stands for. */
  predicate Times(key: TimingKey, r: Record) {
    match key
    case OperationDuration(operation) => Relevant(r, "operation_completed") && r.operation == operation
    case PhaseDuration(operation, stage) => Relevant(r, "phase_completed") && (r.operation, r.stage) == (operation, stage)
    case ProviderDuration(provider, stage) => ProviderDone(r, provider) && r.stage == stage
  }

  function Counted(key: CounterKey, events: seq<Received>): nat {
    if events == [] then 0
    else Counted(key, events[..|events| - 1]) + if Counts(key, events[|events| - 1].record) then 1 else 0
  }

  function TimedEvents(key: TimingKey, events: seq<Received>): nat {
    if events == [] then 0
    else TimedEvents(key, events[..|events| - 1]) + if Times(key, events[|events| - 1].record) then 1 else 0
  }

  /** Events of a timing whose duration is within bucket i. */
  function TimedWithin(key: TimingKey, i: nat, events: seq<Received>): nat
    requires i < 9
  {
    if events == [] then 0
    else
      var last := events[|events| - 1].record;
      TimedWithin(key, i, events[..|events| - 1]) + if Times(key, last) && last.duration <= BUCKETS[i] then 1 else 0
  }

  /** The durations of a timing added up, with the sum held at the largest double. */
  function TimedSum(key: TimingKey, events: seq<Received>): real {
    if events == [] then 0.0
    else
      var last := events[|events| - 1].record;
      var before := TimedSum(key, events[..|events| - 1]);
      if Times(key, last) then Capped(before + last.duration) else before
  }

  /** The durations of a timing added up. */
  function TimedTotal(key: TimingKey, events: seq<Received>): real {
    if events == [] then 0.0
    else
      var last := events[|events| - 1].record;
      TimedTotal(key, events[..|events| - 1]) + if Times(key, last) then last.duration else 0.0
  }

  /** Without negative durations the held sum is the total, or the largest double where the total exceeds it. */
  lemma {:induction false} SumIsTotal(key: TimingKey, events: seq<Received>)
    requires forall i :: 0 <= i < |events| ==> events[i].record.duration >= 0.0
    ensures TimedSum(key, events) == Capped(TimedTotal(key, events)) && TimedTotal(key, events) >= 0.0
  {
    hide Times;
    if events == [] {
      LargestPositive();
    } else {
      var n := |events| - 1;
      assert events[n].record.duration >= 0.0;
      SumIsTotal(key, events[..n]);
    }
  }

  lemma LargestPositive()
    ensures F64_MAX > 0.0
  {}

  // ----- one registry step -----

  /** Present counters move exactly if they are in `up`; a new one starts at one, while there is room; a counter of `up`
      that is still absent found the registry full. */
  ghost predicate CountersMove(m: map<CounterKey, U64>, n: map<CounterKey, U64>, room: bool, full: bool, up: set<CounterKey>) {
    && (forall key :: key in m ==> key in n && n[key] == if key in up then Bumped(m[key]) else m[key])
    && (forall key :: key in n && key !in m ==> key in up && n[key] == 1 && room)
    && (forall key :: key in up && key !in n ==> full)
  }

  /** The same for histograms and one duration. */
  ghost predicate TimingsMove(m: map<TimingKey, Histogram>, n: map<TimingKey, Histogram>, room: bool, full: bool,
                              timed: set<TimingKey>, d: real)
  {
    && (forall key :: key in m ==> key in n && n[key] == if key in timed then Timed(m[key], d) else m[key])
    && (forall key :: key in n && key !in m ==> key in timed && n[key] == Timed(NO_TIMING, d) && room)
    && (forall key :: key in timed && key !in n ==> full)
  }

  predicate Full(s: Core) { Series(s) >= MAX_SERIES }

  ghost predicate Moves(s: Core, t: Core, up: set<CounterKey>, timed: set<TimingKey>, d: real) {
    && Series(s) <= Series(t)
    && CountersMove(s.counters, t.counters, !Full(s), Full(t), up)
    && TimingsMove(s.histograms, t.histograms, !Full(s), Full(t), timed, d)
    && t.overflow == Saturated(s.overflow + Missing(t, up, timed))
  }

  /** How many of these series the registry does not hold. */
  function Missing(s: Core, up: set<CounterKey>, timed: set<TimingKey>): nat {
    |up - s.counters.Keys| + |timed - s.histograms.Keys|
  }

  lemma NoneMissing(s: Core)
    ensures Missing(s, {}, {}) == 0
  {
    assert {} - s.counters.Keys == {} && {} - s.histograms.Keys == {};
  }

  lemma CounterMissing(s: Core, key: CounterKey)
    ensures Missing(s, {key}, {}) == if key in s.counters then 0 else 1
  {
    assert {} - s.histograms.Keys == {};
    assert {key} - s.counters.Keys == if key in s.counters then {} else {key};
  }

  lemma TimingMissing(s: Core, key: TimingKey)
    ensures Missing(s, {}, {key}) == if key in s.histograms then 0 else 1
  {
    assert {} - s.counters.Keys == {};
    assert {key} - s.histograms.Keys == if key in s.histograms then {} else {key};
  }

  /** A series that was missed stays missing while only other series are updated. */
  lemma MissingTogether<K>(up: set<K>, up': set<K>, middle: set<K>, after: set<K>)
    requires up !! up' && middle <= after && after - middle <= up'
    ensures |(up + up') - after| == |up - middle| + |up' - after|
  {
    assert (up + up') - after == (up - middle) + (up' - after);
  }

  lemma CounterKeysGrow(m: map<CounterKey, U64>, n: map<CounterKey, U64>, room: bool, full: bool, up: set<CounterKey>)
    requires CountersMove(m, n, room, full, up)
    ensures m.Keys <= n.Keys && n.Keys - m.Keys <= up
  {}

  lemma TimingKeysGrow(m: map<TimingKey, Histogram>, n: map<TimingKey, Histogram>, room: bool, full: bool, timed: set<TimingKey>, d: real)
    requires TimingsMove(m, n, room, full, timed, d)
    ensures m.Keys <= n.Keys && n.Keys - m.Keys <= timed
  {
    hide Timed;
  }

  lemma MissingSum(t: Core, u: Core, up: set<CounterKey>, timed: set<TimingKey>, up': set<CounterKey>, timed': set<TimingKey>)
    requires up !! up' && t.counters.Keys <= u.counters.Keys && u.counters.Keys - t.counters.Keys <= up'
    requires timed !! timed' && t.histograms.Keys <= u.histograms.Keys && u.histograms.Keys - t.histograms.Keys <= timed'
    ensures Missing(u, up + up', timed + timed') == Missing(t, up, timed) + Missing(u, up', timed')
  {
    MissingTogether(up, up', t.counters.Keys, u.counters.Keys);
    MissingTogether(timed, timed', t.histograms.Keys, u.histograms.Keys);
  }

  lemma MissingCompose(s: Core, t: Core, u: Core, up: set<CounterKey>, timed: set<TimingKey>, up': set<CounterKey>, timed': set<TimingKey>, d: real)
    requires Moves(s, t, up, timed, d) && Moves(t, u, up', timed', d) && up !! up' && timed !! timed'
    ensures u.overflow == Saturated(s.overflow + Missing(u, up + up', timed + timed'))
  {
    hide CountersMove, TimingsMove, Series, Missing, Full;
    CounterKeysGrow(t.counters, u.counters, !Full(t), Full(u), up');
    TimingKeysGrow(t.histograms, u.histograms, !Full(t), Full(u), timed', d);
    MissingSum(t, u, up, timed, up', timed');
  }

  lemma SeriesGrows<K, V>(m: map<K, V>, key: K, value: V)
    ensures |m| <= |m[key := value]|
  {
    if key in m {
      assert m[key := value].Keys == m.Keys;
      KeysCard(m, m[key := value]);
    }
  }

  lemma CountersStay(m: map<CounterKey, U64>, room: bool, full: bool)
    ensures CountersMove(m, m, room, full, {})
  {}

  lemma TimingsStay(m: map<TimingKey, Histogram>, room: bool, full: bool, d: real)
    ensures TimingsMove(m, m, room, full, {}, d)
  {}

  lemma CounterUpdate(m: map<CounterKey, U64>, key: CounterKey, room: bool, full: bool)
    requires key in m || room
    ensures CountersMove(m, m[key := Bumped(if key in m then m[key] else 0)], room, full, {key})
  {}

  lemma TimingUpdate(m: map<TimingKey, Histogram>, key: TimingKey, room: bool, full: bool, d: real)
    requires key in m || room
    ensures TimingsMove(m, m[key := Timed(if key in m then m[key] else NO_TIMING, d)], room, full, {key}, d)
  {
    hide Timed;
  }

  lemma IncrementedMoves(s: Core, key: CounterKey, d: real)
    ensures Moves(s, Incremented(s, key), {key}, {}, d)
  {
    hide CountersMove, TimingsMove, Missing;
    var t := Incremented(s, key);
    CounterMissing(t, key);
    TimingsStay(s.histograms, !Full(s), Full(t), d);
    if Full(s) && key !in s.counters {
      AbsentCounter(s.counters, key, !Full(s));
    } else {
      CounterUpdate(s.counters, key, !Full(s), Full(t));
      SeriesGrows(s.counters, key, Bumped(if key in s.counters then s.counters[key] else 0));
    }
  }

  lemma AbsentCounter(m: map<CounterKey, U64>, key: CounterKey, room: bool)
    requires key !in m
    ensures CountersMove(m, m, room, true, {key})
  {}

  lemma AbsentTiming(m: map<TimingKey, Histogram>, key: TimingKey, room: bool, d: real)
    requires key !in m
    ensures TimingsMove(m, m, room, true, {key}, d)
  {}

  lemma ObservedMoves(s: Core, key: TimingKey, d: real)
    ensures Moves(s, Observed(s, key, d), {}, {key}, d)
  {
    hide CountersMove, TimingsMove, Timed, Missing;
    var t := Observed(s, key, d);
    TimingMissing(t, key);
    CountersStay(s.counters, !Full(s), Full(t));
    if Full(s) && key !in s.histograms {
      AbsentTiming(s.histograms, key, !Full(s), d);
    } else {
      TimingUpdate(s.histograms, key, !Full(s), Full(t), d);
      SeriesGrows(s.histograms, key, Timed(if key in s.histograms then s.histograms[key] else NO_TIMING, d));
    }
  }

  lemma CountersCompose(m: map<CounterKey, U64>, n: map<CounterKey, U64>, p: map<CounterKey, U64>,
                        full0: bool, full1: bool, full2: bool, up: set<CounterKey>, up': set<CounterKey>)
    requires CountersMove(m, n, !full0, full1, up) && CountersMove(n, p, !full1, full2, up') && up !! up'
    requires (full0 ==> full1) && (full1 ==> full2)
    ensures CountersMove(m, p, !full0, full2, up + up')
  {
    hide Bumped;
  }

  lemma TimingsCompose(m: map<TimingKey, Histogram>, n: map<TimingKey, Histogram>, p: map<TimingKey, Histogram>,
                       full0: bool, full1: bool, full2: bool, timed: set<TimingKey>, timed': set<TimingKey>, d: real)
    requires TimingsMove(m, n, !full0, full1, timed, d) && TimingsMove(n, p, !full1, full2, timed', d) && timed !! timed'
    requires (full0 ==> full1) && (full1 ==> full2)
    ensures TimingsMove(m, p, !full0, full2, timed + timed', d)
  {
    hide Timed;
  }

  lemma MovesCompose(s: Core, t: Core, u: Core, up: set<CounterKey>, timed: set<TimingKey>, up': set<CounterKey>, timed': set<TimingKey>, d: real)
    requires Moves(s, t, up, timed, d) && Moves(t, u, up', timed', d) && up !! up' && timed !! timed'
    ensures Moves(s, u, up + up', timed + timed', d)
  {
    MissingCompose(s, t, u, up, timed, up', timed', d);
    hide CountersMove, TimingsMove, Series, Missing;
    CountersCompose(s.counters, t.counters, u.counters, Full(s), Full(t), Full(u), up, up');
    TimingsCompose(s.histograms, t.histograms, u.histograms, Full(s), Full(t), Full(u), timed, timed', d);
  }

  lemma NothingMoves(s: Core, d: real)
    ensures Moves(s, s, {}, {}, d)
  {
    hide CountersMove, TimingsMove, Missing;
    NoneMissing(s);
    CountersStay(s.counters, !Full(s), Full(s));
    TimingsStay(s.histograms, !Full(s), Full(s), d);
  }

  /** An increment that depends on the record. */
  lemma IncrementedIf(s: Core, applies: bool, key: CounterKey, d: real)
    ensures Moves(s, if applies then Incremented(s, key) else s, if applies then {key} else {}, {}, d)
  {
    hide Moves, Incremented;
    IncrementedMoves(s, key, d);
    NothingMoves(s, d);
  }

  // ----- the step of one record -----

  predicate Degrading(r: Record) { r.degraded && r.outcome == "success" && (r.operation == "check" || r.operation == "activate") }

  function UpKeys(r: Record): set<CounterKey> {
    if Relevant(r, "operation_completed") then
      {OperationsTotal(r.operation, r.mode, r.outcome)}
      + (if r.outcome == "failure" then {FailuresTotal(r.operation, r.stage, r.reason)} else {})
      + (if Degrading(r) then {DegradedTotal} else {})
    else if r.providerIndex.Some? && ProviderDone(r, r.providerIndex.value) then
      {ProviderAttempts(r.providerIndex.value, r.stage, r.outcome)}
      + (if r.outcome == "failed" then {ProviderFailures(r.providerIndex.value, r.stage, r.reason)} else {})
    else {}
  }

  function TimedKeys(r: Record): set<TimingKey> {
    if Relevant(r, "operation_completed") then {OperationDuration(r.operation)}
    else if Relevant(r, "phase_completed") then {PhaseDuration(r.operation, r.stage)}
    else if r.providerIndex.Some? && ProviderDone(r, r.providerIndex.value) then {ProviderDuration(r.providerIndex.value, r.stage)}
    else {}
  }

  /** Four registry steps of a completed operation. */
  lemma CompletedMoves(s: Core, a: CounterKey, b: TimingKey, c: CounterKey, e: CounterKey, failure: bool, degrading: bool, d: real)
    requires a != c && a != e && c != e
    ensures var counted := Incremented(s, a);
            var timed := Observed(counted, b, d);
            var failed := if failure then Incremented(timed, c) else timed;
            var last := if degrading then Incremented(failed, e) else failed;
            Moves(s, last, {a} + (if failure then {c} else {}) + (if degrading then {e} else {}), {b}, d)
  {
    hide Incremented, Observed, Moves;
    var counted := Incremented(s, a);
    var timed := Observed(counted, b, d);
    var failed := if failure then Incremented(timed, c) else timed;
    var last := if degrading then Incremented(failed, e) else failed;
    var f, g: set<CounterKey> := if failure then {c} else {}, if degrading then {e} else {};
    IncrementedMoves(s, a, d);
    ObservedMoves(counted, b, d);
    MovesCompose(s, counted, timed, {a}, {}, {}, {b}, d);
    assert {a} + {} == {a} && {} + {b} == {b};
    IncrementedIf(timed, failure, c, d);
    MovesCompose(s, timed, failed, {a}, {b}, f, {}, d);
    assert {b} + {} == {b};
    IncrementedIf(failed, degrading, e, d);
    MovesCompose(s, failed, last, {a} + f, {b}, g, {}, d);
  }

  /** Three registry steps of a provider. */
  lemma ProviderMoves(s: Core, a: CounterKey, b: TimingKey, c: CounterKey, failure: bool, d: real)
    requires a != c
    ensures var counted := Incremented(s, a);
            var failed := if failure then Incremented(counted, c) else counted;
            Moves(s, Observed(failed, b, d), {a} + (if failure then {c} else {}), {b}, d)
  {
    hide Incremented, Observed, Moves;
    var counted := Incremented(s, a);
    var failed := if failure then Incremented(counted, c) else counted;
    var f: set<CounterKey> := if failure then {c} else {};
    IncrementedMoves(s, a, d);
    IncrementedIf(counted, failure, c, d);
    MovesCompose(s, counted, failed, {a}, {}, f, {}, d);
    ObservedMoves(failed, b, d);
    var none: set<TimingKey> := {};
    assert none + none == none;
    MovesCompose(s, failed, Observed(failed, b, d), {a} + f, none, {}, {b}, d);
    assert ({a} + f) + {} == {a} + f && {} + {b} == {b};
  }

  lemma TalliedMoves(s: Core, r: Record)
    ensures Moves(s, Tallied(s, r), UpKeys(r), TimedKeys(r), r.duration)
  {
    hide Moves, Incremented, Observed;
    if Relevant(r, "operation_completed") {
      CompletedMoves(s, OperationsTotal(r.operation, r.mode, r.outcome), OperationDuration(r.operation),
                     FailuresTotal(r.operation, r.stage, r.reason), DegradedTotal, r.outcome == "failure", Degrading(r), r.duration);
    } else if Relevant(r, "phase_completed") {
      ObservedMoves(s, PhaseDuration(r.operation, r.stage), r.duration);
    } else if r.providerIndex.Some? && ProviderDone(r, r.providerIndex.value) {
      var provider := r.providerIndex.value;
      ProviderMoves(s, ProviderAttempts(provider, r.stage, r.outcome), ProviderDuration(provider, r.stage),
                    ProviderFailures(provider, r.stage, r.reason), r.outcome == "failed", r.duration);
    } else {
      NothingMoves(s, r.duration);
    }
  }

  lemma KeysMean(r: Record, key: CounterKey, timing: TimingKey)
    ensures key in UpKeys(r) <==> Counts(key, r)
    ensures timing in TimedKeys(r) <==> Times(timing, r)
  {}

  lemma WindowsKeepRegistry(s: Core, r: Received)
    requires r.record.attemptId.Some?
    ensures var reported := Reported(Entered(Seen(s, KeyOf(r)), AttemptOf(r)), AttemptOf(r), r.record.droppedBefore, Terminal(r.record));
            reported.counters == s.counters && reported.histograms == s.histograms && reported.overflow == s.overflow
  {}

  /** The registry step of a fresh event starts from an unchanged registry. */
  lemma TakenMoves(s: Core, r: Received)
    requires r.record.attemptId.Some?
    ensures Moves(s, Taken(s, r), UpKeys(r.record), TimedKeys(r.record), r.record.duration)
  {
    WindowsKeepRegistry(s, r);
    hide Tallied, UpKeys, TimedKeys, Seen, Entered, Reported, Moves;
    var entered := Entered(Seen(s, KeyOf(r)), AttemptOf(r));
    var reported := Reported(entered, AttemptOf(r), r.record.droppedBefore, Terminal(r.record));
    var counted := reported.(accepted := Bumped(reported.accepted), lastReceived := Max(reported.lastReceived, r.receivedAt));
    TalliedMoves(counted, r.record);
    SameRegistry(s, counted, Tallied(counted, r.record), UpKeys(r.record), TimedKeys(r.record), r.record.duration);
  }

  lemma SameRegistry(s: Core, t: Core, u: Core, up: set<CounterKey>, timed: set<TimingKey>, d: real)
    requires t.counters == s.counters && t.histograms == s.histograms && t.overflow == s.overflow && Moves(t, u, up, timed, d)
    ensures Moves(s, u, up, timed, d)
  {
    hide Bumped, Timed, Missing;
  }

  // ----- whole runs -----

  /** A counter is the number of the accepted events it stands for; one that is absent stands for none, or the registry is
      full. */
  predicate CounterExact(s: Core, key: CounterKey, taken: seq<Received>) {
    if key in s.counters then s.counters[key] == Saturated(Counted(key, taken))
    else Counted(key, taken) == 0 || Full(s)
  }

  /** A histogram counts the accepted events it stands for, and each bucket those within its limit. */
  predicate HistogramExact(h: Histogram, key: TimingKey, taken: seq<Received>) {
    && h.count == Saturated(TimedEvents(key, taken)) && h.sum == TimedSum(key, taken)
    && forall i :: 0 <= i < 9 ==> h.buckets[i] == Saturated(TimedWithin(key, i, taken))
  }

  predicate TimingExact(s: Core, key: TimingKey, taken: seq<Received>) {
    if key in s.histograms then HistogramExact(s.histograms[key], key, taken)
    else TimedEvents(key, taken) == 0 || Full(s)
  }

  lemma {:induction false} NoneSummed(key: TimingKey, events: seq<Received>)
    requires TimedEvents(key, events) == 0
    ensures TimedSum(key, events) == 0.0
  {
    hide Times;
    if events != [] {
      NoneSummed(key, events[..|events| - 1]);
    }
  }

  lemma {:induction false} NoneWithin(key: TimingKey, i: nat, events: seq<Received>)
    requires i < 9 && TimedEvents(key, events) == 0
    ensures TimedWithin(key, i, events) == 0
  {
    hide Times;
    if events != [] {
      NoneWithin(key, i, events[..|events| - 1]);
    }
  }

  lemma CounterStep(s: Core, t: Core, key: CounterKey, taken: seq<Received>, r: Received, up: set<CounterKey>)
    requires CounterExact(s, key, taken) && CountersMove(s.counters, t.counters, !Full(s), Full(t), up) && Series(s) <= Series(t)
    requires key in up <==> Counts(key, r.record)
    ensures CounterExact(t, key, taken + [r])
  {
    hide Counts, Series;
    var more := taken + [r];
    assert more[..|more| - 1] == taken;
  }

  lemma HistogramStep(h: Histogram, key: TimingKey, taken: seq<Received>, r: Received)
    requires HistogramExact(h, key, taken)
    ensures HistogramExact(if Times(key, r.record) then Timed(h, r.record.duration) else h, key, taken + [r])
  {
    hide Times;
    var more := taken + [r];
    assert more[..|more| - 1] == taken;
  }

  lemma EmptyHistogram(key: TimingKey, taken: seq<Received>)
    requires TimedEvents(key, taken) == 0
    ensures HistogramExact(NO_TIMING, key, taken)
  {
    NoneSummed(key, taken);
    forall i | 0 <= i < 9 ensures NO_TIMING.buckets[i] == Saturated(TimedWithin(key, i, taken)) {
      NoneWithin(key, i, taken);
    }
  }

  lemma TimingStep(s: Core, t: Core, key: TimingKey, taken: seq<Received>, r: Received, timed: set<TimingKey>)
    requires TimingExact(s, key, taken) && Series(s) <= Series(t)
    requires TimingsMove(s.histograms, t.histograms, !Full(s), Full(t), timed, r.record.duration)
    requires key in timed <==> Times(key, r.record)
    ensures TimingExact(t, key, taken + [r])
  {
    hide Times, Series, Timed, HistogramExact;
    var more := taken + [r];
    assert more[..|more| - 1] == taken;
    if key in s.histograms {
      HistogramStep(s.histograms[key], key, taken, r);
    } else if key in t.histograms {
      EmptyHistogram(key, taken);
      HistogramStep(NO_TIMING, key, taken, r);
    }
  }

  /** Over every run, also after the registry is full: each counter and each histogram bucket is the saturated number of
      accepted events it stands for, and a series is missing only if it stands for none or all 512 places are taken. */
  lemma {:induction false} RegistryExact(valid: Record -> bool, events: seq<Received>, key: CounterKey, timing: TimingKey)
    ensures var (s, taken) := Run(valid, events); CounterExact(s.core, key, taken) && TimingExact(s.core, timing, taken)
  {
    hide Taken, CounterExact, TimingExact, UpKeys, TimedKeys, Counts, Times, CountersMove, TimingsMove;
    if events == [] {
      EmptyRegistry(key, timing);
    } else {
      var n := |events| - 1;
      RegistryExact(valid, events[..n], key, timing);
      var (s, taken) := Run(valid, events[..n]);
      if Judged(s.core, valid, events[n]).Fresh? {
        var next := Taken(s.core, events[n]);
        var record := events[n].record;
        TakenMoves(s.core, events[n]);
        KeysMean(record, key, timing);
        CounterStep(s.core, next, key, taken, events[n], UpKeys(record));
        TimingStep(s.core, next, timing, taken, events[n], TimedKeys(record));
      }
    }
  }

  /** Updates a run asked for and a full registry did not take: per accepted event, its series that are missing after it. */
  function Refused(valid: Record -> bool, events: seq<Received>): nat {
    if events == [] then 0
    else
      var n := |events| - 1;
      var r := events[n].record;
      Refused(valid, events[..n])
      + if |Run(valid, events).1| > |Run(valid, events[..n]).1| then Missing(Run(valid, events).0.core, UpKeys(r), TimedKeys(r)) else 0
  }

  /** Over every run the overflow count is the number of refused updates. */
  lemma {:induction false} OverflowExact(valid: Record -> bool, events: seq<Received>)
    ensures Run(valid, events).0.core.overflow == Saturated(Refused(valid, events))
  {
    hide Taken, UpKeys, TimedKeys, CountersMove, TimingsMove, Missing;
    if events != [] {
      var n := |events| - 1;
      OverflowExact(valid, events[..n]);
      var (s, taken) := Run(valid, events[..n]);
      if Judged(s.core, valid, events[n]).Fresh? {
        TakenMoves(s.core, events[n]);
      }
    }
  }

  lemma EmptyRegistry(key: CounterKey, timing: TimingKey)
    ensures CounterExact(EMPTY, key, []) && TimingExact(EMPTY, timing, [])
  {}

  lemma {:induction false} WithinRises(key: TimingKey, i: nat, j: nat, events: seq<Received>)
    requires i <= j < 9
    ensures TimedWithin(key, i, events) <= TimedWithin(key, j, events) <= TimedEvents(key, events)
  {
    hide Times;
    if events != [] {
      LimitsRise(i, j);
      WithinRises(key, i, j, events[..|events| - 1]);
    }
  }

  lemma LimitsRise(i: nat, j: nat)
    requires i <= j < 9
    ensures BUCKETS[i] <= BUCKETS[j]
  {}

  /** So the buckets of every histogram are cumulative and none exceeds the count. */
  lemma HistogramsCumulative(valid: Record -> bool, events: seq<Received>, timing: TimingKey)
    requires timing in Run(valid, events).0.core.histograms
    ensures var h := Run(valid, events).0.core.histograms[timing];
            && (forall i, j :: 0 <= i <= j < 9 ==> h.buckets[i] <= h.buckets[j])
            && (forall i :: 0 <= i < 9 ==> h.buckets[i] <= h.count)
  {
    hide Run, TimedWithin, TimedEvents;
    RegistryExact(valid, events, DegradedTotal, timing);
    var (s, taken) := Run(valid, events);
    var h := s.core.histograms[timing];
    assert HistogramExact(h, timing, taken);
    forall i, j | 0 <= i <= j < 9 ensures h.buckets[i] <= h.buckets[j] && h.buckets[i] <= h.count {
      WithinRises(timing, i, j, taken);
    }
  }
}
