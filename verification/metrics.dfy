/** The collector's event state: bounded deduplication windows and a capped metric registry. */
module Metrics {
  import opened Wrappers
  import opened Bytes

  const MAX_SERIES: nat := 512
  const MAX_REPLAY: nat := 65_536
  const U64_MAX: nat := 0xffff_ffff_ffff_ffff
  const BUCKETS: seq<real> := [0.005, 0.025, 0.1, 0.5, 1.0, 2.0, 5.0, 15.0, 30.0]

  datatype Record = Record(
    component: string, event: string, operation: string, stage: string, outcome: string, reason: string, duration: real,
    mode: string, providerIndex: Option<U8>, degraded: bool, attemptId: Option<Bytes16>, sequence: U64, droppedBefore: U64)

  datatype Received = Received(sourceUid: U32, sourcePid: U32, receivedAt: U64, record: Record)

  type EventId = (U32, Bytes16, U64)
  type AttemptId = (U32, Bytes16)

  datatype Attempt = Attempt(reportedDrops: U64, terminal: bool)

  /** Counter and histogram keys: a metric name with its label values. */
  datatype CounterKey =
    | OperationsTotal(operation: string, mode: string, outcome: string)
    | FailuresTotal(operation: string, stage: string, reason: string)
    | DegradedTotal
    | ProviderAttempts(provider: U8, stage: string, outcome: string)
    | ProviderFailures(provider: U8, stage: string, reason: string)

  datatype TimingKey =
    | OperationDuration(operation: string)
    | PhaseDuration(operation: string, stage: string)
    | ProviderDuration(provider: U8, stage: string)

  type Buckets = b: seq<U64> | |b| == 9 witness seq(9, _ => 0)

  datatype Histogram = Histogram(buckets: Buckets, count: U64, sum: real)

  function Saturated(n: nat): U64 { if n > U64_MAX then U64_MAX else n }

  function Bumped(n: U64): U64 { if n == U64_MAX then n else n + 1 }

  function Max(a: nat, b: nat): nat { if a < b then b else a }

  /** What an accepted event can change. */
  datatype Core = Core(
    seen: set<EventId>, order: seq<EventId>, attempts: map<AttemptId, Attempt>, attemptOrder: seq<AttemptId>,
    counters: map<CounterKey, U64>, histograms: map<TimingKey, Histogram>,
    reportedDrops: U64, evictions: U64, accepted: U64, overflow: U64, lastReceived: U64)

  const EMPTY: Core := Core({}, [], map[], [], map[], map[], 0, 0, 0, 0, 0)

  // ----- the registry -----

  function Series(s: Core): nat { |s.counters| + |s.histograms| }

  function Incremented(s: Core, key: CounterKey): Core {
    if Series(s) >= MAX_SERIES && key !in s.counters then s.(overflow := Bumped(s.overflow))
    else s.(counters := s.counters[key := Bumped(if key in s.counters then s.counters[key] else 0)])
  }

  function Bucket(n: U64, duration: real, i: nat): U64
    requires i < 9
  {
    if duration <= BUCKETS[i] then Bumped(n) else n
  }

  function Bucketed(buckets: Buckets, duration: real): Buckets {
    seq(9, i requires 0 <= i < 9 => Bucket(buckets[i], duration, i))
  }

  method FillBuckets(buckets: Buckets, duration: real) returns (filled: Buckets)
    ensures filled == Bucketed(buckets, duration)
  {
    filled := buckets;
    var i := 0;
    while i < 9
      invariant 0 <= i <= 9
      invariant forall k :: 0 <= k < i ==> filled[k] == Bucket(buckets[k], duration, k)
      invariant forall k :: i <= k < 9 ==> filled[k] == buckets[k]
    {
      if duration <= BUCKETS[i] {
        filled := filled[i := Bumped(filled[i])];
      }
      i := i + 1;
    }
    assert filled == Bucketed(buckets, duration);
  }

  const NO_TIMING: Histogram := Histogram([0, 0, 0, 0, 0, 0, 0, 0, 0], 0, 0.0)

  /** The largest finite double. */
  const F64_MAX: real :=
    179769313486231570814527423731704356798070567525844996598917476803157260780028538760589558632766878171540458953514382464234321326889464182768467546703537516986049910576551282076245490090389328944075868508455133942304583236903222948165808559332123347764797926204144723168738177180919299881250404026184124858368.0

  function Capped(sum: real): real { if sum > F64_MAX then F64_MAX else sum }

  function Timed(h: Histogram, duration: real): Histogram {
    Histogram(Bucketed(h.buckets, duration), Bumped(h.count), Capped(h.sum + duration))
  }

  function Observed(s: Core, key: TimingKey, duration: real): Core {
    if Series(s) >= MAX_SERIES && key !in s.histograms then s.(overflow := Bumped(s.overflow))
    else s.(histograms := s.histograms[key := Timed(if key in s.histograms then s.histograms[key] else NO_TIMING, duration)])
  }

  const OPERATIONS: set<string> :=
    {"enroll", "resume", "resume_enrollment", "check", "activate", "keygen", "inspect", "pcr_digest"}

  function Tallied(s: Core, r: Record): Core {
    if r.component != "client" || r.operation !in OPERATIONS then s
    else if r.event == "operation_completed" then
      var counted := Incremented(s, OperationsTotal(r.operation, r.mode, r.outcome));
      var timed := Observed(counted, OperationDuration(r.operation), r.duration);
      var failed := if r.outcome == "failure" then Incremented(timed, FailuresTotal(r.operation, r.stage, r.reason)) else timed;
      if r.degraded && r.outcome == "success" && (r.operation == "check" || r.operation == "activate")
      then Incremented(failed, DegradedTotal) else failed
    else if r.event == "phase_completed" then Observed(s, PhaseDuration(r.operation, r.stage), r.duration)
    else if r.event == "provider_completed" && r.outcome != "not_started" && r.providerIndex.Some? then
      var provider := r.providerIndex.value;
      var counted := Incremented(s, ProviderAttempts(provider, r.stage, r.outcome));
      var failed := if r.outcome == "failed" then Incremented(counted, ProviderFailures(provider, r.stage, r.reason)) else counted;
      Observed(failed, ProviderDuration(provider, r.stage), r.duration)
    else s
  }

  // ----- the windows -----

  predicate Terminal(r: Record) { r.component == "client" && r.event == "operation_completed" }

  function KeyOf(r: Received): EventId
    requires r.record.attemptId.Some?
  {
    (r.sourceUid, r.record.attemptId.value, r.record.sequence)
  }

  function AttemptOf(r: Received): AttemptId
    requires r.record.attemptId.Some?
  {
    (r.sourceUid, r.record.attemptId.value)
  }

  datatype Verdict = Fresh | Rejected | Duplicate

  function Judged(s: Core, valid: Record -> bool, r: Received): Verdict {
    if !valid(r.record) || r.record.attemptId.None? then Rejected
    else if KeyOf(r) in s.seen then Duplicate
    else if Terminal(r.record) && AttemptOf(r) in s.attempts && s.attempts[AttemptOf(r)].terminal then Rejected
    else Fresh
  }

  function Seen(s: Core, key: EventId): Core {
    var order := s.order + [key];
    if |order| > MAX_REPLAY
    then s.(seen := s.seen + {key} - {order[0]}, order := order[1..], evictions := Bumped(s.evictions))
    else s.(seen := s.seen + {key}, order := order)
  }

  function Without(attempts: map<AttemptId, Attempt>, id: AttemptId): map<AttemptId, Attempt> {
    map other | other in attempts && other != id :: attempts[other]
  }

  function Entered(s: Core, id: AttemptId): (next: Core)
    ensures id in next.attempts
  {
    if id in s.attempts then s
    else if |s.attemptOrder| == MAX_REPLAY
    then s.(attempts := Without(s.attempts, s.attemptOrder[0])[id := Attempt(0, false)],
            attemptOrder := s.attemptOrder[1..] + [id], evictions := Bumped(s.evictions))
    else s.(attempts := s.attempts[id := Attempt(0, false)], attemptOrder := s.attemptOrder + [id])
  }

  function Reported(s: Core, id: AttemptId, dropped: U64, terminal: bool): Core
    requires id in s.attempts
  {
    var attempt := s.attempts[id];
    s.(reportedDrops := Saturated(s.reportedDrops + (if dropped > attempt.reportedDrops then dropped - attempt.reportedDrops else 0)),
       attempts := s.attempts[id := Attempt(Max(attempt.reportedDrops, dropped), attempt.terminal || terminal)])
  }

  /** The core after a fresh event. */
  function Taken(s: Core, r: Received): Core
    requires r.record.attemptId.Some?
  {
    var entered := Entered(Seen(s, KeyOf(r)), AttemptOf(r));
    var reported := Reported(entered, AttemptOf(r), r.record.droppedBefore, Terminal(r.record));
    var counted := reported.(accepted := Bumped(reported.accepted), lastReceived := Max(reported.lastReceived, r.receivedAt));
    Tallied(counted, r.record)
  }

  // ----- the object -----

  datatype State = State(core: Core, rejected: U64, duplicates: U64, writeFailures: U64)

  /** One call of accept: a fresh event changes the core, any other only its own counter. */
  function Accepted(s: State, valid: Record -> bool, r: Received): (State, bool) {
    match Judged(s.core, valid, r)
    case Fresh => (s.(core := Taken(s.core, r)), true)
    case Rejected => (s.(rejected := Bumped(s.rejected)), false)
    case Duplicate => (s.(duplicates := Bumped(s.duplicates)), false)
  }

  class Collected {
    var seen: set<EventId>
    var order: seq<EventId>
    var attempts: map<AttemptId, Attempt>
    var attemptOrder: seq<AttemptId>
    var counters: map<CounterKey, U64>
    var histograms: map<TimingKey, Histogram>
    var reportedDrops: U64
    var evictions: U64
    var accepted: U64
    var rejected: U64
    var duplicates: U64
    var overflow: U64
    var writeFailures: U64
    var lastReceived: U64

    ghost function CoreNow(): Core
      reads this
    {
      Core(seen, order, attempts, attemptOrder, counters, histograms, reportedDrops, evictions, accepted, overflow, lastReceived)
    }

    ghost function Current(): State
      reads this
    {
      State(CoreNow(), rejected, duplicates, writeFailures)
    }

    constructor ()
      ensures Current() == State(EMPTY, 0, 0, 0)
    {
      seen, order, attempts, attemptOrder, counters, histograms := {}, [], map[], [], map[], map[];
      reportedDrops, evictions, accepted, rejected, duplicates, overflow, writeFailures, lastReceived := 0, 0, 0, 0, 0, 0, 0, 0;
    }

    method Increment(key: CounterKey)
      modifies this`counters, this`overflow
      ensures CoreNow() == Incremented(old(CoreNow()), key)
    {
      if |counters| + |histograms| >= MAX_SERIES && key !in counters {
        overflow := Bumped(overflow);
        return;
      }
      var counter := if key in counters then counters[key] else 0;
      counters := counters[key := Bumped(counter)];
    }

    method Observe(key: TimingKey, duration: real)
      modifies this`histograms, this`overflow
      ensures CoreNow() == Observed(old(CoreNow()), key, duration)
    {
      if |counters| + |histograms| >= MAX_SERIES && key !in histograms {
        overflow := Bumped(overflow);
        return;
      }
      var histogram := if key in histograms then histograms[key] else NO_TIMING;
      var buckets := FillBuckets(histogram.buckets, duration);
      histograms := histograms[key := Histogram(buckets, Bumped(histogram.count), Capped(histogram.sum + duration))];
    }

    method Tally(r: Record)
      modifies this`counters, this`histograms, this`overflow
      ensures CoreNow() == Tallied(old(CoreNow()), r)
    {
      hide Incremented, Observed;
      if r.component != "client" || r.operation !in OPERATIONS {
        return;
      }
      if r.event == "operation_completed" {
        Increment(OperationsTotal(r.operation, r.mode, r.outcome));
        Observe(OperationDuration(r.operation), r.duration);
        if r.outcome == "failure" {
          Increment(FailuresTotal(r.operation, r.stage, r.reason));
        }
        if r.degraded && r.outcome == "success" && (r.operation == "check" || r.operation == "activate") {
          Increment(DegradedTotal);
        }
      } else if r.event == "phase_completed" {
        Observe(PhaseDuration(r.operation, r.stage), r.duration);
      } else if r.event == "provider_completed" && r.outcome != "not_started" {
        match r.providerIndex
        case None =>
        case Some(provider) =>
          Increment(ProviderAttempts(provider, r.stage, r.outcome));
          if r.outcome == "failed" {
            Increment(ProviderFailures(provider, r.stage, r.reason));
          }
          Observe(ProviderDuration(provider, r.stage), r.duration);
      }
    }

    /** Deduplicate within the bounded windows and count what is fresh. */
    method Accept(valid: Record -> bool, r: Received) returns (taken: bool)
      modifies this
      ensures (Current(), taken) == Accepted(old(Current()), valid, r)
    {
      hide Taken;
      var record := r.record;
      if !valid(record) {
        rejected := Bumped(rejected);
        return false;
      }
      if record.attemptId.None? {
        rejected := Bumped(rejected);
        return false;
      }
      var key := (r.sourceUid, record.attemptId.value, record.sequence);
      if key in seen {
        duplicates := Bumped(duplicates);
        return false;
      }
      var attemptId := (r.sourceUid, record.attemptId.value);
      var terminal := record.component == "client" && record.event == "operation_completed";
      if terminal && attemptId in attempts && attempts[attemptId].terminal {
        rejected := Bumped(rejected);
        return false;
      }
      Take(r, terminal);
      taken := true;
    }

    /** Enter a fresh event into the windows and count it. */
    method Take(r: Received, terminal: bool)
      requires r.record.attemptId.Some? && terminal == Terminal(r.record)
      modifies this`seen, this`order, this`attempts, this`attemptOrder, this`counters, this`histograms, this`reportedDrops,
               this`evictions, this`accepted, this`overflow, this`lastReceived
      ensures CoreNow() == Taken(old(CoreNow()), r)
    {
      hide Tallied, Seen, Entered, Reported;
      Remember((r.sourceUid, r.record.attemptId.value, r.record.sequence));
      Enter((r.sourceUid, r.record.attemptId.value));
      Report((r.sourceUid, r.record.attemptId.value), r.record.droppedBefore, terminal);
      accepted := Bumped(accepted);
      lastReceived := Max(lastReceived, r.receivedAt);
      Tally(r.record);
    }

    method Report(id: AttemptId, dropped: U64, terminal: bool)
      requires id in attempts
      modifies this`attempts, this`reportedDrops
      ensures CoreNow() == Reported(old(CoreNow()), id, dropped, terminal)
    {
      var attempt := attempts[id];
      reportedDrops := Saturated(reportedDrops + if dropped > attempt.reportedDrops then dropped - attempt.reportedDrops else 0);
      attempts := attempts[id := Attempt(Max(attempt.reportedDrops, dropped), attempt.terminal || terminal)];
    }

    method Remember(key: EventId)
      modifies this`seen, this`order, this`evictions
      ensures CoreNow() == Seen(old(CoreNow()), key)
    {
      seen := seen + {key};
      order := order + [key];
      if |order| > MAX_REPLAY {
        var oldest := order[0];
        order := order[1..];
        seen := seen - {oldest};
        evictions := Bumped(evictions);
      }
    }

    method Enter(id: AttemptId)
      modifies this`attempts, this`attemptOrder, this`evictions
      ensures CoreNow() == Entered(old(CoreNow()), id)
    {
      if id !in attempts {
        if |attemptOrder| == MAX_REPLAY {
          attempts := Without(attempts, attemptOrder[0]);
          attemptOrder := attemptOrder[1..];
          evictions := Bumped(evictions);
        }
        attemptOrder := attemptOrder + [id];
        attempts := attempts[id := Attempt(0, false)];
      }
    }
  }
}
