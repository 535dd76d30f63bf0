/** The collector's event log: append with rollback, rotation, and the replay that rebuilds the state. */
module EventLogs {
  import opened Wrappers
  import opened Bytes
  import opened JournalText
  import opened Metrics
  import opened MetricRuns

  const LOG_LIMIT: nat := 16 * 1024 * 1024
  const MAX_LINE: nat := 4096 + 1024

  /** The JSON line of a received event. */
  datatype Codec = Codec(put: Received -> Bytes, get: Bytes -> Option<Received>)

  /** The line of this event reads back, is not empty, holds no newline and is within the line limit. */
  predicate Writable(codec: Codec, r: Received) {
    var line := codec.put(r);
    codec.get(line) == Some(r) && line != [] && NEWLINE !in line && |line| <= MAX_LINE
  }

  function Encoded(codec: Codec, events: seq<Received>): Bytes {
    if events == [] then [] else codec.put(events[0]) + [NEWLINE] + Encoded(codec, events[1..])
  }

  // ----- replay -----

  /** Length of the complete lines. */
  function CompleteLength(bytes: Bytes): (n: nat)
    ensures n <= |bytes|
  {
    if bytes == [] || bytes[|bytes| - 1] == NEWLINE then |bytes| else CompleteLength(bytes[..|bytes| - 1])
  }

  function ReplayLine(s: State, valid: Record -> bool, codec: Codec, line: Bytes): State {
    if line == [] then s
    else if |line| > MAX_LINE then s.(rejected := Bumped(s.rejected))
    else match codec.get(line)
         case None => s.(rejected := Bumped(s.rejected))
         case Some(r) => Accepted(s, valid, r).0
  }

  function ReplayLines(s: State, valid: Record -> bool, codec: Codec, lines: seq<Bytes>): State
    decreases |lines|
  {
    if lines == [] then s else ReplayLines(ReplayLine(s, valid, codec, lines[0]), valid, codec, lines[1..])
  }

  /** The state after replaying a file: a torn tail is cut off and counted once. */
  function Replayed(s: State, valid: Record -> bool, codec: Codec, bytes: Bytes): State {
    var complete := CompleteLength(bytes);
    var start := if complete < |bytes| then s.(rejected := Bumped(s.rejected)) else s;
    ReplayLines(start, valid, codec, Split(bytes[..complete]))
  }

  method CompleteLines(bytes: Bytes) returns (n: nat)
    ensures n == CompleteLength(bytes)
  {
    n := |bytes|;
    assert bytes[..|bytes|] == bytes;
    while n > 0 && bytes[n - 1] != NEWLINE
      invariant n <= |bytes| && CompleteLength(bytes[..n]) == CompleteLength(bytes)
    {
      assert bytes[..n][..n - 1] == bytes[..n - 1];
      n := n - 1;
    }
  }

  method Replay(valid: Record -> bool, codec: Codec, bytes: Bytes, metrics: Collected) returns (kept: Option<Bytes>)
    modifies metrics
    ensures kept == if |bytes| > LOG_LIMIT + 8192 then None else Some(bytes[..CompleteLength(bytes)])
    ensures metrics.Current() == if kept.None? then old(metrics.Current()) else Replayed(old(metrics.Current()), valid, codec, bytes)
  {
    hide Accepted;
    if |bytes| > LOG_LIMIT + 8192 {
      return None;
    }
    var complete := CompleteLines(bytes);
    if complete < |bytes| {
      metrics.rejected := Bumped(metrics.rejected);
    }
    var rest := bytes[..complete];
    ghost var goal := ReplayLines(metrics.Current(), valid, codec, Split(rest));
    var more := true;
    while more
      invariant more ==> goal == ReplayLines(metrics.Current(), valid, codec, Split(rest))
      invariant !more ==> goal == metrics.Current()
      decreases more, |rest|
    {
      hide ReplayLine;
      var end := 0;
      while end < |rest| && rest[end] != NEWLINE
        invariant 0 <= end <= |rest|
        invariant forall k :: 0 <= k < end ==> rest[k] != NEWLINE
      {
        end := end + 1;
      }
      assert end == FirstNewline(rest);
      assert rest[..end] == Split(rest)[0];
      ReplayOne(valid, codec, rest[..end], metrics);
      if end == |rest| {
        assert rest[..end] == rest;
        assert Split(rest)[1..] == [];
        more := false;
      } else {
        assert Split(rest)[1..] == Split(rest[end + 1..]);
        rest := rest[end + 1..];
      }
    }
    kept := Some(bytes[..complete]);
  }

  method ReplayOne(valid: Record -> bool, codec: Codec, line: Bytes, metrics: Collected)
    modifies metrics
    ensures metrics.Current() == ReplayLine(old(metrics.Current()), valid, codec, line)
  {
    hide Judged, Taken;
    if line == [] {
      return;
    }
    if |line| > MAX_LINE {
      metrics.rejected := Bumped(metrics.rejected);
      return;
    }
    match codec.get(line)
    case None =>
      metrics.rejected := Bumped(metrics.rejected);
    case Some(r) =>
      var taken := metrics.Accept(valid, r);
  }

  // ----- what a replay rebuilds -----

  /** Accepted events only. */
  function Fed(core: Core, valid: Record -> bool, events: seq<Received>): Core
    decreases |events|
  {
    if events == [] then core else Fed(FedOne(core, valid, events[0]), valid, events[1..])
  }

  function FedOne(core: Core, valid: Record -> bool, r: Received): Core {
    if Judged(core, valid, r).Fresh? then Taken(core, r) else core
  }

  lemma {:induction false} FedConcat(core: Core, valid: Record -> bool, a: seq<Received>, b: seq<Received>)
    ensures Fed(core, valid, a + b) == Fed(Fed(core, valid, a), valid, b)
    decreases |a|
  {
    hide Judged, Taken;
    if a == [] {
      assert a + b == b;
    } else {
      assert (a + b)[1..] == a[1..] + b;
      FedConcat(FedOne(core, valid, a[0]), valid, a[1..], b);
    }
  }

  lemma {:induction false} FedIsRun(valid: Record -> bool, events: seq<Received>)
    ensures Run(valid, events).0.core == Fed(EMPTY, valid, events)
  {
    hide Judged, Taken;
    if events != [] {
      var n := |events| - 1;
      FedIsRun(valid, events[..n]);
      FedConcat(EMPTY, valid, events[..n], [events[n]]);
      assert events == events[..n] + [events[n]];
    }
  }

  predicate AllWritable(codec: Codec, events: seq<Received>) {
    forall i :: 0 <= i < |events| ==> Writable(codec, events[i])
  }

  /** A log of whole lines splits into them and a last empty piece. */
  lemma {:induction false} ReplayWhole(s: State, valid: Record -> bool, codec: Codec, events: seq<Received>)
    requires AllWritable(codec, events)
    ensures ReplayLines(s, valid, codec, Split(Encoded(codec, events))).core == Fed(s.core, valid, events)
    decreases |events|
  {
    hide Judged, Taken, Split;
    if events == [] {
      SplitRecord([], []);
      assert ReplayLines(s, valid, codec, [[]]) == s;
    } else {
      var line, rest := codec.put(events[0]), Encoded(codec, events[1..]);
      SplitRecord(line, rest);
      var next := ReplayLine(s, valid, codec, line);
      assert ([line] + Split(rest))[1..] == Split(rest);
      ReplayWhole(next, valid, codec, events[1..]);
    }
  }

  lemma {:induction false} CompleteTail(whole: Bytes, tail: Bytes)
    requires NEWLINE !in tail && (whole == [] || whole[|whole| - 1] == NEWLINE)
    ensures CompleteLength(whole + tail) == |whole|
  {
    if tail == [] {
      assert whole + tail == whole;
    } else {
      var n := |tail| - 1;
      assert (whole + tail)[..|whole + tail| - 1] == whole + tail[..n];
      assert tail[n] in tail;
      CompleteTail(whole, tail[..n]);
    }
  }

  lemma {:induction false} EncodedEnds(codec: Codec, events: seq<Received>)
    ensures var bytes := Encoded(codec, events); bytes == [] || bytes[|bytes| - 1] == NEWLINE
  {
    if events != [] {
      EncodedEnds(codec, events[1..]);
    }
  }

  /** Replaying a log of whole lines, with any torn tail behind them, feeds exactly the logged events. */
  lemma ReplayTorn(s: State, valid: Record -> bool, codec: Codec, events: seq<Received>, tail: Bytes)
    requires AllWritable(codec, events) && NEWLINE !in tail
    ensures Replayed(s, valid, codec, Encoded(codec, events) + tail).core == Fed(s.core, valid, events)
  {
    hide ReplayLines, Fed, Encoded, AllWritable, Split;
    var whole := Encoded(codec, events);
    EncodedEnds(codec, events);
    CompleteTail(whole, tail);
    assert (whole + tail)[..|whole|] == whole;
    ReplayWhole(s, valid, codec, events);
    ReplayWhole(s.(rejected := Bumped(s.rejected)), valid, codec, events);
  }

  /** The events among the lines of a file: those within the limit that decode. */
  function Decoded(codec: Codec, lines: seq<Bytes>): seq<Received> {
    if lines == [] then []
    else
      (if lines[0] != [] && |lines[0]| <= MAX_LINE && codec.get(lines[0]).Some? then [codec.get(lines[0]).value] else [])
      + Decoded(codec, lines[1..])
  }

  /** The lines that are neither empty nor events. */
  function Malformed(codec: Codec, lines: seq<Bytes>): nat {
    if lines == [] then 0
    else
      (if lines[0] != [] && (|lines[0]| > MAX_LINE || codec.get(lines[0]).None?) then 1 else 0) + Malformed(codec, lines[1..])
  }

  /** The state after accepting events one by one. */
  function Offered(s: State, valid: Record -> bool, events: seq<Received>): State
    decreases |events|
  {
    if events == [] then s else Offered(Accepted(s, valid, events[0]).0, valid, events[1..])
  }

  /** Rejecting more beforehand only raises the rejected count. */
  lemma {:induction false} OfferedMore(s: State, valid: Record -> bool, events: seq<Received>, n: nat)
    ensures Offered(s.(rejected := Saturated(s.rejected + n)), valid, events)
         == var t := Offered(s, valid, events); t.(rejected := Saturated(t.rejected + n))
    decreases |events|
  {
    hide Taken, Judged;
    if events != [] {
      OfferedMore(Accepted(s, valid, events[0]).0, valid, events[1..], n);
    }
  }

  lemma {:induction false} ReplayMeans(s: State, valid: Record -> bool, codec: Codec, lines: seq<Bytes>)
    ensures ReplayLines(s, valid, codec, lines)
         == var t := Offered(s, valid, Decoded(codec, lines)); t.(rejected := Saturated(t.rejected + Malformed(codec, lines)))
    decreases |lines|
  {
    hide Accepted;
    if lines != [] {
      var (next, rest) := (ReplayLine(s, valid, codec, lines[0]), lines[1..]);
      ReplayMeans(next, valid, codec, rest);
      if lines[0] != [] {
        if |lines[0]| > MAX_LINE || codec.get(lines[0]).None? {
          OfferedMore(s, valid, Decoded(codec, rest), 1);
          assert Decoded(codec, lines) == Decoded(codec, rest);
        } else {
          assert Decoded(codec, lines)[1..] == Decoded(codec, rest);
        }
      } else {
        assert Decoded(codec, lines) == Decoded(codec, rest);
      }
    }
  }

  /** Replaying any bytes at all offers the events of the complete lines in order, and rejects once each malformed line
      and a torn tail. */
  lemma ReplayAnything(s: State, valid: Record -> bool, codec: Codec, whole: Bytes, tail: Bytes)
    requires NEWLINE !in tail && (whole == [] || whole[|whole| - 1] == NEWLINE)
    ensures Replayed(s, valid, codec, whole + tail)
         == var t := Offered(s, valid, Decoded(codec, Split(whole)));
            t.(rejected := Saturated(t.rejected + Malformed(codec, Split(whole)) + if tail == [] then 0 else 1))
  {
    hide Accepted, Decoded, Malformed, Split, Offered, ReplayLines;
    CompleteTail(whole, tail);
    assert (whole + tail)[..|whole|] == whole;
    ReplayMeans(s, valid, codec, Split(whole));
    ReplayMeans(s.(rejected := Bumped(s.rejected)), valid, codec, Split(whole));
    OfferedMore(s, valid, Decoded(codec, Split(whole)), 1);
  }

  // ----- the running collector -----

  datatype WriteFault = Works | Tears(kept: nat, rollback: bool)

  class Collector {
    const valid: Record -> bool
    const codec: Codec
    const metrics: Collected
    var log: Bytes
    var logSize: nat
    var previous: Bytes
    ghost var received: seq<Received>
    ghost var older: seq<Received>
    ghost var current: seq<Received>
    ghost var complete: bool

    /** The files hold `older` and `current`, with a torn tail behind the log. */
    ghost predicate Files(tail: Bytes)
      reads this
    {
      && NEWLINE !in tail
      && log == Encoded(codec, current) + tail && previous == Encoded(codec, older)
      && AllWritable(codec, older) && AllWritable(codec, current)
      && |previous| <= LOG_LIMIT && |log| <= LOG_LIMIT + |tail| && |tail| <= MAX_LINE
    }

    /** While complete, the files hold all accepted events; otherwise fewer. */
    ghost predicate Holds(taken: seq<Received>)
      reads this
    {
      if complete then older + current == taken else |older + current| < |taken|
    }

    ghost predicate Stopped(tail: Bytes)
      reads this, metrics
    {
      && Files(tail) && Holds(Run(valid, received).1)
      && metrics.CoreNow() == Run(valid, received).0.core
    }

    ghost predicate Valid()
      reads this, metrics
    {
      Stopped([]) && logSize == |log|
    }

    constructor (valid: Record -> bool, codec: Codec)
      ensures Valid() && received == [] && complete && fresh(metrics)
    {
      this.valid, this.codec := valid, codec;
      metrics := new Collected();
      log, logSize, previous, received, older, current, complete := [], 0, [], [], [], [], true;
    }

    /** The line of this event does not fit into the log any more. */
    ghost predicate Overfull(r: Received)
      reads this
    {
      |log| + |codec.put(r)| + 1 > LOG_LIMIT
    }

    /** One received event. An accepted event is appended; a failed append is rolled back, or else the collector stops and
        leaves a torn tail. An event is lost from the files only by a failed write or by the second rotation after it. */
    method Receive(r: Received, fault: WriteFault) returns (running: bool, ghost tail: Bytes)
      requires Valid() && (Judged(metrics.CoreNow(), valid, r).Fresh? ==> Writable(codec, r))
      modifies this, metrics
      ensures received == old(received) + [r]
      ensures Stopped(tail) && (running ==> tail == [] && Valid())
      ensures metrics.Current() == Accepted(old(metrics.Current()), valid, r).0.(writeFailures := metrics.writeFailures)
      ensures !Judged(old(metrics.CoreNow()), valid, r).Fresh? ==>
                && running && log == old(log) && previous == old(previous) && metrics.writeFailures == old(metrics.writeFailures)
                && older == old(older) && current == old(current) && complete == old(complete)
      ensures Judged(old(metrics.CoreNow()), valid, r).Fresh? ==>
                && running == (fault.Works? || fault.rollback)
                && older == (if old(Overfull(r)) then old(current) else old(older))
                && current == (if old(Overfull(r)) then [] else old(current)) + (if fault.Works? then [r] else [])
                && complete == (old(complete) && fault.Works? && !(old(Overfull(r)) && old(older) != []))
                && metrics.writeFailures == if fault.Works? then old(metrics.writeFailures) else Bumped(old(metrics.writeFailures))
    {
      hide Accepted, Run, Encoded, AllWritable, Writable;
      ReceiveStep(valid, received, r, metrics.Current());
      TakenWhenFresh(metrics.Current(), valid, r);
      var taken := metrics.Accept(valid, r);
      ghost var before := Run(valid, received).1;
      received := received + [r];
      running, tail := true, [];
      if taken {
        running, tail := Append(r, fault, before);
      }
    }

    /** Rotate when the line does not fit, then append it. */
    method Append(r: Received, fault: WriteFault, ghost taken: seq<Received>) returns (running: bool, ghost tail: Bytes)
      requires Files([]) && Holds(taken) && logSize == |log| && Writable(codec, r)
      modifies this`log, this`logSize, this`previous, this`older, this`current, this`complete, metrics`writeFailures
      ensures Files(tail) && Holds(taken + [r])
      ensures running ==> tail == [] && logSize == |log|
      ensures running == (fault.Works? || fault.rollback) && tail <= codec.put(r)
      ensures older == if old(Overfull(r)) then old(current) else old(older)
      ensures current == (if old(Overfull(r)) then [] else old(current)) + (if fault.Works? then [r] else [])
      ensures complete == (old(complete) && fault.Works? && !(old(Overfull(r)) && old(older) != []))
      ensures metrics.writeFailures == if fault.Works? then old(metrics.writeFailures) else Bumped(old(metrics.writeFailures))
    {
      hide Encoded, AllWritable, Bumped;
      var bytes := codec.put(r) + [NEWLINE];
      if logSize + |bytes| > LOG_LIMIT {
        Rotate(taken);
      }
      match fault
      case Works =>
        WriteLine(r, bytes, taken);
        running, tail := true, [];
      case Tears(kept, rollback) =>
        var written := if kept < |bytes| then bytes[..kept] else bytes[..|bytes| - 1];
        tail := TearLine(r, written, rollback, taken);
        running := rollback;
    }

    method WriteLine(r: Received, bytes: Bytes, ghost taken: seq<Received>)
      requires Files([]) && Holds(taken) && logSize == |log| && bytes == codec.put(r) + [NEWLINE] && Writable(codec, r)
      requires |log| + |bytes| <= LOG_LIMIT
      modifies this`log, this`logSize, this`current
      ensures Files([]) && Holds(taken + [r]) && logSize == |log| && current == old(current) + [r]
    {
      hide Encoded;
      log := log + bytes;
      logSize := logSize + |bytes|;
      EncodedSnoc(codec, current, r);
      assert (older + current) + [r] == older + (current + [r]);
      current := current + [r];
    }

    /** A failed write leaves a part of the line until it is rolled back. */
    method TearLine(r: Received, written: Bytes, rollback: bool, ghost taken: seq<Received>) returns (ghost tail: Bytes)
      requires Files([]) && Holds(taken) && logSize == |log| && NEWLINE !in written && |written| <= MAX_LINE
      modifies this`log, this`complete, metrics`writeFailures
      ensures Files(tail) && Holds(taken + [r]) && (rollback ==> tail == [] && logSize == |log|)
      ensures !complete && metrics.writeFailures == Bumped(old(metrics.writeFailures)) && tail == if rollback then [] else written
    {
      hide Encoded;
      metrics.writeFailures := Bumped(metrics.writeFailures);
      complete := false;
      log := log + written;
      tail := written;
      if rollback {
        log := log[..logSize];
        tail := [];
      }
    }

    method Rotate(ghost taken: seq<Received>)
      requires Files([]) && Holds(taken) && logSize == |log|
      modifies this`log, this`logSize, this`previous, this`older, this`current, this`complete
      ensures Files([]) && Holds(taken) && logSize == |log| == 0
      ensures older == old(current) && current == [] && complete == (old(complete) && old(older) == [])
    {
      previous := log;
      log, logSize := [], 0;
      complete := complete && older == [];
      older, current := current, [];
      assert older + current == older;
    }

    /** Restart: replay the previous file and the current one. Windows, attempts, counters and histograms are those of the
        stopped collector exactly when every accepted event is still in the files. */
    method Restart(ghost tail: Bytes) returns (rebuilt: Collected)
      requires Stopped(tail)
      requires |Run(valid, received).1| <= U64_MAX
      ensures fresh(rebuilt) && rebuilt.CoreNow() == Run(valid, older + current).0.core
      ensures rebuilt.CoreNow() == metrics.CoreNow() <==> complete
    {
      hide Run, Encoded, Fed, Replayed, AllWritable;
      rebuilt := new Collected();
      var kept := Replay(valid, codec, previous, rebuilt);
      assert previous + [] == previous;
      ReplayTorn(State(EMPTY, 0, 0, 0), valid, codec, older, []);
      ghost var middle := rebuilt.Current();
      kept := Replay(valid, codec, log, rebuilt);
      ReplayTorn(middle, valid, codec, current, tail);
      FedConcat(EMPTY, valid, older, current);
      FedIsRun(valid, older + current);
      RebuiltExactly(valid, received, older + current, complete);
    }
  }

  lemma TakenWhenFresh(s: State, valid: Record -> bool, r: Received)
    ensures Accepted(s, valid, r).1 <==> Judged(s.core, valid, r).Fresh?
    ensures Accepted(s, valid, r).0.writeFailures == s.writeFailures
  {
    hide Judged, Taken;
  }

  lemma ReceiveStep(valid: Record -> bool, before: seq<Received>, r: Received, s: State)
    requires s.core == Run(valid, before).0.core
    ensures Run(valid, before + [r]).0.core == Accepted(s, valid, r).0.core
    ensures Run(valid, before + [r]).1 == if Accepted(s, valid, r).1 then Run(valid, before).1 + [r] else Run(valid, before).1
  {
    hide Judged, Taken;
    assert (before + [r])[..|before|] == before;
  }

  lemma {:induction false} EncodedSnoc(codec: Codec, events: seq<Received>, r: Received)
    ensures Encoded(codec, events + [r]) == Encoded(codec, events) + (codec.put(r) + [NEWLINE])
  {
    if events == [] {
      assert events + [r] == [r];
      assert Encoded(codec, [r]) == codec.put(r) + [NEWLINE] + Encoded(codec, []);
    } else {
      assert (events + [r])[1..] == events[1..] + [r];
      EncodedSnoc(codec, events[1..], r);
    }
  }

  /** Fewer events than were accepted cannot rebuild the state. */
  lemma RebuiltExactly(valid: Record -> bool, received: seq<Received>, kept: seq<Received>, complete: bool)
    requires |Run(valid, received).1| <= U64_MAX
    requires if complete then kept == Run(valid, received).1 else |kept| < |Run(valid, received).1|
    ensures Run(valid, kept).0.core == Run(valid, received).0.core <==> complete
  {
    hide Run, Bounded, Suffix;
    ReplayRebuilds(valid, received);
    RunBounded(valid, received);
    RunBounded(valid, kept);
    RunShorter(valid, kept);
  }
}
