/** The gate that checks context and order before a credential leaves the engine. */
module ReleaseGates {
  import opened Bytes

  /** The four checks, in the order in which the gate accepts them. */
  datatype Check =
    | NetworkCheck(context: Bytes48)
    | TpmCheck(context: Bytes48, live: bool)
    | PayloadCheck(context: Bytes48)
    | ReleaseCheck(context: Bytes48, withinDeadline: bool)

  function Order(check: Check): (n: nat)
    ensures n < 4
  {
    match check
    case NetworkCheck(_) => 0
    case TpmCheck(_, _) => 1
    case PayloadCheck(_) => 2
    case ReleaseCheck(_, _) => 3
  }

  /** The check's own condition, apart from its place in the order. */
  predicate Meets(context: Bytes48, requireLive: bool, check: Check) {
    && check.context == context
    && match check
       case TpmCheck(_, live) => !requireLive || live
       case ReleaseCheck(_, withinDeadline) => withinDeadline
       case _ => true
  }

  /** A gate that accepted `phase` checks accepts this one next. */
  predicate Accepts(context: Bytes48, requireLive: bool, phase: nat, check: Check) {
    phase == Order(check) && Meets(context, requireLive, check)
  }

  class ReleaseState {
    const context: Bytes48
    const requireLive: bool
    var phase: nat

    constructor (context: Bytes48, requireLive: bool)
      ensures this.context == context && this.requireLive == requireLive && phase == 0
    {
      this.context, this.requireLive, phase := context, requireLive, 0;
    }

    method Matches(other: Bytes48) returns (same: bool)
      ensures same == (context == other)
    {
      var i := 0;
      while i < 48
        invariant 0 <= i <= 48
        invariant forall j :: 0 <= j < i ==> context[j] == other[j]
      {
        if context[i] != other[i] {
          return false;
        }
        i := i + 1;
      }
      same := true;
    }

    method Advance(other: Bytes48, expected: nat, live: bool) returns (accepted: bool)
      requires expected < 4
      modifies this
      ensures accepted == (old(phase) == expected && context == other && (expected != 1 || !requireLive || live))
      ensures phase == if accepted then expected + 1 else old(phase)
    {
      var same := Matches(other);
      if !same || phase != expected || (expected == 1 && requireLive && !live) {
        return false;
      }
      phase := expected + 1;
      accepted := true;
    }

    method Network(other: Bytes48) returns (accepted: bool)
      modifies this
      ensures accepted == Accepts(context, requireLive, old(phase), NetworkCheck(other))
      ensures phase == if accepted then old(phase) + 1 else old(phase)
    {
      accepted := Advance(other, 0, false);
    }

    method Tpm(other: Bytes48, live: bool) returns (accepted: bool)
      modifies this
      ensures accepted == Accepts(context, requireLive, old(phase), TpmCheck(other, live))
      ensures phase == if accepted then old(phase) + 1 else old(phase)
    {
      accepted := Advance(other, 1, live);
    }

    method Payload(other: Bytes48) returns (accepted: bool)
      modifies this
      ensures accepted == Accepts(context, requireLive, old(phase), PayloadCheck(other))
      ensures phase == if accepted then old(phase) + 1 else old(phase)
    {
      accepted := Advance(other, 2, false);
    }

    method Release(other: Bytes48, withinDeadline: bool) returns (accepted: bool)
      modifies this
      ensures accepted == Accepts(context, requireLive, old(phase), ReleaseCheck(other, withinDeadline))
      ensures phase == if accepted then old(phase) + 1 else old(phase)
    {
      if !withinDeadline {
        return false;
      }
      accepted := Advance(other, 3, false);
    }
  }

  // ----- arbitrary sequences of checks -----

  /** The checks a fresh gate accepts out of a sequence; the phase is their number. */
  function Accepted(context: Bytes48, requireLive: bool, checks: seq<Check>): seq<Check> {
    if checks == [] then []
    else
      var before := Accepted(context, requireLive, checks[..|checks| - 1]);
      var check := checks[|checks| - 1];
      if Accepts(context, requireLive, |before|, check) then before + [check] else before
  }

  /** `part` occurs in `whole` in this order. */
  predicate Subsequence(part: seq<Check>, whole: seq<Check>) {
    part == [] ||
    (whole != [] &&
     if part[|part| - 1] == whole[|whole| - 1] && Subsequence(part[..|part| - 1], whole[..|whole| - 1])
     then true else Subsequence(part, whole[..|whole| - 1]))
  }

  /** Whatever is asked of the gate, in any order and as often as one likes: what it accepts is a prefix of the one order
      network, tpm, payload, release, each met once and asked in that order. So phase 4 means that all four were met in
      order, and the gate opens at most once. */
  lemma {:induction false} GateOrder(context: Bytes48, requireLive: bool, checks: seq<Check>)
    ensures var accepted := Accepted(context, requireLive, checks);
            && |accepted| <= 4
            && Subsequence(accepted, checks)
            && forall i :: 0 <= i < |accepted| ==> Order(accepted[i]) == i && Meets(context, requireLive, accepted[i])
  {
    if checks != [] {
      GateOrder(context, requireLive, checks[..|checks| - 1]);
    }
  }

  /** Conversely, a sequence that contains the four checks in order opens the gate, whatever else it contains. */
  lemma {:induction false} GateOpens(context: Bytes48, requireLive: bool, checks: seq<Check>, path: seq<Check>)
    requires Subsequence(path, checks)
    requires forall i :: 0 <= i < |path| ==> Order(path[i]) == i && Meets(context, requireLive, path[i])
    ensures |Accepted(context, requireLive, checks)| >= |path|
    decreases |checks|
  {
    if path != [] {
      var n := |checks| - 1;
      GateOrder(context, requireLive, checks[..n]);
      if path[|path| - 1] == checks[n] && Subsequence(path[..|path| - 1], checks[..n]) {
        GateOpens(context, requireLive, checks[..n], path[..|path| - 1]);
      } else {
        GateOpens(context, requireLive, checks[..n], path);
      }
    }
  }
}
