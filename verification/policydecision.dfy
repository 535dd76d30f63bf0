/** Decisions over a compiled plan: response recording, gate evaluation, and the network threshold. */
module PolicyDecision {
  import opened Wrappers
  import opened Bytes
  import opened Sequences
  import opened PolicyTree
  import opened PolicyCompile
  import Sharing

  datatype PolicyError =
    | EnvelopeNotAuthenticated
    | UnknownNetworkLeaf(id: U8)
    | DuplicateResponse(id: U8)
    | FactorsNotSatisfied
    | RootNotAuthenticated
    | AlreadyReleased
    | SharingFailed(error: Sharing.Error)

  // ----- gate evaluation -----

  function Selected(children: seq<nat>, values: seq<bool>): nat {
    if children == [] then 0
    else (if children[0] < |values| && values[children[0]] then 1 else 0) + Selected(children[1..], values)
  }

  /** The value of one gate from the values of the gates before it; dangling edges fail. */
  predicate GateValue(gate: Gate, values: seq<bool>, responses: seq<bool>) {
    match gate
    case LeafGate(i) => i < |responses| && responses[i]
    case ThresholdGate(required, children) =>
      && 0 < required <= |children|
      && (forall i :: 0 <= i < |children| ==> children[i] < |values|)
      && Selected(children, values) >= required
  }

  method EvaluateGate(gate: Gate, values: seq<bool>, responses: seq<bool>) returns (result: bool)
    ensures result == GateValue(gate, values, responses)
  {
    match gate {
      case LeafGate(i) =>
        return i < |responses| && responses[i];
      case ThresholdGate(required, children) =>
        if required == 0 || required > |children| {
          return false;
        }
        var i, successes, valid := 0, 0, true;
        while i < |children|
          invariant 0 <= i <= |children|
          invariant successes + Selected(children[i..], values) == Selected(children, values)
          invariant valid <==> forall k :: 0 <= k < i ==> children[k] < |values|
        {
          assert children[i..][1..] == children[i + 1..];
          if children[i] < |values| {
            if values[children[i]] {
              successes := successes + 1;
            }
          } else {
            valid := false;
          }
          i := i + 1;
        }
        return valid && successes >= required;
    }
  }

  /** Values of the first `n` gates, each from those before it. */
  function Values(gates: seq<Gate>, responses: seq<bool>, n: nat): (values: seq<bool>)
    requires n <= |gates|
    ensures |values| == n
    decreases n
  {
    if n == 0 then []
    else var before := Values(gates, responses, n - 1);
         before + [GateValue(gates[n - 1], before, responses)]
  }

  method EvaluateNetwork(gates: seq<Gate>, responses: seq<bool>) returns (result: bool)
    ensures result <==> gates != [] && Values(gates, responses, |gates|)[|gates| - 1]
  {
    var values := [];
    var i := 0;
    while i < |gates|
      invariant 0 <= i <= |gates|
      invariant values == Values(gates, responses, i)
    {
      var value := EvaluateGate(gates[i], values, responses);
      values := values + [value];
      i := i + 1;
    }
    result := if values == [] then false else values[|values| - 1];
  }

  lemma {:induction false} ValueAt(gates: seq<Gate>, responses: seq<bool>, n: nat, i: nat)
    requires i < n <= |gates|
    ensures Values(gates, responses, n)[i] == GateValue(gates[i], Values(gates, responses, i), responses)
    decreases n
  {
    hide GateValue;
    if i < n - 1 {
      ValueAt(gates, responses, n - 1, i);
    }
  }

  lemma {:induction false} ValuesPrefix(gates: seq<Gate>, responses: seq<bool>, n: nat, m: nat)
    requires n <= m <= |gates|
    ensures Values(gates, responses, m)[..n] == Values(gates, responses, n)
    decreases m
  {
    hide GateValue;
    if n < m {
      ValuesPrefix(gates, responses, n, m - 1);
    }
  }

  // ----- compiled decisions mean the source tree -----

  /** Each response in the subtree's slice says whether that leaf's identity is available. */
  predicate Reports(leaves: seq<LeafEntry>, responses: seq<bool>, l: nat, available: set<U8>) {
    && l + |leaves| <= |responses|
    && forall i :: 0 <= i < |leaves| ==> responses[l + i] == (leaves[i].0 in available)
  }

  lemma ReportsConcat(a: seq<LeafEntry>, b: seq<LeafEntry>, responses: seq<bool>, l: nat, available: set<U8>)
    ensures Reports(a + b, responses, l, available)
       <==> Reports(a, responses, l, available) && Reports(b, responses, l + |a|, available)
  {
    var ab := a + b;
    if Reports(ab, responses, l, available) {
      assert forall i :: 0 <= i < |a| ==> ab[i] == a[i];
      forall i | 0 <= i < |b| ensures responses[l + |a| + i] == (b[i].0 in available) {
        assert ab[|a| + i] == b[i];
      }
    }
    if Reports(a, responses, l, available) && Reports(b, responses, l + |a|, available) {
      forall i | 0 <= i < |ab| ensures responses[l + i] == (ab[i].0 in available) {
        if i >= |a| {
          assert b[i - |a|] == ab[i];
        }
      }
    }
  }

  /** The root gate of every subtree evaluates to the tree's meaning. */
  lemma {:induction false} NodeValue(node: NetworkNode, gates: seq<Gate>, leaves: seq<LeafEntry>, g: nat, l: nat,
                                     responses: seq<bool>, available: set<U8>, n: nat)
    requires LaidOut(node, gates, leaves, g, l) && ThresholdsValid(node)
    requires Reports(Leaves(node), responses, l, available)
    requires g + Size(node) <= n <= |gates|
    ensures Values(gates, responses, n)[g + Size(node) - 1] == Satisfied(node, available)
    decreases node, 1
  {
    var root := g + Size(node) - 1;
    ValueAt(gates, responses, n, root);
    match node {
      case Leaf(id, provider) =>
        hide At;
        AtSingle(gates, g, LeafGate(l));
        assert Leaves(node)[0] == (id, provider);
      case Threshold(_, required, children) =>
        hide LaidOut, ForestLaidOut, Reports;
        ThresholdLayout(node, gates, leaves, g, l);
        ForestValues(children, gates, leaves, g, l, responses, available, root);
    }
  }

  lemma {:induction false} ForestValues(nodes: seq<NetworkNode>, gates: seq<Gate>, leaves: seq<LeafEntry>, g: nat, l: nat,
                                        responses: seq<bool>, available: set<U8>, n: nat)
    requires ForestLaidOut(nodes, gates, leaves, g, l) && ForestValid(nodes)
    requires Reports(ForestLeaves(nodes), responses, l, available)
    requires g + ForestSize(nodes) <= n <= |gates|
    ensures Selected(ForestRoots(nodes, g), Values(gates, responses, n)) == SatisfiedCount(nodes, available)
    decreases nodes, 0
  {
    hide LaidOut, ForestLaidOut, Reports, GateValue, Values;
    if nodes != [] {
      var node, rest := nodes[0], nodes[1..];
      ForestLayout(nodes, gates, leaves, g, l);
      ReportsConcat(Leaves(node), ForestLeaves(rest), responses, l, available);
      NodeValue(node, gates, leaves, g, l, responses, available, n);
      ForestValues(rest, gates, leaves, g + Size(node), l + |Leaves(node)|, responses, available, n);
      var roots := ForestRoots(nodes, g);
      assert roots[0] == g + Size(node) - 1 && roots[1..] == ForestRoots(rest, g + Size(node));
    }
  }

  // ----- recording responses -----

  lemma LeafIdsConcat(a: seq<LeafEntry>, b: seq<LeafEntry>)
    ensures IdsOf(a + b) == IdsOf(a) + IdsOf(b)
  {}

  /** Leaf identities are among the node identities, and inherit their freshness. */
  lemma {:induction false} LeafIdsFresh(node: NetworkNode, used: set<U8>)
    requires Fresh(Ids(node), used)
    ensures Fresh(IdsOf(Leaves(node)), used)
    ensures Elements(IdsOf(Leaves(node))) <= Elements(Ids(node))
    decreases node, 1
  {
    match node {
      case Leaf(id, _) =>
        assert IdsOf(Leaves(node)) == Ids(node);
      case Threshold(id, _, children) =>
        FreshConcat([id], ForestIds(children), used);
        ForestLeafIdsFresh(children, used + Elements([id]));
        FreshLess(IdsOf(ForestLeaves(children)), used, used + Elements([id]));
    }
  }

  lemma FreshLess<T>(s: seq<T>, used: set<T>, more: set<T>)
    requires used <= more && Fresh(s, more)
    ensures Fresh(s, used)
  {}

  lemma {:induction false} ForestLeafIdsFresh(nodes: seq<NetworkNode>, used: set<U8>)
    requires Fresh(ForestIds(nodes), used)
    ensures Fresh(IdsOf(ForestLeaves(nodes)), used)
    ensures Elements(IdsOf(ForestLeaves(nodes))) <= Elements(ForestIds(nodes))
    decreases nodes, 0
  {
    if nodes != [] {
      hide Fresh;
      var node, rest := nodes[0], nodes[1..];
      FreshConcat(Ids(node), ForestIds(rest), used);
      LeafIdsFresh(node, used);
      ForestLeafIdsFresh(rest, used + Elements(Ids(node)));
      LeafIdsConcat(Leaves(node), ForestLeaves(rest));
      var a, b := IdsOf(Leaves(node)), IdsOf(ForestLeaves(rest));
      FreshLess(b, used + Elements(a), used + Elements(Ids(node)));
      FreshConcat(a, b, used);
    } else {
      assert IdsOf(ForestLeaves(nodes)) == [];
    }
  }

  lemma PolicyLeafIds(policy: ProductionPolicy)
    requires ValidPolicy(policy)
    ensures Distinct(IdsOf(policy.plan.leaves)) && policy.tpmNodeId !in IdsOf(policy.plan.leaves)
  {
    LeafIdsFresh(policy.network, {policy.tpmNodeId});
  }

  /** Count each observation once; a rejection changes nothing. */
  method RecordResponse(responses: array<bool>, index: nat) returns (accepted: bool)
    modifies responses
    ensures accepted <==> index < responses.Length && !old(responses[..])[index]
    ensures responses[..] == if accepted then old(responses[..])[index := true] else old(responses[..])
  {
    if index >= responses.Length || responses[index] {
      accepted := false;
    } else {
      responses[index] := true;
      accepted := true;
    }
  }

  /** Position of the first leaf with this identity. */
  method Position(leaves: seq<LeafEntry>, id: U8) returns (index: Option<nat>)
    ensures index.None? <==> id !in IdsOf(leaves)
    ensures index.Some? ==> index.value < |leaves| && leaves[index.value].0 == id
  {
    ghost var ids := IdsOf(leaves);
    var i := 0;
    while i < |leaves|
      invariant 0 <= i <= |leaves|
      invariant forall k :: 0 <= k < i ==> ids[k] != id
    {
      if leaves[i].0 == id {
        assert ids[i] == id;
        return Some(i);
      }
      i := i + 1;
    }
    index := None;
  }

  /** The first identity, in order, that is unknown or repeats an earlier one. */
  function Rejected(ids: seq<U8>, available: seq<U8>, k: nat): Option<PolicyError>
    requires k <= |available|
    decreases |available| - k
  {
    if k == |available| then None
    else if available[k] !in ids then Some(UnknownNetworkLeaf(available[k]))
    else if available[k] in available[..k] then Some(DuplicateResponse(available[k]))
    else Rejected(ids, available, k + 1)
  }

  lemma {:induction false} RejectedExact(ids: seq<U8>, available: seq<U8>, k: nat)
    requires k <= |available|
    ensures Rejected(ids, available, k).None?
       <==> && (forall i :: k <= i < |available| ==> available[i] in ids)
            && (forall i, j :: 0 <= i < j < |available| && k <= j ==> available[i] != available[j])
    decreases |available| - k
  {
    if k < |available| {
      RejectedExact(ids, available, k + 1);
    }
  }

  /** Response `k` names no known leaf or repeats an earlier response. */
  predicate Offends(ids: seq<U8>, available: seq<U8>, k: nat)
    requires k < |available|
  {
    available[k] !in ids || available[k] in available[..k]
  }

  predicate FirstOffence(ids: seq<U8>, available: seq<U8>, k: nat) {
    k < |available| && Offends(ids, available, k) && forall i :: 0 <= i < k ==> !Offends(ids, available, i)
  }

  function OffenceError(ids: seq<U8>, id: U8): PolicyError {
    if id in ids then DuplicateResponse(id) else UnknownNetworkLeaf(id)
  }

  /** The earliest offending response decides the refusal. */
  lemma {:induction false} RejectedFirst(ids: seq<U8>, available: seq<U8>, k: nat, first: nat)
    requires k <= first && FirstOffence(ids, available, first)
    ensures Rejected(ids, available, k) == Some(OffenceError(ids, available[first]))
    decreases first - k
  {
    if k < first {
      assert !Offends(ids, available, k);
      RejectedFirst(ids, available, k + 1, first);
    }
  }

  lemma {:induction false} SomeFirstOffence(ids: seq<U8>, available: seq<U8>, n: nat)
    requires n <= |available|
    ensures (forall i :: 0 <= i < n ==> !Offends(ids, available, i)) || (exists k: nat :: FirstOffence(ids, available, k))
  {
    if n > 0 {
      SomeFirstOffence(ids, available, n - 1);
      if (forall i :: 0 <= i < n - 1 ==> !Offends(ids, available, i)) && Offends(ids, available, n - 1) {
        assert FirstOffence(ids, available, n - 1);
      }
    }
  }

  function Responses(leaves: seq<LeafEntry>, available: seq<U8>): Result<seq<bool>, PolicyError> {
    match Rejected(IdsOf(leaves), available, 0)
    case Some(error) => Failure(error)
    case None => Success(seq(|leaves|, i requires 0 <= i < |leaves| => leaves[i].0 in available))
  }

  method CollectResponses(leaves: seq<LeafEntry>, available: seq<U8>) returns (result: Result<seq<bool>, PolicyError>)
    requires Distinct(IdsOf(leaves))
    ensures result == Responses(leaves, available)
  {
    ghost var ids := IdsOf(leaves);
    var responses := new bool[|leaves|](_ => false);
    var k := 0;
    while k < |available|
      invariant 0 <= k <= |available|
      invariant forall i :: 0 <= i < |leaves| ==> (responses[i] <==> leaves[i].0 in available[..k])
      invariant Rejected(ids, available, 0) == Rejected(ids, available, k)
    {
      var id := available[k];
      var index := Position(leaves, id);
      if index.None? {
        return Failure(UnknownNetworkLeaf(id));
      }
      var accepted := RecordResponse(responses, index.value);
      if !accepted {
        return Failure(DuplicateResponse(id));
      }
      assert available[..k + 1] == available[..k] + [id];
      forall i | 0 <= i < |leaves| && i != index.value ensures leaves[i].0 != id {
        assert ids[i] != ids[index.value];
      }
      k := k + 1;
    }
    assert available[..k] == available;
    assert responses[..] == Responses(leaves, available).value;
    result := Success(responses[..]);
  }

  // ----- the network threshold -----

  function SatisfiedBy(policy: ProductionPolicy, available: seq<U8>): Result<bool, PolicyError>
    requires ValidPolicy(policy)
  {
    match Responses(policy.plan.leaves, available)
    case Failure(error) => Failure(error)
    case Success(responses) =>
      Success(Values(policy.plan.gates, responses, |policy.plan.gates|)[|policy.plan.gates| - 1])
  }

  method NetworkSatisfied(policy: ProductionPolicy, available: seq<U8>) returns (result: Result<bool, PolicyError>)
    requires ValidPolicy(policy)
    ensures result == SatisfiedBy(policy, available)
  {
    PolicyLeafIds(policy);
    var responses := CollectResponses(policy.plan.leaves, available);
    if responses.Failure? {
      return Failure(responses.error);
    }
    var satisfied := EvaluateNetwork(policy.plan.gates, responses.value);
    result := Success(satisfied);
  }

  /** The identities the decision accepts: known leaves, each at most once. */
  predicate Observable(policy: ProductionPolicy, available: seq<U8>) {
    && Distinct(available)
    && forall id :: id in available ==> id in IdsOf(policy.plan.leaves)
  }

  /** Compiled decisions preserve meaning by identity. On any list of distinct known leaves the decision equals
      the recursive threshold semantics of the source tree on that set; on any other list it is refused. */
  lemma DecisionMeansTree(policy: ProductionPolicy, available: seq<U8>)
    requires ValidPolicy(policy)
    ensures SatisfiedBy(policy, available).Success? <==> Observable(policy, available)
    ensures Observable(policy, available) ==>
              SatisfiedBy(policy, available) == Success(Satisfied(policy.network, Elements(available)))
  {
    var node, leaves := policy.network, policy.plan.leaves;
    RejectedExact(IdsOf(leaves), available, 0);
    if Observable(policy, available) {
      hide Values, Gates, Leaves;
      var responses := Responses(leaves, available).value;
      AtWhole(policy.plan.gates, Gates(node, 0, 0));
      AtWhole(leaves, Leaves(node));
      assert Reports(Leaves(node), responses, 0, Elements(available));
      NodeValue(node, policy.plan.gates, leaves, 0, 0, responses, Elements(available), |policy.plan.gates|);
    }
  }

  /** A list is refused for its earliest unknown or repeated identity, and there is one exactly when it is not observable. */
  lemma ResponsesRefused(policy: ProductionPolicy, available: seq<U8>)
    ensures Observable(policy, available) <==> !exists k: nat :: FirstOffence(IdsOf(policy.plan.leaves), available, k)
    ensures forall k: nat :: FirstOffence(IdsOf(policy.plan.leaves), available, k) ==>
              Responses(policy.plan.leaves, available) == Failure(OffenceError(IdsOf(policy.plan.leaves), available[k]))
    ensures ValidPolicy(policy) ==>
              forall k: nat :: FirstOffence(IdsOf(policy.plan.leaves), available, k) ==>
                SatisfiedBy(policy, available) == Failure(OffenceError(IdsOf(policy.plan.leaves), available[k]))
  {
    hide Values, ValidPolicy, Rejected;
    var ids := IdsOf(policy.plan.leaves);
    forall k: nat | FirstOffence(ids, available, k) ensures Rejected(ids, available, 0) == Some(OffenceError(ids, available[k])) {
      RejectedFirst(ids, available, 0, k);
    }
    SomeFirstOffence(ids, available, |available|);
    NoOffence(policy, available);
  }

  lemma NoOffence(policy: ProductionPolicy, available: seq<U8>)
    ensures Observable(policy, available) <==> forall i :: 0 <= i < |available| ==> !Offends(IdsOf(policy.plan.leaves), available, i)
  {
    hide IdsOf;
    if forall i :: 0 <= i < |available| ==> !Offends(IdsOf(policy.plan.leaves), available, i) {
      forall i, j | 0 <= i < j < |available| ensures available[i] != available[j] {
        assert !Offends(IdsOf(policy.plan.leaves), available, j);
        assert available[..j][i] == available[i];
      }
      forall id | id in available ensures id in IdsOf(policy.plan.leaves) {
        var i :| 0 <= i < |available| && available[i] == id;
        assert !Offends(IdsOf(policy.plan.leaves), available, i);
      }
    }
  }

  /** So the decision depends only on the set, and more leaves never turn it off. */
  lemma DecisionMonotone(policy: ProductionPolicy, fewer: seq<U8>, more: seq<U8>)
    requires ValidPolicy(policy) && Observable(policy, fewer) && Observable(policy, more)
    requires Elements(fewer) <= Elements(more) && SatisfiedBy(policy, fewer) == Success(true)
    ensures SatisfiedBy(policy, more) == Success(true)
  {
    hide SatisfiedBy;
    DecisionMeansTree(policy, fewer);
    DecisionMeansTree(policy, more);
    SatisfiedMonotone(policy.network, Elements(fewer), Elements(more));
  }
}
