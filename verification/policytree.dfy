/** Network policy trees: structure, meaning, and the postorder plan they denote. */
module PolicyTree {
  import opened Bytes
  import opened Sequences

  datatype NetworkNode =
    | Leaf(id: U8, provider: Bytes32)
    | Threshold(id: U8, required: U8, children: seq<NetworkNode>)

  /** One entry of the leaf list: node identity and provider identity. */
  type LeafEntry = (U8, Bytes32)

  datatype Gate =
    | LeafGate(responseIndex: nat)
    | ThresholdGate(required: nat, children: seq<nat>)

  // ----- structure -----

  function Size(node: NetworkNode): (n: nat)
    ensures n > 0
    decreases node, 1
  {
    match node
    case Leaf(_, _) => 1
    case Threshold(_, _, children) => 1 + ForestSize(children)
  }

  function ForestSize(nodes: seq<NetworkNode>): nat
    decreases nodes, 0
  {
    if nodes == [] then 0 else Size(nodes[0]) + ForestSize(nodes[1..])
  }

  function Depth(node: NetworkNode): (n: nat)
    ensures n > 0
    decreases node, 1
  {
    match node
    case Leaf(_, _) => 1
    case Threshold(_, _, children) => 1 + ForestDepth(children)
  }

  function Max(a: nat, b: nat): nat { if a < b then b else a }

  function ForestDepth(nodes: seq<NetworkNode>): nat
    decreases nodes, 0
  {
    if nodes == [] then 0 else Max(Depth(nodes[0]), ForestDepth(nodes[1..]))
  }

  /** Leaves in source order. */
  function Leaves(node: NetworkNode): seq<LeafEntry>
    decreases node, 1
  {
    match node
    case Leaf(id, provider) => [(id, provider)]
    case Threshold(_, _, children) => ForestLeaves(children)
  }

  function ForestLeaves(nodes: seq<NetworkNode>): seq<LeafEntry>
    decreases nodes, 0
  {
    if nodes == [] then [] else Leaves(nodes[0]) + ForestLeaves(nodes[1..])
  }

  /** Every node identity, parents before children. */
  function Ids(node: NetworkNode): seq<U8>
    decreases node, 1
  {
    match node
    case Leaf(id, _) => [id]
    case Threshold(id, _, children) => [id] + ForestIds(children)
  }

  function ForestIds(nodes: seq<NetworkNode>): seq<U8>
    decreases nodes, 0
  {
    if nodes == [] then [] else Ids(nodes[0]) + ForestIds(nodes[1..])
  }

  function Providers(leaves: seq<LeafEntry>): (providers: seq<Bytes32>)
    ensures |providers| == |leaves|
  {
    seq(|leaves|, i requires 0 <= i < |leaves| => leaves[i].1)
  }

  /** Every threshold is between one and the number of children. */
  predicate ThresholdsValid(node: NetworkNode)
    decreases node, 1
  {
    match node
    case Leaf(_, _) => true
    case Threshold(_, required, children) => 0 < required <= |children| && ForestValid(children)
  }

  predicate ForestValid(nodes: seq<NetworkNode>)
    decreases nodes, 0
  {
    nodes == [] || (ThresholdsValid(nodes[0]) && ForestValid(nodes[1..]))
  }

  // ----- meaning -----

  /** Direct recursive threshold semantics over a set of available leaf identities. */
  predicate Satisfied(node: NetworkNode, available: set<U8>)
    decreases node, 1
  {
    match node
    case Leaf(id, _) => id in available
    case Threshold(_, required, children) => SatisfiedCount(children, available) >= required
  }

  function SatisfiedCount(nodes: seq<NetworkNode>, available: set<U8>): (n: nat)
    ensures n <= |nodes|
    decreases nodes, 0
  {
    if nodes == [] then 0
    else (if Satisfied(nodes[0], available) then 1 else 0) + SatisfiedCount(nodes[1..], available)
  }

  lemma {:induction false} SatisfiedMonotone(node: NetworkNode, fewer: set<U8>, more: set<U8>)
    requires fewer <= more && Satisfied(node, fewer)
    ensures Satisfied(node, more)
    decreases node, 1
  {
    if node.Threshold? {
      CountMonotone(node.children, fewer, more);
    }
  }

  lemma {:induction false} CountMonotone(nodes: seq<NetworkNode>, fewer: set<U8>, more: set<U8>)
    requires fewer <= more
    ensures SatisfiedCount(nodes, fewer) <= SatisfiedCount(nodes, more)
    decreases nodes, 0
  {
    if nodes != [] {
      CountMonotone(nodes[1..], fewer, more);
      if Satisfied(nodes[0], fewer) {
        SatisfiedMonotone(nodes[0], fewer, more);
      }
    }
  }

  /** No valid policy is satisfied by nothing. */
  lemma {:induction false} NothingSatisfied(node: NetworkNode)
    requires ThresholdsValid(node)
    ensures !Satisfied(node, {})
    decreases node, 1
  {
    if node.Threshold? {
      NothingCounted(node.children);
    }
  }

  lemma {:induction false} NothingCounted(nodes: seq<NetworkNode>)
    requires ForestValid(nodes)
    ensures SatisfiedCount(nodes, {}) == 0
    decreases nodes, 0
  {
    if nodes != [] {
      NothingSatisfied(nodes[0]);
      NothingCounted(nodes[1..]);
    }
  }

  // ----- the postorder plan -----

  /** Gates of the subtree when `g` gates and `l` leaves come before it. */
  function Gates(node: NetworkNode, g: nat, l: nat): (gates: seq<Gate>)
    ensures |gates| == Size(node)
    decreases node, 1
  {
    match node
    case Leaf(_, _) => [LeafGate(l)]
    case Threshold(_, required, children) =>
      ForestGates(children, g, l) + [ThresholdGate(required, ForestRoots(children, g))]
  }

  function ForestGates(nodes: seq<NetworkNode>, g: nat, l: nat): (gates: seq<Gate>)
    ensures |gates| == ForestSize(nodes)
    decreases nodes, 0
  {
    if nodes == [] then []
    else Gates(nodes[0], g, l) + ForestGates(nodes[1..], g + Size(nodes[0]), l + |Leaves(nodes[0])|)
  }

  /** Gate indices of the roots of a forest laid out from gate `g`. */
  function ForestRoots(nodes: seq<NetworkNode>, g: nat): (roots: seq<nat>)
    ensures |roots| == |nodes|
    ensures forall i :: 0 <= i < |roots| ==> g <= roots[i] < g + ForestSize(nodes)
    decreases nodes, 0
  {
    if nodes == [] then [] else [g + Size(nodes[0]) - 1] + ForestRoots(nodes[1..], g + Size(nodes[0]))
  }

  /** The subtree's gates occupy gates[g..] and its leaves occupy leaves[l..]. */
  predicate LaidOut(node: NetworkNode, gates: seq<Gate>, leaves: seq<LeafEntry>, g: nat, l: nat) {
    At(gates, g, Gates(node, g, l)) && At(leaves, l, Leaves(node))
  }

  predicate ForestLaidOut(nodes: seq<NetworkNode>, gates: seq<Gate>, leaves: seq<LeafEntry>, g: nat, l: nat) {
    At(gates, g, ForestGates(nodes, g, l)) && At(leaves, l, ForestLeaves(nodes))
  }

  lemma ForestLayout(nodes: seq<NetworkNode>, gates: seq<Gate>, leaves: seq<LeafEntry>, g: nat, l: nat)
    requires nodes != []
    ensures ForestLaidOut(nodes, gates, leaves, g, l)
       <==> && LaidOut(nodes[0], gates, leaves, g, l)
            && ForestLaidOut(nodes[1..], gates, leaves, g + Size(nodes[0]), l + |Leaves(nodes[0])|)
  {
    hide At, Gates, Leaves;
    var node, rest := nodes[0], nodes[1..];
    AtConcat(gates, g, Gates(node, g, l), ForestGates(rest, g + Size(node), l + |Leaves(node)|));
    AtConcat(leaves, l, Leaves(node), ForestLeaves(rest));
  }

  lemma ThresholdLayout(node: NetworkNode, gates: seq<Gate>, leaves: seq<LeafEntry>, g: nat, l: nat)
    requires node.Threshold?
    ensures LaidOut(node, gates, leaves, g, l)
       <==> && ForestLaidOut(node.children, gates, leaves, g, l)
            && g + ForestSize(node.children) < |gates|
            && gates[g + ForestSize(node.children)] == ThresholdGate(node.required, ForestRoots(node.children, g))
  {
    hide At, ForestGates, ForestLeaves;
    var last := ThresholdGate(node.required, ForestRoots(node.children, g));
    AtConcat(gates, g, ForestGates(node.children, g, l), [last]);
    AtSingle(gates, g + ForestSize(node.children), last);
  }

  predicate Covered(leaves: seq<LeafEntry>, available: set<U8>) {
    forall i :: 0 <= i < |leaves| ==> leaves[i].0 in available
  }

  /** All leaves together satisfy every valid tree. */
  lemma {:induction false} EverythingSatisfied(node: NetworkNode, available: set<U8>)
    requires ThresholdsValid(node) && Covered(Leaves(node), available)
    ensures Satisfied(node, available)
    decreases node, 1
  {
    if node.Leaf? {
      assert Leaves(node)[0].0 == node.id;
    } else {
      EverythingCounted(node.children, available);
    }
  }

  lemma {:induction false} EverythingCounted(nodes: seq<NetworkNode>, available: set<U8>)
    requires ForestValid(nodes) && Covered(ForestLeaves(nodes), available)
    ensures SatisfiedCount(nodes, available) == |nodes|
    decreases nodes, 0
  {
    if nodes != [] {
      var first, rest := Leaves(nodes[0]), ForestLeaves(nodes[1..]);
      assert forall i :: 0 <= i < |first| ==> first[i] == (first + rest)[i];
      assert forall i :: 0 <= i < |rest| ==> rest[i] == (first + rest)[|first| + i];
      EverythingSatisfied(nodes[0], available);
      EverythingCounted(nodes[1..], available);
    }
  }

  lemma {:induction false} ValidHasLeaves(node: NetworkNode)
    requires ThresholdsValid(node)
    ensures |Leaves(node)| > 0
    decreases node
  {
    if node.Threshold? {
      ValidHasLeaves(node.children[0]);
    }
  }

  lemma {:induction false} ChildCount(nodes: seq<NetworkNode>)
    ensures |nodes| <= ForestSize(nodes)
  {
    if nodes != [] {
      ChildCount(nodes[1..]);
    }
  }

  lemma {:induction false} ForestSnoc(nodes: seq<NetworkNode>, node: NetworkNode)
    ensures ForestSize(nodes + [node]) == ForestSize(nodes) + Size(node)
    ensures ForestDepth(nodes + [node]) == Max(ForestDepth(nodes), Depth(node))
  {
    if nodes == [] {
      assert nodes + [node] == [node];
      assert [node][1..] == [];
    } else {
      assert (nodes + [node])[1..] == nodes[1..] + [node];
      ForestSnoc(nodes[1..], node);
    }
  }
}
