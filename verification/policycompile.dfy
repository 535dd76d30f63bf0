/** The policy compiler, its certificate checker, and policy admission. */
module PolicyCompile {
  import opened Wrappers
  import opened Bytes
  import opened Sequences
  import opened PolicyTree

  const MAX_NODES: nat := 31
  const MAX_DEPTH: nat := 4

  datatype Mode = NetworkBound | Attested

  datatype CompileError =
    | TooManyNodes
    | TooDeep
    | DuplicateNodeId(id: U8)
    | DuplicateProvider
    | InvalidThreshold
    | InvalidCompilation

  datatype Plan = Plan(gates: seq<Gate>, leaves: seq<LeafEntry>)

  datatype ProductionPolicy = ProductionPolicy(mode: Mode, tpmNodeId: U8, network: NetworkNode, plan: Plan)

  // ----- what the compiler accepts -----

  /** No element repeats and none was used before. */
  predicate Fresh<T(==)>(s: seq<T>, used: set<T>) {
    && (forall i, j :: 0 <= i < j < |s| ==> s[i] != s[j])
    && (forall i :: 0 <= i < |s| ==> s[i] !in used)
  }

  lemma FreshConcat<T>(a: seq<T>, b: seq<T>, used: set<T>)
    ensures Fresh(a + b, used) <==> Fresh(a, used) && Fresh(b, used + Elements(a))
    ensures Elements(a + b) == Elements(a) + Elements(b)
  {
    var ab := a + b;
    assert forall i :: 0 <= i < |a| ==> ab[i] == a[i];
    assert forall i :: 0 <= i < |b| ==> ab[|a| + i] == b[i];
    if Fresh(ab, used) {
      forall i, k | 0 <= i < |b| && 0 <= k < |a| ensures b[i] != a[k] {
        assert ab[k] != ab[|a| + i];
      }
    }
    if Fresh(a, used) && Fresh(b, used + Elements(a)) {
      forall i, j | 0 <= i < j < |ab| ensures ab[i] != ab[j] {
        if i < |a| <= j {
          assert a[i] in Elements(a);
          assert b[j - |a|] !in Elements(a);
        } else if |a| <= i {
          assert b[i - |a|] != b[j - |a|];
        }
      }
      forall i | 0 <= i < |ab| ensures ab[i] !in used {
        if i >= |a| {
          assert b[i - |a|] !in used + Elements(a);
        }
      }
    }
  }

  /** Depth, node budget, thresholds and identities all fit what has been compiled before. */
  predicate Admissible(node: NetworkNode, depth: nat, count: nat, ids: set<U8>, providers: set<Bytes32>) {
    && depth + Depth(node) <= MAX_DEPTH + 1
    && count + Size(node) <= MAX_NODES
    && ThresholdsValid(node)
    && Fresh(Ids(node), ids)
    && Fresh(Providers(Leaves(node)), providers)
  }

  predicate ForestAdmissible(nodes: seq<NetworkNode>, depth: nat, count: nat, ids: set<U8>, providers: set<Bytes32>) {
    && depth + ForestDepth(nodes) <= MAX_DEPTH + 1
    && count + ForestSize(nodes) <= MAX_NODES
    && ForestValid(nodes)
    && Fresh(ForestIds(nodes), ids)
    && Fresh(Providers(ForestLeaves(nodes)), providers)
  }

  function IdSet(node: NetworkNode): set<U8> { Elements(Ids(node)) }
  function ProviderSet(node: NetworkNode): set<Bytes32> { Elements(Providers(Leaves(node))) }

  lemma ForestAdmissibleStep(nodes: seq<NetworkNode>, depth: nat, count: nat, ids: set<U8>, providers: set<Bytes32>)
    requires nodes != []
    ensures ForestAdmissible(nodes, depth, count, ids, providers)
       <==> && Admissible(nodes[0], depth, count, ids, providers)
            && ForestAdmissible(nodes[1..], depth, count + Size(nodes[0]),
                                ids + IdSet(nodes[0]), providers + ProviderSet(nodes[0]))
  {
    hide Fresh;
    var node, rest := nodes[0], nodes[1..];
    FreshConcat(Ids(node), ForestIds(rest), ids);
    var a, b := Leaves(node), ForestLeaves(rest);
    ProvidersConcat(a, b);
    FreshConcat(Providers(a), Providers(b), providers);
  }

  lemma ThresholdAdmissible(node: NetworkNode, depth: nat, count: nat, ids: set<U8>, providers: set<Bytes32>)
    requires node.Threshold?
    ensures Admissible(node, depth, count, ids, providers)
       <==> && depth <= MAX_DEPTH && count < MAX_NODES
            && node.id !in ids
            && 0 < node.required <= |node.children|
            && ForestAdmissible(node.children, depth + 1, count + 1, ids + {node.id}, providers)
  {
    FreshConcat([node.id], ForestIds(node.children), ids);
    assert Elements([node.id]) == {node.id};
    assert Fresh([node.id], ids) <==> node.id !in ids by {
      assert [node.id][0] == node.id;
    }
    hide Fresh, Elements;
  }

  /** `x` was used before or occurs twice. */
  predicate Repeated<T(==)>(x: T, s: seq<T>, used: set<T>) {
    (x in s && x in used) || exists i, j :: 0 <= i < j < |s| && s[i] == x && s[j] == x
  }

  lemma RepeatedConcat<T>(x: T, a: seq<T>, b: seq<T>, used: set<T>)
    ensures Repeated(x, a, used) || Repeated(x, b, used + Elements(a)) ==> Repeated(x, a + b, used)
  {
    var ab := a + b;
    assert forall i :: 0 <= i < |a| ==> ab[i] == a[i];
    assert forall i :: 0 <= i < |b| ==> ab[|a| + i] == b[i];
    if Repeated(x, b, used + Elements(a)) && !(x in b && x in used) {
      if x in b {
        var j :| 0 <= j < |b| && b[j] == x;
        if x in a {
          var i :| 0 <= i < |a| && a[i] == x;
          assert ab[i] == x && ab[|a| + j] == x;
        } else {
          var i, k :| 0 <= i < k < |b| && b[i] == x && b[k] == x;
          assert ab[|a| + i] == x && ab[|a| + k] == x;
        }
      }
    } else if Repeated(x, a, used) && !(x in a && x in used) {
      var i, k :| 0 <= i < k < |a| && a[i] == x && a[k] == x;
      assert ab[i] == x && ab[k] == x;
    }
  }

  /** Each refusal names a limit the subtree breaks. */
  predicate Explains(error: CompileError, node: NetworkNode, depth: nat, count: nat, ids: set<U8>, providers: set<Bytes32>) {
    match error
    case TooDeep => depth + Depth(node) > MAX_DEPTH + 1
    case TooManyNodes => count + Size(node) > MAX_NODES
    case DuplicateNodeId(id) => Repeated(id, Ids(node), ids)
    case DuplicateProvider => !Fresh(Providers(Leaves(node)), providers)
    case InvalidThreshold => !ThresholdsValid(node)
    case InvalidCompilation => false
  }

  predicate ForestExplains(error: CompileError, nodes: seq<NetworkNode>, depth: nat, count: nat, ids: set<U8>, providers: set<Bytes32>) {
    match error
    case TooDeep => depth + ForestDepth(nodes) > MAX_DEPTH + 1
    case TooManyNodes => count + ForestSize(nodes) > MAX_NODES
    case DuplicateNodeId(id) => Repeated(id, ForestIds(nodes), ids)
    case DuplicateProvider => !Fresh(Providers(ForestLeaves(nodes)), providers)
    case InvalidThreshold => !ForestValid(nodes)
    case InvalidCompilation => false
  }

  lemma ForestExplainsStep(error: CompileError, nodes: seq<NetworkNode>, depth: nat, count: nat, ids: set<U8>, providers: set<Bytes32>)
    requires nodes != []
    requires || Explains(error, nodes[0], depth, count, ids, providers)
             || ForestExplains(error, nodes[1..], depth, count + Size(nodes[0]),
                               ids + IdSet(nodes[0]), providers + ProviderSet(nodes[0]))
    ensures ForestExplains(error, nodes, depth, count, ids, providers)
  {
    hide Fresh, Repeated;
    var node, rest := nodes[0], nodes[1..];
    if error.DuplicateNodeId? {
      RepeatedConcat(error.id, Ids(node), ForestIds(rest), ids);
    }
    var a, b := Leaves(node), ForestLeaves(rest);
    ProvidersConcat(a, b);
    FreshConcat(Providers(a), Providers(b), providers);
  }

  lemma ThresholdExplains(error: CompileError, node: NetworkNode, depth: nat, count: nat, ids: set<U8>, providers: set<Bytes32>)
    requires node.Threshold?
    requires ForestExplains(error, node.children, depth + 1, count + 1, ids + {node.id}, providers)
    ensures Explains(error, node, depth, count, ids, providers)
  {
    if error.DuplicateNodeId? {
      RepeatedConcat(error.id, [node.id], ForestIds(node.children), ids);
    }
    assert Elements([node.id]) == {node.id};
    hide Fresh, Elements, Repeated;
  }

  // ----- the compiler -----

  /** What the compiler carries from node to node. */
  datatype State = State(count: nat, ids: set<U8>, providers: set<Bytes32>, gates: seq<Gate>, leaves: seq<LeafEntry>)

  /** The state after one more subtree. */
  function After(s: State, node: NetworkNode): State {
    State(s.count + Size(node), s.ids + IdSet(node), s.providers + ProviderSet(node),
          s.gates + Gates(node, |s.gates|, |s.leaves|), s.leaves + Leaves(node))
  }

  function ForestAfter(s: State, nodes: seq<NetworkNode>): State {
    State(s.count + ForestSize(nodes), s.ids + Elements(ForestIds(nodes)),
          s.providers + Elements(Providers(ForestLeaves(nodes))),
          s.gates + ForestGates(nodes, |s.gates|, |s.leaves|), s.leaves + ForestLeaves(nodes))
  }

  lemma ForestUnfold(nodes: seq<NetworkNode>, g: nat, l: nat)
    requires nodes != []
    ensures ForestSize(nodes) == Size(nodes[0]) + ForestSize(nodes[1..])
    ensures ForestIds(nodes) == Ids(nodes[0]) + ForestIds(nodes[1..])
    ensures ForestLeaves(nodes) == Leaves(nodes[0]) + ForestLeaves(nodes[1..])
    ensures ForestGates(nodes, g, l)
         == Gates(nodes[0], g, l) + ForestGates(nodes[1..], g + Size(nodes[0]), l + |Leaves(nodes[0])|)
    ensures ForestRoots(nodes, g) == [g + Size(nodes[0]) - 1] + ForestRoots(nodes[1..], g + Size(nodes[0]))
  {}

  lemma ForestAfterStep(s: State, nodes: seq<NetworkNode>)
    requires nodes != []
    ensures ForestAfter(s, nodes) == ForestAfter(After(s, nodes[0]), nodes[1..])
  {
    hide Elements, Gates, Leaves, Ids, Providers, Size, ForestSize, ForestIds, ForestLeaves, ForestGates;
    var node, rest := nodes[0], nodes[1..];
    ForestUnfold(nodes, |s.gates|, |s.leaves|);
    ProvidersConcat(Leaves(node), ForestLeaves(rest));
    FreshConcat(Providers(Leaves(node)), Providers(ForestLeaves(rest)), {});
    FreshConcat(Ids(node), ForestIds(rest), {});
    var whole, step := ForestAfter(s, nodes), ForestAfter(After(s, node), rest);
    assert whole.gates == step.gates;
    assert whole.leaves == step.leaves;
    assert whole.ids == step.ids;
    assert whole.providers == step.providers;
  }

  lemma ForestAfterEmpty(s: State)
    ensures ForestAfter(s, []) == s
  {}

  lemma ProvidersConcat(a: seq<LeafEntry>, b: seq<LeafEntry>)
    ensures Providers(a + b) == Providers(a) + Providers(b)
  {}

  lemma AdmissibleBound(node: NetworkNode, depth: nat, count: nat, ids: set<U8>, providers: set<Bytes32>)
    ensures Admissible(node, depth, count, ids, providers) ==> count + Size(node) <= MAX_NODES
  {}

  lemma ForestBound(nodes: seq<NetworkNode>, depth: nat, count: nat, ids: set<U8>, providers: set<Bytes32>)
    requires nodes == [] && depth <= MAX_DEPTH + 1 && count <= MAX_NODES
    ensures ForestAdmissible(nodes, depth, count, ids, providers)
  {}

  /** The leaf and threshold cases close with one more gate. */
  lemma LeafAfter(s: State, node: NetworkNode)
    requires node.Leaf?
    ensures After(s, node) == State(s.count + 1, s.ids + {node.id}, s.providers + {node.provider},
                                    s.gates + [LeafGate(|s.leaves|)], s.leaves + [(node.id, node.provider)])
  {
    assert Elements([node.id]) == {node.id};
    assert Providers(Leaves(node)) == [node.provider];
    assert Elements([node.provider]) == {node.provider};
  }

  lemma ThresholdAfter(s: State, node: NetworkNode)
    requires node.Threshold?
    ensures var f := ForestAfter(s.(count := s.count + 1, ids := s.ids + {node.id}), node.children);
            After(s, node) == f.(gates := f.gates + [ThresholdGate(node.required, ForestRoots(node.children, |s.gates|))])
  {
    hide Gates, ForestGates, ForestIds, ForestLeaves, Providers;
    assert Elements([node.id]) == {node.id};
    FreshConcat([node.id], ForestIds(node.children), {});
    assert Gates(node, |s.gates|, |s.leaves|)
        == ForestGates(node.children, |s.gates|, |s.leaves|)
           + [ThresholdGate(node.required, ForestRoots(node.children, |s.gates|))] by { GatesUnfold(node, |s.gates|, |s.leaves|); }
    hide Elements, ForestRoots;
  }

  lemma GatesUnfold(node: NetworkNode, g: nat, l: nat)
    requires node.Threshold?
    ensures Gates(node, g, l)
         == ForestGates(node.children, g, l) + [ThresholdGate(node.required, ForestRoots(node.children, g))]
  {}

  lemma LeafAdmissible(node: NetworkNode, depth: nat, count: nat, ids: set<U8>, providers: set<Bytes32>)
    requires node.Leaf?
    ensures Admissible(node, depth, count, ids, providers)
       <==> depth <= MAX_DEPTH && count < MAX_NODES && node.id !in ids && node.provider !in providers
    ensures node.provider in providers ==> Explains(DuplicateProvider, node, depth, count, ids, providers)
  {
    assert Ids(node)[0] == node.id;
    assert Providers(Leaves(node))[0] == node.provider;
  }

  class Compiler {
    var count: nat
    var ids: set<U8>
    var providers: set<Bytes32>
    var gates: seq<Gate>
    var leaves: seq<LeafEntry>

    /** The implicit all() root and the mandatory TPM node are already counted. */
    constructor (tpmNodeId: U8)
      ensures count == 2 && ids == {tpmNodeId} && providers == {} && gates == [] && leaves == []
    {
      count, ids, providers, gates, leaves := 2, {tpmNodeId}, {}, [], [];
    }

    function Current(): State
      reads this
    {
      State(count, ids, providers, gates, leaves)
    }

    method CompileNode(node: NetworkNode, depth: nat) returns (result: Result<nat, CompileError>)
      modifies this
      ensures result.Success? <==> Admissible(node, depth, old(count), old(ids), old(providers))
      ensures result.Success? ==>
                result.value == old(|gates|) + Size(node) - 1 && Current() == After(old(Current()), node)
      ensures result.Failure? ==> Explains(result.error, node, depth, old(count), old(ids), old(providers))
      decreases node, 1
    {
      hide Admissible, ForestAdmissible, ForestExplains, After, ForestAfter, ForestRoots, Fresh;
      if node.Leaf? {
        LeafAdmissible(node, depth, count, ids, providers);
        LeafAfter(Current(), node);
      } else {
        ThresholdAdmissible(node, depth, count, ids, providers);
        ThresholdAfter(Current(), node);
      }
      if depth > MAX_DEPTH {
        return Failure(TooDeep);
      }
      if count >= MAX_NODES {
        return Failure(TooManyNodes);
      }
      count := count + 1;
      if node.id in ids {
        RepeatedId(node, ids);
        return Failure(DuplicateNodeId(node.id));
      }
      ids := ids + {node.id};
      var gate;
      match node {
        case Leaf(id, provider) =>
          if provider in providers {
            return Failure(DuplicateProvider);
          }
          providers := providers + {provider};
          gate := LeafGate(|leaves|);
          leaves := leaves + [(id, provider)];
        case Threshold(_, required, children) =>
          if required == 0 || required > |children| {
            return Failure(InvalidThreshold);
          }
          var indices := CompileForest(children, depth + 1);
          if indices.Failure? {
            ThresholdExplains(indices.error, node, depth, old(count), old(ids), old(providers));
            return Failure(indices.error);
          }
          gate := ThresholdGate(required, indices.value);
      }
      result := Success(|gates|);
      gates := gates + [gate];
      AfterGates(old(Current()), node);
    }

    /** Compile children in order, collecting their gate indices. */
    method CompileForest(children: seq<NetworkNode>, depth: nat) returns (result: Result<seq<nat>, CompileError>)
      requires depth <= MAX_DEPTH + 1 && count <= MAX_NODES
      modifies this
      ensures result.Success? <==> ForestAdmissible(children, depth, old(count), old(ids), old(providers))
      ensures result.Success? ==>
                result.value == ForestRoots(children, old(|gates|)) && Current() == ForestAfter(old(Current()), children)
      ensures result.Failure? ==> ForestExplains(result.error, children, depth, old(count), old(ids), old(providers))
      decreases children, 0
    {
      hide ForestAdmissible, Admissible, ForestExplains, Explains, After, ForestAfter, ForestRoots;
      var indices := [];
      var i := 0;
      while i < |children|
        invariant 0 <= i <= |children| && count <= MAX_NODES
        invariant ForestAfter(Current(), children[i..]) == ForestAfter(old(Current()), children)
        invariant indices + ForestRoots(children[i..], |gates|) == ForestRoots(children, old(|gates|))
        invariant ForestAdmissible(children, depth, old(count), old(ids), old(providers))
             <==> ForestAdmissible(children[i..], depth, count, ids, providers)
        invariant forall error :: ForestExplains(error, children[i..], depth, count, ids, providers)
                    ==> ForestExplains(error, children, depth, old(count), old(ids), old(providers))
      {
        ghost var rest, c, d, p := children[i..], count, ids, providers;
        assert rest[0] == children[i] && rest[1..] == children[i + 1..];
        ForestAdmissibleStep(rest, depth, c, d, p);
        ForestAfterStep(Current(), rest);
        ForestUnfold(rest, |gates|, |leaves|);
        AfterGates(Current(), children[i]);
        AdmissibleBound(children[i], depth, c, d, p);
        var index := CompileNode(children[i], depth);
        if index.Failure? {
          ForestExplainsStep(index.error, rest, depth, c, d, p);
          return Failure(index.error);
        }
        forall error | ForestExplains(error, rest[1..], depth, count, ids, providers)
          ensures ForestExplains(error, rest, depth, c, d, p)
        {
          ForestExplainsStep(error, rest, depth, c, d, p);
        }
        indices := indices + [index.value];
        i := i + 1;
      }
      assert children[i..] == [];
      ForestAfterEmpty(Current());
      ForestBound(children[i..], depth, count, ids, providers);
      assert ForestRoots([], |gates|) == [];
      result := Success(indices);
    }
  }

  /** Sizes and sets of the state after one more subtree. */
  lemma AfterGates(s: State, node: NetworkNode)
    ensures After(s, node).count == s.count + Size(node)
    ensures |After(s, node).gates| == |s.gates| + Size(node)
    ensures After(s, node).ids == s.ids + IdSet(node)
    ensures After(s, node).providers == s.providers + ProviderSet(node)
  {}

  lemma RepeatedId(node: NetworkNode, ids: set<U8>)
    requires node.id in ids
    ensures Repeated(node.id, Ids(node), ids) && !Fresh(Ids(node), ids)
  {
    assert Ids(node)[0] == node.id;
  }

  // ----- the certificate checker -----

  /** What a certificate for the subtree at (g, l) must be: valid thresholds, bounded depth,
      and exactly the postorder layout. */
  predicate Certified(node: NetworkNode, gates: seq<Gate>, leaves: seq<LeafEntry>, g: nat, l: nat, depth: nat) {
    Depth(node) <= depth && ThresholdsValid(node) && LaidOut(node, gates, leaves, g, l)
  }

  predicate ForestCertified(nodes: seq<NetworkNode>, gates: seq<Gate>, leaves: seq<LeafEntry>, g: nat, l: nat, depth: nat) {
    ForestDepth(nodes) <= depth && ForestValid(nodes) && ForestLaidOut(nodes, gates, leaves, g, l)
  }

  lemma ForestCertifiedStep(nodes: seq<NetworkNode>, gates: seq<Gate>, leaves: seq<LeafEntry>, g: nat, l: nat, depth: nat)
    requires nodes != []
    ensures ForestCertified(nodes, gates, leaves, g, l, depth)
       <==> && Certified(nodes[0], gates, leaves, g, l, depth)
            && ForestCertified(nodes[1..], gates, leaves, g + Size(nodes[0]), l + |Leaves(nodes[0])|, depth)
  {
    hide LaidOut, ForestLaidOut;
    ForestLayout(nodes, gates, leaves, g, l);
  }

  lemma ThresholdCertified(node: NetworkNode, gates: seq<Gate>, leaves: seq<LeafEntry>, g: nat, l: nat, depth: nat)
    requires node.Threshold? && depth > 0
    ensures Certified(node, gates, leaves, g, l, depth)
       <==> && 0 < node.required <= |node.children|
            && ForestCertified(node.children, gates, leaves, g, l, depth - 1)
            && g + ForestSize(node.children) < |gates|
            && gates[g + ForestSize(node.children)] == ThresholdGate(node.required, ForestRoots(node.children, g))
  {
    hide LaidOut, ForestLaidOut;
    ThresholdLayout(node, gates, leaves, g, l);
  }

  lemma LeafCertified(node: NetworkNode, gates: seq<Gate>, leaves: seq<LeafEntry>, g: nat, l: nat, depth: nat)
    requires node.Leaf? && depth > 0
    ensures Certified(node, gates, leaves, g, l, depth)
       <==> g < |gates| && l < |leaves| && leaves[l] == (node.id, node.provider) && gates[g] == LeafGate(l)
  {
    hide At;
    AtSingle(gates, g, LeafGate(l));
    AtSingle(leaves, l, (node.id, node.provider));
  }

  lemma CertifiedNonempty(node: NetworkNode, gates: seq<Gate>, leaves: seq<LeafEntry>, g: nat, l: nat, depth: nat)
    requires Certified(node, gates, leaves, g, l, depth)
    ensures depth > 0 && g + Size(node) <= |gates| && l < l + |Leaves(node)| <= |leaves|
  {
    ValidHasLeaves(node);
  }

  method SameProvider(a: Bytes32, b: Bytes32) returns (same: bool)
    ensures same <==> a == b
  {
    var i := 0;
    while i < 32
      invariant 0 <= i <= 32
      invariant forall j :: 0 <= j < i ==> a[j] == b[j]
    {
      if a[i] != b[i] {
        return false;
      }
      i := i + 1;
    }
    same := true;
  }

  /** Success, and the gate and leaf cursors after the subtree. */
  method CheckSubtree(node: NetworkNode, gates: seq<Gate>, leaves: seq<LeafEntry>, g: nat, l: nat, depth: nat)
    returns (ok: bool, gateEnd: nat, leafEnd: nat)
    ensures ok <==> Certified(node, gates, leaves, g, l, depth)
    ensures ok ==> gateEnd == g + Size(node) && leafEnd == l + |Leaves(node)|
    decreases depth, 1
  {
    hide Certified, ForestCertified;
    gateEnd, leafEnd := g, l;
    if depth == 0 || g >= |gates| || l >= |leaves| {
      if Certified(node, gates, leaves, g, l, depth) {
        CertifiedNonempty(node, gates, leaves, g, l, depth);
      }
      return false, g, l;
    }
    match node {
      case Leaf(id, provider) =>
        LeafCertified(node, gates, leaves, g, l, depth);
        var same := SameProvider(leaves[l].1, provider);
        if leaves[l].0 != id || !same {
          return false, g, l;
        }
        if gates[g].ThresholdGate? || gates[g].responseIndex != l {
          return false, g, l;
        }
        return true, g + 1, l + 1;
      case Threshold(_, required, children) =>
        ThresholdCertified(node, gates, leaves, g, l, depth);
        if required == 0 || required > |children| {
          return false, g, l;
        }
        var matched, gc, lc, expected := CheckForest(children, gates, leaves, g, l, depth - 1);
        if !matched || gc >= |gates| {
          return false, g, l;
        }
        if gates[gc].LeafGate? || gates[gc].required != required || gates[gc].children != expected {
          return false, g, l;
        }
        return true, gc + 1, lc;
    }
  }

  /** Cursors and roots after the children before `rest` have been checked. */
  predicate Cursors(children: seq<NetworkNode>, g: nat, l: nat, rest: seq<NetworkNode>, gc: nat, lc: nat, roots: seq<nat>) {
    && gc + ForestSize(rest) == g + ForestSize(children)
    && lc + |ForestLeaves(rest)| == l + |ForestLeaves(children)|
    && roots + ForestRoots(rest, gc) == ForestRoots(children, g)
  }

  lemma CursorsStep(children: seq<NetworkNode>, g: nat, l: nat, rest: seq<NetworkNode>, gc: nat, lc: nat, roots: seq<nat>)
    requires rest != [] && Cursors(children, g, l, rest, gc, lc, roots)
    ensures Cursors(children, g, l, rest[1..], gc + Size(rest[0]), lc + |Leaves(rest[0])|, roots + [gc + Size(rest[0]) - 1])
  {
    hide Size, Leaves, ForestRoots, ForestSize, ForestLeaves;
    ForestUnfold(rest, gc, lc);
    var tail := ForestRoots(rest[1..], gc + Size(rest[0]));
    assert roots + ([gc + Size(rest[0]) - 1] + tail) == (roots + [gc + Size(rest[0]) - 1]) + tail;
  }

  lemma CursorsEnds(children: seq<NetworkNode>, g: nat, l: nat, gc: nat, lc: nat, roots: seq<nat>)
    ensures Cursors(children, g, l, children, g, l, [])
    ensures Cursors(children, g, l, [], gc, lc, roots)
       ==> gc == g + ForestSize(children) && lc == l + |ForestLeaves(children)| && roots == ForestRoots(children, g)
  {}

  /** Check children in order; `roots` are the gate indices the parent must list. */
  method CheckForest(children: seq<NetworkNode>, gates: seq<Gate>, leaves: seq<LeafEntry>, g: nat, l: nat, depth: nat)
    returns (ok: bool, gateEnd: nat, leafEnd: nat, roots: seq<nat>)
    requires g <= |gates| && l <= |leaves|
    ensures ok <==> ForestCertified(children, gates, leaves, g, l, depth)
    ensures ok ==> && gateEnd == g + ForestSize(children)
                   && leafEnd == l + |ForestLeaves(children)|
                   && roots == ForestRoots(children, g)
    decreases depth, 2
  {
    hide Certified, ForestCertified, Cursors, Size, Leaves, ForestRoots, ForestSize, ForestLeaves;
    gateEnd, leafEnd, roots := g, l, [];
    CursorsEnds(children, g, l, g, l, []);
    var i := 0;
    assert children[i..] == children;
    while i < |children|
      invariant 0 <= i <= |children|
      invariant gateEnd <= |gates| && leafEnd <= |leaves|
      invariant Cursors(children, g, l, children[i..], gateEnd, leafEnd, roots)
      invariant ForestCertified(children, gates, leaves, g, l, depth)
           <==> ForestCertified(children[i..], gates, leaves, gateEnd, leafEnd, depth)
    {
      ghost var rest := children[i..];
      assert rest[0] == children[i] && rest[1..] == children[i + 1..];
      ForestCertifiedStep(rest, gates, leaves, gateEnd, leafEnd, depth);
      CursorsStep(children, g, l, rest, gateEnd, leafEnd, roots);
      var matched, gc, lc := CheckSubtree(children[i], gates, leaves, gateEnd, leafEnd, depth);
      if !matched {
        return false, g, l, [];
      }
      CertifiedNonempty(children[i], gates, leaves, gateEnd, leafEnd, depth);
      roots := roots + [gc - 1];
      gateEnd, leafEnd := gc, lc;
      i := i + 1;
    }
    assert children[i..] == [];
    CursorsEnds(children, g, l, gateEnd, leafEnd, roots);
    EmptyForest(gates, leaves, gateEnd, leafEnd, depth);
    ok := true;
  }

  lemma EmptyForest(gates: seq<Gate>, leaves: seq<LeafEntry>, g: nat, l: nat, depth: nat)
    requires g <= |gates| && l <= |leaves|
    ensures ForestCertified([], gates, leaves, g, l, depth)
  {}

  /** The plan of a tree: its postorder gates and its leaves. */
  function PlanOf(node: NetworkNode): Plan {
    Plan(Gates(node, 0, 0), Leaves(node))
  }

  /** The checker accepts exactly one pair of lists for a tree, the postorder plan,
      and only when depth and thresholds are valid. */
  method CheckCompilation(node: NetworkNode, gates: seq<Gate>, leaves: seq<LeafEntry>) returns (accepted: bool)
    ensures accepted <==> Depth(node) <= 3 && ThresholdsValid(node) && Plan(gates, leaves) == PlanOf(node)
  {
    hide Gates, Leaves;
    var ok, g, l := CheckSubtree(node, gates, leaves, 0, 0, 3);
    accepted := ok && g == |gates| && l == |leaves|;
    if |gates| == Size(node) && |leaves| == |Leaves(node)| {
      AtWhole(gates, Gates(node, 0, 0));
      AtWhole(leaves, Leaves(node));
    }
  }

  // ----- admission -----

  /** The trees that become policies. */
  predicate Accepted(tpmNodeId: U8, network: NetworkNode) {
    Admissible(network, 2, 2, {tpmNodeId}, {})
  }

  predicate ValidPolicy(policy: ProductionPolicy) {
    Accepted(policy.tpmNodeId, policy.network) && policy.plan == PlanOf(policy.network)
  }

  /** Admission succeeds exactly on acceptable trees: the checker never refuses the compiler's output. */
  method NewPolicy(mode: Mode, tpmNodeId: U8, network: NetworkNode)
    returns (result: Result<ProductionPolicy, CompileError>)
    ensures result.Success? <==> Accepted(tpmNodeId, network)
    ensures result.Success? ==>
              result.value == ProductionPolicy(mode, tpmNodeId, network, PlanOf(network)) && ValidPolicy(result.value)
    ensures result.Failure? ==> result.error != InvalidCompilation && Explains(result.error, network, 2, 2, {tpmNodeId}, {})
  {
    var compiler := new Compiler(tpmNodeId);
    var compiled := compiler.CompileNode(network, 2);
    if compiled.Failure? {
      return Failure(compiled.error);
    }
    assert compiler.Current() == After(State(2, {tpmNodeId}, {}, [], []), network);
    var accepted := CheckCompilation(network, compiler.gates, compiler.leaves);
    if !accepted {
      return Failure(InvalidCompilation);
    }
    result := Success(ProductionPolicy(mode, tpmNodeId, network, Plan(compiler.gates, compiler.leaves)));
  }
}
