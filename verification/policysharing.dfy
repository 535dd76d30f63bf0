/** Recursive secret sharing over a compiled policy, and its bottom-up recovery. */
module PolicySharing {
  import opened Wrappers
  import opened Bytes
  import opened Sequences
  import opened Sharing
  import opened PolicyTree
  import opened PolicyCompile
  import opened PolicyDecision

  /** A network leaf identity and its secret payload. */
  type NetworkShare = (U8, Secret)

  // ----- splitting down the tree -----

  /** The random tables drawn at each threshold. */
  datatype Coins = LeafCoins | GateCoins(table: Table, children: seq<Coins>)

  predicate CoinsFit(node: NetworkNode, coins: Coins)
    decreases node, 1
  {
    match node
    case Leaf(_, _) => coins.LeafCoins?
    case Threshold(_, required, children) =>
      && coins.GateCoins? && TableOf(coins.table, required) && |children| <= MAX_SHARES
      && ForestCoinsFit(children, coins.children)
  }

  predicate ForestCoinsFit(nodes: seq<NetworkNode>, coins: seq<Coins>)
    decreases nodes, 0
  {
    && |nodes| == |coins|
    && (nodes == [] || (CoinsFit(nodes[0], coins[0]) && ForestCoinsFit(nodes[1..], coins[1..])))
  }

  /** The leaf payloads of a subtree that holds `secret`. */
  function LeafShares(node: NetworkNode, secret: Secret, coins: Coins): (shares: seq<NetworkShare>)
    requires CoinsFit(node, coins)
    ensures |shares| == |Leaves(node)|
    ensures forall i :: 0 <= i < |shares| ==> shares[i].0 == Leaves(node)[i].0
    decreases node, 1
  {
    match node
    case Leaf(id, _) => [(id, secret)]
    case Threshold(_, _, children) =>
      ForestShares(children, SplitShares(secret, coins.table, |children|), coins.children)
  }

  function ForestShares(nodes: seq<NetworkNode>, held: seq<Share>, coins: seq<Coins>): (shares: seq<NetworkShare>)
    requires ForestCoinsFit(nodes, coins) && |held| == |nodes|
    ensures |shares| == |ForestLeaves(nodes)|
    ensures forall i :: 0 <= i < |shares| ==> shares[i].0 == ForestLeaves(nodes)[i].0
    decreases nodes, 0
  {
    if nodes == [] then []
    else LeafShares(nodes[0], held[0].value, coins[0]) + ForestShares(nodes[1..], held[1..], coins[1..])
  }

  /** Random bytes in the order they are drawn: a node's table, then each child's. */
  function CoinBytes(coins: Coins): seq<GF256.Byte>
    decreases coins, 1
  {
    match coins
    case LeafCoins => []
    case GateCoins(table, children) => Concat(table) + ForestCoinBytes(children)
  }

  function ForestCoinBytes(coins: seq<Coins>): seq<GF256.Byte>
    decreases coins, 0
  {
    if coins == [] then [] else CoinBytes(coins[0]) + ForestCoinBytes(coins[1..])
  }

  /** Random bytes a subtree needs. */
  function Draws(node: NetworkNode): nat
    decreases node, 1
  {
    match node
    case Leaf(_, _) => 0
    case Threshold(_, required, children) =>
      (if required == 0 then 0 else SECRET_LEN * (required - 1)) + ForestDraws(children)
  }

  function ForestDraws(nodes: seq<NetworkNode>): nat
    decreases nodes, 0
  {
    if nodes == [] then 0 else Draws(nodes[0]) + ForestDraws(nodes[1..])
  }

  lemma {:induction false} ConcatLength(table: Table, degree: nat)
    requires forall b :: 0 <= b < |table| ==> |table[b]| == degree
    ensures |Concat(table)| == |table| * degree
  {
    if table != [] {
      ConcatLength(table[..|table| - 1], degree);
      assert |table| * degree == (|table| - 1) * degree + degree;
    }
  }

  type Shared = Result<seq<NetworkShare>, PolicyError>

  /** Sharing `secret` over a subtree, from the random bytes `before` to those left `after`: it succeeds exactly when there
      are enough, appends the leaf payloads in order, and its coins are the bytes it drew. */
  predicate NodeShared(node: NetworkNode, secret: Secret, coins: Coins, leaves: seq<NetworkShare>,
                       before: seq<GF256.Byte>, after: seq<GF256.Byte>, result: Shared)
  {
    && (result.Success? <==> Draws(node) <= |before|)
    && match result
       case Failure(error) => error == SharingFailed(EntropyUnavailable)
       case Success(shares) =>
         && CoinsFit(node, coins) && shares == leaves + LeafShares(node, secret, coins)
         && before == CoinBytes(coins) + after && |CoinBytes(coins)| == Draws(node)
  }

  predicate ForestShared(nodes: seq<NetworkNode>, held: seq<Share>, coins: seq<Coins>, leaves: seq<NetworkShare>,
                         before: seq<GF256.Byte>, after: seq<GF256.Byte>, result: Shared)
    requires |held| == |nodes|
  {
    && (result.Success? <==> ForestDraws(nodes) <= |before|)
    && match result
       case Failure(error) => error == SharingFailed(EntropyUnavailable)
       case Success(shares) =>
         && ForestCoinsFit(nodes, coins) && shares == leaves + ForestShares(nodes, held, coins)
         && before == ForestCoinBytes(coins) + after && |ForestCoinBytes(coins)| == ForestDraws(nodes)
  }

  lemma LeafShared(node: NetworkNode, secret: Secret, leaves: seq<NetworkShare>, bytes: seq<GF256.Byte>)
    requires node.Leaf?
    ensures NodeShared(node, secret, LeafCoins, leaves, bytes, bytes, Success(leaves + [(node.id, secret)]))
  {
    assert [] + bytes == bytes;
  }

  /** A gate whose own coefficients cannot be drawn. */
  lemma GateStarved(node: NetworkNode, secret: Secret, leaves: seq<NetworkShare>, before: seq<GF256.Byte>, after: seq<GF256.Byte>)
    requires node.Threshold? && node.required > 0 && |before| < SECRET_LEN * (node.required - 1)
    ensures NodeShared(node, secret, LeafCoins, leaves, before, after, Failure(SharingFailed(EntropyUnavailable)))
  {}

  /** A gate and its children. */
  lemma GateShared(node: NetworkNode, secret: Secret, table: Table, kids: seq<Coins>, leaves: seq<NetworkShare>,
                   before: seq<GF256.Byte>, middle: seq<GF256.Byte>, after: seq<GF256.Byte>, result: Shared)
    requires node.Threshold? && node.required > 0 && |node.children| <= MAX_SHARES
    requires TableOf(table, node.required) && before == Concat(table) + middle
    requires ForestShared(node.children, SplitShares(secret, table, |node.children|), kids, leaves, middle, after, result)
    ensures NodeShared(node, secret, GateCoins(table, kids), leaves, before, after, result)
  {
    hide SplitShares, ForestShares, ForestCoinsFit, ForestCoinBytes, ForestDraws, Concat;
    ConcatLength(table, node.required - 1);
    if result.Success? {
      ConcatAssociative(Concat(table), ForestCoinBytes(kids), after);
    }
  }

  /** Share `secret` at gate `index`, appending the leaf payloads. `node` is the subtree compiled there. */
  method SplitGate(plan: Plan, index: nat, secret: Secret, rng: Entropy, leaves: seq<NetworkShare>,
                   ghost node: NetworkNode, ghost g: nat, ghost l: nat)
    returns (result: Shared, ghost coins: Coins)
    requires LaidOut(node, plan.gates, plan.leaves, g, l) && ThresholdsValid(node) && Size(node) <= MAX_SHARES
    requires index == g + Size(node) - 1
    modifies rng
    ensures NodeShared(node, secret, coins, leaves, old(rng.bytes), rng.bytes, result)
    decreases node, 1
  {
    coins := LeafCoins;
    GateAt(plan, index, node, g, l);
    hide NodeShared, ForestShared, SplitShares, Concat, ForestRoots, LaidOut, ForestLaidOut;
    match plan.gates[index] {
      case LeafGate(i) =>
        result := Success(leaves + [(plan.leaves[i].0, secret)]);
        LeafShared(node, secret, leaves, rng.bytes);
      case ThresholdGate(required, children) =>
        ChildCount(node.children);
        var shares, table := Split(secret, required, |children|, rng);
        ghost var middle := rng.bytes;
        if shares.Failure? {
          GateStarved(node, secret, leaves, old(rng.bytes), rng.bytes);
          return Failure(SharingFailed(shares.error)), coins;
        }
        ghost var kids;
        result, kids := SplitChildren(plan, children, shares.value, rng, leaves, node.children, g, l);
        coins := GateCoins(table, kids);
        GateShared(node, secret, table, kids, leaves, old(rng.bytes), middle, rng.bytes, result);
    }
  }

  /** The gate compiled for a subtree's root. */
  lemma GateAt(plan: Plan, index: nat, node: NetworkNode, g: nat, l: nat)
    requires LaidOut(node, plan.gates, plan.leaves, g, l) && index == g + Size(node) - 1
    ensures index < |plan.gates|
    ensures node.Leaf? ==> l < |plan.leaves| && plan.gates[index] == LeafGate(l) && plan.leaves[l].0 == node.id
    ensures node.Threshold? ==> plan.gates[index] == ThresholdGate(node.required, ForestRoots(node.children, g))
                                && |ForestRoots(node.children, g)| == |node.children|
                                && ForestLaidOut(node.children, plan.gates, plan.leaves, g, l)
  {
    if node.Leaf? {
      AtSingle(plan.gates, g, LeafGate(l));
      AtSingle(plan.leaves, l, (node.id, node.provider));
    } else {
      ThresholdLayout(node, plan.gates, plan.leaves, g, l);
    }
  }

  /** One child ahead of the others. */
  lemma ForestSharesStep(nodes: seq<NetworkNode>, held: seq<Share>, first: Coins, rest: seq<Coins>)
    requires nodes != [] && |held| == |nodes|
    requires CoinsFit(nodes[0], first) && ForestCoinsFit(nodes[1..], rest)
    ensures ForestCoinsFit(nodes, [first] + rest)
    ensures ForestShares(nodes, held, [first] + rest)
         == LeafShares(nodes[0], held[0].value, first) + ForestShares(nodes[1..], held[1..], rest)
    ensures ForestCoinBytes([first] + rest) == CoinBytes(first) + ForestCoinBytes(rest)
  {
    hide CoinsFit, LeafShares, CoinBytes;
    assert ([first] + rest)[1..] == rest;
  }

  lemma ForestSharedCons(nodes: seq<NetworkNode>, held: seq<Share>, first: Coins, rest: seq<Coins>, leaves: seq<NetworkShare>,
                         before: seq<GF256.Byte>, middle: seq<GF256.Byte>, after: seq<GF256.Byte>, one: Shared, result: Shared)
    requires nodes != [] && |held| == |nodes| && NodeShared(nodes[0], held[0].value, first, leaves, before, middle, one)
    requires one.Failure? ==> result == one
    requires one.Success? ==> ForestShared(nodes[1..], held[1..], rest, one.value, middle, after, result)
    ensures ForestShared(nodes, held, [first] + rest, leaves, before, after, result)
  {
    hide ForestShares, LeafShares, ForestCoinBytes, CoinBytes, ForestCoinsFit, CoinsFit, Draws, ForestDraws;
    ForestDrawsStep(nodes);
    if result.Success? {
      ForestSharesStep(nodes, held, first, rest);
      ConcatAssociative(leaves, LeafShares(nodes[0], held[0].value, first), ForestShares(nodes[1..], held[1..], rest));
      ConcatAssociative(CoinBytes(first), ForestCoinBytes(rest), after);
    }
  }

  lemma NoChildren(nodes: seq<NetworkNode>, held: seq<Share>, leaves: seq<NetworkShare>, bytes: seq<GF256.Byte>)
    requires nodes == [] && held == []
    ensures ForestShared(nodes, held, [], leaves, bytes, bytes, Success(leaves))
  {
    assert leaves + [] == leaves && [] + bytes == bytes;
  }

  /** Hand each child its share, in order. */
  method SplitChildren(plan: Plan, children: seq<nat>, shares: seq<Share>, rng: Entropy, leaves: seq<NetworkShare>,
                       ghost nodes: seq<NetworkNode>, ghost g: nat, ghost l: nat)
    returns (result: Shared, ghost coins: seq<Coins>)
    requires ForestLaidOut(nodes, plan.gates, plan.leaves, g, l) && ForestValid(nodes) && ForestSize(nodes) <= MAX_SHARES
    requires children == ForestRoots(nodes, g) && |shares| == |nodes|
    modifies rng
    ensures ForestShared(nodes, shares, coins, leaves, old(rng.bytes), rng.bytes, result)
    decreases nodes, 0
  {
    hide LaidOut, ForestLaidOut, NodeShared, ForestShared, Leaves, ForestLeaves, ThresholdsValid;
    if children == [] {
      NoChildren(nodes, shares, leaves, rng.bytes);
      return Success(leaves), [];
    }
    ForestLayout(nodes, plan.gates, plan.leaves, g, l);
    assert children[0] == g + Size(nodes[0]) - 1 && children[1..] == ForestRoots(nodes[1..], g + Size(nodes[0]));
    ghost var first, rest := LeafCoins, [];
    result, first := SplitGate(plan, children[0], shares[0].value, rng, leaves, nodes[0], g, l);
    ghost var one, middle := result, rng.bytes;
    if result.Success? {
      result, rest := SplitChildren(plan, children[1..], shares[1..], rng, result.value,
                                    nodes[1..], g + Size(nodes[0]), l + |Leaves(nodes[0])|);
    }
    coins := [first] + rest;
    ForestSharedCons(nodes, shares, first, rest, leaves, old(rng.bytes), middle, rng.bytes, one, result);
  }

  lemma ForestDrawsStep(nodes: seq<NetworkNode>)
    requires nodes != []
    ensures ForestDraws(nodes) == Draws(nodes[0]) + ForestDraws(nodes[1..])
  {}

  lemma ConcatAssociative<T>(a: seq<T>, b: seq<T>, c: seq<T>)
    ensures (a + b) + c == a + (b + c)
  {}

  method SplitNetwork(policy: ProductionPolicy, secret: Secret, rng: Entropy)
    returns (result: Shared, ghost coins: Coins)
    requires ValidPolicy(policy)
    modifies rng
    ensures result.Success? <==> Draws(policy.network) <= |old(rng.bytes)|
    ensures result.Success? ==> && CoinsFit(policy.network, coins)
                                && result.value == LeafShares(policy.network, secret, coins)
                                && old(rng.bytes) == CoinBytes(coins) + rng.bytes
    ensures result.Failure? ==> result.error == SharingFailed(EntropyUnavailable)
  {
    hide Gates, Leaves, LeafShares, Draws, CoinsFit;
    AtWhole(policy.plan.gates, Gates(policy.network, 0, 0));
    AtWhole(policy.plan.leaves, Leaves(policy.network));
    result, coins := SplitGate(policy.plan, |policy.plan.gates| - 1, secret, rng, [], policy.network, 0, 0);
  }

  // ----- recovering up the plan -----

  /** The first payload with this identity. */
  function Find(recovered: seq<NetworkShare>, id: U8): Option<Secret> {
    if recovered == [] then None
    else if recovered[0].0 == id then Some(recovered[0].1)
    else Find(recovered[1..], id)
  }

  predicate EdgesBelow(children: seq<nat>, n: nat) {
    forall i :: 0 <= i < |children| ==> children[i] < n
  }

  /** Take each child's value in order: the shares found, and the values left behind. */
  function Collect(children: seq<nat>, values: seq<Option<Secret>>, position: nat): (r: (seq<Share>, seq<Option<Secret>>))
    requires EdgesBelow(children, |values|)
    requires position + |children| < 255
    ensures |r.1| == |values|
    decreases |children|
  {
    if children == [] then ([], values)
    else
      var rest := Collect(children[1..], values[children[0] := None], position + 1);
      match values[children[0]]
      case None => rest
      case Some(secret) => ([Share(Coordinate(position + 1), secret)] + rest.0, rest.1)
  }

  /** Every edge refers to an earlier gate and every leaf to an entry, within the share bound. */
  predicate PlanOk(plan: Plan) {
    forall i :: 0 <= i < |plan.gates| ==> GateOk(plan.gates[i], i, |plan.leaves|)
  }

  predicate GateOk(gate: Gate, n: nat, leaves: nat) {
    match gate
    case LeafGate(index) => index < leaves
    case ThresholdGate(_, children) => |children| <= MAX_SHARES && EdgesBelow(children, n)
  }

  /** One gate: the values after it, including its own. */
  function RunGate(plan: Plan, recovered: seq<NetworkShare>, gate: Gate, values: seq<Option<Secret>>)
    : (r: Result<seq<Option<Secret>>, PolicyError>)
    requires GateOk(gate, |values|, |plan.leaves|)
    ensures r.Success? ==> |r.value| == |values| + 1
  {
    match gate
    case LeafGate(index) => Success(values + [Find(recovered, plan.leaves[index].0)])
    case ThresholdGate(required, children) =>
      var (shares, left) := Collect(children, values, 0);
      if |shares| < required then Success(left + [None])
      else match Reconstructed(required, shares)
           case Success(secret) => Success(left + [Some(secret)])
           case Failure(error) => Failure(SharingFailed(error))
  }

  /** Run the gates from |values| up to `n`. */
  function Run(plan: Plan, recovered: seq<NetworkShare>, values: seq<Option<Secret>>, n: nat)
    : (r: Result<seq<Option<Secret>>, PolicyError>)
    requires PlanOk(plan) && |values| <= n <= |plan.gates|
    ensures r.Success? ==> |r.value| == n
    decreases n - |values|
  {
    if |values| == n then Success(values)
    else match RunGate(plan, recovered, plan.gates[|values|], values)
         case Failure(error) => Failure(error)
         case Success(next) => Run(plan, recovered, next, n)
  }

  function Recovered(plan: Plan, recovered: seq<NetworkShare>): Result<Secret, PolicyError>
    requires PlanOk(plan)
  {
    match Responses(plan.leaves, IdsOf(recovered))
    case Failure(error) => Failure(error)
    case Success(_) =>
      match Run(plan, recovered, [], |plan.gates|)
      case Failure(error) => Failure(error)
      case Success(values) =>
        if values != [] && values[|values| - 1].Some? then Success(values[|values| - 1].value)
        else Failure(FactorsNotSatisfied)
  }

  method FindShare(recovered: seq<NetworkShare>, id: U8) returns (secret: Option<Secret>)
    ensures secret == Find(recovered, id)
  {
    var i := 0;
    while i < |recovered|
      invariant 0 <= i <= |recovered|
      invariant Find(recovered, id) == Find(recovered[i..], id)
    {
      assert recovered[i..][1..] == recovered[i + 1..];
      if recovered[i].0 == id {
        return Some(recovered[i].1);
      }
      i := i + 1;
    }
    secret := None;
  }

  /** Move the children's values out of the working array and turn them into shares. */
  method TakeShares(children: seq<nat>, values: seq<Option<Secret>>) returns (shares: seq<Share>, left: seq<Option<Secret>>)
    requires |children| <= MAX_SHARES && EdgesBelow(children, |values|)
    ensures (shares, left) == Collect(children, values, 0)
  {
    hide Coordinate;
    shares, left := [], values;
    var position := 0;
    assert children[position..] == children;
    while position < |children|
      invariant 0 <= position <= |children| && |left| == |values|
      invariant Collect(children, values, 0).0 == shares + Collect(children[position..], left, position).0
      invariant Collect(children, values, 0).1 == Collect(children[position..], left, position).1
    {
      ghost var before := shares;
      ghost var rest := children[position..];
      assert rest[0] == children[position] && rest[1..] == children[position + 1..];
      var child := children[position];
      var taken := left[child];
      left := left[child := None];
      if taken.Some? {
        CoordinateNonzero(position + 1);
        var share := FromParts(Coordinate(position + 1), taken.value);
        shares := shares + [share.value];
        ghost var tail := Collect(children[position + 1..], left, position + 1);
        assert before + ([share.value] + tail.0) == shares + tail.0;
      }
      position := position + 1;
    }
    assert children[position..] == [];
    assert shares + [] == shares;
  }

  method RecoverNetwork(policy: ProductionPolicy, recovered: seq<NetworkShare>) returns (result: Result<Secret, PolicyError>)
    requires ValidPolicy(policy)
    ensures PlanOk(policy.plan) && result == Recovered(policy.plan, recovered)
  {
    PolicyPlanOk(policy);
    hide Collect, Reconstructed, Find, Responses, ValidPolicy;
    var plan := policy.plan;
    PolicyLeafIds(policy);
    var responses := CollectResponses(plan.leaves, IdsOf(recovered));
    if responses.Failure? {
      return Failure(responses.error);
    }
    var values: seq<Option<Secret>> := [];
    while |values| < |plan.gates|
      invariant |values| <= |plan.gates|
      invariant Run(plan, recovered, [], |plan.gates|) == Run(plan, recovered, values, |plan.gates|)
      decreases |plan.gates| - |values|
    {
      assert GateOk(plan.gates[|values|], |values|, |plan.leaves|);
      match plan.gates[|values|] {
        case LeafGate(index) =>
          var secret := FindShare(recovered, plan.leaves[index].0);
          values := values + [secret];
        case ThresholdGate(required, children) =>
          var shares, left := TakeShares(children, values);
          if |shares| < required {
            values := left + [None];
          } else {
            var secret := Reconstruct(required, shares);
            if secret.Failure? {
              return Failure(SharingFailed(secret.error));
            }
            values := left + [Some(secret.value)];
          }
      }
    }
    if values == [] || values[|values| - 1].None? {
      return Failure(FactorsNotSatisfied);
    }
    result := Success(values[|values| - 1].value);
  }

  // ----- recovery matches the decision -----

  function Nones(n: nat): (s: seq<Option<Secret>>)
    ensures |s| == n
  {
    seq(n, _ => None)
  }

  function Outcome(node: NetworkNode, secret: Secret, available: set<U8>): Option<Secret> {
    if Satisfied(node, available) then Some(secret) else None
  }

  /** The working values of a subtree: only its root holds anything. */
  function NodeOutcome(node: NetworkNode, secret: Secret, available: set<U8>): (s: seq<Option<Secret>>)
    ensures |s| == Size(node)
  {
    Nones(Size(node) - 1) + [Outcome(node, secret, available)]
  }

  /** The working values of a forest: only its roots hold anything. */
  function ForestOutcome(nodes: seq<NetworkNode>, held: seq<Share>, available: set<U8>): (s: seq<Option<Secret>>)
    requires |held| == |nodes|
    ensures |s| == ForestSize(nodes)
    decreases |nodes|
  {
    if nodes == [] then []
    else NodeOutcome(nodes[0], held[0].value, available) + ForestOutcome(nodes[1..], held[1..], available)
  }

  /** The shares of the satisfied children. */
  function Chosen(nodes: seq<NetworkNode>, held: seq<Share>, available: set<U8>): (s: seq<Share>)
    requires |held| == |nodes|
    ensures |s| == SatisfiedCount(nodes, available)
    decreases |nodes|
  {
    if nodes == [] then []
    else (if Satisfied(nodes[0], available) then [held[0]] else []) + Chosen(nodes[1..], held[1..], available)
  }

  lemma ChosenStep(nodes: seq<NetworkNode>, held: seq<Share>, available: set<U8>)
    requires |held| == |nodes| && nodes != []
    ensures var tail := Chosen(nodes[1..], held[1..], available);
            Chosen(nodes, held, available) == if Satisfied(nodes[0], available) then [held[0]] + tail else tail
  {
    hide Satisfied;
  }

  predicate Apart(shares: seq<Share>) { forall i, j :: 0 <= i < j < |shares| ==> shares[i].index != shares[j].index }

  lemma ApartCons(share: Share, tail: seq<Share>, rest: seq<Share>)
    requires Apart([share] + rest) && Apart(tail) && forall other :: other in tail ==> other in rest
    ensures Apart([share] + tail)
  {
    var all := [share] + rest;
    forall i | 0 <= i < |tail| ensures tail[i].index != share.index {
      assert tail[i] in rest;
      var k :| 0 <= k < |rest| && rest[k] == tail[i];
      assert all[0] == share && all[k + 1] == rest[k];
    }
  }

  lemma {:induction false} ChosenSublist(nodes: seq<NetworkNode>, held: seq<Share>, available: set<U8>)
    requires |held| == |nodes| && Apart(held)
    ensures var s := Chosen(nodes, held, available); Apart(s) && forall share :: share in s ==> share in held
    decreases |nodes|
  {
    hide Satisfied, Apart;
    if nodes == [] {
      assert Chosen(nodes, held, available) == held;
    } else {
      hide Chosen;
      assert Apart(held[1..]) by { ApartTail(held); }
      ChosenSublist(nodes[1..], held[1..], available);
      ChosenStep(nodes, held, available);
      assert held == [held[0]] + held[1..];
      ApartCons(held[0], Chosen(nodes[1..], held[1..], available), held[1..]);
    }
  }

  lemma ApartTail(shares: seq<Share>)
    requires Apart(shares) && shares != []
    ensures Apart(shares[1..])
  {}

  /** Reading and emptying the root slot of the first of several subtrees. */
  lemma TakeSlot(before: seq<Option<Secret>>, n: nat, outcome: Option<Secret>, tail: seq<Option<Secret>>)
    requires n > 0
    ensures var values := before + (Nones(n - 1) + [outcome] + tail);
            var root := |before| + n - 1;
            root < |values| && values[root] == outcome && values[root := None] == (before + Nones(n)) + tail
  {}

  lemma NonesJoin(before: seq<Option<Secret>>, a: nat, b: nat)
    ensures (before + Nones(a)) + Nones(b) == before + Nones(a + b)
  {}

  lemma CollectStep(children: seq<nat>, values: seq<Option<Secret>>, position: nat)
    requires children != [] && EdgesBelow(children, |values|) && position + |children| < 255
    ensures EdgesBelow(children[1..], |values[children[0] := None]|)
    ensures var rest := Collect(children[1..], values[children[0] := None], position + 1);
            Collect(children, values, position)
            == match values[children[0]]
               case None => rest
               case Some(secret) => ([Share(Coordinate(position + 1), secret)] + rest.0, rest.1)
  {
    hide Coordinate;
  }

  /** Share i sits at coordinate position + i + 1. */
  predicate HeldFrom(held: seq<Share>, position: nat)
    requires position + |held| < 255
  {
    forall i :: 0 <= i < |held| ==> held[i].index == Coordinate(position + i + 1)
  }

  lemma HeldStep(held: seq<Share>, position: nat)
    requires position + |held| < 255 && held != [] && HeldFrom(held, position)
    ensures held[0] == Share(Coordinate(position + 1), held[0].value) && HeldFrom(held[1..], position + 1)
  {
    hide Coordinate;
    forall i | 0 <= i < |held| - 1 ensures held[1..][i].index == Coordinate(position + 1 + i + 1) {
      assert held[1..][i] == held[i + 1];
    }
  }

  lemma RootsStep(nodes: seq<NetworkNode>, g: nat)
    requires nodes != []
    ensures ForestSize(nodes) == Size(nodes[0]) + ForestSize(nodes[1..])
    ensures ForestRoots(nodes, g)[0] == g + Size(nodes[0]) - 1
    ensures ForestRoots(nodes, g)[1..] == ForestRoots(nodes[1..], g + Size(nodes[0]))
  {
    hide Size;
  }

  lemma RootsBelow(nodes: seq<NetworkNode>, g: nat)
    ensures |ForestRoots(nodes, g)| == |nodes| && EdgesBelow(ForestRoots(nodes, g), g + ForestSize(nodes))
  {}

  /** Collecting at the first root of a forest whose working values are `before`, the first subtree's and `tail`. */
  lemma CollectFirst(nodes: seq<NetworkNode>, before: seq<Option<Secret>>, value: Option<Secret>, tail: seq<Option<Secret>>, position: nat)
    requires nodes != [] && position + |nodes| < 255 && |tail| == ForestSize(nodes[1..])
    ensures var n := Size(nodes[0]);
            var roots, values := ForestRoots(nodes, |before|), before + (Nones(n - 1) + [value] + tail);
            var before' := before + Nones(n);
            && EdgesBelow(roots, |values|) && EdgesBelow(ForestRoots(nodes[1..], |before'|), |before' + tail|)
            && |ForestRoots(nodes[1..], |before'|)| == |nodes| - 1 && |roots| == |nodes|
            && var rest := Collect(ForestRoots(nodes[1..], |before'|), before' + tail, position + 1);
               Collect(roots, values, position)
               == match value case None => rest case Some(secret) => ([Share(Coordinate(position + 1), secret)] + rest.0, rest.1)
  {
    hide Coordinate, Collect, ForestRoots, ForestSize, Size;
    RootsStep(nodes, |before|);
    RootsBelow(nodes, |before|);
    RootsBelow(nodes[1..], |before| + Size(nodes[0]));
    TakeSlot(before, Size(nodes[0]), value, tail);
    CollectStep(ForestRoots(nodes, |before|), before + (Nones(Size(nodes[0]) - 1) + [value] + tail), position);
  }

  /** Collecting at a forest's roots yields the satisfied children's shares and empties every slot. */
  lemma {:induction false} CollectForest(nodes: seq<NetworkNode>, before: seq<Option<Secret>>, held: seq<Share>,
                                         available: set<U8>, position: nat)
    requires |held| == |nodes| && position + |nodes| < 255 && HeldFrom(held, position)
    ensures EdgesBelow(ForestRoots(nodes, |before|), |before| + ForestSize(nodes))
    ensures Collect(ForestRoots(nodes, |before|), before + ForestOutcome(nodes, held, available), position)
         == (Chosen(nodes, held, available), before + Nones(ForestSize(nodes)))
    decreases |nodes|
  {
    hide Coordinate, Satisfied, Nones, Size, Chosen, Collect, HeldFrom, ForestRoots, ForestSize, ForestOutcome, EdgesBelow, Outcome;
    RootsBelow(nodes, |before|);
    if nodes == [] {
      CollectNone(nodes, before, held, available, position);
    } else {
      var node, rest := nodes[0], nodes[1..];
      var tail := ForestOutcome(rest, held[1..], available);
      HeldStep(held, position);
      RootsStep(nodes, |before|);
      ForestOutcomeStep(nodes, held, available);
      CollectFirst(nodes, before, Outcome(node, held[0].value, available), tail, position);
      CollectForest(rest, before + Nones(Size(node)), held[1..], available, position + 1);
      NonesJoin(before, Size(node), ForestSize(rest));
      ChosenStep(nodes, held, available);
      OutcomeCases(node, held[0].value, available);
    }
  }

  lemma OutcomeCases(node: NetworkNode, secret: Secret, available: set<U8>)
    ensures Outcome(node, secret, available) == if Satisfied(node, available) then Some(secret) else None
  {}

  lemma CollectNothing(before: seq<Option<Secret>>, held: seq<Share>, available: set<U8>, position: nat)
    requires held == [] && position < 255
    ensures Collect([], before + [], position) == (Chosen([], held, available), before + Nones(0))
  {
    assert before + Nones(0) == before;
    assert before + [] == before;
  }

  lemma CollectNone(nodes: seq<NetworkNode>, before: seq<Option<Secret>>, held: seq<Share>, available: set<U8>, position: nat)
    requires nodes == [] && held == [] && position < 255
    ensures ForestSize(nodes) == 0 && ForestRoots(nodes, |before|) == [] && ForestOutcome(nodes, held, available) == []
    ensures EdgesBelow([], |before + []|)
    ensures Collect([], before + [], position) == (Chosen(nodes, held, available), before + Nones(0))
  {
    CollectNothing(before, held, available, position);
  }

  /** Looking up each leaf of the subtree finds its payload exactly when the leaf is available. */
  predicate Answers(recovered: seq<NetworkShare>, shares: seq<NetworkShare>, available: set<U8>) {
    forall i :: 0 <= i < |shares| ==>
      Find(recovered, shares[i].0) == if shares[i].0 in available then Some(shares[i].1) else None
  }

  lemma AnswersConcat(recovered: seq<NetworkShare>, a: seq<NetworkShare>, b: seq<NetworkShare>, available: set<U8>)
    requires Answers(recovered, a + b, available)
    ensures Answers(recovered, a, available) && Answers(recovered, b, available)
  {
    hide Find;
    assert forall i :: 0 <= i < |a| ==> (a + b)[i] == a[i];
    assert forall i :: 0 <= i < |b| ==> (a + b)[|a| + i] == b[i];
  }

  lemma {:induction false} RunCompose(plan: Plan, recovered: seq<NetworkShare>, values: seq<Option<Secret>>, m: nat, n: nat)
    requires PlanOk(plan) && |values| <= m <= n <= |plan.gates|
    requires Run(plan, recovered, values, m).Success?
    ensures Run(plan, recovered, values, n) == Run(plan, recovered, Run(plan, recovered, values, m).value, n)
    decreases m - |values|
  {
    hide RunGate;
    if |values| < m {
      var next := RunGate(plan, recovered, plan.gates[|values|], values);
      RunCompose(plan, recovered, next.value, m, n);
    }
  }

  /** A subtree compiled at (g, l), shared with `coins`, whose available payloads can be looked up. */
  predicate NodeReady(node: NetworkNode, secret: Secret, coins: Coins, plan: Plan, g: nat, l: nat,
                      recovered: seq<NetworkShare>, available: set<U8>)
  {
    && LaidOut(node, plan.gates, plan.leaves, g, l) && ThresholdsValid(node) && CoinsFit(node, coins)
    && Answers(recovered, LeafShares(node, secret, coins), available)
  }

  predicate ForestReady(nodes: seq<NetworkNode>, held: seq<Share>, coins: seq<Coins>, plan: Plan, g: nat, l: nat,
                        recovered: seq<NetworkShare>, available: set<U8>)
    requires |held| == |nodes|
  {
    && ForestLaidOut(nodes, plan.gates, plan.leaves, g, l) && ForestValid(nodes) && ForestCoinsFit(nodes, coins)
    && Answers(recovered, ForestShares(nodes, held, coins), available)
  }

  lemma ForestReadyStep(nodes: seq<NetworkNode>, held: seq<Share>, coins: seq<Coins>, plan: Plan, g: nat, l: nat,
                        recovered: seq<NetworkShare>, available: set<U8>)
    requires |held| == |nodes| && nodes != [] && ForestReady(nodes, held, coins, plan, g, l, recovered, available)
    ensures |coins| == |nodes|
    ensures NodeReady(nodes[0], held[0].value, coins[0], plan, g, l, recovered, available)
    ensures ForestReady(nodes[1..], held[1..], coins[1..], plan, g + Size(nodes[0]), l + |Leaves(nodes[0])|, recovered, available)
  {
    hide LaidOut, ForestLaidOut, Answers, LeafShares, CoinsFit, ThresholdsValid, Size, Leaves;
    ForestLayout(nodes, plan.gates, plan.leaves, g, l);
    AnswersConcat(recovered, LeafShares(nodes[0], held[0].value, coins[0]), ForestShares(nodes[1..], held[1..], coins[1..]), available);
  }

  lemma ThresholdReady(node: NetworkNode, secret: Secret, coins: Coins, plan: Plan, g: nat, l: nat,
                       recovered: seq<NetworkShare>, available: set<U8>)
    requires node.Threshold? && NodeReady(node, secret, coins, plan, g, l, recovered, available)
    ensures coins.GateCoins? && |coins.table| == SECRET_LEN && |node.children| < 256
    ensures ForestReady(node.children, SplitShares(secret, coins.table, |node.children|), coins.children, plan, g, l, recovered, available)
    ensures g + ForestSize(node.children) < |plan.gates|
    ensures plan.gates[g + ForestSize(node.children)] == ThresholdGate(node.required, ForestRoots(node.children, g))
  {
    hide LaidOut, ForestLaidOut, Answers, LeafShares, ForestShares, SplitShares;
    ThresholdLayout(node, plan.gates, plan.leaves, g, l);
    ThresholdShares(node, secret, coins);
  }

  lemma ReadyBounds(node: NetworkNode, secret: Secret, coins: Coins, plan: Plan, g: nat, l: nat,
                    recovered: seq<NetworkShare>, available: set<U8>)
    requires NodeReady(node, secret, coins, plan, g, l, recovered, available)
    ensures g + Size(node) <= |plan.gates| && ThresholdsValid(node) && CoinsFit(node, coins)
  {}

  lemma ForestReadyBounds(nodes: seq<NetworkNode>, held: seq<Share>, coins: seq<Coins>, plan: Plan, g: nat, l: nat,
                          recovered: seq<NetworkShare>, available: set<U8>)
    requires |held| == |nodes| && ForestReady(nodes, held, coins, plan, g, l, recovered, available)
    ensures g + ForestSize(nodes) <= |plan.gates|
  {}

  lemma RunLeaf(node: NetworkNode, secret: Secret, coins: Coins, plan: Plan, g: nat, l: nat,
                values: seq<Option<Secret>>, recovered: seq<NetworkShare>, available: set<U8>)
    requires node.Leaf? && PlanOk(plan) && NodeReady(node, secret, coins, plan, g, l, recovered, available) && |values| == g
    ensures g < |plan.gates|
    ensures Run(plan, recovered, values, g + 1) == Success(values + NodeOutcome(node, secret, available))
  {
    hide At, Find;
    AtSingle(plan.gates, g, LeafGate(l));
    AtSingle(plan.leaves, l, (node.id, node.provider));
    assert LeafShares(node, secret, coins)[0] == (node.id, secret);
    assert NodeOutcome(node, secret, available) == [Outcome(node, secret, available)];
  }

  /** The last gate of a threshold, run on its children's values. */
  lemma RunLast(plan: Plan, recovered: seq<NetworkShare>, values: seq<Option<Secret>>, middle: seq<Option<Secret>>,
                after: seq<Option<Secret>>)
    requires PlanOk(plan) && |values| <= |middle| < |plan.gates|
    requires Run(plan, recovered, values, |middle|) == Success(middle)
    requires GateOk(plan.gates[|middle|], |middle|, |plan.leaves|)
    requires RunGate(plan, recovered, plan.gates[|middle|], middle) == Success(after)
    ensures Run(plan, recovered, values, |middle| + 1) == Success(after)
  {
    hide RunGate, PlanOk;
    RunCompose(plan, recovered, values, |middle|, |middle| + 1);
  }

  /** Recovery of one subtree: it leaves the subtree's secret at its root exactly when the subtree is satisfied. */
  lemma {:induction false} RunNode(node: NetworkNode, secret: Secret, coins: Coins, plan: Plan, g: nat, l: nat,
                                   values: seq<Option<Secret>>, recovered: seq<NetworkShare>, available: set<U8>)
    requires PlanOk(plan) && NodeReady(node, secret, coins, plan, g, l, recovered, available) && |values| == g
    ensures g + Size(node) <= |plan.gates|
    ensures Run(plan, recovered, values, g + Size(node)) == Success(values + NodeOutcome(node, secret, available))
    decreases node, 1
  {
    hide NodeReady, ForestReady, PlanOk, Run, RunGate, GateOk, NodeOutcome, ForestOutcome, SplitShares;
    ReadyBounds(node, secret, coins, plan, g, l, recovered, available);
    if node.Leaf? {
      RunLeaf(node, secret, coins, plan, g, l, values, recovered, available);
    } else {
      ThresholdReady(node, secret, coins, plan, g, l, recovered, available);
      var held := SplitShares(secret, coins.table, |node.children|);
      var middle := values + ForestOutcome(node.children, held, available);
      RunForest(node.children, held, coins.children, plan, g, l, values, recovered, available);
      ThresholdGateRuns(node, secret, coins, plan, values, recovered, available);
      RunLast(plan, recovered, values, middle, values + NodeOutcome(node, secret, available));
    }
  }

  lemma ThresholdShares(node: NetworkNode, secret: Secret, coins: Coins)
    requires node.Threshold? && CoinsFit(node, coins)
    ensures LeafShares(node, secret, coins)
         == ForestShares(node.children, SplitShares(secret, coins.table, |node.children|), coins.children)
  {}

  /** The threshold gate itself: enough satisfied children rebuild the secret, fewer give nothing. */
  lemma ThresholdGateRuns(node: NetworkNode, secret: Secret, coins: Coins, plan: Plan,
                          values: seq<Option<Secret>>, recovered: seq<NetworkShare>, available: set<U8>)
    requires node.Threshold? && ThresholdsValid(node) && CoinsFit(node, coins)
    ensures var children := node.children;
            var held := SplitShares(secret, coins.table, |children|);
            var gate := ThresholdGate(node.required, ForestRoots(children, |values|));
            var middle := values + ForestOutcome(children, held, available);
            && GateOk(gate, |middle|, |plan.leaves|)
            && RunGate(plan, recovered, gate, middle) == Success(values + NodeOutcome(node, secret, available))
  {
    hide Reconstructed, Collect, Chosen, ForestOutcome, ForestRoots, Coordinate, ShareValue;
    var children := node.children;
    var held := SplitShares(secret, coins.table, |children|);
    CollectForest(children, values, held, available, 0);
    var chosen := Chosen(children, held, available);
    if |chosen| >= node.required {
      forall i, j | 0 <= i < j < |held| ensures held[i].index != held[j].index {
        CoordinateInjective(i + 1, j + 1);
      }
      ChosenSublist(children, held, available);
      QuorumRecovers(secret, coins.table, node.required, |children|, chosen);
    }
    ConcatAssociative(values, Nones(ForestSize(children)), [Outcome(node, secret, available)]);
  }

  lemma ForestOutcomeStep(nodes: seq<NetworkNode>, held: seq<Share>, available: set<U8>)
    requires |held| == |nodes| && nodes != []
    ensures ForestOutcome(nodes, held, available)
         == NodeOutcome(nodes[0], held[0].value, available) + ForestOutcome(nodes[1..], held[1..], available)
  {
    hide NodeOutcome;
  }

  lemma {:induction false} RunForest(nodes: seq<NetworkNode>, held: seq<Share>, coins: seq<Coins>, plan: Plan, g: nat, l: nat,
                                     values: seq<Option<Secret>>, recovered: seq<NetworkShare>, available: set<U8>)
    requires PlanOk(plan) && |held| == |nodes| && |values| == g
    requires ForestReady(nodes, held, coins, plan, g, l, recovered, available)
    ensures g + ForestSize(nodes) <= |plan.gates|
    ensures Run(plan, recovered, values, g + ForestSize(nodes)) == Success(values + ForestOutcome(nodes, held, available))
    decreases nodes, 0
  {
    hide NodeReady, ForestReady, PlanOk, RunGate, NodeOutcome;
    ForestReadyBounds(nodes, held, coins, plan, g, l, recovered, available);
    if nodes == [] {
      assert values + [] == values;
    } else {
      ForestOutcomeStep(nodes, held, available);
      hide Run, ForestOutcome;
      ForestReadyStep(nodes, held, coins, plan, g, l, recovered, available);
      var node, rest := nodes[0], nodes[1..];
      var outcome := NodeOutcome(node, held[0].value, available);
      RunNode(node, held[0].value, coins[0], plan, g, l, values, recovered, available);
      RunForest(rest, held[1..], coins[1..], plan, g + Size(node), l + |Leaves(node)|, values + outcome, recovered, available);
      RunCompose(plan, recovered, values, g + Size(node), g + ForestSize(nodes));
      ConcatAssociative(values, outcome, ForestOutcome(rest, held[1..], available));
    }
  }

  // ----- compiled plans are well formed -----

  /** Gates that follow `g` others refer only backwards. */
  predicate GatesOk(gates: seq<Gate>, g: nat, leaves: nat) {
    forall i :: 0 <= i < |gates| ==> GateOk(gates[i], g + i, leaves)
  }

  lemma GatesOkConcat(a: seq<Gate>, b: seq<Gate>, g: nat, leaves: nat)
    requires GatesOk(a, g, leaves) && GatesOk(b, g + |a|, leaves)
    ensures GatesOk(a + b, g, leaves)
  {
    hide GateOk;
    forall i | 0 <= i < |a + b| ensures GateOk((a + b)[i], g + i, leaves) {
      if i >= |a| {
        assert (a + b)[i] == b[i - |a|];
        assert GateOk(b[i - |a|], g + |a| + (i - |a|), leaves);
      }
    }
  }

  lemma {:induction false} CompiledOk(node: NetworkNode, g: nat, l: nat, leaves: nat)
    requires l + |Leaves(node)| <= leaves && Size(node) <= MAX_SHARES
    ensures GatesOk(Gates(node, g, l), g, leaves)
    decreases node, 1
  {
    match node {
      case Leaf(_, _) =>
      case Threshold(_, required, children) =>
        ForestCompiledOk(children, g, l, leaves);
        ChildCount(children);
        var last := ThresholdGate(required, ForestRoots(children, g));
        assert GateOk(last, g + ForestSize(children), leaves);
        GatesOkConcat(ForestGates(children, g, l), [last], g, leaves);
    }
  }

  lemma {:induction false} ForestCompiledOk(nodes: seq<NetworkNode>, g: nat, l: nat, leaves: nat)
    requires l + |ForestLeaves(nodes)| <= leaves && ForestSize(nodes) <= MAX_SHARES
    ensures GatesOk(ForestGates(nodes, g, l), g, leaves)
    decreases nodes, 0
  {
    if nodes != [] {
      var node, rest := nodes[0], nodes[1..];
      CompiledOk(node, g, l, leaves);
      ForestCompiledOk(rest, g + Size(node), l + |Leaves(node)|, leaves);
      GatesOkConcat(Gates(node, g, l), ForestGates(rest, g + Size(node), l + |Leaves(node)|), g, leaves);
    }
  }

  lemma PolicyPlanOk(policy: ProductionPolicy)
    requires ValidPolicy(policy)
    ensures PlanOk(policy.plan)
  {
    hide Gates, GateOk;
    CompiledOk(policy.network, 0, 0, |policy.plan.leaves|);
    var gates := policy.plan.gates;
    forall i | 0 <= i < |gates| ensures GateOk(gates[i], i, |policy.plan.leaves|) {
      assert GateOk(gates[i], 0 + i, |policy.plan.leaves|);
    }
  }

  // ----- the main result -----

  lemma {:induction false} FindMeaning(recovered: seq<NetworkShare>, id: U8)
    ensures Find(recovered, id).Some? <==> id in IdsOf(recovered)
    ensures Find(recovered, id).Some? ==> (id, Find(recovered, id).value) in recovered
  {
    if recovered != [] {
      FindMeaning(recovered[1..], id);
      var ids, rest := IdsOf(recovered), IdsOf(recovered[1..]);
      assert ids == [recovered[0].0] + rest;
      assert recovered == [recovered[0]] + recovered[1..];
    }
  }

  /** Some of the leaf payloads, in any order, each leaf at most once. */
  predicate Sublist(recovered: seq<NetworkShare>, shares: seq<NetworkShare>) {
    && Distinct(IdsOf(recovered))
    && forall share :: share in recovered ==> share in shares
  }

  lemma SublistAnswers(recovered: seq<NetworkShare>, shares: seq<NetworkShare>)
    requires Sublist(recovered, shares) && Distinct(IdsOf(shares))
    ensures Answers(recovered, shares, Elements(IdsOf(recovered)))
  {
    hide Find;
    forall i | 0 <= i < |shares|
      ensures Find(recovered, shares[i].0)
           == if shares[i].0 in Elements(IdsOf(recovered)) then Some(shares[i].1) else None
    {
      var id := shares[i].0;
      FindMeaning(recovered, id);
      if id in IdsOf(recovered) {
        var value := Find(recovered, id).value;
        assert (id, value) in shares;
        var k :| 0 <= k < |shares| && shares[k] == (id, value);
        assert IdsOf(shares)[k] == IdsOf(shares)[i];
        assert k == i;
      }
    }
  }

  /** Nested recovery matches the decision. For every admitted policy, secret and randomness, recovery from any
      sublist of the leaf payloads, in any order, returns the secret exactly when the network threshold holds for
      those identities; otherwise it reports unsatisfied factors, never a sharing error. */
  lemma NestedRecovery(policy: ProductionPolicy, secret: Secret, coins: Coins, recovered: seq<NetworkShare>)
    requires ValidPolicy(policy) && CoinsFit(policy.network, coins)
    requires Sublist(recovered, LeafShares(policy.network, secret, coins))
    ensures PlanOk(policy.plan)
    ensures SatisfiedBy(policy, IdsOf(recovered)) == Success(Satisfied(policy.network, Elements(IdsOf(recovered))))
    ensures Recovered(policy.plan, recovered)
         == if Satisfied(policy.network, Elements(IdsOf(recovered))) then Success(secret) else Failure(FactorsNotSatisfied)
  {
    hide Run, PlanOk, Satisfied, LeafShares, Gates, Leaves, SatisfiedBy, Responses;
    var node, plan := policy.network, policy.plan;
    var shares, available := LeafShares(node, secret, coins), Elements(IdsOf(recovered));
    PolicyPlanOk(policy);
    PolicyLeafIds(policy);
    assert IdsOf(shares) == IdsOf(plan.leaves);
    SublistAnswers(recovered, shares);
    SublistObservable(policy, shares, recovered);
    DecisionMeansTree(policy, IdsOf(recovered));
    SatisfiedByResponses(policy, IdsOf(recovered));
    AtWhole(plan.gates, Gates(node, 0, 0));
    AtWhole(plan.leaves, Leaves(node));
    RunNode(node, secret, coins, plan, 0, 0, [], recovered, available);
    assert [] + NodeOutcome(node, secret, available) == NodeOutcome(node, secret, available);
  }

  lemma SatisfiedByResponses(policy: ProductionPolicy, available: seq<U8>)
    requires ValidPolicy(policy)
    ensures SatisfiedBy(policy, available).Success? <==> Responses(policy.plan.leaves, available).Success?
  {}

  lemma SublistObservable(policy: ProductionPolicy, shares: seq<NetworkShare>, recovered: seq<NetworkShare>)
    requires Sublist(recovered, shares) && IdsOf(shares) == IdsOf(policy.plan.leaves)
    ensures Observable(policy, IdsOf(recovered))
  {
    forall id | id in IdsOf(recovered) ensures id in IdsOf(policy.plan.leaves) {
      var k :| 0 <= k < |recovered| && IdsOf(recovered)[k] == id;
      assert recovered[k] in shares;
      var j :| 0 <= j < |shares| && shares[j] == recovered[k];
      assert IdsOf(shares)[j] == id;
    }
  }

  // ----- recovery from arbitrary payloads -----

  /** The shares of the children that hold a value, at their positions. */
  function SharesOf(kids: seq<Option<Secret>>, position: nat): (shares: seq<Share>)
    requires position + |kids| < 255
    ensures |shares| <= |kids|
    decreases |kids|
  {
    if kids == [] then []
    else (if kids[0].Some? then [Share(Coordinate(position + 1), kids[0].value)] else []) + SharesOf(kids[1..], position + 1)
  }

  /** What a threshold makes of its children's shares: nothing from too few, the secret of the polynomials through all of
      them, or a refusal (None) if there are none. */
  ghost function GateValue(required: nat, shares: seq<Share>): Option<Option<Secret>>
    requires required > 0
  {
    if |shares| < required then Some(None)
    else if polys :| Fits(polys, required, shares) then Some(Some(Constants(polys)))
    else None
  }

  /** What a subtree holds, read off the tree itself, from any payloads; None if some threshold refuses its shares. */
  ghost function TreeValue(node: NetworkNode, recovered: seq<NetworkShare>): Option<Option<Secret>>
    requires ThresholdsValid(node) && Size(node) <= MAX_SHARES
    decreases node, 1
  {
    match node
    case Leaf(id, _) => Some(Find(recovered, id))
    case Threshold(_, required, children) =>
      ChildCount(children);
      match ForestValues(children, recovered)
      case None => None
      case Some(kids) => GateValue(required, SharesOf(kids, 0))
  }

  ghost function ForestValues(nodes: seq<NetworkNode>, recovered: seq<NetworkShare>): (kids: Option<seq<Option<Secret>>>)
    requires ForestValid(nodes) && ForestSize(nodes) <= MAX_SHARES
    ensures kids.Some? ==> |kids.value| == |nodes|
    decreases nodes, 0
  {
    if nodes == [] then Some([])
    else
      match TreeValue(nodes[0], recovered)
      case None => None
      case Some(value) =>
        match ForestValues(nodes[1..], recovered)
        case None => None
        case Some(kids) => Some([value] + kids)
  }

  /** The working values a subtree leaves: only its root holds anything. */
  function Slots(node: NetworkNode, value: Option<Secret>): (s: seq<Option<Secret>>)
    ensures |s| == Size(node)
  {
    Nones(Size(node) - 1) + [value]
  }

  function ForestSlots(nodes: seq<NetworkNode>, kids: seq<Option<Secret>>): (s: seq<Option<Secret>>)
    requires |kids| == |nodes|
    ensures |s| == ForestSize(nodes)
    decreases |nodes|
  {
    if nodes == [] then [] else Slots(nodes[0], kids[0]) + ForestSlots(nodes[1..], kids[1..])
  }

  predicate Spanned(index: GF256.Byte, lo: nat, hi: nat)
    requires hi < 256
  {
    exists p :: lo < p <= hi && index == Coordinate(p)
  }

  /** Distinct coordinates among lo + 1, ..., hi. */
  predicate Within(shares: seq<Share>, lo: nat, hi: nat)
    requires hi < 256
  {
    && (forall i :: 0 <= i < |shares| ==> Spanned(shares[i].index, lo, hi))
    && (forall i, j :: 0 <= i < j < |shares| ==> shares[i].index != shares[j].index)
  }

  lemma SpanStep(index: GF256.Byte, lo: nat, hi: nat)
    requires lo < hi < 256 && Spanned(index, lo + 1, hi)
    ensures Spanned(index, lo, hi) && index != Coordinate(lo + 1)
  {
    hide Coordinate;
    var p :| lo + 1 < p <= hi && index == Coordinate(p);
    CoordinateInjective(p, lo + 1);
  }

  lemma WithinLess(rest: seq<Share>, lo: nat, hi: nat)
    requires lo < hi < 256 && Within(rest, lo + 1, hi)
    ensures Within(rest, lo, hi) && forall i :: 0 <= i < |rest| ==> rest[i].index != Coordinate(lo + 1)
  {
    hide Coordinate, Spanned;
    forall i | 0 <= i < |rest| ensures Spanned(rest[i].index, lo, hi) && rest[i].index != Coordinate(lo + 1) {
      SpanStep(rest[i].index, lo, hi);
    }
  }

  lemma WithinCons(share: Share, rest: seq<Share>, lo: nat, hi: nat)
    requires lo < hi < 256 && share.index == Coordinate(lo + 1) && Within(rest, lo + 1, hi)
    ensures Within([share] + rest, lo, hi)
  {
    hide Coordinate, Spanned;
    WithinLess(rest, lo, hi);
    SpanFirst(lo, hi);
  }

  lemma SpanFirst(lo: nat, hi: nat)
    requires lo < hi < 256
    ensures Spanned(Coordinate(lo + 1), lo, hi)
  {
    hide Coordinate;
  }

  lemma {:induction false} SharesWithin(kids: seq<Option<Secret>>, position: nat)
    requires position + |kids| < 255
    ensures Within(SharesOf(kids, position), position, position + |kids|)
    decreases |kids|
  {
    hide Coordinate, Within;
    if kids == [] {
      NothingWithin(position);
    } else {
      var rest := SharesOf(kids[1..], position + 1);
      SharesWithin(kids[1..], position + 1);
      if kids[0].Some? {
        WithinCons(Share(Coordinate(position + 1), kids[0].value), rest, position, position + |kids|);
      } else {
        WithinLess(rest, position, position + |kids|);
        assert SharesOf(kids, position) == rest;
      }
    }
  }

  /** Collecting at a forest's roots yields the children's shares and empties every slot. */
  lemma {:induction false} CollectSlots(nodes: seq<NetworkNode>, before: seq<Option<Secret>>, kids: seq<Option<Secret>>, position: nat)
    requires |kids| == |nodes| && position + |nodes| < 255
    ensures |ForestRoots(nodes, |before|)| == |nodes|
    ensures EdgesBelow(ForestRoots(nodes, |before|), |before| + ForestSize(nodes))
    ensures Collect(ForestRoots(nodes, |before|), before + ForestSlots(nodes, kids), position)
         == (SharesOf(kids, position), before + Nones(ForestSize(nodes)))
    decreases |nodes|
  {
    hide Coordinate, Nones, Size, Collect, ForestRoots, ForestSize, EdgesBelow, Slots;
    RootsBelow(nodes, |before|);
    if nodes == [] {
      CollectNone(nodes, before, [], {}, position);
      assert ForestSlots(nodes, kids) == [];
    } else {
      var node, rest := nodes[0], nodes[1..];
      RootsStep(nodes, |before|);
      var tail := ForestSlots(rest, kids[1..]);
      SlotsShape(node, kids[0]);
      assert ForestSlots(nodes, kids) == Nones(Size(node) - 1) + [kids[0]] + tail;
      CollectFirst(nodes, before, kids[0], tail, position);
      CollectSlots(rest, before + Nones(Size(node)), kids[1..], position + 1);
      NonesJoin(before, Size(node), ForestSize(rest));
      assert kids[0].None? ==> SharesOf(kids, position) == SharesOf(kids[1..], position + 1);
    }
  }

  lemma SlotsShape(node: NetworkNode, value: Option<Secret>)
    ensures Slots(node, value) == Nones(Size(node) - 1) + [value]
  {}

  lemma NothingWithin(position: nat)
    requires position < 255
    ensures Within([], position, position)
  {}

  /** Reconstruction of enough children's shares is what the threshold holds. */
  lemma GateReconstructs(required: nat, shares: seq<Share>, count: nat)
    requires 0 < required && count <= MAX_SHARES && Within(shares, 0, count) && |shares| <= count
    ensures |shares| >= required ==>
              match GateValue(required, shares)
              case Some(value) => value.Some? && Reconstructed(required, shares) == Success(value.value)
              case None => Reconstructed(required, shares) == Failure(InconsistentShares)
    ensures |shares| < required ==> GateValue(required, shares) == Some(None)
  {
    hide Reconstructed, Coordinate, FitsShare;
    forall i | 0 <= i < |shares| ensures shares[i].index != GF256.ZERO {
      var index := shares[i].index;
      assert Spanned(index, 0, count);
      var p :| 0 < p <= count && index == Coordinate(p);
      CoordinateNonzero(p);
    }
    ReconstructOutcome(required, shares);
  }

  /** Each leaf of the subtree has some payload exactly when it is available. */
  predicate Present(recovered: seq<NetworkShare>, leaves: seq<LeafEntry>, available: set<U8>) {
    forall i :: 0 <= i < |leaves| ==> (Find(recovered, leaves[i].0).Some? <==> leaves[i].0 in available)
  }

  lemma PresentConcat(recovered: seq<NetworkShare>, a: seq<LeafEntry>, b: seq<LeafEntry>, available: set<U8>)
    requires Present(recovered, a + b, available)
    ensures Present(recovered, a, available) && Present(recovered, b, available)
  {
    hide Find;
    assert forall i :: 0 <= i < |a| ==> (a + b)[i] == a[i];
    assert forall i :: 0 <= i < |b| ==> (a + b)[|a| + i] == b[i];
  }

  /** A refusal of the shares, or the working values after the subtree's. */
  function Outcomes(values: seq<Option<Secret>>, slots: Option<seq<Option<Secret>>>): Result<seq<Option<Secret>>, PolicyError> {
    match slots
    case None => Failure(SharingFailed(InconsistentShares))
    case Some(more) => Success(values + more)
  }

  ghost function SlotsOf(node: NetworkNode, recovered: seq<NetworkShare>): Option<seq<Option<Secret>>>
    requires ThresholdsValid(node) && Size(node) <= MAX_SHARES
  {
    match TreeValue(node, recovered) case None => None case Some(value) => Some(Slots(node, value))
  }

  ghost function ForestSlotsOf(nodes: seq<NetworkNode>, recovered: seq<NetworkShare>): Option<seq<Option<Secret>>>
    requires ForestValid(nodes) && ForestSize(nodes) <= MAX_SHARES
  {
    match ForestValues(nodes, recovered) case None => None case Some(kids) => Some(ForestSlots(nodes, kids))
  }

  lemma ThresholdGateExact(node: NetworkNode, plan: Plan, values: seq<Option<Secret>>, kids: seq<Option<Secret>>, recovered: seq<NetworkShare>)
    requires node.Threshold? && ThresholdsValid(node) && Size(node) <= MAX_SHARES
    requires ForestValid(node.children) && ForestSize(node.children) <= MAX_SHARES && ForestValues(node.children, recovered) == Some(kids)
    ensures var gate := ThresholdGate(node.required, ForestRoots(node.children, |values|));
            && GateOk(gate, |values + ForestSlots(node.children, kids)|, |plan.leaves|)
            && RunGate(plan, recovered, gate, values + ForestSlots(node.children, kids)) == Outcomes(values, SlotsOf(node, recovered))
  {
    hide Reconstructed, Collect, ForestRoots, Coordinate, Within, ForestSlots, GateValue, SharesOf;
    var children := node.children;
    ChildCount(children);
    CollectSlots(children, values, kids, 0);
    var shares := SharesOf(kids, 0);
    SharesWithin(kids, 0);
    GateReconstructs(node.required, shares, |children|);
    assert forall value :: (values + Nones(ForestSize(children))) + [value] == values + Slots(node, value);
  }

  /** A subtree compiled at (g, l). */
  predicate NodePlaced(node: NetworkNode, plan: Plan, g: nat, l: nat) {
    LaidOut(node, plan.gates, plan.leaves, g, l) && ThresholdsValid(node) && Size(node) <= MAX_SHARES
  }

  predicate ForestPlaced(nodes: seq<NetworkNode>, plan: Plan, g: nat, l: nat) {
    ForestLaidOut(nodes, plan.gates, plan.leaves, g, l) && ForestValid(nodes) && ForestSize(nodes) <= MAX_SHARES
  }

  lemma ForestPlacedStep(nodes: seq<NetworkNode>, plan: Plan, g: nat, l: nat)
    requires nodes != [] && ForestPlaced(nodes, plan, g, l)
    ensures NodePlaced(nodes[0], plan, g, l) && ForestPlaced(nodes[1..], plan, g + Size(nodes[0]), l + |Leaves(nodes[0])|)
  {
    hide LaidOut, ForestLaidOut, ThresholdsValid, Leaves, Size;
    ForestLayout(nodes, plan.gates, plan.leaves, g, l);
  }

  lemma ThresholdPlaced(node: NetworkNode, plan: Plan, g: nat, l: nat)
    requires node.Threshold? && NodePlaced(node, plan, g, l)
    ensures ForestPlaced(node.children, plan, g, l)
    ensures ThresholdsValid(node) && Size(node) == ForestSize(node.children) + 1 <= MAX_SHARES
    ensures var n := g + ForestSize(node.children);
            n < |plan.gates| && plan.gates[n] == ThresholdGate(node.required, ForestRoots(node.children, g))
  {
    hide LaidOut, ForestLaidOut, ForestRoots, ForestLeaves;
    ThresholdLayout(node, plan.gates, plan.leaves, g, l);
  }

  lemma PlacedBounds(node: NetworkNode, plan: Plan, g: nat, l: nat)
    requires NodePlaced(node, plan, g, l)
    ensures g + Size(node) <= |plan.gates| && ThresholdsValid(node) && Size(node) <= MAX_SHARES
  {
    hide ThresholdsValid, Leaves;
  }

  lemma ForestPlacedBounds(nodes: seq<NetworkNode>, plan: Plan, g: nat, l: nat)
    requires ForestPlaced(nodes, plan, g, l)
    ensures g + ForestSize(nodes) <= |plan.gates| && ForestValid(nodes) && ForestSize(nodes) <= MAX_SHARES
  {
    hide ForestValid, ForestLeaves;
  }

  lemma RunLeafExact(node: NetworkNode, plan: Plan, g: nat, l: nat, values: seq<Option<Secret>>, recovered: seq<NetworkShare>)
    requires node.Leaf? && PlanOk(plan) && NodePlaced(node, plan, g, l) && |values| == g
    ensures g < |plan.gates| && Run(plan, recovered, values, g + 1) == Outcomes(values, SlotsOf(node, recovered))
  {
    hide At, Find;
    AtSingle(plan.gates, g, LeafGate(l));
    AtSingle(plan.leaves, l, (node.id, node.provider));
    var value := Find(recovered, node.id);
    assert Run(plan, recovered, values, g + 1) == Success(values + [value]);
    assert Slots(node, value) == [value];
  }

  lemma RunOne(plan: Plan, recovered: seq<NetworkShare>, values: seq<Option<Secret>>)
    requires PlanOk(plan) && |values| < |plan.gates|
    ensures GateOk(plan.gates[|values|], |values|, |plan.leaves|)
    ensures Run(plan, recovered, values, |values| + 1) == RunGate(plan, recovered, plan.gates[|values|], values)
  {
    hide RunGate;
  }

  lemma {:induction false} RunStuck(plan: Plan, recovered: seq<NetworkShare>, values: seq<Option<Secret>>, m: nat, n: nat)
    requires PlanOk(plan) && |values| <= m <= n <= |plan.gates|
    requires Run(plan, recovered, values, m).Failure?
    ensures Run(plan, recovered, values, n) == Run(plan, recovered, values, m)
    decreases m - |values|
  {
    hide RunGate;
    var next := RunGate(plan, recovered, plan.gates[|values|], values);
    if next.Success? {
      RunStuck(plan, recovered, next.value, m, n);
    }
  }

  /** A compiled subtree, run on any payloads, leaves what the tree itself holds. */
  lemma {:induction false} RunNodeExact(node: NetworkNode, plan: Plan, g: nat, l: nat, values: seq<Option<Secret>>, recovered: seq<NetworkShare>)
    requires PlanOk(plan) && NodePlaced(node, plan, g, l) && |values| == g
    ensures g + Size(node) <= |plan.gates|
    ensures Run(plan, recovered, values, g + Size(node)) == Outcomes(values, SlotsOf(node, recovered))
    decreases node, 1
  {
    hide NodePlaced, ForestPlaced, PlanOk, Run, RunGate, GateOk, ForestRoots, ThresholdsValid, GateValue, SharesOf, ForestSlots, Slots;
    PlacedBounds(node, plan, g, l);
    if node.Leaf? {
      RunLeafExact(node, plan, g, l, values, recovered);
    } else {
      ThresholdPlaced(node, plan, g, l);
      ForestPlacedBounds(node.children, plan, g, l);
      RunForestExact(node.children, plan, g, l, values, recovered);
      var n := g + ForestSize(node.children);
      if ForestValues(node.children, recovered).Some? {
        var kids := ForestValues(node.children, recovered).value;
        ThresholdGateExact(node, plan, values, kids, recovered);
        RunCompose(plan, recovered, values, n, n + 1);
        RunOne(plan, recovered, values + ForestSlots(node.children, kids));
      } else {
        RunStuck(plan, recovered, values, n, n + 1);
      }
    }
  }

  lemma {:induction false} RunForestExact(nodes: seq<NetworkNode>, plan: Plan, g: nat, l: nat, values: seq<Option<Secret>>, recovered: seq<NetworkShare>)
    requires PlanOk(plan) && ForestPlaced(nodes, plan, g, l) && |values| == g
    ensures g + ForestSize(nodes) <= |plan.gates|
    ensures Run(plan, recovered, values, g + ForestSize(nodes)) == Outcomes(values, ForestSlotsOf(nodes, recovered))
    decreases nodes, 0
  {
    hide NodePlaced, ForestPlaced, PlanOk, RunGate, TreeValue, Slots;
    ForestPlacedBounds(nodes, plan, g, l);
    if nodes == [] {
      assert values + [] == values;
    } else {
      hide Run;
      var node, rest := nodes[0], nodes[1..];
      ForestPlacedStep(nodes, plan, g, l);
      RunNodeExact(node, plan, g, l, values, recovered);
      var m, n := g + Size(node), g + ForestSize(nodes);
      var first := Run(plan, recovered, values, m);
      if first.Success? {
        var slots := SlotsOf(node, recovered).value;
        RunForestExact(rest, plan, m, l + |Leaves(node)|, first.value, recovered);
        RunCompose(plan, recovered, values, m, n);
        if ForestValues(rest, recovered).Some? {
          var more := ForestSlots(rest, ForestValues(rest, recovered).value);
          assert (values + slots) + more == values + (slots + more);
          assert ([TreeValue(node, recovered).value] + ForestValues(rest, recovered).value)[1..] == ForestValues(rest, recovered).value;
        }
      } else {
        RunStuck(plan, recovered, values, m, n);
      }
    }
  }

  /** A subtree that is not refused holds a value exactly when the available leaves satisfy it. */
  lemma {:induction false} ValueSatisfied(node: NetworkNode, recovered: seq<NetworkShare>, available: set<U8>)
    requires ThresholdsValid(node) && Size(node) <= MAX_SHARES && Present(recovered, Leaves(node), available)
    ensures TreeValue(node, recovered).Some? ==> (TreeValue(node, recovered).value.Some? <==> Satisfied(node, available))
    decreases node, 1
  {
    hide Find, Coordinate, Fits;
    if node.Leaf? {
      assert Leaves(node)[0].0 == node.id;
    } else {
      ChildCount(node.children);
      ForestSatisfied(node.children, recovered, available, 0);
    }
  }

  lemma {:induction false} ForestSatisfied(nodes: seq<NetworkNode>, recovered: seq<NetworkShare>, available: set<U8>, position: nat)
    requires ForestValid(nodes) && ForestSize(nodes) <= MAX_SHARES && position + |nodes| < 255 && Present(recovered, ForestLeaves(nodes), available)
    ensures ForestValues(nodes, recovered).Some? ==>
              |SharesOf(ForestValues(nodes, recovered).value, position)| == SatisfiedCount(nodes, available)
    decreases nodes, 0
  {
    hide Find, Coordinate, TreeValue, Leaves, Present, Satisfied;
    if nodes != [] {
      PresentConcat(recovered, Leaves(nodes[0]), ForestLeaves(nodes[1..]), available);
      ValueSatisfied(nodes[0], recovered, available);
      ForestSatisfied(nodes[1..], recovered, available, position + 1);
      if ForestValues(nodes, recovered).Some? {
        assert ForestValues(nodes, recovered).value[1..] == ForestValues(nodes[1..], recovered).value;
      }
    }
  }

  /** Recovery from any payloads at all, honest or not. A list with an unknown or repeated leaf is refused for the earliest
      one. From distinct known leaves the compiled pass returns what the tree itself holds: the secret of its root, missing
      factors if it holds none, and inconsistent shares exactly if some threshold's shares lie on no polynomials. */
  lemma RecoveredExact(policy: ProductionPolicy, recovered: seq<NetworkShare>)
    requires ValidPolicy(policy)
    ensures PlanOk(policy.plan) && ThresholdsValid(policy.network) && Size(policy.network) <= MAX_SHARES
    ensures forall k: nat :: FirstOffence(IdsOf(policy.plan.leaves), IdsOf(recovered), k) ==>
              Recovered(policy.plan, recovered) == Failure(OffenceError(IdsOf(policy.plan.leaves), IdsOf(recovered)[k]))
    ensures Observable(policy, IdsOf(recovered)) ==>
              match TreeValue(policy.network, recovered)
              case None => Recovered(policy.plan, recovered) == Failure(SharingFailed(InconsistentShares))
              case Some(None) => Recovered(policy.plan, recovered) == Failure(FactorsNotSatisfied)
              case Some(Some(secret)) => Recovered(policy.plan, recovered) == Success(secret)
  {
    var node, plan := policy.network, policy.plan;
    PolicyPlanOk(policy);
    PolicyPlaced(policy);
    hide Run, PlanOk, Satisfied, Gates, Leaves, Responses, Find, TreeValue, NodePlaced, ThresholdsValid, ValidPolicy;
    ResponsesRefused(policy, IdsOf(recovered));
    if Observable(policy, IdsOf(recovered)) {
      DecisionMeansTree(policy, IdsOf(recovered));
      SatisfiedByResponses(policy, IdsOf(recovered));
      RunNodeExact(node, plan, 0, 0, [], recovered);
      if TreeValue(node, recovered).Some? {
        assert [] + Slots(node, TreeValue(node, recovered).value) == Slots(node, TreeValue(node, recovered).value);
      }
    }
  }

  lemma PolicyPlaced(policy: ProductionPolicy)
    requires ValidPolicy(policy)
    ensures NodePlaced(policy.network, policy.plan, 0, 0) && |policy.plan.gates| == Size(policy.network)
    ensures ThresholdsValid(policy.network) && Size(policy.network) <= MAX_SHARES
  {
    AtWhole(policy.plan.gates, Gates(policy.network, 0, 0));
    AtWhole(policy.plan.leaves, Leaves(policy.network));
  }

  /** So from distinct known leaves recovery fails only because factors are missing, exactly when the threshold does not
      hold, or because shares disagree. */
  lemma RecoveredOutcomes(policy: ProductionPolicy, recovered: seq<NetworkShare>)
    requires ValidPolicy(policy) && Observable(policy, IdsOf(recovered))
    ensures PlanOk(policy.plan)
    ensures var r := Recovered(policy.plan, recovered);
            var satisfied := Satisfied(policy.network, Elements(IdsOf(recovered)));
            r.Failure? ==> r.error == SharingFailed(InconsistentShares) || (r.error == FactorsNotSatisfied && !satisfied)
    ensures var r := Recovered(policy.plan, recovered);
            r.Success? ==> Satisfied(policy.network, Elements(IdsOf(recovered)))
  {
    hide Run, PlanOk, Satisfied, Leaves, Responses, Find, ThresholdsValid, TreeValue, ValidPolicy;
    var node, available := policy.network, Elements(IdsOf(recovered));
    RecoveredExact(policy, recovered);
    forall i | 0 <= i < |Leaves(node)| ensures Find(recovered, Leaves(node)[i].0).Some? <==> Leaves(node)[i].0 in available {
      FindMeaning(recovered, Leaves(node)[i].0);
    }
    ValueSatisfied(node, recovered, available);
  }
}
