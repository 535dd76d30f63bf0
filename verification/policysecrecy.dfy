/** What leaves that do not satisfy a policy tell about its secret: nothing. */
module PolicySecrecy {
  import opened Wrappers
  import opened Bytes
  import opened Sequences
  import GF256
  import opened Polynomials
  import opened Sharing
  import opened SecretShift
  import opened PolicyTree
  import opened PolicyCompile
  import opened PolicySharing

  /** The payloads of the available leaves, in order. */
  function Visible(shares: seq<NetworkShare>, available: set<U8>): seq<NetworkShare> {
    if shares == [] then []
    else (if shares[0].0 in available then [shares[0]] else []) + Visible(shares[1..], available)
  }

  lemma {:induction false} VisibleConcat(a: seq<NetworkShare>, b: seq<NetworkShare>, available: set<U8>)
    ensures Visible(a + b, available) == Visible(a, available) + Visible(b, available)
  {
    if a == [] {
      assert a + b == b;
    } else {
      assert (a + b)[1..] == a[1..] + b;
      VisibleConcat(a[1..], b, available);
    }
  }

  // ----- coordinates that must not change -----

  /** The coordinates of the satisfied children, with up to `spare` of the others. */
  function Fixed(nodes: seq<NetworkNode>, available: set<U8>, position: nat, spare: nat): seq<GF256.Byte>
    requires position + |nodes| < 256
    decreases |nodes|
  {
    if nodes == [] then []
    else if Satisfied(nodes[0], available) then [Coordinate(position + 1)] + Fixed(nodes[1..], available, position + 1, spare)
    else if spare > 0 then [Coordinate(position + 1)] + Fixed(nodes[1..], available, position + 1, spare - 1)
    else Fixed(nodes[1..], available, position + 1, 0)
  }

  /** Distinct coordinates among position + 1, ..., hi. */
  predicate FixedWithin(xs: seq<GF256.Byte>, lo: nat, hi: nat)
    requires hi < 256
  {
    Distinct(xs) && forall i :: 0 <= i < |xs| ==> Spanned(xs[i], lo, hi)
  }

  lemma FixedCons(xs: seq<GF256.Byte>, lo: nat, hi: nat)
    requires lo < hi < 256 && FixedWithin(xs, lo + 1, hi)
    ensures FixedWithin(xs, lo, hi) && FixedWithin([Coordinate(lo + 1)] + xs, lo, hi)
  {
    hide Coordinate, Spanned;
    SpanFirst(lo, hi);
    forall i | 0 <= i < |xs| ensures Spanned(xs[i], lo, hi) && xs[i] != Coordinate(lo + 1) {
      SpanStep(xs[i], lo, hi);
    }
  }

  lemma {:induction false} FixedSpan(nodes: seq<NetworkNode>, available: set<U8>, position: nat, spare: nat)
    requires position + |nodes| < 256
    ensures FixedWithin(Fixed(nodes, available, position, spare), position, position + |nodes|)
    decreases |nodes|
  {
    hide Coordinate, Satisfied, FixedWithin;
    if nodes == [] {
      NothingFixed(position);
    } else {
      var less := if Satisfied(nodes[0], available) || spare == 0 then spare else spare - 1;
      FixedSpan(nodes[1..], available, position + 1, less);
      FixedCons(Fixed(nodes[1..], available, position + 1, less), position, position + |nodes|);
    }
  }

  lemma NothingFixed(position: nat)
    requires position < 256
    ensures FixedWithin([], position, position)
  {}

  lemma {:induction false} FixedCount(nodes: seq<NetworkNode>, available: set<U8>, position: nat, spare: nat)
    requires position + |nodes| < 256 && SatisfiedCount(nodes, available) + spare <= |nodes|
    ensures |Fixed(nodes, available, position, spare)| == SatisfiedCount(nodes, available) + spare
    decreases |nodes|
  {
    hide Coordinate, Satisfied;
    if nodes != [] {
      if Satisfied(nodes[0], available) {
        FixedCount(nodes[1..], available, position + 1, spare);
      } else if spare > 0 {
        FixedCount(nodes[1..], available, position + 1, spare - 1);
      } else {
        FixedCount(nodes[1..], available, position + 1, 0);
      }
    }
  }

  lemma {:induction false} FixedHolds(nodes: seq<NetworkNode>, available: set<U8>, position: nat, spare: nat, i: nat)
    requires position + |nodes| < 256 && i < |nodes| && Satisfied(nodes[i], available)
    ensures Coordinate(position + i + 1) in Fixed(nodes, available, position, spare)
    decreases |nodes|
  {
    hide Coordinate, Satisfied;
    if i > 0 {
      var less := if Satisfied(nodes[0], available) || spare == 0 then spare else spare - 1;
      FixedHolds(nodes[1..], available, position + 1, less, i - 1);
    }
  }

  /** The mask of an unsatisfied gate: one at zero, zero at every satisfied child. */
  function GateMask(node: NetworkNode, available: set<U8>): seq<GF256.Byte>
    requires node.Threshold? && |node.children| <= MAX_SHARES && !Satisfied(node, available)
  {
    Mask(Fixed(node.children, available, 0, node.required - 1 - SatisfiedCount(node.children, available)))
  }

  lemma ThresholdShort(node: NetworkNode, available: set<U8>)
    requires node.Threshold? && !Satisfied(node, available) && ThresholdsValid(node)
    ensures SatisfiedCount(node.children, available) < node.required <= |node.children|
  {}

  /** A mask over distinct coordinates of children. */
  lemma MaskWithin(xs: seq<GF256.Byte>, hi: nat)
    requires hi < 256 && FixedWithin(xs, 0, hi)
    ensures Mask(xs)[0] == GF256.ONE && forall x :: x in xs ==> Eval(Mask(xs), x) == GF256.ZERO
  {
    hide Coordinate, Eval, Mask, Spanned;
    forall i | 0 <= i < |xs| ensures xs[i] != GF256.ZERO {
      SpanNonzero(xs[i], hi);
    }
    MaskValues(xs);
  }

  lemma GateMaskValues(node: NetworkNode, available: set<U8>)
    requires node.Threshold? && |node.children| <= MAX_SHARES && !Satisfied(node, available) && ThresholdsValid(node)
    ensures GateMask(node, available) != [] && |GateMask(node, available)| == node.required && GateMask(node, available)[0] == GF256.ONE
    ensures forall i :: 0 <= i < |node.children| && Satisfied(node.children[i], available) ==>
              Eval(GateMask(node, available), Coordinate(i + 1)) == GF256.ZERO
  {
    hide Coordinate, Satisfied, Eval, Fixed, FixedWithin, Mask, SatisfiedCount, ThresholdsValid;
    ThresholdShort(node, available);
    var children, spare := node.children, node.required - 1 - SatisfiedCount(node.children, available);
    var xs := Fixed(children, available, 0, spare);
    FixedCount(children, available, 0, spare);
    FixedSpan(children, available, 0, spare);
    MaskWithin(xs, |children|);
    forall i | 0 <= i < |children| && Satisfied(children[i], available) ensures Eval(Mask(xs), Coordinate(i + 1)) == GF256.ZERO {
      FixedHolds(children, available, 0, spare, i);
    }
  }

  lemma SpanNonzero(x: GF256.Byte, hi: nat)
    requires hi < 256 && Spanned(x, 0, hi)
    ensures x != GF256.ZERO
  {
    hide Coordinate;
    var p :| 0 < p <= hi && x == Coordinate(p);
    CoordinateNonzero(p);
  }

  // ----- moving the secret of a tree -----

  /** The table of an unsatisfied gate when its secret moves. */
  function MovedTable(node: NetworkNode, secret: Secret, secret': Secret, table: Table, available: set<U8>): (t: Table)
    requires node.Threshold? && |node.children| <= MAX_SHARES && !Satisfied(node, available) && ThresholdsValid(node)
    requires TableOf(table, node.required)
    ensures TableOf(t, node.required)
  {
    GateMaskValues(node, available);
    ShiftTable(secret, secret', table, GateMask(node, available))
  }

  /** The coins under which another secret gives the same payloads at the available leaves. */
  function Moved(node: NetworkNode, secret: Secret, secret': Secret, coins: Coins, available: set<U8>): (c: Coins)
    requires CoinsFit(node, coins) && ThresholdsValid(node) && !Satisfied(node, available)
    ensures CoinsFit(node, c)
    decreases node, 1
  {
    match node
    case Leaf(_, _) => coins
    case Threshold(_, _, children) =>
      var table := MovedTable(node, secret, secret', coins.table, available);
      var held, held' := SplitShares(secret, coins.table, |children|), SplitShares(secret', table, |children|);
      GateCoins(table, ForestMoved(children, held, held', coins.children, available))
  }

  function ForestMoved(nodes: seq<NetworkNode>, held: seq<Share>, held': seq<Share>, coins: seq<Coins>, available: set<U8>): (c: seq<Coins>)
    requires ForestCoinsFit(nodes, coins) && ForestValid(nodes) && |held| == |held'| == |nodes|
    ensures ForestCoinsFit(nodes, c)
    decreases nodes, 0
  {
    if nodes == [] then []
    else
      var first := if Satisfied(nodes[0], available) then coins[0] else Moved(nodes[0], held[0].value, held'[0].value, coins[0], available);
      [first] + ForestMoved(nodes[1..], held[1..], held'[1..], coins[1..], available)
  }

  /** Satisfied children keep their shares. */
  predicate Agree(nodes: seq<NetworkNode>, held: seq<Share>, held': seq<Share>, available: set<U8>)
    requires |held| == |held'| == |nodes|
  {
    forall i :: 0 <= i < |nodes| && Satisfied(nodes[i], available) ==> held[i] == held'[i]
  }

  lemma GateAgrees(node: NetworkNode, secret: Secret, secret': Secret, table: Table, available: set<U8>)
    requires node.Threshold? && |node.children| <= MAX_SHARES && !Satisfied(node, available) && ThresholdsValid(node)
    requires TableOf(table, node.required)
    ensures var moved := MovedTable(node, secret, secret', table, available);
            Agree(node.children, SplitShares(secret, table, |node.children|), SplitShares(secret', moved, |node.children|), available)
  {
    hide Coordinate, Satisfied, Eval, ShiftTable, ThresholdsValid, GateMask;
    GateMaskValues(node, available);
    var moved := MovedTable(node, secret, secret', table, available);
    forall i | 0 <= i < |node.children| && Satisfied(node.children[i], available)
      ensures SplitShares(secret, table, |node.children|)[i] == SplitShares(secret', moved, |node.children|)[i]
    {
      ShareStays(secret, secret', table, GateMask(node, available), Coordinate(i + 1));
    }
  }

  lemma {:induction false} MovedHides(node: NetworkNode, secret: Secret, secret': Secret, coins: Coins, available: set<U8>)
    requires CoinsFit(node, coins) && ThresholdsValid(node) && !Satisfied(node, available)
    ensures Visible(LeafShares(node, secret, coins), available)
         == Visible(LeafShares(node, secret', Moved(node, secret, secret', coins, available)), available)
    decreases node, 1
  {
    if node.Threshold? {
      hide SplitShares, MovedTable, Agree, Visible;
      var table := MovedTable(node, secret, secret', coins.table, available);
      var held, held' := SplitShares(secret, coins.table, |node.children|), SplitShares(secret', table, |node.children|);
      GateAgrees(node, secret, secret', coins.table, available);
      ForestHides(node.children, held, held', coins.children, available);
    }
  }

  lemma {:induction false} ForestHides(nodes: seq<NetworkNode>, held: seq<Share>, held': seq<Share>, coins: seq<Coins>, available: set<U8>)
    requires ForestCoinsFit(nodes, coins) && ForestValid(nodes) && |held| == |held'| == |nodes|
    requires Agree(nodes, held, held', available)
    ensures Visible(ForestShares(nodes, held, coins), available)
         == Visible(ForestShares(nodes, held', ForestMoved(nodes, held, held', coins, available)), available)
    decreases nodes, 0
  {
    if nodes != [] {
      AgreeStep(nodes, held, held', available);
      hide Satisfied, Visible, LeafShares, Moved, Agree, ThresholdsValid, CoinsFit;
      var moved := ForestMoved(nodes, held, held', coins, available);
      assert moved[1..] == ForestMoved(nodes[1..], held[1..], held'[1..], coins[1..], available);
      if !Satisfied(nodes[0], available) {
        MovedHides(nodes[0], held[0].value, held'[0].value, coins[0], available);
      }
      ForestHides(nodes[1..], held[1..], held'[1..], coins[1..], available);
      VisibleConcat(LeafShares(nodes[0], held[0].value, coins[0]), ForestShares(nodes[1..], held[1..], coins[1..]), available);
      VisibleConcat(LeafShares(nodes[0], held'[0].value, moved[0]), ForestShares(nodes[1..], held'[1..], moved[1..]), available);
    }
  }

  lemma AgreeStep(nodes: seq<NetworkNode>, held: seq<Share>, held': seq<Share>, available: set<U8>)
    requires nodes != [] && |held| == |held'| == |nodes| && Agree(nodes, held, held', available)
    ensures (Satisfied(nodes[0], available) ==> held[0] == held'[0]) && Agree(nodes[1..], held[1..], held'[1..], available)
  {
    hide Satisfied;
  }

  lemma TableBack(node: NetworkNode, secret: Secret, secret': Secret, table: Table, available: set<U8>)
    requires node.Threshold? && |node.children| <= MAX_SHARES && !Satisfied(node, available) && ThresholdsValid(node)
    requires TableOf(table, node.required)
    ensures MovedTable(node, secret', secret, MovedTable(node, secret, secret', table, available), available) == table
  {
    hide ShiftTable, ThresholdsValid, GateMask, Satisfied;
    GateMaskValues(node, available);
    ShiftTableBack(secret, secret', table, GateMask(node, available));
  }

  lemma {:induction false} MovedBack(node: NetworkNode, secret: Secret, secret': Secret, coins: Coins, available: set<U8>)
    requires CoinsFit(node, coins) && ThresholdsValid(node) && !Satisfied(node, available)
    ensures Moved(node, secret', secret, Moved(node, secret, secret', coins, available), available) == coins
    decreases node, 1
  {
    if node.Threshold? {
      hide SplitShares, MovedTable;
      var table := MovedTable(node, secret, secret', coins.table, available);
      var held, held' := SplitShares(secret, coins.table, |node.children|), SplitShares(secret', table, |node.children|);
      TableBack(node, secret, secret', coins.table, available);
      ForestBack(node.children, held, held', coins.children, available);
    }
  }

  lemma {:induction false} ForestBack(nodes: seq<NetworkNode>, held: seq<Share>, held': seq<Share>, coins: seq<Coins>, available: set<U8>)
    requires ForestCoinsFit(nodes, coins) && ForestValid(nodes) && |held| == |held'| == |nodes|
    ensures ForestMoved(nodes, held', held, ForestMoved(nodes, held, held', coins, available), available) == coins
    decreases nodes, 0
  {
    if nodes != [] {
      hide Satisfied, Moved, ThresholdsValid, CoinsFit;
      var moved := ForestMoved(nodes, held, held', coins, available);
      assert moved[1..] == ForestMoved(nodes[1..], held[1..], held'[1..], coins[1..], available);
      if !Satisfied(nodes[0], available) {
        MovedBack(nodes[0], held[0].value, held'[0].value, coins[0], available);
      }
      ForestBack(nodes[1..], held[1..], held'[1..], coins[1..], available);
    }
  }

  /** Nested independence. Leaves that do not satisfy the policy fit every secret equally often: moving the secret is a
      bijection between the coins under which the two secrets give any observed payloads, and it is its own inverse with the
      secrets exchanged. */
  lemma NestedIndependence(policy: ProductionPolicy, secret: Secret, secret': Secret, coins: Coins, available: set<U8>,
                           observed: seq<NetworkShare>)
    requires ValidPolicy(policy) && CoinsFit(policy.network, coins) && !Satisfied(policy.network, available)
    ensures var moved := Moved(policy.network, secret, secret', coins, available);
            && CoinsFit(policy.network, moved)
            && Moved(policy.network, secret', secret, moved, available) == coins
            && (Visible(LeafShares(policy.network, secret, coins), available) == observed
                <==> Visible(LeafShares(policy.network, secret', moved), available) == observed)
  {
    hide Satisfied, Moved, Visible, LeafShares, CoinsFit;
    MovedHides(policy.network, secret, secret', coins, available);
    MovedBack(policy.network, secret, secret', coins, available);
  }
}
