/** The canonical envelope codec: descriptor, body and signed frame. */
module Envelopes {
  import opened Wrappers
  import opened Bytes
  import opened Sequences
  import opened Cbor
  import opened PolicyTree
  import opened PolicyCompile
  import opened Descriptors

  const VERSION: U8 := 1
  const SUITE: U8 := 1
  const MAX_ENVELOPE: nat := 0x1_0000

  // ----- the policy tree -----

  /** The items of one node: a leaf is [0, id, provider], a threshold [1, id, required, children]. */
  function NodeParts(node: NetworkNode): (parts: seq<Bytes>)
    requires Size(node) <= 0xffff
    decreases node, 1
  {
    match node
    case Leaf(id, provider) => [Head(ARRAY, 3), Head(UNSIGNED, 0), Head(UNSIGNED, id), Str(BYTE_STRING, provider)]
    case Threshold(id, required, children) =>
      ChildCount(children);
      [Head(ARRAY, 4), Head(UNSIGNED, 1), Head(UNSIGNED, id), Head(UNSIGNED, required), Head(ARRAY, |children|)]
      + ForestParts(children)
  }

  function NodeBytes(node: NetworkNode): Bytes
    requires Size(node) <= 0xffff
    decreases node, 2
  {
    Cat(NodeParts(node))
  }

  function ForestParts(nodes: seq<NetworkNode>): (parts: seq<Bytes>)
    requires ForestSize(nodes) <= 0xffff
    ensures |parts| == |nodes|
    decreases nodes, 0
  {
    if nodes == [] then [] else [NodeBytes(nodes[0])] + ForestParts(nodes[1..])
  }

  method PutNode(e: Encoder, node: NetworkNode)
    requires e.Valid() && Size(node) <= 0xffff
    modifies e
    ensures e.Valid() && e.items == old(e.items) + [NodeBytes(node)]
    decreases node, 1
  {
    hide Head, Str, Cat;
    ghost var n := |e.items|;
    match node {
      case Leaf(id, provider) =>
        e.PutHead(ARRAY, 3);
        e.PutHead(UNSIGNED, 0);
        e.PutHead(UNSIGNED, id);
        e.PutString(BYTE_STRING, provider);
      case Threshold(id, required, children) =>
        ChildCount(children);
        e.PutHead(ARRAY, 4);
        e.PutHead(UNSIGNED, 1);
        e.PutHead(UNSIGNED, id);
        e.PutHead(UNSIGNED, required);
        e.PutHead(ARRAY, |children|);
        PutForest(e, children);
    }
    assert e.items[n..] == NodeParts(node);
    e.Fold(n);
  }

  method PutForest(e: Encoder, children: seq<NetworkNode>)
    requires e.Valid() && ForestSize(children) <= 0xffff
    modifies e
    ensures e.Valid() && e.items == old(e.items) + ForestParts(children)
    decreases children, 0
  {
    hide NodeBytes, Cat;
    var i := 0;
    assert children[0..] == children;
    while i < |children|
      invariant 0 <= i <= |children| && ForestSize(children[i..]) <= 0xffff
      invariant e.Valid() && e.items + ForestParts(children[i..]) == old(e.items) + ForestParts(children)
    {
      ghost var rest := children[i..];
      assert rest[0] == children[i] && rest[1..] == children[i + 1..];
      PutNode(e, children[i]);
      i := i + 1;
    }
    assert children[i..] == [];
    assert e.items + [] == e.items;
  }

  /** What a decoder meets when it reads a node, item by item. */
  lemma NodeItems(node: NetworkNode, tail: seq<Bytes>)
    requires Size(node) <= 0xffff
    ensures var all := NodeParts(node) + tail;
            match node
            case Leaf(id, provider) =>
              && |all| == 4 + |tail| && all[4..] == tail
              && all[0] == Head(ARRAY, 3) && all[1] == Head(UNSIGNED, 0) && all[2] == Head(UNSIGNED, id)
              && all[3] == Str(BYTE_STRING, provider)
            case Threshold(id, required, children) =>
              && |children| <= 0xffff && |all| == 5 + |children| + |tail| && all[5 + |children|..] == tail
              && all[0] == Head(ARRAY, 4) && all[1] == Head(UNSIGNED, 1) && all[2] == Head(UNSIGNED, id)
              && all[3] == Head(UNSIGNED, required) && all[4] == Head(ARRAY, |children|)
              && ForestParts(children) <= all[5..]
  {
    hide Head, Str, ForestParts;
    if node.Threshold? {
      ChildCount(node.children);
    }
  }

  /** Read a node within the depth and node budgets. `want` is the node the input is known to hold, if any. */
  method GetNode(d: Decoder, depth: nat, nodes: nat, ghost want: Option<NetworkNode>)
    returns (result: Result<NetworkNode, EnvelopeError>, count: nat)
    requires d.Valid()
    requires want.Some? ==> && Size(want.value) <= 0xffff && d.Next(NodeBytes(want.value))
                            && depth + Depth(want.value) <= 5 && nodes + Size(want.value) <= 30
    modifies d
    ensures d.Valid()
    ensures result.Success? ==> depth + Depth(result.value) <= 5 && count == nodes + Size(result.value) <= 30
    ensures want.Some? ==> && result == Success(want.value) && count == nodes + Size(want.value)
                           && d.Left(old(d.expected)[1..])
    decreases if depth <= 5 then 5 - depth else 0, 1
  {
    hide Head, Str, Cat, ForestParts, NodeParts;
    count := nodes;
    if depth > 4 || nodes >= 30 {
      return Failure(TooLarge), count;
    }
    count := nodes + 1;
    ghost var all: seq<Bytes> := [];
    if want.Some? {
      NodeItems(want.value, d.expected[1..]);
      d.Expand(NodeParts(want.value));
      all := d.expected;
    }
    var n := d.GetArray();
    assert want.Some? ==> d.Left(all[1..]);
    if n.None? {
      return Failure(Malformed), count;
    }
    var tag := d.GetUint(0x100);
    assert want.Some? ==> d.Left(all[2..]);
    if tag.None? {
      return Failure(Malformed), count;
    }
    var id := d.GetUint(0x100);
    assert want.Some? ==> d.Left(all[3..]);
    if id.None? {
      return Failure(Malformed), count;
    }
    if n.value == 3 && tag.value == 0 {
      var provider := d.GetString(BYTE_STRING);
      if provider.None? || |provider.value| != 32 {
        return Failure(Malformed), count;
      }
      return Success(Leaf(id.value, provider.value)), count;
    } else if n.value == 4 && tag.value == 1 {
      result, count := GetThreshold(d, depth, count, id.value, want);
      return;
    } else {
      return Failure(Malformed), count;
    }
  }

  /** The rest of a threshold after its identity. */
  method GetThreshold(d: Decoder, depth: nat, nodes: nat, id: U8, ghost want: Option<NetworkNode>)
    returns (result: Result<NetworkNode, EnvelopeError>, count: nat)
    requires d.Valid() && depth <= 4
    requires want.Some? ==> && want.value.Threshold? && want.value.id == id && Size(want.value) <= 0xffff
                            && |want.value.children| <= 0xffff
                            && depth + Depth(want.value) <= 5 && nodes + Size(want.value) <= 31
                            && d.known && 2 + |want.value.children| <= |d.expected|
                            && d.expected[0] == Head(UNSIGNED, want.value.required)
                            && d.expected[1] == Head(ARRAY, |want.value.children|)
                            && ForestParts(want.value.children) <= d.expected[2..]
    modifies d
    ensures d.Valid()
    ensures result.Success? ==> depth + Depth(result.value) <= 5 && count == nodes + Size(result.value) - 1 <= Max(nodes, 30)
    ensures want.Some? ==> && result == Success(want.value) && count == nodes + Size(want.value) - 1
                           && d.Left(old(d.expected)[2 + |want.value.children|..])
    decreases 5 - depth, 0
  {
    hide Head, Str, Cat, ForestParts;
    count := nodes;
    ghost var all := d.expected;
    if want.Some? {
      ChildCount(want.value.children);
    }
    var required := d.GetUint(0x100);
    assert want.Some? ==> d.Left(all[1..]);
    if required.None? {
      return Failure(Malformed), count;
    }
    var size := d.GetArray();
    assert want.Some? ==> d.Left(all[2..]);
    if size.None? {
      return Failure(Malformed), count;
    }
    if size.value > 30 {
      return Failure(TooLarge), count;
    }
    var children;
    children, count := GetForest(d, depth + 1, count, size.value, if want.Some? then Some(want.value.children) else None);
    if children.Failure? {
      return Failure(children.error), count;
    }
    result := Success(Threshold(id, required.value, children.value));
  }

  /** The next items are the encodings of these subtrees, within the depth and size budgets. */
  ghost predicate Following(nodes: seq<NetworkNode>, depth: nat, expected: seq<Bytes>) {
    ForestSize(nodes) <= 0xffff && depth + ForestDepth(nodes) <= 5 && ForestParts(nodes) <= expected
  }

  lemma FollowingStep(nodes: seq<NetworkNode>, depth: nat, expected: seq<Bytes>)
    requires nodes != [] && Following(nodes, depth, expected)
    ensures Size(nodes[0]) <= 0xffff && depth + Depth(nodes[0]) <= 5
    ensures expected != [] && expected[0] == NodeBytes(nodes[0])
    ensures ForestSize(nodes) == Size(nodes[0]) + ForestSize(nodes[1..])
    ensures Following(nodes[1..], depth, expected[1..])
  {
    hide NodeBytes;
    var parts := ForestParts(nodes);
    assert parts[0] == NodeBytes(nodes[0]) && parts[1..] == ForestParts(nodes[1..]);
    assert parts == expected[..|parts|];
    assert expected[1..][..|parts| - 1] == parts[1..];
  }

  lemma NothingSize(nodes: seq<NetworkNode>)
    requires nodes == []
    ensures ForestSize(nodes) == 0
  {}

  lemma NothingDeep()
    ensures ForestDepth([]) == 0 && ForestSize([]) == 0
  {}

  method GetForest(d: Decoder, depth: nat, nodes: nat, size: nat, ghost want: Option<seq<NetworkNode>>)
    returns (result: Result<seq<NetworkNode>, EnvelopeError>, count: nat)
    requires d.Valid() && depth <= 5
    requires want.Some? ==> |want.value| == size && d.known && Following(want.value, depth, d.expected) && nodes + ForestSize(want.value) <= 30
    modifies d
    ensures d.Valid()
    ensures result.Success? ==> depth + ForestDepth(result.value) <= 5 && count == nodes + ForestSize(result.value) <= Max(nodes, 30)
    ensures want.Some? ==> && result == Success(want.value) && count == nodes + ForestSize(want.value)
                           && size <= |old(d.expected)| && d.Left(old(d.expected)[size..])
    decreases 5 - depth, 2
  {
    NothingDeep();
    hide NodeBytes, Cat, Following, ForestSize, ForestDepth, Size, Depth;
    var children: seq<NetworkNode> := [];
    count := nodes;
    ghost var all := if want.Some? then want.value else [];
    ghost var before := d.expected;
    var i := 0;
    assert all[0..] == all && before[0..] == before;
    while i < size
      invariant 0 <= i <= size && d.Valid()
      invariant depth + ForestDepth(children) <= 5 && count == nodes + ForestSize(children) <= Max(nodes, 30)
      invariant want.Some? ==>
                  && children == all[..i] && i <= |before| && d.Left(before[i..])
                  && Following(all[i..], depth, before[i..]) && count + ForestSize(all[i..]) == nodes + ForestSize(all)
    {
      if want.Some? {
        FollowingStep(all[i..], depth, before[i..]);
        assert all[i..][0] == all[i] && all[i..][1..] == all[i + 1..];
        assert before[i..][1..] == before[i + 1..];
      }
      var child;
      child, count := GetNode(d, depth, count, if want.Some? then Some(all[i]) else None);
      if child.Failure? {
        return Failure(child.error), count;
      }
      ForestSnoc(children, child.value);
      children := children + [child.value];
      i := i + 1;
    }
    if want.Some? {
      NothingSize(all[size..]);
      assert all[..size] == all;
    }
    result := Success(children);
  }

  // ----- bindings -----

  function BindingParts(b: NetworkBinding): (parts: seq<Bytes>)
    ensures |parts| == 6
  {
    [Head(ARRAY, 5), Head(UNSIGNED, b.nodeId), Str(BYTE_STRING, b.providerId), Str(BYTE_STRING, b.keyId),
     Str(BYTE_STRING, b.publicKey), Str(BYTE_STRING, b.inputSeed)]
  }

  function BindingItems(bindings: seq<NetworkBinding>): (items: seq<Bytes>)
    ensures |items| == |bindings|
    ensures forall i :: 0 <= i < |bindings| ==> items[i] == Cat(BindingParts(bindings[i]))
  {
    seq(|bindings|, i requires 0 <= i < |bindings| => Cat(BindingParts(bindings[i])))
  }

  method PutBinding(e: Encoder, b: NetworkBinding)
    requires e.Valid()
    modifies e
    ensures e.Valid() && e.items == old(e.items) + [Cat(BindingParts(b))]
  {
    hide Head, Str, Cat;
    ghost var n := |e.items|;
    e.PutHead(ARRAY, 5);
    e.PutHead(UNSIGNED, b.nodeId);
    e.PutString(BYTE_STRING, b.providerId);
    e.PutString(BYTE_STRING, b.keyId);
    e.PutString(BYTE_STRING, b.publicKey);
    e.PutString(BYTE_STRING, b.inputSeed);
    assert e.items[n..] == BindingParts(b);
    e.Fold(n);
  }

  /** A byte string of exactly `n` bytes. */
  method GetFixed(d: Decoder, n: nat) returns (b: Option<Bytes>)
    requires d.Valid()
    modifies d
    ensures d.Valid()
    ensures b.Some? ==> |b.value| == n
    ensures forall s: Bytes :: |s| == n < 0x1_0000_0000 && old(d.Next(Str(BYTE_STRING, s))) ==>
              b == Some(s) && d.Left(old(d.expected)[1..])
  {
    hide Str, Cat;
    b := d.GetString(BYTE_STRING);
    if b.Some? && |b.value| != n {
      b := None;
    }
  }

  /** The next item is an array head with exactly this count. */
  method GetArrayOf(d: Decoder, n: U64) returns (ok: bool)
    requires d.Valid()
    modifies d
    ensures d.Valid()
    ensures old(d.Next(Head(ARRAY, n))) ==> ok && d.Left(old(d.expected)[1..])
  {
    hide Head, Cat;
    var size := d.GetArray();
    ok := size == Some(n);
  }

  lemma BindingItemAt(b: NetworkBinding, tail: seq<Bytes>)
    ensures var all := BindingParts(b) + tail;
            && |all| == 6 + |tail| && all[6..] == tail
            && all[0] == Head(ARRAY, 5) && all[1] == Head(UNSIGNED, b.nodeId) && all[2] == Str(BYTE_STRING, b.providerId)
            && all[3] == Str(BYTE_STRING, b.keyId) && all[4] == Str(BYTE_STRING, b.publicKey)
            && all[5] == Str(BYTE_STRING, b.inputSeed)
  {
    hide Head, Str;
  }

  method GetBinding(d: Decoder, ghost want: Option<NetworkBinding>) returns (result: Option<NetworkBinding>)
    requires d.Valid() && (want.Some? ==> d.Next(Cat(BindingParts(want.value))))
    modifies d
    ensures d.Valid()
    ensures want.Some? ==> result == want && d.Left(old(d.expected)[1..])
  {
    hide Head, Str, Cat, BindingParts;
    ghost var all: seq<Bytes> := [];
    if want.Some? {
      BindingItemAt(want.value, d.expected[1..]);
      d.Expand(BindingParts(want.value));
      all := d.expected;
    }
    var ok := GetArrayOf(d, 5);
    assert want.Some? ==> d.Left(all[1..]);
    if !ok {
      return None;
    }
    var nodeId := d.GetUint(0x100);
    assert want.Some? ==> d.Left(all[2..]);
    if nodeId.None? {
      return None;
    }
    var providerId := GetFixed(d, 32);
    assert want.Some? ==> d.Left(all[3..]);
    if providerId.None? {
      return None;
    }
    var keyId := GetFixed(d, 32);
    assert want.Some? ==> d.Left(all[4..]);
    if keyId.None? {
      return None;
    }
    var publicKey := GetFixed(d, 49);
    assert want.Some? ==> d.Left(all[5..]);
    if publicKey.None? {
      return None;
    }
    var inputSeed := GetFixed(d, 32);
    if inputSeed.None? {
      return None;
    }
    result := Some(NetworkBinding(nodeId.value, providerId.value, keyId.value, publicKey.value, inputSeed.value));
  }

  method GetBindings(d: Decoder, size: nat, ghost want: Option<seq<NetworkBinding>>) returns (result: Option<seq<NetworkBinding>>)
    requires d.Valid() && (want.Some? ==> |want.value| == size && d.known && BindingItems(want.value) <= d.expected)
    modifies d
    ensures d.Valid()
    ensures want.Some? ==> result == want && d.Left(old(d.expected)[size..])
  {
    hide Cat, BindingParts;
    var bindings := [];
    ghost var all := if want.Some? then want.value else [];
    ghost var before := d.expected;
    var i := 0;
    while i < size
      invariant 0 <= i <= size && d.Valid()
      invariant want.Some? ==> bindings == all[..i] && i <= |before| && d.Left(before[i..])
    {
      assert want.Some? ==> d.expected[0] == BindingItems(all)[i];
      var binding := GetBinding(d, if want.Some? then Some(all[i]) else None);
      if binding.None? {
        return None;
      }
      bindings := bindings + [binding.value];
      i := i + 1;
    }
    assert want.Some? ==> all[..size] == all;
    result := Some(bindings);
  }

  method PutBindings(e: Encoder, bindings: seq<NetworkBinding>)
    requires e.Valid()
    modifies e
    ensures e.Valid() && e.items == old(e.items) + BindingItems(bindings)
  {
    hide Cat, BindingParts;
    var i := 0;
    while i < |bindings|
      invariant 0 <= i <= |bindings|
      invariant e.Valid() && e.items == old(e.items) + BindingItems(bindings)[..i]
    {
      PutBinding(e, bindings[i]);
      i := i + 1;
    }
  }

  // ----- descriptor -----

  const PURPOSE: Bytes := [0x6c, 0x75, 0x6b, 0x73, 0x32, 0x2d, 0x73, 0x6c, 0x6f, 0x74] // "luks2-slot"

  function ModeByte(mode: Mode): U8 { if mode.NetworkBound? then 0 else 1 }

  /** The entries before the bindings: version through the number of bindings. */
  function DescriptorPrefix(d: Descriptor): (parts: seq<Bytes>)
    requires Size(d.policy.network) <= 0xffff && |d.networks| <= 0xffff
    ensures |parts| == 11
  {
    [Head(ARRAY, 13), Head(UNSIGNED, VERSION), Head(UNSIGNED, SUITE), Str(BYTE_STRING, d.bindingId),
     Str(BYTE_STRING, d.volumeUuid), Head(UNSIGNED, d.slot), Head(UNSIGNED, d.generation),
     Head(UNSIGNED, ModeByte(d.policy.mode)), Head(UNSIGNED, d.policy.tpmNodeId), NodeBytes(d.policy.network),
     Head(ARRAY, |d.networks|)]
  }

  function DescriptorSuffix(d: Descriptor): (parts: seq<Bytes>)
    ensures |parts| == 3
  {
    [Head(UNSIGNED, d.pcrMask), Str(BYTE_STRING, d.pcrDigest), Str(TEXT_STRING, PURPOSE)]
  }

  function DescriptorParts(d: Descriptor): (parts: seq<Bytes>)
    requires Size(d.policy.network) <= 0xffff && |d.networks| <= 0xffff
    ensures |parts| == 14 + |d.networks|
  {
    DescriptorPrefix(d) + BindingItems(d.networks) + DescriptorSuffix(d)
  }

  predicate Encodable(d: Descriptor) {
    Size(d.policy.network) <= 0xffff && |d.networks| <= 0xffff
  }

  function DescriptorEncoding(d: Descriptor): Bytes
    requires Encodable(d)
  {
    Cat(DescriptorParts(d))
  }

  lemma ValidEncodable(rules: KeyRules, d: Descriptor)
    requires ValidPolicy(d.policy)
    ensures Size(d.policy.network) <= 29 && Depth(d.policy.network) <= 3
    ensures ProvidersValid(rules, d) ==> Encodable(d) && |d.networks| <= 29
  {
    PolicyLeaves(d.policy);
  }

  method PutPrefix(e: Encoder, d: Descriptor)
    requires e.Valid() && Encodable(d)
    modifies e
    ensures e.Valid() && e.items == old(e.items) + DescriptorPrefix(d)
  {
    hide Head, Str, Cat, NodeBytes;
    e.PutHead(ARRAY, 13);
    e.PutHead(UNSIGNED, VERSION);
    e.PutHead(UNSIGNED, SUITE);
    e.PutString(BYTE_STRING, d.bindingId);
    e.PutString(BYTE_STRING, d.volumeUuid);
    e.PutHead(UNSIGNED, d.slot);
    e.PutHead(UNSIGNED, d.generation);
    e.PutHead(UNSIGNED, ModeByte(d.policy.mode));
    e.PutHead(UNSIGNED, d.policy.tpmNodeId);
    PutNode(e, d.policy.network);
    e.PutHead(ARRAY, |d.networks|);
  }

  /** Validate, then write the thirteen entries in order. */
  method DescriptorBytes(rules: KeyRules, d: Descriptor) returns (result: Result<Bytes, EnvelopeError>)
    requires ValidPolicy(d.policy)
    ensures result.Success? <==> ValidDescriptor(rules, d)
    ensures result.Success? ==> Encodable(d) && result.value == DescriptorEncoding(d)
    ensures result.Failure? ==> DescriptorError(rules, d) == Some(result.error)
  {
    hide Head, Str, Cat, DescriptorPrefix, BindingItems, ValidPolicy, ProvidersValid, FieldsValid;
    var error := ValidateDescriptor(rules, d);
    if error.Some? {
      return Failure(error.value);
    }
    ValidEncodable(rules, d);
    var e := new Encoder();
    PutPrefix(e, d);
    PutBindings(e, d.networks);
    e.PutHead(UNSIGNED, d.pcrMask);
    e.PutString(BYTE_STRING, d.pcrDigest);
    e.PutString(TEXT_STRING, PURPOSE);
    assert e.items == DescriptorParts(d);
    result := Success(e.buffer);
  }

  // ----- no two descriptors share an encoding -----

  lemma {:induction false} CutNode(p: seq<Bytes>, q: seq<Bytes>, k: nat, m: NetworkNode, n: NetworkNode)
    requires k < |p| && k < |q| && Size(m) <= 0xffff && Size(n) <= 0xffff
    requires p[k] == NodeBytes(m) && q[k] == NodeBytes(n) && Cat(p[k..]) == Cat(q[k..])
    ensures m == n && Cat(p[k + 1..]) == Cat(q[k + 1..])
    decreases m, 1
  {
    hide Head, Str, Cat, ForestParts, NodeParts;
    NodeItems(m, p[k + 1..]);
    NodeItems(n, q[k + 1..]);
    var a, b := NodeParts(m) + p[k + 1..], NodeParts(n) + q[k + 1..];
    CutOpen(p, k, NodeParts(m));
    CutOpen(q, k, NodeParts(n));
    assert a[0..] == a && b[0..] == b;
    CutHead(a, b, 0, ARRAY, if m.Leaf? then 3 else 4, if n.Leaf? then 3 else 4);
    CutHead(a, b, 1, UNSIGNED, if m.Leaf? then 0 else 1, if n.Leaf? then 0 else 1);
    CutHead(a, b, 2, UNSIGNED, m.id, n.id);
    if m.Leaf? {
      CutString(a, b, 3, BYTE_STRING, m.provider, n.provider);
    } else {
      CutHead(a, b, 3, UNSIGNED, m.required, n.required);
      CutHead(a, b, 4, ARRAY, |m.children|, |n.children|);
      CutForest(a, b, 5, m.children, n.children);
    }
  }

  lemma {:induction false} CutForest(p: seq<Bytes>, q: seq<Bytes>, k: nat, ms: seq<NetworkNode>, ns: seq<NetworkNode>)
    requires |ms| == |ns| && ForestSize(ms) <= 0xffff && ForestSize(ns) <= 0xffff
    requires k <= |p| && k <= |q| && ForestParts(ms) <= p[k..] && ForestParts(ns) <= q[k..]
    requires Cat(p[k..]) == Cat(q[k..])
    ensures ms == ns && Cat(p[k + |ms|..]) == Cat(q[k + |ns|..])
    decreases ms, 0
  {
    hide NodeBytes, Cat;
    if ms != [] {
      assert p[k] == ForestParts(ms)[0] && q[k] == ForestParts(ns)[0];
      CutNode(p, q, k, ms[0], ns[0]);
      assert p[k + 1..] == p[k..][1..] && q[k + 1..] == q[k..][1..];
      assert ForestParts(ms)[1..] == ForestParts(ms[1..]) && ForestParts(ns)[1..] == ForestParts(ns[1..]);
      CutForest(p, q, k + 1, ms[1..], ns[1..]);
      assert ms == [ms[0]] + ms[1..] && ns == [ns[0]] + ns[1..];
    }
  }

  lemma CutBinding(p: seq<Bytes>, q: seq<Bytes>, k: nat, m: NetworkBinding, n: NetworkBinding)
    requires k < |p| && k < |q| && p[k] == Cat(BindingParts(m)) && q[k] == Cat(BindingParts(n))
    requires Cat(p[k..]) == Cat(q[k..])
    ensures m == n && Cat(p[k + 1..]) == Cat(q[k + 1..])
  {
    hide Head, Str, Cat;
    var a, b := BindingParts(m) + p[k + 1..], BindingParts(n) + q[k + 1..];
    CutOpen(p, k, BindingParts(m));
    CutOpen(q, k, BindingParts(n));
    assert a[0..] == a && b[0..] == b && a[6..] == p[k + 1..] && b[6..] == q[k + 1..];
    CutHead(a, b, 0, ARRAY, 5, 5);
    CutHead(a, b, 1, UNSIGNED, m.nodeId, n.nodeId);
    CutString(a, b, 2, BYTE_STRING, m.providerId, n.providerId);
    CutString(a, b, 3, BYTE_STRING, m.keyId, n.keyId);
    CutString(a, b, 4, BYTE_STRING, m.publicKey, n.publicKey);
    CutString(a, b, 5, BYTE_STRING, m.inputSeed, n.inputSeed);
  }

  lemma {:induction false} CutBindings(p: seq<Bytes>, q: seq<Bytes>, k: nat, ms: seq<NetworkBinding>, ns: seq<NetworkBinding>, i: nat)
    requires i <= |ms| == |ns| && k + |ms| <= |p| && k + |ns| <= |q|
    requires forall j :: 0 <= j < |ms| ==> p[k + j] == Cat(BindingParts(ms[j])) && q[k + j] == Cat(BindingParts(ns[j]))
    requires ms[..i] == ns[..i] && Cat(p[k + i..]) == Cat(q[k + i..])
    ensures ms == ns && Cat(p[k + |ms|..]) == Cat(q[k + |ns|..])
    decreases |ms| - i
  {
    hide Cat, BindingParts;
    if i < |ms| {
      CutBinding(p, q, k + i, ms[i], ns[i]);
      assert ms[..i + 1] == ms[..i] + [ms[i]] && ns[..i + 1] == ns[..i] + [ns[i]];
      CutBindings(p, q, k, ms, ns, i + 1);
    } else {
      assert ms[..i] == ms && ns[..i] == ns;
    }
  }

  /** `p` are the items of a descriptor, by position. */
  ghost predicate DescriptorAt(d: Descriptor, p: seq<Bytes>) {
    var k := 11 + |d.networks|;
    && Size(d.policy.network) <= 0xffff && |d.networks| <= 0xffff && |p| == k + 3
    && p[0] == Head(ARRAY, 13) && p[1] == Head(UNSIGNED, VERSION) && p[2] == Head(UNSIGNED, SUITE)
    && p[3] == Str(BYTE_STRING, d.bindingId) && p[4] == Str(BYTE_STRING, d.volumeUuid)
    && p[5] == Head(UNSIGNED, d.slot) && p[6] == Head(UNSIGNED, d.generation)
    && p[7] == Head(UNSIGNED, ModeByte(d.policy.mode)) && p[8] == Head(UNSIGNED, d.policy.tpmNodeId)
    && p[9] == NodeBytes(d.policy.network) && p[10] == Head(ARRAY, |d.networks|)
    && (forall j :: 0 <= j < |d.networks| ==> p[11 + j] == Cat(BindingParts(d.networks[j])))
    && BindingItems(d.networks) <= p[11..]
    && p[k] == Head(UNSIGNED, d.pcrMask) && p[k + 1] == Str(BYTE_STRING, d.pcrDigest) && p[k + 2] == Str(TEXT_STRING, PURPOSE)
  }

  lemma DescriptorItems(d: Descriptor)
    requires Encodable(d)
    ensures DescriptorAt(d, DescriptorParts(d))
  {
    hide Head, Str, Cat, NodeBytes, BindingParts;
  }

  lemma HeadInjective(d: Descriptor, c: Descriptor, p: seq<Bytes>, q: seq<Bytes>)
    requires DescriptorAt(d, p) && DescriptorAt(c, q) && Cat(p) == Cat(q)
    ensures d.bindingId == c.bindingId && d.volumeUuid == c.volumeUuid && Cat(p[5..]) == Cat(q[5..])
  {
    hide Head, Str, Cat, NodeBytes, BindingParts, BindingItems;
    assert p[0..] == p && q[0..] == q;
    CutHead(p, q, 0, ARRAY, 13, 13);
    CutHead(p, q, 1, UNSIGNED, VERSION, VERSION);
    CutHead(p, q, 2, UNSIGNED, SUITE, SUITE);
    CutString(p, q, 3, BYTE_STRING, d.bindingId, c.bindingId);
    CutString(p, q, 4, BYTE_STRING, d.volumeUuid, c.volumeUuid);
  }

  lemma ScalarsInjective(d: Descriptor, c: Descriptor, p: seq<Bytes>, q: seq<Bytes>)
    requires DescriptorAt(d, p) && DescriptorAt(c, q) && Cat(p[5..]) == Cat(q[5..])
    ensures d.slot == c.slot && d.generation == c.generation && d.policy.mode == c.policy.mode && Cat(p[8..]) == Cat(q[8..])
  {
    hide Head, Str, Cat, NodeBytes, BindingParts, BindingItems;
    CutHead(p, q, 5, UNSIGNED, d.slot, c.slot);
    CutHead(p, q, 6, UNSIGNED, d.generation, c.generation);
    CutHead(p, q, 7, UNSIGNED, ModeByte(d.policy.mode), ModeByte(c.policy.mode));
  }

  lemma TreeInjective(d: Descriptor, c: Descriptor, p: seq<Bytes>, q: seq<Bytes>)
    requires DescriptorAt(d, p) && DescriptorAt(c, q) && Cat(p[8..]) == Cat(q[8..])
    ensures d.policy.tpmNodeId == c.policy.tpmNodeId && d.policy.network == c.policy.network && |d.networks| == |c.networks|
    ensures Cat(p[11..]) == Cat(q[11..])
  {
    hide Head, Str, Cat, NodeBytes, BindingParts, BindingItems;
    CutHead(p, q, 8, UNSIGNED, d.policy.tpmNodeId, c.policy.tpmNodeId);
    CutNode(p, q, 9, d.policy.network, c.policy.network);
    CutHead(p, q, 10, ARRAY, |d.networks|, |c.networks|);
  }

  lemma SuffixInjective(d: Descriptor, c: Descriptor, p: seq<Bytes>, q: seq<Bytes>)
    requires DescriptorAt(d, p) && DescriptorAt(c, q) && |d.networks| == |c.networks| && Cat(p[11..]) == Cat(q[11..])
    ensures d.networks == c.networks && d.pcrMask == c.pcrMask && d.pcrDigest == c.pcrDigest
  {
    hide Head, Str, Cat, NodeBytes, BindingParts, BindingItems;
    CutBindings(p, q, 11, d.networks, c.networks, 0);
    var k := 11 + |d.networks|;
    CutHead(p, q, k, UNSIGNED, d.pcrMask, c.pcrMask);
    CutString(p, q, k + 1, BYTE_STRING, d.pcrDigest, c.pcrDigest);
  }

  /** The encoding determines every field of the descriptor; the plan is determined by the tree. */
  lemma DescriptorInjective(d: Descriptor, c: Descriptor)
    requires Encodable(d) && Encodable(c) && DescriptorEncoding(d) == DescriptorEncoding(c)
    requires ValidPolicy(d.policy) && ValidPolicy(c.policy)
    ensures d == c
  {
    PlansAgree(d.policy, c.policy);
    hide DescriptorAt, DescriptorParts, Cat, ValidPolicy;
    var p, q := DescriptorParts(d), DescriptorParts(c);
    DescriptorItems(d);
    DescriptorItems(c);
    HeadInjective(d, c, p, q);
    ScalarsInjective(d, c, p, q);
    TreeInjective(d, c, p, q);
    SuffixInjective(d, c, p, q);
  }

  lemma PlansAgree(p: ProductionPolicy, q: ProductionPolicy)
    requires ValidPolicy(p) && ValidPolicy(q)
    ensures p.network == q.network ==> p.plan == q.plan
  {}

  // ----- reading a descriptor -----

  datatype Header = Header(bindingId: Bytes32, volumeUuid: Bytes16, slot: U8, generation: U64, mode: Mode, tpmNodeId: U8)

  /** The array head, the version and the suite. */
  method ReadVersion(d: Decoder, ghost want: Option<Descriptor>) returns (error: Option<EnvelopeError>)
    requires d.Valid() && (want.Some? ==> Encodable(want.value) && d.Left(DescriptorParts(want.value)))
    modifies d
    ensures d.Valid()
    ensures want.Some? ==> error.None? && d.Left(DescriptorParts(want.value)[3..])
  {
    hide Head, Str, Cat, NodeBytes, BindingParts, BindingItems, DescriptorPrefix, DescriptorParts;
    ghost var all: seq<Bytes> := [];
    if want.Some? {
      DescriptorItems(want.value);
      all := d.expected;
    }
    var ok := GetArrayOf(d, 13);
    assert want.Some? ==> d.Left(all[1..]);
    if !ok {
      return Some(Malformed);
    }
    var version := d.GetUint(0x100);
    assert want.Some? ==> d.Left(all[2..]);
    if version.None? {
      return Some(Malformed);
    }
    if version.value != VERSION {
      return Some(Unsupported);
    }
    var suite := d.GetUint(0x100);
    if suite.None? {
      return Some(Malformed);
    }
    if suite.value != SUITE {
      return Some(Unsupported);
    }
    error := None;
  }

  method ReadIdentity(d: Decoder, ghost want: Option<Descriptor>) returns (result: Option<(Bytes32, Bytes16)>)
    requires d.Valid() && (want.Some? ==> Encodable(want.value) && d.Left(DescriptorParts(want.value)[3..]))
    modifies d
    ensures d.Valid()
    ensures want.Some? ==>
              d.Left(DescriptorParts(want.value)[5..]) && result == Some((want.value.bindingId, want.value.volumeUuid))
  {
    hide Head, Str, Cat, NodeBytes, BindingParts, BindingItems, DescriptorPrefix, DescriptorParts;
    ghost var all: seq<Bytes> := [];
    if want.Some? {
      DescriptorItems(want.value);
      all := DescriptorParts(want.value);
    }
    var bindingId := GetFixed(d, 32);
    assert want.Some? ==> d.Left(all[4..]);
    if bindingId.None? {
      return None;
    }
    var volumeUuid := GetFixed(d, 16);
    if volumeUuid.None? {
      return None;
    }
    result := Some((bindingId.value, volumeUuid.value));
  }

  method ReadHeader(d: Decoder, ghost want: Option<Descriptor>) returns (result: Result<Header, EnvelopeError>)
    requires d.Valid() && (want.Some? ==> Encodable(want.value) && d.Left(DescriptorParts(want.value)))
    modifies d
    ensures d.Valid()
    ensures want.Some? ==>
              && d.Left(DescriptorParts(want.value)[9..])
              && var w := want.value;
                 result == Success(Header(w.bindingId, w.volumeUuid, w.slot, w.generation, w.policy.mode, w.policy.tpmNodeId))
  {
    hide Head, Str, Cat, NodeBytes, BindingParts, BindingItems, DescriptorPrefix, DescriptorParts;
    ghost var all: seq<Bytes> := [];
    if want.Some? {
      DescriptorItems(want.value);
      all := d.expected;
    }
    var error := ReadVersion(d, want);
    if error.Some? {
      return Failure(error.value);
    }
    var ids := ReadIdentity(d, want);
    if ids.None? {
      return Failure(Malformed);
    }
    var slot := d.GetUint(0x100);
    assert want.Some? ==> d.Left(all[6..]);
    if slot.None? {
      return Failure(Malformed);
    }
    var generation := d.GetUint(0x1_0000_0000_0000_0000);
    assert want.Some? ==> d.Left(all[7..]);
    if generation.None? {
      return Failure(Malformed);
    }
    var mode := d.GetUint(0x100);
    assert want.Some? ==> d.Left(all[8..]);
    if mode.None? {
      return Failure(Malformed);
    }
    if mode.value > 1 {
      return Failure(Unsupported);
    }
    var tpmNodeId := d.GetUint(0x100);
    if tpmNodeId.None? {
      return Failure(Malformed);
    }
    result := Success(Header(ids.value.0, ids.value.1, slot.value, generation.value,
                             if mode.value == 0 then NetworkBound else Attested, tpmNodeId.value));
  }

  /** Bindings, PCR selection and purpose, then the end of input. */
  method ReadTail(d: Decoder, ghost want: Option<Descriptor>)
    returns (result: Result<(seq<NetworkBinding>, U32, Bytes32), EnvelopeError>)
    requires d.Valid()
    requires want.Some? ==> Encodable(want.value) && |want.value.networks| <= 29 && d.Left(DescriptorParts(want.value)[10..])
    modifies d
    ensures d.Valid()
    ensures want.Some? ==> result == Success((want.value.networks, want.value.pcrMask, want.value.pcrDigest))
  {
    hide Head, Str, Cat, NodeBytes, BindingParts, BindingItems, DescriptorPrefix, DescriptorParts;
    ghost var all: seq<Bytes> := [];
    ghost var k := 0;
    if want.Some? {
      DescriptorItems(want.value);
      all := DescriptorParts(want.value);
      k := 11 + |want.value.networks|;
    }
    var size := d.GetArray();
    assert want.Some? ==> d.Left(all[11..]);
    if size.None? {
      return Failure(Malformed);
    }
    if size.value > 30 {
      return Failure(TooLarge);
    }
    var networks := GetBindings(d, size.value, if want.Some? then Some(want.value.networks) else None);
    assert want.Some? ==> d.Left(all[k..]);
    if networks.None? {
      return Failure(Malformed);
    }
    var pcrMask := d.GetUint(0x1_0000_0000);
    assert want.Some? ==> d.Left(all[k + 1..]);
    if pcrMask.None? {
      return Failure(Malformed);
    }
    var pcrDigest := GetFixed(d, 32);
    assert want.Some? ==> d.Left(all[k + 2..]);
    if pcrDigest.None? {
      return Failure(Malformed);
    }
    var purpose := d.GetString(TEXT_STRING);
    assert want.Some? ==> d.Left([]);
    if want.Some? {
      CatEmpty();
    }
    if purpose.None? || purpose.value != PURPOSE || d.position != |d.raw| {
      return Failure(Malformed);
    }
    result := Success((networks.value, pcrMask.value, pcrDigest.value));
  }

  lemma CatEmpty()
    ensures Cat<U8>([]) == []
  {}

  /** Parse, admit the policy, and re-encode. Longer heads than needed are read but never survive the comparison:
      a descriptor is returned exactly when it is valid and the input is its own encoding. */
  method ReadDescriptor(rules: KeyRules, raw: Bytes) returns (result: Result<Descriptor, EnvelopeError>)
    ensures forall d: Descriptor :: result == Success(d) <==> Describes(rules, raw, d)
  {
    hide Describes;
    ghost var want: Option<Descriptor> := None;
    if exists d: Descriptor :: Describes(rules, raw, d) {
      ghost var d: Descriptor :| Describes(rules, raw, d);
      want := Some(d);
    }
    result := ReadDescriptorFor(rules, raw, want);
    forall d: Descriptor | Describes(rules, raw, d) ensures result == Success(d) {
      DescribesOne(rules, raw, d, want.value);
    }
  }

  /** `raw` is the encoding of a valid descriptor. */
  ghost predicate Describes(rules: KeyRules, raw: Bytes, d: Descriptor) {
    ValidDescriptor(rules, d) && Encodable(d) && raw == DescriptorEncoding(d)
  }

  lemma DescribesOne(rules: KeyRules, raw: Bytes, d: Descriptor, c: Descriptor)
    requires Describes(rules, raw, d) && Describes(rules, raw, c)
    ensures d == c
  {
    hide DescriptorEncoding, ValidPolicy;
    DescriptorInjective(d, c);
  }

  method ReadDescriptorFor(rules: KeyRules, raw: Bytes, ghost want: Option<Descriptor>)
    returns (result: Result<Descriptor, EnvelopeError>)
    requires want.Some? ==> Describes(rules, raw, want.value)
    ensures want.Some? ==> result == Success(want.value)
    ensures result.Success? ==> Describes(rules, raw, result.value)
  {
    hide Head, Str, Cat, NodeBytes, BindingParts, BindingItems, DescriptorPrefix, DescriptorParts, ProvidersValid, FieldsValid;
    ghost var all: seq<Bytes> := [];
    ghost var tree: Option<NetworkNode> := None;
    if want.Some? {
      ValidEncodable(rules, want.value);
      DescriptorItems(want.value);
      all := DescriptorParts(want.value);
      tree := Some(want.value.policy.network);
    }
    var d := new Decoder(raw, want.Some?, all);
    var header := ReadHeader(d, want);
    if header.Failure? {
      return Failure(header.error);
    }
    var network, count := GetNode(d, 1, 0, tree);
    assert want.Some? ==> d.Left(all[10..]);
    if network.Failure? {
      return Failure(network.error);
    }
    var h := header.value;
    var policy := NewPolicy(h.mode, h.tpmNodeId, network.value);
    if policy.Failure? {
      return Failure(InvalidPolicy);
    }
    var tail := ReadTail(d, want);
    if tail.Failure? {
      return Failure(tail.error);
    }
    var descriptor := Descriptor(h.bindingId, h.volumeUuid, h.slot, h.generation, policy.value, tail.value.0, tail.value.1, tail.value.2);
    assert want.Some? ==> descriptor == want.value;
    var encoded := DescriptorBytes(rules, descriptor);
    if encoded.Failure? {
      return Failure(encoded.error);
    }
    if encoded.value != raw {
      return Failure(NonCanonical);
    }
    result := Success(descriptor);
  }

  // ----- sizes -----

  lemma {:induction false} CatBound(parts: seq<Bytes>, cap: nat)
    requires forall i :: 0 <= i < |parts| ==> |parts[i]| <= cap
    ensures |Cat(parts)| <= |parts| * cap
  {
    if parts != [] {
      CatBound(parts[1..], cap);
      assert |parts| * cap == cap + (|parts| - 1) * cap;
    }
  }

  lemma {:induction false} NodeSize(node: NetworkNode)
    requires Size(node) <= 0xffff
    ensures |NodeBytes(node)| <= 164 * Size(node)
    decreases node, 1
  {
    hide Head;
    match node {
      case Leaf(id, provider) =>
        CatBound(NodeParts(node), 41);
      case Threshold(id, required, children) =>
        ChildCount(children);
        var head := [Head(ARRAY, 4), Head(UNSIGNED, 1), Head(UNSIGNED, id), Head(UNSIGNED, required), Head(ARRAY, |children|)];
        CatBound(head, 9);
        ForestBytesSize(children);
        CatConcat(head, ForestParts(children));
    }
  }

  lemma {:induction false} ForestBytesSize(nodes: seq<NetworkNode>)
    requires ForestSize(nodes) <= 0xffff
    ensures |Cat(ForestParts(nodes))| <= 164 * ForestSize(nodes)
    decreases nodes, 0
  {
    if nodes != [] {
      hide NodeBytes;
      NodeSize(nodes[0]);
      ForestBytesSize(nodes[1..]);
      var parts := ForestParts(nodes);
      assert parts[0] == NodeBytes(nodes[0]) && parts[1..] == ForestParts(nodes[1..]);
    }
  }

  lemma BindingSize(b: NetworkBinding)
    ensures |Cat(BindingParts(b))| <= 348
  {
    hide Head;
    CatBound(BindingParts(b), 58);
  }

  /** A valid descriptor is far below the envelope limit. */
  lemma DescriptorSize(rules: KeyRules, d: Descriptor)
    requires ValidDescriptor(rules, d)
    ensures Encodable(d) && |DescriptorEncoding(d)| <= 16_000
  {
    ValidEncodable(rules, d);
    hide Head, Cat, BindingParts, NodeBytes, ValidPolicy, ProvidersValid, FieldsValid;
    NodeSize(d.policy.network);
    var first := DescriptorPrefix(d)[..9];
    forall i | 0 <= i < |first| ensures |first[i]| <= 41 {}
    CatBound(first, 41);
    CatConcat(first, DescriptorPrefix(d)[9..]);
    assert DescriptorPrefix(d) == first + DescriptorPrefix(d)[9..];
    assert DescriptorPrefix(d)[9..] == [NodeBytes(d.policy.network), Head(ARRAY, |d.networks|)];
    CatPair(NodeBytes(d.policy.network), Head(ARRAY, |d.networks|));
    forall i | 0 <= i < |d.networks| ensures |BindingItems(d.networks)[i]| <= 348 {
      BindingSize(d.networks[i]);
    }
    CatBound(BindingItems(d.networks), 348);
    CatBound(DescriptorSuffix(d), 41);
    CatConcat(DescriptorPrefix(d), BindingItems(d.networks));
    CatConcat(DescriptorPrefix(d) + BindingItems(d.networks), DescriptorSuffix(d));
  }

  // ----- wrapped keys and leaves -----

  function WrappedParts(w: WrappedKey): (parts: seq<Bytes>)
    ensures |parts| == 3
  {
    [Head(ARRAY, 2), Str(BYTE_STRING, w.nonce), Str(BYTE_STRING, w.ciphertext)]
  }

  function LeafParts(leaf: WrappedLeaf): (parts: seq<Bytes>)
    ensures |parts| == 3
  {
    [Head(ARRAY, 2), Head(UNSIGNED, leaf.nodeId), Cat(WrappedParts(leaf.value))]
  }

  function LeafItems(leaves: seq<WrappedLeaf>): (items: seq<Bytes>)
    ensures |items| == |leaves|
    ensures forall i :: 0 <= i < |leaves| ==> items[i] == Cat(LeafParts(leaves[i]))
  {
    seq(|leaves|, i requires 0 <= i < |leaves| => Cat(LeafParts(leaves[i])))
  }

  method PutWrapped(e: Encoder, w: WrappedKey)
    requires e.Valid()
    modifies e
    ensures e.Valid() && e.items == old(e.items) + [Cat(WrappedParts(w))]
  {
    hide Head, Str, Cat;
    ghost var n := |e.items|;
    e.PutHead(ARRAY, 2);
    e.PutString(BYTE_STRING, w.nonce);
    e.PutString(BYTE_STRING, w.ciphertext);
    assert e.items[n..] == WrappedParts(w);
    e.Fold(n);
  }

  method GetWrapped(d: Decoder, ghost want: Option<WrappedKey>) returns (result: Option<WrappedKey>)
    requires d.Valid() && (want.Some? ==> d.Next(Cat(WrappedParts(want.value))))
    modifies d
    ensures d.Valid()
    ensures want.Some? ==> result == want && d.Left(old(d.expected)[1..])
  {
    hide Head, Str, Cat;
    ghost var all: seq<Bytes> := [];
    if want.Some? {
      d.Expand(WrappedParts(want.value));
      all := d.expected;
      assert all[3..] == old(d.expected)[1..];
    }
    var ok := GetArrayOf(d, 2);
    assert want.Some? ==> d.Left(all[1..]);
    if !ok {
      return None;
    }
    var nonce := GetFixed(d, 12);
    assert want.Some? ==> d.Left(all[2..]);
    if nonce.None? {
      return None;
    }
    var ciphertext := GetFixed(d, 48);
    if ciphertext.None? {
      return None;
    }
    result := Some(WrappedKey(nonce.value, ciphertext.value));
  }

  method PutLeaves(e: Encoder, leaves: seq<WrappedLeaf>)
    requires e.Valid()
    modifies e
    ensures e.Valid() && e.items == old(e.items) + LeafItems(leaves)
  {
    hide Head, Cat, WrappedParts;
    var i := 0;
    while i < |leaves|
      invariant 0 <= i <= |leaves|
      invariant e.Valid() && e.items == old(e.items) + LeafItems(leaves)[..i]
    {
      ghost var n := |e.items|;
      e.PutHead(ARRAY, 2);
      e.PutHead(UNSIGNED, leaves[i].nodeId);
      PutWrapped(e, leaves[i].value);
      assert e.items[n..] == LeafParts(leaves[i]);
      e.Fold(n);
      i := i + 1;
    }
  }

  method GetLeaf(d: Decoder, ghost want: Option<WrappedLeaf>) returns (result: Option<WrappedLeaf>)
    requires d.Valid() && (want.Some? ==> d.Next(Cat(LeafParts(want.value))))
    modifies d
    ensures d.Valid()
    ensures want.Some? ==> result == want && d.Left(old(d.expected)[1..])
  {
    hide Head, Cat, WrappedParts;
    ghost var all: seq<Bytes> := [];
    if want.Some? {
      d.Expand(LeafParts(want.value));
      all := d.expected;
      assert all[3..] == old(d.expected)[1..];
    }
    var ok := GetArrayOf(d, 2);
    assert want.Some? ==> d.Left(all[1..]);
    if !ok {
      return None;
    }
    var nodeId := d.GetUint(0x100);
    assert want.Some? ==> d.Left(all[2..]);
    if nodeId.None? {
      return None;
    }
    var value := GetWrapped(d, if want.Some? then Some(want.value.value) else None);
    if value.None? {
      return None;
    }
    result := Some(WrappedLeaf(nodeId.value, value.value));
  }

  method GetLeaves(d: Decoder, size: nat, ghost want: Option<seq<WrappedLeaf>>) returns (result: Option<seq<WrappedLeaf>>)
    requires d.Valid() && (want.Some? ==> |want.value| == size && d.known && LeafItems(want.value) <= d.expected)
    modifies d
    ensures d.Valid()
    ensures want.Some? ==> result == want && d.Left(old(d.expected)[size..])
  {
    hide Cat, LeafParts;
    var leaves := [];
    ghost var all := if want.Some? then want.value else [];
    ghost var before := d.expected;
    var i := 0;
    while i < size
      invariant 0 <= i <= size && d.Valid()
      invariant want.Some? ==> leaves == all[..i] && i <= |before| && d.Left(before[i..])
    {
      assert want.Some? ==> d.expected[0] == LeafItems(all)[i];
      var leaf := GetLeaf(d, if want.Some? then Some(all[i]) else None);
      if leaf.None? {
        return None;
      }
      leaves := leaves + [leaf.value];
      i := i + 1;
    }
    assert want.Some? ==> all[..size] == all;
    result := Some(leaves);
  }

  // ----- body -----

  predicate BlobValid(tpm: TpmBlob) {
    0 < |tpm.public| <= MAX_TPM_BLOB && 0 < |tpm.private| <= MAX_TPM_BLOB && 0 < |tpm.name| <= 68 && 0 < |tpm.parentName| <= 68
  }

  /** The TPM leaf first, then the network leaves in binding order. */
  predicate LeavesMatch(b: EnvelopeBody) {
    && |b.leaves| == 1 + |b.descriptor.networks|
    && b.leaves[0].nodeId == b.descriptor.policy.tpmNodeId
    && forall i :: 0 <= i < |b.descriptor.networks| ==> b.leaves[i + 1].nodeId == b.descriptor.networks[i].nodeId
  }

  predicate ValidBody(rules: KeyRules, b: EnvelopeBody) {
    ValidDescriptor(rules, b.descriptor) && BlobValid(b.tpm) && LeavesMatch(b)
  }

  predicate BodyEncodable(b: EnvelopeBody) {
    && Encodable(b.descriptor) && |DescriptorEncoding(b.descriptor)| <= 0xffff && |b.leaves| <= 0xffff
    && |b.tpm.public| <= 0xffff && |b.tpm.private| <= 0xffff && |b.tpm.name| <= 0xffff && |b.tpm.parentName| <= 0xffff
  }

  function BodyPrefix(b: EnvelopeBody): (parts: seq<Bytes>)
    requires BodyEncodable(b)
    ensures |parts| == 8
  {
    [Head(ARRAY, 4), Str(BYTE_STRING, DescriptorEncoding(b.descriptor)), Head(ARRAY, 4), Str(BYTE_STRING, b.tpm.public),
     Str(BYTE_STRING, b.tpm.private), Str(BYTE_STRING, b.tpm.name), Str(BYTE_STRING, b.tpm.parentName), Head(ARRAY, |b.leaves|)]
  }

  function BodyParts(b: EnvelopeBody): (parts: seq<Bytes>)
    requires BodyEncodable(b)
    ensures |parts| == 9 + |b.leaves|
  {
    BodyPrefix(b) + LeafItems(b.leaves) + [Cat(WrappedParts(b.payload))]
  }

  function BodyEncoding(b: EnvelopeBody): Bytes
    requires BodyEncodable(b)
  {
    Cat(BodyParts(b))
  }

  lemma LeafSize(leaf: WrappedLeaf)
    ensures |Cat(LeafParts(leaf))| <= 513
    ensures |Cat(WrappedParts(leaf.value))| <= 171
  {
    hide Head;
    CatBound(WrappedParts(leaf.value), 57);
    CatBound(LeafParts(leaf), 171);
  }

  /** Every valid body encodes well below the limit, so the final size check never fires. */
  lemma BodySize(rules: KeyRules, b: EnvelopeBody)
    requires ValidBody(rules, b)
    ensures BodyEncodable(b) && |BodyEncoding(b)| <= MAX_ENVELOPE - 128
  {
    DescriptorSize(rules, b.descriptor);
    ValidEncodable(rules, b.descriptor);
    hide Head, Cat, LeafParts, WrappedParts, ValidDescriptor, DescriptorEncoding;
    var p := BodyPrefix(b);
    CatEight(p);
    forall i | 0 <= i < |b.leaves| ensures |LeafItems(b.leaves)[i]| <= 513 {
      LeafSize(b.leaves[i]);
    }
    CatBound(LeafItems(b.leaves), 513);
    LeafSize(WrappedLeaf(0, b.payload));
    CatSingle(Cat(WrappedParts(b.payload)));
    CatConcat(p, LeafItems(b.leaves));
    CatConcat(p + LeafItems(b.leaves), [Cat(WrappedParts(b.payload))]);
  }

  lemma CatEight(p: seq<Bytes>)
    requires |p| == 8
    ensures |Cat(p)| == |p[0]| + |p[1]| + |p[2]| + |p[3]| + |p[4]| + |p[5]| + |p[6]| + |p[7]|
  {
    CatConcat(p[..4], p[4..]);
    assert p == p[..4] + p[4..];
    CatConcat(p[..4][..2], p[..4][2..]);
    assert p[..4] == p[..4][..2] + p[..4][2..];
    CatConcat(p[4..][..2], p[4..][2..]);
    assert p[4..] == p[4..][..2] + p[4..][2..];
    CatPair(p[0], p[1]);
    CatPair(p[2], p[3]);
    CatPair(p[4], p[5]);
    CatPair(p[6], p[7]);
    assert p[..4][..2] == [p[0], p[1]] && p[..4][2..] == [p[2], p[3]];
    assert p[4..][..2] == [p[4], p[5]] && p[4..][2..] == [p[6], p[7]];
  }

  /** Validate and write the body. The size check at the end is kept, and is unreachable. */
  method BodyBytes(rules: KeyRules, b: EnvelopeBody) returns (result: Result<Bytes, EnvelopeError>)
    requires ValidPolicy(b.descriptor.policy)
    ensures result.Success? <==> ValidBody(rules, b)
    ensures result.Success? ==> BodyEncodable(b) && result.value == BodyEncoding(b)
    ensures result.Failure? ==>
              result.error == match DescriptorError(rules, b.descriptor)
                              case Some(error) => error
                              case None => if !BlobValid(b.tpm) then TooLarge else Malformed
  {
    hide Head, Str, Cat, LeafItems, ValidDescriptor, DescriptorEncoding, WrappedParts, BodyParts;
    var descriptor := DescriptorBytes(rules, b.descriptor);
    if descriptor.Failure? {
      return Failure(descriptor.error);
    }
    DescriptorAccepted(rules, b.descriptor);
    if |b.tpm.public| == 0 || |b.tpm.public| > MAX_TPM_BLOB || |b.tpm.private| == 0 || |b.tpm.private| > MAX_TPM_BLOB
       || |b.tpm.name| == 0 || |b.tpm.name| > 68 || |b.tpm.parentName| == 0 || |b.tpm.parentName| > 68 {
      return Failure(TooLarge);
    }
    var matched := CheckLeafIds(b);
    if !matched {
      return Failure(Malformed);
    }
    BodySize(rules, b);
    var e := new Encoder();
    PutBody(e, b, descriptor.value);
    assert [] + BodyParts(b) == BodyParts(b);
    if |e.buffer| > MAX_ENVELOPE - 128 {
      return Failure(TooLarge);
    }
    result := Success(e.buffer);
  }

  method PutBody(e: Encoder, b: EnvelopeBody, descriptor: Bytes)
    requires e.Valid() && BodyEncodable(b) && descriptor == DescriptorEncoding(b.descriptor)
    modifies e
    ensures e.Valid() && e.items == old(e.items) + BodyParts(b)
  {
    hide Head, Str, Cat, LeafItems, DescriptorEncoding, WrappedParts;
    e.PutHead(ARRAY, 4);
    e.PutString(BYTE_STRING, descriptor);
    e.PutHead(ARRAY, 4);
    e.PutString(BYTE_STRING, b.tpm.public);
    e.PutString(BYTE_STRING, b.tpm.private);
    e.PutString(BYTE_STRING, b.tpm.name);
    e.PutString(BYTE_STRING, b.tpm.parentName);
    e.PutHead(ARRAY, |b.leaves|);
    PutLeaves(e, b.leaves);
    PutWrapped(e, b.payload);
  }

  lemma DescriptorAccepted(rules: KeyRules, d: Descriptor)
    ensures ValidDescriptor(rules, d) ==> DescriptorError(rules, d).None?
  {}

  method CheckLeafIds(b: EnvelopeBody) returns (matched: bool)
    ensures matched == LeavesMatch(b)
  {
    var networks := b.descriptor.networks;
    if |b.leaves| != 1 + |networks| || b.leaves[0].nodeId != b.descriptor.policy.tpmNodeId {
      return false;
    }
    var i := 0;
    while i < |networks|
      invariant 0 <= i <= |networks|
      invariant forall k :: 0 <= k < i ==> b.leaves[k + 1].nodeId == networks[k].nodeId
    {
      if b.leaves[i + 1].nodeId != networks[i].nodeId {
        return false;
      }
      i := i + 1;
    }
    matched := true;
  }

  // ----- no two bodies share an encoding -----

  lemma CutWrapped(p: seq<Bytes>, q: seq<Bytes>, k: nat, m: WrappedKey, n: WrappedKey)
    requires k < |p| && k < |q| && p[k] == Cat(WrappedParts(m)) && q[k] == Cat(WrappedParts(n))
    requires Cat(p[k..]) == Cat(q[k..])
    ensures m == n && Cat(p[k + 1..]) == Cat(q[k + 1..])
  {
    hide Head, Str, Cat;
    var a, b := WrappedParts(m) + p[k + 1..], WrappedParts(n) + q[k + 1..];
    CutOpen(p, k, WrappedParts(m));
    CutOpen(q, k, WrappedParts(n));
    assert a[0..] == a && b[0..] == b && a[3..] == p[k + 1..] && b[3..] == q[k + 1..];
    CutHead(a, b, 0, ARRAY, 2, 2);
    CutString(a, b, 1, BYTE_STRING, m.nonce, n.nonce);
    CutString(a, b, 2, BYTE_STRING, m.ciphertext, n.ciphertext);
  }

  lemma CutLeaf(p: seq<Bytes>, q: seq<Bytes>, k: nat, m: WrappedLeaf, n: WrappedLeaf)
    requires k < |p| && k < |q| && p[k] == Cat(LeafParts(m)) && q[k] == Cat(LeafParts(n))
    requires Cat(p[k..]) == Cat(q[k..])
    ensures m == n && Cat(p[k + 1..]) == Cat(q[k + 1..])
  {
    hide Head, Str, Cat, WrappedParts;
    var a, b := LeafParts(m) + p[k + 1..], LeafParts(n) + q[k + 1..];
    CutOpen(p, k, LeafParts(m));
    CutOpen(q, k, LeafParts(n));
    assert a[0..] == a && b[0..] == b && a[3..] == p[k + 1..] && b[3..] == q[k + 1..];
    CutHead(a, b, 0, ARRAY, 2, 2);
    CutHead(a, b, 1, UNSIGNED, m.nodeId, n.nodeId);
    CutWrapped(a, b, 2, m.value, n.value);
  }

  lemma {:induction false} CutLeaves(p: seq<Bytes>, q: seq<Bytes>, k: nat, ms: seq<WrappedLeaf>, ns: seq<WrappedLeaf>, i: nat)
    requires i <= |ms| == |ns| && k + |ms| <= |p| && k + |ns| <= |q|
    requires forall j :: 0 <= j < |ms| ==> p[k + j] == Cat(LeafParts(ms[j])) && q[k + j] == Cat(LeafParts(ns[j]))
    requires ms[..i] == ns[..i] && Cat(p[k + i..]) == Cat(q[k + i..])
    ensures ms == ns && Cat(p[k + |ms|..]) == Cat(q[k + |ns|..])
    decreases |ms| - i
  {
    hide Cat, LeafParts;
    if i < |ms| {
      CutLeaf(p, q, k + i, ms[i], ns[i]);
      assert ms[..i + 1] == ms[..i] + [ms[i]] && ns[..i + 1] == ns[..i] + [ns[i]];
      CutLeaves(p, q, k, ms, ns, i + 1);
    } else {
      assert ms[..i] == ms && ns[..i] == ns;
    }
  }

  /** The entries of a body by position. */
  lemma BodyItems(b: EnvelopeBody)
    requires BodyEncodable(b)
    ensures var p := BodyParts(b);
            && p[0] == Head(ARRAY, 4) && p[1] == Str(BYTE_STRING, DescriptorEncoding(b.descriptor)) && p[2] == Head(ARRAY, 4)
            && p[3] == Str(BYTE_STRING, b.tpm.public) && p[4] == Str(BYTE_STRING, b.tpm.private)
            && p[5] == Str(BYTE_STRING, b.tpm.name) && p[6] == Str(BYTE_STRING, b.tpm.parentName)
            && p[7] == Head(ARRAY, |b.leaves|)
            && (forall j :: 0 <= j < |b.leaves| ==> p[8 + j] == Cat(LeafParts(b.leaves[j])))
            && LeafItems(b.leaves) <= p[8..]
            && p[8 + |b.leaves|] == Cat(WrappedParts(b.payload))
  {
    hide Head, Str, Cat, LeafParts, WrappedParts, DescriptorEncoding;
  }

  lemma BodyPrefixInjective(b: EnvelopeBody, c: EnvelopeBody)
    requires BodyEncodable(b) && BodyEncodable(c) && BodyEncoding(b) == BodyEncoding(c)
    ensures DescriptorEncoding(b.descriptor) == DescriptorEncoding(c.descriptor) && b.tpm == c.tpm && |b.leaves| == |c.leaves|
    ensures Cat(BodyParts(b)[8..]) == Cat(BodyParts(c)[8..])
  {
    hide Head, Str, Cat, LeafParts, LeafItems, WrappedParts, DescriptorEncoding, BodyParts;
    var p, q := BodyParts(b), BodyParts(c);
    BodyItems(b);
    BodyItems(c);
    assert p[0..] == p && q[0..] == q;
    CutHead(p, q, 0, ARRAY, 4, 4);
    CutString(p, q, 1, BYTE_STRING, DescriptorEncoding(b.descriptor), DescriptorEncoding(c.descriptor));
    CutHead(p, q, 2, ARRAY, 4, 4);
    CutString(p, q, 3, BYTE_STRING, b.tpm.public, c.tpm.public);
    CutString(p, q, 4, BYTE_STRING, b.tpm.private, c.tpm.private);
    CutString(p, q, 5, BYTE_STRING, b.tpm.name, c.tpm.name);
    CutString(p, q, 6, BYTE_STRING, b.tpm.parentName, c.tpm.parentName);
    CutHead(p, q, 7, ARRAY, |b.leaves|, |c.leaves|);
  }

  lemma BodyInjective(b: EnvelopeBody, c: EnvelopeBody)
    requires BodyEncodable(b) && BodyEncodable(c) && BodyEncoding(b) == BodyEncoding(c)
    requires ValidPolicy(b.descriptor.policy) && ValidPolicy(c.descriptor.policy)
    ensures b == c
  {
    hide Head, Str, Cat, LeafParts, LeafItems, WrappedParts, DescriptorEncoding, BodyParts, ValidPolicy;
    var p, q := BodyParts(b), BodyParts(c);
    BodyItems(b);
    BodyItems(c);
    BodyPrefixInjective(b, c);
    DescriptorInjective(b.descriptor, c.descriptor);
    CutLeaves(p, q, 8, b.leaves, c.leaves, 0);
    CutWrapped(p, q, 8 + |b.leaves|, b.payload, c.payload);
  }

  // ----- reading a body -----

  /** A nonempty byte string of at most `max` bytes. */
  method GetBounded(d: Decoder, max: nat) returns (result: Result<Bytes, EnvelopeError>)
    requires d.Valid()
    modifies d
    ensures d.Valid()
    ensures forall s: Bytes :: 0 < |s| <= max < 0x1_0000_0000 && old(d.Next(Str(BYTE_STRING, s))) ==>
              result == Success(s) && d.Left(old(d.expected)[1..])
  {
    hide Str, Cat;
    var b := d.GetString(BYTE_STRING);
    if b.None? {
      return Failure(Malformed);
    }
    if |b.value| == 0 || |b.value| > max {
      return Failure(TooLarge);
    }
    result := Success(b.value);
  }

  method ReadBlob(d: Decoder, ghost want: Option<EnvelopeBody>) returns (result: Result<TpmBlob, EnvelopeError>)
    requires d.Valid()
    requires want.Some? ==> BodyLeft(d, want.value, 2) && BlobValid(want.value.tpm)
    modifies d
    ensures d.Valid()
    ensures want.Some? ==> result == Success(want.value.tpm) && BodyLeft(d, want.value, 7)
  {
    hide Head, Str, Cat, LeafParts, LeafItems, WrappedParts, DescriptorEncoding, BodyParts;
    ghost var all: seq<Bytes> := [];
    if want.Some? {
      BodyItems(want.value);
      all := BodyParts(want.value);
    }
    var ok := GetArrayOf(d, 4);
    assert want.Some? ==> d.Left(all[3..]);
    if !ok {
      return Failure(Malformed);
    }
    var public := GetBounded(d, MAX_TPM_BLOB);
    assert want.Some? ==> d.Left(all[4..]);
    if public.Failure? {
      return Failure(public.error);
    }
    var private := GetBounded(d, MAX_TPM_BLOB);
    assert want.Some? ==> d.Left(all[5..]);
    if private.Failure? {
      return Failure(private.error);
    }
    var name := GetBounded(d, 68);
    assert want.Some? ==> d.Left(all[6..]);
    if name.Failure? {
      return Failure(name.error);
    }
    var parentName := GetBounded(d, 68);
    if parentName.Failure? {
      return Failure(parentName.error);
    }
    result := Success(TpmBlob(public.value, private.value, name.value, parentName.value));
  }

  /** `raw` is the encoding of the valid body `b`. */
  ghost predicate Encodes(rules: KeyRules, raw: Bytes, b: EnvelopeBody) {
    ValidBody(rules, b) && BodyEncodable(b) && raw == BodyEncoding(b)
  }

  lemma EncodesOne(rules: KeyRules, raw: Bytes, b: EnvelopeBody, c: EnvelopeBody)
    requires Encodes(rules, raw, b) && Encodes(rules, raw, c)
    ensures b == c
  {
    BodyInjective(b, c);
  }

  /** A body is returned exactly when it is valid and the input is its own encoding. */
  method ReadBody(rules: KeyRules, raw: Bytes) returns (result: Result<EnvelopeBody, EnvelopeError>)
    ensures forall b: EnvelopeBody :: result == Success(b) <==> Encodes(rules, raw, b)
  {
    hide Encodes;
    ghost var want: Option<EnvelopeBody> := None;
    if exists b: EnvelopeBody :: Encodes(rules, raw, b) {
      ghost var b: EnvelopeBody :| Encodes(rules, raw, b);
      want := Some(b);
    }
    result := ReadBodyFor(rules, raw, want);
    forall b: EnvelopeBody | Encodes(rules, raw, b) ensures result == Success(b) {
      EncodesOne(rules, raw, b, want.value);
    }
  }

  /** The decoder is known to have the body's items from `k` on left. */
  ghost predicate BodyLeft(d: Decoder, b: EnvelopeBody, k: nat)
    reads d
  {
    BodyEncodable(b) && k <= |BodyParts(b)| && d.Left(BodyParts(b)[k..])
  }

  /** Array head, descriptor and TPM blob. */
  method ReadBodyPrefix(rules: KeyRules, d: Decoder, ghost want: Option<EnvelopeBody>)
    returns (result: Result<(Descriptor, TpmBlob), EnvelopeError>)
    requires d.Valid() && (want.Some? ==> BodyLeft(d, want.value, 0) && ValidBody(rules, want.value))
    modifies d
    ensures d.Valid()
    ensures result.Success? ==> ValidDescriptor(rules, result.value.0)
    ensures want.Some? ==> result == Success((want.value.descriptor, want.value.tpm)) && BodyLeft(d, want.value, 7)
  {
    hide Head, Str, Cat, LeafParts, LeafItems, WrappedParts, DescriptorEncoding, BodyParts, LeavesMatch, ValidDescriptor;
    ghost var all: seq<Bytes> := [];
    if want.Some? {
      BodyItems(want.value);
      all := BodyParts(want.value);
    }
    var ok := GetArrayOf(d, 4);
    assert want.Some? ==> d.Left(all[1..]);
    if !ok {
      return Failure(Malformed);
    }
    var inner := d.GetString(BYTE_STRING);
    assert want.Some? ==> d.Left(all[2..]);
    if inner.None? {
      return Failure(Malformed);
    }
    assert want.Some? ==> Describes(rules, inner.value, want.value.descriptor);
    var descriptor := ReadDescriptor(rules, inner.value);
    if descriptor.Failure? {
      return Failure(descriptor.error);
    }
    var tpm := ReadBlob(d, want);
    if tpm.Failure? {
      return Failure(tpm.error);
    }
    result := Success((descriptor.value, tpm.value));
  }

  /** Wrapped leaves, wrapped credential, then the end of input. */
  method ReadBodyTail(d: Decoder, ghost want: Option<EnvelopeBody>)
    returns (result: Result<(seq<WrappedLeaf>, WrappedKey), EnvelopeError>)
    requires d.Valid() && (want.Some? ==> BodyLeft(d, want.value, 7) && |want.value.leaves| <= 31)
    modifies d
    ensures d.Valid()
    ensures want.Some? ==> result == Success((want.value.leaves, want.value.payload))
  {
    hide Head, Str, Cat, LeafParts, LeafItems, WrappedParts, DescriptorEncoding, BodyParts;
    ghost var all: seq<Bytes> := [];
    if want.Some? {
      BodyItems(want.value);
      all := BodyParts(want.value);
    }
    var size := d.GetArray();
    assert want.Some? ==> d.Left(all[8..]);
    if size.None? {
      return Failure(Malformed);
    }
    if size.value > 31 {
      return Failure(TooLarge);
    }
    var leaves := GetLeaves(d, size.value, if want.Some? then Some(want.value.leaves) else None);
    assert want.Some? ==> d.Left(all[8 + |want.value.leaves|..]);
    if leaves.None? {
      return Failure(Malformed);
    }
    var payload := GetWrapped(d, if want.Some? then Some(want.value.payload) else None);
    assert want.Some? ==> d.Left([]);
    if want.Some? {
      CatEmpty();
    }
    if payload.None? || d.position != |d.raw| {
      return Failure(Malformed);
    }
    result := Success((leaves.value, payload.value));
  }

  method ReadBodyFor(rules: KeyRules, raw: Bytes, ghost want: Option<EnvelopeBody>)
    returns (result: Result<EnvelopeBody, EnvelopeError>)
    requires want.Some? ==> Encodes(rules, raw, want.value)
    ensures want.Some? ==> result == Success(want.value)
    ensures result.Success? ==> Encodes(rules, raw, result.value)
  {
    hide Cat, BodyParts, LeavesMatch, BlobValid, ProvidersValid, FieldsValid, ValidPolicy, DescriptorEncoding;
    ghost var all: seq<Bytes> := [];
    if want.Some? {
      ValidEncodable(rules, want.value.descriptor);
      LeafCount(want.value);
      all := BodyParts(want.value);
    }
    var d := new Decoder(raw, want.Some?, all);
    var prefix := ReadBodyPrefix(rules, d, want);
    if prefix.Failure? {
      return Failure(prefix.error);
    }
    var tail := ReadBodyTail(d, want);
    if tail.Failure? {
      return Failure(tail.error);
    }
    var body := EnvelopeBody(prefix.value.0, prefix.value.1, tail.value.0, tail.value.1);
    var encoded := BodyBytes(rules, body);
    if encoded.Failure? {
      return Failure(encoded.error);
    }
    if encoded.value != raw {
      return Failure(NonCanonical);
    }
    result := Success(body);
  }

  lemma LeafCount(b: EnvelopeBody)
    ensures LeavesMatch(b) ==> |b.leaves| == 1 + |b.descriptor.networks|
  {}
}
