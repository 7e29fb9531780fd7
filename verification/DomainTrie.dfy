/**
 The succinct trie of a binary rule-set. `BuildChildren` turns a bitmap and a label string into child
 lists, and `DomainKeyWalk` collects the keys. Nothing about the input is assumed: whatever the parser
 lets through is walked once per reachable node and ends.
 */
module DomainTrie {
  import opened Wrappers
  import opened Arithmetic
  import opened Bytes

  const MAX_KEY_LENGTH: nat := 4096

  /** Bit `index` of a bitmap of 64-bit words. */
  function GetBit(words: seq<nat>, index: nat): Option<bool> {
    if index / 64 < |words| then Some(words[index / 64] / Pow2(index % 64) % 2 == 1) else None
  }

  datatype Edge = Edge(octet: byte, child: nat)

  datatype TrieError = InvalidLeaves | InvalidBitmap | InvalidLabels | InvalidTree | KeyTooLong

  /** Where each node's labels begin: node `i` owns labels `first[i]..first[i + 1]`. The bitmap holds,
      for each node in turn, a 0 per label and a closing 1. */
  ghost predicate Layout(bitmap: seq<nat>, labels: seq<byte>, first: seq<nat>) {
    && |first| == |labels| + 2
    && first[0] == 0
    && first[|labels| + 1] == |labels|
    && forall i | 0 <= i <= |labels| :: NodeBits(bitmap, first, i)
  }

  ghost predicate NodeBits(bitmap: seq<nat>, first: seq<nat>, i: nat)
    requires i + 1 < |first|
  {
    && first[i] <= first[i + 1]
    && (forall k | first[i] + i <= k < first[i + 1] + i :: GetBit(bitmap, k) == Some(false))
    && GetBit(bitmap, first[i + 1] + i) == Some(true)
  }

  /** The edges of a node: label `k` leads to node `k + 1`. */
  function Edges(labels: seq<byte>, from: nat, to: nat): (r: seq<Edge>)
    requires from <= to <= |labels|
    ensures |r| == to - from
  {
    seq(to - from, j requires 0 <= j < to - from => Edge(labels[from + j], from + j + 1))
  }

  /** The child lists are the ones the layout describes. */
  ghost predicate TableOf(labels: seq<byte>, first: seq<nat>, children: seq<seq<Edge>>) {
    && |children| == |labels| + 1 && |first| == |labels| + 2
    && forall i | 0 <= i <= |labels| :: Row(labels, first, children, i)
  }

  ghost predicate Row(labels: seq<byte>, first: seq<nat>, children: seq<seq<Edge>>, i: nat)
    requires i < |children| && i + 1 < |first|
  {
    first[i] <= first[i + 1] <= |labels| && children[i] == Edges(labels, first[i], first[i + 1])
  }

  /** The two nested loops of `read_domain_matcher`. They succeed exactly on bitmaps with a layout. */
  method BuildChildren(bitmap: seq<nat>, labels: seq<byte>)
    returns (r: Result<seq<seq<Edge>>, TrieError>, ghost first: seq<nat>)
    ensures r.Ok? ==> Layout(bitmap, labels, first) && TableOf(labels, first, r.value)
    ensures r.Err? ==> !exists f :: Layout(bitmap, labels, f)
  {
    var children: seq<seq<Edge>> := [];
    var bitIndex: nat, labelIndex: nat := 0, 0;
    first := [0];
    while |children| < |labels| + 1
      invariant |children| <= |labels| + 1 && |first| == |children| + 1
      invariant first[0] == 0 && first[|children|] == labelIndex <= |labels|
      invariant bitIndex == labelIndex + |children|
      invariant forall i | 0 <= i < |children| :: NodeBits(bitmap, first, i)
      invariant forall i | 0 <= i < |children| :: Row(labels, first, children, i)
      invariant forall f | Layout(bitmap, labels, f) :: f[..|first|] == first
    {
      hide Layout, Edges;
      var node := ReadNode(bitmap, labels, first, bitIndex, labelIndex);
      if node.Err? {
        return Err(node.error), first;
      }
      ghost var children0, first0 := children, first;
      labelIndex := labelIndex + |node.value|;
      bitIndex := bitIndex + |node.value| + 1;
      children, first := children + [node.value], first + [labelIndex];
      forall i | 0 <= i < |children| ensures NodeBits(bitmap, first, i) && Row(labels, first, children, i) {
        assert i < |children0| ==> NodeBits(bitmap, first0, i) && Row(labels, first0, children0, i);
      }
    }
    if labelIndex != |labels| {
      assert forall f | Layout(bitmap, labels, f) :: f == first;
      return Err(InvalidTree), first;
    }
    return Ok(children), first;
  }

  /** The inner loop: the edges of one node. */
  method ReadNode(bitmap: seq<nat>, labels: seq<byte>, ghost found: seq<nat>, bitStart: nat, labelStart: nat)
    returns (r: Result<seq<Edge>, TrieError>)
    requires 0 < |found| <= |labels| + 1 && found[|found| - 1] == labelStart <= |labels|
    requires bitStart == labelStart + |found| - 1
    requires forall f | Layout(bitmap, labels, f) :: f[..|found|] == found
    ensures r.Ok? ==>
              var end := labelStart + |r.value|;
              && end <= |labels| && r.value == Edges(labels, labelStart, end)
              && (forall k | bitStart <= k < end + |found| - 1 :: GetBit(bitmap, k) == Some(false))
              && GetBit(bitmap, end + |found| - 1) == Some(true)
              && (forall f | Layout(bitmap, labels, f) :: f[..|found| + 1] == found + [end])
    ensures r.Err? ==> forall f :: !Layout(bitmap, labels, f)
  {
    ghost var node := |found| - 1;
    var edges: seq<Edge> := [];
    var bitIndex, labelIndex := bitStart, labelStart;
    LayoutFrom(bitmap, labels, found, node);
    hide Layout, GetBit;
    while true
      invariant labelStart <= labelIndex <= |labels| && bitIndex == labelIndex + node
      invariant edges == Edges(labels, labelStart, labelIndex)
      invariant forall k | bitStart <= k < bitIndex :: GetBit(bitmap, k) == Some(false)
      invariant forall f | Layout(bitmap, labels, f) :: |f| == |labels| + 2 && labelIndex <= f[node + 1]
      decreases |labels| - labelIndex
    {
      var bit := GetBit(bitmap, bitIndex);
      LayoutAhead(bitmap, labels, found, node, labelIndex);
      if bit.None? {
        return Err(InvalidBitmap);
      }
      if bit.value {
        LayoutEnds(bitmap, labels, found, node, labelIndex);
        return Ok(edges);
      }
      if labelIndex == |labels| {
        return Err(InvalidLabels);
      }
      edges := edges + [Edge(labels[labelIndex], labelIndex + 1)];
      labelIndex, bitIndex := labelIndex + 1, bitIndex + 1;
    }
  }

  lemma LayoutFrom(bitmap: seq<nat>, labels: seq<byte>, found: seq<nat>, node: nat)
    requires |found| == node + 1 && node <= |labels|
    requires forall f | Layout(bitmap, labels, f) :: f[..|found|] == found
    ensures forall f | Layout(bitmap, labels, f) :: |f| == |labels| + 2 && found[node] <= f[node + 1]
  {
    forall f | Layout(bitmap, labels, f) ensures |f| == |labels| + 2 && found[node] <= f[node + 1] {
      assert NodeBits(bitmap, f, node) && f[node] == f[..|found|][node];
    }
  }

  /** Any layout has a bit here, and takes a 0 for one more label of this node. */
  lemma LayoutAhead(bitmap: seq<nat>, labels: seq<byte>, found: seq<nat>, node: nat, labelIndex: nat)
    requires |found| == node + 1 && node <= |labels|
    requires forall f | Layout(bitmap, labels, f) :: f[..|found|] == found && labelIndex <= f[node + 1]
    requires found[node] <= labelIndex
    ensures forall f | Layout(bitmap, labels, f) ::
              var bit := GetBit(bitmap, labelIndex + node);
              bit.Some? && (bit.value <==> f[node + 1] == labelIndex) && f[node + 1] <= |labels|
  {
    forall f | Layout(bitmap, labels, f)
      ensures var bit := GetBit(bitmap, labelIndex + node);
              bit.Some? && (bit.value <==> f[node + 1] == labelIndex) && f[node + 1] <= |labels|
    {
      assert NodeBits(bitmap, f, node);
      assert f[node] == f[..|found|][node];
      LayoutBounds(bitmap, labels, f, node + 1);
    }
  }

  lemma LayoutBounds(bitmap: seq<nat>, labels: seq<byte>, first: seq<nat>, i: nat)
    requires Layout(bitmap, labels, first) && i <= |labels| + 1
    ensures first[i] <= |labels|
    decreases |labels| + 1 - i
  {
    if i <= |labels| {
      assert NodeBits(bitmap, first, i);
      LayoutBounds(bitmap, labels, first, i + 1);
    }
  }

  lemma LayoutEnds(bitmap: seq<nat>, labels: seq<byte>, found: seq<nat>, node: nat, labelIndex: nat)
    requires |found| == node + 1 && node <= |labels|
    requires forall f | Layout(bitmap, labels, f) :: f[..|found|] == found && f[node + 1] == labelIndex
    ensures forall f | Layout(bitmap, labels, f) :: f[..|found| + 1] == found + [labelIndex]
  {
    forall f | Layout(bitmap, labels, f) ensures f[..|found| + 1] == found + [labelIndex] {
      assert f[..|found| + 1] == f[..|found|] + [f[|found|]];
    }
  }

  // ---- The shape of what is accepted ----

  /** `c` is one of the nodes the edges of `p` lead to. */
  ghost predicate IsChild(first: seq<nat>, p: nat, c: nat) {
    p + 1 < |first| && first[p] < c <= first[p + 1]
  }

  /** A layout numbers nodes in order, starting from 0 and ending with the last label. */
  ghost predicate Ordered(first: seq<nat>) {
    && |first| >= 2
    && first[0] == 0
    && first[|first| - 1] == |first| - 2
    && forall i | 0 <= i < |first| - 1 :: first[i] <= first[i + 1]
  }

  lemma LayoutOrdered(bitmap: seq<nat>, labels: seq<byte>, first: seq<nat>)
    requires Layout(bitmap, labels, first)
    ensures Ordered(first)
  {
    forall i | 0 <= i < |first| - 1 ensures first[i] <= first[i + 1] {
      assert NodeBits(bitmap, first, i);
    }
  }

  lemma OrderedBetween(first: seq<nat>, i: nat, j: nat)
    requires Ordered(first) && i <= j < |first|
    ensures first[i] <= first[j]
  {
    if i < j {
      OrderedBetween(first, i, j - 1);
    }
  }

  /** Every node except the root has exactly one parent, reachable or not. */
  lemma OneParent(first: seq<nat>, c: nat) returns (p: nat)
    requires Ordered(first) && 0 < c <= |first| - 2
    ensures IsChild(first, p, c)
    ensures forall q: nat | IsChild(first, q, c) :: q == p
  {
    p := 0;
    while first[p + 1] < c
      invariant p + 1 < |first| && first[p] < c
      decreases |first| - p
    {
      p := p + 1;
    }
    forall q: nat | IsChild(first, q, c) ensures q == p {
      if q < p {
        OrderedBetween(first, q + 1, p);
      } else if p < q {
        OrderedBetween(first, p + 1, q);
      }
    }
  }

  /** `nodes` leads from `v` downwards, one edge at a time. */
  ghost predicate Walk(first: seq<nat>, v: nat, nodes: seq<nat>)
    decreases |nodes|
  {
    nodes == [] || (IsChild(first, v, nodes[0]) && Walk(first, nodes[0], nodes[1..]))
  }

  function WalkEnd(v: nat, nodes: seq<nat>): nat {
    if nodes == [] then v else nodes[|nodes| - 1]
  }

  ghost predicate Reachable(first: seq<nat>, v: nat) {
    exists nodes :: Walk(first, 0, nodes) && WalkEnd(0, nodes) == v
  }

  /** From `v` on, numbers only grow: all of `v`'s children have larger numbers than `v`. */
  ghost predicate Grown(first: seq<nat>, v: nat) {
    v + 1 < |first| && v <= first[v]
  }

  lemma GrownChild(first: seq<nat>, p: nat, c: nat)
    requires Ordered(first) && Grown(first, p) && IsChild(first, p, c)
    ensures p < c && Grown(first, c)
  {
    OrderedBetween(first, p + 1, |first| - 1);
    OrderedBetween(first, p + 1, c);
  }

  lemma {:induction false} WalkGrows(first: seq<nat>, v: nat, nodes: seq<nat>)
    requires Ordered(first) && Grown(first, v) && Walk(first, v, nodes)
    ensures Grown(first, WalkEnd(v, nodes)) && v + |nodes| <= WalkEnd(v, nodes)
    decreases |nodes|
  {
    if nodes != [] {
      GrownChild(first, v, nodes[0]);
      WalkGrows(first, nodes[0], nodes[1..]);
    }
  }

  /** A reachable node has only children with larger numbers, though an unreachable one may even be
      its own child. */
  lemma ReachableGrown(first: seq<nat>, v: nat, c: nat)
    requires Ordered(first) && Reachable(first, v) && IsChild(first, v, c)
    ensures v < c <= |first| - 2
  {
    var nodes :| Walk(first, 0, nodes) && WalkEnd(0, nodes) == v;
    WalkGrows(first, 0, nodes);
    GrownChild(first, v, c);
  }
}
