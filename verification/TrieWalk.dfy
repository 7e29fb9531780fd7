/** Walking a parsed trie: which keys come out, and how often each node is visited. */
module TrieWalk {
  import opened Wrappers
  import opened Bytes
  import opened DomainTrie

  predicate IsLeaf(leaves: seq<nat>, node: nat) {
    var bit := GetBit(leaves, node);
    bit.Some? && bit.value
  }

  /** The keys below `node`, each behind `path`, in the order the walk meets them. */
  ghost function KeysFrom(labels: seq<byte>, first: seq<nat>, leaves: seq<nat>, node: nat, path: seq<byte>): seq<seq<byte>>
    requires Ordered(first) && |first| == |labels| + 2 && Grown(first, node)
    decreases |first| - node, |first| + 1
  {
    OrderedBetween(first, node + 1, |first| - 1);
    (if IsLeaf(leaves, node) then [path] else []) + KeysOfChildren(labels, first, leaves, node, first[node], path)
  }

  /** The keys below the children of `node` that belong to the labels from `k` on. */
  ghost function KeysOfChildren(labels: seq<byte>, first: seq<nat>, leaves: seq<nat>, node: nat, k: nat, path: seq<byte>): seq<seq<byte>>
    requires Ordered(first) && |first| == |labels| + 2 && Grown(first, node)
    requires first[node] <= k <= first[node + 1] <= |labels|
    decreases |first| - node, |first| - k
  {
    if k == first[node + 1] then []
    else
      GrownChild(first, node, k + 1);
      KeysFrom(labels, first, leaves, k + 1, path + [labels[k]])
      + KeysOfChildren(labels, first, leaves, node, k + 1, path)
  }

  /** The nodes below and including `node`, in the order the walk enters them. */
  ghost function Visits(first: seq<nat>, node: nat): seq<nat>
    requires Ordered(first) && Grown(first, node)
    decreases |first| - node, |first| + 1
  {
    [node] + VisitsOfChildren(first, node, first[node])
  }

  ghost function VisitsOfChildren(first: seq<nat>, node: nat, k: nat): seq<nat>
    requires Ordered(first) && Grown(first, node) && first[node] <= k <= first[node + 1]
    decreases |first| - node, |first| - k
  {
    OrderedBetween(first, node + 1, |first| - 1);
    if k == first[node + 1] then []
    else
      GrownChild(first, node, k + 1);
      Visits(first, k + 1) + VisitsOfChildren(first, node, k + 1)
  }

  /** No node below `node` is further than the key limit from the root. */
  ghost predicate Shallow(first: seq<nat>, node: nat, depth: nat)
    requires Ordered(first) && Grown(first, node)
    decreases |first| - node
  {
    && depth <= MAX_KEY_LENGTH
    && forall c: nat | IsChild(first, node, c) :: GrownChild(first, node, c); Shallow(first, c, depth + 1)
  }

  /** `collect_domain_keys` with its shared path and output list. */
  class Collector {
    const children: seq<seq<Edge>>
    const leaves: seq<nat>
    var current: seq<byte>
    var keys: seq<seq<byte>>
    ghost var visited: seq<nat>

    constructor (children: seq<seq<Edge>>, leaves: seq<nat>)
      ensures this.children == children && this.leaves == leaves && current == [] && keys == [] && visited == []
    {
      this.children, this.leaves, current, keys, visited := children, leaves, [], [], [];
    }

    method Collect(node: nat, ghost labels: seq<byte>, ghost first: seq<nat>) returns (r: Result<(), TrieError>)
      requires Ordered(first) && |first| == |labels| + 2 && Grown(first, node) && TableOf(labels, first, children)
      modifies this
      ensures r.Ok? <==> Shallow(first, node, |old(current)|)
      ensures r.Ok? ==> current == old(current) && keys == old(keys) + KeysFrom(labels, first, leaves, node, old(current))
      ensures r.Ok? ==> visited == old(visited) + Visits(first, node)
      ensures r.Err? ==> r.error == KeyTooLong
      decreases |first| - node
    {
      hide KeysFrom, KeysOfChildren, Visits, VisitsOfChildren, TableOf, Shallow;
      ghost var path, keys0, visited0 := current, keys, visited;
      visited := visited + [node];
      if |current| > MAX_KEY_LENGTH {
        TooDeep(first, node, |path|);
        return Err(KeyTooLong);
      }
      if IsLeaf(leaves, node) {
        keys := keys + [current];
      }
      NodeRow(labels, first, children, node);
      EnterNode(labels, first, leaves, node, path, keys0, visited0);
      var i := 0;
      ghost var k := first[node];
      while i < |children[node]|
        invariant i <= |children[node]| && k == first[node] + i && current == path
        invariant keys + KeysOfChildren(labels, first, leaves, node, k, path)
               == keys0 + KeysFrom(labels, first, leaves, node, path)
        invariant visited + VisitsOfChildren(first, node, k) == visited0 + Visits(first, node)
        invariant forall c: nat | IsChild(first, node, c) && c <= k :: Grown(first, c) && Shallow(first, c, |path| + 1)
      {
        var edge := children[node][i];
        // The bound on the child that the source checks here cannot fail.
        assert edge == Edge(labels[k], k + 1) && edge.child < |children|;
        GrownChild(first, node, edge.child);
        ghost var before, visitedBefore := keys, visited;
        current := current + [edge.octet];
        var below := Collect(edge.child, labels, first);
        if below.Err? {
          DeepChild(first, node, edge.child, |path|);
          return below;
        }
        LeaveChild(labels, first, leaves, node, k, path, before, visitedBefore);
        current := current[..|current| - 1];
        i, k := i + 1, k + 1;
      }
      LeaveNode(labels, first, leaves, node, path);
      return Ok(());
    }
  }

  lemma NodeRow(labels: seq<byte>, first: seq<nat>, children: seq<seq<Edge>>, node: nat)
    requires Ordered(first) && |first| == |labels| + 2 && Grown(first, node) && TableOf(labels, first, children)
    ensures |children| == |labels| + 1 && first[node] <= first[node + 1] <= |labels|
    ensures children[node] == Edges(labels, first[node], first[node + 1])
  {
    assert Row(labels, first, children, node);
  }

  lemma TooDeep(first: seq<nat>, node: nat, depth: nat)
    requires Ordered(first) && Grown(first, node) && depth > MAX_KEY_LENGTH
    ensures !Shallow(first, node, depth)
  {
  }

  lemma DeepChild(first: seq<nat>, node: nat, c: nat, depth: nat)
    requires Ordered(first) && Grown(first, node) && Grown(first, c) && IsChild(first, node, c)
    requires !Shallow(first, c, depth + 1)
    ensures !Shallow(first, node, depth)
  {
  }

  lemma EnterNode(labels: seq<byte>, first: seq<nat>, leaves: seq<nat>, node: nat, path: seq<byte>, keys: seq<seq<byte>>, visited: seq<nat>)
    requires Ordered(first) && |first| == |labels| + 2 && Grown(first, node) && first[node] <= first[node + 1] <= |labels|
    ensures keys + (if IsLeaf(leaves, node) then [path] else []) + KeysOfChildren(labels, first, leaves, node, first[node], path)
         == keys + KeysFrom(labels, first, leaves, node, path)
    ensures keys + [] == keys
    ensures visited + [node] + VisitsOfChildren(first, node, first[node]) == visited + Visits(first, node)
  {
  }

  lemma LeaveChild(labels: seq<byte>, first: seq<nat>, leaves: seq<nat>, node: nat, k: nat, path: seq<byte>, keys: seq<seq<byte>>, visited: seq<nat>)
    requires Ordered(first) && |first| == |labels| + 2 && Grown(first, node) && Grown(first, k + 1)
    requires first[node] <= k < first[node + 1] <= |labels|
    ensures keys + KeysFrom(labels, first, leaves, k + 1, path + [labels[k]]) + KeysOfChildren(labels, first, leaves, node, k + 1, path)
         == keys + KeysOfChildren(labels, first, leaves, node, k, path)
    ensures visited + Visits(first, k + 1) + VisitsOfChildren(first, node, k + 1) == visited + VisitsOfChildren(first, node, k)
  {
  }

  lemma LeaveNode(labels: seq<byte>, first: seq<nat>, leaves: seq<nat>, node: nat, path: seq<byte>)
    requires Ordered(first) && |first| == |labels| + 2 && Grown(first, node) && first[node] <= first[node + 1] <= |labels|
    ensures KeysOfChildren(labels, first, leaves, node, first[node + 1], path) == [] && VisitsOfChildren(first, node, first[node + 1]) == []
    ensures forall depth: nat ::
              depth <= MAX_KEY_LENGTH && (forall c: nat | IsChild(first, node, c) :: Grown(first, c) && Shallow(first, c, depth + 1))
              ==> Shallow(first, node, depth)
  {
  }

  // ---- Each reachable node once ----

  lemma {:induction false} VisitsReach(first: seq<nat>, node: nat, v: nat)
    requires Ordered(first) && Grown(first, node)
    ensures v in Visits(first, node) <==> exists nodes :: Walk(first, node, nodes) && WalkEnd(node, nodes) == v
    decreases |first| - node, |first| + 1
  {
    VisitsOfChildrenReach(first, node, first[node], v);
    if v in Visits(first, node) {
      if v == node {
        assert Walk(first, node, []) && WalkEnd(node, []) == v;
      } else {
        var c: nat, nodes :| IsChild(first, node, c) && c > first[node] && Walk(first, c, nodes) && WalkEnd(c, nodes) == v;
        assert Walk(first, node, [c] + nodes) && WalkEnd(node, [c] + nodes) == v;
      }
    }
    if nodes :| Walk(first, node, nodes) && WalkEnd(node, nodes) == v {
      if nodes != [] {
        assert IsChild(first, node, nodes[0]) && Walk(first, nodes[0], nodes[1..]) && WalkEnd(nodes[0], nodes[1..]) == v;
      }
    }
  }

  lemma {:induction false} VisitsOfChildrenReach(first: seq<nat>, node: nat, k: nat, v: nat)
    requires Ordered(first) && Grown(first, node) && first[node] <= k <= first[node + 1]
    ensures v in VisitsOfChildren(first, node, k)
       <==> exists c: nat, nodes :: IsChild(first, node, c) && c > k && Walk(first, c, nodes) && WalkEnd(c, nodes) == v
    decreases |first| - node, |first| - k
  {
    OrderedBetween(first, node + 1, |first| - 1);
    if k < first[node + 1] {
      GrownChild(first, node, k + 1);
      VisitsReach(first, k + 1, v);
      VisitsOfChildrenReach(first, node, k + 1, v);
      if c: nat, nodes :| IsChild(first, node, c) && c > k && Walk(first, c, nodes) && WalkEnd(c, nodes) == v {
        assert c == k + 1 || c > k + 1;
      }
      assert IsChild(first, node, k + 1);
    }
  }

  predicate Distinct<T(==)>(s: seq<T>) {
    forall i, j | 0 <= i < j < |s| :: s[i] != s[j]
  }

  predicate Disjoint<T(==)>(a: seq<T>, b: seq<T>) {
    forall i | 0 <= i < |a| :: a[i] !in b
  }

  lemma DistinctConcat<T>(a: seq<T>, b: seq<T>)
    requires Distinct(a) && Distinct(b) && Disjoint(a, b)
    ensures Distinct(a + b)
  {
  }

  /** Behind every visit but the first stands a visit to the parent. */
  lemma {:induction false} ParentVisited(first: seq<nat>, node: nat, nodes: seq<nat>) returns (p: nat)
    requires Ordered(first) && Grown(first, node) && Walk(first, node, nodes) && nodes != []
    ensures IsChild(first, p, WalkEnd(node, nodes)) && p in Visits(first, node) && p < WalkEnd(node, nodes)
    decreases |nodes|
  {
    GrownChild(first, node, nodes[0]);
    if |nodes| == 1 {
      p := node;
      assert Walk(first, node, []) && WalkEnd(node, []) == node;
      VisitsReach(first, node, node);
    } else {
      p := ParentVisited(first, nodes[0], nodes[1..]);
      VisitsReach(first, nodes[0], p);
      var inner :| Walk(first, nodes[0], inner) && WalkEnd(nodes[0], inner) == p;
      assert Walk(first, node, [nodes[0]] + inner) && WalkEnd(node, [nodes[0]] + inner) == p;
      VisitsReach(first, node, p);
    }
  }

  lemma VisitsAbove(first: seq<nat>, node: nat, v: nat)
    requires Ordered(first) && Grown(first, node) && v in Visits(first, node)
    ensures node <= v <= |first| - 2
  {
    VisitsReach(first, node, v);
    var nodes :| Walk(first, node, nodes) && WalkEnd(node, nodes) == v;
    WalkGrows(first, node, nodes);
  }

  /** The subtrees of two children of the same node have no node in common. */
  lemma {:induction false} SubtreesDisjoint(first: seq<nat>, p: nat, a: nat, b: nat, x: nat)
    requires Ordered(first) && Grown(first, p) && Grown(first, a) && Grown(first, b)
    requires IsChild(first, p, a) && IsChild(first, p, b) && a != b && x in Visits(first, a)
    ensures x !in Visits(first, b)
    decreases x
  {
    if x in Visits(first, b) {
      GrownChild(first, p, a);
      GrownChild(first, p, b);
      VisitsAbove(first, a, x);
      var pa := if x == a then p else VisitedBelow(first, a, x);
      var pb := if x == b then p else VisitedBelow(first, b, x);
      var q := OneParent(first, x);
      assert pa == q && pb == q;
      if x == a {
        VisitsAbove(first, b, p);
      } else if x == b {
        VisitsAbove(first, a, p);
      } else {
        SubtreesDisjoint(first, p, a, b, q);
      }
      assert false;
    }
  }

  /** The visited parent of a visited node. */
  ghost function VisitedBelow(first: seq<nat>, node: nat, x: nat): (p: nat)
    requires Ordered(first) && Grown(first, node) && x in Visits(first, node) && x != node
    ensures IsChild(first, p, x) && p in Visits(first, node) && p < x
  {
    VisitsReach(first, node, x);
    var nodes :| Walk(first, node, nodes) && WalkEnd(node, nodes) == x;
    assert exists p: nat :: IsChild(first, p, x) && p in Visits(first, node) && p < x by {
      var p := ParentVisited(first, node, nodes);
    }
    var p: nat :| IsChild(first, p, x) && p in Visits(first, node) && p < x;
    p
  }

  lemma {:induction false} VisitsDistinct(first: seq<nat>, node: nat)
    requires Ordered(first) && Grown(first, node)
    ensures Distinct(Visits(first, node))
    decreases |first| - node, |first| + 1
  {
    var below := VisitsOfChildren(first, node, first[node]);
    VisitsOfChildrenDistinct(first, node, first[node]);
    forall v | v in below ensures v != node {
      VisitsOfChildrenReach(first, node, first[node], v);
      var c: nat, nodes :| IsChild(first, node, c) && Walk(first, c, nodes) && WalkEnd(c, nodes) == v;
      GrownChild(first, node, c);
      WalkGrows(first, c, nodes);
    }
    DistinctConcat([node], below);
  }

  lemma {:induction false} VisitsOfChildrenDistinct(first: seq<nat>, node: nat, k: nat)
    requires Ordered(first) && Grown(first, node) && first[node] <= k <= first[node + 1]
    ensures Distinct(VisitsOfChildren(first, node, k))
    decreases |first| - node, |first| - k
  {
    OrderedBetween(first, node + 1, |first| - 1);
    if k < first[node + 1] {
      GrownChild(first, node, k + 1);
      VisitsDistinct(first, k + 1);
      VisitsOfChildrenDistinct(first, node, k + 1);
      var a, b := Visits(first, k + 1), VisitsOfChildren(first, node, k + 1);
      forall i | 0 <= i < |a| ensures a[i] !in b {
        var v := a[i];
        VisitsOfChildrenReach(first, node, k + 1, v);
        if c: nat, nodes :| IsChild(first, node, c) && c > k + 1 && Walk(first, c, nodes) && WalkEnd(c, nodes) == v {
          GrownChild(first, node, c);
          VisitsReach(first, c, v);
          SubtreesDisjoint(first, node, k + 1, c, v);
        }
      }
      DistinctConcat(a, b);
    }
  }

  /** The walk from the root enters every reachable node exactly once and no other node. */
  lemma WalkVisitsOnce(first: seq<nat>)
    requires Ordered(first)
    ensures Distinct(Visits(first, 0))
    ensures forall v: nat :: v in Visits(first, 0) <==> Reachable(first, v)
  {
    VisitsDistinct(first, 0);
    forall v: nat ensures v in Visits(first, 0) <==> Reachable(first, v) {
      VisitsReach(first, 0, v);
    }
  }

  // ---- The keys are the leaf-marked paths ----

  /** The labels along a walk. */
  ghost function Spell(labels: seq<byte>, nodes: seq<nat>): seq<byte> {
    seq(|nodes|, i requires 0 <= i < |nodes| => if 0 < nodes[i] <= |labels| then labels[nodes[i] - 1] else 0)
  }

  /** `key` is spelled by a walk from `node` to a leaf. */
  ghost predicate LeafPath(labels: seq<byte>, first: seq<nat>, leaves: seq<nat>, node: nat, nodes: seq<nat>, key: seq<byte>) {
    && Walk(first, node, nodes)
    && IsLeaf(leaves, WalkEnd(node, nodes))
    && key == Spell(labels, nodes)
  }

  ghost predicate IsKey(labels: seq<byte>, first: seq<nat>, leaves: seq<nat>, node: nat, key: seq<byte>) {
    exists nodes :: LeafPath(labels, first, leaves, node, nodes, key)
  }

  /** As `IsKey`, through a child that belongs to one of the labels from `k` on. */
  ghost predicate IsChildKey(labels: seq<byte>, first: seq<nat>, leaves: seq<nat>, node: nat, k: nat, key: seq<byte>) {
    exists nodes :: LeafPath(labels, first, leaves, node, nodes, key) && nodes != [] && nodes[0] > k
  }

  predicate AllBehind(path: seq<byte>, keys: seq<seq<byte>>) {
    forall i | 0 <= i < |keys| :: path <= keys[i]
  }

  /** The walk collects a key below `node` exactly when labels on the way to a leaf spell it. */
  lemma {:induction false} KeysAreLeafPaths(labels: seq<byte>, first: seq<nat>, leaves: seq<nat>, node: nat, path: seq<byte>, key: seq<byte>)
    requires Ordered(first) && |first| == |labels| + 2 && Grown(first, node)
    ensures path + key in KeysFrom(labels, first, leaves, node, path) <==> IsKey(labels, first, leaves, node, key)
    ensures AllBehind(path, KeysFrom(labels, first, leaves, node, path))
    decreases |first| - node, |first| + 1
  {
    OrderedBetween(first, node + 1, |first| - 1);
    ChildKeysAreLeafPaths(labels, first, leaves, node, first[node], path, key);
    var below := KeysOfChildren(labels, first, leaves, node, first[node], path);
    assert path + key == path <==> key == [] by {
      assert key == [] ==> path + key == path;
    }
    if IsKey(labels, first, leaves, node, key) && !IsChildKey(labels, first, leaves, node, first[node], key) {
      var nodes :| LeafPath(labels, first, leaves, node, nodes, key);
      assert nodes == [];
    }
    if IsLeaf(leaves, node) && key == [] {
      assert LeafPath(labels, first, leaves, node, [], key);
    }
  }

  lemma {:induction false} ChildKeysAreLeafPaths(labels: seq<byte>, first: seq<nat>, leaves: seq<nat>, node: nat, k: nat, path: seq<byte>, key: seq<byte>)
    requires Ordered(first) && |first| == |labels| + 2 && Grown(first, node)
    requires first[node] <= k <= first[node + 1] <= |labels|
    ensures path + key in KeysOfChildren(labels, first, leaves, node, k, path) <==> IsChildKey(labels, first, leaves, node, k, key)
    ensures AllBehind(path, KeysOfChildren(labels, first, leaves, node, k, path))
    decreases |first| - node, |first| - k
  {
    if k < first[node + 1] {
      GrownChild(first, node, k + 1);
      ChildKeysAreLeafPaths(labels, first, leaves, node, k + 1, path, key);
      var down := path + [labels[k]];
      var keys := KeysFrom(labels, first, leaves, k + 1, down);
      var tail := if key == [] then [] else key[1..];
      KeysAreLeafPaths(labels, first, leaves, k + 1, down, tail);
      LabelAhead(labels[k], path, key, keys);
      ThroughChild(labels, first, leaves, node, k, key);
    }
  }

  /** Whether a list of keys behind `path` and one more label holds `path` and `key`. */
  lemma LabelAhead(octet: byte, path: seq<byte>, key: seq<byte>, keys: seq<seq<byte>>)
    requires AllBehind(path + [octet], keys)
    ensures path + key in keys <==> key != [] && key[0] == octet && path + [octet] + key[1..] in keys
    ensures AllBehind(path, keys)
  {
    var down := path + [octet];
    if path + key in keys {
      assert down <= path + key;
      assert |key| > 0 && (path + key)[|path|] == key[0] && down[|path|] == octet;
    }
    if key != [] && key[0] == octet {
      assert path + key == down + key[1..];
    }
    forall i | 0 <= i < |keys| ensures path <= keys[i] {
      assert down <= keys[i] && path <= down;
    }
  }

  lemma DownEdge(labels: seq<byte>, first: seq<nat>, leaves: seq<nat>, node: nat, k: nat, nodes: seq<nat>, key: seq<byte>)
    requires k < |labels| && IsChild(first, node, k + 1)
    requires key != [] && key[0] == labels[k] && LeafPath(labels, first, leaves, k + 1, nodes, key[1..])
    ensures IsChildKey(labels, first, leaves, node, k, key)
  {
    var all := [k + 1] + nodes;
    assert all[1..] == nodes;
    assert Spell(labels, all) == [labels[k]] + Spell(labels, nodes);
    assert LeafPath(labels, first, leaves, node, all, key);
  }

  /** Leaf paths that begin with the edge of label `k`. */
  lemma ThroughChild(labels: seq<byte>, first: seq<nat>, leaves: seq<nat>, node: nat, k: nat, key: seq<byte>)
    requires k < |labels| && IsChild(first, node, k + 1)
    ensures IsChildKey(labels, first, leaves, node, k, key)
       <==> (key != [] && key[0] == labels[k] && IsKey(labels, first, leaves, k + 1, key[1..]))
            || IsChildKey(labels, first, leaves, node, k + 1, key)
  {
    if key != [] && key[0] == labels[k] && IsKey(labels, first, leaves, k + 1, key[1..]) {
      var nodes :| LeafPath(labels, first, leaves, k + 1, nodes, key[1..]);
      DownEdge(labels, first, leaves, node, k, nodes, key);
    }
    if IsChildKey(labels, first, leaves, node, k, key) {
      var nodes :| LeafPath(labels, first, leaves, node, nodes, key) && nodes != [] && nodes[0] > k;
      if nodes[0] == k + 1 {
        assert Spell(labels, nodes[1..]) == key[1..];
        assert LeafPath(labels, first, leaves, k + 1, nodes[1..], key[1..]);
      }
    }
  }
}
