/**
 The level-order encoding of a key set, and the proof that the parser and the walk get the set back.
 The encoder is the definition of the format; the source itself only decodes.
 */
module TrieEncoding {
  import opened Wrappers
  import opened Arithmetic
  import opened Bytes
  import opened DomainTrie
  import opened TrieWalk

  datatype Trie = Trie(leaf: bool, kids: seq<Kid>)
  datatype Kid = Kid(octet: byte, trie: Trie)

  // ---- Level order ----

  function Size(t: Trie): (n: nat)
    ensures n > 0
    decreases t
  {
    1 + KidsSize(t.kids)
  }

  function KidsSize(kids: seq<Kid>): nat
    decreases kids
  {
    if kids == [] then 0 else KidSize(kids[0]) + KidsSize(kids[1..])
  }

  function KidSize(kid: Kid): nat
    decreases kid
  {
    Size(kid.trie)
  }

  function QueueSize(q: seq<Trie>): nat {
    if q == [] then 0 else Size(q[0]) + QueueSize(q[1..])
  }

  function TriesOf(kids: seq<Kid>): (r: seq<Trie>)
    ensures |r| == |kids|
  {
    seq(|kids|, i requires 0 <= i < |kids| => kids[i].trie)
  }

  lemma {:induction false} QueueConcat(a: seq<Trie>, b: seq<Trie>)
    ensures QueueSize(a + b) == QueueSize(a) + QueueSize(b)
  {
    if a == [] {
      assert a + b == b;
    } else {
      QueueConcat(a[1..], b);
      assert (a + b)[1..] == a[1..] + b;
    }
  }

  lemma {:induction false} KidsQueue(kids: seq<Kid>)
    ensures QueueSize(TriesOf(kids)) == KidsSize(kids)
  {
    if kids != [] {
      KidsQueue(kids[1..]);
      assert TriesOf(kids)[1..] == TriesOf(kids[1..]);
    }
  }

  /** The nodes of the tries in a queue, breadth first. */
  ghost function LevelOrder(q: seq<Trie>): seq<Trie>
    decreases QueueSize(q)
  {
    if q == [] then []
    else
      QueueConcat(q[1..], TriesOf(q[0].kids));
      KidsQueue(q[0].kids);
      [q[0]] + LevelOrder(q[1..] + TriesOf(q[0].kids))
  }

  /** The kids of a list of nodes, in order. */
  ghost function AllKids(nodes: seq<Trie>): seq<Kid> {
    if nodes == [] then [] else nodes[0].kids + AllKids(nodes[1..])
  }

  /** In level order the nodes are the queue followed by their own kids. */
  lemma {:induction false} LevelOrderUnfolds(q: seq<Trie>)
    ensures LevelOrder(q) == q + TriesOf(AllKids(LevelOrder(q)))
    decreases QueueSize(q)
  {
    hide LevelOrder, QueueSize, AllKids, TriesOf;
    if q == [] {
      NoLevels();
    } else {
      var first, behind := q[0], q[1..];
      var kids := TriesOf(first.kids);
      LevelOrderStep(q);
      LevelOrderUnfolds(behind + kids);
      var rest := LevelOrder(behind + kids);
      TriesOfAllKids(first, rest);
      var more := TriesOf(AllKids(rest));
      Regroup([first], behind, kids, more);
      assert q == [first] + behind;
    }
  }

  lemma NoLevels()
    ensures LevelOrder([]) == [] && TriesOf(AllKids([])) == []
  {
  }

  lemma Regroup(a: seq<Trie>, b: seq<Trie>, c: seq<Trie>, d: seq<Trie>)
    ensures a + ((b + c) + d) == (a + b) + (c + d)
  {
  }

  lemma LevelOrderStep(q: seq<Trie>)
    requires q != []
    ensures var q' := q[1..] + TriesOf(q[0].kids);
            QueueSize(q') < QueueSize(q) && LevelOrder(q) == [q[0]] + LevelOrder(q')
  {
    QueueConcat(q[1..], TriesOf(q[0].kids));
    KidsQueue(q[0].kids);
  }

  lemma TriesOfAllKids(node: Trie, rest: seq<Trie>)
    ensures TriesOf(AllKids([node] + rest)) == TriesOf(node.kids) + TriesOf(AllKids(rest))
  {
    assert ([node] + rest)[1..] == rest;
  }

  // ---- The encoding ----

  ghost function LabelsOf(nodes: seq<Trie>): (r: seq<byte>)
    ensures |r| == |AllKids(nodes)|
  {
    var kids := AllKids(nodes);
    seq(|kids|, i requires 0 <= i < |kids| => kids[i].octet)
  }

  /** A 0 for each kid of a node and a closing 1. */
  ghost function BitsOf(nodes: seq<Trie>): seq<bool> {
    if nodes == [] then []
    else seq(|nodes[0].kids|, _ => false) + [true] + BitsOf(nodes[1..])
  }

  ghost function LeafBits(nodes: seq<Trie>): seq<bool> {
    seq(|nodes|, i requires 0 <= i < |nodes| => nodes[i].leaf)
  }

  /** Where the kids of each node begin. */
  ghost function FirstOf(nodes: seq<Trie>): (first: seq<nat>)
    ensures |first| == |nodes| + 1
  {
    seq(|nodes| + 1, i requires 0 <= i < |nodes| + 1 => |AllKids(nodes[..i])|)
  }

  lemma {:induction false} AllKidsConcat(a: seq<Trie>, b: seq<Trie>)
    ensures AllKids(a + b) == AllKids(a) + AllKids(b)
  {
    if a == [] {
      assert a + b == b;
    } else {
      AllKidsConcat(a[1..], b);
      AllKidsHead(a, b);
    }
  }

  lemma AllKidsHead(a: seq<Trie>, b: seq<Trie>)
    requires a != []
    ensures AllKids(a + b) == a[0].kids + AllKids(a[1..] + b)
  {
    assert (a + b)[1..] == a[1..] + b;
  }

  lemma {:induction false} BitsConcat(a: seq<Trie>, b: seq<Trie>)
    ensures BitsOf(a + b) == BitsOf(a) + BitsOf(b)
    ensures |BitsOf(a)| == |AllKids(a)| + |a|
  {
    if a == [] {
      assert a + b == b;
    } else {
      BitsConcat(a[1..], b);
      assert (a + b)[1..] == a[1..] + b;
      var own := seq(|a[0].kids|, _ => false) + [true];
      assert BitsOf(a + b) == own + BitsOf(a[1..] + b);
    }
  }

  /** Node `i`'s part of the kids and of the bits. */
  lemma NodePart(nodes: seq<Trie>, i: nat)
    requires i < |nodes|
    ensures var from, kids := |AllKids(nodes[..i])|, nodes[i].kids;
            && |AllKids(nodes[..i + 1])| == from + |kids| <= |AllKids(nodes)|
            && AllKids(nodes)[from..from + |kids|] == kids
            && from + i + |kids| < |BitsOf(nodes)|
            && (forall k | from + i <= k < from + i + |kids| :: !BitsOf(nodes)[k])
            && BitsOf(nodes)[from + i + |kids|]
  {
    var a, b := nodes[..i], nodes[i..];
    assert nodes == a + b;
    AllKidsConcat(a, b);
    BitsConcat(a, b);
    assert b[0] == nodes[i];
    assert nodes[..i + 1] == a + [nodes[i]];
    AllKidsConcat(a, [nodes[i]]);
    assert AllKids([nodes[i]]) == nodes[i].kids + AllKids([]);
    assert BitsOf(b) == seq(|nodes[i].kids|, _ => false) + [true] + BitsOf(b[1..]);
  }

  // ---- Words ----

  ghost function WordOf(bits: seq<bool>): nat {
    if bits == [] then 0 else (if bits[0] then 1 else 0) + 2 * WordOf(bits[1..])
  }

  ghost function Pack(bits: seq<bool>): seq<nat> {
    if bits == [] then []
    else if |bits| <= 64 then [WordOf(bits)]
    else [WordOf(bits[..64])] + Pack(bits[64..])
  }

  lemma {:induction false} WordBit(bits: seq<bool>, i: nat)
    requires i < |bits|
    ensures (WordOf(bits) / Pow2(i) % 2 == 1) == bits[i]
    ensures WordOf(bits) < Pow2(|bits|)
  {
    var low := if bits[0] then 1 else 0;
    LowAndHigh(low, WordOf(bits[1..]));
    if i == 0 {
      assert Pow2(0) == 1;
      if |bits| > 1 {
        WordBit(bits[1..], 0);
      }
    } else {
      WordBit(bits[1..], i - 1);
      DivDiv(WordOf(bits), 2, Pow2(i - 1));
    }
  }

  lemma WordPlace(i: nat)
    ensures i < 64 ==> i / 64 == 0 && i % 64 == i
    ensures (i + 64) / 64 == 1 + i / 64 && (i + 64) % 64 == i % 64
  {
  }

  lemma {:induction false} PackBit(bits: seq<bool>, i: nat)
    requires i < |bits|
    ensures GetBit(Pack(bits), i) == Some(bits[i])
    ensures 64 * |Pack(bits)| >= |bits|
  {
    hide WordOf, Pow2;
    if |bits| <= 64 {
      WordBit(bits, i);
      WordPlace(i);
    } else if i < 64 {
      WordBit(bits[..64], i);
      PackBit(bits[64..], 0);
      WordPlace(i);
    } else {
      PackBit(bits[64..], i - 64);
      WordPlace(i - 64);
    }
  }

  // ---- Decoding the encoding ----

  /** The encoding of a trie has the layout that numbers its nodes in level order. */
  lemma EncodedLayout(t: Trie)
    ensures var nodes := LevelOrder([t]);
            Layout(Pack(BitsOf(nodes)), LabelsOf(nodes), FirstOf(nodes)) && |nodes| == |LabelsOf(nodes)| + 1
  {
    var nodes := LevelOrder([t]);
    LevelOrderUnfolds([t]);
    assert |nodes| == |LabelsOf(nodes)| + 1;
    assert nodes[..|nodes|] == nodes;
    assert FirstOf(nodes)[0] == 0 && FirstOf(nodes)[|nodes|] == |LabelsOf(nodes)|;
    hide LevelOrder, BitsOf, FirstOf, LabelsOf, Pack, NodeBits;
    forall i | 0 <= i <= |LabelsOf(nodes)| ensures NodeBits(Pack(BitsOf(nodes)), FirstOf(nodes), i) {
      EncodedNode(nodes, i);
    }
  }

  /** The bits of one node are where the layout has them. */
  lemma EncodedNode(nodes: seq<Trie>, i: nat)
    requires i < |nodes|
    ensures NodeBits(Pack(BitsOf(nodes)), FirstOf(nodes), i)
  {
    hide BitsOf, FirstOf, Pack, GetBit;
    var bits, first := BitsOf(nodes), FirstOf(nodes);
    NodeSpan(nodes, i);
    forall k | first[i] + i <= k < first[i + 1] + i ensures GetBit(Pack(bits), k) == Some(false) {
      PackBit(bits, k);
    }
    PackBit(bits, first[i + 1] + i);
  }

  /** Where node `i`'s kids begin and end, and its bits. */
  lemma NodeSpan(nodes: seq<Trie>, i: nat)
    requires i < |nodes|
    ensures var first, bits := FirstOf(nodes), BitsOf(nodes);
            && first[i] + |nodes[i].kids| == first[i + 1] && first[i + 1] + i < |bits|
            && (forall k | first[i] + i <= k < first[i + 1] + i :: !bits[k])
            && bits[first[i + 1] + i]
  {
    NodePart(nodes, i);
    hide AllKids, BitsOf;
  }

  /** The nodes an edge leads to are the kids, with the kids' labels. */
  lemma KidNumbers(t: Trie, i: nat, j: nat)
    requires var nodes := LevelOrder([t]); i < |nodes| && j < |nodes[i].kids|
    ensures var nodes := LevelOrder([t]);
            var k := FirstOf(nodes)[i] + j;
            && k + 1 < |nodes| && k < |LabelsOf(nodes)|
            && nodes[k + 1] == nodes[i].kids[j].trie
            && LabelsOf(nodes)[k] == nodes[i].kids[j].octet
  {
    var nodes := LevelOrder([t]);
    LevelOrderUnfolds([t]);
    hide LevelOrder, AllKids, BitsOf, LabelsOf;
    KidPlace(nodes, i, j);
    KidNode(nodes, t, FirstOf(nodes)[i] + j);
  }

  lemma KidPlace(nodes: seq<Trie>, i: nat, j: nat)
    requires i < |nodes| && j < |nodes[i].kids|
    ensures var k := FirstOf(nodes)[i] + j;
            k < |AllKids(nodes)| && AllKids(nodes)[k] == nodes[i].kids[j]
  {
    hide AllKids, BitsOf;
    NodePart(nodes, i);
    var from, all := FirstOf(nodes)[i], AllKids(nodes);
    assert all[from + j] == all[from..from + |nodes[i].kids|][j];
  }

  lemma KidNode(nodes: seq<Trie>, t: Trie, k: nat)
    requires nodes == [t] + TriesOf(AllKids(nodes)) && k < |AllKids(nodes)|
    ensures k + 1 < |nodes| && k < |LabelsOf(nodes)|
    ensures nodes[k + 1] == AllKids(nodes)[k].trie && LabelsOf(nodes)[k] == AllKids(nodes)[k].octet
  {
    hide AllKids;
    assert nodes[k + 1] == TriesOf(AllKids(nodes))[k];
  }

  // ---- Keys ----

  ghost function KeysOf(t: Trie, path: seq<byte>): seq<seq<byte>>
    decreases t
  {
    (if t.leaf then [path] else []) + KeysOfKids(t.kids, path)
  }

  ghost function KeysOfKids(kids: seq<Kid>, path: seq<byte>): seq<seq<byte>>
    decreases kids
  {
    if kids == [] then []
    else KeysOfKid(kids[0], path) + KeysOfKids(kids[1..], path)
  }

  ghost function KeysOfKid(kid: Kid, path: seq<byte>): seq<seq<byte>>
    decreases kid
  {
    KeysOf(kid.trie, path + [kid.octet])
  }

  /** The walk over the decoded encoding of a trie collects the trie's keys, in order. */
  lemma {:induction false} WalkEncoded(t: Trie, i: nat, path: seq<byte>)
    requires i < |LevelOrder([t])|
    requires Ordered(FirstOf(LevelOrder([t]))) && |FirstOf(LevelOrder([t]))| == |LabelsOf(LevelOrder([t]))| + 2
    requires Grown(FirstOf(LevelOrder([t])), i)
    ensures var nodes := LevelOrder([t]);
            KeysFrom(LabelsOf(nodes), FirstOf(nodes), Pack(LeafBits(nodes)), i, path) == KeysOf(nodes[i], path)
    decreases |LevelOrder([t])| - i, 1 + |LevelOrder([t])[i].kids|
  {
    var nodes := LevelOrder([t]);
    hide LevelOrder;
    OrderedBetween(FirstOf(nodes), i + 1, |FirstOf(nodes)| - 1);
    PackBit(LeafBits(nodes), i);
    NodePart(nodes, i);
    assert nodes[i].kids[0..] == nodes[i].kids;
    WalkEncodedKids(t, i, 0, path);
  }

  lemma {:induction false} WalkEncodedKids(t: Trie, i: nat, j: nat, path: seq<byte>)
    requires i < |LevelOrder([t])| && j <= |LevelOrder([t])[i].kids|
    requires Ordered(FirstOf(LevelOrder([t]))) && |FirstOf(LevelOrder([t]))| == |LabelsOf(LevelOrder([t]))| + 2
    requires Grown(FirstOf(LevelOrder([t])), i)
    requires FirstOf(LevelOrder([t]))[i + 1] <= |LabelsOf(LevelOrder([t]))|
    requires FirstOf(LevelOrder([t]))[i] + |LevelOrder([t])[i].kids| == FirstOf(LevelOrder([t]))[i + 1]
    ensures var nodes := LevelOrder([t]);
            KeysOfChildren(LabelsOf(nodes), FirstOf(nodes), Pack(LeafBits(nodes)), i, FirstOf(nodes)[i] + j, path) ==
            KeysOfKids(nodes[i].kids[j..], path)
    decreases |LevelOrder([t])| - i, |LevelOrder([t])[i].kids| - j
  {
    var nodes := LevelOrder([t]);
    hide LevelOrder, FirstOf, LabelsOf, Pack, LeafBits, KeysOf;
    var kids := nodes[i].kids;
    if j < |kids| {
      var k := FirstOf(nodes)[i] + j;
      KidNumbers(t, i, j);
      GrownChild(FirstOf(nodes), i, k + 1);
      WalkEncoded(t, k + 1, path + [kids[j].octet]);
      WalkEncodedKids(t, i, j + 1, path);
      assert kids[j..][1..] == kids[j + 1..];
    }
  }

  /** No key of `t` is longer than the limit, nor is any path that leads nowhere. */
  ghost predicate FitsDepth(t: Trie, depth: nat)
    decreases t
  {
    depth <= MAX_KEY_LENGTH && forall i | 0 <= i < |t.kids| :: KidFits(t.kids[i], depth)
  }

  ghost predicate KidFits(kid: Kid, depth: nat)
    decreases kid
  {
    FitsDepth(kid.trie, depth + 1)
  }

  lemma {:induction false} ShallowEncoded(t: Trie, i: nat, depth: nat)
    requires i < |LevelOrder([t])|
    requires Ordered(FirstOf(LevelOrder([t]))) && |FirstOf(LevelOrder([t]))| == |LabelsOf(LevelOrder([t]))| + 2
    requires Grown(FirstOf(LevelOrder([t])), i) && FitsDepth(LevelOrder([t])[i], depth)
    ensures Shallow(FirstOf(LevelOrder([t])), i, depth)
    decreases |LevelOrder([t])| - i
  {
    var nodes := LevelOrder([t]);
    hide LevelOrder, AllKids, BitsOf;
    var first := FirstOf(nodes);
    NodePart(nodes, i);
    assert first[i + 1] == first[i] + |nodes[i].kids| <= |LabelsOf(nodes)|;
    hide FirstOf, LabelsOf;
    forall c: nat | IsChild(first, i, c) ensures Grown(first, c) && Shallow(first, c, depth + 1) {
      var j := c - 1 - first[i];
      KidNumbers(t, i, j);
      GrownChild(first, i, c);
      assert KidFits(nodes[i].kids[j], depth);
      ShallowEncoded(t, c, depth + 1);
    }
  }

  // ---- From a key set to a trie and back ----

  type Key = seq<byte>

  ghost predicate Bounded(keys: set<Key>, bound: nat) {
    forall k <- keys :: |k| <= bound
  }

  /** What is left of the keys that begin with `octet`. */
  ghost function Behind(keys: set<Key>, octet: byte): set<Key> {
    set k | k in keys && k != [] && k[0] == octet :: k[1..]
  }

  ghost function BuildTrie(keys: set<Key>, bound: nat): Trie
    requires Bounded(keys, bound)
    decreases bound, 257
  {
    Trie([] in keys, BuildKids(keys, 0, bound))
  }

  ghost function BuildKids(keys: set<Key>, octet: nat, bound: nat): seq<Kid>
    requires Bounded(keys, bound) && octet <= 256
    decreases bound, 256 - octet
  {
    if octet == 256 then []
    else
      var tails := Behind(keys, octet);
      (if tails == {} then [] else (BehindBounded(keys, octet, bound); [Kid(octet, BuildTrie(tails, bound - 1))]))
      + BuildKids(keys, octet + 1, bound)
  }

  lemma BehindBounded(keys: set<Key>, octet: byte, bound: nat)
    requires Bounded(keys, bound) && Behind(keys, octet) != {}
    ensures bound > 0 && Bounded(Behind(keys, octet), bound - 1)
  {
    var tail :| tail in Behind(keys, octet);
    var k :| k in keys && k != [] && k[0] == octet && k[1..] == tail;
  }

  /** The trie of a key set holds exactly the set's keys. */
  lemma {:induction false} BuildTrieKeys(keys: set<Key>, bound: nat, path: Key, key: Key)
    requires Bounded(keys, bound)
    ensures path + key in KeysOf(BuildTrie(keys, bound), path) <==> key in keys
    ensures AllBehind(path, KeysOf(BuildTrie(keys, bound), path))
    decreases bound, 257
  {
    BuildKidsKeys(keys, 0, bound, path, key);
    assert path + key == path <==> key == [] by {
      assert key == [] ==> path + key == path;
    }
  }

  lemma {:induction false} BuildKidsKeys(keys: set<Key>, octet: nat, bound: nat, path: Key, key: Key)
    requires Bounded(keys, bound) && octet <= 256
    ensures path + key in KeysOfKids(BuildKids(keys, octet, bound), path)
       <==> key in keys && key != [] && key[0] >= octet
    ensures AllBehind(path, KeysOfKids(BuildKids(keys, octet, bound), path))
    decreases bound, 256 - octet
  {
    if octet < 256 {
      BuildKidsKeys(keys, octet + 1, bound, path, key);
      BuildKidsStep(keys, octet, bound);
      var more := BuildKids(keys, octet + 1, bound);
      if Behind(keys, octet) != {} {
        BuildTrieKeys(Behind(keys, octet), bound - 1, path + [octet], if key == [] then [] else key[1..]);
        hide BuildKids, KeysOfKids, Behind, BuildTrie, KeysOf;
        KidKeys(Kid(octet, BuildTrie(Behind(keys, octet), bound - 1)), more, path, key);
      }
      hide BuildKids, KeysOfKids, Behind, BuildTrie, KeysOf;
      if key != [] && key[0] == octet {
        FirstOctet(keys, octet, key);
      }
    }
  }

  lemma BuildKidsStep(keys: set<Key>, octet: nat, bound: nat)
    requires Bounded(keys, bound) && octet < 256
    ensures var tails, more := Behind(keys, octet), BuildKids(keys, octet + 1, bound);
            if tails == {} then BuildKids(keys, octet, bound) == more
            else bound > 0 && Bounded(tails, bound - 1)
                 && BuildKids(keys, octet, bound) == [Kid(octet, BuildTrie(tails, bound - 1))] + more
  {
    if Behind(keys, octet) != {} {
      BehindBounded(keys, octet, bound);
    }
  }

  lemma KidKeys(kid: Kid, more: seq<Kid>, path: Key, key: Key)
    requires AllBehind(path + [kid.octet], KeysOf(kid.trie, path + [kid.octet]))
    requires AllBehind(path, KeysOfKids(more, path))
    ensures path + key in KeysOfKids([kid] + more, path)
       <==> (key != [] && key[0] == kid.octet && path + [kid.octet] + key[1..] in KeysOf(kid.trie, path + [kid.octet]))
            || path + key in KeysOfKids(more, path)
    ensures AllBehind(path, KeysOfKids([kid] + more, path))
  {
    KeysOfKidsCons(kid, more, path);
    hide KeysOfKids, KeysOf, KeysOfKid;
    LabelAhead(kid.octet, path, key, KeysOfKid(kid, path));
  }

  lemma KeysOfKidsCons(kid: Kid, more: seq<Kid>, path: Key)
    ensures KeysOfKids([kid] + more, path) == KeysOfKid(kid, path) + KeysOfKids(more, path)
    ensures KeysOfKid(kid, path) == KeysOf(kid.trie, path + [kid.octet])
  {
    assert ([kid] + more)[1..] == more;
  }

  lemma FirstOctet(keys: set<Key>, octet: byte, key: Key)
    requires key != [] && key[0] == octet
    ensures key[1..] in Behind(keys, octet) <==> key in keys
  {
    if key[1..] in Behind(keys, octet) {
      var k :| k in keys && k != [] && k[0] == octet && k[1..] == key[1..];
      assert k == [octet] + k[1..] == key;
    }
  }

  lemma {:induction false} BuildTrieFits(keys: set<Key>, bound: nat, depth: nat)
    requires Bounded(keys, bound) && depth + bound <= MAX_KEY_LENGTH
    ensures FitsDepth(BuildTrie(keys, bound), depth)
    decreases bound, 257
  {
    BuildKidsFit(keys, 0, bound, depth);
  }

  lemma {:induction false} BuildKidsFit(keys: set<Key>, octet: nat, bound: nat, depth: nat)
    requires Bounded(keys, bound) && octet <= 256 && depth + bound <= MAX_KEY_LENGTH
    ensures forall i | 0 <= i < |BuildKids(keys, octet, bound)| :: KidFits(BuildKids(keys, octet, bound)[i], depth)
    decreases bound, 256 - octet
  {
    if octet < 256 {
      BuildKidsFit(keys, octet + 1, bound, depth);
      if Behind(keys, octet) != {} {
        BehindBounded(keys, octet, bound);
        BuildTrieFits(Behind(keys, octet), bound - 1, depth + 1);
      }
    }
  }

  // ---- The whole decoder ----

  ghost predicate HasLayout(bitmap: seq<nat>, labels: seq<byte>) {
    exists first :: Layout(bitmap, labels, first)
  }

  ghost function LayoutOf(bitmap: seq<nat>, labels: seq<byte>): (first: seq<nat>)
    requires HasLayout(bitmap, labels)
    ensures Layout(bitmap, labels, first) && Ordered(first)
  {
    var first :| Layout(bitmap, labels, first);
    LayoutOrdered(bitmap, labels, first);
    first
  }

  lemma {:induction false} LayoutUnique(bitmap: seq<nat>, labels: seq<byte>, f: seq<nat>, g: seq<nat>, n: nat)
    requires Layout(bitmap, labels, f) && Layout(bitmap, labels, g) && n <= |labels| + 2
    ensures f[..n] == g[..n]
  {
    hide GetBit;
    if n == 1 {
      assert f[..1] == g[..1];
    } else if n > 1 {
      LayoutUnique(bitmap, labels, f, g, n - 1);
      var i := n - 2;
      assert f[..n - 1][i] == g[..n - 1][i];
      assert NodeBits(bitmap, f, i) && NodeBits(bitmap, g, i);
      var a, b := f[i + 1] + i, g[i + 1] + i;
      assert GetBit(bitmap, a) == Some(true) && GetBit(bitmap, b) == Some(true);
      assert f[..n] == f[..n - 1] + [f[n - 1]] && g[..n] == g[..n - 1] + [g[n - 1]];
    }
  }

  /** What the domain matcher decoder accepts, and the keys it finds. */
  ghost predicate Accepted(leaves: seq<nat>, bitmap: seq<nat>, labels: seq<byte>) {
    && |leaves| * 64 >= |labels| + 1
    && HasLayout(bitmap, labels)
    && Shallow(LayoutOf(bitmap, labels), 0, 0)
  }

  ghost function DecodedKeys(leaves: seq<nat>, bitmap: seq<nat>, labels: seq<byte>): seq<Key>
    requires Accepted(leaves, bitmap, labels)
  {
    KeysFrom(labels, LayoutOf(bitmap, labels), leaves, 0, [])
  }

  /** `read_domain_matcher` behind the reading of its three arrays. */
  method DecodeTrie(leaves: seq<nat>, bitmap: seq<nat>, labels: seq<byte>) returns (r: Result<seq<Key>, TrieError>)
    ensures r.Ok? <==> Accepted(leaves, bitmap, labels)
    ensures r.Ok? ==> r.value == DecodedKeys(leaves, bitmap, labels)
  {
    if |leaves| * 64 < |labels| + 1 {
      return Err(InvalidLeaves);
    }
    var built, first := BuildChildren(bitmap, labels);
    if built.Err? {
      return Err(built.error);
    }
    LayoutOrdered(bitmap, labels, first);
    LayoutUnique(bitmap, labels, first, LayoutOf(bitmap, labels), |labels| + 2);
    assert first[..|labels| + 2] == first && LayoutOf(bitmap, labels)[..|labels| + 2] == LayoutOf(bitmap, labels);
    var collector := new Collector(built.value, leaves);
    var walked := collector.Collect(0, labels, first);
    if walked.Err? {
      return Err(walked.error);
    }
    assert [] + collector.keys == collector.keys;
    return Ok(collector.keys);
  }

  /** Decoding the level-order encoding of any finite key set returns that set. */
  lemma DecodeEncodedSet(keys: set<Key>)
    requires Bounded(keys, MAX_KEY_LENGTH)
    ensures var nodes := LevelOrder([BuildTrie(keys, MAX_KEY_LENGTH)]);
            var leaves, bitmap, labels := Pack(LeafBits(nodes)), Pack(BitsOf(nodes)), LabelsOf(nodes);
            && Accepted(leaves, bitmap, labels)
            && forall key :: key in DecodedKeys(leaves, bitmap, labels) <==> key in keys
  {
    var t := BuildTrie(keys, MAX_KEY_LENGTH);
    var nodes := LevelOrder([t]);
    var leaves, bitmap, labels, first := Pack(LeafBits(nodes)), Pack(BitsOf(nodes)), LabelsOf(nodes), FirstOf(nodes);
    EncodedLayout(t);
    LevelOrderUnfolds([t]);
    BuildTrieFits(keys, MAX_KEY_LENGTH, 0);
    hide LevelOrder, BuildTrie, Pack, LeafBits, BitsOf, LabelsOf, FirstOf, KeysOf, KeysFrom, Shallow, FitsDepth;
    LayoutOrdered(bitmap, labels, first);
    LayoutUnique(bitmap, labels, first, LayoutOf(bitmap, labels), |labels| + 2);
    assert first[..|labels| + 2] == first && LayoutOf(bitmap, labels)[..|labels| + 2] == LayoutOf(bitmap, labels);
    assert nodes[0] == t;
    ShallowEncoded(t, 0, 0);
    EnoughLeaves(nodes);
    WalkEncoded(t, 0, []);
    forall key ensures key in DecodedKeys(leaves, bitmap, labels) <==> key in keys {
      BuildTrieKeys(keys, MAX_KEY_LENGTH, [], key);
      assert [] + key == key;
    }
  }

  lemma EnoughLeaves(nodes: seq<Trie>)
    requires nodes != []
    ensures |Pack(LeafBits(nodes))| * 64 >= |nodes|
  {
    PackBit(LeafBits(nodes), 0);
  }
}
