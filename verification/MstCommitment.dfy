/** The blocks of a Merkle search tree, the walk that reads them back, and the commitment of the root. */
module MstCommitment {
  import opened Bytes
  import opened Lex
  import opened MstNode
  import opened Mst

  // ---- Prefix compression ----

  function PrefixLen(a: bytes, b: bytes): (n: nat)
    ensures n <= |a| && n <= |b| && a[..n] == b[..n]
    ensures n < |a| && n < |b| ==> a[n] != b[n]
  {
    if a != [] && b != [] && a[0] == b[0] then
      var n := PrefixLen(a[1..], b[1..]);
      assert a[..n + 1] == [a[0]] + a[1..][..n] && b[..n + 1] == [b[0]] + b[1..][..n];
      n + 1
    else 0
  }

  // ---- From trees to blocks ----

  /** How a parent refers to a subtree: the content identifier of its block. */
  function Ref(cid: bytes -> bytes, t: Tree): Option<bytes>
    decreases t, 1
  {
    match t
    case Empty => None
    case Branch(_, _) => Some(cid(Block(cid, t)))
  }

  function Block(cid: bytes -> bytes, t: Tree): bytes
    requires t.Branch?
    decreases t, 0
  {
    NodeBytes(Node(Ref(cid, t.left), Entries(cid, t.items, [])))
  }

  function Entries(cid: bytes -> bytes, items: Items, prev: bytes): seq<Entry>
    decreases items
  {
    match items
    case Nil => []
    case Cons(key, value, right, rest) =>
      var p := PrefixLen(prev, key);
      [Entry(p, key[p..], value, Ref(cid, right))] + Entries(cid, rest, key)
  }

  /** The blocks of a tree in the order they are stored: children first. */
  function Blocks(cid: bytes -> bytes, t: Tree): seq<bytes>
    decreases t
  {
    match t
    case Empty => []
    case Branch(left, items) => Blocks(cid, left) + ItemBlocks(cid, items) + [Block(cid, t)]
  }

  function ItemBlocks(cid: bytes -> bytes, items: Items): seq<bytes>
    decreases items
  {
    match items
    case Nil => []
    case Cons(_, _, right, rest) => Blocks(cid, right) + ItemBlocks(cid, rest)
  }

  // ---- Sizes ----

  /** What the hash and the key rules guarantee: fixed-size identifiers, keys below 2^16 bytes. */
  ghost predicate Sized(t: Tree) {
    match t
    case Empty => true
    case Branch(left, items) => Sized(left) && ItemsSized(items)
  }

  ghost predicate ItemsSized(items: Items) {
    match items
    case Nil => true
    case Cons(key, value, right, rest) =>
      |key| < 0x1_0000 && |value| == CID_LEN && Sized(right) && ItemsSized(rest)
  }

  ghost predicate FixedLength(cid: bytes -> bytes) {
    forall x :: |cid(x)| == CID_LEN
  }

  function Width(items: Items): nat {
    match items
    case Nil => 0
    case Cons(_, _, _, rest) => 1 + Width(rest)
  }

  /** Every node has fewer than 2^16 entries. */
  ghost predicate Narrow(t: Tree)
    decreases t
  {
    match t
    case Empty => true
    case Branch(left, items) => Width(items) < 0x1_0000 && Narrow(left) && ItemsNarrow(items)
  }

  ghost predicate ItemsNarrow(items: Items)
    decreases items
  {
    match items
    case Nil => true
    case Cons(_, _, right, rest) => Narrow(right) && ItemsNarrow(rest)
  }

  function Max(a: nat, b: nat): nat {
    if a < b then b else a
  }

  function Height(t: Tree): nat
    decreases t
  {
    match t
    case Empty => 0
    case Branch(left, items) => 1 + Max(Height(left), ItemsHeight(items))
  }

  function ItemsHeight(items: Items): nat
    decreases items
  {
    match items
    case Nil => 0
    case Cons(_, _, right, rest) => Max(Height(right), ItemsHeight(rest))
  }

  lemma {:induction false} EntriesFit(cid: bytes -> bytes, items: Items, prev: bytes)
    requires FixedLength(cid) && ItemsSized(items) && |prev| < 0x1_0000
    ensures |Entries(cid, items, prev)| == Width(items)
    ensures forall e :: e in Entries(cid, items, prev) ==> WellFormedEntry(e)
  {
    match items
    case Nil =>
    case Cons(key, value, right, rest) => EntriesFit(cid, rest, key);
  }

  function KeyOf(items: Items, i: nat): bytes
    requires i < Width(items)
  {
    if i == 0 then items.key else KeyOf(items.rest, i - 1)
  }

  /** Every entry leaves out exactly what its key shares with the key before it. */
  lemma {:induction false} EntriesCompress(cid: bytes -> bytes, items: Items, prev: bytes, i: nat)
    requires i < Width(items)
    ensures |Entries(cid, items, prev)| == Width(items)
    ensures
      var e, key, before := Entries(cid, items, prev)[i], KeyOf(items, i), if i == 0 then prev else KeyOf(items, i - 1);
      && e.prefixLen <= |key| && e.prefixLen <= |before|
      && key == before[..e.prefixLen] + e.suffix
      && (e.prefixLen < |key| && e.prefixLen < |before| ==> key[e.prefixLen] != before[e.prefixLen])
  {
    EntriesWidth(cid, items.rest, items.key);
    if i > 0 {
      EntriesCompress(cid, items.rest, items.key, i - 1);
    } else {
      var p := PrefixLen(prev, items.key);
      assert items.key[..p] + items.key[p..] == items.key;
    }
  }

  lemma {:induction false} EntriesWidth(cid: bytes -> bytes, items: Items, prev: bytes)
    ensures |Entries(cid, items, prev)| == Width(items)
    decreases items
  {
    if items.Cons? {
      EntriesWidth(cid, items.rest, items.key);
    }
  }

  // ---- The walk ----

  /** Reads a subtree in order from decoded blocks, noting the level of every key, at most `depth` levels deep. */
  function Walk(utf8: bytes -> bool, blocks: map<bytes, bytes>, ref: Option<bytes>, level: int, depth: nat)
    : Option<seq<Placed>>
    decreases depth, 0
  {
    match ref
    case None => Some([])
    case Some(c) =>
      if depth == 0 || c !in blocks then None else
        match ReadNode(utf8, blocks[c])
        case Err(_) => None
        case Ok(node) =>
          var left :- Walk(utf8, blocks, node.left, level + 1, depth - 1);
          var rest :- WalkEntries(utf8, blocks, node.entries, [], level, depth - 1);
          Some(left + rest)
  }

  function WalkEntries(utf8: bytes -> bool, blocks: map<bytes, bytes>, es: seq<Entry>, prev: bytes, level: int,
      depth: nat)
    : Option<seq<Placed>>
    decreases depth, 1, |es|
  {
    if es == [] then Some([])
    else if es[0].prefixLen > |prev| then None
    else
      var key := prev[..es[0].prefixLen] + es[0].suffix;
      var right :- Walk(utf8, blocks, es[0].tree, level + 1, depth);
      var rest :- WalkEntries(utf8, blocks, es[1..], key, level, depth);
      Some([Placed(key, es[0].value, level)] + (right + rest))
  }

  /** Every block of the tree that a reader can get to is stored under its content identifier. */
  ghost predicate Stored(cid: bytes -> bytes, blocks: map<bytes, bytes>, t: Tree)
    decreases t
  {
    match t
    case Empty => true
    case Branch(left, items) =>
      cid(Block(cid, t)) in blocks && blocks[cid(Block(cid, t))] == Block(cid, t)
      && (Width(items) < 0x1_0000 ==> Stored(cid, blocks, left) && ItemsStored(cid, blocks, items))
  }

  ghost predicate ItemsStored(cid: bytes -> bytes, blocks: map<bytes, bytes>, items: Items)
    decreases items
  {
    match items
    case Nil => true
    case Cons(_, _, right, rest) => Stored(cid, blocks, right) && ItemsStored(cid, blocks, rest)
  }

  function IfNarrow(narrow: bool, s: seq<Placed>): Option<seq<Placed>> {
    if narrow then Some(s) else None
  }

  /** Walking from the root recovers the contents exactly when every node is narrow, and fails otherwise. */
  lemma {:induction false} WalkExact(cid: bytes -> bytes, utf8: bytes -> bool, blocks: map<bytes, bytes>, t: Tree,
      level: int, depth: nat)
    requires FixedLength(cid) && Letters(utf8) && Sized(t) && Stored(cid, blocks, t) && depth >= Height(t)
    ensures Walk(utf8, blocks, Ref(cid, t), level, depth) == IfNarrow(Narrow(t), InOrder(t, level))
    decreases t
  {
    hide NodeBytes, ReadNode, WellFormedEntry, FixedLength;
    match t
    case Empty =>
    case Branch(left, items) =>
      var es := Entries(cid, items, []);
      var node := Node(Ref(cid, left), es);
      EntriesFit(cid, items, []);
      RefFits(cid, left);
      NodeRoundTrip(utf8, node);
      if Width(items) < 0x1_0000 {
        WalkExact(cid, utf8, blocks, left, level + 1, depth - 1);
        WalkEntriesExact(cid, utf8, blocks, items, [], level, depth - 1);
      }
  }

  lemma RefFits(cid: bytes -> bytes, t: Tree)
    requires FixedLength(cid)
    ensures Ref(cid, t).Some? ==> |Ref(cid, t).value| == CID_LEN
  {
  }

  lemma {:induction false} WalkEntriesExact(cid: bytes -> bytes, utf8: bytes -> bool, blocks: map<bytes, bytes>,
      items: Items, prev: bytes, level: int, depth: nat)
    requires FixedLength(cid) && Letters(utf8) && ItemsSized(items) && ItemsStored(cid, blocks, items)
    requires depth >= ItemsHeight(items)
    ensures WalkEntries(utf8, blocks, Entries(cid, items, prev), prev, level, depth)
         == IfNarrow(ItemsNarrow(items), ItemsInOrder(items, level))
    decreases items
  {
    hide FixedLength, Walk;
    match items
    case Nil =>
    case Cons(key, value, right, rest) =>
      var p := PrefixLen(prev, key);
      var es := Entries(cid, items, prev);
      assert es[1..] == Entries(cid, rest, key);
      assert prev[..p] + key[p..] == key;
      WalkExact(cid, utf8, blocks, right, level + 1, depth);
      WalkEntriesExact(cid, utf8, blocks, rest, key, level, depth);
  }

  // ---- Commitment ----

  ghost predicate Within(cid: bytes -> bytes, t: Tree, s: set<bytes>)
    decreases t
  {
    match t
    case Empty => true
    case Branch(left, items) => Block(cid, t) in s && Within(cid, left, s) && ItemsWithin(cid, items, s)
  }

  ghost predicate ItemsWithin(cid: bytes -> bytes, items: Items, s: set<bytes>)
    decreases items
  {
    match items
    case Nil => true
    case Cons(_, _, right, rest) => Within(cid, right, s) && ItemsWithin(cid, rest, s)
  }

  /** Equal references stand for equal trees. */
  lemma {:induction false} SameRefSameTree(cid: bytes -> bytes, t: Tree, u: Tree, s: set<bytes>)
    requires FixedLength(cid) && Sized(t) && Sized(u)
    requires Within(cid, t, s) && Within(cid, u, s) && CollisionFree(cid, s)
    requires Ref(cid, t) == Ref(cid, u)
    ensures t == u
    decreases t
  {
    hide NodeBytes, WellFormedEntry, FixedLength;
    if t.Branch? {
      EntriesFit(cid, t.items, []);
      EntriesFit(cid, u.items, []);
      RefFits(cid, t.left);
      RefFits(cid, u.left);
      NodeBytesInjective(Node(Ref(cid, t.left), Entries(cid, t.items, [])),
                         Node(Ref(cid, u.left), Entries(cid, u.items, [])));
      SameRefSameTree(cid, t.left, u.left, s);
      SameEntriesSameItems(cid, t.items, u.items, [], s);
    }
  }

  lemma {:induction false} SameEntriesSameItems(cid: bytes -> bytes, a: Items, b: Items, prev: bytes, s: set<bytes>)
    requires FixedLength(cid) && ItemsSized(a) && ItemsSized(b)
    requires ItemsWithin(cid, a, s) && ItemsWithin(cid, b, s) && CollisionFree(cid, s)
    requires Entries(cid, a, prev) == Entries(cid, b, prev)
    ensures a == b
    decreases a
  {
    hide FixedLength, CollisionFree;
    if a.Cons? {
      var es, fs := Entries(cid, a, prev), Entries(cid, b, prev);
      assert es[0] == fs[0] && es[1..] == fs[1..];
      var p := PrefixLen(prev, a.key);
      assert prev[..p] + a.key[p..] == a.key && prev[..p] + b.key[p..] == b.key;
      assert es[1..] == Entries(cid, a.rest, a.key) && fs[1..] == Entries(cid, b.rest, b.key);
      SameRefSameTree(cid, a.right, b.right, s);
      SameEntriesSameItems(cid, a.rest, b.rest, a.key, s);
    }
  }

  // ---- Trees of maps ----

  /** The leaves of a map in key order. */
  function Leaves(m: map<bytes, bytes>, keys: seq<bytes>, layer: bytes -> nat): (s: seq<Leaf>)
    requires forall k :: k in keys ==> k in m
    ensures |s| == |keys| && (forall i :: 0 <= i < |s| ==> s[i] == Leaf(keys[i], m[keys[i]], layer(keys[i])))
  {
    if keys == [] then [] else [Leaf(keys[0], m[keys[0]], layer(keys[0]))] + Leaves(m, keys[1..], layer)
  }

  function Sorted(m: map<bytes, bytes>, layer: bytes -> nat): seq<Leaf> {
    Leaves(m, SortedKeys(m.Keys), layer)
  }

  function MaxLayer(keys: seq<Leaf>): (l: nat)
    ensures forall i :: 0 <= i < |keys| ==> keys[i].layer <= l
    ensures keys != [] ==> exists i :: 0 <= i < |keys| && keys[i].layer == l
  {
    if keys == [] then 0
    else
      var l := MaxLayer(keys[1..]);
      assert forall i :: 0 < i < |keys| ==> keys[i] == keys[1..][i - 1];
      assert |keys| > 1 ==> exists i :: 0 <= i < |keys[1..]| && keys[1..][i].layer == l && keys[i + 1].layer == l;
      assert |keys| == 1 ==> l == 0;
      if keys[0].layer < l then l else keys[0].layer
  }

  /** The tree of a map; the empty map has one node without entries. */
  function TreeOf(m: map<bytes, bytes>, layer: bytes -> nat): Tree {
    var keys := Sorted(m, layer);
    Build(keys, 0, |keys|, MaxLayer(keys))
  }

  function Root(cid: bytes -> bytes, m: map<bytes, bytes>, layer: bytes -> nat): bytes {
    cid(Block(cid, TreeOf(m, layer)))
  }

  // ---- What the layout keeps ----

  ghost predicate LeavesSized(keys: seq<Leaf>) {
    forall i :: 0 <= i < |keys| ==> |keys[i].key| < 0x1_0000 && |keys[i].value| == CID_LEN
  }

  lemma {:induction false} BuildFits(keys: seq<Leaf>, start: nat, end: nat, layer: nat)
    requires start <= end <= |keys| && LeavesSized(keys)
    ensures Sized(Build(keys, start, end, layer)) && Height(Build(keys, start, end, layer)) <= layer + 1
    decreases layer, 2, end - start
  {
    var i := SkipLower(keys, start, end, layer);
    SubtreeFits(keys, start, i, layer);
    ItemsFit(keys, i, end, layer);
  }

  lemma {:induction false} SubtreeFits(keys: seq<Leaf>, a: nat, b: nat, layer: nat)
    requires a <= b <= |keys| && LeavesSized(keys)
    ensures Sized(Subtree(keys, a, b, layer)) && Height(Subtree(keys, a, b, layer)) <= layer
    decreases layer, 0, b - a
  {
    if b > a && layer > 0 {
      BuildFits(keys, a, b, layer - 1);
    }
  }

  lemma {:induction false} ItemsFit(keys: seq<Leaf>, i: nat, end: nat, layer: nat)
    requires i <= end <= |keys| && LeavesSized(keys)
    ensures ItemsSized(BuildItems(keys, i, end, layer)) && ItemsHeight(BuildItems(keys, i, end, layer)) <= layer
    decreases layer, 1, end - i
  {
    if i < end {
      if keys[i].layer == layer {
        var j := SkipLower(keys, i + 1, end, layer);
        SubtreeFits(keys, i + 1, j, layer);
        ItemsFit(keys, j, end, layer);
      } else {
        ItemsFit(keys, i + 1, end, layer);
      }
    }
  }

  lemma {:induction false} BlocksWithin(cid: bytes -> bytes, t: Tree, s: set<bytes>)
    requires forall b :: b in Blocks(cid, t) ==> b in s
    ensures Within(cid, t, s)
    decreases t
  {
    hide Block;
    if t.Branch? {
      BlocksWithin(cid, t.left, s);
      ItemBlocksWithin(cid, t.items, s);
    }
  }

  lemma {:induction false} ItemBlocksWithin(cid: bytes -> bytes, items: Items, s: set<bytes>)
    requires forall b :: b in ItemBlocks(cid, items) ==> b in s
    ensures ItemsWithin(cid, items, s)
    decreases items
  {
    if items.Cons? {
      BlocksWithin(cid, items.right, s);
      ItemBlocksWithin(cid, items.rest, s);
    }
  }

  /** A map whose keys and values have the sizes that inserting demands. */
  ghost predicate MapSized(m: map<bytes, bytes>) {
    forall k :: k in m ==> |k| < 0x1_0000 && |m[k]| == CID_LEN
  }

  lemma {:induction false} TreeOfFits(m: map<bytes, bytes>, layer: bytes -> nat)
    requires MapSized(m)
    ensures Sized(TreeOf(m, layer)) && Height(TreeOf(m, layer)) <= MaxLayer(Sorted(m, layer)) + 1
  {
    var keys := Sorted(m, layer);
    BuildFits(keys, 0, |keys|, MaxLayer(keys));
  }

  /** A map in key order, each key as deep as the top layer is above its own. */
  function Listing(m: map<bytes, bytes>, layer: bytes -> nat): seq<Placed> {
    var keys := Sorted(m, layer);
    Expected(keys, 0, |keys|, MaxLayer(keys))
  }

  /** Walking the stored tree of a map lists exactly that map, or fails if some node has 2^16 entries. */
  lemma {:induction false} WalkRecoversMap(cid: bytes -> bytes, utf8: bytes -> bool, blocks: map<bytes, bytes>,
      m: map<bytes, bytes>, layer: bytes -> nat, depth: nat)
    requires FixedLength(cid) && Letters(utf8) && MapSized(m)
    requires Stored(cid, blocks, TreeOf(m, layer)) && depth > MaxLayer(Sorted(m, layer))
    ensures Walk(utf8, blocks, Some(Root(cid, m, layer)), 0, depth)
         == IfNarrow(Narrow(TreeOf(m, layer)), Listing(m, layer))
  {
    hide FixedLength, Letters, Walk, Stored, Narrow, Block, Sorted, Build;
    var keys := Sorted(m, layer);
    TreeOfFits(m, layer);
    BuildPlaces(keys, 0, |keys|, MaxLayer(keys), 0);
    TreeOfIsBranch(m, layer);
    WalkExact(cid, utf8, blocks, TreeOf(m, layer), 0, depth);
  }

  lemma TreeOfIsBranch(m: map<bytes, bytes>, layer: bytes -> nat)
    ensures TreeOf(m, layer).Branch?
  {
  }

  lemma {:induction false} ExpectedAt(keys: seq<Leaf>, a: nat, b: nat, top: int, i: nat)
    requires a <= b <= |keys| && i < b - a
    ensures Expected(keys, a, b, top)[i] == Placed(keys[a + i].key, keys[a + i].value, top - keys[a + i].layer)
    decreases b - a
  {
    if i > 0 {
      ExpectedAt(keys, a + 1, b, top, i - 1);
    }
  }

  lemma {:induction false} ListingAt(m: map<bytes, bytes>, layer: bytes -> nat, i: nat)
    requires i < |SortedKeys(m.Keys)|
    ensures |Listing(m, layer)| == |SortedKeys(m.Keys)|
    ensures SortedKeys(m.Keys)[i] in m
    ensures Listing(m, layer)[i].key == SortedKeys(m.Keys)[i] && Listing(m, layer)[i].value == m[SortedKeys(m.Keys)[i]]
  {
    hide Expected, SortedKeys;
    var a := Sorted(m, layer);
    assert SortedKeys(m.Keys)[i] in SortedKeys(m.Keys);
    ExpectedAt(a, 0, |a|, MaxLayer(a), i);
  }

  lemma {:induction false} ListingIsInjective(m: map<bytes, bytes>, n: map<bytes, bytes>, layer: bytes -> nat)
    requires Listing(m, layer) == Listing(n, layer)
    ensures m == n
  {
    var ks, ls := SortedKeys(m.Keys), SortedKeys(n.Keys);
    assert |ks| == |ls| by {
      hide SortedKeys;
    }
    hide *;
    forall i: nat | i < |ks|
      ensures ks[i] == ls[i] && ks[i] in m && ls[i] in n && m[ks[i]] == n[ks[i]]
    {
      ListingAt(m, layer, i);
      ListingAt(n, layer, i);
    }
    assert ks == ls;
    assert m.Keys == n.Keys;
    forall k | k in m
      ensures m[k] == n[k]
    {
      assert k in ks;
    }
  }

  /** Two maps have the same root exactly when they are the same map. */
  lemma {:induction false} RootCommits(cid: bytes -> bytes, m: map<bytes, bytes>, n: map<bytes, bytes>,
      layer: bytes -> nat, s: set<bytes>)
    requires FixedLength(cid) && MapSized(m) && MapSized(n) && CollisionFree(cid, s)
    requires forall b :: b in Blocks(cid, TreeOf(m, layer)) || b in Blocks(cid, TreeOf(n, layer)) ==> b in s
    ensures Root(cid, m, layer) == Root(cid, n, layer) <==> m == n
  {
    if Root(cid, m, layer) == Root(cid, n, layer) {
      SameRootSameMap(cid, m, n, layer, s);
    }
  }

  lemma {:induction false} SameRootSameMap(cid: bytes -> bytes, m: map<bytes, bytes>, n: map<bytes, bytes>,
      layer: bytes -> nat, s: set<bytes>)
    requires FixedLength(cid) && MapSized(m) && MapSized(n) && CollisionFree(cid, s)
    requires forall b :: b in Blocks(cid, TreeOf(m, layer)) || b in Blocks(cid, TreeOf(n, layer)) ==> b in s
    requires Root(cid, m, layer) == Root(cid, n, layer)
    ensures m == n
  {
    hide FixedLength, MapSized, CollisionFree, Block, Build, Sorted, Blocks, Within, InOrder;
    var t, u := TreeOf(m, layer), TreeOf(n, layer);
    var a, b := Sorted(m, layer), Sorted(n, layer);
    TreeOfFits(m, layer);
    TreeOfFits(n, layer);
    TreeOfIsBranch(m, layer);
    TreeOfIsBranch(n, layer);
    BlocksWithin(cid, t, s);
    BlocksWithin(cid, u, s);
    SameRefSameTree(cid, t, u, s);
    BuildPlaces(a, 0, |a|, MaxLayer(a), 0);
    BuildPlaces(b, 0, |b|, MaxLayer(b), 0);
    ListingIsInjective(m, n, layer);
  }
}
