/** The Merkle search tree: its shape, its blocks, and what its root commits to. */
module Mst {
  import opened Bytes

  /** A key with its value and the layer its hash puts it on. */
  datatype Leaf = Leaf(key: bytes, value: bytes, layer: nat)

  datatype Tree = Empty | Branch(left: Tree, items: Items)

  datatype Items = Nil | Cons(key: bytes, value: bytes, right: Tree, rest: Items)

  // ---- Layout ----

  /** The first position from `i` on whose key is not below `layer`. */
  function SkipLower(keys: seq<Leaf>, i: nat, end: nat, layer: nat): (j: nat)
    requires i <= end <= |keys|
    ensures i <= j <= end
    ensures forall k :: i <= k < j ==> keys[k].layer < layer
    ensures j < end ==> keys[j].layer >= layer
    decreases end - i
  {
    if i < end && keys[i].layer < layer then SkipLower(keys, i + 1, end, layer) else i
  }

  /** The tree laid out for `keys[start..end]` with its root on `layer`. */
  function Build(keys: seq<Leaf>, start: nat, end: nat, layer: nat): Tree
    requires start <= end <= |keys|
    decreases layer, 2, end - start
  {
    var i := SkipLower(keys, start, end, layer);
    Branch(Subtree(keys, start, i, layer), BuildItems(keys, i, end, layer))
  }

  function Subtree(keys: seq<Leaf>, a: nat, b: nat, layer: nat): Tree
    requires a <= b <= |keys|
    decreases layer, 0, b - a
  {
    if b > a && layer > 0 then Build(keys, a, b, layer - 1) else Empty
  }

  /** A key above the layer is stepped over. */
  function BuildItems(keys: seq<Leaf>, i: nat, end: nat, layer: nat): Items
    requires i <= end <= |keys|
    decreases layer, 1, end - i
  {
    if i == end then Nil
    else if keys[i].layer == layer then
      var j := SkipLower(keys, i + 1, end, layer);
      Cons(keys[i].key, keys[i].value, Subtree(keys, i + 1, j, layer), BuildItems(keys, j, end, layer))
    else BuildItems(keys, i + 1, end, layer)
  }

  ghost predicate Below(keys: seq<Leaf>, a: nat, b: nat, layer: nat)
    requires a <= b <= |keys|
  {
    forall k :: a <= k < b ==> keys[k].layer <= layer
  }

  // ---- Reading a tree in order, with the depth of every key ----

  datatype Placed = Placed(key: bytes, value: bytes, depth: int)

  function InOrder(t: Tree, depth: int): seq<Placed> {
    match t
    case Empty => []
    case Branch(left, items) => InOrder(left, depth + 1) + ItemsInOrder(items, depth)
  }

  function ItemsInOrder(items: Items, depth: int): seq<Placed> {
    match items
    case Nil => []
    case Cons(key, value, right, rest) =>
      [Placed(key, value, depth)] + (InOrder(right, depth + 1) + ItemsInOrder(rest, depth))
  }

  /** Every key once, in order, as deep as the root's layer is above its own. */
  function Expected(keys: seq<Leaf>, a: nat, b: nat, top: int): (s: seq<Placed>)
    requires a <= b <= |keys|
    ensures |s| == b - a
    decreases b - a
  {
    if a == b then []
    else [Placed(keys[a].key, keys[a].value, top - keys[a].layer)] + Expected(keys, a + 1, b, top)
  }

  lemma {:induction false} ExpectedSplit(keys: seq<Leaf>, a: nat, m: nat, b: nat, top: int)
    requires a <= m <= b <= |keys|
    ensures Expected(keys, a, b, top) == Expected(keys, a, m, top) + Expected(keys, m, b, top)
    decreases m - a
  {
    if a < m {
      ExpectedSplit(keys, a + 1, m, b, top);
    }
  }

  lemma {:induction false} BuildPlaces(keys: seq<Leaf>, start: nat, end: nat, layer: nat, depth: int)
    requires start <= end <= |keys| && Below(keys, start, end, layer)
    ensures InOrder(Build(keys, start, end, layer), depth) == Expected(keys, start, end, depth + layer)
    decreases layer, 2, end - start
  {
    hide Expected;
    var i := SkipLower(keys, start, end, layer);
    SubtreePlaces(keys, start, i, layer, depth);
    ItemsPlace(keys, i, end, layer, depth);
    ExpectedSplit(keys, start, i, end, depth + layer);
  }

  lemma {:induction false} SubtreePlaces(keys: seq<Leaf>, a: nat, b: nat, layer: nat, depth: int)
    requires a <= b <= |keys| && (forall k :: a <= k < b ==> keys[k].layer < layer)
    ensures InOrder(Subtree(keys, a, b, layer), depth + 1) == Expected(keys, a, b, depth + layer)
    decreases layer, 0, b - a
  {
    if a < b {
      assert keys[a].layer < layer;
      BuildPlaces(keys, a, b, layer - 1, depth + 1);
    }
  }

  lemma {:induction false} ItemsPlace(keys: seq<Leaf>, i: nat, end: nat, layer: nat, depth: int)
    requires i <= end <= |keys| && Below(keys, i, end, layer) && (i < end ==> keys[i].layer >= layer)
    ensures ItemsInOrder(BuildItems(keys, i, end, layer), depth) == Expected(keys, i, end, depth + layer)
    decreases layer, 1, end - i
  {
    hide InOrder, Expected, Subtree, SkipLower;
    if i < end {
      var j := SkipLower(keys, i + 1, end, layer);
      SubtreePlaces(keys, i + 1, j, layer, depth);
      ItemsPlace(keys, j, end, layer, depth);
      ExpectedSplit(keys, i + 1, j, end, depth + layer);
      ExpectedHead(keys, i, end, depth + layer);
    }
  }

  lemma ExpectedHead(keys: seq<Leaf>, a: nat, b: nat, top: int)
    requires a < b <= |keys|
    ensures Expected(keys, a, b, top)
         == [Placed(keys[a].key, keys[a].value, top - keys[a].layer)] + Expected(keys, a + 1, b, top)
  {
  }

  /** How often the layout steps over a key that is above the layer being laid out. */
  function Strays(keys: seq<Leaf>, start: nat, end: nat, layer: nat): nat
    requires start <= end <= |keys|
    decreases layer, 2, end - start
  {
    var i := SkipLower(keys, start, end, layer);
    SubtreeStrays(keys, start, i, layer) + ItemStrays(keys, i, end, layer)
  }

  function SubtreeStrays(keys: seq<Leaf>, a: nat, b: nat, layer: nat): nat
    requires a <= b <= |keys|
    decreases layer, 0, b - a
  {
    if b > a && layer > 0 then Strays(keys, a, b, layer - 1) else 0
  }

  function ItemStrays(keys: seq<Leaf>, i: nat, end: nat, layer: nat): nat
    requires i <= end <= |keys|
    decreases layer, 1, end - i
  {
    if i == end then 0
    else if keys[i].layer == layer then
      var j := SkipLower(keys, i + 1, end, layer);
      SubtreeStrays(keys, i + 1, j, layer) + ItemStrays(keys, j, end, layer)
    else 1 + ItemStrays(keys, i + 1, end, layer)
  }

  /** The layout steps over a key exactly when some key is above the root's layer. */
  lemma {:induction false} StraysExactly(keys: seq<Leaf>, start: nat, end: nat, layer: nat)
    requires start <= end <= |keys|
    ensures Strays(keys, start, end, layer) == 0 <==> Below(keys, start, end, layer)
    decreases layer, 2, end - start
  {
    var i := SkipLower(keys, start, end, layer);
    NoSubtreeStrays(keys, start, i, layer);
    ItemStraysExactly(keys, i, end, layer);
  }

  lemma {:induction false} NoSubtreeStrays(keys: seq<Leaf>, a: nat, b: nat, layer: nat)
    requires a <= b <= |keys| && (forall k :: a <= k < b ==> keys[k].layer < layer)
    ensures SubtreeStrays(keys, a, b, layer) == 0
    decreases layer, 0, b - a
  {
    if a < b {
      assert keys[a].layer < layer;
      StraysExactly(keys, a, b, layer - 1);
    }
  }

  lemma {:induction false} ItemStraysExactly(keys: seq<Leaf>, i: nat, end: nat, layer: nat)
    requires i <= end <= |keys| && (i < end ==> keys[i].layer >= layer)
    ensures ItemStrays(keys, i, end, layer) == 0 <==> Below(keys, i, end, layer)
    decreases layer, 1, end - i
  {
    if i < end && keys[i].layer == layer {
      var j := SkipLower(keys, i + 1, end, layer);
      NoSubtreeStrays(keys, i + 1, j, layer);
      ItemStraysExactly(keys, j, end, layer);
    }
  }
}
