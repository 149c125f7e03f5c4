/** The in-memory repository tree: editing it, writing it to a block store, comparing two of them. */
module MstRepository {
  import opened Bytes
  import opened Lex
  import opened MstNode
  import opened Mst
  import opened MstCommitment
  import opened MstDiff

  // ---- Keys and layers ----

  const MAX_KEY_LEN: nat := 1024
  const SLASH: byte := '/' as int

  predicate ValidChar(b: byte) {
    'a' as int <= b <= 'z' as int || 'A' as int <= b <= 'Z' as int || '0' as int <= b <= '9' as int
    || b == '_' as int || b == '~' as int || b == '-' as int || b == ':' as int || b == '.' as int
  }

  predicate ValidPart(s: bytes) {
    s != [] && forall i :: 0 <= i < |s| ==> ValidChar(s[i])
  }

  /** `collection/rkey`: one slash between two non-empty parts of allowed characters. */
  predicate ValidKey(key: bytes) {
    |key| <= MAX_KEY_LEN
    && exists i :: 0 <= i < |key| && key[i] == SLASH && ValidPart(key[..i]) && ValidPart(key[i + 1..])
  }

  /** The parts between slashes. */
  function Split(key: bytes): (parts: seq<bytes>)
    ensures parts != []
  {
    if key == [] then [[]]
    else
      var rest := Split(key[1..]);
      if key[0] == SLASH then [[]] + rest else [[key[0]] + rest[0]] + rest[1..]
  }

  lemma {:induction false} SplitWithout(key: bytes)
    ensures |Split(key)| == 1 <==> SLASH !in key
    ensures SLASH !in key ==> Split(key) == [key]
    decreases |key|
  {
    if key != [] {
      SplitWithout(key[1..]);
      assert key == [key[0]] + key[1..];
    }
  }

  /** Two parts mean one slash, and they are what stands before and after it. */
  lemma {:induction false} SplitInTwo(key: bytes, i: nat)
    requires i < |key| && key[i] == SLASH && SLASH !in key[..i]
    ensures |Split(key)| == 2 <==> SLASH !in key[i + 1..]
    ensures |Split(key)| == 2 ==> Split(key) == [key[..i], key[i + 1..]]
    decreases i
  {
    if i == 0 {
      SplitWithout(key[1..]);
    } else {
      assert key[0] == key[..i][0] && key[0] in key[..i];
      assert key[1..][..i - 1] == key[..i][1..] && key[1..][i..] == key[i + 1..];
      SplitInTwo(key[1..], i - 1);
      assert [key[0]] + key[1..i] == key[..i];
    }
  }

  method AllValid(s: bytes) returns (r: bool)
    ensures r <==> forall i :: 0 <= i < |s| ==> ValidChar(s[i])
  {
    for i := 0 to |s|
      invariant forall j :: 0 <= j < i ==> ValidChar(s[j])
    {
      if !ValidChar(s[i]) {
        return false;
      }
    }
    r := true;
  }

  /** The check as the source makes it: length, two parts, neither empty, allowed characters only. */
  method IsValidKey(key: bytes) returns (r: bool)
    ensures r <==> ValidKey(key)
  {
    hide ValidChar, Split;
    if |key| > MAX_KEY_LEN {
      return false;
    }
    var parts := Split(key);
    SplitDecides(key);
    if |parts| != 2 {
      return false;
    }
    if parts[0] == [] || parts[1] == [] {
      return false;
    }
    var first := AllValid(parts[0]);
    var second := AllValid(parts[1]);
    r := first && second;
  }

  lemma SplitDecides(key: bytes)
    requires |key| <= MAX_KEY_LEN
    ensures ValidKey(key) <==> |Split(key)| == 2 && ValidPart(Split(key)[0]) && ValidPart(Split(key)[1])
  {
    hide Split, ValidPart;
    SplitWithout(key);
    if SLASH in key {
      var i := FirstSlash(key);
      SplitInTwo(key, i);
      forall j | 0 <= j < |key| && key[j] == SLASH && ValidPart(key[..j]) && ValidPart(key[j + 1..])
        ensures j == i && SLASH !in key[i + 1..]
      {
        assert i < j ==> key[..j][i] == SLASH;
        NoSlash(key[..j]);
        NoSlash(key[j + 1..]);
      }
    }
  }

  lemma NoSlash(part: bytes)
    requires ValidPart(part)
    ensures SLASH !in part
  {
  }

  lemma {:induction false} FirstSlash(key: bytes) returns (i: nat)
    requires SLASH in key
    ensures i < |key| && key[i] == SLASH && SLASH !in key[..i]
    decreases |key|
  {
    if key[0] == SLASH {
      i := 0;
    } else {
      assert key == [key[0]] + key[1..];
      i := FirstSlash(key[1..]);
      assert key[..i + 1] == [key[0]] + key[1..][..i];
      i := i + 1;
    }
  }

  /** A hash as 2-bit chunks, most significant first. */
  function TwoBits(hash: bytes): seq<nat> {
    if hash == [] then []
    else [hash[0] / 64, hash[0] / 16 % 4, hash[0] / 4 % 4, hash[0] % 4] + TwoBits(hash[1..])
  }

  function LeadingZeros(s: seq<nat>): nat {
    if s != [] && s[0] == 0 then 1 + LeadingZeros(s[1..]) else 0
  }

  lemma LeadingZerosOf(a: nat, b: nat, c: nat, d: nat, rest: seq<nat>)
    ensures LeadingZeros([a, b, c, d] + rest)
         == if a != 0 then 0 else if b != 0 then 1 else if c != 0 then 2 else if d != 0 then 3
            else 4 + LeadingZeros(rest)
  {
    assert [a, b, c, d] + rest == [a] + ([b] + ([c] + ([d] + rest)));
    LeadingZerosHead(d, rest);
    LeadingZerosHead(c, [d] + rest);
    LeadingZerosHead(b, [c] + ([d] + rest));
    LeadingZerosHead(a, [b] + ([c] + ([d] + rest)));
  }

  lemma LeadingZerosHead(x: nat, rest: seq<nat>)
    ensures LeadingZeros([x] + rest) == if x == 0 then 1 + LeadingZeros(rest) else 0
  {
    assert ([x] + rest)[1..] == rest;
  }

  /** The layer of a key with this hash: the number of leading zero 2-bit chunks. */
  method CountLeadingZeros(hash: bytes) returns (zeros: nat)
    ensures zeros == LeadingZeros(TwoBits(hash))
  {
    hide LeadingZeros;
    zeros := 0;
    var i := 0;
    assert hash[0..] == hash;
    while i < |hash|
      invariant 0 <= i <= |hash|
      invariant LeadingZeros(TwoBits(hash)) == zeros + LeadingZeros(TwoBits(hash[i..]))
    {
      var b: int := hash[i];
      assert hash[i..][0] == b && hash[i..][1..] == hash[i + 1..];
      LeadingZerosOf(b / 64, b / 16 % 4, b / 4 % 4, b % 4, TwoBits(hash[i + 1..]));
      if b >= 64 { return; }
      zeros := zeros + 1;
      if b >= 16 { return; }
      zeros := zeros + 1;
      if b >= 4 { return; }
      zeros := zeros + 1;
      if b != 0 { return; }
      zeros := zeros + 1;
      i := i + 1;
    }
    NoZeros();
  }

  /** By the first byte: no zero chunk from 64 on, one from 16, two from 4, three from 1; a zero byte counts four
      and the count goes on behind it. */
  lemma ZerosByFirstByte(hash: bytes)
    requires hash != []
    ensures
      var b, n := hash[0], LeadingZeros(TwoBits(hash));
      if b >= 64 then n == 0 else if b >= 16 then n == 1 else if b >= 4 then n == 2 else if b >= 1 then n == 3
      else n == 4 + LeadingZeros(TwoBits(hash[1..]))
  {
    hide LeadingZeros, TwoBits;
    var b: int := hash[0];
    TwoBitsStep(hash);
    LeadingZerosOf(b / 64, b / 16 % 4, b / 4 % 4, b % 4, TwoBits(hash[1..]));
    Chunks(b);
  }

  lemma TwoBitsStep(hash: bytes)
    requires hash != []
    ensures
      var b: int := hash[0];
      TwoBits(hash) == [b / 64, b / 16 % 4, b / 4 % 4, b % 4] + TwoBits(hash[1..])
  {
  }

  lemma Chunks(b: nat)
    requires b < 256
    ensures (b / 64 != 0 <==> b >= 64) && (b < 64 ==> (b / 16 % 4 != 0 <==> b >= 16))
    ensures (b < 16 ==> (b / 4 % 4 != 0 <==> b >= 4)) && (b < 4 ==> b % 4 == b)
  {
  }

  lemma NoZeros()
    ensures LeadingZeros([]) == 0
  {
  }

  // ---- The block store ----

  /** Storing blocks one after the other under their content identifiers. */
  function PutAll(cid: bytes -> bytes, m: map<bytes, bytes>, bs: seq<bytes>): map<bytes, bytes> {
    if bs == [] then m else PutAll(cid, m, bs[..|bs| - 1])[cid(bs[|bs| - 1]) := bs[|bs| - 1]]
  }

  lemma {:induction false} PutAllAppend(cid: bytes -> bytes, m: map<bytes, bytes>, a: seq<bytes>, b: seq<bytes>)
    ensures PutAll(cid, m, a + b) == PutAll(cid, PutAll(cid, m, a), b)
    decreases |b|
  {
    if b == [] {
      assert a + b == a;
    } else {
      assert (a + b)[..|a + b| - 1] == a + b[..|b| - 1];
      PutAllAppend(cid, m, a, b[..|b| - 1]);
    }
  }

  /** Without collisions among the blocks, each of them is found again. */
  lemma {:induction false} PutAllKeeps(cid: bytes -> bytes, m: map<bytes, bytes>, bs: seq<bytes>, s: set<bytes>)
    requires CollisionFree(cid, s) && forall b :: b in bs ==> b in s
    ensures forall b :: b in bs ==> cid(b) in PutAll(cid, m, bs) && PutAll(cid, m, bs)[cid(b)] == b
    decreases |bs|
  {
    if bs != [] {
      var front, last := bs[..|bs| - 1], bs[|bs| - 1];
      PutAllKeeps(cid, m, front, s);
      assert bs == front + [last];
    }
  }

  lemma {:induction false} StoredTree(cid: bytes -> bytes, m: map<bytes, bytes>, t: Tree)
    requires forall b :: b in Blocks(cid, t) ==> cid(b) in m && m[cid(b)] == b
    ensures Stored(cid, m, t)
    decreases t
  {
    hide Block;
    if t.Branch? {
      assert Block(cid, t) in Blocks(cid, t);
      StoredTree(cid, m, t.left);
      StoredItems(cid, m, t.items);
    }
  }

  lemma {:induction false} StoredItems(cid: bytes -> bytes, m: map<bytes, bytes>, items: Items)
    requires forall b :: b in ItemBlocks(cid, items) ==> cid(b) in m && m[cid(b)] == b
    ensures ItemsStored(cid, m, items)
    decreases items
  {
    if items.Cons? {
      StoredTree(cid, m, items.right);
      StoredItems(cid, m, items.rest);
    }
  }

  class BlockStore {
    const cid: bytes -> bytes
    var blocks: map<bytes, bytes>

    constructor (cid: bytes -> bytes)
      ensures this.cid == cid && blocks == map[]
    {
      this.cid := cid;
      blocks := map[];
    }

    method Put(data: bytes) returns (c: bytes)
      modifies this
      ensures c == cid(data) && blocks == old(blocks)[c := data]
    {
      c := cid(data);
      blocks := blocks[c := data];
    }
  }

  function Tagged(cid: bytes -> bytes, bs: seq<bytes>): (s: seq<(bytes, bytes)>)
    ensures |s| == |bs|
  {
    seq(|bs|, i requires 0 <= i < |bs| => (cid(bs[i]), bs[i]))
  }

  /** Lays out `keys[start..end]` on `layer`, storing every node after its children. */
  method BuildSubtree(store: BlockStore, keys: seq<Leaf>, start: nat, end: nat, layer: nat, all: seq<(bytes, bytes)>)
    returns (root: bytes, out: seq<(bytes, bytes)>)
    requires start <= end <= |keys|
    modifies store
    ensures root == store.cid(Block(store.cid, Build(keys, start, end, layer)))
    ensures store.blocks == PutAll(store.cid, old(store.blocks), Blocks(store.cid, Build(keys, start, end, layer)))
    ensures out == all + Tagged(store.cid, Blocks(store.cid, Build(keys, start, end, layer)))
    decreases layer, 1
  {
    hide Block, Blocks, PutAll, Build, SkipLower, Ref, Subtree, Tagged, NodeBytes, BuildItems, Entries, ItemBlocks;
    var i := FirstAtLayer(keys, start, end, layer);
    var left;
    left, out := BuildOptional(store, keys, start, i, layer, all);
    ghost var news := Blocks(store.cid, Subtree(keys, start, i, layer));
    ghost var items := BuildItems(keys, i, end, layer);
    ghost var whole := news + ItemBlocks(store.cid, items);
    var entries: seq<Entry> := [];
    var prev: bytes := [];
    assert [] + Entries(store.cid, items, []) == Entries(store.cid, items, []);
    while i < end
      invariant i <= end
      invariant Entries(store.cid, items, []) == entries + Entries(store.cid, BuildItems(keys, i, end, layer), prev)
      invariant whole == news + ItemBlocks(store.cid, BuildItems(keys, i, end, layer))
      invariant store.blocks == PutAll(store.cid, old(store.blocks), news)
      invariant out == all + Tagged(store.cid, news)
    {
      if keys[i].layer == layer {
        var key, value := keys[i].key, keys[i].value;
        var p := PrefixLen(prev, key);
        var j := FirstAtLayer(keys, i + 1, end, layer);
        ItemStep(store.cid, keys, i, j, end, layer, prev);
        var right;
        ghost var before := store.blocks;
        right, out := BuildOptional(store, keys, i + 1, j, layer, out);
        ghost var more := Blocks(store.cid, Subtree(keys, i + 1, j, layer));
        PutAllAppend(store.cid, old(store.blocks), news, more);
        TaggedAppend(store.cid, all, news, more);
        Associate(news, more, ItemBlocks(store.cid, BuildItems(keys, j, end, layer)));
        Associate(entries, [Entry(p, key[p..], value, right)],
                  Entries(store.cid, BuildItems(keys, j, end, layer), key));
        news := news + more;
        entries := entries + [Entry(p, key[p..], value, right)];
        prev := key;
        i := j;
      } else {
        StrayStep(keys, i, end, layer);
        i := i + 1;
      }
    }
    NoItems(store.cid, keys, end, layer, prev);
    assert entries == Entries(store.cid, items, []) && news == whole;
    var data := EncodeNode(Node(left, entries));
    BuildBlocks(store.cid, keys, start, end, layer);
    PutAllAppend(store.cid, old(store.blocks), news, [data]);
    PutOne(store.cid, PutAll(store.cid, old(store.blocks), news), data);
    TaggedAppend(store.cid, all, news, [data]);
    root := store.Put(data);
    out := out + [(root, data)];
  }

  method BuildOptional(store: BlockStore, keys: seq<Leaf>, a: nat, b: nat, layer: nat, all: seq<(bytes, bytes)>)
    returns (r: Option<bytes>, out: seq<(bytes, bytes)>)
    requires a <= b <= |keys|
    modifies store
    ensures r == Ref(store.cid, Subtree(keys, a, b, layer))
    ensures store.blocks == PutAll(store.cid, old(store.blocks), Blocks(store.cid, Subtree(keys, a, b, layer)))
    ensures out == all + Tagged(store.cid, Blocks(store.cid, Subtree(keys, a, b, layer)))
    decreases layer, 0
  {
    hide Block, SkipLower, BuildItems, ItemBlocks;
    if b > a && layer > 0 {
      var c;
      c, out := BuildSubtree(store, keys, a, b, layer - 1, all);
      r := Some(c);
    } else {
      r, out := None, all;
    }
  }

  method FirstAtLayer(keys: seq<Leaf>, start: nat, end: nat, layer: nat) returns (i: nat)
    requires start <= end <= |keys|
    ensures i == SkipLower(keys, start, end, layer)
  {
    i := start;
    while i < end && keys[i].layer < layer
      invariant start <= i <= end
      invariant SkipLower(keys, start, end, layer) == SkipLower(keys, i, end, layer)
    {
      i := i + 1;
    }
  }

  lemma ItemStep(cid: bytes -> bytes, keys: seq<Leaf>, i: nat, j: nat, end: nat, layer: nat, prev: bytes)
    requires i < end <= |keys| && keys[i].layer == layer && j == SkipLower(keys, i + 1, end, layer)
    ensures Entries(cid, BuildItems(keys, i, end, layer), prev)
         == var p := PrefixLen(prev, keys[i].key);
            [Entry(p, keys[i].key[p..], keys[i].value, Ref(cid, Subtree(keys, i + 1, j, layer)))]
            + Entries(cid, BuildItems(keys, j, end, layer), keys[i].key)
    ensures ItemBlocks(cid, BuildItems(keys, i, end, layer))
         == Blocks(cid, Subtree(keys, i + 1, j, layer)) + ItemBlocks(cid, BuildItems(keys, j, end, layer))
  {
    hide Ref, Blocks, Subtree;
  }

  lemma StrayStep(keys: seq<Leaf>, i: nat, end: nat, layer: nat)
    requires i < end <= |keys| && keys[i].layer != layer
    ensures BuildItems(keys, i, end, layer) == BuildItems(keys, i + 1, end, layer)
  {
  }

  lemma NoItems(cid: bytes -> bytes, keys: seq<Leaf>, end: nat, layer: nat, prev: bytes)
    requires end <= |keys|
    ensures Entries(cid, BuildItems(keys, end, end, layer), prev) == []
    ensures ItemBlocks(cid, BuildItems(keys, end, end, layer)) == []
  {
  }

  lemma BuildBlocks(cid: bytes -> bytes, keys: seq<Leaf>, start: nat, end: nat, layer: nat)
    requires start <= end <= |keys|
    ensures var i := SkipLower(keys, start, end, layer);
      var t, items := Build(keys, start, end, layer), BuildItems(keys, i, end, layer);
      && t.Branch?
      && Block(cid, t) == NodeBytes(Node(Ref(cid, Subtree(keys, start, i, layer)), Entries(cid, items, [])))
      && Blocks(cid, t) == Blocks(cid, Subtree(keys, start, i, layer)) + ItemBlocks(cid, items) + [Block(cid, t)]
  {
    hide Ref, Subtree, BuildItems, ItemBlocks, NodeBytes, SkipLower;
  }

  lemma PutOne(cid: bytes -> bytes, m: map<bytes, bytes>, data: bytes)
    ensures PutAll(cid, m, [data]) == m[cid(data) := data]
  {
    assert [data][..0] == [];
    assert PutAll(cid, m, []) == m;
  }

  lemma TaggedAppend(cid: bytes -> bytes, all: seq<(bytes, bytes)>, a: seq<bytes>, b: seq<bytes>)
    ensures all + Tagged(cid, a + b) == all + Tagged(cid, a) + Tagged(cid, b)
    ensures |b| == 1 ==> Tagged(cid, b) == [(cid(b[0]), b[0])]
  {
  }

  // ---- The tree object ----

  lemma ValidKeysFit(m: map<bytes, bytes>)
    requires forall k :: k in m ==> ValidKey(k) && |m[k]| == CID_LEN
    ensures MapSized(m)
  {
  }

  datatype MstError = InvalidKey | KeyExists | KeyNotFound

  class SearchTree {
    var entries: map<bytes, bytes>

    ghost predicate Valid()
      reads this
    {
      forall k :: k in entries ==> ValidKey(k) && |entries[k]| == CID_LEN
    }

    constructor ()
      ensures Valid() && entries == map[]
    {
      entries := map[];
    }

    method Insert(key: bytes, value: bytes) returns (r: Result<(), MstError>)
      requires Valid() && |value| == CID_LEN
      modifies this
      ensures Valid()
      ensures r.Ok? <==> ValidKey(key) && key !in old(entries)
      ensures r.Err? ==> r.error == if ValidKey(key) then KeyExists else InvalidKey
      ensures entries == if r.Ok? then old(entries)[key := value] else old(entries)
    {
      var valid := IsValidKey(key);
      if !valid {
        return Err(InvalidKey);
      }
      if key in entries {
        return Err(KeyExists);
      }
      entries := entries[key := value];
      r := Ok(());
    }

    method Update(key: bytes, value: bytes) returns (r: Result<(), MstError>)
      requires Valid() && |value| == CID_LEN
      modifies this
      ensures Valid()
      ensures r == if key in old(entries) then Ok(()) else Err(KeyNotFound)
      ensures entries == if r.Ok? then old(entries)[key := value] else old(entries)
    {
      if key !in entries {
        return Err(KeyNotFound);
      }
      entries := entries[key := value];
      r := Ok(());
    }

    method Delete(key: bytes) returns (r: Result<bytes, MstError>)
      requires Valid()
      modifies this
      ensures Valid()
      ensures r == if key in old(entries) then Ok(old(entries)[key]) else Err(KeyNotFound)
      ensures entries == old(entries) - {key}
    {
      if key in entries {
        r := Ok(entries[key]);
        entries := entries - {key};
      } else {
        r := Err(KeyNotFound);
      }
    }

    /**
     * Stores the tree of the entries. The root, with the stored blocks, gives every key back at its level;
     * the old content of the store plays no part.
     */
    method WriteToStore(store: BlockStore, layer: bytes -> nat) returns (root: bytes, all: seq<(bytes, bytes)>)
      requires Valid()
      modifies store
      ensures root == Root(store.cid, entries, layer)
      ensures store.blocks == PutAll(store.cid, old(store.blocks), Blocks(store.cid, TreeOf(entries, layer)))
      ensures all == Tagged(store.cid, Blocks(store.cid, TreeOf(entries, layer)))
      ensures MapSized(entries)
    {
      hide PutAll, Block, Blocks, Build, Sorted, MaxLayer, Tagged, NodeBytes;
      ValidKeysFit(entries);
      if entries == map[] {
        var data := EncodeNode(Node(None, []));
        EmptyTree(store.cid, layer);
        PutOne(store.cid, store.blocks, data);
        TaggedAppend(store.cid, [], [], [data]);
        root := store.Put(data);
        all := [(root, data)];
        return;
      }
      var keys := Leaves(entries, SortedKeys(entries.Keys), layer);
      SortedLeaves(entries, layer);
      var top := TopLayer(keys);
      root, all := BuildSubtree(store, keys, 0, |keys|, top, []);
    }

    /** The entries whose keys the other tree does not have, in key order. */
    method MissingFrom(other: SearchTree) returns (missing: seq<(bytes, bytes)>)
      ensures missing == CreatedIn(entries, other.entries, SortedKeys(entries.Keys))
    {
      hide SortedKeys;
      missing := [];
      var keys := SortedKeys(entries.Keys);
      var i := 0;
      while i < |keys|
        invariant 0 <= i <= |keys|
        invariant missing == CreatedIn(entries, other.entries, keys[..i])
      {
        assert keys[..i + 1][..i] == keys[..i];
        if keys[i] !in other.entries {
          missing := missing + [(keys[i], entries[keys[i]])];
        }
        i := i + 1;
      }
      assert keys[..i] == keys;
    }

    method DiffFrom(other: SearchTree) returns (d: Diff)
      ensures d == DiffOf(entries, other.entries)
    {
      hide SortedKeys;
      var created: seq<(bytes, bytes)> := [];
      var updated: seq<Change> := [];
      var keys := SortedKeys(entries.Keys);
      var i := 0;
      while i < |keys|
        invariant 0 <= i <= |keys|
        invariant created == CreatedIn(entries, other.entries, keys[..i])
        invariant updated == UpdatedIn(entries, other.entries, keys[..i])
      {
        var k := keys[i];
        assert keys[..i + 1][..i] == keys[..i];
        if k !in other.entries {
          created := created + [(k, entries[k])];
        } else if other.entries[k] != entries[k] {
          updated := updated + [Change(k, other.entries[k], entries[k])];
        }
        i := i + 1;
      }
      assert keys[..i] == keys;
      var deleted := other.MissingFrom(this);
      d := Diff(created, updated, deleted);
    }
  }

  method TopLayer(keys: seq<Leaf>) returns (top: nat)
    ensures top == MaxLayer(keys)
  {
    hide MaxLayer;
    top := 0;
    var i := 0;
    while i < |keys|
      invariant 0 <= i <= |keys|
      invariant top <= MaxLayer(keys)
      invariant forall k :: 0 <= k < i ==> keys[k].layer <= top
    {
      if top < keys[i].layer {
        top := keys[i].layer;
      }
      i := i + 1;
    }
    NoLayers();
  }

  lemma NoLayers()
    ensures MaxLayer([]) == 0
  {
  }

  lemma EmptyTree(cid: bytes -> bytes, layer: bytes -> nat)
    ensures TreeOf(map[], layer) == Branch(Empty, Nil)
    ensures Block(cid, Branch(Empty, Nil)) == NodeBytes(Node(None, []))
    ensures Blocks(cid, Branch(Empty, Nil)) == [NodeBytes(Node(None, []))]
  {
    hide NodeBytes;
    var m: map<bytes, bytes> := map[];
    assert SortedKeys(m.Keys) == [] by {
      if SortedKeys(m.Keys) != [] {
        assert SortedKeys(m.Keys)[0] in SortedKeys(m.Keys);
      }
    }
  }

  lemma SortedLeaves(m: map<bytes, bytes>, layer: bytes -> nat)
    ensures Leaves(m, SortedKeys(m.Keys), layer) == Sorted(m, layer)
    ensures m != map[] ==> Sorted(m, layer) != []
  {
    if m != map[] {
      var k :| k in m;
      assert k in SortedKeys(m.Keys);
    }
  }

  /**
   * Whatever was in the store, after writing a map into it the walk from the root lists exactly that map,
   * provided no two blocks of its tree collide and each of its nodes has fewer than 2^16 entries;
   * with a wider node the walk fails.
   */
  lemma {:induction false} WrittenTreeIsReadable(cid: bytes -> bytes, utf8: bytes -> bool, before: map<bytes, bytes>,
      m: map<bytes, bytes>, layer: bytes -> nat, depth: nat, s: set<bytes>)
    requires FixedLength(cid) && Letters(utf8) && MapSized(m) && CollisionFree(cid, s)
    requires forall b :: b in Blocks(cid, TreeOf(m, layer)) ==> b in s
    requires depth > MaxLayer(Sorted(m, layer))
    ensures var after := PutAll(cid, before, Blocks(cid, TreeOf(m, layer)));
      Walk(utf8, after, Some(Root(cid, m, layer)), 0, depth)
      == IfNarrow(Narrow(TreeOf(m, layer)), Listing(m, layer))
  {
    hide FixedLength, Letters, MapSized, CollisionFree, PutAll, Blocks, TreeOf, Walk, Narrow, Listing, Root;
    var bs := Blocks(cid, TreeOf(m, layer));
    PutAllKeeps(cid, before, bs, s);
    StoredTree(cid, PutAll(cid, before, bs), TreeOf(m, layer));
    WalkRecoversMap(cid, utf8, PutAll(cid, before, bs), m, layer, depth);
  }
}
