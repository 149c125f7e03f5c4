/** A repository sent as an archive: what the receiver reads out of it. */
module RepoSync {
  import opened Bytes
  import opened Graph
  import opened MstNode
  import opened Mst
  import opened MstCommitment
  import Lex
  import opened Car
  import opened Export

  /** The answer to a sync request: the archive, and the blocks in it. */
  method GetRepo(repo: Repo, commit: CarBlock, older: Option<bytes>) returns (car: bytes, blocks: seq<CarBlock>)
    requires Separated(repo) && RootSeparated(repo, RootOf(repo.utf8, Some(commit.data))) && commit.cid !in repo.nodes
    ensures Delivers(repo, commit, RootOf(repo.utf8, Some(commit.data)), RootOf(repo.utf8, older), blocks)
    ensures car == CarBytes(Some(commit.cid), blocks)
  {
    blocks := ExportRepo(repo, commit, older);
    car := EncodeCar(Some(commit.cid), blocks);
  }

  // ---- The receiver's blocks ----

  function Archive(bs: seq<CarBlock>): map<bytes, bytes> {
    if bs == [] then map[] else Archive(bs[..|bs| - 1])[bs[|bs| - 1].cid := bs[|bs| - 1].data]
  }

  lemma {:induction false} ArchiveHolds(bs: seq<CarBlock>)
    requires forall i, j :: 0 <= i < j < |bs| ==> bs[i].cid != bs[j].cid
    ensures forall b :: b in bs ==> b.cid in Archive(bs) && Archive(bs)[b.cid] == b.data
    decreases |bs|
  {
    if bs != [] {
      var front, last := bs[..|bs| - 1], bs[|bs| - 1];
      ArchiveHolds(front);
      assert bs == front + [last];
    }
  }

  // ---- The tree of a map travels whole ----

  /** A subtree that the walk gets to is in the tree of the root. */
  ghost predicate Under(repo: Repo, root: bytes, ref: Option<bytes>) {
    ref.Some? ==> Reachable(LinkMap(repo), {root}, ref.value)
  }

  ghost predicate EntriesUnder(repo: Repo, root: bytes, es: seq<Entry>) {
    forall e :: e in es ==> Under(repo, root, e.tree) && Under(repo, root, Some(e.value))
  }

  lemma NodeUnder(repo: Repo, root: bytes, c: bytes, node: Node)
    requires c in repo.nodes && ReadNode(repo.utf8, repo.nodes[c]) == Ok(node) && WellFormed(node)
    requires Reachable(LinkMap(repo), {root}, c)
    ensures Under(repo, root, node.left) && EntriesUnder(repo, root, node.entries)
  {
    hide ReadNode, Reachable;
    var g := LinkMap(repo);
    assert g(c) == Subtrees(node.left) + EntryLinks(node.entries);
    if node.left.Some? {
      assert node.left.value in Subtrees(node.left);
      StepReachable(g, {root}, c, node.left.value);
    }
    forall e | e in node.entries
      ensures Under(repo, root, e.tree) && Under(repo, root, Some(e.value))
    {
      var i :| 0 <= i < |node.entries| && node.entries[i] == e;
      EntryLinkHere(node.entries, i);
      StepReachable(g, {root}, c, e.value);
      if e.tree.Some? {
        assert e.tree.value in Subtrees(e.tree);
        StepReachable(g, {root}, c, e.tree.value);
      }
    }
  }

  /** The archive has the nodes of the tree of `root`, unchanged. */
  ghost predicate HasNodes(repo: Repo, root: bytes, archive: map<bytes, bytes>) {
    forall c :: c in repo.nodes && Reachable(LinkMap(repo), {root}, c) ==> c in archive && archive[c] == repo.nodes[c]
  }

  lemma {:induction false} TreeTravels(cid: bytes -> bytes, repo: Repo, root: bytes, archive: map<bytes, bytes>,
                                       t: Tree, level: int)
    requires FixedLength(cid) && Letters(repo.utf8) && Sized(t) && Stored(cid, repo.nodes, t)
    requires HasNodes(repo, root, archive) && Under(repo, root, Ref(cid, t))
    ensures Stored(cid, archive, t)
    ensures Narrow(t) ==> forall p :: p in InOrder(t, level) ==> Under(repo, root, Some(p.value))
    decreases t
  {
    hide NodeBytes, ReadNode, WellFormedEntry, FixedLength, Reachable;
    match t
    case Empty =>
    case Branch(left, items) =>
      var node := Node(Ref(cid, left), Entries(cid, items, []));
      EntriesFit(cid, items, []);
      RefFits(cid, left);
      NodeRoundTrip(repo.utf8, node);
      if Width(items) < 0x1_0000 {
        NodeUnder(repo, root, cid(Block(cid, t)), node);
        TreeTravels(cid, repo, root, archive, left, level + 1);
        ItemsTravel(cid, repo, root, archive, items, [], level);
      }
  }

  lemma {:induction false} ItemsTravel(cid: bytes -> bytes, repo: Repo, root: bytes, archive: map<bytes, bytes>,
                                       items: Items, prev: bytes, level: int)
    requires FixedLength(cid) && Letters(repo.utf8) && ItemsSized(items) && ItemsStored(cid, repo.nodes, items)
    requires HasNodes(repo, root, archive) && EntriesUnder(repo, root, Entries(cid, items, prev))
    ensures ItemsStored(cid, archive, items)
    ensures ItemsNarrow(items) ==> forall p :: p in ItemsInOrder(items, level) ==> Under(repo, root, Some(p.value))
    decreases items
  {
    hide FixedLength, Reachable, HasNodes;
    match items
    case Nil =>
    case Cons(key, value, right, rest) =>
      var es := Entries(cid, items, prev);
      assert es[0] in es && es == [es[0]] + Entries(cid, rest, key);
      TreeTravels(cid, repo, root, archive, right, level + 1);
      ItemsTravel(cid, repo, root, archive, rest, key, level);
  }

  /** The blocks of a full export, as the receiver stores them. */
  lemma ExportHasNodes(repo: Repo, commit: CarBlock, root: bytes, blocks: seq<CarBlock>)
    requires |root| == CID_LEN && commit.cid !in repo.nodes && Delivers(repo, commit, Some(root), None, blocks)
    ensures HasNodes(repo, root, Archive(blocks))
    ensures commit.cid in Archive(blocks) && Archive(blocks)[commit.cid] == commit.data
    ensures forall c ::
              (c in repo.records && c !in repo.nodes && c != commit.cid && Reachable(LinkMap(repo), {root}, c))
              ==> c in Archive(blocks) && Archive(blocks)[c] == repo.records[c]
  {
    hide Reachable, Archive;
    ArchiveHolds(blocks);
    var all := WithCommit(repo, commit);
    assert InExport(repo, commit.cid, Some(root), commit.cid) && !InOptionalTree(repo, None, commit.cid);
    forall c | Has(repo, c) && Reachable(LinkMap(repo), {root}, c)
      ensures CarBlock(c, Content(all, c)) in blocks
    {
      assert InExport(repo, commit.cid, Some(root), c) && !InOptionalTree(repo, None, c);
    }
  }

  // ---- From map to map ----

  /** What a server holds of a map: its tree under node tags, its records, and a commit that names the root. */
  ghost predicate Published(cid: bytes -> bytes, repo: Repo, m: map<bytes, bytes>, layer: bytes -> nat,
                            commit: CarBlock) {
    && Stored(cid, repo.nodes, TreeOf(m, layer)) && commit.cid !in repo.nodes
    && (forall k :: k in m ==> m[k] in repo.records && m[k] !in repo.nodes && m[k] != commit.cid)
    && RootOf(repo.utf8, Some(commit.data)) == Some(Root(cid, m, layer))
  }

  /** Every block that can be sent can be read back. */
  ghost predicate Sendable(repo: Repo, commit: CarBlock) {
    && Readable(commit) && |commit.cid| < 255
    && (forall c :: c in repo.nodes ==> Readable(CarBlock(c, repo.nodes[c])))
    && (forall c :: c in repo.records ==> Readable(CarBlock(c, repo.records[c])))
  }

  /** What the receiver has in the end: the map, level by level, and the content of every record. */
  ghost predicate Received(repo: Repo, m: map<bytes, bytes>, layer: bytes -> nat, depth: nat, head: bytes,
                           blocks: seq<CarBlock>) {
    var archive := Archive(blocks);
    && head in archive
    && Walk(repo.utf8, archive, RootOf(repo.utf8, Some(archive[head])), 0, depth) == Some(Listing(m, layer))
    && forall k :: k in m ==> m[k] in archive && m[k] in repo.records && archive[m[k]] == repo.records[m[k]]
  }

  /** A full export is an archive that decodes, and from its head alone the receiver rebuilds the map, if no node has
      2^16 entries; otherwise the walk from the root fails. */
  lemma SyncRecoversMap(cid: bytes -> bytes, repo: Repo, m: map<bytes, bytes>, layer: bytes -> nat, commit: CarBlock,
                        blocks: seq<CarBlock>, depth: nat)
    requires FixedLength(cid) && Letters(repo.utf8) && repo.utf8(ROOTS) && repo.utf8(VERSION)
    requires MapSized(m) && depth > MaxLayer(Sorted(m, layer))
    requires Published(cid, repo, m, layer, commit) && Sendable(repo, commit)
    requires Delivers(repo, commit, RootOf(repo.utf8, Some(commit.data)), None, blocks)
    ensures ReadCar(repo.utf8, CarBytes(Some(commit.cid), blocks)) == Ok(([commit.cid], blocks))
    ensures Narrow(TreeOf(m, layer)) <==> Received(repo, m, layer, depth, commit.cid, blocks)
  {
    hide FixedLength, Letters, MapSized, Stored, Delivers, TreeOf, Sorted, MaxLayer, Walk, Narrow, Archive, CarBytes;
    hide ReadCar, Reachable, Listing, Sendable, Block;
    var root, t := Root(cid, m, layer), TreeOf(m, layer);
    RootIsRef(cid, m, layer);
    ExportHasNodes(repo, commit, root, blocks);
    TreeOfFits(m, layer);
    RootReachable(LinkMap(repo), {root}, root);
    TreeTravels(cid, repo, root, Archive(blocks), t, 0);
    WalkRecoversMap(cid, repo.utf8, Archive(blocks), m, layer, depth);
    ListingIsInOrder(m, layer);
    if Narrow(t) {
      forall k | k in m
        ensures m[k] in Archive(blocks) && Archive(blocks)[m[k]] == repo.records[m[k]]
      {
        var p := Listed(m, layer, k);
        assert Under(repo, root, Some(p.value));
      }
    }
    AllReadable(repo, commit, Some(root), blocks);
    HeaderFits(commit.cid);
    CarRoundTrip(repo.utf8, Some(commit.cid), blocks);
  }

  lemma RootIsRef(cid: bytes -> bytes, m: map<bytes, bytes>, layer: bytes -> nat)
    requires FixedLength(cid)
    ensures Ref(cid, TreeOf(m, layer)) == Some(Root(cid, m, layer)) && |Root(cid, m, layer)| == CID_LEN
  {
    hide Block, Build, Sorted, MaxLayer;
    TreeOfIsBranch(m, layer);
  }

  lemma ListingIsInOrder(m: map<bytes, bytes>, layer: bytes -> nat)
    ensures InOrder(TreeOf(m, layer), 0) == Listing(m, layer)
  {
    hide Build, Expected, InOrder, Sorted;
    var keys := Sorted(m, layer);
    BuildPlaces(keys, 0, |keys|, MaxLayer(keys), 0);
  }

  /** Every record of the map stands in its listing. */
  lemma Listed(m: map<bytes, bytes>, layer: bytes -> nat, k: bytes) returns (p: Placed)
    requires k in m
    ensures p in Listing(m, layer) && p.value == m[k]
  {
    hide Listing;
    var keys := Lex.SortedKeys(m.Keys);
    assert k in keys;
    var i :| 0 <= i < |keys| && keys[i] == k;
    ListingAt(m, layer, i);
    p := Listing(m, layer)[i];
  }

  lemma AllReadable(repo: Repo, commit: CarBlock, root: Option<bytes>, blocks: seq<CarBlock>)
    requires Sendable(repo, commit) && Delivers(repo, commit, root, None, blocks)
    ensures |commit.cid| < 255 && forall b :: b in blocks ==> Readable(b) && |b.cid| + |b.data| < TWO64
  {
    hide WellFormedCid, InOptionalTree;
    forall b | b in blocks
      ensures Readable(b)
    {
      assert b == CarBlock(b.cid, Content(WithCommit(repo, commit), b.cid));
    }
  }

  lemma HeaderFits(cid: bytes)
    requires |cid| < 255
    ensures |HeaderBytes(Some(cid))| < TWO64 && ShortRoot(Some(cid)) && RootList(Some(cid)) == [cid]
  {
  }
}
