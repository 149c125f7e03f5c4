/** Repository export: the walk that excludes an older tree and the walk that collects blocks. */
module Export {
  import opened Bytes
  import opened Graph
  import opened MstNode
  import opened Car
  import opened CommitCodec

  /** What the bridge tags of a namespace give: node blocks and record blocks by content identifier. */
  datatype Repo = Repo(nodes: map<bytes, bytes>, records: map<bytes, bytes>, utf8: bytes -> bool)

  // ---- The links of a node ----

  function Subtrees(ref: Option<bytes>): seq<bytes> {
    match ref
    case None => []
    case Some(c) => if |c| == CID_LEN then [c] else []
  }

  function EntryLinks(es: seq<Entry>): seq<bytes> {
    if es == [] then []
    else EntryLinks(es[..|es| - 1]) + ([es[|es| - 1].value] + Subtrees(es[|es| - 1].tree))
  }

  /** The subtrees and records that a node names; none for an identifier without a readable node. */
  function Links(repo: Repo, c: bytes): seq<bytes> {
    if c !in repo.nodes then [] else
      match ReadNode(repo.utf8, repo.nodes[c])
      case Err(_) => []
      case Ok(node) => Subtrees(node.left) + EntryLinks(node.entries)
  }

  function LinkMap(repo: Repo): Successors {
    c => Links(repo, c)
  }

  /** The identifiers of the tree under `root`: its nodes and the records they name. */
  ghost predicate InTree(repo: Repo, root: bytes, c: bytes) {
    |root| == CID_LEN && Reachable(LinkMap(repo), {root}, c)
  }

  predicate Has(repo: Repo, c: bytes) {
    c in repo.nodes || c in repo.records
  }

  /** No identifier is tagged as a node and named as a record, or tagged as a record and named as a subtree. */
  ghost predicate Separated(repo: Repo) {
    forall c :: c in repo.nodes && ReadNode(repo.utf8, repo.nodes[c]).Ok? ==>
      NodeSeparated(repo, ReadNode(repo.utf8, repo.nodes[c]).value)
  }

  ghost predicate NodeSeparated(repo: Repo, node: Node) {
    && (forall d :: d in Subtrees(node.left) ==> d !in repo.records)
    && (forall e :: e in node.entries ==> e.value !in repo.nodes)
    && (forall e, d :: e in node.entries && d in Subtrees(e.tree) ==> d !in repo.records)
  }

  // ---- What a walk from `c` does to the visited set ----

  /** Which links a walk must follow: a full walk all of them, the collecting walk those the repository has. */
  predicate Followed(repo: Repo, full: bool, c: bytes) {
    full || Has(repo, c)
  }

  /** Everything new lies under `c`, and whatever a new identifier links to has been visited too. */
  ghost predicate Walked(repo: Repo, full: bool, c: bytes, before: set<bytes>, after: set<bytes>) {
    && before <= after
    && (|c| == CID_LEN ==> c in after)
    && (forall d :: d in after - before ==> InTree(repo, c, d))
    && (forall d, e :: d in after - before && e in Links(repo, d) && Followed(repo, full, e) ==> e in after)
  }

  /** The same while the links of `c` itself are being followed; `done` lists those already visited. */
  ghost predicate Walking(repo: Repo, full: bool, c: bytes, before: set<bytes>, now: set<bytes>, done: seq<bytes>) {
    && before + {c} <= now
    && (forall d :: d in now - before ==> InTree(repo, c, d))
    && (forall d, e :: d in now - before && d != c && e in Links(repo, d) && Followed(repo, full, e) ==> e in now)
    && (forall d :: d in done && Followed(repo, full, d) ==> d in now)
  }

  lemma StartWalking(repo: Repo, full: bool, c: bytes, before: set<bytes>)
    requires |c| == CID_LEN
    ensures Walking(repo, full, c, before, before + {c}, [])
  {
    RootReachable(LinkMap(repo), {c}, c);
  }

  lemma DoneWalking(repo: Repo, full: bool, c: bytes, before: set<bytes>, now: set<bytes>)
    requires Walking(repo, full, c, before, now, Links(repo, c))
    ensures Walked(repo, full, c, before, now)
  {
  }

  lemma WalkedSubtree(repo: Repo, full: bool, c: bytes, ref: bytes, before: set<bytes>, now: set<bytes>,
      done: seq<bytes>, last: set<bytes>)
    requires |c| == CID_LEN && Walking(repo, full, c, before, now, done) && Walked(repo, full, ref, now, last)
    requires |ref| == CID_LEN ==> ref in Links(repo, c)
    ensures Walking(repo, full, c, before, last, done + Subtrees(Some(ref)))
  {
    hide Links, Reachable;
    forall d | d in last - before
      ensures InTree(repo, c, d)
    {
      if d !in now {
        assert d in last - now;
        assert InTree(repo, ref, d);
        ViaSuccessor(LinkMap(repo), c, ref, d);
      }
    }
  }

  lemma PassedRecord(repo: Repo, c: bytes, value: bytes, before: set<bytes>, now: set<bytes>, done: seq<bytes>)
    requires Walking(repo, false, c, before, now, done) && !Has(repo, value)
    ensures Walking(repo, false, c, before, now, done + [value])
  {
    hide Links, Reachable;
  }

  lemma {:induction false} VisitedRecord(repo: Repo, full: bool, c: bytes, value: bytes, before: set<bytes>,
      now: set<bytes>, done: seq<bytes>)
    requires |c| == CID_LEN && Walking(repo, full, c, before, now, done)
    requires value in Links(repo, c) && value !in repo.nodes
    ensures Walking(repo, full, c, before, now + {value}, done + [value])
  {
    RootReachable(LinkMap(repo), {value}, value);
    ViaSuccessor(LinkMap(repo), c, value, value);
  }

  lemma LinkHere(repo: Repo, c: bytes, node: Node, i: nat)
    requires c in repo.nodes && ReadNode(repo.utf8, repo.nodes[c]) == Ok(node) && i < |node.entries|
    ensures node.entries[i].value in Links(repo, c)
    ensures forall t :: t in Subtrees(node.entries[i].tree) ==> t in Links(repo, c)
    ensures EntryLinks(node.entries[..i + 1])
         == EntryLinks(node.entries[..i]) + ([node.entries[i].value] + Subtrees(node.entries[i].tree))
  {
    hide ReadNode;
    assert node.entries[..i + 1][..i] == node.entries[..i];
    EntryLinkHere(node.entries, i);
  }

  lemma {:induction false} EntryLinkHere(es: seq<Entry>, i: nat)
    requires i < |es|
    ensures es[i].value in EntryLinks(es)
    ensures forall t :: t in Subtrees(es[i].tree) ==> t in EntryLinks(es)
    decreases |es|
  {
    if i < |es| - 1 {
      EntryLinkHere(es[..|es| - 1], i);
    }
  }

  lemma SmallerRest(nodes: set<bytes>, visited: set<bytes>, c: bytes, later: set<bytes>)
    requires c in nodes && c !in visited && visited + {c} <= later
    ensures |nodes - later| < |nodes - visited|
  {
    var a, b := nodes - later, nodes - visited;
    assert c in b && c !in a && a <= b;
    assert b == a + (b - a) && c in b - a;
  }

  // ---- The exclusion walk ----

  method WalkCids(repo: Repo, c: bytes, visited: set<bytes>) returns (after: set<bytes>)
    requires Separated(repo)
    ensures Walked(repo, true, c, visited, after)
    decreases |repo.nodes.Keys - visited|
  {
    hide Links, InTree, ReadNode, EntryLinks, Walked, Walking;
    after := visited;
    if |c| != CID_LEN || c in visited {
      NothingWalked(repo, true, c, visited);
      return;
    }
    after := after + {c};
    StartWalking(repo, true, c, visited);
    if c !in repo.nodes {
      NoLinks(repo, c);
      DoneWalking(repo, true, c, visited, after);
      return;
    }
    var r := DecodeNode(repo.utf8, repo.nodes[c]);
    if r.Err? {
      NoLinks(repo, c);
      DoneWalking(repo, true, c, visited, after);
      return;
    }
    var node := r.value;
    NodeLinks(repo, c, node);
    if node.left.Some? {
      ghost var now := after;
      SmallerRest(repo.nodes.Keys, visited, c, after);
      after := WalkCids(repo, node.left.value, after);
      WalkedSubtree(repo, true, c, node.left.value, visited, now, [], after);
      WalkedGrows(repo, true, node.left.value, now, after);
      assert [] + Subtrees(node.left) == Subtrees(node.left);
    }
    after := WalkEntries(repo, c, node, visited, after);
    DoneWalking(repo, true, c, visited, after);
  }

  method WalkEntries(repo: Repo, c: bytes, node: Node, ghost visited: set<bytes>, now: set<bytes>)
    returns (after: set<bytes>)
    requires Separated(repo) && c in repo.nodes && ReadNode(repo.utf8, repo.nodes[c]) == Ok(node)
    requires c !in visited && |c| == CID_LEN && visited + {c} <= now
    requires Walking(repo, true, c, visited, now, Subtrees(node.left))
    ensures Walking(repo, true, c, visited, after, Links(repo, c))
    decreases |repo.nodes.Keys - visited|, 0
  {
    hide Links, InTree, ReadNode, EntryLinks, Walked, Walking, Subtrees;
    after := now;
    NodeLinks(repo, c, node);
    assert Subtrees(node.left) + EntryLinks(node.entries[..0]) == Subtrees(node.left);
    for i := 0 to |node.entries|
      invariant visited + {c} <= after
      invariant Walking(repo, true, c, visited, after, Subtrees(node.left) + EntryLinks(node.entries[..i]))
    {
      var e := node.entries[i];
      ghost var done := Subtrees(node.left) + EntryLinks(node.entries[..i]);
      LinkHere(repo, c, node, i);
      SeparatedNode(repo, c, node);
      VisitedRecord(repo, true, c, e.value, visited, after, done);
      after := after + {e.value};
      if e.tree.Some? {
        ghost var step := after;
        SmallerRest(repo.nodes.Keys, visited, c, after);
        after := WalkCids(repo, e.tree.value, after);
        OneSubtree(e.tree.value);
        WalkedSubtree(repo, true, c, e.tree.value, visited, step, done + [e.value], after);
        WalkedGrows(repo, true, e.tree.value, step, after);
      } else {
        NoSubtree();
      }
      Regrouped(done, e.value, Subtrees(e.tree));
      Associate(Subtrees(node.left), EntryLinks(node.entries[..i]), [e.value] + Subtrees(e.tree));
    }
    assert node.entries[..|node.entries|] == node.entries;
  }

  lemma OneSubtree(ref: bytes)
    ensures |ref| == CID_LEN ==> ref in Subtrees(Some(ref))
  {
  }

  lemma NoSubtree()
    ensures Subtrees(None) == []
  {
  }

  lemma NothingWalked(repo: Repo, full: bool, c: bytes, visited: set<bytes>)
    requires |c| != CID_LEN || c in visited
    ensures Walked(repo, full, c, visited, visited)
  {
  }

  lemma NoLinks(repo: Repo, c: bytes)
    requires c !in repo.nodes || ReadNode(repo.utf8, repo.nodes[c]).Err?
    ensures Links(repo, c) == []
  {
  }

  lemma NodeLinks(repo: Repo, c: bytes, node: Node)
    requires c in repo.nodes && ReadNode(repo.utf8, repo.nodes[c]) == Ok(node)
    ensures Links(repo, c) == Subtrees(node.left) + EntryLinks(node.entries)
    ensures EntryLinks(node.entries[..0]) == []
  {
    hide ReadNode;
  }

  lemma SeparatedNode(repo: Repo, c: bytes, node: Node)
    requires Separated(repo) && c in repo.nodes && ReadNode(repo.utf8, repo.nodes[c]) == Ok(node)
    ensures NodeSeparated(repo, node)
  {
    hide ReadNode;
  }

  lemma WalkedGrows(repo: Repo, full: bool, c: bytes, before: set<bytes>, after: set<bytes>)
    requires Walked(repo, full, c, before, after)
    ensures before <= after
  {
  }

  lemma Regrouped(a: seq<bytes>, b: bytes, c: seq<bytes>)
    ensures (a + [b]) + c == a + ([b] + c)
    ensures c == [] ==> a + [b] == a + ([b] + c)
  {
  }

  // ---- The collecting walk ----

  function Content(repo: Repo, c: bytes): bytes {
    if c in repo.nodes then repo.nodes[c] else if c in repo.records then repo.records[c] else []
  }

  /** The blocks of the identifiers in `s` that the repository has, each once, with their content. */
  ghost predicate Lists(repo: Repo, bs: seq<CarBlock>, s: set<bytes>) {
    && (forall b :: b in bs ==> b.cid in s && Has(repo, b.cid) && b.data == Content(repo, b.cid))
    && (forall c :: c in s && Has(repo, c) ==> CarBlock(c, Content(repo, c)) in bs)
    && (forall i, j :: 0 <= i < j < |bs| ==> bs[i].cid != bs[j].cid)
  }

  lemma ListsOne(repo: Repo, bs: seq<CarBlock>, s: set<bytes>, c: bytes)
    requires Lists(repo, bs, s) && c !in s
    ensures Has(repo, c) ==> Lists(repo, bs + [CarBlock(c, Content(repo, c))], s + {c})
    ensures !Has(repo, c) ==> Lists(repo, bs, s + {c})
  {
  }

  lemma ListsMore(repo: Repo, bs: seq<CarBlock>, s: set<bytes>, more: seq<CarBlock>, t: set<bytes>)
    requires Lists(repo, bs, s) && Lists(repo, more, t) && s !! t
    ensures Lists(repo, bs + more, s + t)
  {
    var all := bs + more;
    forall i, j | 0 <= i < j < |all|
      ensures all[i].cid != all[j].cid
    {
      if i < |bs| <= j {
        assert all[i] in bs && all[j] in more;
      }
    }
  }

  method WalkNode(repo: Repo, c: bytes, blocks: seq<CarBlock>, visited: set<bytes>)
    returns (out: seq<CarBlock>, after: set<bytes>, ghost added: seq<CarBlock>)
    requires Separated(repo) && (|c| == CID_LEN ==> c !in repo.records || c in repo.nodes)
    ensures Walked(repo, false, c, visited, after)
    ensures out == blocks + added && Lists(repo, added, after - visited)
    decreases |repo.nodes.Keys - visited|
  {
    hide Links, InTree, ReadNode, EntryLinks, Walked, Walking, Lists, Separated;
    out, after, added := blocks, visited, [];
    NoneListed(repo, visited);
    if |c| != CID_LEN || c in visited {
      NothingWalked(repo, false, c, visited);
      return;
    }
    after := after + {c};
    StartWalking(repo, false, c, visited);
    ListsOne(repo, added, {}, c);
    assert after - visited == {} + {c};
    if c !in repo.nodes {
      NoLinks(repo, c);
      DoneWalking(repo, false, c, visited, after);
      return;
    }
    out := out + [CarBlock(c, repo.nodes[c])];
    added := added + [CarBlock(c, repo.nodes[c])];
    var r := DecodeNode(repo.utf8, repo.nodes[c]);
    if r.Err? {
      NoLinks(repo, c);
      DoneWalking(repo, false, c, visited, after);
      return;
    }
    var node := r.value;
    NodeLinks(repo, c, node);
    SeparatedNode(repo, c, node);
    if node.left.Some? {
      out, after, added := Descend(repo, c, node.left.value, out, visited, after, [], blocks, added);
      assert [] + Subtrees(node.left) == Subtrees(node.left);
    }
    out, after, added := CollectEntries(repo, c, node, out, visited, after, blocks, added);
    DoneWalking(repo, false, c, visited, after);
  }

  method CollectEntries(repo: Repo, c: bytes, node: Node, blocks: seq<CarBlock>, ghost visited: set<bytes>,
      now: set<bytes>,
      ghost first: seq<CarBlock>, ghost added: seq<CarBlock>)
    returns (out: seq<CarBlock>, after: set<bytes>, ghost all: seq<CarBlock>)
    requires Separated(repo) && NodeSeparated(repo, node)
    requires c in repo.nodes && ReadNode(repo.utf8, repo.nodes[c]) == Ok(node)
    requires c !in visited && |c| == CID_LEN && Walking(repo, false, c, visited, now, Subtrees(node.left))
    requires visited + {c} <= now && blocks == first + added && Lists(repo, added, now - visited)
    ensures Walking(repo, false, c, visited, after, Links(repo, c))
    ensures out == first + all && Lists(repo, all, after - visited)
    decreases |repo.nodes.Keys - visited|, 2
  {
    hide Links, InTree, ReadNode, EntryLinks, Walking, Lists, Separated, Subtrees;
    out, after, all := blocks, now, added;
    NodeLinks(repo, c, node);
    assert Subtrees(node.left) + EntryLinks(node.entries[..0]) == Subtrees(node.left);
    for i := 0 to |node.entries|
      invariant visited + {c} <= after
      invariant Walking(repo, false, c, visited, after, Subtrees(node.left) + EntryLinks(node.entries[..i]))
      invariant out == first + all && Lists(repo, all, after - visited)
    {
      ghost var done := Subtrees(node.left) + EntryLinks(node.entries[..i]);
      LinkHere(repo, c, node, i);
      assert node.entries[i] in node.entries;
      out, after, all := CollectEntry(repo, c, node.entries[i], out, visited, after, done, first, all);
      Associate(Subtrees(node.left), EntryLinks(node.entries[..i]),
        [node.entries[i].value] + Subtrees(node.entries[i].tree));
    }
    assert node.entries[..|node.entries|] == node.entries;
  }

  /** One turn of the entry loop: the record, then the right subtree. */
  method CollectEntry(repo: Repo, c: bytes, e: Entry, blocks: seq<CarBlock>, ghost visited: set<bytes>, now: set<bytes>,
      ghost done: seq<bytes>, ghost first: seq<CarBlock>, ghost added: seq<CarBlock>)
    returns (out: seq<CarBlock>, after: set<bytes>, ghost all: seq<CarBlock>)
    requires Separated(repo)
    requires e.value in Links(repo, c) && e.value !in repo.nodes
    requires forall d :: d in Subtrees(e.tree) ==> d !in repo.records && d in Links(repo, c)
    requires c in repo.nodes && c !in visited && |c| == CID_LEN && Walking(repo, false, c, visited, now, done)
    requires visited + {c} <= now && blocks == first + added && Lists(repo, added, now - visited)
    ensures Walking(repo, false, c, visited, after, done + ([e.value] + Subtrees(e.tree)))
    ensures visited + {c} <= after && out == first + all && Lists(repo, all, after - visited)
    decreases |repo.nodes.Keys - visited|, 1
  {
    hide Links, InTree, Walked, Walking, Lists, Separated;
    out, after, all := blocks, now, added;
    if e.value in repo.records {
      VisitedRecord(repo, false, c, e.value, visited, now, done);
      if e.value !in after {
        out := out + [CarBlock(e.value, repo.records[e.value])];
        ListsOne(repo, added, now - visited, e.value);
        all := added + [CarBlock(e.value, repo.records[e.value])];
        assert (now + {e.value}) - visited == (now - visited) + {e.value};
        after := now + {e.value};
      }
      assert after == now + {e.value};
    } else {
      PassedRecord(repo, c, e.value, visited, now, done);
    }
    if e.tree.Some? {
      assert |e.tree.value| == CID_LEN ==> e.tree.value in Subtrees(e.tree);
      out, after, all := Descend(repo, c, e.tree.value, out, visited, after, done + [e.value], first, all);
    }
    Regrouped(done, e.value, Subtrees(e.tree));
  }

  /** One recursive call of the collecting walk, made while the links of `c` are being followed. */
  method Descend(repo: Repo, c: bytes, ref: bytes, blocks: seq<CarBlock>, ghost visited: set<bytes>, now: set<bytes>,
      ghost done: seq<bytes>, ghost first: seq<CarBlock>, ghost added: seq<CarBlock>)
    returns (out: seq<CarBlock>, after: set<bytes>, ghost all: seq<CarBlock>)
    requires Separated(repo) && (|ref| == CID_LEN ==> ref !in repo.records && ref in Links(repo, c))
    requires c in repo.nodes && c !in visited && |c| == CID_LEN && Walking(repo, false, c, visited, now, done)
    requires visited + {c} <= now && blocks == first + added && Lists(repo, added, now - visited)
    ensures Walking(repo, false, c, visited, after, done + Subtrees(Some(ref)))
    ensures visited + {c} <= after && out == first + all && Lists(repo, all, after - visited)
    decreases |repo.nodes.Keys - visited|, 0
  {
    hide Links, InTree, Walked, Walking, Lists, Separated;
    SmallerRest(repo.nodes.Keys, visited, c, now);
    ghost var more;
    out, after, more := WalkNode(repo, ref, blocks, now);
    WalkedSubtree(repo, false, c, ref, visited, now, done, after);
    WalkedGrows(repo, false, ref, now, after);
    ListsMore(repo, added, now - visited, more, after - now);
    assert (now - visited) + (after - now) == after - visited;
    all := added + more;
    assert (first + added) + more == first + all;
  }

  lemma NoneListed(repo: Repo, visited: set<bytes>)
    ensures Lists(repo, [], visited - visited) && Lists(repo, [], {})
  {
  }

  // ---- The whole export ----

  /** Whatever a member links to, and the walk follows, is a member. */
  ghost predicate Complete(repo: Repo, full: bool, s: set<bytes>) {
    forall c, d :: c in s && d in Links(repo, c) && Followed(repo, full, d) ==> d in s
  }

  /** Only nodes have links, so a path through the tree leaves what the repository has with its last step at most. */
  lemma {:induction false} PathInside(repo: Repo, full: bool, s: set<bytes>, p: seq<bytes>)
    requires Complete(repo, full, s) && IsPath(LinkMap(repo), p) && p[0] in s && Followed(repo, full, p[|p| - 1])
    ensures p[|p| - 1] in s
    decreases |p|
  {
    hide ReadNode;
    if |p| > 1 {
      var q := p[..|p| - 1];
      assert p == q + [p[|p| - 1]];
      ExtendedPath(LinkMap(repo), q, p[|p| - 1]);
      PathInside(repo, full, s, q);
    }
  }

  /** A walk that starts from a complete set of visited identifiers adds exactly the tree under its root. */
  lemma WholeTree(repo: Repo, full: bool, root: bytes, before: set<bytes>, after: set<bytes>)
    requires Walked(repo, full, root, before, after) && Complete(repo, full, before)
    ensures Complete(repo, full, after)
    ensures forall c :: Followed(repo, full, c) ==> (c in after <==> c in before || InTree(repo, root, c))
  {
    hide Links, Followed;
    forall c | InTree(repo, root, c) && Followed(repo, full, c)
      ensures c in after
    {
      var p :| IsPath(LinkMap(repo), p) && p[0] in {root} && p[|p| - 1] == c;
      PathInside(repo, full, after, p);
    }
  }

  /** The tree of an optional root: a commit without a readable data field has none. */
  ghost predicate InOptionalTree(repo: Repo, root: Option<bytes>, c: bytes) {
    root.Some? && InTree(repo, root.value, c)
  }

  /** The blocks of a full export: the commit and what the repository has of the tree of its root. */
  ghost predicate InExport(repo: Repo, commit: bytes, root: Option<bytes>, c: bytes) {
    c == commit || (Has(repo, c) && InOptionalTree(repo, root, c))
  }

  function WithCommit(repo: Repo, commit: CarBlock): Repo {
    repo.(records := repo.records[commit.cid := commit.data])
  }

  /** The blocks of the commit and its tree that are not in the tree of `since`, each once, with their content. */
  ghost predicate Delivers(repo: Repo, commit: CarBlock, root: Option<bytes>, since: Option<bytes>,
      blocks: seq<CarBlock>) {
    && (forall b :: b in blocks ==> InExport(repo, commit.cid, root, b.cid) && !InOptionalTree(repo, since, b.cid))
    && (forall b :: b in blocks ==> b.data == Content(WithCommit(repo, commit), b.cid))
    && (forall c :: InExport(repo, commit.cid, root, c) && !InOptionalTree(repo, since, c)
          ==> CarBlock(c, Content(WithCommit(repo, commit), c)) in blocks)
    && (forall i, j :: 0 <= i < j < |blocks| ==> blocks[i].cid != blocks[j].cid)
  }

  /** The root of an optional tree may not be tagged as a record only. */
  predicate RootSeparated(repo: Repo, root: Option<bytes>) {
    root.Some? && |root.value| == CID_LEN ==> root.value !in repo.records || root.value in repo.nodes
  }

  function RootOf(utf8: bytes -> bool, commit: Option<bytes>): Option<bytes> {
    if commit.Some? then DataCid(utf8, commit.value) else None
  }

  /**
   * The export of a commit: its block and the tree of its root, except what the tree of the older commit holds.
   * Every block comes once, with its content.
   */
  method ExportRepo(repo: Repo, commit: CarBlock, older: Option<bytes>) returns (blocks: seq<CarBlock>)
    requires Separated(repo) && RootSeparated(repo, DataCid(repo.utf8, commit.data)) && commit.cid !in repo.nodes
    ensures Delivers(repo, commit, DataCid(repo.utf8, commit.data), RootOf(repo.utf8, older), blocks)
  {
    hide Links, Walked, InTree, Lists, Separated, Complete, DataCid;
    var visited: set<bytes> := {};
    NothingComplete(repo);
    if older.Some? {
      var since := ParseDataCid(repo.utf8, older.value);
      if since.Some? {
        visited := WalkCids(repo, since.value, visited);
        WholeTree(repo, true, since.value, {}, visited);
      }
    }
    ghost var excluded := visited;
    ghost var cids: set<bytes> := {};
    blocks := [];
    NoneListed(WithCommit(repo, commit), {});
    if commit.cid !in visited {
      ListsOne(WithCommit(repo, commit), [], {}, commit.cid);
      visited := visited + {commit.cid};
      blocks := blocks + [commit];
      cids := cids + {commit.cid};
    }
    CommitLinksNothing(repo, commit.cid, excluded);
    assert visited == excluded + {commit.cid};
    var root := ParseDataCid(repo.utf8, commit.data);
    if root.Some? {
      ghost var before, added := visited, [];
      blocks, visited, added := WalkNode(repo, root.value, blocks, visited);
      WholeTree(repo, false, root.value, before, visited);
      ListsWithCommit(repo, commit, added, visited - before);
      ListsMore(WithCommit(repo, commit), blocks[..|blocks| - |added|], cids, added, visited - before);
      assert blocks[..|blocks| - |added|] + added == blocks;
      cids := cids + (visited - before);
    }
    ListsDelivers(repo, commit, root, RootOf(repo.utf8, older), blocks, cids);
  }

  lemma ListsDelivers(repo: Repo, commit: CarBlock, root: Option<bytes>, since: Option<bytes>,
      blocks: seq<CarBlock>, cids: set<bytes>)
    requires Lists(WithCommit(repo, commit), blocks, cids)
    requires forall c :: Has(WithCommit(repo, commit), c) ==>
               (c in cids <==> InExport(repo, commit.cid, root, c) && !InOptionalTree(repo, since, c))
    ensures Delivers(repo, commit, root, since, blocks)
  {
    hide InOptionalTree, Content;
  }

  lemma NothingComplete(repo: Repo)
    ensures Complete(repo, true, {})
  {
  }

  lemma CommitLinksNothing(repo: Repo, commit: bytes, excluded: set<bytes>)
    requires commit !in repo.nodes && Complete(repo, true, excluded)
    ensures Complete(repo, false, excluded + {commit})
  {
  }

  lemma ListsWithCommit(repo: Repo, commit: CarBlock, bs: seq<CarBlock>, s: set<bytes>)
    requires Lists(repo, bs, s) && commit.cid !in s
    ensures Lists(WithCommit(repo, commit), bs, s)
  {
  }

  /**
   * The incremental export is the full one without the blocks of the older tree, in both directions,
   * so whoever holds the older tree's blocks has every block of the new repository.
   */
  lemma IncrementalExport(repo: Repo, commit: CarBlock, root: Option<bytes>, since: Option<bytes>,
      full: seq<CarBlock>, delta: seq<CarBlock>, held: seq<CarBlock>)
    requires Delivers(repo, commit, root, None, full) && Delivers(repo, commit, root, since, delta)
    requires forall c :: InOptionalTree(repo, since, c) && Has(WithCommit(repo, commit), c) ==>
               CarBlock(c, Content(WithCommit(repo, commit), c)) in held
    ensures forall b :: b in delta <==> b in full && !InOptionalTree(repo, since, b.cid)
    ensures forall b :: b in full ==> b in held || b in delta
  {
    hide InTree, Content;
    forall b | b in delta
      ensures b in full
    {
      assert b == CarBlock(b.cid, b.data) && !InOptionalTree(repo, None, b.cid);
    }
    forall b | b in full
      ensures InOptionalTree(repo, since, b.cid) || b in delta
      ensures InOptionalTree(repo, since, b.cid) ==> b in held
    {
      assert b == CarBlock(b.cid, b.data);
    }
  }
}
