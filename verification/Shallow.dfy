/** With a depth limit the walk is a breadth-first search of the commits: it sends exactly those within the limit, marks
    exactly the last layer as shallow, and sends the full trees of everything it sends. */
module Shallow {
  import opened Bytes
  import opened PackFormat
  import opened PackIngest
  import opened GitObjects
  import opened Graph
  import opened NeedWalk
  import opened BlobFilter

  // ---- Parents and distance ----

  function ParentLineRefs(fmt: Format, lines: seq<bytes>): seq<Kappa> {
    if lines == [] then [] else LineRef(fmt, lines[0], PARENT_LINE) + ParentLineRefs(fmt, lines[1..])
  }

  /** What the parent lines of a commit header name. */
  function ParentRefs(fmt: Format, content: bytes): seq<Kappa> {
    ParentLineRefs(fmt, HeaderLines(content, 0))
  }

  lemma {:induction false} ParentLineIsRef(fmt: Format, lines: seq<bytes>, k: Kappa)
    requires k in ParentLineRefs(fmt, lines)
    ensures k in LineRefs(fmt, lines)
    decreases |lines|
  {
    hide Label;
    if k in ParentLineRefs(fmt, lines[1..]) {
      ParentLineIsRef(fmt, lines[1..], k);
    } else {
      assert lines[0][0] == PARENT_LINE[0] != TREE_LINE[0];
    }
  }

  lemma ParentIsRef(fmt: Format, content: bytes, k: Kappa)
    requires k in ParentRefs(fmt, content)
    ensures k in CommitRefs(fmt, content, 0)
  {
    hide HeaderLines, LineRefs, ParentLineRefs, CommitRefs;
    ParentLineIsRef(fmt, HeaderLines(content, 0), k);
    CommitRefsByLine(fmt, content, 0);
  }

  lemma {:induction false} ParentItemRefs(fmt: Format, items: seq<HeaderItem>)
    requires ItemsFit(fmt, items)
    ensures ParentLineRefs(fmt, ItemLines(items) + [[]]) == Labels(fmt, ParentIds(items))
    decreases |items|
  {
    hide Label, LineRef, ItemLine, ItemFits, Labels;
    var lines := ItemLines(items) + [[]];
    if items == [] {
      assert Labels(fmt, []) == [];
      NoParentLine(fmt);
    } else {
      var head, rest := items[0], items[1..];
      assert head in items;
      ItemRef(fmt, head);
      ParentItemRefs(fmt, rest);
      assert lines[0] == ItemLine(head) && lines[1..] == ItemLines(rest) + [[]];
      if head.ParentItem? {
        LabelsHead(fmt, head.id, ParentIds(rest));
      } else {
        assert ParentIds(items) == ParentIds(rest);
      }
    }
  }

  lemma NoParentLine(fmt: Format)
    ensures ParentLineRefs(fmt, [] + [[]]) == [] && Labels(fmt, []) == []
  {
    var blank: seq<bytes> := [] + [[]];
    assert blank[1..] == [];
  }

  predicate IsParent(store: Store, fmt: Format, child: Kappa, p: Kappa) {
    IsCommit(store, child) && IsCommit(store, p) && p in ParentRefs(fmt, store[child].content)
  }

  /** The parents of a commit are the commits its parent lines name. */
  lemma ParentsOfCommit(store: Store, fmt: Format, k: Kappa, items: seq<HeaderItem>, message: bytes, p: Kappa)
    requires k in store && store[k] == Git(Commit, CommitContent(items, message)) && ItemsFit(fmt, items)
    ensures IsParent(store, fmt, k, p) <==> IsCommit(store, p) && p in Labels(fmt, ParentIds(items))
  {
    hide HeaderLines, ParentLineRefs, Labels, ItemsFit, Lines;
    ItemLineRefs(fmt, items);
    HeaderThenBody(ItemLines(items), message);
    ParentItemRefs(fmt, items);
  }

  /** `k` is at most `n` parent steps from a wanted commit. */
  ghost predicate Within(store: Store, fmt: Format, roots: seq<Kappa>, k: Kappa, n: nat)
    decreases n
  {
    || (k in roots && IsCommit(store, k))
    || (n > 0 && exists v :: Within(store, fmt, roots, v, n - 1) && IsParent(store, fmt, v, k))
  }

  lemma {:induction false} WithinGrows(store: Store, fmt: Format, roots: seq<Kappa>, k: Kappa, n: nat, m: nat)
    requires Within(store, fmt, roots, k, n) && n <= m
    ensures Within(store, fmt, roots, k, m)
    decreases n
  {
    if !(k in roots && IsCommit(store, k)) {
      var v :| Within(store, fmt, roots, v, n - 1) && IsParent(store, fmt, v, k);
      WithinGrows(store, fmt, roots, v, n - 1, m - 1);
    }
  }

  /** What a fetch may assume of the graph: wants are commits, and a commit is referred to only by parent lines. */
  ghost predicate CommitShaped(store: Store, fmt: Format, roots: seq<Kappa>) {
    && (forall k :: k in roots && Readable(store, k) ==> IsCommit(store, k))
    && (forall k, c :: c in Refs(store, fmt, k) && IsCommit(store, c) ==> IsParent(store, fmt, k, c))
  }

  // ---- The breadth-first invariant ----

  ghost predicate Known(cfg: Config, roots: seq<Kappa>, d: nat, w: Walk) {
    && w.visited !! cfg.have
    && (forall k :: k in w.depth && IsCommit(cfg.store, k) ==>
          && 1 <= w.depth[k] <= d && k !in cfg.have && (k in w.visited || k in w.queue)
          && Within(cfg.store, cfg.fmt, roots, k, w.depth[k] - 1))
    && (forall k :: (k in w.queue || k in w.visited) && IsCommit(cfg.store, k) ==> k in w.depth)
    && (forall k :: k in roots && IsCommit(cfg.store, k) && k !in cfg.have ==> k in w.depth && w.depth[k] == 1)
  }

  /** No known commit is more than one layer deeper than a pending one. */
  ghost predicate Layered(cfg: Config, w: Walk) {
    forall a, b ::
      (a in w.depth && b in w.depth && IsCommit(cfg.store, a) && IsCommit(cfg.store, b) && a !in w.visited)
      ==> w.depth[b] <= w.depth[a] + 1
  }

  ghost predicate CommitsKnown(cfg: Config, q: seq<Kappa>, depth: map<Kappa, nat>) {
    forall k :: k in q && IsCommit(cfg.store, k) ==> k in depth
  }

  /** Pending commits stand in the queue, at their first occurrence, in order of depth. */
  ghost predicate Ordered(cfg: Config, q: seq<Kappa>, visited: set<Kappa>, depth: map<Kappa, nat>)
    requires CommitsKnown(cfg, q, depth)
  {
    forall i, j ::
      (&& 0 <= i < j < |q| && IsCommit(cfg.store, q[i]) && IsCommit(cfg.store, q[j])
       && q[j] !in visited && q[j] !in q[..j])
      ==> depth[q[i]] <= depth[q[j]]
  }

  /** The parents of an expanded commit are known, one layer deeper at most. */
  ghost predicate Expanded(cfg: Config, d: nat, w: Walk) {
    forall v, c ::
      (v in w.visited && v in w.depth && w.depth[v] < d && IsParent(cfg.store, cfg.fmt, v, c) && c !in cfg.have)
      ==> c in w.depth && w.depth[c] <= w.depth[v] + 1
  }

  ghost predicate Bfs(cfg: Config, roots: seq<Kappa>, d: nat, w: Walk) {
    && Known(cfg, roots, d, w) && Layered(cfg, w) && CommitsKnown(cfg, w.queue, w.depth)
    && Ordered(cfg, w.queue, w.visited, w.depth) && Expanded(cfg, d, w)
  }

  // ---- Turns that discover no commit ----

  ghost predicate SameCommits(cfg: Config, depth: map<Kappa, nat>, depth': map<Kappa, nat>) {
    forall k :: IsCommit(cfg.store, k) ==> (k in depth <==> k in depth') && (k in depth ==> depth[k] == depth'[k])
  }

  ghost predicate NoCommits(cfg: Config, q: seq<Kappa>) {
    forall k :: k in q ==> !IsCommit(cfg.store, k)
  }

  /** The turn pops `k`, pushes no commit and leaves the depths of commits alone. */
  ghost predicate Quiet(cfg: Config, d: nat, w: Walk, push: seq<Kappa>, w': Walk)
    requires w.queue != []
  {
    var k := w.queue[0];
    && w'.queue == w.queue[1..] + push && NoCommits(cfg, push) && SameCommits(cfg, w.depth, w'.depth)
    && (|| (w'.visited == w.visited && (k in w.visited || k in cfg.have))
        || (w'.visited == w.visited + {k} && k !in cfg.have
            && (IsCommit(cfg.store, k) && k in w.depth ==> w.depth[k] >= d)))
  }

  lemma OrderedPop(cfg: Config, q: seq<Kappa>, visited: set<Kappa>, depth: map<Kappa, nat>, visited': set<Kappa>)
    requires q != [] && CommitsKnown(cfg, q, depth) && Ordered(cfg, q, visited, depth)
    requires visited <= visited' && (IsCommit(cfg.store, q[0]) ==> q[0] in visited')
    ensures CommitsKnown(cfg, q[1..], depth) && Ordered(cfg, q[1..], visited', depth)
  {
    var r := q[1..];
    forall i, j | 0 <= i < j < |r| && IsCommit(cfg.store, r[i]) && IsCommit(cfg.store, r[j])
                  && r[j] !in visited' && r[j] !in r[..j]
      ensures r[i] in depth && r[j] in depth && depth[r[i]] <= depth[r[j]]
    {
      assert q[j + 1] == r[j] && q[i + 1] == r[i];
      assert q[..j + 1] == [q[0]] + r[..j];
      assert r[i] in q && r[j] in q;
    }
  }

  lemma OrderedSame(cfg: Config, q: seq<Kappa>, push: seq<Kappa>, visited: set<Kappa>, depth: map<Kappa, nat>,
      depth': map<Kappa, nat>)
    requires CommitsKnown(cfg, q, depth) && Ordered(cfg, q, visited, depth)
    requires NoCommits(cfg, push) && SameCommits(cfg, depth, depth')
    ensures CommitsKnown(cfg, q + push, depth') && Ordered(cfg, q + push, visited, depth')
  {
    var r := q + push;
    assert forall i :: |q| <= i < |r| ==> r[i] in push;
    forall i, j | 0 <= i < j < |r| && IsCommit(cfg.store, r[i]) && IsCommit(cfg.store, r[j])
                  && r[j] !in visited && r[j] !in r[..j]
      ensures r[i] in depth' && r[j] in depth' && depth'[r[i]] <= depth'[r[j]]
    {
      assert j < |q|;
      assert r[i] == q[i] && r[j] == q[j] && r[..j] == q[..j];
      assert r[i] in q && r[j] in q;
    }
  }

  lemma QuietKeepsKnown(cfg: Config, roots: seq<Kappa>, d: nat, w: Walk, push: seq<Kappa>, w': Walk)
    requires w.queue != [] && Bfs(cfg, roots, d, w) && Quiet(cfg, d, w, push, w')
    ensures Known(cfg, roots, d, w') && Layered(cfg, w') && Expanded(cfg, d, w')
  {
    hide Within, Ordered, IsCommit;
    var k := w.queue[0];
    assert w.queue == [k] + w.queue[1..];
    forall c | c in w'.visited && IsCommit(cfg.store, c)
      ensures c in w'.depth
    {
      assert c in w.queue || c in w.visited;
    }
    forall v, c | v in w'.visited && v in w'.depth && w'.depth[v] < d
                  && IsParent(cfg.store, cfg.fmt, v, c) && c !in cfg.have
      ensures c in w'.depth && w'.depth[c] <= w'.depth[v] + 1
    {
      assert IsCommit(cfg.store, v) && IsCommit(cfg.store, c);
      assert v in w.visited;
    }
  }

  lemma {:induction false} QuietKeeps(cfg: Config, roots: seq<Kappa>, d: nat, w: Walk, push: seq<Kappa>, w': Walk)
    requires w.queue != [] && Bfs(cfg, roots, d, w) && Quiet(cfg, d, w, push, w')
    ensures Bfs(cfg, roots, d, w')
  {
    hide Within, Ordered, IsCommit, Layered, Expanded, SameCommits, NoCommits, CommitsKnown;
    QuietKeepsKnown(cfg, roots, d, w, push, w');
    var k := w.queue[0];
    assert k in w.queue;
    OrderedPop(cfg, w.queue, w.visited, w.depth, w'.visited);
    OrderedSame(cfg, w.queue[1..], push, w'.visited, w.depth, w'.depth);
  }

  // ---- The turn that expands a commit ----

  lemma {:induction false} DiscoverAt(depth: map<Kappa, nat>, cs: seq<Kappa>, d: nat, k: Kappa)
    ensures k in Discover(depth, cs, d) <==> k in depth || k in cs
    ensures k in depth ==> Discover(depth, cs, d)[k] == depth[k]
    ensures k !in depth && k in cs ==> Discover(depth, cs, d)[k] == d
    decreases |cs|
  {
    if cs != [] {
      assert cs == [cs[0]] + cs[1..];
      DiscoverAt(if cs[0] in depth then depth else depth[cs[0] := d], cs[1..], d, k);
    }
  }

  lemma {:induction false} AssignAt(depth: map<Kappa, nat>, cs: seq<Kappa>, d: nat, k: Kappa)
    ensures k in Assign(depth, cs, d) <==> k in depth || k in cs
    ensures k !in cs && k in depth ==> Assign(depth, cs, d)[k] == depth[k]
    ensures k in cs ==> Assign(depth, cs, d)[k] == d
    decreases |cs|
  {
    if cs != [] {
      assert cs == [cs[0]] + cs[1..];
      AssignAt(depth[cs[0] := d], cs[1..], d, k);
    }
  }

  /** New commits go to the back, one layer deeper than the front. */
  lemma OrderedPush(cfg: Config, q: seq<Kappa>, push: seq<Kappa>, visited: set<Kappa>, depth: map<Kappa, nat>, m: nat)
    requires CommitsKnown(cfg, q, depth) && Ordered(cfg, q, visited, depth)
    requires forall b :: b in depth && IsCommit(cfg.store, b) ==> depth[b] <= m && (b in visited || b in q)
    ensures CommitsKnown(cfg, q + push, Discover(depth, push, m))
    ensures Ordered(cfg, q + push, visited, Discover(depth, push, m))
  {
    hide Discover;
    var r, depth' := q + push, Discover(depth, push, m);
    forall k | k in r && IsCommit(cfg.store, k)
      ensures k in depth' && depth'[k] <= m
      ensures k in q ==> depth'[k] == depth[k]
      ensures k !in q && k !in visited ==> depth'[k] == m
    {
      DiscoverAt(depth, push, m, k);
    }
    forall i, j | 0 <= i < j < |r| && IsCommit(cfg.store, r[i]) && IsCommit(cfg.store, r[j])
                  && r[j] !in visited && r[j] !in r[..j]
      ensures depth'[r[i]] <= depth'[r[j]]
    {
      assert r[i] in r && r[j] in r;
      if j < |q| {
        assert r[i] == q[i] && r[j] == q[j] && r[..j] == q[..j];
      } else {
        assert r[..j] == q + push[..j - |q|];
      }
    }
  }

  /** `k` is an unvisited commit above the limit; its fresh references are discovered one layer down. */
  ghost predicate Expands(cfg: Config, d: nat, w: Walk, w': Walk)
    requires w.queue != []
  {
    var k := w.queue[0];
    && IsCommit(cfg.store, k) && k !in w.visited && k !in cfg.have && k in w.depth && w.depth[k] < d
    && w'.visited == w.visited + {k}
    && var push := Fresh(cfg, Refs(cfg.store, cfg.fmt, k), w'.visited);
       w'.queue == w.queue[1..] + push && w'.depth == Discover(w.depth, push, w.depth[k] + 1)
  }

  /** The commits known after an expansion: those known before, and the fresh parents. */
  lemma ExpandedDepth(cfg: Config, roots: seq<Kappa>, d: nat, w: Walk, w': Walk, c: Kappa)
    requires w.queue != [] && Expands(cfg, d, w, w')
    requires CommitShaped(cfg.store, cfg.fmt, roots) && IsCommit(cfg.store, c)
    ensures
      var k := w.queue[0];
      && (c in w'.depth <==> c in w.depth || (IsParent(cfg.store, cfg.fmt, k, c) && c !in w'.visited && c !in cfg.have))
      && (c in w.depth ==> w'.depth[c] == w.depth[c])
      && (c !in w.depth && c in w'.depth ==> w'.depth[c] == w.depth[k] + 1)
      && (c in w'.queue <==>
          c in w.queue[1..] || (IsParent(cfg.store, cfg.fmt, k, c) && c !in w'.visited && c !in cfg.have))
  {
    hide Discover, Fresh, Refs, IsCommit, ParentRefs;
    var k := w.queue[0];
    var push := Fresh(cfg, Refs(cfg.store, cfg.fmt, k), w'.visited);
    FreshMembers(cfg, Refs(cfg.store, cfg.fmt, k), w'.visited, c);
    DiscoverAt(w.depth, push, w.depth[k] + 1, c);
    if IsParent(cfg.store, cfg.fmt, k, c) {
      RefOfParent(cfg, k, c);
    }
  }

  lemma RefOfParent(cfg: Config, k: Kappa, c: Kappa)
    requires IsParent(cfg.store, cfg.fmt, k, c)
    ensures c in Refs(cfg.store, cfg.fmt, k)
  {
    ParentIsRef(cfg.fmt, cfg.store[k].content, c);
  }

  /** The front of the queue is a shallowest pending commit. */
  lemma {:induction false} FrontIsShallowest(cfg: Config, roots: seq<Kappa>, d: nat, w: Walk, a: Kappa)
    requires w.queue != [] && Bfs(cfg, roots, d, w)
    requires IsCommit(cfg.store, w.queue[0]) && a in w.depth && IsCommit(cfg.store, a) && a !in w.visited
    ensures w.queue[0] in w.depth && w.depth[w.queue[0]] <= w.depth[a]
  {
    hide Within, IsCommit;
    assert w.queue[0] in w.queue;
    assert a in w.queue;
    var j := FirstAt(w.queue, a);
    if j > 0 {
      assert w.queue[j] !in w.queue[..j];
    }
  }

  lemma {:induction false} FirstAt(q: seq<Kappa>, a: Kappa) returns (j: nat)
    requires a in q
    ensures j < |q| && q[j] == a && a !in q[..j]
    decreases |q|
  {
    var init := q[..|q| - 1];
    assert q == init + [q[|q| - 1]];
    if a in init {
      j := FirstAt(init, a);
      assert init[..j] == q[..j];
    } else {
      j := |q| - 1;
    }
  }

  lemma ExpandsKeepsKnown(cfg: Config, roots: seq<Kappa>, d: nat, w: Walk, w': Walk)
    requires w.queue != [] && Bfs(cfg, roots, d, w) && Expands(cfg, d, w, w') && CommitShaped(cfg.store, cfg.fmt, roots)
    ensures Known(cfg, roots, d, w')
  {
    hide IsCommit, IsParent, Ordered, Layered, Expanded, Refs, Fresh, Discover;
    var k := w.queue[0];
    assert w.queue == [k] + w.queue[1..];
    forall c | IsCommit(cfg.store, c)
      ensures
        c in w'.depth ==>
          && 1 <= w'.depth[c] <= d && c !in cfg.have && (c in w'.visited || c in w'.queue)
          && Within(cfg.store, cfg.fmt, roots, c, w'.depth[c] - 1)
      ensures c in w'.queue || c in w'.visited ==> c in w'.depth
    {
      ExpandedDepth(cfg, roots, d, w, w', c);
      if c in w'.depth && c !in w.depth {
        assert Within(cfg.store, cfg.fmt, roots, k, w.depth[k] - 1) && IsParent(cfg.store, cfg.fmt, k, c);
      }
    }
    forall c | c in roots && IsCommit(cfg.store, c) && c !in cfg.have
      ensures c in w'.depth && w'.depth[c] == 1
    {
      ExpandedDepth(cfg, roots, d, w, w', c);
    }
  }

  lemma {:induction false} ExpandsKeepsLayers(cfg: Config, roots: seq<Kappa>, d: nat, w: Walk, w': Walk)
    requires w.queue != [] && Bfs(cfg, roots, d, w) && Expands(cfg, d, w, w') && CommitShaped(cfg.store, cfg.fmt, roots)
    ensures Layered(cfg, w') && Expanded(cfg, d, w')
  {
    hide IsCommit, Ordered, Within, Refs, Fresh, Discover, ParentRefs;
    var k := w.queue[0];
    forall a, b | a in w'.depth && b in w'.depth && IsCommit(cfg.store, a) && IsCommit(cfg.store, b) && a !in w'.visited
      ensures w'.depth[b] <= w'.depth[a] + 1
    {
      ExpandedDepth(cfg, roots, d, w, w', a);
      ExpandedDepth(cfg, roots, d, w, w', b);
      if a in w.depth {
        FrontIsShallowest(cfg, roots, d, w, a);
      }
    }
    forall v, c | v in w'.visited && v in w'.depth && w'.depth[v] < d
                  && IsParent(cfg.store, cfg.fmt, v, c) && c !in cfg.have
      ensures c in w'.depth && w'.depth[c] <= w'.depth[v] + 1
    {
      ExpandedDepth(cfg, roots, d, w, w', v);
      ExpandedDepth(cfg, roots, d, w, w', c);
    }
  }

  lemma ExpandsKeeps(cfg: Config, roots: seq<Kappa>, d: nat, w: Walk, w': Walk)
    requires w.queue != [] && Bfs(cfg, roots, d, w) && Expands(cfg, d, w, w') && CommitShaped(cfg.store, cfg.fmt, roots)
    ensures Bfs(cfg, roots, d, w')
  {
    hide IsCommit, Ordered, Within, Refs, Fresh, Discover, Expanded, CommitsKnown;
    ExpandsKeepsKnown(cfg, roots, d, w, w');
    ExpandsKeepsLayers(cfg, roots, d, w, w');
    var k := w.queue[0];
    var push := Fresh(cfg, Refs(cfg.store, cfg.fmt, k), w'.visited);
    assert w.queue == [k] + w.queue[1..];
    OrderedPop(cfg, w.queue, w.visited, w.depth, w'.visited);
    forall b | b in w.depth && IsCommit(cfg.store, b)
      ensures w.depth[b] <= w.depth[k] + 1 && (b in w'.visited || b in w.queue[1..])
    {
    }
    OrderedPush(cfg, w.queue[1..], push, w'.visited, w.depth, w.depth[k] + 1);
  }

  // ---- Every turn is one or the other ----

  lemma QuietSkip(cfg: Config, d: nat, w: Walk)
    requires w.queue != []
    requires var k := w.queue[0]; k in w.visited || k in cfg.have || !Readable(cfg.store, k)
    requires cfg.filter.None?
    ensures Quiet(cfg, d, w, [], Step(cfg, w))
  {
    hide Fresh, FreshNonCommits, Discover, Assign, AtBoundary, Refs;
    assert w.queue[1..] + [] == w.queue[1..];
  }

  lemma QuietBoundary(cfg: Config, d: nat, w: Walk)
    requires w.queue != [] && cfg.filter.None? && cfg.deepen == Some(d)
    requires var k := w.queue[0]; k !in w.visited && k !in cfg.have && AtBoundary(cfg, w, k)
    ensures
      var k := w.queue[0];
      Quiet(cfg, d, w, FreshNonCommits(cfg, Refs(cfg.store, cfg.fmt, k), w.visited + {k}), Step(cfg, w))
  {
    hide Fresh, FreshNonCommits, Discover, Assign, Refs;
    var k := w.queue[0];
    var cs, visited := Refs(cfg.store, cfg.fmt, k), w.visited + {k};
    var push := FreshNonCommits(cfg, cs, visited);
    forall c
      ensures c in push ==> !IsCommit(cfg.store, c)
      ensures IsCommit(cfg.store, c) ==>
        (c in w.depth <==> c in Assign(w.depth, push, DepthOf(w, k)))
        && (c in w.depth ==> w.depth[c] == Assign(w.depth, push, DepthOf(w, k))[c])
    {
      FreshMembers(cfg, cs, visited, c);
      AssignAt(w.depth, push, DepthOf(w, k), c);
    }
  }

  lemma QuietOther(cfg: Config, roots: seq<Kappa>, d: nat, w: Walk)
    requires w.queue != [] && cfg.filter.None? && CommitShaped(cfg.store, cfg.fmt, roots)
    requires var k := w.queue[0]; k !in w.visited && k !in cfg.have && Readable(cfg.store, k) && !IsCommit(cfg.store, k)
    ensures
      var k := w.queue[0];
      Quiet(cfg, d, w, Fresh(cfg, Refs(cfg.store, cfg.fmt, k), w.visited + {k}), Step(cfg, w))
  {
    hide Fresh, FreshNonCommits, Discover, Assign, Refs, ParentRefs;
    var k := w.queue[0];
    var cs, visited := Refs(cfg.store, cfg.fmt, k), w.visited + {k};
    var push := Fresh(cfg, cs, visited);
    forall c
      ensures c in push ==> !IsCommit(cfg.store, c)
      ensures IsCommit(cfg.store, c) ==>
        (c in w.depth <==> c in Discover(w.depth, push, DepthOf(w, k) + 1))
        && (c in w.depth ==> w.depth[c] == Discover(w.depth, push, DepthOf(w, k) + 1)[c])
    {
      FreshMembers(cfg, cs, visited, c);
      DiscoverAt(w.depth, push, DepthOf(w, k) + 1, c);
    }
  }

  lemma {:induction false} StepBfs(cfg: Config, roots: seq<Kappa>, d: nat, w: Walk)
    requires w.queue != [] && cfg.filter.None? && cfg.deepen == Some(d) && CommitShaped(cfg.store, cfg.fmt, roots)
    requires Bfs(cfg, roots, d, w)
    ensures Bfs(cfg, roots, d, Step(cfg, w))
  {
    hide Fresh, FreshNonCommits, Discover, Assign, Refs, Quiet, Layered, Ordered, Expanded, CommitShaped, Within;
    var k := w.queue[0];
    assert k in w.queue;
    if k in w.visited || k in cfg.have || !Readable(cfg.store, k) {
      QuietSkip(cfg, d, w);
      QuietKeeps(cfg, roots, d, w, [], Step(cfg, w));
    } else if !IsCommit(cfg.store, k) {
      QuietOther(cfg, roots, d, w);
      QuietKeeps(cfg, roots, d, w, Fresh(cfg, Refs(cfg.store, cfg.fmt, k), w.visited + {k}), Step(cfg, w));
    } else if AtBoundary(cfg, w, k) {
      QuietBoundary(cfg, d, w);
      QuietKeeps(cfg, roots, d, w, FreshNonCommits(cfg, Refs(cfg.store, cfg.fmt, k), w.visited + {k}), Step(cfg, w));
    } else {
      assert Expands(cfg, d, w, Step(cfg, w));
      ExpandsKeeps(cfg, roots, d, w, Step(cfg, w));
    }
  }

  // ---- Trees ----

  function NonCommits(store: Store, cs: seq<Kappa>): (r: seq<Kappa>)
    ensures forall c :: c in r <==> c in cs && Readable(store, c) && !IsCommit(store, c)
  {
    if cs == [] then []
    else
      assert cs == [cs[0]] + cs[1..];
      (if Readable(store, cs[0]) && !IsCommit(store, cs[0]) then [cs[0]] else []) + NonCommits(store, cs[1..])
  }

  /** The references that stay within the trees of a commit. */
  function TreeGraph(store: Store, fmt: Format): Successors {
    k => NonCommits(store, Refs(store, fmt, k))
  }

  function CommitsIn(store: Store, s: set<Kappa>): set<Kappa> {
    set k | k in s && IsCommit(store, k)
  }

  ghost predicate Trees(cfg: Config, w: Walk) {
    && w.visited !! cfg.have && Distinct(w.needed)
    && (forall k :: k in w.needed <==> k in w.visited && Readable(cfg.store, k))
    && (forall k, c :: k in w.visited && c in TreeGraph(cfg.store, cfg.fmt)(k) && c !in cfg.have ==>
          c in w.visited || c in w.queue)
    && (forall k :: (k in w.visited || k in w.queue) && Readable(cfg.store, k) && !IsCommit(cfg.store, k) ==>
          Reachable(TreeGraph(cfg.store, cfg.fmt), CommitsIn(cfg.store, w.visited), k))
  }

  lemma MoreRoots(g: Successors, a: set<Kappa>, b: set<Kappa>, k: Kappa)
    requires a <= b && Reachable(g, a, k)
    ensures Reachable(g, b, k)
  {
    var p :| IsPath(g, p) && p[0] in a && p[|p| - 1] == k;
    assert p[0] in b;
  }

  /** A turn on a fresh readable object queues its fresh non-commit references, and nothing it does not refer to. */
  lemma TurnOfTrees(cfg: Config, w: Walk, c: Kappa)
    requires w.queue != [] && cfg.filter.None?
    ensures
      var k, w' := w.queue[0], Step(cfg, w);
      if k in w.visited || k in cfg.have then
        w'.visited == w.visited && w'.queue == w.queue[1..] && w'.needed == w.needed
      else
        && w'.visited == w.visited + {k}
        && (c in w.queue[1..] ==> c in w'.queue)
        && (c in w'.queue ==> c in w.queue[1..] || c in Refs(cfg.store, cfg.fmt, k))
        && (c in TreeGraph(cfg.store, cfg.fmt)(k) && c !in w'.visited && c !in cfg.have ==> c in w'.queue)
        && w'.needed == w.needed + if Readable(cfg.store, k) then [k] else []
  {
    hide Discover, Assign, Fresh, FreshNonCommits, Children;
    var k := w.queue[0];
    if k !in w.visited && k !in cfg.have {
      FreshMembers(cfg, Refs(cfg.store, cfg.fmt, k), w.visited + {k}, c);
    }
  }

  lemma {:induction false} StepTrees(cfg: Config, w: Walk)
    requires w.queue != [] && cfg.filter.None? && Trees(cfg, w)
    ensures Trees(cfg, Step(cfg, w))
  {
    hide Step, Reachable, Refs, TreeGraph, IsCommit;
    var k, w', g := w.queue[0], Step(cfg, w), TreeGraph(cfg.store, cfg.fmt);
    assert w.queue == [k] + w.queue[1..];
    TurnOfTrees(cfg, w, k);
    assert CommitsIn(cfg.store, w.visited) <= CommitsIn(cfg.store, w'.visited);
    forall c
      ensures c in w.visited || c in w.queue ==> c in w'.visited || c in w'.queue || c in cfg.have
      ensures k !in w.visited && k !in cfg.have && c in g(k) && c !in cfg.have ==> c in w'.visited || c in w'.queue
      ensures (c in w'.visited || c in w'.queue) && Readable(cfg.store, c) && !IsCommit(cfg.store, c) ==>
        Reachable(g, CommitsIn(cfg.store, w'.visited), c)
    {
      TurnOfTrees(cfg, w, c);
      if (c in w'.visited || c in w'.queue) && Readable(cfg.store, c) && !IsCommit(cfg.store, c) {
        if c in w.visited || c in w.queue {
          MoreRoots(g, CommitsIn(cfg.store, w.visited), CommitsIn(cfg.store, w'.visited), c);
        } else {
          TreeStep(cfg, k, c);
          if IsCommit(cfg.store, k) {
            RootReachable(g, CommitsIn(cfg.store, w'.visited), k);
          } else {
            MoreRoots(g, CommitsIn(cfg.store, w.visited), CommitsIn(cfg.store, w'.visited), k);
          }
          StepReachable(g, CommitsIn(cfg.store, w'.visited), k, c);
        }
      }
    }
  }

  lemma TreeStep(cfg: Config, k: Kappa, c: Kappa)
    requires c in Refs(cfg.store, cfg.fmt, k) && Readable(cfg.store, c) && !IsCommit(cfg.store, c)
    ensures c in TreeGraph(cfg.store, cfg.fmt)(k) && Readable(cfg.store, k)
  {
  }

  // ---- Shallow marks ----

  ghost predicate Marked(cfg: Config, d: nat, w: Walk) {
    forall k :: k in w.shallows <==> k in w.visited && IsCommit(cfg.store, k) && k in w.depth && w.depth[k] >= d
  }

  /** Depths of commits never change once they are known, and only a boundary turn marks. */
  lemma StepMarked(cfg: Config, roots: seq<Kappa>, d: nat, w: Walk)
    requires w.queue != [] && cfg.filter.None? && cfg.deepen == Some(d) && CommitShaped(cfg.store, cfg.fmt, roots)
    requires Bfs(cfg, roots, d, w) && Marked(cfg, d, w)
    ensures Marked(cfg, d, Step(cfg, w))
  {
    hide Fresh, FreshNonCommits, Discover, Assign, Refs, Layered, Ordered, Expanded, Within, ParentRefs;
    var k, w' := w.queue[0], Step(cfg, w);
    assert k in w.queue;
    if k in w.visited || k in cfg.have || !Readable(cfg.store, k) {
      QuietSkip(cfg, d, w);
    } else if !IsCommit(cfg.store, k) {
      QuietOther(cfg, roots, d, w);
    } else if AtBoundary(cfg, w, k) {
      QuietBoundary(cfg, d, w);
    } else {
      forall c | IsCommit(cfg.store, c) && c in w.depth
        ensures c in w'.depth && w'.depth[c] == w.depth[c]
      {
        DiscoverAt(w.depth, Fresh(cfg, Refs(cfg.store, cfg.fmt, k), w.visited + {k}), w.depth[k] + 1, c);
      }
    }
  }

  // ---- Whole runs ----

  lemma {:induction false} RunKeeps(cfg: Config, roots: seq<Kappa>, d: nat, w: Walk, u: set<Kappa>)
    requires Bounded(cfg, w, u) && cfg.filter.None? && cfg.deepen == Some(d) && CommitShaped(cfg.store, cfg.fmt, roots)
    requires Bfs(cfg, roots, d, w) && Marked(cfg, d, w) && Trees(cfg, w)
    ensures
      var end := Run(cfg, w, u);
      end.queue == [] && Bfs(cfg, roots, d, end) && Marked(cfg, d, end) && Trees(cfg, end)
    decreases |u - w.visited|, |w.queue|
  {
    hide Bfs, Marked, Trees, Step, Bounded, CommitShaped;
    if w.queue != [] {
      StepBounded(cfg, w, u);
      StepBfs(cfg, roots, d, w);
      StepMarked(cfg, roots, d, w);
      StepTrees(cfg, w);
      RunKeeps(cfg, roots, d, Step(cfg, w), u);
    }
  }

  lemma {:induction false} StartKeeps(cfg: Config, wants: seq<bytes>, d: nat)
    requires d >= 1 && CommitShaped(cfg.store, cfg.fmt, Labels(cfg.fmt, wants))
    ensures
      var roots, w := Labels(cfg.fmt, wants), Start(cfg, wants);
      Bfs(cfg, roots, d, w) && Marked(cfg, d, w) && Trees(cfg, w)
  {
    hide Fresh, Assign, Refs, Reachable, IsCommit, Readable;
    var roots, w := Labels(cfg.fmt, wants), Start(cfg, wants);
    forall k
      ensures k in w.queue <==> k in roots && k !in cfg.have
      ensures k in w.depth <==> k in w.queue
      ensures k in w.depth ==> w.depth[k] == 1
      ensures k in w.queue && Readable(cfg.store, k) ==> IsCommit(cfg.store, k)
    {
      FreshMembers(cfg, roots, {}, k);
      AssignAt(map[], w.queue, 1, k);
    }
    forall i | 0 <= i < |w.queue|
      ensures w.queue[i] in w.depth && w.depth[w.queue[i]] == 1
    {
      assert w.queue[i] in w.queue;
    }
    CommitIsReadable(cfg);
  }

  lemma CommitIsReadable(cfg: Config)
    ensures forall k :: IsCommit(cfg.store, k) ==> Readable(cfg.store, k)
  {
  }

  /** Every commit within the limit has been discovered, at its distance. */
  lemma {:induction false} Complete(cfg: Config, roots: seq<Kappa>, d: nat, end: Walk, k: Kappa, n: nat)
    requires end.queue == [] && Bfs(cfg, roots, d, end) && Closed(Objects(cfg.store, cfg.fmt), cfg.have)
    requires Within(cfg.store, cfg.fmt, roots, k, n) && n < d && k !in cfg.have
    ensures k in end.depth && end.depth[k] <= n + 1
    decreases n
  {
    hide Ordered, Layered, Refs, ParentRefs;
    if !(k in roots && IsCommit(cfg.store, k)) {
      var v :| Within(cfg.store, cfg.fmt, roots, v, n - 1) && IsParent(cfg.store, cfg.fmt, v, k);
      RefOfParent(cfg, v, k);
      assert k in Objects(cfg.store, cfg.fmt)(v);
      Complete(cfg, roots, d, end, v, n - 1);
      assert v in end.visited;
    }
  }

  /** The commits sent, and among them the shallow ones, by distance. */
  lemma {:induction false} CommitsByDistance(cfg: Config, roots: seq<Kappa>, d: nat, end: Walk, k: Kappa)
    requires d >= 1 && end.queue == [] && Bfs(cfg, roots, d, end) && Marked(cfg, d, end)
    requires Closed(Objects(cfg.store, cfg.fmt), cfg.have) && IsCommit(cfg.store, k)
    ensures k in end.visited <==> k !in cfg.have && Within(cfg.store, cfg.fmt, roots, k, d - 1)
    ensures
      k in end.shallows <==>
      && k !in cfg.have && Within(cfg.store, cfg.fmt, roots, k, d - 1)
      && (d >= 2 ==> !Within(cfg.store, cfg.fmt, roots, k, d - 2))
  {
    hide Ordered, Layered, Expanded, IsCommit, Within;
    if k in end.visited {
      WithinGrows(cfg.store, cfg.fmt, roots, k, end.depth[k] - 1, d - 1);
      if end.depth[k] < d {
        WithinGrows(cfg.store, cfg.fmt, roots, k, end.depth[k] - 1, d - 2);
      }
    }
    if k !in cfg.have && Within(cfg.store, cfg.fmt, roots, k, d - 1) {
      Complete(cfg, roots, d, end, k, d - 1);
      if d >= 2 && Within(cfg.store, cfg.fmt, roots, k, d - 2) {
        Complete(cfg, roots, d, end, k, d - 2);
      }
    }
  }

  /** The rest of what is sent: the readable trees and blobs of the commits sent, less what the client has. */
  lemma {:induction false} TreesOfCommits(cfg: Config, end: Walk, k: Kappa)
    requires end.queue == [] && Trees(cfg, end) && Closed(Objects(cfg.store, cfg.fmt), cfg.have)
    requires Readable(cfg.store, k) && !IsCommit(cfg.store, k)
    ensures
      k in end.needed <==>
      k !in cfg.have && Reachable(TreeGraph(cfg.store, cfg.fmt), CommitsIn(cfg.store, end.visited), k)
  {
    hide Reachable, Refs, IsCommit, Readable;
    var g, seen := TreeGraph(cfg.store, cfg.fmt), end.visited + cfg.have;
    if Reachable(g, CommitsIn(cfg.store, end.visited), k) {
      forall x, c | x in seen && c in g(x)
        ensures c in seen
      {
        assert c in Objects(cfg.store, cfg.fmt)(x);
      }
      ClosedHoldsReachable(g, CommitsIn(cfg.store, end.visited), seen, k);
    }
  }

  lemma ShallowWalk(cfg: Config, wants: seq<bytes>, d: nat)
    requires d >= 1 && cfg.deepen == Some(d) && cfg.filter.None?
    requires Closed(Objects(cfg.store, cfg.fmt), cfg.have) && CommitShaped(cfg.store, cfg.fmt, Labels(cfg.fmt, wants))
    ensures
      var end, roots := WholeWalk(cfg, wants), Labels(cfg.fmt, wants);
      && Distinct(end.needed)
      && (forall k :: IsCommit(cfg.store, k) ==>
            (k in end.needed <==> k !in cfg.have && Within(cfg.store, cfg.fmt, roots, k, d - 1)))
      && (forall k :: k in end.shallows <==>
            && IsCommit(cfg.store, k) && k !in cfg.have
            && Within(cfg.store, cfg.fmt, roots, k, d - 1) && (d >= 2 ==> !Within(cfg.store, cfg.fmt, roots, k, d - 2)))
      && (forall k :: Readable(cfg.store, k) && !IsCommit(cfg.store, k) ==>
            (k in end.needed <==>
             k !in cfg.have && Reachable(TreeGraph(cfg.store, cfg.fmt), CommitsIn(cfg.store, Members(end.needed)), k)))
  {
    hide Bfs, Run, Start, Bounded, Within, Reachable, Closed, CommitShaped, TreeGraph, Universe;
    var end, roots := WholeWalk(cfg, wants), Labels(cfg.fmt, wants);
    StartKeeps(cfg, wants, d);
    StartBounded(cfg, wants);
    RunKeeps(cfg, roots, d, Start(cfg, wants), Universe(cfg.store, cfg.fmt, roots));
    CommitIsReadable(cfg);
    assert CommitsIn(cfg.store, end.visited) == CommitsIn(cfg.store, Members(end.needed));
    forall k
      ensures IsCommit(cfg.store, k) ==>
        (k in end.needed <==> k !in cfg.have && Within(cfg.store, cfg.fmt, roots, k, d - 1))
      ensures k in end.shallows <==>
        && IsCommit(cfg.store, k) && k !in cfg.have
        && Within(cfg.store, cfg.fmt, roots, k, d - 1) && (d >= 2 ==> !Within(cfg.store, cfg.fmt, roots, k, d - 2))
      ensures Readable(cfg.store, k) && !IsCommit(cfg.store, k) ==>
        (k in end.needed <==>
         k !in cfg.have && Reachable(TreeGraph(cfg.store, cfg.fmt), CommitsIn(cfg.store, Members(end.needed)), k))
    {
      if IsCommit(cfg.store, k) {
        CommitsByDistance(cfg, roots, d, end, k);
      } else if Readable(cfg.store, k) {
        TreesOfCommits(cfg, end, k);
      }
    }
  }

  // ---- Depth 0 ----

  ghost predicate DepthsPositive(w: Walk) {
    (forall k :: k in w.queue ==> k in w.depth) && (forall k :: k in w.depth ==> w.depth[k] >= 1)
  }

  lemma {:induction false} SameFreshAtOne(cfg: Config, cs: seq<Kappa>, visited: set<Kappa>)
    ensures Fresh(cfg, cs, visited) == Fresh(cfg.(deepen := Some(1)), cs, visited)
    ensures FreshNonCommits(cfg, cs, visited) == FreshNonCommits(cfg.(deepen := Some(1)), cs, visited)
    decreases |cs|
  {
    hide Readable, IsCommit;
    if cs != [] {
      SameFreshAtOne(cfg, cs[1..], visited);
    }
  }

  lemma StepDepths(cfg: Config, w: Walk)
    requires w.queue != [] && DepthsPositive(w)
    ensures DepthsPositive(Step(cfg, w))
  {
    hide Refs, Readable, IsCommit, Excluded, Fresh, FreshNonCommits, Assign, Discover;
    var k, w' := w.queue[0], Step(cfg, w);
    assert w.queue == [k] + w.queue[1..];
    var cs, visited := Refs(cfg.store, cfg.fmt, k), w.visited + {k};
    assert k in w.queue && forall c :: c in w.queue[1..] ==> c in w.queue;
    forall c
      ensures c in w'.queue ==> c in w'.depth
      ensures c in w'.depth ==> w'.depth[c] >= 1
    {
      AssignAt(w.depth, FreshNonCommits(cfg, cs, visited), DepthOf(w, k), c);
      DiscoverAt(w.depth, Fresh(cfg, cs, visited), DepthOf(w, k) + 1, c);
    }
  }

  lemma StepAtOne(cfg: Config, w: Walk)
    requires w.queue != [] && DepthsPositive(w) && cfg.deepen == Some(0)
    ensures Step(cfg, w) == Step(cfg.(deepen := Some(1)), w)
  {
    hide Refs, Readable, Excluded, Fresh, FreshNonCommits, Assign, Discover;
    var k := w.queue[0];
    assert k in w.queue;
    SameFreshAtOne(cfg, Refs(cfg.store, cfg.fmt, k), w.visited + {k});
  }

  lemma {:induction false} RunAtOne(cfg: Config, w: Walk, u: set<Kappa>)
    requires DepthsPositive(w) && cfg.deepen == Some(0)
    requires Bounded(cfg, w, u) && Bounded(cfg.(deepen := Some(1)), w, u)
    ensures Run(cfg, w, u) == Run(cfg.(deepen := Some(1)), w, u)
    decreases |u - w.visited|, |w.queue|
  {
    hide Step, Bounded, DepthsPositive;
    if w.queue != [] {
      StepBounded(cfg, w, u);
      StepBounded(cfg.(deepen := Some(1)), w, u);
      StepDepths(cfg, w);
      StepAtOne(cfg, w);
      RunAtOne(cfg, Step(cfg, w), u);
    }
  }

  /** A depth of 0 is a depth of 1. */
  lemma DepthZeroIsOne(store: Store, fmt: Format, wants: seq<bytes>, common: seq<bytes>, filter: Option<Filter>)
    ensures Fetch(store, fmt, wants, common, Some(0), filter) == Fetch(store, fmt, wants, common, Some(1), filter)
  {
    hide Run, Assign, HaveSet, Universe, Fresh, Bounded;
    var cfg := Config(store, fmt, HaveSet(store, fmt, common), Some(0), filter);
    SameFreshAtOne(cfg, Labels(fmt, wants), {});
    StartBounded(cfg, wants);
    StartBounded(cfg.(deepen := Some(1)), wants);
    var w := Start(cfg, wants);
    forall k
      ensures k in w.queue ==> k in w.depth
      ensures k in w.depth ==> w.depth[k] >= 1
    {
      AssignAt(map[], w.queue, 1, k);
    }
    RunAtOne(cfg, w, Universe(store, fmt, Labels(fmt, wants)));
  }

  // ---- Every depth, every filter ----

  lemma CommitsPass(store: Store, filter: Option<Filter>, k: Kappa)
    ensures IsCommit(store, k) ==> !Excluded(store, filter, k)
  {
  }

  /** A fetch of depth `d`, exactly: `n` parent steps, where depth 0 counts as depth 1. */
  lemma ShallowFetch(store: Store, fmt: Format, wants: seq<bytes>, common: seq<bytes>, d: nat, filter: Option<Filter>)
    requires CommitShaped(store, fmt, Labels(fmt, wants))
    ensures
      var end, roots := Fetch(store, fmt, wants, common, Some(d), filter), Labels(fmt, wants);
      var have, n := HaveSet(store, fmt, common), if d == 0 then 0 else d - 1;
      && Distinct(end.needed)
      && (forall k :: IsCommit(store, k) ==> (k in end.needed <==> k !in have && Within(store, fmt, roots, k, n)))
      && (forall k :: k in end.shallows <==>
            && IsCommit(store, k) && k !in have
            && Within(store, fmt, roots, k, n) && (n >= 1 ==> !Within(store, fmt, roots, k, n - 1)))
      && (forall k :: Readable(store, k) && !IsCommit(store, k) ==>
            (k in end.needed <==>
             && k !in have && !Excluded(store, filter, k)
             && Reachable(TreeGraph(store, fmt), CommitsIn(store, Members(end.needed)), k)))
  {
    hide Reachable, Within, CommitShaped, HaveSet, WholeWalk, TreeGraph, Closed, Excluded, IsCommit, Readable, Kept;
    var n := if d == 0 then 1 else d;
    var cfg := Config(store, fmt, HaveSet(store, fmt, common), Some(n), None);
    var plain, end := WholeWalk(cfg, wants), Fetch(store, fmt, wants, common, Some(d), filter);
    HaveExact(store, fmt, common);
    ShallowWalk(cfg, wants, n);
    DepthZeroIsOne(store, fmt, wants, common, filter);
    FilterOnlyRemovesBlobs(store, fmt, wants, common, Some(n), filter);
    KeptDistinct(store, filter, plain.needed);
    forall k
      ensures k in end.needed <==> k in plain.needed && !Excluded(store, filter, k)
      ensures IsCommit(store, k) ==> !Excluded(store, filter, k)
    {
      KeptMembers(store, filter, plain.needed, k);
      CommitsPass(store, filter, k);
    }
    assert CommitsIn(store, Members(end.needed)) == CommitsIn(store, Members(plain.needed));
  }
}
