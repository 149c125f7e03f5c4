/** Without a depth limit the need set is exactly what is reachable from the wants and not from the haves. */
module NeedSet {
  import opened Bytes
  import opened PackFormat
  import opened PackIngest
  import opened GitObjects
  import opened Graph
  import opened NeedWalk

  ghost predicate Covered(cfg: Config, w: Walk, k: Kappa) {
    k in cfg.have || k in w.visited || k in w.queue
  }

  /** What every turn of the walk keeps. */
  ghost predicate Inv(cfg: Config, roots: seq<Kappa>, w: Walk) {
    && w.visited !! cfg.have
    && Distinct(w.needed)
    && (forall k :: k in w.needed <==> k in w.visited && Readable(cfg.store, k) && !Excluded(cfg.store, cfg.filter, k))
    && (forall k :: k in roots ==> Covered(cfg, w, k))
    && (forall k, c :: k in w.visited && c in Refs(cfg.store, cfg.fmt, k) ==> Covered(cfg, w, c))
    && (forall k :: k in w.visited || k in w.queue ==> Reachable(Objects(cfg.store, cfg.fmt), Members(roots), k))
  }

  lemma BlobHasNoChildren(cfg: Config, k: Kappa)
    requires !Readable(cfg.store, k) || Excluded(cfg.store, cfg.filter, k)
    ensures Refs(cfg.store, cfg.fmt, k) == []
  {
  }

  /** The queue and the visited set after a turn, in terms of references alone. */
  lemma TurnOfWalk(cfg: Config, w: Walk, c: Kappa)
    requires w.queue != [] && cfg.deepen.None?
    ensures
      var k, w' := w.queue[0], Step(cfg, w);
      if k in w.visited || k in cfg.have then
        w'.visited == w.visited && w'.queue == w.queue[1..] && w'.needed == w.needed
      else
        && w'.visited == w.visited + {k}
        && (c in w'.queue <==>
            c in w.queue[1..] || (c in Refs(cfg.store, cfg.fmt, k) && c !in w'.visited && c !in cfg.have))
        && w'.needed == w.needed + if Readable(cfg.store, k) && !Excluded(cfg.store, cfg.filter, k) then [k] else []
  {
    hide Discover, Assign, Fresh, FreshNonCommits, Excluded, Refs;
    var k := w.queue[0];
    if k !in w.visited && k !in cfg.have {
      FreshMembers(cfg, Refs(cfg.store, cfg.fmt, k), w.visited + {k}, c);
      if !Readable(cfg.store, k) || Excluded(cfg.store, cfg.filter, k) {
        BlobHasNoChildren(cfg, k);
      }
    }
  }

  lemma {:induction false} StepKeeps(cfg: Config, roots: seq<Kappa>, w: Walk)
    requires w.queue != [] && cfg.deepen.None? && Inv(cfg, roots, w)
    ensures Inv(cfg, roots, Step(cfg, w))
  {
    hide Step, Readable, Excluded, Reachable, Refs;
    var k, w', g := w.queue[0], Step(cfg, w), Objects(cfg.store, cfg.fmt);
    assert w.queue == [k] + w.queue[1..];
    forall c
      ensures Covered(cfg, w, c) ==> Covered(cfg, w', c)
      ensures k !in w.visited && k !in cfg.have && c in Refs(cfg.store, cfg.fmt, k) ==> Covered(cfg, w', c)
      ensures c in w'.visited || c in w'.queue ==> Reachable(g, Members(roots), c)
    {
      TurnOfWalk(cfg, w, c);
      if c in Refs(cfg.store, cfg.fmt, k) {
        assert c in g(k);
        StepReachable(g, Members(roots), k, c);
      }
    }
    TurnOfWalk(cfg, w, k);
  }

  lemma {:induction false} RunKeeps(cfg: Config, roots: seq<Kappa>, w: Walk, u: set<Kappa>)
    requires Bounded(cfg, w, u) && cfg.deepen.None? && Inv(cfg, roots, w)
    ensures Inv(cfg, roots, Run(cfg, w, u)) && Run(cfg, w, u).queue == []
    decreases |u - w.visited|, |w.queue|
  {
    hide Inv, Step, Bounded;
    if w.queue != [] {
      StepBounded(cfg, w, u);
      StepKeeps(cfg, roots, w);
      RunKeeps(cfg, roots, Step(cfg, w), u);
    }
  }

  lemma StartInv(cfg: Config, wants: seq<bytes>)
    ensures Inv(cfg, Labels(cfg.fmt, wants), Start(cfg, wants))
  {
    hide Fresh, Assign, Reachable, Readable, Refs, Excluded;
    var roots, w := Labels(cfg.fmt, wants), Start(cfg, wants);
    forall k
      ensures k in w.queue <==> k in roots && k !in cfg.have
      ensures k in w.queue ==> Reachable(Objects(cfg.store, cfg.fmt), Members(roots), k)
    {
      FreshMembers(cfg, roots, {}, k);
      if k in roots {
        RootReachable(Objects(cfg.store, cfg.fmt), Members(roots), k);
      }
    }
  }

  lemma {:induction false} WalkExact(cfg: Config, wants: seq<bytes>)
    requires cfg.deepen.None? && Closed(Objects(cfg.store, cfg.fmt), cfg.have)
    ensures
      var needed, g := WholeWalk(cfg, wants).needed, Objects(cfg.store, cfg.fmt);
      && Distinct(needed)
      && forall k :: k in needed <==>
           && Reachable(g, Members(Labels(cfg.fmt, wants)), k) && k !in cfg.have
           && Readable(cfg.store, k) && !Excluded(cfg.store, cfg.filter, k)
  {
    hide Run, Start, Bounded, Readable, Excluded, Reachable, Refs, Universe;
    var roots, g := Labels(cfg.fmt, wants), Objects(cfg.store, cfg.fmt);
    StartInv(cfg, wants);
    StartBounded(cfg, wants);
    RunKeeps(cfg, roots, Start(cfg, wants), Universe(cfg.store, cfg.fmt, roots));
    var end := WholeWalk(cfg, wants);
    var seen := end.visited + cfg.have;
    assert Closed(g, seen) by {
      forall k, c | k in seen && c in g(k)
        ensures c in seen
      {
        assert c in Refs(cfg.store, cfg.fmt, k);
        assert k in end.visited ==> Covered(cfg, end, c);
      }
    }
    assert Members(roots) <= seen by {
      forall k | k in roots
        ensures k in seen
      {
        assert Covered(cfg, end, k);
      }
    }
    forall k | Reachable(g, Members(roots), k)
      ensures k in seen
    {
      ClosedHoldsReachable(g, Members(roots), seen, k);
    }
  }

  /** Exactness: each object once, and an object iff it is readable, reachable from a want, not from a common commit,
      and not filtered out. */
  lemma NeedExact(store: Store, fmt: Format, wants: seq<bytes>, common: seq<bytes>, filter: Option<Filter>)
    ensures
      var needed, g := Fetch(store, fmt, wants, common, None, filter).needed, Objects(store, fmt);
      && Distinct(needed)
      && forall k :: k in needed <==>
           && Reachable(g, Members(Labels(fmt, wants)), k) && !Reachable(g, Members(Labels(fmt, common)), k)
           && Readable(store, k) && !Excluded(store, filter, k)
  {
    hide WholeWalk, Readable, Excluded, Reachable, Refs, HaveSet;
    HaveExact(store, fmt, common);
    WalkExact(Config(store, fmt, HaveSet(store, fmt, common), None, filter), wants);
  }

  /** A client that receives the need set is complete: whatever its objects refer to and the store can read, it has. */
  lemma NeedPlusHaveIsClosed(store: Store, fmt: Format, wants: seq<bytes>, common: seq<bytes>, k: Kappa, c: Kappa)
    requires k in Fetch(store, fmt, wants, common, None, None).needed || k in HaveSet(store, fmt, common)
    requires c in Refs(store, fmt, k) && Readable(store, c)
    ensures c in Fetch(store, fmt, wants, common, None, None).needed || c in HaveSet(store, fmt, common)
  {
    hide Fetch, Readable, Reachable, Refs, HaveSet;
    var g := Objects(store, fmt);
    assert c in g(k);
    HaveExact(store, fmt, common);
    NeedExact(store, fmt, wants, common, None);
    if k !in HaveSet(store, fmt, common) {
      StepReachable(g, Members(Labels(fmt, wants)), k, c);
    }
  }

  /** The tree and the parents of a commit that is sent are sent too, unless the client has them already. */
  lemma HistoryIsSent(store: Store, fmt: Format, wants: seq<bytes>, common: seq<bytes>, filter: Option<Filter>,
                      k: Kappa, items: seq<HeaderItem>, message: bytes, id: bytes)
    requires k in Fetch(store, fmt, wants, common, None, filter).needed
    requires k in store && store[k] == Git(Commit, CommitContent(items, message)) && ItemsFit(fmt, items)
    requires id in ItemIds(items) && Readable(store, Label(fmt, id)) && store[Label(fmt, id)].kind != Blob
    ensures
      var c := Label(fmt, id);
      c in Fetch(store, fmt, wants, common, None, filter).needed || c in HaveSet(store, fmt, common)
  {
    hide Fetch, Reachable, HaveSet, CommitContent, ItemsFit, Label;
    var g, c := Objects(store, fmt), Label(fmt, id);
    CommitRoundTrip(fmt, items, message);
    LabelIn(fmt, ItemIds(items), id);
    assert c in g(k);
    NeedExact(store, fmt, wants, common, filter);
    HaveExact(store, fmt, common);
    StepReachable(g, Members(Labels(fmt, wants)), k, c);
  }

  lemma LabelIn(fmt: Format, ids: seq<bytes>, id: bytes)
    requires id in ids
    ensures Label(fmt, id) in Labels(fmt, ids)
  {
    hide Label;
    var i :| 0 <= i < |ids| && ids[i] == id;
    assert Labels(fmt, ids)[i] == Label(fmt, id);
  }

  /** What the filters mean: none of the blobs, or those of at most `limit` bytes; everything else is sent as before. */
  lemma FilterMeaning(store: Store, fmt: Format, wants: seq<bytes>, common: seq<bytes>, limit: nat, k: Kappa)
    ensures
      var all := Fetch(store, fmt, wants, common, None, None).needed;
      && (k in Fetch(store, fmt, wants, common, None, Some(BlobNone)).needed <==>
          k in all && k in store && store[k].Git? && store[k].kind != Blob)
      && (k in Fetch(store, fmt, wants, common, None, Some(BlobLimit(limit))).needed <==>
          k in all && k in store && store[k].Git? && (store[k].kind == Blob ==> |store[k].content| <= limit))
  {
    hide Fetch, Reachable;
    NeedExact(store, fmt, wants, common, None);
    NeedExact(store, fmt, wants, common, Some(BlobNone));
    NeedExact(store, fmt, wants, common, Some(BlobLimit(limit)));
  }
}
