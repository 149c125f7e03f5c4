/** What a blob filter does to a fetch: the same walk, with the excluded blobs left out of what is sent. */
module BlobFilter {
  import opened Bytes
  import opened PackIngest
  import opened GitObjects
  import opened Graph
  import opened NeedWalk

  /** The objects a filter lets through, in order. */
  function Kept(store: Store, filter: Option<Filter>, ks: seq<Kappa>): seq<Kappa> {
    if ks == [] then []
    else
      var last := ks[|ks| - 1];
      Kept(store, filter, ks[..|ks| - 1]) + if Excluded(store, filter, last) then [] else [last]
  }

  lemma {:induction false} KeptMembers(store: Store, filter: Option<Filter>, ks: seq<Kappa>, k: Kappa)
    ensures k in Kept(store, filter, ks) <==> k in ks && !Excluded(store, filter, k)
    decreases |ks|
  {
    hide Excluded;
    if ks != [] {
      assert ks == ks[..|ks| - 1] + [ks[|ks| - 1]];
      KeptMembers(store, filter, ks[..|ks| - 1], k);
    }
  }

  lemma {:induction false} KeptDistinct(store: Store, filter: Option<Filter>, ks: seq<Kappa>)
    requires Distinct(ks)
    ensures Distinct(Kept(store, filter, ks))
    decreases |ks|
  {
    hide Excluded;
    if ks != [] {
      KeptDistinct(store, filter, ks[..|ks| - 1]);
      KeptMembers(store, filter, ks[..|ks| - 1], ks[|ks| - 1]);
    }
  }

  /** Two walks in step: one with the filter, one without. */
  ghost predicate Alongside(cfg: Config, w: Walk, plain: Walk) {
    w == plain.(needed := Kept(cfg.store, cfg.filter, plain.needed))
  }

  lemma {:induction false} SameFresh(cfg: Config, cs: seq<Kappa>, visited: set<Kappa>)
    ensures Fresh(cfg, cs, visited) == Fresh(cfg.(filter := None), cs, visited)
    ensures FreshNonCommits(cfg, cs, visited) == FreshNonCommits(cfg.(filter := None), cs, visited)
    decreases |cs|
  {
    hide Readable, IsCommit;
    if cs != [] {
      SameFresh(cfg, cs[1..], visited);
    }
  }

  lemma KeptOneMore(store: Store, filter: Option<Filter>, ks: seq<Kappa>, k: Kappa)
    ensures Kept(store, filter, ks + [k]) == Kept(store, filter, ks) + if Excluded(store, filter, k) then [] else [k]
  {
    hide Excluded;
    assert (ks + [k])[..|ks|] == ks;
  }

  /** An excluded blob leaves nothing behind: it has no references. */
  lemma StepExcluded(cfg: Config, w: Walk)
    requires w.queue != [] && w.queue[0] !in w.visited && w.queue[0] !in cfg.have
    requires Excluded(cfg.store, cfg.filter, w.queue[0])
    ensures
      var k, rest := w.queue[0], w.(queue := w.queue[1..], visited := w.visited + {w.queue[0]});
      Step(cfg, w) == rest && Step(cfg.(filter := None), w) == rest.(needed := w.needed + [k])
  {
    hide FreshNonCommits, Assign;
    assert Refs(cfg.store, cfg.fmt, w.queue[0]) == [];
    assert w.queue[1..] + [] == w.queue[1..];
  }

  lemma StepAlongside(cfg: Config, w: Walk, plain: Walk)
    requires w.queue != [] && Alongside(cfg, w, plain)
    ensures Alongside(cfg, Step(cfg, w), Step(cfg.(filter := None), plain))
  {
    hide Refs, Readable, IsCommit, Fresh, FreshNonCommits, Assign, Discover, Kept;
    var k := w.queue[0];
    KeptOneMore(cfg.store, cfg.filter, plain.needed, k);
    if k !in w.visited && k !in cfg.have {
      if Excluded(cfg.store, cfg.filter, k) {
        StepExcluded(cfg, w);
        StepExcluded(cfg, plain);
      } else {
        SameFresh(cfg, Refs(cfg.store, cfg.fmt, k), w.visited + {k});
      }
    }
  }

  lemma {:induction false} RunAlongside(cfg: Config, w: Walk, plain: Walk, u: set<Kappa>)
    requires Alongside(cfg, w, plain) && Bounded(cfg, w, u) && Bounded(cfg.(filter := None), plain, u)
    ensures Alongside(cfg, Run(cfg, w, u), Run(cfg.(filter := None), plain, u))
    decreases |u - w.visited|, |w.queue|
  {
    hide Step, Bounded, Kept;
    if w.queue != [] {
      StepBounded(cfg, w, u);
      StepBounded(cfg.(filter := None), plain, u);
      StepAlongside(cfg, w, plain);
      RunAlongside(cfg, Step(cfg, w), Step(cfg.(filter := None), plain), u);
    }
  }

  /** With or without a depth limit, a filtered fetch sends the unfiltered sequence with the excluded blobs taken out,
      in the same order, and marks the same commits shallow. */
  lemma FilterOnlyRemovesBlobs(store: Store, fmt: Format, wants: seq<bytes>, common: seq<bytes>, deepen: Option<nat>,
                               filter: Option<Filter>)
    ensures
      var plain := Fetch(store, fmt, wants, common, deepen, None);
      Fetch(store, fmt, wants, common, deepen, filter) == plain.(needed := Kept(store, filter, plain.needed))
  {
    hide Run, Assign, HaveSet, Universe, Fresh, Bounded;
    var cfg := Config(store, fmt, HaveSet(store, fmt, common), deepen, filter);
    SameFresh(cfg, Labels(fmt, wants), {});
    StartBounded(cfg, wants);
    StartBounded(cfg.(filter := None), wants);
    RunAlongside(cfg, Start(cfg, wants), Start(cfg.(filter := None), wants), Universe(store, fmt, Labels(fmt, wants)));
  }
}
