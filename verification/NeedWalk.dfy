/** The fetch walk: which objects a client that wants some commits and has others must be sent. */
module NeedWalk {
  import opened Bytes
  import opened PackFormat
  import opened PackIngest
  import opened GitObjects
  import opened Graph
  import Gc

  datatype Filter = BlobNone | BlobLimit(limit: nat)

  datatype Config = Config(store: Store, fmt: Format, have: set<Kappa>, deepen: Option<nat>, filter: Option<Filter>)

  predicate Readable(store: Store, k: Kappa) {
    k in store && store[k].Git?
  }

  predicate IsCommit(store: Store, k: Kappa) {
    Readable(store, k) && store[k].kind == Commit
  }

  function Refs(store: Store, fmt: Format, k: Kappa): seq<Kappa> {
    if Readable(store, k) then Children(fmt, store[k].kind, store[k].content) else []
  }

  /** The object graph of a store. */
  function Objects(store: Store, fmt: Format): Successors {
    k => Refs(store, fmt, k)
  }

  predicate Excluded(store: Store, filter: Option<Filter>, k: Kappa) {
    && Readable(store, k) && store[k].kind == Blob && filter.Some?
    && match filter.value
       case BlobNone => true
       case BlobLimit(limit) => |store[k].content| > limit
  }

  /** The variables of the walk loop. */
  datatype Walk = Walk(queue: seq<Kappa>, visited: set<Kappa>, depth: map<Kappa, nat>, needed: seq<Kappa>,
      shallows: set<Kappa>)

  /** Neither visited nor already at the client. */
  function Fresh(cfg: Config, cs: seq<Kappa>, visited: set<Kappa>): seq<Kappa> {
    if cs == [] then []
    else (if cs[0] !in visited && cs[0] !in cfg.have then [cs[0]] else []) + Fresh(cfg, cs[1..], visited)
  }

  /** The fresh ones that are known not to be commits. */
  function FreshNonCommits(cfg: Config, cs: seq<Kappa>, visited: set<Kappa>): seq<Kappa> {
    if cs == [] then []
    else
      (if cs[0] !in visited && cs[0] !in cfg.have && Readable(cfg.store, cs[0]) && !IsCommit(cfg.store, cs[0])
       then [cs[0]] else [])
      + FreshNonCommits(cfg, cs[1..], visited)
  }

  /** First discovery fixes a depth. */
  function Discover(depth: map<Kappa, nat>, cs: seq<Kappa>, d: nat): map<Kappa, nat>
    decreases |cs|
  {
    if cs == [] then depth
    else Discover(if cs[0] in depth then depth else depth[cs[0] := d], cs[1..], d)
  }

  function Assign(depth: map<Kappa, nat>, cs: seq<Kappa>, d: nat): map<Kappa, nat>
    decreases |cs|
  {
    if cs == [] then depth else Assign(depth[cs[0] := d], cs[1..], d)
  }

  function DepthOf(w: Walk, k: Kappa): nat {
    if k in w.depth then w.depth[k] else 0
  }

  predicate AtBoundary(cfg: Config, w: Walk, k: Kappa) {
    IsCommit(cfg.store, k) && cfg.deepen.Some? && DepthOf(w, k) >= cfg.deepen.value
  }

  /** One turn of the loop. */
  function Step(cfg: Config, w: Walk): Walk
    requires w.queue != []
  {
    var k, rest := w.queue[0], w.queue[1..];
    if k in w.visited || k in cfg.have then w.(queue := rest)
    else
      var visited := w.visited + {k};
      if !Readable(cfg.store, k) || Excluded(cfg.store, cfg.filter, k) then w.(queue := rest, visited := visited)
      else
        var cs := Refs(cfg.store, cfg.fmt, k);
        if AtBoundary(cfg, w, k) then
          var push := FreshNonCommits(cfg, cs, visited);
          Walk(rest + push, visited, Assign(w.depth, push, DepthOf(w, k)), w.needed + [k], w.shallows + {k})
        else
          var push := Fresh(cfg, cs, visited);
          Walk(rest + push, visited, Discover(w.depth, push, DepthOf(w, k) + 1), w.needed + [k], w.shallows)
  }

  /** Everything the walk can meet lies in the finite set `u`. */
  ghost predicate Bounded(cfg: Config, w: Walk, u: set<Kappa>) {
    && (forall k :: k in w.queue ==> k in u) && w.visited <= u
    && Closed(Objects(cfg.store, cfg.fmt), u)
  }

  lemma {:induction false} FreshMembers(cfg: Config, cs: seq<Kappa>, visited: set<Kappa>, k: Kappa)
    ensures k in Fresh(cfg, cs, visited) <==> k in cs && k !in visited && k !in cfg.have
    ensures
      k in FreshNonCommits(cfg, cs, visited) <==>
      k in cs && k !in visited && k !in cfg.have && Readable(cfg.store, k) && !IsCommit(cfg.store, k)
    decreases |cs|
  {
    if cs != [] {
      assert cs == [cs[0]] + cs[1..];
      FreshMembers(cfg, cs[1..], visited, k);
    }
  }

  lemma {:induction false} StepBounded(cfg: Config, w: Walk, u: set<Kappa>)
    requires Bounded(cfg, w, u) && w.queue != []
    ensures Bounded(cfg, Step(cfg, w), u)
    ensures
      var w' := Step(cfg, w);
      |u - w'.visited| < |u - w.visited| || (w'.visited == w.visited && |w'.queue| < |w.queue|)
  {
    hide Step, Refs, Closed;
    var k, w' := w.queue[0], Step(cfg, w);
    assert w.queue == [k] + w.queue[1..];
    StepVisits(cfg, w);
    if k !in w.visited && k !in cfg.have {
      OneMoreVisited(u, w.visited, k);
      forall c | c in w'.queue
        ensures c in u
      {
        StepQueues(cfg, w, c);
        RefsInside(cfg, u, k, c);
      }
    }
  }

  lemma StepVisits(cfg: Config, w: Walk)
    requires w.queue != []
    ensures var k, w' := w.queue[0], Step(cfg, w);
      if k in w.visited || k in cfg.have then w' == w.(queue := w.queue[1..]) else w'.visited == w.visited + {k}
  {
    hide Assign, Discover, Fresh, FreshNonCommits, AtBoundary, Refs;
  }

  lemma StepQueues(cfg: Config, w: Walk, c: Kappa)
    requires w.queue != [] && c in Step(cfg, w).queue
    ensures c in w.queue[1..] || c in Refs(cfg.store, cfg.fmt, w.queue[0])
  {
    hide Assign, Discover, Fresh, FreshNonCommits, AtBoundary, Refs;
    FreshMembers(cfg, Refs(cfg.store, cfg.fmt, w.queue[0]), w.visited + {w.queue[0]}, c);
  }

  lemma RefsInside(cfg: Config, u: set<Kappa>, k: Kappa, c: Kappa)
    requires Closed(Objects(cfg.store, cfg.fmt), u) && k in u
    ensures c in Refs(cfg.store, cfg.fmt, k) ==> c in u
  {
    hide Refs;
    assert c in Refs(cfg.store, cfg.fmt, k) ==> c in Objects(cfg.store, cfg.fmt)(k);
  }

  lemma OneMoreVisited(u: set<Kappa>, visited: set<Kappa>, k: Kappa)
    requires k in u && k !in visited
    ensures |u - (visited + {k})| < |u - visited|
  {
    assert u - (visited + {k}) < u - visited by {
      assert k in u - visited;
    }
    Gc.SmallerSet(u - (visited + {k}), u - visited);
  }

  /** The whole loop. */
  ghost function Run(cfg: Config, w: Walk, u: set<Kappa>): Walk
    requires Bounded(cfg, w, u)
    decreases |u - w.visited|, |w.queue|
  {
    if w.queue == [] then w
    else
      StepBounded(cfg, w, u);
      Run(cfg, Step(cfg, w), u)
  }

  function Start(cfg: Config, wants: seq<bytes>): Walk {
    var queue := Fresh(cfg, Labels(cfg.fmt, wants), {});
    Walk(queue, {}, Assign(map[], queue, 1), [], {})
  }

  /** Everything a walk from `roots` can meet. */
  function Universe(store: Store, fmt: Format, roots: seq<Kappa>): set<Kappa> {
    Members(roots) + set k, c | k in store && c in Refs(store, fmt, k) :: c
  }

  lemma UniverseCloses(store: Store, fmt: Format, roots: seq<Kappa>)
    ensures Members(roots) <= Universe(store, fmt, roots) && Closed(Objects(store, fmt), Universe(store, fmt, roots))
  {
    hide Children;
    forall k, c | c in Objects(store, fmt)(k)
      ensures c in Universe(store, fmt, roots)
    {
      assert k in store && c in Refs(store, fmt, k);
    }
  }

  lemma StartBounded(cfg: Config, wants: seq<bytes>)
    ensures Bounded(cfg, Start(cfg, wants), Universe(cfg.store, cfg.fmt, Labels(cfg.fmt, wants)))
  {
    hide Fresh, Assign, Universe, Refs;
    UniverseCloses(cfg.store, cfg.fmt, Labels(cfg.fmt, wants));
    forall k | k in Start(cfg, wants).queue
      ensures k in Labels(cfg.fmt, wants)
    {
      FreshMembers(cfg, Labels(cfg.fmt, wants), {}, k);
    }
  }

  /** The walk from its start to its end. */
  ghost function WholeWalk(cfg: Config, wants: seq<bytes>): Walk {
    StartBounded(cfg, wants);
    Run(cfg, Start(cfg, wants), Universe(cfg.store, cfg.fmt, Labels(cfg.fmt, wants)))
  }

  /** What the client has: everything reachable from the commits both sides share. */
  ghost function HaveSet(store: Store, fmt: Format, common: seq<bytes>): set<Kappa> {
    set k | k in Universe(store, fmt, Labels(fmt, common)) &&
            Reachable(Objects(store, fmt), Members(Labels(fmt, common)), k)
  }

  lemma HaveExact(store: Store, fmt: Format, common: seq<bytes>)
    ensures forall k :: k in HaveSet(store, fmt, common) <==>
              Reachable(Objects(store, fmt), Members(Labels(fmt, common)), k)
    ensures Closed(Objects(store, fmt), HaveSet(store, fmt, common))
  {
    hide Reachable, Universe, Refs;
    var g, roots := Objects(store, fmt), Labels(fmt, common);
    UniverseCloses(store, fmt, roots);
    forall k | Reachable(g, Members(roots), k)
      ensures k in HaveSet(store, fmt, common)
    {
      ClosedHoldsReachable(g, Members(roots), Universe(store, fmt, roots), k);
    }
    forall k, c | k in HaveSet(store, fmt, common) && c in g(k)
      ensures c in HaveSet(store, fmt, common)
    {
      StepReachable(g, Members(roots), k, c);
    }
  }

  /** The end of the walk of a fetch. */
  ghost function Fetch(store: Store, fmt: Format, wants: seq<bytes>, common: seq<bytes>, deepen: Option<nat>,
                       filter: Option<Filter>): Walk {
    WholeWalk(Config(store, fmt, HaveSet(store, fmt, common), deepen, filter), wants)
  }

  // ---- The loops of the source ----

  method WalkReachable(store: Store, fmt: Format, roots: seq<bytes>) returns (reachable: set<Kappa>)
    ensures forall k :: k in reachable <==> Reachable(Objects(store, fmt), Members(Labels(fmt, roots)), k)
  {
    hide Refs, Universe;
    UniverseCloses(store, fmt, Labels(fmt, roots));
    reachable := Gc.ComputeReachable(Labels(fmt, roots), Objects(store, fmt), Universe(store, fmt, Labels(fmt, roots)));
  }

  /** At the depth limit: trees and blobs are still walked, parents are not. */
  method PushNonCommits(cfg: Config, cs: seq<Kappa>, visited: set<Kappa>, current: nat,
                        queue: seq<Kappa>, depth: map<Kappa, nat>) returns (q: seq<Kappa>, dm: map<Kappa, nat>)
    ensures q == queue + FreshNonCommits(cfg, cs, visited)
    ensures dm == Assign(depth, FreshNonCommits(cfg, cs, visited), current)
  {
    hide Readable, IsCommit;
    q, dm := queue, depth;
    for i := 0 to |cs|
      invariant q + FreshNonCommits(cfg, cs[i..], visited) == queue + FreshNonCommits(cfg, cs, visited)
      invariant Assign(dm, FreshNonCommits(cfg, cs[i..], visited), current) ==
                Assign(depth, FreshNonCommits(cfg, cs, visited), current)
    {
      var c := cs[i];
      ghost var more := FreshNonCommits(cfg, cs[i + 1..], visited);
      assert cs[i..][0] == c && cs[i..][1..] == cs[i + 1..];
      assert ([c] + more)[1..] == more;
      assert [] + more == more;
      if c !in visited && c !in cfg.have {
        if Readable(cfg.store, c) && !IsCommit(cfg.store, c) {
          q := q + [c];
          dm := dm[c := current];
        }
      }
    }
  }

  method PushChildren(cfg: Config, cs: seq<Kappa>, visited: set<Kappa>, current: nat,
                      queue: seq<Kappa>, depth: map<Kappa, nat>) returns (q: seq<Kappa>, dm: map<Kappa, nat>)
    ensures q == queue + Fresh(cfg, cs, visited)
    ensures dm == Discover(depth, Fresh(cfg, cs, visited), current + 1)
  {
    q, dm := queue, depth;
    for i := 0 to |cs|
      invariant q + Fresh(cfg, cs[i..], visited) == queue + Fresh(cfg, cs, visited)
      invariant Discover(dm, Fresh(cfg, cs[i..], visited), current + 1) ==
                Discover(depth, Fresh(cfg, cs, visited), current + 1)
    {
      var c := cs[i];
      ghost var more := Fresh(cfg, cs[i + 1..], visited);
      assert cs[i..][0] == c && cs[i..][1..] == cs[i + 1..];
      assert ([c] + more)[1..] == more;
      assert [] + more == more;
      if c !in visited && c !in cfg.have {
        if c !in dm {
          dm := dm[c := current + 1];
        }
        q := q + [c];
      }
    }
  }

  /** The loop body, on the loop's variables. */
  method Turn(cfg: Config, w: Walk) returns (w': Walk)
    requires w.queue != []
    ensures w' == Step(cfg, w)
  {
    hide Refs, Readable, IsCommit, Excluded, Fresh, FreshNonCommits, Assign, Discover;
    var kappa := w.queue[0];
    w' := w.(queue := w.queue[1..]);
    if kappa in w.visited || kappa in cfg.have {
      return;
    }
    w' := w'.(visited := w.visited + {kappa});
    if !Readable(cfg.store, kappa) {
      return;
    }
    if Excluded(cfg.store, cfg.filter, kappa) {
      return;
    }
    var current := DepthOf(w, kappa);
    var cs := Refs(cfg.store, cfg.fmt, kappa);
    w' := w'.(needed := w.needed + [kappa]);
    if IsCommit(cfg.store, kappa) && cfg.deepen.Some? && current >= cfg.deepen.value {
      var q, dm := PushNonCommits(cfg, cs, w'.visited, current, w'.queue, w.depth);
      w' := w'.(queue := q, depth := dm, shallows := w.shallows + {kappa});
    } else {
      var q, dm := PushChildren(cfg, cs, w'.visited, current, w'.queue, w.depth);
      w' := w'.(queue := q, depth := dm);
    }
  }

  /** The method computes exactly what the loop specification does, and ends on every store. */
  method ComputeNeedSet(store: Store, fmt: Format, wants: seq<bytes>, common: seq<bytes>, deepen: Option<nat>,
                        filter: Option<Filter>)
    returns (needed: seq<Kappa>, shallows: set<Kappa>)
    ensures
      var end := Fetch(store, fmt, wants, common, deepen, filter);
      needed == end.needed && shallows == end.shallows
  {
    hide Reachable, Closed, Step, Bounded, Start, Universe;
    var have := WalkReachable(store, fmt, common);
    HaveExact(store, fmt, common);
    assert have == HaveSet(store, fmt, common);
    var c := Config(store, fmt, have, deepen, filter);
    ghost var u := Universe(store, fmt, Labels(fmt, wants));
    StartBounded(c, wants);
    var w := Start(c, wants);
    while w.queue != []
      invariant Bounded(c, w, u) && Bounded(c, Start(c, wants), u)
      invariant Run(c, w, u) == Run(c, Start(c, wants), u)
      decreases |u - w.visited|, |w.queue|
    {
      StepBounded(c, w, u);
      w := Turn(c, w);
    }
    needed, shallows := w.needed, w.shallows;
  }
}
