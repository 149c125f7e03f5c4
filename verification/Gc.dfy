/** Garbage collection: the root set, the reachability walk and the sweep. */
module Gc {
  import opened Bytes
  import opened Graph
  import Lex

  // ---- The walk ----

  ghost predicate Pending(succ: Successors, roots: seq<Kappa>, reachable: set<Kappa>, queue: seq<Kappa>) {
    && (forall k :: k in roots ==> k in reachable || k in queue)
    && (forall k, c :: k in reachable && c in succ(k) ==> c in reachable || c in queue)
    && (forall k :: k in reachable || k in queue ==> Reachable(succ, Members(roots), k))
  }

  /** The frontier loop pushes the targets that are not yet marked; together with those marked that is all of them. */
  method PushTargets(targets: seq<Kappa>, reachable: set<Kappa>, queue: seq<Kappa>) returns (q: seq<Kappa>)
    ensures forall k :: k in q <==> k in queue || (k in targets && k !in reachable)
  {
    q := queue;
    for i := 0 to |targets|
      invariant forall k :: k in q <==> k in queue || (k in targets[..i] && k !in reachable)
    {
      assert targets[..i + 1] == targets[..i] + [targets[i]];
      if targets[i] !in reachable {
        q := q + [targets[i]];
      }
    }
    assert targets[..|targets|] == targets;
  }

  lemma Popped(succ: Successors, roots: seq<Kappa>, reachable: set<Kappa>, queue: seq<Kappa>, q: seq<Kappa>)
    requires queue != [] && queue[0] !in reachable
    requires Pending(succ, roots, reachable, queue)
    requires forall k :: k in q <==> k in queue[1..] || (k in succ(queue[0]) && k !in reachable + {queue[0]})
    ensures Pending(succ, roots, reachable + {queue[0]}, q)
  {
    hide Reachable;
    var k0, rs := queue[0], Members(roots);
    assert queue == [k0] + queue[1..];
    assert Reachable(succ, rs, k0);
    forall k | k in succ(k0)
      ensures Reachable(succ, rs, k)
    {
      StepReachable(succ, rs, k0, k);
    }
  }

  /** On every finite graph, cycles included, the walk ends with exactly the reachable kappas. */
  method ComputeReachable(roots: seq<Kappa>, succ: Successors, ghost universe: set<Kappa>)
    returns (reachable: set<Kappa>)
    requires (forall k :: k in roots ==> k in universe) && Closed(succ, universe)
    ensures forall k :: k in reachable <==> Reachable(succ, Members(roots), k)
    ensures reachable <= universe
  {
    hide Reachable;
    reachable := {};
    var queue := roots;
    RootsReachable(succ, roots);
    while queue != []
      invariant Pending(succ, roots, reachable, queue)
      invariant reachable <= universe && forall k :: k in queue ==> k in universe
      decreases |universe - reachable|, |queue|
    {
      var kappa := queue[0];
      var rest := queue[1..];
      assert queue == [kappa] + rest;
      if kappa in reachable {
        queue := rest;
        continue;
      }
      var q := PushTargets(succ(kappa), reachable + {kappa}, rest);
      Popped(succ, roots, reachable, queue, q);
      assert universe - (reachable + {kappa}) < universe - reachable by {
        assert kappa in universe - reachable;
      }
      SmallerSet(universe - (reachable + {kappa}), universe - reachable);
      reachable := reachable + {kappa};
      queue := q;
    }
    ExactlyReachable(succ, Members(roots), reachable);
  }

  lemma RootsReachable(succ: Successors, roots: seq<Kappa>)
    ensures Pending(succ, roots, {}, roots)
  {
    forall k | k in roots
      ensures Reachable(succ, Members(roots), k)
    {
      RootReachable(succ, Members(roots), k);
    }
  }

  lemma SmallerSet(a: set<Kappa>, b: set<Kappa>)
    requires a < b
    ensures |a| < |b|
  {
    var y :| y in b && y !in a;
    assert y in b - a;
    assert b == a + (b - a);
  }

  // ---- The root set ----

  datatype Namespace = Namespace(uuid: bytes, tags: seq<Kappa>, epoch: Option<Kappa>)

  /** What the collector sees: blobs, namespaces, and how an epoch blob names its predecessor. */
  datatype Registry = Registry(blobs: map<Kappa, bytes>, namespaces: seq<Namespace>,
      epochPrev: bytes -> Option<Option<Kappa>>)

  /** `epoch_get`: the predecessor of an epoch, if its blob is there and decodes. */
  function Prev(r: Registry, k: Kappa): Option<Option<Kappa>> {
    if k in r.blobs then r.epochPrev(r.blobs[k]) else None
  }

  function PrevList(r: Registry, k: Kappa): seq<Kappa> {
    match Prev(r, k)
    case Some(Some(p)) => [p]
    case _ => []
  }

  function Prevs(r: Registry): Successors {
    k => PrevList(r, k)
  }

  /** The walk back from `epoch` stops within `turns` turns of its loop. */
  ghost predicate Ends(r: Registry, epoch: Option<Kappa>, turns: nat)
    decreases turns
  {
    epoch.None? || (turns > 0 && (Prev(r, epoch.value).None? || Ends(r, Prev(r, epoch.value).value, turns - 1)))
  }

  /** Back to the first epoch, or to the first unreadable one (which is still listed). */
  ghost function Chain(r: Registry, epoch: Option<Kappa>, turns: nat): seq<Kappa>
    requires Ends(r, epoch, turns)
    decreases turns
  {
    if epoch.None? then []
    else [epoch.value] + if Prev(r, epoch.value).None? then [] else Chain(r, Prev(r, epoch.value).value, turns - 1)
  }

  lemma {:induction false} EndsLater(r: Registry, epoch: Option<Kappa>, m: nat, n: nat)
    requires Ends(r, epoch, m) && m <= n
    ensures Ends(r, epoch, n) && Chain(r, epoch, n) == Chain(r, epoch, m)
    decreases m
  {
    hide Prev;
    if epoch.Some? && Prev(r, epoch.value).Some? {
      EndsLater(r, Prev(r, epoch.value).value, m - 1, n - 1);
    }
  }

  /** The number of turns in which a walk that stops has stopped: one for each blob, and one more. */
  function Turns(r: Registry): nat {
    |r.blobs| + 1
  }

  // ---- When the walk stops ----

  /** Some epoch on the chain from `k` is its own ancestor. */
  ghost predicate Cyclic(r: Registry, k: Kappa) {
    exists e, p :: Reachable(Prevs(r), {k}, e) && p in PrevList(r, e) && Reachable(Prevs(r), {p}, e)
  }

  lemma {:induction false} EndsBehind(r: Registry, k: Kappa, e: Kappa, n: nat)
    requires Ends(r, Some(k), n) && Reachable(Prevs(r), {k}, e)
    ensures Ends(r, Some(e), n)
    decreases n
  {
    hide Reachable;
    match Prev(r, k) {
      case Some(Some(p)) =>
        ReachableVia(Prevs(r), k, p, e);
        if e != k {
          EndsBehind(r, p, e, n - 1);
          EndsLater(r, Some(e), n - 1, n);
        }
      case _ =>
        ReachableNowhere(Prevs(r), k, e);
    }
  }

  lemma {:induction false} EndsMeansNoLoop(r: Registry, e: Kappa, p: Kappa, n: nat)
    requires Ends(r, Some(e), n) && p in PrevList(r, e)
    ensures !Reachable(Prevs(r), {p}, e)
    decreases n
  {
    if Reachable(Prevs(r), {p}, e) {
      EndsBehind(r, p, e, n - 1);
      EndsMeansNoLoop(r, e, p, n - 1);
    }
  }

  lemma OneTurn(r: Registry, start: Kappa, k: Kappa, p: Kappa, seen: set<Kappa>)
    requires !Cyclic(r, start) && Reachable(Prevs(r), {start}, k) && p in PrevList(r, k)
    requires forall s :: s in seen ==> Reachable(Prevs(r), {s}, k)
    ensures Reachable(Prevs(r), {start}, p) && p !in seen + {k}
    ensures forall s :: s in seen + {k} ==> Reachable(Prevs(r), {s}, p)
  {
    hide Reachable;
    assert p in Prevs(r)(k);
    RootReachable(Prevs(r), {k}, k);
    StepReachable(Prevs(r), {start}, k, p);
    forall s | s in seen + {k}
      ensures Reachable(Prevs(r), {s}, p)
    {
      StepReachable(Prevs(r), {s}, k, p);
    }
  }

  lemma OneFewer(keys: set<Kappa>, seen: set<Kappa>, k: Kappa)
    requires k in keys && k !in seen
    ensures |keys - seen| == |keys - (seen + {k})| + 1
  {
    assert keys - seen == (keys - (seen + {k})) + {k};
  }

  /** Without a loop every turn visits another blob. */
  lemma {:induction false} EndsWithoutLoop(r: Registry, start: Kappa, k: Kappa, seen: set<Kappa>)
    requires !Cyclic(r, start) && Reachable(Prevs(r), {start}, k)
    requires seen <= r.blobs.Keys && k !in seen && forall s :: s in seen ==> Reachable(Prevs(r), {s}, k)
    ensures Ends(r, Some(k), |r.blobs.Keys - seen| + 1)
    decreases |r.blobs.Keys - seen|
  {
    hide Reachable, Cyclic;
    match Prev(r, k) {
      case Some(Some(p)) =>
        assert p in PrevList(r, k);
        OneTurn(r, start, k, p, seen);
        OneFewer(r.blobs.Keys, seen, k);
        EndsWithoutLoop(r, start, p, seen + {k});
      case _ =>
    }
  }

  /** The walk from `k` stops iff no epoch behind `k` is its own ancestor; otherwise no number of turns is enough. */
  lemma WalkEndsIff(r: Registry, k: Kappa)
    ensures !Cyclic(r, k) <==> Ends(r, Some(k), Turns(r))
    ensures !Cyclic(r, k) <==> exists n: nat :: Ends(r, Some(k), n)
  {
    hide Reachable;
    if !Cyclic(r, k) {
      RootReachable(Prevs(r), {k}, k);
      EndsWithoutLoop(r, k, k, {});
      assert r.blobs.Keys - {} == r.blobs.Keys;
    }
    forall n: nat, e, p | Ends(r, Some(k), n) && Reachable(Prevs(r), {k}, e) && p in PrevList(r, e)
      ensures !Reachable(Prevs(r), {p}, e)
    {
      EndsBehind(r, k, e, n);
      EndsMeansNoLoop(r, e, p, n);
    }
  }

  // ---- The loops ----

  predicate Named(ns: Namespace) {
    |ns.uuid| == 16
  }

  /** Every walk from a current epoch stops. */
  ghost predicate EpochsEnd(r: Registry) {
    forall ns :: ns in r.namespaces && Named(ns) ==> Ends(r, ns.epoch, Turns(r))
  }

  ghost function NamespaceRoots(r: Registry, ns: Namespace): seq<Kappa>
    requires Named(ns) ==> Ends(r, ns.epoch, Turns(r))
  {
    if Named(ns) then ns.tags + Chain(r, ns.epoch, Turns(r)) else []
  }

  ghost function Roots(r: Registry, n: nat): seq<Kappa>
    requires EpochsEnd(r) && n <= |r.namespaces|
  {
    if n == 0 then [] else Roots(r, n - 1) + NamespaceRoots(r, r.namespaces[n - 1])
  }

  lemma ChainStep(r: Registry, k: Kappa, turns: nat, roots: seq<Kappa>)
    requires Ends(r, Some(k), turns)
    ensures turns > 0
    ensures
      if Prev(r, k).None? then roots + Chain(r, Some(k), turns) == roots + [k]
      else
        && Ends(r, Prev(r, k).value, turns - 1)
        && roots + Chain(r, Some(k), turns) == (roots + [k]) + Chain(r, Prev(r, k).value, turns - 1)
  {
    hide Prev;
  }

  lemma ChainOfNone(r: Registry, turns: nat)
    ensures Ends(r, None, turns) && Chain(r, None, turns) == []
  {
  }

  method WalkEpochs(r: Registry, start: Option<Kappa>, initial: seq<Kappa>) returns (roots: seq<Kappa>)
    requires Ends(r, start, Turns(r))
    ensures roots == initial + Chain(r, start, Turns(r))
  {
    hide Prev, Ends, Chain;
    roots := initial;
    var epoch := start;
    ghost var left := Turns(r);
    while epoch.Some?
      invariant Ends(r, epoch, left)
      invariant roots + Chain(r, epoch, left) == initial + Chain(r, start, Turns(r))
      decreases left
    {
      var ek := epoch.value;
      ChainStep(r, ek, left, roots);
      roots := roots + [ek];
      match Prev(r, ek) {
        case Some(prev) => epoch := prev;
        case None => return;
      }
      left := left - 1;
    }
    ChainOfNone(r, left);
  }

  method BuildRootSet(r: Registry) returns (roots: seq<Kappa>)
    requires EpochsEnd(r)
    ensures roots == Lex.SortDedup(Roots(r, |r.namespaces|))
  {
    hide NamespaceRoots, Lex.SortDedup, Ends;
    roots := [];
    for i := 0 to |r.namespaces|
      invariant roots == Roots(r, i)
    {
      roots := AddNamespace(r, r.namespaces[i], roots);
    }
    roots := Lex.SortDedup(roots);
  }

  /** The tags and epochs of one namespace; one without a 16-byte identifier is skipped. */
  method AddNamespace(r: Registry, ns: Namespace, roots: seq<Kappa>) returns (out: seq<Kappa>)
    requires Named(ns) ==> Ends(r, ns.epoch, Turns(r))
    ensures out == roots + NamespaceRoots(r, ns)
  {
    hide Ends, Chain;
    out := roots;
    if |ns.uuid| != 16 {
      return;
    }
    out := AddTags(out, ns.tags);
    out := WalkEpochs(r, ns.epoch, out);
  }

  method AddTags(initial: seq<Kappa>, tags: seq<Kappa>) returns (roots: seq<Kappa>)
    ensures roots == initial + tags
  {
    roots := initial;
    for j := 0 to |tags|
      invariant roots == initial + tags[..j]
    {
      assert tags[..j + 1] == tags[..j] + [tags[j]];
      roots := roots + [tags[j]];
    }
    assert tags[..|tags|] == tags;
  }

  // ---- What the roots are ----

  lemma {:induction false} ChainIsReachable(r: Registry, k: Kappa, turns: nat, e: Kappa)
    requires Ends(r, Some(k), turns)
    ensures e in Chain(r, Some(k), turns) <==> Reachable(Prevs(r), {k}, e)
    decreases turns
  {
    hide Reachable;
    match Prev(r, k) {
      case Some(Some(p)) =>
        ChainIsReachable(r, p, turns - 1, e);
        ReachableVia(Prevs(r), k, p, e);
      case _ =>
        ReachableNowhere(Prevs(r), k, e);
    }
  }

  lemma ReachableVia(succ: Successors, k: Kappa, p: Kappa, e: Kappa)
    requires succ(k) == [p]
    ensures Reachable(succ, {k}, e) <==> e == k || Reachable(succ, {p}, e)
  {
    RootReachable(succ, {k}, k);
    if Reachable(succ, {k}, e) && e != k {
      var path :| IsPath(succ, path) && path[0] in {k} && path[|path| - 1] == e;
      assert path[0 + 1] in succ(path[0]);
      var q := path[1..];
      forall i | 0 <= i < |q| - 1
        ensures q[i + 1] in succ(q[i])
      {
        assert path[i + 1 + 1] in succ(path[i + 1]);
      }
      assert IsPath(succ, q) && q[0] in {p} && q[|q| - 1] == e;
    }
    if Reachable(succ, {p}, e) {
      var path :| IsPath(succ, path) && path[0] in {p} && path[|path| - 1] == e;
      var q := [k] + path;
      forall i | 0 <= i < |q| - 1
        ensures q[i + 1] in succ(q[i])
      {
        if i > 0 {
          assert path[i - 1 + 1] in succ(path[i - 1]);
        }
      }
      assert IsPath(succ, q) && q[0] in {k} && q[|q| - 1] == e;
    }
  }

  lemma ReachableNowhere(succ: Successors, k: Kappa, e: Kappa)
    requires succ(k) == []
    ensures Reachable(succ, {k}, e) <==> e == k
  {
    RootReachable(succ, {k}, k);
    assert Closed(succ, {k});
    if Reachable(succ, {k}, e) {
      ClosedHoldsReachable(succ, {k}, {k}, e);
    }
  }

  /** A kappa is a root exactly when a tag names it or it lies on the epoch chain, in a namespace with a full uuid. */
  ghost predicate IsRoot(r: Registry, k: Kappa) {
    exists ns :: ns in r.namespaces && |ns.uuid| == 16 &&
      (k in ns.tags || (ns.epoch.Some? && Reachable(Prevs(r), {ns.epoch.value}, k)))
  }

  lemma {:induction false} RootsUpTo(r: Registry, n: nat, k: Kappa)
    requires EpochsEnd(r) && n <= |r.namespaces|
    ensures k in Roots(r, n) <==> exists i :: 0 <= i < n && k in NamespaceRoots(r, r.namespaces[i])
  {
    hide Ends;
    if n > 0 {
      RootsUpTo(r, n - 1, k);
    }
  }

  lemma RootsAreRoots(r: Registry, k: Kappa)
    requires EpochsEnd(r)
    ensures k in Lex.SortDedup(Roots(r, |r.namespaces|)) <==> IsRoot(r, k)
  {
    hide Reachable, Roots, Lex.SortDedup;
    Lex.SortDedupKeeps(Roots(r, |r.namespaces|));
    RootsUpTo(r, |r.namespaces|, k);
    forall i | 0 <= i < |r.namespaces|
      ensures
        var ns := r.namespaces[i];
        k in NamespaceRoots(r, ns) <==>
        Named(ns) && (k in ns.tags || (ns.epoch.Some? && Reachable(Prevs(r), {ns.epoch.value}, k)))
    {
      var ns := r.namespaces[i];
      assert ns in r.namespaces;
      if Named(ns) && ns.epoch.Some? {
        ChainIsReachable(r, ns.epoch.value, Turns(r), k);
      }
    }
  }

  // ---- The sweep ----

  ghost function RootSet(r: Registry): set<Kappa>
    requires EpochsEnd(r)
  {
    Members(Lex.SortDedup(Roots(r, |r.namespaces|)))
  }

  /** Reachable from a root along the collector's edges. */
  ghost predicate Live(r: Registry, succ: Successors, k: Kappa)
    requires EpochsEnd(r)
  {
    Reachable(succ, RootSet(r), k)
  }

  /** The total size of the listed blobs that `blobs` still holds. */
  function Size(listing: seq<Kappa>, blobs: map<Kappa, bytes>): nat {
    if listing == [] then 0
    else
      var last := listing[|listing| - 1];
      Size(listing[..|listing| - 1], blobs) + if last in blobs then |blobs[last]| else 0
  }

  lemma {:induction false} SizeWithout(listing: seq<Kappa>, blobs: map<Kappa, bytes>, k: Kappa)
    requires Distinct(listing) && k in blobs
    ensures Size(listing, blobs) == Size(listing, blobs - {k}) + if k in listing then |blobs[k]| else 0
    decreases |listing|
  {
    if listing != [] {
      var init := listing[..|listing| - 1];
      SizeWithout(init, blobs, k);
      assert listing == init + [listing[|listing| - 1]];
    }
  }

  /** The blobs left once the first part of the listing has been handled. */
  function Left(blobs: map<Kappa, bytes>, reachable: set<Kappa>, done: seq<Kappa>): map<Kappa, bytes> {
    map k | k in blobs && (k in reachable || k !in done) :: blobs[k]
  }

  lemma LeftAtFirst(blobs: map<Kappa, bytes>, reachable: set<Kappa>)
    ensures Left(blobs, reachable, []) == blobs
  {
  }

  lemma LeftAtLast(blobs: map<Kappa, bytes>, reachable: set<Kappa>, listing: seq<Kappa>)
    requires forall k :: k in listing <==> k in blobs
    ensures Left(blobs, reachable, listing) == map k | k in blobs && k in reachable :: blobs[k]
  {
  }

  lemma LeftStep(blobs: map<Kappa, bytes>, reachable: set<Kappa>, done: seq<Kappa>, k: Kappa)
    requires k in blobs && k !in done
    ensures
      var before, after := Left(blobs, reachable, done), Left(blobs, reachable, done + [k]);
      if k in reachable then after == before
      else k in before && after == before - {k} && |after| + 1 == |before|
  {
    var before, after := Left(blobs, reachable, done), Left(blobs, reachable, done + [k]);
    if k !in reachable {
      assert before.Keys == after.Keys + {k};
    }
  }

  datatype GcResult = GcResult(scanned: nat, reachable: nat, collected: nat, bytesFreed: nat)

  class Store {
    var blobs: map<Kappa, bytes>
    const namespaces: seq<Namespace>
    const epochPrev: bytes -> Option<Option<Kappa>>

    constructor (blobs: map<Kappa, bytes>, namespaces: seq<Namespace>, epochPrev: bytes -> Option<Option<Kappa>>)
      ensures View() == Registry(blobs, namespaces, epochPrev)
    {
      this.blobs, this.namespaces, this.epochPrev := blobs, namespaces, epochPrev;
    }

    function View(): Registry
      reads this
    {
      Registry(blobs, namespaces, epochPrev)
    }

    /** Delete the listed blobs outside `reachable`, counting blobs and bytes. */
    method DeleteUnreachable(listing: seq<Kappa>, reachable: set<Kappa>) returns (collected: nat, bytesFreed: nat)
      requires Distinct(listing) && forall k :: k in listing <==> k in blobs
      modifies this
      ensures blobs == map k | k in old(blobs) && k in reachable :: old(blobs)[k]
      ensures |blobs| + collected == |old(blobs)|
      ensures Size(listing, blobs) + bytesFreed == Size(listing, old(blobs))
    {
      hide Size, Left;
      collected, bytesFreed := 0, 0;
      LeftAtFirst(blobs, reachable);
      for i := 0 to |listing|
        invariant blobs == Left(old(blobs), reachable, listing[..i])
        invariant |blobs| + collected == |old(blobs)|
        invariant Size(listing, blobs) + bytesFreed == Size(listing, old(blobs))
      {
        var kappa := listing[i];
        assert listing[..i + 1] == listing[..i] + [kappa];
        LeftStep(old(blobs), reachable, listing[..i], kappa);
        if kappa !in reachable {
          SizeWithout(listing, blobs, kappa);
          bytesFreed := bytesFreed + |blobs[kappa]|;
          blobs := blobs - {kappa};
          collected := collected + 1;
        }
      }
      assert listing[..|listing|] == listing;
      LeftAtLast(old(blobs), reachable, listing);
    }

    /** Exactly the live blobs remain; what was scanned, freed and kept adds up. The reachable count is of all live
        kappas, stored or not. */
    method Sweep(succ: Successors, listing: seq<Kappa>, ghost universe: set<Kappa>) returns (r: GcResult)
      requires EpochsEnd(View())
      requires RootSet(View()) <= universe && Closed(succ, universe)
      requires Distinct(listing) && forall k :: k in listing <==> k in blobs
      modifies this
      ensures forall k :: k in blobs <==> k in old(blobs) && Live(old(View()), succ, k)
      ensures forall k :: k in blobs ==> blobs[k] == old(blobs)[k]
      ensures r.scanned == |listing| && r.collected + |blobs| == |old(blobs)|
      ensures r.bytesFreed + Size(listing, blobs) == Size(listing, old(blobs))
      ensures r.reachable == |set k | k in universe && Live(old(View()), succ, k)| && |blobs| <= r.reachable
    {
      hide EpochsEnd, Roots, Lex.SortDedup, Reachable, Size;
      var roots := BuildRootSet(View());
      var reachable := ComputeReachable(roots, succ, universe);
      assert reachable == set k | k in universe && Live(View(), succ, k);
      var collected, bytesFreed := DeleteUnreachable(listing, reachable);
      r := GcResult(|listing|, |reachable|, collected, bytesFreed);
      assert blobs.Keys <= reachable && |blobs| == |blobs.Keys|;
      if blobs.Keys != reachable {
        SmallerSet(blobs.Keys, reachable);
      }
    }
  }

  /** What a sweep leaves. */
  ghost predicate Swept(r: Registry, succ: Successors, r': Registry)
    requires EpochsEnd(r)
  {
    && r' == r.(blobs := r'.blobs)
    && (forall k :: k in r'.blobs <==> k in r.blobs && Live(r, succ, k))
    && (forall k :: k in r'.blobs ==> r'.blobs[k] == r.blobs[k])
  }

  lemma RootIsLive(r: Registry, succ: Successors, k: Kappa)
    requires EpochsEnd(r) && IsRoot(r, k)
    ensures Live(r, succ, k)
  {
    hide IsRoot, Reachable, EpochsEnd;
    RootsAreRoots(r, k);
    RootReachable(succ, RootSet(r), k);
  }

  /** The epochs that make a chain keep their blobs, so the chains are the same after a sweep. */
  lemma {:induction false} SameChain(r: Registry, succ: Successors, r': Registry, ns: Namespace, k: Kappa, n: nat)
    requires EpochsEnd(r) && Swept(r, succ, r') && ns in r.namespaces && Named(ns) && ns.epoch.Some?
    requires Reachable(Prevs(r), {ns.epoch.value}, k) && Ends(r, Some(k), n)
    ensures Ends(r', Some(k), n) && Chain(r', Some(k), n) == Chain(r, Some(k), n)
    decreases n
  {
    hide Live, Reachable, EpochsEnd;
    RootIsLive(r, succ, k);
    assert Prev(r', k) == Prev(r, k);
    match Prev(r, k) {
      case Some(Some(p)) =>
        assert p in Prevs(r)(k);
        StepReachable(Prevs(r), {ns.epoch.value}, k, p);
        SameChain(r, succ, r', ns, p, n - 1);
      case _ =>
    }
  }

  lemma SameNamespaceRoots(r: Registry, succ: Successors, r': Registry, ns: Namespace)
    requires EpochsEnd(r) && Swept(r, succ, r') && ns in r.namespaces && Named(ns)
    ensures Ends(r', ns.epoch, Turns(r')) && NamespaceRoots(r', ns) == NamespaceRoots(r, ns)
  {
    hide Live, Reachable;
    if ns.epoch.Some? {
      var k := ns.epoch.value;
      RootReachable(Prevs(r), {k}, k);
      SameChain(r, succ, r', ns, k, Turns(r));
      WalkEndsIff(r', k);
      if Turns(r) <= Turns(r') {
        EndsLater(r', ns.epoch, Turns(r), Turns(r'));
      } else {
        EndsLater(r', ns.epoch, Turns(r'), Turns(r));
      }
    }
  }

  lemma {:induction false} SameRoots(r: Registry, succ: Successors, r': Registry, n: nat)
    requires EpochsEnd(r) && Swept(r, succ, r') && n <= |r.namespaces|
    ensures EpochsEnd(r') && Roots(r', n) == Roots(r, n)
  {
    hide Live, Ends, Chain, Named;
    forall ns | ns in r.namespaces && Named(ns)
      ensures Ends(r', ns.epoch, Turns(r')) && NamespaceRoots(r', ns) == NamespaceRoots(r, ns)
    {
      SameNamespaceRoots(r, succ, r', ns);
    }
    if n > 0 {
      SameRoots(r, succ, r', n - 1);
      assert r.namespaces[n - 1] in r.namespaces;
    }
  }

  /** A second sweep collects nothing: every blob that is left is live in what is left. */
  lemma SecondSweepKeepsAll(r: Registry, succ: Successors, r': Registry, k: Kappa)
    requires EpochsEnd(r) && Swept(r, succ, r') && k in r'.blobs
    ensures EpochsEnd(r') && Live(r', succ, k)
  {
    hide EpochsEnd, Roots, Lex.SortDedup, Reachable;
    SameRoots(r, succ, r', |r.namespaces|);
  }
}
