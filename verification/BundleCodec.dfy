/** Choosing delta bases in a window, ordering them first, and the round trip of whole bundles. */
module BundleCodec {
  import opened Bytes
  import opened DeltaFormat
  import DeltaCodec
  import DeltaEncoder
  import opened BundleFormat

  const WINDOW: nat := 10

  // ---- Largest first ----

  /** Put `o` before the first object that is not larger: equal sizes keep their order. */
  function Insert(o: Object, sorted: seq<Object>): seq<Object> {
    if sorted == [] || |sorted[0].content| <= |o.content| then [o] + sorted
    else [sorted[0]] + Insert(o, sorted[1..])
  }

  function SortBySize(objs: seq<Object>): seq<Object> {
    if objs == [] then [] else Insert(objs[0], SortBySize(objs[1..]))
  }

  predicate LargestFirst(objs: seq<Object>) {
    forall i, j :: 0 <= i < j < |objs| ==> |objs[i].content| >= |objs[j].content|
  }

  lemma {:induction false} InsertPermutes(o: Object, sorted: seq<Object>)
    ensures multiset(Insert(o, sorted)) == multiset{o} + multiset(sorted)
    decreases |sorted|
  {
    if sorted != [] && |sorted[0].content| > |o.content| {
      InsertPermutes(o, sorted[1..]);
      assert sorted == [sorted[0]] + sorted[1..];
    }
  }

  lemma {:induction false} InsertMembers(o: Object, sorted: seq<Object>, x: Object)
    ensures x in Insert(o, sorted) ==> x == o || x in sorted
    decreases |sorted|
  {
    if sorted != [] && |sorted[0].content| > |o.content| {
      InsertMembers(o, sorted[1..], x);
    }
  }

  lemma {:induction false} InsertSorted(o: Object, sorted: seq<Object>)
    requires LargestFirst(sorted)
    ensures LargestFirst(Insert(o, sorted))
    decreases |sorted|
  {
    if sorted != [] && |sorted[0].content| > |o.content| {
      var rest := sorted[1..];
      InsertSorted(o, rest);
      var r := Insert(o, rest);
      forall j | 0 <= j < |r|
        ensures |sorted[0].content| >= |r[j].content|
      {
        InsertMembers(o, rest, r[j]);
      }
    }
  }

  lemma {:induction false} SortIsSort(objs: seq<Object>)
    ensures LargestFirst(SortBySize(objs))
    ensures multiset(SortBySize(objs)) == multiset(objs)
    decreases |objs|
  {
    if objs != [] {
      SortIsSort(objs[1..]);
      InsertSorted(objs[0], SortBySize(objs[1..]));
      InsertPermutes(objs[0], SortBySize(objs[1..]));
      assert objs == [objs[0]] + objs[1..];
    }
  }

  // ---- Plans ----

  datatype Plan = Plan(item: Object, base: Option<(nat, bytes)>)

  function Better(a: Option<(nat, bytes)>, ci: nat, d: Option<bytes>): Option<(nat, bytes)> {
    if d.Some? && (a.None? || |d.value| < |a.value.1|) then Some((ci, d.value)) else a
  }

  /** The shortest kept delta against the candidates `start .. end`; the first of several. */
  function BestBase(sorted: seq<Object>, start: nat, end: nat, content: bytes): (r: Option<(nat, bytes)>)
    requires start <= end <= |sorted|
    ensures r.Some? ==> start <= r.value.0 < end
    decreases end
  {
    if start == end then None
    else
      Better(BestBase(sorted, start, end - 1, content), end - 1,
             DeltaEncoder.KeptDelta(sorted[end - 1].content, content))
  }

  function WindowStart(idx: nat): (s: nat)
    ensures s <= idx
  {
    if idx < WINDOW then 0 else idx - WINDOW
  }

  function PlanAt(sorted: seq<Object>, idx: nat): Plan
    requires idx < |sorted|
  {
    Plan(sorted[idx], BestBase(sorted, WindowStart(idx), idx, sorted[idx].content))
  }

  function Plans(sorted: seq<Object>): (plans: seq<Plan>)
    ensures |plans| == |sorted|
  {
    seq(|sorted|, i requires 0 <= i < |sorted| => PlanAt(sorted, i))
  }

  /** A chosen base comes earlier in the plan list, and the delta is the encoder's against that base. */
  ghost predicate Grounded(plans: seq<Plan>) {
    forall i :: 0 <= i < |plans| && plans[i].base.Some? ==>
      && plans[i].base.value.0 < i
      && plans[i].base.value.1 == DeltaCodec.Delta(plans[plans[i].base.value.0].item.content, plans[i].item.content)
      && |plans[i].base.value.1| < |plans[i].item.content|
  }

  lemma {:induction false} BestBaseIsDelta(sorted: seq<Object>, start: nat, end: nat, content: bytes)
    requires start <= end <= |sorted|
    ensures
      var r := BestBase(sorted, start, end, content);
      r.Some? ==> r.value.1 == DeltaCodec.Delta(sorted[r.value.0].content, content) && |r.value.1| < |content|
    decreases end
  {
    hide DeltaCodec.Delta;
    if start < end {
      BestBaseIsDelta(sorted, start, end - 1, content);
    }
  }

  lemma {:induction false} PlansGrounded(sorted: seq<Object>)
    ensures Grounded(Plans(sorted))
  {
    hide DeltaCodec.Delta, BestBase;
    var plans := Plans(sorted);
    forall i | 0 <= i < |plans| && plans[i].base.Some?
      ensures
        && plans[i].base.value.0 < i
        && plans[i].base.value.1 == DeltaCodec.Delta(plans[plans[i].base.value.0].item.content, plans[i].item.content)
        && |plans[i].base.value.1| < |plans[i].item.content|
    {
      BestBaseIsDelta(sorted, WindowStart(i), i, sorted[i].content);
    }
  }

  /** A delta the bundle encoder keeps: against a base that is not empty, of a target of 16 bytes or more, and below
      three quarters of its length. */
  ghost predicate Saves(base: bytes, target: bytes) {
    base != [] && |target| >= 16 && |DeltaCodec.Delta(base, target)| < |target| * 75 / 100
  }

  lemma {:induction false} BestBaseExactly(sorted: seq<Object>, start: nat, end: nat, content: bytes)
    requires start <= end <= |sorted|
    ensures
      var r := BestBase(sorted, start, end, content);
      if r.None? then forall j :: start <= j < end ==> !Saves(sorted[j].content, content)
      else
        && Saves(sorted[r.value.0].content, content)
        && r.value.1 == DeltaCodec.Delta(sorted[r.value.0].content, content)
        && forall j :: start <= j < end && Saves(sorted[j].content, content) ==>
             |r.value.1| <= |DeltaCodec.Delta(sorted[j].content, content)|
             && (j < r.value.0 ==> |r.value.1| < |DeltaCodec.Delta(sorted[j].content, content)|)
    decreases end
  {
    hide DeltaCodec.Delta;
    if start < end {
      BestBaseExactly(sorted, start, end - 1, content);
    }
  }

  /** The plan of object `i`: full iff none of the ten larger ones before it gives a delta worth keeping, else the
      shortest such delta, against the first of several. */
  lemma PlanExactly(sorted: seq<Object>, i: nat)
    requires i < |sorted|
    ensures
      var plan, from := Plans(sorted)[i], if i < 10 then 0 else i - 10;
      && plan.item == sorted[i]
      && (plan.base.None? <==> forall j :: from <= j < i ==> !Saves(sorted[j].content, sorted[i].content))
      && (plan.base.Some? ==>
            var (b, delta) := plan.base.value;
            && from <= b < i && delta == DeltaCodec.Delta(sorted[b].content, sorted[i].content)
            && forall j :: from <= j < i && Saves(sorted[j].content, sorted[i].content) ==>
                 |delta| <= |DeltaCodec.Delta(sorted[j].content, sorted[i].content)|
                 && (j < b ==> |delta| < |DeltaCodec.Delta(sorted[j].content, sorted[i].content)|))
  {
    hide DeltaCodec.Delta, BestBase;
    BestBaseExactly(sorted, WindowStart(i), i, sorted[i].content);
  }

  /** No delta the encoder chose copies 16 MiB at once. */
  ghost predicate ShortPlan(plans: seq<Plan>, i: nat)
    requires i < |plans|
  {
    plans[i].base.Some? && plans[i].base.value.0 < |plans| ==>
      DeltaCodec.ShortMatches(plans[plans[i].base.value.0].item.content, plans[i].item.content)
  }

  ghost predicate ShortPlans(objs: seq<Object>) {
    var plans := Plans(SortBySize(objs));
    forall i :: 0 <= i < |plans| ==> ShortPlan(plans, i)
  }

  // ---- Order ----

  /** The indices below `n` that are stored in full (or as deltas), ascending. */
  function Indices(plans: seq<Plan>, full: bool, n: nat): (r: seq<nat>)
    requires n <= |plans|
    ensures forall k :: 0 <= k < |r| ==> r[k] < n
  {
    if n == 0 then []
    else Indices(plans, full, n - 1) + if plans[n - 1].base.None? == full then [n - 1] else []
  }

  function Order(plans: seq<Plan>): (r: seq<nat>)
    ensures forall k :: 0 <= k < |r| ==> r[k] < |plans|
  {
    Indices(plans, true, |plans|) + Indices(plans, false, |plans|)
  }

  lemma {:induction false} IndicesHold(plans: seq<Plan>, full: bool, n: nat, i: nat)
    requires n <= |plans|
    ensures i in Indices(plans, full, n) <==> i < n && plans[i].base.None? == full
  {
    if n > 0 {
      IndicesHold(plans, full, n - 1, i);
    }
  }

  function Pick(plans: seq<Plan>, order: seq<nat>): (r: seq<Object>)
    requires forall k :: 0 <= k < |order| ==> order[k] < |plans|
    ensures |r| == |order|
  {
    seq(|order|, k requires 0 <= k < |order| => plans[order[k]].item)
  }

  lemma PickAppend(plans: seq<Plan>, a: seq<nat>, b: seq<nat>)
    requires forall k :: 0 <= k < |a| ==> a[k] < |plans|
    requires forall k :: 0 <= k < |b| ==> b[k] < |plans|
    ensures forall k :: 0 <= k < |a + b| ==> (a + b)[k] < |plans|
    ensures Pick(plans, a + b) == Pick(plans, a) + Pick(plans, b)
  {
  }

  function Objects(plans: seq<Plan>, n: nat): (r: seq<Object>)
    requires n <= |plans|
    ensures |r| == n
  {
    seq(n, i requires 0 <= i < n => plans[i].item)
  }

  lemma {:induction false} OrderIsPermutation(plans: seq<Plan>, n: nat)
    requires n <= |plans|
    ensures
      multiset(Pick(plans, Indices(plans, true, n))) + multiset(Pick(plans, Indices(plans, false, n))) ==
      multiset(Objects(plans, n))
  {
    if n > 0 {
      OrderIsPermutation(plans, n - 1);
      assert Objects(plans, n) == Objects(plans, n - 1) + [plans[n - 1].item];
      var side := plans[n - 1].base.None?;
      PickAppend(plans, Indices(plans, side, n - 1), [n - 1]);
      assert Pick(plans, [n - 1]) == [plans[n - 1].item];
      PickAppend(plans, Indices(plans, !side, n - 1), []);
      assert Indices(plans, !side, n) == Indices(plans, !side, n - 1);
    }
  }

  function EntryOf(plans: seq<Plan>, i: nat): Entry
    requires i < |plans|
    requires plans[i].base.Some? ==> plans[i].base.value.0 < |plans|
  {
    match plans[i].base
    case None => Full(plans[i].item.kappa, plans[i].item.content)
    case Some((b, delta)) => DeltaOf(plans[i].item.kappa, plans[b].item.kappa, delta)
  }

  ghost predicate BasesExist(plans: seq<Plan>) {
    forall i :: 0 <= i < |plans| && plans[i].base.Some? ==> plans[i].base.value.0 < i
  }

  function Entries(plans: seq<Plan>, order: seq<nat>): (es: seq<Entry>)
    requires BasesExist(plans)
    requires forall k :: 0 <= k < |order| ==> order[k] < |plans|
    ensures |es| == |order|
  {
    seq(|order|, k requires 0 <= k < |order| => EntryOf(plans, order[k]))
  }

  predicate AnyDelta(plans: seq<Plan>) {
    exists i :: 0 <= i < |plans| && plans[i].base.Some?
  }

  lemma PlansBased(sorted: seq<Object>)
    ensures BasesExist(Plans(sorted))
  {
  }

  /** The whole bundle the encoder writes. */
  function Encoded(env: Env, objs: seq<Object>, useDeltas: bool): bytes {
    if !useDeltas || |objs| < 2 then
      Frame(env, 0, seq(|objs|, i requires 0 <= i < |objs| => Full(objs[i].kappa, objs[i].content)))
    else
      var plans := Plans(SortBySize(objs));
      PlansBased(SortBySize(objs));
      Frame(env, if AnyDelta(plans) then HAS_DELTAS else 0, Entries(plans, Order(plans)))
  }

  /** The objects in the order the bundle lists them. */
  function Listed(objs: seq<Object>, useDeltas: bool): seq<Object> {
    if !useDeltas || |objs| < 2 then objs
    else
      var plans := Plans(SortBySize(objs));
      Pick(plans, Order(plans))
  }

  lemma ListedIsPermutation(objs: seq<Object>, useDeltas: bool)
    ensures multiset(Listed(objs, useDeltas)) == multiset(objs)
    ensures !useDeltas ==> Listed(objs, useDeltas) == objs
  {
    if useDeltas && |objs| >= 2 {
      var sorted := SortBySize(objs);
      var plans := Plans(sorted);
      SortIsSort(objs);
      OrderIsPermutation(plans, |plans|);
      PickAppend(plans, Indices(plans, true, |plans|), Indices(plans, false, |plans|));
      assert Objects(plans, |plans|) == sorted;
    }
  }

  lemma {:induction false} IndicesAscend(plans: seq<Plan>, full: bool, n: nat)
    requires n <= |plans|
    ensures Ascending(Indices(plans, full, n))
  {
    if n > 0 {
      IndicesAscend(plans, full, n - 1);
      var p, r := Indices(plans, full, n - 1), Indices(plans, full, n);
      assert r == p || r == p + [n - 1];
    }
  }

  /** In the emitted order a base stands before every delta that needs it. */
  lemma BaseStandsEarlier(plans: seq<Plan>, k: nat) returns (j: nat)
    requires BasesExist(plans) && k < |Order(plans)| && plans[Order(plans)[k]].base.Some?
    ensures j < k && Order(plans)[j] == plans[Order(plans)[k]].base.value.0
  {
    hide Indices;
    var fulls, deltas := Indices(plans, true, |plans|), Indices(plans, false, |plans|);
    var i := Order(plans)[k];
    var b := plans[i].base.value.0;
    IndicesHold(plans, true, |plans|, i);
    IndicesHold(plans, true, |plans|, b);
    IndicesHold(plans, false, |plans|, b);
    IndicesAscend(plans, false, |plans|);
    assert deltas[k - |fulls|] == i;
    if plans[b].base.None? {
      j :| 0 <= j < |fulls| && fulls[j] == b;
    } else {
      var d :| 0 <= d < |deltas| && deltas[d] == b;
      j := |fulls| + d;
    }
  }

  /** The emitted entries list the objects, and each delta applies exactly when it is short. */
  lemma {:induction false} EntriesListed(env: Env, plans: seq<Plan>)
    requires Grounded(plans) && BasesExist(plans)
    requires forall i :: 0 <= i < |plans| ==> |plans[i].item.content| <= COPY_OFFSETS
    requires Consistent(env, Pick(plans, Order(plans)))
    ensures
      var es, objs := Entries(plans, Order(plans)), Pick(plans, Order(plans));
      && Lists(es, objs)
      && forall k :: 0 <= k < |es| ==> (Applies(es[k], objs, k) <==> ShortPlan(plans, Order(plans)[k]))
  {
    hide Apply, Order, DeltaCodec.Delta, DeltaCodec.ShortMatches;
    var order := Order(plans);
    var es, objs := Entries(plans, order), Pick(plans, order);
    forall k | 0 <= k < |es|
      ensures StandsFor(es[k], objs, k) && (Applies(es[k], objs, k) <==> ShortPlan(plans, order[k]))
    {
      var i := order[k];
      if plans[i].base.Some? {
        var j := BaseStandsEarlier(plans, k);
        assert objs[j] == plans[plans[i].base.value.0].item;
        DeltaCodec.RoundTripIffShort(objs[j].content, objs[k].content);
        assert IsBase(objs, k, es[k].base, j) && Candid(objs, k, es[k].delta, j);
        assert forall m: nat :: IsBase(objs, k, es[k].base, m) ==> objs[m].content == objs[j].content;
      }
    }
  }

  lemma ConsistentUnderPermutation(env: Env, a: seq<Object>, b: seq<Object>)
    requires Consistent(env, a) && multiset(a) == multiset(b)
    ensures Consistent(env, b)
  {
    forall i | 0 <= i < |b|
      ensures b[i] in a
    {
      assert b[i] in multiset(b);
    }
  }

  lemma {:induction false} TotalUnderPermutation(a: seq<Object>, b: seq<Object>)
    requires multiset(a) == multiset(b)
    ensures TotalSize(a) == TotalSize(b)
    decreases |a|
  {
    if a == [] {
      assert |multiset(b)| == 0;
    } else {
      assert |multiset(a)| == |multiset(b)|;
      var last := a[|a| - 1];
      assert last in multiset(a);
      var k :| 0 <= k < |b| && b[k] == last;
      RemoveAt(b, k);
      RemoveAt(a, |a| - 1);
      assert a[..|a| - 1] + a[|a|..] == a[..|a| - 1];
      TotalUnderPermutation(a[..|a| - 1], b[..k] + b[k + 1..]);
      TotalRemove(b, k);
    }
  }

  lemma RemoveAt(objs: seq<Object>, k: nat)
    requires k < |objs|
    ensures multiset(objs[..k] + objs[k + 1..]) == multiset(objs) - multiset{objs[k]}
  {
    assert objs == objs[..k] + [objs[k]] + objs[k + 1..];
  }

  lemma {:induction false} TotalRemove(objs: seq<Object>, k: nat)
    requires k < |objs|
    ensures TotalSize(objs) == TotalSize(objs[..k] + objs[k + 1..]) + |objs[k].content|
    decreases |objs|
  {
    var n := |objs| - 1;
    if k == n {
      assert objs[..k] + objs[k + 1..] == objs[..n];
    } else {
      var init := objs[..n];
      TotalRemove(init, k);
      var rest := objs[..k] + objs[k + 1..];
      assert rest[..|rest| - 1] == init[..k] + init[k + 1..];
    }
  }

  /** The round trip, exactly: decoding gives back the objects, each once, iff they fit the size limit and no chosen
      delta copies 16 MiB at once; it never gives anything else. Without deltas the order is the caller's. */
  lemma {:induction false} RoundTrip(env: Env, resolve: bytes -> Option<bytes>, objs: seq<Object>, useDeltas: bool)
    requires Digests(env) && Consistent(env, objs) && |objs| < TWO32
    ensures
      var good := TotalSize(objs) <= DECODE_MAX_BYTES && (useDeltas && |objs| >= 2 ==> ShortPlans(objs));
      match Decode(env, resolve, Encoded(env, objs, useDeltas))
      case Ok(read) => good && read == Listed(objs, useDeltas)
      case Err(_) => !good
    ensures multiset(Listed(objs, useDeltas)) == multiset(objs)
    ensures !useDeltas ==> Listed(objs, useDeltas) == objs
  {
    hide Decode, Frame, Plans, Order, Pick, Consistent, SortBySize, Lists, AllApply, ShortPlans;
    ListedIsPermutation(objs, useDeltas);
    if !useDeltas || |objs| < 2 {
      var es := seq(|objs|, i requires 0 <= i < |objs| => Full(objs[i].kappa, objs[i].content));
      FullOnlyListed(objs);
      DecodeFrame(env, resolve, 0, es, objs);
    } else {
      DeltaRoundTrip(env, resolve, objs);
    }
  }

  lemma FullOnlyListed(objs: seq<Object>)
    ensures
      var es := seq(|objs|, i requires 0 <= i < |objs| => Full(objs[i].kappa, objs[i].content));
      Lists(es, objs) && !NeedsFlag(es) && AllApply(es, objs, 0)
  {
  }

  lemma DeltaRoundTrip(env: Env, resolve: bytes -> Option<bytes>, objs: seq<Object>)
    requires Digests(env) && Consistent(env, objs) && 2 <= |objs| < TWO32
    ensures
      match Decode(env, resolve, Encoded(env, objs, true))
      case Ok(read) => TotalSize(objs) <= DECODE_MAX_BYTES && ShortPlans(objs) && read == Listed(objs, true)
      case Err(_) => !(TotalSize(objs) <= DECODE_MAX_BYTES && ShortPlans(objs))
  {
    hide Decode, Frame, Order, Consistent, SortBySize, Lists, NeedsFlag, AnyDelta, Entries, Pick, Applies, ShortPlan,
      Grounded, Announces;
    var sorted := SortBySize(objs);
    var plans := Plans(sorted);
    SortIsSort(objs);
    PlansGrounded(sorted);
    PlansBased(sorted);
    var listed := Pick(plans, Order(plans));
    ListedIsPermutation(objs, true);
    ConsistentUnderPermutation(env, objs, listed);
    TotalUnderPermutation(objs, listed);
    assert |multiset(listed)| == |multiset(objs)|;
    var flags: byte := if AnyDelta(plans) then HAS_DELTAS else 0;
    if forall i :: 0 <= i < |plans| ==> |plans[i].item.content| <= COPY_OFFSETS {
      EntriesListed(env, plans);
      FlagSet(plans);
      ApplyIffShort(plans, Entries(plans, Order(plans)), listed);
      DecodeFrame(env, resolve, flags, Entries(plans, Order(plans)), listed);
    } else {
      var i :| 0 <= i < |plans| && |plans[i].item.content| > COPY_OFFSETS;
      var k := PlaceOf(plans, i);
      PickAt(plans, Order(plans), k);
      TotalHolds(listed, k);
      EntriesAnnounced(env, plans);
      FrameOverLimit(env, resolve, flags, Entries(plans, Order(plans)), listed);
    }
  }

  lemma PickAt(plans: seq<Plan>, order: seq<nat>, k: nat)
    requires k < |order| && forall j :: 0 <= j < |order| ==> order[j] < |plans|
    ensures Pick(plans, order)[k] == plans[order[k]].item
  {
  }

  /** Every emitted entry announces the size of the object it stands for. */
  lemma EntriesAnnounced(env: Env, plans: seq<Plan>)
    requires Grounded(plans) && BasesExist(plans) && Consistent(env, Pick(plans, Order(plans)))
    ensures
      var es, objs := Entries(plans, Order(plans)), Pick(plans, Order(plans));
      |es| == |objs| && forall k :: 0 <= k < |es| ==> Announces(env, es[k], |objs[k].content|)
  {
    hide Apply, Order, DeltaCodec.Delta;
    var order := Order(plans);
    var es, objs := Entries(plans, order), Pick(plans, order);
    forall k | 0 <= k < |es|
      ensures Announces(env, es[k], |objs[k].content|)
    {
      assert Sound(env, objs[k]);
      var i := order[k];
      if plans[i].base.Some? {
        var j := BaseStandsEarlier(plans, k);
        assert objs[j] == plans[plans[i].base.value.0].item && Sound(env, objs[j]);
        forall b
          ensures Apply(b, es[k].delta).Ok? ==> |Apply(b, es[k].delta).value| == |objs[k].content|
        {
          DeltaCodec.AppliedLength(b, objs[j].content, objs[k].content);
        }
      }
    }
  }

  lemma ApplyIffShort(plans: seq<Plan>, es: seq<Entry>, objs: seq<Object>)
    requires |es| == |objs| == |Order(plans)|
    requires forall k :: 0 <= k < |es| ==> (Applies(es[k], objs, k) <==> ShortPlan(plans, Order(plans)[k]))
    ensures AllApply(es, objs, 0) <==> forall i :: 0 <= i < |plans| ==> ShortPlan(plans, i)
  {
    hide Applies, ShortPlan, Order;
    if AllApply(es, objs, 0) {
      forall i | 0 <= i < |plans|
        ensures ShortPlan(plans, i)
      {
        var k := PlaceOf(plans, i);
        assert Applies(es[k], objs, k);
      }
    }
  }

  lemma PlaceOf(plans: seq<Plan>, i: nat) returns (k: nat)
    requires i < |plans|
    ensures k < |Order(plans)| && Order(plans)[k] == i
  {
    var fulls, deltas := Indices(plans, true, |plans|), Indices(plans, false, |plans|);
    IndicesHold(plans, true, |plans|, i);
    IndicesHold(plans, false, |plans|, i);
    assert i in fulls + deltas;
    k :| 0 <= k < |Order(plans)| && Order(plans)[k] == i;
  }

  /** In particular when every content is below 16 MiB. */
  lemma {:induction false} RoundTripBelow16MiB(env: Env, resolve: bytes -> Option<bytes>, objs: seq<Object>,
      useDeltas: bool)
    requires Digests(env) && Consistent(env, objs) && |objs| < TWO32 && TotalSize(objs) <= DECODE_MAX_BYTES
    requires forall i :: 0 <= i < |objs| ==> |objs[i].content| < COPY_SIZES
    ensures Decode(env, resolve, Encoded(env, objs, useDeltas)) == Ok(Listed(objs, useDeltas))
    ensures multiset(Listed(objs, useDeltas)) == multiset(objs)
    ensures !useDeltas ==> Listed(objs, useDeltas) == objs
  {
    hide Decode, Encoded, Listed, Consistent, SortBySize, DeltaCodec.ShortMatches;
    RoundTrip(env, resolve, objs, useDeltas);
    var sorted := SortBySize(objs);
    var plans := Plans(sorted);
    SortIsSort(objs);
    forall i | 0 <= i < |plans|
      ensures ShortPlan(plans, i)
    {
      assert sorted[i] in multiset(objs);
      if plans[i].base.Some? {
        SmallIsShort(sorted[plans[i].base.value.0].content, sorted[i].content);
      }
    }
  }

  /** The limit is real for bundles too: any two objects of which the second is 16 MiB or more and starts the first
      make a bundle, well within the size limit, that does not decode. */
  lemma LargePairFails(env: Env, resolve: bytes -> Option<bytes>, big: Object, x: Object)
    requires Digests(env) && Consistent(env, [big, x])
    requires x.content <= big.content && COPY_SIZES <= |x.content| && |big.content| + |x.content| <= DECODE_MAX_BYTES
    ensures Decode(env, resolve, Encoded(env, [big, x], true)).Err?
  {
    hide Decode, Encoded, Listed, Consistent, DeltaCodec.ShortMatches, DeltaCodec.Delta;
    var objs := [big, x];
    RoundTrip(env, resolve, objs, true);
    DeltaCodec.LargePrefix(big.content, x.content);
    assert objs[1..] == [x] && [x][1..] == [];
    assert SortBySize([x]) == [x];
    assert SortBySize(objs) == objs;
    var plans := Plans(objs);
    assert BestBase(objs, 0, 0, x.content) == None;
    assert plans[1].base == Some((0, DeltaCodec.Delta(big.content, x.content)));
    assert !ShortPlan(plans, 1);
  }

  lemma SmallIsShort(base: bytes, target: bytes)
    requires |target| < COPY_SIZES
    ensures DeltaCodec.ShortMatches(base, target)
  {
    DeltaCodec.GreedyLengths(base, target, 0);
  }

  lemma FlagSet(plans: seq<Plan>)
    requires BasesExist(plans)
    ensures NeedsFlag(Entries(plans, Order(plans))) ==> AnyDelta(plans)
  {
    hide Order;
    var es := Entries(plans, Order(plans));
    if NeedsFlag(es) {
      var k :| 0 <= k < |es| && es[k].DeltaOf?;
      assert plans[Order(plans)[k]].base.Some?;
    }
  }
}
