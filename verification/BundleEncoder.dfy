/** `bundle::encode` as written: window search, repeated ordering passes over a flag array, framing. */
module BundleEncoder {
  import opened Bytes
  import DeltaEncoder
  import opened Endian
  import opened BundleFormat
  import opened BundleCodec

  method ChooseBase(sorted: seq<Object>, idx: nat, fingerprint: bytes -> nat) returns (best: Option<(nat, bytes)>)
    requires idx < |sorted|
    ensures best == BestBase(sorted, WindowStart(idx), idx, sorted[idx].content)
  {
    hide DeltaEncoder.KeptDelta;
    best := None;
    var content := sorted[idx].content;
    for ci := WindowStart(idx) to idx
      invariant best == BestBase(sorted, WindowStart(idx), ci, content)
    {
      var d := DeltaEncoder.ComputeDelta(sorted[ci].content, content, fingerprint);
      if d.Some? {
        if best.None? || |d.value| < |best.value.1| {
          best := Some((ci, d.value));
        }
      }
    }
  }

  method PlanEntries(sorted: seq<Object>, fingerprint: bytes -> nat) returns (plans: seq<Plan>)
    ensures plans == Plans(sorted)
  {
    plans := [];
    for idx := 0 to |sorted|
      invariant |plans| == idx && forall i :: 0 <= i < idx ==> plans[i] == PlanAt(sorted, i)
    {
      var best := ChooseBase(sorted, idx, fingerprint);
      plans := plans + [Plan(sorted[idx], best)];
    }
  }

  /** First the entries stored in full. */
  method EmitFull(plans: seq<Plan>, emitted: array<bool>) returns (order: seq<nat>)
    requires emitted.Length == |plans| && forall i :: 0 <= i < |plans| ==> !emitted[i]
    modifies emitted
    ensures order == Indices(plans, true, |plans|)
    ensures forall i :: 0 <= i < |plans| ==> emitted[i] == plans[i].base.None?
  {
    order := [];
    for i := 0 to |plans|
      invariant order == Indices(plans, true, i)
      invariant forall k :: 0 <= k < |plans| ==> emitted[k] == (k < i && plans[k].base.None?)
    {
      if plans[i].base.None? {
        order := order + [i];
        emitted[i] := true;
      }
    }
  }

  /** One pass over the entries that are still waiting. Because a base has a smaller index than its dependents, the
      first pass emits every one of them, and a later pass finds nothing to do. */
  method EmitReady(plans: seq<Plan>, emitted: array<bool>, before: seq<nat>, ghost first: bool)
    returns (order: seq<nat>, progress: bool)
    requires emitted.Length == |plans| && BasesExist(plans)
    requires first ==> before == Indices(plans, true, |plans|)
    requires first ==> forall i :: 0 <= i < |plans| ==> emitted[i] == plans[i].base.None?
    requires !first ==> before == Order(plans) && forall i :: 0 <= i < |plans| ==> emitted[i]
    modifies emitted
    ensures order == Order(plans)
    ensures forall i :: 0 <= i < |plans| ==> emitted[i]
    ensures !first ==> !progress
  {
    order, progress := before, false;
    for i := 0 to |plans|
      invariant first ==> order == before + Indices(plans, false, i)
      invariant first ==> forall k :: 0 <= k < |plans| ==> emitted[k] == (k < i || plans[k].base.None?)
      invariant !first ==> order == before && !progress && forall k :: 0 <= k < |plans| ==> emitted[k]
    {
      if emitted[i] {
        continue;
      }
      if plans[i].base.Some? {
        if emitted[plans[i].base.value.0] {
          order := order + [i];
          emitted[i] := true;
          progress := true;
        }
      }
    }
  }

  /** The leftover loop of the source runs, and appends nothing. */
  method OrderEntries(plans: seq<Plan>) returns (order: seq<nat>, emitted: array<bool>)
    requires BasesExist(plans)
    ensures order == Order(plans)
    ensures fresh(emitted) && emitted.Length == |plans| && forall i :: 0 <= i < |plans| ==> emitted[i]
  {
    emitted := new bool[|plans|](_ => false);
    order := EmitFull(plans, emitted);
    for pass := 0 to |plans|
      invariant pass == 0 ==> order == Indices(plans, true, |plans|)
      invariant pass == 0 ==> forall i :: 0 <= i < |plans| ==> emitted[i] == plans[i].base.None?
      invariant pass > 0 ==> order == Order(plans) && forall i :: 0 <= i < |plans| ==> emitted[i]
    {
      var progress;
      order, progress := EmitReady(plans, emitted, order, pass == 0);
      if !progress {
        break;
      }
    }
    var all: seq<int> := order;
    for i := 0 to |plans|
      invariant all == Order(plans)
    {
      if !emitted[i] {
        all := all + [i];
      }
    }
    order := all;
  }

  lemma {:induction false} EntriesAppend(es: seq<Entry>, e: Entry)
    ensures EntriesBytes(es + [e]) == EntriesBytes(es) + EntryBytes(e)
    decreases |es|
  {
    if es == [] {
      assert [] + [e] == [e];
      assert EntriesBytes([]) == [];
    } else {
      assert (es + [e])[1..] == es[1..] + [e];
      EntriesAppend(es[1..], e);
    }
  }

  method WriteFull(out: bytes, kappa: bytes, content: bytes) returns (out': bytes)
    ensures out' == out + EntryBytes(Full(kappa, content))
  {
    out' := out + [TYPE_FULL];
    out' := out' + BigEndian(|kappa|, 2) + kappa;
    out' := out' + BigEndian(|content|, 8) + content;
  }

  method WriteDelta(out: bytes, kappa: bytes, base: bytes, delta: bytes) returns (out': bytes)
    ensures out' == out + EntryBytes(DeltaOf(kappa, base, delta))
  {
    out' := out + [TYPE_DELTA];
    out' := out' + BigEndian(|kappa|, 2) + kappa;
    out' := out' + BigEndian(|base|, 2) + base;
    out' := out' + BigEndian(|delta|, 8) + delta;
  }

  method EncodeFullOnly(env: Env, objs: seq<Object>) returns (out: bytes)
    ensures out == Encoded(env, objs, false)
  {
    hide EntryBytes, BigEndian;
    out := MAGIC + [VERSION] + [0] + BigEndian(|objs|, 4);
    ghost var es: seq<Entry> := [];
    assert out == Header(0, |objs|) + EntriesBytes(es);
    for i := 0 to |objs|
      invariant |es| == i && forall k :: 0 <= k < i ==> es[k] == Full(objs[k].kappa, objs[k].content)
      invariant out == Header(0, |objs|) + EntriesBytes(es)
    {
      EntriesAppend(es, Full(objs[i].kappa, objs[i].content));
      out := WriteFull(out, objs[i].kappa, objs[i].content);
      es := es + [Full(objs[i].kappa, objs[i].content)];
    }
    assert es == seq(|objs|, i requires 0 <= i < |objs| => Full(objs[i].kappa, objs[i].content));
    out := out + env.sha256(out);
  }

  method WriteEntries(plans: seq<Plan>, order: seq<nat>, emitted: array<bool>, header: bytes) returns (out: bytes)
    requires BasesExist(plans) && order == Order(plans)
    requires emitted.Length == |plans| && forall i :: 0 <= i < |plans| ==> emitted[i]
    ensures out == header + EntriesBytes(Entries(plans, order))
  {
    hide EntryBytes, Order;
    out := header;
    ghost var es := Entries(plans, order);
    assert EntriesBytes(es[..0]) == [];
    for k := 0 to |order|
      invariant out == header + EntriesBytes(es[..k])
    {
      var idx := order[k];
      EntriesAppend(es[..k], es[k]);
      assert es[..k + 1] == es[..k] + [es[k]];
      var plan := plans[idx];
      if plan.base.Some? {
        var (base, delta) := plan.base.value;
        if emitted[base] {
          out := WriteDelta(out, plan.item.kappa, plans[base].item.kappa, delta);
          continue;
        }
      }
      out := WriteFull(out, plan.item.kappa, plan.item.content);
    }
    assert es[..|order|] == es;
  }

  method EncodeBundle(env: Env, objs: seq<Object>, useDeltas: bool, fingerprint: bytes -> nat) returns (out: bytes)
    ensures out == Encoded(env, objs, useDeltas)
  {
    hide EntriesBytes, Entries, Order, Plans, SortBySize;
    if !useDeltas || |objs| < 2 {
      out := EncodeFullOnly(env, objs);
      return;
    }
    var sorted := SortBySize(objs);
    var plans := PlanEntries(sorted, fingerprint);
    PlansBased(sorted);
    var order, emitted := OrderEntries(plans);
    OrderLength(plans, |plans|);
    var flags: byte := if AnyDelta(plans) then HAS_DELTAS else 0;
    var header := MAGIC + [VERSION] + [flags] + BigEndian(|plans|, 4);
    assert header == Header(flags, |plans|);
    out := WriteEntries(plans, order, emitted, header);
    out := out + env.sha256(out);
  }

  lemma {:induction false} OrderLength(plans: seq<Plan>, n: nat)
    requires n <= |plans|
    ensures |Indices(plans, true, n)| + |Indices(plans, false, n)| == n
    ensures n == |plans| ==> |Order(plans)| == |plans|
  {
    if n > 0 {
      OrderLength(plans, n - 1);
    }
  }
}
