/** Which entry the generator writes for each object: the shortest delta against one of the ten objects before it. */
module PackChoice {
  import opened Bytes
  import DeltaCodec
  import DeltaEncoder
  import opened PackFormat
  import opened PackIngest
  import opened PackCodec
  import opened PackMeaning

  /** A delta that is worth writing. */
  ghost predicate Saves(base: bytes, target: bytes) {
    base != [] && |target| >= 32 && |DeltaCodec.Delta(base, target)| < |target|
  }

  ghost function Cost(base: bytes, target: bytes): nat {
    |DeltaCodec.Delta(base, target)|
  }

  // ---- One choice ----

  ghost predicate Candidate(recent: Recent, kind: Kind, content: bytes, j: nat)
    requires j < |recent|
  {
    recent[j].0 == kind && Saves(recent[j].1, content)
  }

  /** `b` is a candidate with the shortest delta, the newest of several. */
  ghost predicate Best(recent: Recent, from: nat, kind: Kind, content: bytes, b: nat)
    requires b < |recent|
  {
    && Candidate(recent, kind, content, b)
    && forall j :: from <= j < |recent| && Candidate(recent, kind, content, j) ==>
         Cost(recent[b].1, content) <= Cost(recent[j].1, content)
         && (j > b ==> Cost(recent[b].1, content) < Cost(recent[j].1, content))
  }

  lemma {:induction false} ChooseFromBest(recent: Recent, i: nat, kind: Kind, content: bytes)
    requires i <= |recent|
    ensures
      var r := ChooseFrom(recent, i, kind, content);
      if r.None? then forall j :: i <= j < |recent| ==> !Candidate(recent, kind, content, j)
      else
        && Best(recent, i, kind, content, r.value.0)
        && r.value.1 == DeltaCodec.Delta(recent[r.value.0].1, content)
    decreases |recent| - i
  {
    hide DeltaCodec.Delta;
    if i < |recent| {
      ChooseFromBest(recent, i + 1, kind, content);
      assert DeltaEncoder.KeptPackDelta(recent[i].1, content).Some? <==> Saves(recent[i].1, content);
    }
  }

  // ---- The window ----

  function WindowStart(i: nat): (s: nat)
    ensures s <= i
  {
    if i < 10 then 0 else i - 10
  }

  function Pairs(objs: seq<GitObject>): (r: Recent)
    ensures |r| == |objs| && forall j :: 0 <= j < |objs| ==> r[j] == (objs[j].kind, objs[j].content)
  {
    seq(|objs|, j requires 0 <= j < |objs| => (objs[j].kind, objs[j].content))
  }

  function Positions(z: Zlib, es: seq<PackEntry>): (r: seq<nat>)
    ensures |r| == |es|
    decreases |es|
  {
    if es == [] then [] else Positions(z, es[..|es| - 1]) + [12 + |EntriesBytes(z, es[..|es| - 1])|]
  }

  /** The entries written for the rest of the objects. */
  function Written(z: Zlib, objs: seq<GitObject>, recent: Recent, offsets: seq<nat>, at: nat): (es: seq<PackEntry>)
    requires |recent| == |offsets| && forall i :: 0 <= i < |offsets| ==> offsets[i] < at
    ensures |es| == |objs|
    decreases |objs|
  {
    if objs == [] then []
    else
      var e := EntryFor(recent, offsets, objs[0], at);
      BodyStep(z, objs, recent, offsets, at);
      [e] + Written(z, objs[1..], Slid(recent, objs[0]), Push<nat>(offsets, at), at + |EntryBytes(z, e)|)
  }

  lemma {:induction false} BodyIsWritten(z: Zlib, objs: seq<GitObject>, recent: Recent, offsets: seq<nat>, at: nat)
    requires |recent| == |offsets| && forall i :: 0 <= i < |offsets| ==> offsets[i] < at
    ensures Body(z, objs, recent, offsets, at) == EntriesBytes(z, Written(z, objs, recent, offsets, at))
    decreases |objs|
  {
    hide EntryBytes, EntryFor, Push, Slid;
    if objs != [] {
      var e := EntryFor(recent, offsets, objs[0], at);
      BodyStep(z, objs, recent, offsets, at);
      var recent', offsets' := Slid(recent, objs[0]), Push<nat>(offsets, at);
      BodyIsWritten(z, objs[1..], recent', offsets', at + |EntryBytes(z, e)|);
      assert ([e] + Written(z, objs[1..], recent', offsets', at + |EntryBytes(z, e)|))[1..]
          == Written(z, objs[1..], recent', offsets', at + |EntryBytes(z, e)|);
    }
  }

  lemma {:induction false} EntriesBytesSplit(z: Zlib, a: seq<PackEntry>, b: seq<PackEntry>)
    ensures EntriesBytes(z, a + b) == EntriesBytes(z, a) + EntriesBytes(z, b)
    decreases |a|
  {
    hide EntryBytes;
    if a == [] {
      assert a + b == b;
    } else {
      assert (a + b)[1..] == a[1..] + b;
      EntriesBytesSplit(z, a[1..], b);
    }
  }

  lemma PositionsMore(z: Zlib, es: seq<PackEntry>, e: PackEntry)
    ensures Positions(z, es + [e]) == Positions(z, es) + [12 + |EntriesBytes(z, es)|]
    ensures |EntriesBytes(z, es + [e])| == |EntriesBytes(z, es)| + |EntryBytes(z, e)|
  {
    hide EntryBytes;
    assert (es + [e])[..|es|] == es && [e][1..] == [];
    EntriesBytesSplit(z, es, [e]);
    assert EntriesBytes(z, [e]) == EntryBytes(z, e) + [];
  }

  lemma {:induction false} PositionsGrow(z: Zlib, es: seq<PackEntry>, j: nat)
    requires j < |es|
    ensures Positions(z, es)[j] < 12 + |EntriesBytes(z, es)|
    decreases |es|
  {
    hide EntryBytes;
    var front, last := es[..|es| - 1], es[|es| - 1];
    assert es == front + [last];
    PositionsMore(z, front, last);
    if j < |front| {
      PositionsGrow(z, front, j);
    }
  }

  /** After `i` objects the window is the last ten of them, with the places of their entries. */
  ghost predicate AtObject(z: Zlib, done: seq<GitObject>, es: seq<PackEntry>, recent: Recent, offsets: seq<nat>,
                           at: nat) {
    && |done| == |es| && at == 12 + |EntriesBytes(z, es)|
    && recent == Pairs(done)[WindowStart(|done|)..] && offsets == Positions(z, es)[WindowStart(|done|)..]
    && forall i :: 0 <= i < |offsets| ==> offsets[i] < at
  }

  lemma Windowed<T>(all: seq<T>, x: T)
    ensures Push<T>(all[WindowStart(|all|)..], x) == (all + [x])[WindowStart(|all| + 1)..]
  {
  }

  lemma AtNextObject(z: Zlib, done: seq<GitObject>, es: seq<PackEntry>, recent: Recent, offsets: seq<nat>, at: nat,
                     o: GitObject, e: PackEntry)
    requires AtObject(z, done, es, recent, offsets, at)
    ensures AtObject(z, done + [o], es + [e], Slid(recent, o), Push<nat>(offsets, at), at + |EntryBytes(z, e)|)
  {
    hide EntryBytes, EntriesBytes, Positions, Push;
    PositionsMore(z, es, e);
    Windowed(Pairs(done), (o.kind, o.content));
    assert Pairs(done + [o]) == Pairs(done) + [(o.kind, o.content)];
    Windowed(Positions(z, es), at);
    var offsets' := Push<nat>(offsets, at);
    forall i | 0 <= i < |offsets'|
      ensures offsets'[i] < at + |EntryBytes(z, e)|
    {
      PositionsGrow(z, es + [e], WindowStart(|done| + 1) + i);
    }
  }

  /** Object `b` is one of the ten before object `i`, and the best of them; the entry points back to it. */
  ghost predicate PointsTo(z: Zlib, objs: seq<GitObject>, es: seq<PackEntry>, i: nat, b: nat)
    requires b < i < |objs| == |es|
  {
    var o := objs[i];
    && WindowStart(i) <= b && Best(Pairs(objs[..i]), WindowStart(i), o.kind, o.content, b)
    && es[i].Ofs? && Positions(z, es)[b] + es[i].distance == Positions(z, es)[i]
    && es[i].delta == DeltaCodec.Delta(objs[b].content, o.content)
  }

  ghost predicate NoCandidate(objs: seq<GitObject>, i: nat)
    requires i < |objs|
  {
    forall j :: WindowStart(i) <= j < i ==> !Candidate(Pairs(objs[..i]), objs[i].kind, objs[i].content, j)
  }

  /** The entry of object `i`: whole iff none of the ten before it gives a delta worth writing. */
  ghost predicate Explained(z: Zlib, objs: seq<GitObject>, es: seq<PackEntry>, i: nat)
    requires i < |objs| == |es|
  {
    if NoCandidate(objs, i) then es[i] == Whole(objs[i].kind, objs[i].content)
    else exists b: nat :: b < i && PointsTo(z, objs, es, i, b)
  }

  lemma {:induction false} PositionsPrefix(z: Zlib, a: seq<PackEntry>, b: seq<PackEntry>, j: nat)
    requires j < |a + b|
    ensures j < |a| ==> Positions(z, a + b)[j] == Positions(z, a)[j]
    ensures j == |a| ==> Positions(z, a + b)[j] == 12 + |EntriesBytes(z, a)|
    decreases |b|
  {
    hide EntryBytes, EntriesBytes;
    if b == [] {
      assert a + b == a;
    } else {
      var front, last := b[..|b| - 1], b[|b| - 1];
      assert a + b == (a + front) + [last];
      PositionsMore(z, a + front, last);
      if j < |a + front| {
        PositionsPrefix(z, a, front, j);
      } else if front == [] {
        assert a + front == a;
      }
    }
  }

  /** Choosing within the window is choosing among all earlier objects from its start on. */
  lemma WindowChoice(all: Recent, start: nat, kind: Kind, content: bytes)
    requires start <= |all|
    ensures
      var r := ChooseFrom(all[start..], 0, kind, content);
      if r.None? then forall j :: start <= j < |all| ==> !Candidate(all, kind, content, j)
      else
        && Best(all, start, kind, content, start + r.value.0)
        && r.value.1 == DeltaCodec.Delta(all[start + r.value.0].1, content)
  {
    hide DeltaCodec.Delta, ChooseFrom;
    var recent := all[start..];
    ChooseFromBest(recent, 0, kind, content);
    var r := ChooseFrom(recent, 0, kind, content);
    forall j | start <= j < |all|
      ensures Candidate(all, kind, content, j) <==> Candidate(recent, kind, content, j - start)
      ensures r.Some? && Candidate(all, kind, content, j) ==>
        Cost(recent[r.value.0].1, content) <= Cost(all[j].1, content)
        && (j > start + r.value.0 ==> Cost(recent[r.value.0].1, content) < Cost(all[j].1, content))
    {
      assert recent[j - start] == all[j];
    }
  }

  lemma TooShort(all: Recent, kind: Kind, content: bytes, j: nat)
    requires j < |all| && |content| < 32
    ensures !Candidate(all, kind, content, j)
  {
    hide DeltaCodec.Delta;
  }

  lemma ExplainedHere(z: Zlib, objs: seq<GitObject>, es: seq<PackEntry>, k: nat, recent: Recent, offsets: seq<nat>,
                      at: nat)
    requires k < |objs| == |es| && AtObject(z, objs[..k], es[..k], recent, offsets, at)
    requires es[k] == EntryFor(recent, offsets, objs[k], at)
    ensures Explained(z, objs, es, k)
  {
    hide EntryBytes, EntriesBytes, Positions, ChooseFrom, DeltaCodec.Delta, Best, Candidate;
    var o, all, start := objs[k], Pairs(objs[..k]), WindowStart(k);
    if |o.content| < MIN_DELTA_TARGET {
      forall j | start <= j < k
        ensures !Candidate(all, o.kind, o.content, j)
      {
        TooShort(all, o.kind, o.content, j);
      }
    } else {
      WindowChoice(all, start, o.kind, o.content);
      var r := ChooseFrom(recent, 0, o.kind, o.content);
      if r.Some? {
        var b := start + r.value.0;
        assert es[..k] + es[k..] == es;
        PositionsPrefix(z, es[..k], es[k..], b);
        PositionsPrefix(z, es[..k], es[k..], k);
        assert offsets[r.value.0] == Positions(z, es)[b];
        BestIsCandidate(all, start, o.kind, o.content, b);
        assert PointsTo(z, objs, es, k, b);
      }
    }
  }

  lemma BestIsCandidate(all: Recent, start: nat, kind: Kind, content: bytes, b: nat)
    requires b < |all| && Best(all, start, kind, content, b)
    ensures Candidate(all, kind, content, b)
  {
  }

  lemma OffsetsBelow(z: Zlib, done: seq<GitObject>, es: seq<PackEntry>, recent: Recent, offsets: seq<nat>, at: nat)
    requires AtObject(z, done, es, recent, offsets, at)
    ensures |recent| == |offsets| && forall i :: 0 <= i < |offsets| ==> offsets[i] < at
  {
  }

  lemma {:induction false} WrittenExplained(z: Zlib, objs: seq<GitObject>, es: seq<PackEntry>, k: nat, recent: Recent,
                                            offsets: seq<nat>, at: nat, i: nat)
    requires k <= i < |objs| == |es| && AtObject(z, objs[..k], es[..k], recent, offsets, at)
    requires |recent| == |offsets| && es[k..] == Written(z, objs[k..], recent, offsets, at)
    ensures Explained(z, objs, es, i)
    decreases |objs| - k
  {
    hide EntryBytes, AtObject, EntryFor, Explained, Push, Slid;
    OffsetsBelow(z, objs[..k], es[..k], recent, offsets, at);
    var o, e := objs[k], EntryFor(recent, offsets, objs[k], at);
    assert objs[k..][0] == o && objs[k..][1..] == objs[k + 1..];
    BodyStep(z, objs[k..], recent, offsets, at);
    assert es[k] == es[k..][0] == e && es[k + 1..] == es[k..][1..];
    if i == k {
      ExplainedHere(z, objs, es, k, recent, offsets, at);
    } else {
      AtNextObject(z, objs[..k], es[..k], recent, offsets, at, o, e);
      assert objs[..k + 1] == objs[..k] + [o] && es[..k + 1] == es[..k] + [e];
      WrittenExplained(z, objs, es, k + 1, Slid(recent, o), Push<nat>(offsets, at), at + |EntryBytes(z, e)|, i);
    }
  }

  /** The pack of a list of objects, entry by entry: each is written whole, or as the shortest delta against one of
      the ten objects before it that have its kind, the nearest of several. */
  lemma PackExplained(env: Env, objs: seq<GitObject>) returns (es: seq<PackEntry>)
    ensures |es| == |objs| && Pack(env, objs) == PackOf(env, es)
    ensures forall i :: 0 <= i < |objs| ==> Explained(env.z, objs, es, i)
  {
    hide Body, EntriesBytes, Explained, AtObject, Written;
    es := Written(env.z, objs, [], [], 12);
    BodyIsWritten(env.z, objs, [], [], 12);
    var payload := PackHeader(|objs|) + EntriesBytes(env.z, es);
    assert payload + [] == payload;
    forall i | 0 <= i < |objs|
      ensures Explained(env.z, objs, es, i)
    {
      AtFirstObject(env.z);
      assert objs[..0] == [] && es[..0] == [] && objs[0..] == objs && es[0..] == es;
      WrittenExplained(env.z, objs, es, 0, [], [], 12, i);
    }
  }

  lemma AtFirstObject(z: Zlib)
    ensures AtObject(z, [], [], [], [], 12)
  {
  }
}
