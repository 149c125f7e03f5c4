/** Generating a pack with windowed deltas, and what ingesting it gives back. */
module PackCodec {
  import opened Bytes
  import opened Endian
  import Lex
  import opened DeltaFormat
  import DeltaCodec
  import DeltaEncoder
  import opened PackFormat
  import opened PackIngest

  const DELTA_WINDOW: nat := 10
  const MIN_DELTA_TARGET: nat := 32

  datatype GitObject = GitObject(kappa: bytes, kind: Kind, content: bytes)

  // ---- Sorting ----

  function Hint(hints: map<bytes, bytes>, k: bytes): bytes {
    if k in hints then hints[k] else []
  }

  /** Strictly before in pack order: by kind, then name hint, then larger first. */
  predicate Before(hints: map<bytes, bytes>, a: GitObject, b: GitObject) {
    || TypeId(a.kind) < TypeId(b.kind)
    || (a.kind == b.kind
        && (|| Lex.Less(Hint(hints, a.kappa), Hint(hints, b.kappa))
            || (Hint(hints, a.kappa) == Hint(hints, b.kappa) && |a.content| > |b.content|)))
  }

  function Insert(hints: map<bytes, bytes>, o: GitObject, sorted: seq<GitObject>): seq<GitObject> {
    if sorted == [] || !Before(hints, sorted[0], o) then [o] + sorted
    else [sorted[0]] + Insert(hints, o, sorted[1..])
  }

  function Sorted(hints: map<bytes, bytes>, objs: seq<GitObject>): seq<GitObject> {
    if objs == [] then [] else Insert(hints, objs[0], Sorted(hints, objs[1..]))
  }

  lemma {:induction false} InsertPermutes(hints: map<bytes, bytes>, o: GitObject, sorted: seq<GitObject>)
    ensures multiset(Insert(hints, o, sorted)) == multiset{o} + multiset(sorted)
    decreases |sorted|
  {
    if sorted != [] && Before(hints, sorted[0], o) {
      InsertPermutes(hints, o, sorted[1..]);
      assert sorted == [sorted[0]] + sorted[1..];
    }
  }

  lemma {:induction false} SortedPermutes(hints: map<bytes, bytes>, objs: seq<GitObject>)
    ensures multiset(Sorted(hints, objs)) == multiset(objs)
    decreases |objs|
  {
    if objs != [] {
      SortedPermutes(hints, objs[1..]);
      InsertPermutes(hints, objs[0], Sorted(hints, objs[1..]));
      assert objs == [objs[0]] + objs[1..];
    }
  }

  /** Pack order is a strict weak order. */
  lemma NotBeforeTransitive(hints: map<bytes, bytes>, a: GitObject, b: GitObject, c: GitObject)
    requires !Before(hints, b, a) && !Before(hints, c, b)
    ensures !Before(hints, c, a)
  {
    hide Lex.Less, Hint;
    var x, y, z := Hint(hints, a.kappa), Hint(hints, b.kappa), Hint(hints, c.kappa);
    Lex.Trichotomy(x, y);
    Lex.Trichotomy(y, z);
    Lex.Irreflexive(x);
    if Lex.Less(x, y) && Lex.Less(y, z) {
      Lex.Transitive(x, y, z);
    }
    if Lex.Less(x, z) {
      Lex.Asymmetric(x, z);
    }
  }

  lemma BeforeAsymmetric(hints: map<bytes, bytes>, a: GitObject, b: GitObject)
    requires Before(hints, a, b)
    ensures !Before(hints, b, a)
  {
    hide Lex.Less, Hint;
    Lex.Irreflexive(Hint(hints, a.kappa));
    if Lex.Less(Hint(hints, a.kappa), Hint(hints, b.kappa)) {
      Lex.Asymmetric(Hint(hints, a.kappa), Hint(hints, b.kappa));
    }
  }

  ghost predicate InOrder(hints: map<bytes, bytes>, s: seq<GitObject>) {
    forall i, j :: 0 <= i < j < |s| ==> !Before(hints, s[j], s[i])
  }

  /** The objects pack order does not tell from `p`, as they stand. */
  function Peers(hints: map<bytes, bytes>, p: GitObject, s: seq<GitObject>): seq<GitObject> {
    if s == [] then []
    else (if Before(hints, s[0], p) || Before(hints, p, s[0]) then [] else [s[0]]) + Peers(hints, p, s[1..])
  }

  lemma {:induction false} InsertMembers(hints: map<bytes, bytes>, o: GitObject, sorted: seq<GitObject>, x: GitObject)
    ensures x in Insert(hints, o, sorted) ==> x == o || x in sorted
    decreases |sorted|
  {
    hide Before;
    if sorted != [] && Before(hints, sorted[0], o) {
      InsertMembers(hints, o, sorted[1..], x);
    }
  }

  lemma {:induction false} InsertInOrder(hints: map<bytes, bytes>, o: GitObject, sorted: seq<GitObject>)
    requires InOrder(hints, sorted)
    ensures InOrder(hints, Insert(hints, o, sorted))
    decreases |sorted|
  {
    hide Before;
    if sorted != [] && Before(hints, sorted[0], o) {
      var rest := sorted[1..];
      InsertInOrder(hints, o, rest);
      BeforeAsymmetric(hints, sorted[0], o);
      var r := Insert(hints, o, rest);
      forall j | 0 <= j < |r|
        ensures !Before(hints, r[j], sorted[0])
      {
        InsertMembers(hints, o, rest, r[j]);
      }
    } else {
      forall j | 0 <= j < |sorted|
        ensures !Before(hints, sorted[j], o)
      {
        if j > 0 {
          NotBeforeTransitive(hints, o, sorted[0], sorted[j]);
        }
      }
    }
  }

  lemma {:induction false} InsertKeepsPeers(hints: map<bytes, bytes>, p: GitObject, o: GitObject, s: seq<GitObject>)
    ensures Peers(hints, p, Insert(hints, o, s)) == Peers(hints, p, [o] + s)
    decreases |s|
  {
    hide Before;
    assert ([o] + s)[1..] == s;
    if s != [] && Before(hints, s[0], o) {
      var r := Insert(hints, o, s[1..]);
      assert ([s[0]] + r)[1..] == r && ([o] + s[1..])[1..] == s[1..];
      InsertKeepsPeers(hints, p, o, s[1..]);
      if !Before(hints, s[0], p) && !Before(hints, p, o) {
        NotBeforeTransitive(hints, o, p, s[0]);
      }
    }
  }

  /** The order objects are packed in: by kind, name hint and falling size, ties as requested. With SortedPermutes this
      determines the list. */
  lemma {:induction false} SortedIsStable(hints: map<bytes, bytes>, objs: seq<GitObject>)
    ensures InOrder(hints, Sorted(hints, objs))
    ensures forall p :: Peers(hints, p, Sorted(hints, objs)) == Peers(hints, p, objs)
    decreases |objs|
  {
    hide Before, InOrder;
    if objs != [] {
      var rest := Sorted(hints, objs[1..]);
      SortedIsStable(hints, objs[1..]);
      InsertInOrder(hints, objs[0], rest);
      forall p
        ensures Peers(hints, p, Insert(hints, objs[0], rest)) == Peers(hints, p, objs)
      {
        InsertKeepsPeers(hints, p, objs[0], rest);
        assert ([objs[0]] + rest)[1..] == rest;
      }
    } else {
      NothingInOrder(hints);
    }
  }

  /** The order spelled out: commits, trees, blobs, tags; within a kind by name; within a name the larger first. */
  lemma SortedByKindNameSize(hints: map<bytes, bytes>, objs: seq<GitObject>, i: nat, j: nat)
    requires i < j < |Sorted(hints, objs)|
    ensures
      var a, b := Sorted(hints, objs)[i], Sorted(hints, objs)[j];
      var x, y := if a.kappa in hints then hints[a.kappa] else [], if b.kappa in hints then hints[b.kappa] else [];
      || Rank(a.kind) < Rank(b.kind)
      || (a.kind == b.kind && (Lex.Less(x, y) || (x == y && |a.content| >= |b.content|)))
  {
    hide Sorted, Lex.Less;
    SortedIsStable(hints, objs);
    var a, b := Sorted(hints, objs)[i], Sorted(hints, objs)[j];
    Lex.Trichotomy(Hint(hints, a.kappa), Hint(hints, b.kappa));
  }

  function Rank(kind: Kind): nat {
    match kind case Commit => 0 case Tree => 1 case Blob => 2 case Tag => 3
  }

  lemma NothingInOrder(hints: map<bytes, bytes>)
    ensures InOrder(hints, [])
  {
  }

  /** The requested kappas that the store holds as Git objects. */
  function Loaded(store: Store, kappas: seq<bytes>): seq<GitObject> {
    if kappas == [] then []
    else
      var k := kappas[0];
      (if k in store && store[k].Git? then [GitObject(k, store[k].kind, store[k].content)] else [])
      + Loaded(store, kappas[1..])
  }

  lemma {:induction false} LoadedHolds(store: Store, kappas: seq<bytes>, o: GitObject)
    ensures
      o in Loaded(store, kappas) <==>
      o.kappa in kappas && o.kappa in store && store[o.kappa] == Git(o.kind, o.content)
    decreases |kappas|
  {
    if kappas != [] {
      LoadedHolds(store, kappas[1..], o);
      assert kappas == [kappas[0]] + kappas[1..];
    }
  }

  // ---- The window ----

  type Recent = seq<(Kind, bytes)>

  /** The shortest delta against a recent object of the same kind, newest first: index and delta. */
  function ChooseFrom(recent: Recent, i: nat, kind: Kind, content: bytes): (r: Option<(nat, bytes)>)
    requires i <= |recent|
    ensures r.Some? ==> i <= r.value.0 < |recent| && recent[r.value.0].0 == kind
    ensures r.Some? ==> DeltaEncoder.KeptPackDelta(recent[r.value.0].1, content) == Some(r.value.1)
    decreases |recent| - i
  {
    if i == |recent| then None
    else
      var later := ChooseFrom(recent, i + 1, kind, content);
      if recent[i].0 != kind then later
      else
        match DeltaEncoder.KeptPackDelta(recent[i].1, content)
        case None => later
        case Some(d) => if later.None? || |d| < |later.value.1| then Some((i, d)) else later
  }

  function Choose(recent: Recent, o: GitObject): (r: Option<(nat, bytes)>)
    ensures r.Some? ==> r.value.0 < |recent| && recent[r.value.0].0 == o.kind
    ensures r.Some? ==> DeltaEncoder.KeptPackDelta(recent[r.value.0].1, o.content) == Some(r.value.1)
  {
    if |o.content| >= MIN_DELTA_TARGET then ChooseFrom(recent, 0, o.kind, o.content) else None
  }

  /** Append, and drop the oldest beyond the window. */
  function Push<T>(window: seq<T>, x: T): (w: seq<T>)
    ensures forall y :: y in w ==> y in window || y == x
  {
    var w := window + [x];
    if |w| > DELTA_WINDOW then w[1..] else w
  }

  function Slid(recent: Recent, o: GitObject): Recent {
    Push<(Kind, bytes)>(recent, (o.kind, o.content))
  }

  // ---- The pack ----

  function EntryFor(recent: Recent, offsets: seq<nat>, o: GitObject, at: nat): (e: PackEntry)
    requires |recent| == |offsets| && forall i :: 0 <= i < |offsets| ==> offsets[i] < at
    ensures !e.Ref?
  {
    match Choose(recent, o)
    case None => Whole(o.kind, o.content)
    case Some((i, delta)) => Ofs(at - offsets[i], delta)
  }

  function Body(z: Zlib, objs: seq<GitObject>, recent: Recent, offsets: seq<nat>, at: nat): bytes
    requires |recent| == |offsets| && forall i :: 0 <= i < |offsets| ==> offsets[i] < at
    decreases |objs|
  {
    if objs == [] then []
    else
      var e := EntryBytes(z, EntryFor(recent, offsets, objs[0], at));
      e + Body(z, objs[1..], Slid(recent, objs[0]), Push<nat>(offsets, at), at + |e|)
  }

  lemma {:induction false} BodyStep(z: Zlib, objs: seq<GitObject>, recent: Recent, offsets: seq<nat>, at: nat)
    requires objs != []
    requires |recent| == |offsets| && forall i :: 0 <= i < |offsets| ==> offsets[i] < at
    ensures
      var e := EntryBytes(z, EntryFor(recent, offsets, objs[0], at));
      var recent', offsets' := Slid(recent, objs[0]), Push<nat>(offsets, at);
      && |recent'| == |offsets'| && (forall i :: 0 <= i < |offsets'| ==> offsets'[i] < at + |e|)
      && Body(z, objs, recent, offsets, at) == e + Body(z, objs[1..], recent', offsets', at + |e|)
  {
    hide EntryBytes, EntryFor;
  }

  function Pack(env: Env, objs: seq<GitObject>): bytes {
    var payload := PackHeader(|objs|) + Body(env.z, objs, [], [], 12);
    payload + env.checksum(payload)
  }

  // ---- Ingesting what was generated ----

  /** Every delta the generator chooses copies less than 16 MiB at a time. */
  ghost predicate ShortDeltas(objs: seq<GitObject>, recent: Recent)
    decreases |objs|
  {
    objs == [] ||
    (&& (match Choose(recent, objs[0])
         case None => true
         case Some((i, _)) => DeltaCodec.ShortMatches(recent[i].1, objs[0].content))
     && ShortDeltas(objs[1..], Slid(recent, objs[0])))
  }

  /** Objects are stored under their id, and fit the 32-bit copy offsets. */
  ghost predicate Addressed(env: Env, objs: seq<GitObject>) {
    forall o :: o in objs ==> env.id(o.kind, o.content) == o.kappa && |o.content| <= COPY_OFFSETS
  }

  /** Where the store already has one of these kappas, it has that object. */
  ghost predicate Agrees(store: Store, objs: seq<GitObject>) {
    forall o :: o in objs && o.kappa in store ==> store[o.kappa] == Git(o.kind, o.content)
  }

  ghost predicate OneObject(objs: seq<GitObject>) {
    forall a, b :: a in objs && b in objs && a.kappa == b.kappa ==> a == b
  }

  /** Slot `i` of the window is an earlier entry, in the offset map and in the store. */
  ghost predicate SlotKnown(st: Ingest, recent: Recent, offsets: seq<nat>, i: nat)
    requires i < |recent| == |offsets|
  {
    && offsets[i] in st.offsets
    && st.offsets[offsets[i]] in st.store
    && st.store[st.offsets[offsets[i]]] == Git(recent[i].0, recent[i].1)
    && |recent[i].1| <= COPY_OFFSETS
  }

  ghost predicate WindowKnown(st: Ingest, recent: Recent, offsets: seq<nat>, at: nat) {
    && |recent| == |offsets|
    && forall i :: 0 <= i < |recent| ==> offsets[i] < at && SlotKnown(st, recent, offsets, i)
  }

  function WithObject(store: Store, o: GitObject): Store {
    Put(store, o.kappa, Git(o.kind, o.content))
  }

  function PutAll(store: Store, objs: seq<GitObject>): Store
    decreases |objs|
  {
    if objs == [] then store
    else PutAll(WithObject(store, objs[0]), objs[1..])
  }

  /** An entry counts as ingested if it is whole and either streamed or new; as deduplicated otherwise. */
  predicate Counts(recent: Recent, o: GitObject, store: Store) {
    Choose(recent, o).None? && (|o.content| > STREAMING_THRESHOLD || o.kappa !in store)
  }

  /** The state after the object at `at`: it is stored, its offset is known, and one counter went up. */
  ghost predicate Took(st: Ingest, recent: Recent, o: GitObject, at: nat, st': Ingest) {
    && st'.store == WithObject(st.store, o)
    && st'.offsets == st.offsets[at := o.kappa]
    && st'.ingested == st.ingested + (if Counts(recent, o, st.store) then 1 else 0)
    && st'.deduplicated == st.deduplicated + (if Counts(recent, o, st.store) then 0 else 1)
  }

  /** How many of the entries count as ingested. */
  function Ingested(objs: seq<GitObject>, recent: Recent, store: Store): (n: nat)
    ensures n <= |objs|
    decreases |objs|
  {
    if objs == [] then 0
    else
      (if Counts(recent, objs[0], store) then 1 else 0)
      + Ingested(objs[1..], Slid(recent, objs[0]), WithObject(store, objs[0]))
  }

  /** One generated entry, read and ingested: the object arrives, or its delta is too long to apply. */
  lemma IngestGenerated(env: Env, data: bytes, o: GitObject, recent: Recent, offsets: seq<nat>, at: nat, st: Ingest)
    requires Usable(env) && WindowKnown(st, recent, offsets, at)
    requires env.id(o.kind, o.content) == o.kappa && |o.content| <= COPY_OFFSETS
    requires At(data, at, EntryBytes(env.z, EntryFor(recent, offsets, o, at)))
    ensures
      var e := EntryFor(recent, offsets, o, at);
      e.Ofs? ==> 0 < e.distance <= at && at - e.distance in st.offsets
    ensures
      var e := EntryFor(recent, offsets, o, at);
      var p := ReadEntry(env.z, env.hashLen, data, at);
      && p.Some? && p.value.next == at + |EntryBytes(env.z, e)|
      && var r := IngestEntry(env, st, at, p.value);
         if r.Ok? then ShortDeltas([o], recent) && Took(st, recent, o, at, r.value) else !ShortDeltas([o], recent)
  {
    hide ReadEntry, EntryBytes, Apply, At, Choose, DeltaCodec.Delta, DeltaCodec.ShortMatches;
    assert [o][1..] == [];
    match Choose(recent, o) {
      case None =>
        WholeRoundTrip(env.z, env.hashLen, data, at, o.kind, o.content);
      case Some((i, delta)) =>
        DeltaIsDelta(recent[i].1, o.content, delta);
        OfsEntryRoundTrip(env.z, env.hashLen, data, at, at - offsets[i], delta);
        assert SlotKnown(st, recent, offsets, i);
        DeltaCodec.RoundTripIffShort(recent[i].1, o.content);
    }
  }

  lemma DeltaIsDelta(base: bytes, target: bytes, delta: bytes)
    requires DeltaEncoder.KeptPackDelta(base, target) == Some(delta)
    ensures delta == DeltaCodec.Delta(base, target) && |delta| < |target|
  {
  }

  lemma WindowAdvances(st: Ingest, o: GitObject, recent: Recent, offsets: seq<nat>, at: nat, st': Ingest, next: nat)
    requires WindowKnown(st, recent, offsets, at) && Took(st, recent, o, at, st') && at < next
    requires |o.content| <= COPY_OFFSETS
    requires o.kappa in st.store ==> st.store[o.kappa] == Git(o.kind, o.content)
    ensures WindowKnown(st', Slid(recent, o), Push<nat>(offsets, at), next)
  {
    var r, f := recent + [(o.kind, o.content)], offsets + [at];
    forall i | 0 <= i < |r|
      ensures f[i] < next && SlotKnown(st', r, f, i)
    {
      if i < |recent| {
        assert SlotKnown(st, recent, offsets, i);
      }
    }
    if |r| > DELTA_WINDOW {
      forall i | 0 <= i < |r[1..]|
        ensures f[1..][i] < next && SlotKnown(st', r[1..], f[1..], i)
      {
        assert SlotKnown(st', r, f, i + 1);
      }
    }
  }

  lemma AgreesAfter(store: Store, objs: seq<GitObject>)
    requires objs != [] && Agrees(store, objs) && OneObject(objs)
    ensures Agrees(WithObject(store, objs[0]), objs[1..])
    ensures OneObject(objs[1..])
  {
  }

  lemma {:induction false} IngestBody(env: Env, data: bytes, objs: seq<GitObject>, recent: Recent, offsets: seq<nat>,
                                      at: nat, st: Ingest)
    requires Usable(env) && WindowKnown(st, recent, offsets, at)
    requires Addressed(env, objs) && Agrees(st.store, objs) && OneObject(objs)
    requires At(data, at, Body(env.z, objs, recent, offsets, at))
    ensures
      match IngestEntries(env, data, |objs|, at, st)
      case Err(_) => !ShortDeltas(objs, recent)
      case Ok((end, pos)) =>
        && ShortDeltas(objs, recent)
        && pos == at + |Body(env.z, objs, recent, offsets, at)|
        && end.store == PutAll(st.store, objs)
        && end.ingested == st.ingested + Ingested(objs, recent, st.store)
        && end.deduplicated == st.deduplicated + |objs| - Ingested(objs, recent, st.store)
    decreases |objs|
  {
    hide ReadEntry, EntryBytes, IngestEntry, At, WindowKnown, EntryFor, Counts, Agrees, OneObject, ShortDeltas, Body;
    hide Push;
    if objs == [] {
      NothingToDo(env.z, recent, offsets, at) by { WindowShape(st, recent, offsets, at); }
    } else {
      var o, rest := objs[0], objs[1..];
      WindowShape(st, recent, offsets, at);
      var e := EntryBytes(env.z, EntryFor(recent, offsets, o, at));
      var recent', offsets' := Slid(recent, o), Push<nat>(offsets, at);
      BodyStep(env.z, objs, recent, offsets, at);
      AtSplit(data, at, e, Body(env.z, rest, recent', offsets', at + |e|));
      assert o in objs;
      IngestGenerated(env, data, o, recent, offsets, at, st);
      ShortDeltasStep(objs, recent);
      var p := ReadEntry(env.z, env.hashLen, data, at).value;
      match IngestEntry(env, st, at, p) {
        case Err(_) =>
        case Ok(st') =>
          HeadAgrees(st.store, objs);
          WindowAdvances(st, o, recent, offsets, at, st', p.next);
          AgreesAfter(st.store, objs);
          IngestBody(env, data, rest, recent', offsets', p.next, st');
      }
    }
  }

  lemma NothingToDo(z: Zlib, recent: Recent, offsets: seq<nat>, at: nat)
    requires |recent| == |offsets| && forall i :: 0 <= i < |offsets| ==> offsets[i] < at
    ensures Body(z, [], recent, offsets, at) == [] && ShortDeltas([], recent)
  {
  }

  lemma HeadAgrees(store: Store, objs: seq<GitObject>)
    requires objs != [] && Agrees(store, objs)
    ensures objs[0].kappa in store ==> store[objs[0].kappa] == Git(objs[0].kind, objs[0].content)
  {
    assert objs[0] in objs;
  }

  lemma WindowShape(st: Ingest, recent: Recent, offsets: seq<nat>, at: nat)
    requires WindowKnown(st, recent, offsets, at)
    ensures |recent| == |offsets| && forall i :: 0 <= i < |offsets| ==> offsets[i] < at
  {
  }

  lemma ShortDeltasStep(objs: seq<GitObject>, recent: Recent)
    requires objs != []
    ensures
      ShortDeltas(objs, recent) <==>
      ShortDeltas([objs[0]], recent) && ShortDeltas(objs[1..], Slid(recent, objs[0]))
  {
    assert [objs[0]][1..] == [];
  }

  lemma {:induction false} PutAllIsUnion(store: Store, objs: seq<GitObject>, k: bytes)
    requires Agrees(store, objs) && OneObject(objs)
    ensures k in PutAll(store, objs) <==> k in store || exists o :: o in objs && o.kappa == k
    ensures k in store ==> PutAll(store, objs)[k] == store[k]
    ensures forall o :: o in objs && o.kappa == k ==> PutAll(store, objs)[k] == Git(o.kind, o.content)
    decreases |objs|
  {
    if objs != [] {
      AgreesAfter(store, objs);
      HeadAgrees(store, objs);
      PutAllIsUnion(WithObject(store, objs[0]), objs[1..], k);
      assert objs == [objs[0]] + objs[1..];
    }
  }

  /** Whole packs: ingestion succeeds iff no chosen delta copies 16 MiB at once; then the store gains exactly these
      objects, with their kinds, and every entry is counted once, by the counter its form and size decide. */
  lemma PackRoundTrip(env: Env, objs: seq<GitObject>, store: Store)
    requires Usable(env) && Addressed(env, objs) && Agrees(store, objs) && OneObject(objs) && |objs| < TWO32
    ensures
      match IngestPack(env, Pack(env, objs), store)
      case Err(_) => !ShortDeltas(objs, [])
      case Ok(end) =>
        && ShortDeltas(objs, [])
        && end.store == PutAll(store, objs)
        && end.ingested == Ingested(objs, [], store) && end.deduplicated == |objs| - Ingested(objs, [], store)
  {
    hide IngestEntries, Body, BigEndian, FromBigEndian, Pow256, Agrees, OneObject, Addressed, ShortDeltas, Ingested;
    var h, b := PackHeader(|objs|), Body(env.z, objs, [], [], 12);
    var payload := h + b;
    var pack := Pack(env, objs);
    assert |pack| == |payload| + env.hashLen;
    assert pack[..|pack| - env.hashLen] == payload && pack[|payload|..] == env.checksum(payload);
    assert pack[..12] == h;
    assert pack[..4] == h[..4] == PACK_MAGIC && pack[4..8] == h[4..8] == BigEndian(2, 4);
    assert pack[8..12] == h[8..12] == BigEndian(|objs|, 4);
    Widths();
    BigEndianValue(|objs|, 4);
    BigEndianValue(2, 4);
    SmallMod(|objs|, TWO32);
    AtSplit(payload, 0, h, b);
    assert At(payload, 0, h + b);
    IngestBody(env, payload, objs, [], [], 12, Ingest(store, map[], 0, 0));
  }

  /** The pack a fetch sends: the requested objects the source holds, sorted. */
  function Generated(env: Env, source: Store, kappas: seq<bytes>, hints: map<bytes, bytes>): bytes {
    Pack(env, Sorted(hints, Loaded(source, kappas)))
  }

  ghost predicate ContentAddressed(env: Env, source: Store) {
    forall k :: k in source && source[k].Git? ==>
      env.id(source[k].kind, source[k].content) == k && |source[k].content| <= COPY_OFFSETS
  }

  lemma {:induction false} LoadedLength(store: Store, kappas: seq<bytes>)
    ensures |Loaded(store, kappas)| <= |kappas|
    decreases |kappas|
  {
    if kappas != [] {
      LoadedLength(store, kappas[1..]);
    }
  }

  lemma SortedMembers(hints: map<bytes, bytes>, objs: seq<GitObject>)
    ensures forall o :: o in Sorted(hints, objs) <==> o in objs
    ensures |Sorted(hints, objs)| == |objs|
  {
    SortedPermutes(hints, objs);
    forall o
      ensures o in Sorted(hints, objs) <==> o in objs
    {
      assert o in Sorted(hints, objs) <==> o in multiset(Sorted(hints, objs));
      assert o in objs <==> o in multiset(objs);
    }
    assert |multiset(Sorted(hints, objs))| == |multiset(objs)|;
  }

  /** From store to store: ingesting a generated pack adds exactly the requested objects the source holds. */
  lemma TransferExact(env: Env, source: Store, kappas: seq<bytes>, hints: map<bytes, bytes>, target: Store)
    requires Usable(env) && ContentAddressed(env, source) && |kappas| < TWO32
    requires forall k :: k in kappas && k in source && source[k].Git? && k in target ==> target[k] == source[k]
    ensures
      var objs := Sorted(hints, Loaded(source, kappas));
      match IngestPack(env, Generated(env, source, kappas, hints), target)
      case Err(_) => !ShortDeltas(objs, [])
      case Ok(end) =>
        && ShortDeltas(objs, [])
        && end.store == target + (map k | k in kappas && k in source && source[k].Git? :: source[k])
        && end.ingested == Ingested(objs, [], target) && end.deduplicated == |objs| - Ingested(objs, [], target)
  {
    hide IngestPack, Pack, ShortDeltas, Sorted, Loaded, Agrees, OneObject, PutAll, Ingested;
    var objs := Sorted(hints, Loaded(source, kappas));
    LoadedLength(source, kappas);
    SortedMembers(hints, Loaded(source, kappas));
    TransferAgrees(env, source, kappas, hints, target);
    PackRoundTrip(env, objs, target);
    var added := map k | k in kappas && k in source && source[k].Git? :: source[k];
    assert PutAll(target, objs) == target + added by {
      forall k
        ensures k in PutAll(target, objs) <==> k in target + added
        ensures k in target + added ==> PutAll(target, objs)[k] == (target + added)[k]
      {
        PutAllIsUnion(target, objs, k);
        if k in added {
          var o := GitObject(k, source[k].kind, source[k].content);
          LoadedHolds(source, kappas, o);
          assert o in objs;
        } else {
          forall o | o in objs && o.kappa == k
            ensures false
          {
            LoadedHolds(source, kappas, o);
          }
        }
      }
    }
  }

  lemma TransferAgrees(env: Env, source: Store, kappas: seq<bytes>, hints: map<bytes, bytes>, target: Store)
    requires ContentAddressed(env, source)
    requires forall k :: k in kappas && k in source && source[k].Git? && k in target ==> target[k] == source[k]
    ensures
      var objs := Sorted(hints, Loaded(source, kappas));
      Addressed(env, objs) && Agrees(target, objs) && OneObject(objs)
  {
    hide Sorted, Loaded;
    var objs := Sorted(hints, Loaded(source, kappas));
    SortedMembers(hints, Loaded(source, kappas));
    forall o | o in objs
      ensures o.kappa in kappas && o.kappa in source && source[o.kappa] == Git(o.kind, o.content)
    {
      LoadedHolds(source, kappas, o);
    }
  }
}
