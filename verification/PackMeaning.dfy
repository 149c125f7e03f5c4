/** What any pack means: whole objects, deltas against earlier entries, and deltas against objects named by id. */
module PackMeaning {
  import opened Bytes
  import opened Endian
  import opened DeltaFormat
  import DeltaCodec
  import opened PackFormat
  import opened PackIngest
  import opened PackCodec

  // ---- The objects that entries stand for ----

  /** The objects read so far, by the offset of their entries. */
  type Known = map<nat, GitObject>

  function Object(env: Env, kind: Kind, content: bytes): GitObject {
    GitObject(env.id(kind, content), kind, content)
  }

  function Patched(env: Env, kind: Kind, base: bytes, delta: bytes): Option<GitObject> {
    match Apply(base, delta)
    case Ok(content) => Some(Object(env, kind, content))
    case Err(_) => None
  }

  /** The object of one entry: a delta takes the kind of its base, which is an earlier entry or an object of the
      store. */
  function Meant(env: Env, e: PackEntry, known: Known, store: Store, at: nat): Option<GitObject> {
    match e
    case Whole(kind, content) => Some(Object(env, kind, content))
    case Ofs(distance, delta) =>
      if distance <= at && at - distance in known
      then Patched(env, known[at - distance].kind, known[at - distance].content, delta) else None
    case Ref(oid, delta) =>
      var k := env.oidKappa(oid);
      if k in store && store[k].Git? then Patched(env, store[k].kind, store[k].content, delta) else None
  }

  /** Why an entry stands for no object. */
  function Fault(env: Env, e: PackEntry, known: Known, store: Store, at: nat): IngestError {
    match e
    case Whole(_, _) => BadPack
    case Ofs(distance, _) =>
      if distance <= at && at - distance !in known then MissingBase else BadDelta
    case Ref(oid, _) =>
      if env.oidKappa(oid) !in store then MissingBase
      else if store[env.oidKappa(oid)].Opaque? then NotAnObject else BadDelta
  }

  /** The fault of the first entry that stands for no object. */
  function FirstFault(env: Env, es: seq<PackEntry>, known: Known, store: Store, at: nat): IngestError
    decreases |es|
  {
    if es == [] then BadPack
    else
      var o := Meant(env, es[0], known, store, at);
      if o.None? then Fault(env, es[0], known, store, at)
      else
        FirstFault(env, es[1..], known[at := o.value], WithObject(store, o.value), at + |EntryBytes(env.z, es[0])|)
  }

  /** The objects of a list of entries, up to the first that stands for none. */
  function MeantAll(env: Env, es: seq<PackEntry>, known: Known, store: Store, at: nat): (objs: seq<GitObject>)
    ensures |objs| <= |es|
    decreases |es|
  {
    if es == [] || Meant(env, es[0], known, store, at).None? then []
    else
      var o := Meant(env, es[0], known, store, at).value;
      [o] + MeantAll(env, es[1..], known[at := o], WithObject(store, o), at + |EntryBytes(env.z, es[0])|)
  }

  function EntriesBytes(z: Zlib, es: seq<PackEntry>): bytes {
    if es == [] then [] else EntryBytes(z, es[0]) + EntriesBytes(z, es[1..])
  }

  /** A pack, with whatever stands between its last entry and the checksum. */
  function PackWith(env: Env, es: seq<PackEntry>, junk: bytes): bytes {
    var payload := PackHeader(|es|) + EntriesBytes(env.z, es) + junk;
    payload + env.checksum(payload)
  }

  function PackOf(env: Env, es: seq<PackEntry>): bytes {
    PackWith(env, es, [])
  }

  /** Sizes fit their fields, and ids have the length of the hash. */
  ghost predicate EntryFits(env: Env, e: PackEntry) {
    match e
    case Whole(_, content) => |content| < TWO64
    case Ofs(_, delta) => |delta| < TWO64
    case Ref(oid, delta) => |oid| == env.hashLen && |delta| < TWO64
  }

  /** Whole entries that are new or streamed count as ingested; all others as deduplicated. */
  function Counted(e: PackEntry, o: GitObject, store: Store): nat {
    if e.Whole? && (|o.content| > STREAMING_THRESHOLD || o.kappa !in store) then 1 else 0
  }

  function CountedAll(es: seq<PackEntry>, objs: seq<GitObject>, store: Store): (n: nat)
    requires |es| == |objs|
    ensures n <= |es|
    decreases |es|
  {
    if es == [] then 0
    else Counted(es[0], objs[0], store) + CountedAll(es[1..], objs[1..], WithObject(store, objs[0]))
  }

  // ---- Ingesting them ----

  /** What ingestion has recorded for the entries read so far. */
  ghost predicate Recorded(st: Ingest, known: Known) {
    && st.offsets.Keys == known.Keys
    && forall at :: at in known ==>
         && st.offsets[at] == known[at].kappa && known[at].kappa in st.store
         && st.store[known[at].kappa] == Git(known[at].kind, known[at].content)
  }

  lemma ReadWritten(env: Env, data: bytes, at: nat, e: PackEntry)
    requires Usable(env) && EntryFits(env, e) && At(data, at, EntryBytes(env.z, e))
    ensures
      var p := ReadEntry(env.z, env.hashLen, data, at);
      && p.Some? && p.value.next == at + |EntryBytes(env.z, e)|
      && match e
         case Whole(kind, content) => p.value.head == ObjectHead(kind) && p.value.data == content
         case Ofs(distance, delta) => p.value.head == OfsHead(distance) && p.value.data == delta
         case Ref(oid, delta) => p.value.head == RefHead(oid) && p.value.data == delta
  {
    hide ReadEntry, EntryBytes, At, Inverse;
    match e {
      case Whole(kind, content) => WholeRoundTrip(env.z, env.hashLen, data, at, kind, content);
      case Ofs(distance, delta) => OfsEntryRoundTrip(env.z, env.hashLen, data, at, distance, delta);
      case Ref(oid, delta) => RefEntryRoundTrip(env.z, env.hashLen, data, at, oid, delta);
    }
  }

  /** One entry: it is ingested iff it stands for an object, and then that object is stored, recorded and counted. */
  lemma IngestMeant(env: Env, data: bytes, at: nat, e: PackEntry, known: Known, st: Ingest)
    requires Usable(env) && EntryFits(env, e) && At(data, at, EntryBytes(env.z, e)) && Recorded(st, known)
    ensures
      var p, o := ReadEntry(env.z, env.hashLen, data, at), Meant(env, e, known, st.store, at);
      && p.Some? && p.value.next == at + |EntryBytes(env.z, e)|
      && var r := IngestEntry(env, st, at, p.value);
         && (r.Ok? <==> o.Some?) && (r.Err? ==> r.error == Fault(env, e, known, st.store, at))
         && (r.Ok? ==>
               && r.value.store == WithObject(st.store, o.value) && r.value.offsets == st.offsets[at := o.value.kappa]
               && r.value.ingested == st.ingested + Counted(e, o.value, st.store)
               && r.value.deduplicated == st.deduplicated + 1 - Counted(e, o.value, st.store))
  {
    hide ReadEntry, EntryBytes, At, Apply, Inverse;
    ReadWritten(env, data, at, e);
    if e.Ofs? && e.distance <= at {
      assert at - e.distance in st.offsets.Keys <==> at - e.distance in known.Keys;
    }
  }

  lemma RecordedNext(st: Ingest, known: Known, at: nat, o: GitObject, st': Ingest)
    requires Recorded(st, known) && st'.store == WithObject(st.store, o) && st'.offsets == st.offsets[at := o.kappa]
    requires o.kappa in st.store ==> st.store[o.kappa] == Git(o.kind, o.content)
    ensures Recorded(st', known[at := o])
  {
  }

  lemma {:induction false} IngestAllMeant(env: Env, data: bytes, at: nat, es: seq<PackEntry>, known: Known, st: Ingest)
    requires Usable(env) && (forall e :: e in es ==> EntryFits(env, e)) && At(data, at, EntriesBytes(env.z, es))
    requires Recorded(st, known)
    requires
      var objs := MeantAll(env, es, known, st.store, at);
      Agrees(st.store, objs) && OneObject(objs)
    ensures
      var objs, r := MeantAll(env, es, known, st.store, at), IngestEntries(env, data, |es|, at, st);
      && (r.Ok? <==> |objs| == |es|) && (r.Err? ==> r.error == FirstFault(env, es, known, st.store, at))
      && (r.Ok? ==>
            && r.value.1 == at + |EntriesBytes(env.z, es)| && r.value.0.store == PutAll(st.store, objs)
            && r.value.0.ingested == st.ingested + CountedAll(es, objs, st.store)
            && r.value.0.deduplicated == st.deduplicated + |es| - CountedAll(es, objs, st.store))
    decreases |es|
  {
    hide ReadEntry, EntryBytes, IngestEntry, At, Recorded, Meant, Agrees, OneObject, EntryFits, Counted, WithObject;
    hide Inverse, Fault;
    if es != [] {
      var e, rest := es[0], es[1..];
      var b := EntryBytes(env.z, e);
      assert e in es;
      AtSplit(data, at, b, EntriesBytes(env.z, rest));
      IngestMeant(env, data, at, e, known, st);
      var o, objs := Meant(env, e, known, st.store, at), MeantAll(env, es, known, st.store, at);
      if o.Some? {
        var st' := IngestEntry(env, st, at, ReadEntry(env.z, env.hashLen, data, at).value).value;
        assert objs[0] == o.value && objs[1..] == MeantAll(env, rest, known[at := o.value], st'.store, at + |b|);
        HeadAgrees(st.store, objs);
        AgreesAfter(st.store, objs);
        RecordedNext(st, known, at, o.value, st');
        IngestAllMeant(env, data, at + |b|, rest, known[at := o.value], st');
      }
    }
  }

  lemma NothingRecorded(store: Store)
    ensures Recorded(Ingest(store, map[], 0, 0), map[])
  {
  }

  /**
   * Every pack, whatever mix of entries it holds: it is ingested iff each entry stands for an object and nothing
   * follows the last one, and then the store gains exactly those objects, with their kinds, and the counters are
   * exact.
   */
  lemma PackMeansObjects(env: Env, es: seq<PackEntry>, junk: bytes, store: Store)
    requires Usable(env) && (forall e :: e in es ==> EntryFits(env, e)) && |es| < TWO32
    requires var objs := MeantAll(env, es, map[], store, 12); Agrees(store, objs) && OneObject(objs)
    ensures
      var objs, r := MeantAll(env, es, map[], store, 12), IngestPack(env, PackWith(env, es, junk), store);
      && (r.Ok? <==> |objs| == |es| && junk == [])
      && (r.Err? ==> r.error == if |objs| == |es| then BadPack else FirstFault(env, es, map[], store, 12))
      && (r.Ok? ==>
            && r.value.store == PutAll(store, objs)
            && r.value.ingested == CountedAll(es, objs, store)
            && r.value.deduplicated == |es| - CountedAll(es, objs, store))
  {
    hide IngestEntries, EntriesBytes, BigEndian, FromBigEndian, Pow256, Agrees, OneObject, MeantAll, EntryFits;
    hide CountedAll, Recorded, PutAll, FirstFault;
    var h, b := PackHeader(|es|), EntriesBytes(env.z, es);
    var payload, pack := h + b + junk, PackWith(env, es, junk);
    assert |pack| == |payload| + env.hashLen;
    assert pack[..|pack| - env.hashLen] == payload && pack[|payload|..] == env.checksum(payload);
    assert pack[..12] == h;
    assert pack[..4] == h[..4] == PACK_MAGIC && pack[4..8] == h[4..8] == BigEndian(2, 4);
    assert pack[8..12] == h[8..12] == BigEndian(|es|, 4);
    Widths();
    BigEndianValue(|es|, 4);
    BigEndianValue(2, 4);
    SmallMod(|es|, TWO32);
    AtSplit(payload, 0, h + b, junk);
    AtSplit(payload, 0, h, b);
    assert At(payload, 0, h + b + junk);
    NothingRecorded(store);
    IngestAllMeant(env, payload, 12, es, map[], Ingest(store, map[], 0, 0));
  }

  // ---- Thin packs ----

  /** A pack of one delta against an object the store has: it brings the target, with the kind of the base, iff the
      delta is short. */
  lemma ThinPack(env: Env, oid: bytes, kind: Kind, base: bytes, target: bytes, store: Store)
    requires Usable(env) && |oid| == env.hashLen && |base| <= COPY_OFFSETS && |target| < TWO64
    requires |DeltaCodec.Delta(base, target)| < TWO64
    requires env.oidKappa(oid) in store && store[env.oidKappa(oid)] == Git(kind, base)
    requires env.id(kind, target) in store ==> store[env.id(kind, target)] == Git(kind, target)
    ensures
      var r := IngestPack(env, PackOf(env, [Ref(oid, DeltaCodec.Delta(base, target))]), store);
      && (r.Ok? <==> DeltaCodec.ShortMatches(base, target))
      && (r.Ok? ==> r.value.store == Put(store, env.id(kind, target), Git(kind, target)))
  {
    hide IngestPack, PackWith, DeltaCodec.Delta, DeltaCodec.ShortMatches, Apply, CountedAll;
    var delta := DeltaCodec.Delta(base, target);
    var es := [Ref(oid, delta)];
    assert es[1..] == [];
    DeltaCodec.RoundTripIffShort(base, target);
    var objs := MeantAll(env, es, map[], store, 12);
    assert objs == if DeltaCodec.ShortMatches(base, target) then [Object(env, kind, target)] else [];
    assert DeltaCodec.ShortMatches(base, target) ==> objs[1..] == [];
    PackMeansObjects(env, es, [], store);
  }

  /** A base that is not there, or is no object, is an error. */
  lemma ThinPackWithoutBase(env: Env, oid: bytes, delta: bytes, store: Store)
    requires Usable(env) && |oid| == env.hashLen && |delta| < TWO64
    requires env.oidKappa(oid) !in store || store[env.oidKappa(oid)].Opaque?
    ensures
      IngestPack(env, PackOf(env, [Ref(oid, delta)]), store) ==
      Err(if env.oidKappa(oid) in store then NotAnObject else MissingBase)
  {
    hide IngestPack, PackWith;
    PackMeansObjects(env, [Ref(oid, delta)], [], store);
  }
}
