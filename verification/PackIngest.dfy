/** Ingesting a pack: the entry loop, its offset map and delta resolution against the store. */
module PackIngest {
  import opened Bytes
  import opened Endian
  import opened DeltaFormat
  import opened PackFormat

  /** What the Git module calls elsewhere: zlib, object ids, the pack checksum and the id-to-kappa conversion. */
  datatype Env = Env(z: Zlib, id: (Kind, bytes) -> bytes, checksum: bytes -> bytes, oidKappa: bytes -> bytes,
      hashLen: nat)

  ghost predicate Usable(env: Env) {
    Inverse(env.z) && forall x :: |env.checksum(x)| == env.hashLen
  }

  /** A stored blob is either an object envelope, which unwraps to its kind and content, or it is not. */
  datatype Stored = Git(kind: Kind, content: bytes) | Opaque(raw: bytes)

  type Store = map<bytes, Stored>

  /** Content-addressed insertion: what is there stays. */
  function Put(store: Store, kappa: bytes, b: Stored): Store {
    if kappa in store then store else store[kappa := b]
  }

  datatype IngestError = BadPack | MissingBase | NotAnObject | BadDelta

  datatype Ingest = Ingest(store: Store, offsets: map<nat, bytes>, ingested: nat, deduplicated: nat)

  const STREAMING_THRESHOLD: nat := 262_144

  /** A streamed object counts as ingested even when it was there. */
  function IngestObject(env: Env, st: Ingest, offset: nat, kind: Kind, content: bytes): Ingest {
    var kappa := env.id(kind, content);
    var counted := |content| > STREAMING_THRESHOLD || kappa !in st.store;
    Ingest(Put(st.store, kappa, Git(kind, content)), st.offsets[offset := kappa],
           st.ingested + (if counted then 1 else 0), st.deduplicated + (if counted then 0 else 1))
  }

  /** A resolved delta is looked up after it has been stored, so it always counts as deduplicated. */
  function ResolveDelta(env: Env, st: Ingest, offset: nat, base: bytes, delta: bytes): Result<Ingest, IngestError> {
    if base !in st.store then Err(MissingBase)
    else
      match st.store[base]
      case Opaque(_) => Err(NotAnObject)
      case Git(kind, content) =>
        match Apply(content, delta)
        case Err(_) => Err(BadDelta)
        case Ok(resolved) =>
          var kappa := env.id(kind, resolved);
          Ok(Ingest(Put(st.store, kappa, Git(kind, resolved)), st.offsets[offset := kappa],
                    st.ingested, st.deduplicated + 1))
  }

  function IngestEntry(env: Env, st: Ingest, offset: nat, p: Parsed): Result<Ingest, IngestError> {
    match p.head
    case ObjectHead(kind) => Ok(IngestObject(env, st, offset, kind, p.data))
    case RefHead(oid) => ResolveDelta(env, st, offset, env.oidKappa(oid), p.data)
    case OfsHead(distance) =>
      if distance > offset then Err(BadDelta)
      else if offset - distance !in st.offsets then Err(MissingBase)
      else ResolveDelta(env, st, offset, st.offsets[offset - distance], p.data)
  }

  function IngestEntries(env: Env, data: bytes, n: nat, pos: nat, st: Ingest): Result<(Ingest, nat), IngestError>
    decreases n
  {
    if n == 0 then Ok((st, pos))
    else
      match ReadEntry(env.z, env.hashLen, data, pos)
      case None => Err(BadPack)
      case Some(p) =>
        var st' :- IngestEntry(env, st, pos, p);
        IngestEntries(env, data, n - 1, p.next, st')
  }

  const PACK_MAGIC: bytes := [0x50, 0x41, 0x43, 0x4B]

  function PackHeader(count: nat): (h: bytes)
    ensures |h| == 12
  {
    PACK_MAGIC + BigEndian(2, 4) + BigEndian(count, 4)
  }

  function IngestPack(env: Env, pack: bytes, store: Store): Result<Ingest, IngestError> {
    if |pack| < 12 + env.hashLen then Err(BadPack)
    else
      var payload := pack[..|pack| - env.hashLen];
      if pack[..4] != PACK_MAGIC || FromBigEndian(pack[4..8]) != 2 || env.checksum(payload) != pack[|payload|..]
      then Err(BadPack)
      else
        var (st, pos) :- IngestEntries(env, payload, FromBigEndian(pack[8..12]), 12, Ingest(store, map[], 0, 0));
        if pos != |payload| then Err(BadPack) else Ok(st)
  }

  // ---- Whatever the bytes ----

  /** What ingestion may add: objects under their own id. What was there stays. */
  ghost predicate Grown(env: Env, before: Store, after: Store) {
    && (forall k :: k in before ==> k in after && after[k] == before[k])
    && (forall k :: k in after && k !in before ==> after[k].Git? && k == env.id(after[k].kind, after[k].content))
  }

  lemma EntryGrows(env: Env, st: Ingest, offset: nat, p: Parsed)
    requires IngestEntry(env, st, offset, p).Ok?
    ensures
      var st' := IngestEntry(env, st, offset, p).value;
      && Grown(env, st.store, st'.store)
      && st'.ingested + st'.deduplicated == st.ingested + st.deduplicated + 1
      && offset in st'.offsets && st'.offsets[offset] in st'.store
  {
    hide Apply;
  }

  lemma {:induction false} EntriesGrow(env: Env, data: bytes, n: nat, pos: nat, st: Ingest)
    requires IngestEntries(env, data, n, pos, st).Ok?
    ensures
      var end := IngestEntries(env, data, n, pos, st).value.0;
      Grown(env, st.store, end.store) && end.ingested + end.deduplicated == st.ingested + st.deduplicated + n
    decreases n
  {
    hide ReadEntry, IngestEntry;
    if n > 0 {
      var p := ReadEntry(env.z, env.hashLen, data, pos).value;
      EntryGrows(env, st, pos, p);
      EntriesGrow(env, data, n - 1, p.next, IngestEntry(env, st, pos, p).value);
    }
  }

  /**
   * A pack that is ingested, whoever wrote it, is framed as one and carries its own checksum; the store gains only
   * objects stored under their id, keeps all it had, and every announced entry is counted once.
   */
  lemma IngestedIsSound(env: Env, pack: bytes, store: Store)
    requires IngestPack(env, pack, store).Ok?
    ensures
      var end := IngestPack(env, pack, store).value;
      && |pack| >= 12 + env.hashLen && pack[..4] == [0x50, 0x41, 0x43, 0x4B] && FromBigEndian(pack[4..8]) == 2
      && pack[|pack| - env.hashLen..] == env.checksum(pack[..|pack| - env.hashLen])
      && Grown(env, store, end.store)
      && end.ingested + end.deduplicated == FromBigEndian(pack[8..12])
  {
    hide IngestEntries, FromBigEndian, Grown;
    var payload := pack[..|pack| - env.hashLen];
    EntriesGrow(env, payload, FromBigEndian(pack[8..12]), 12, Ingest(store, map[], 0, 0));
  }

  /** The loop of `ingest_pack`, with the maps it updates entry by entry. */
  method IngestLoop(env: Env, payload: bytes, count: nat, initial: Store)
    returns (r: Result<(Ingest, nat), IngestError>)
    ensures r == IngestEntries(env, payload, count, 12, Ingest(initial, map[], 0, 0))
  {
    hide ReadEntry, Apply;
    var store, ingested, deduplicated, pos: nat := initial, 0, 0, 12;
    var offsetToKappa: map<nat, bytes> := map[];
    for i := 0 to count
      invariant ingested >= 0 && deduplicated >= 0
      invariant IngestEntries(env, payload, count - i, pos, Ingest(store, offsetToKappa, ingested, deduplicated)) ==
                IngestEntries(env, payload, count, 12, Ingest(initial, map[], 0, 0))
    {
      var entry := ReadEntry(env.z, env.hashLen, payload, pos);
      if entry.None? {
        return Err(BadPack);
      }
      var kappa;
      match entry.value.head {
        case ObjectHead(kind) =>
          kappa := env.id(kind, entry.value.data);
          if |entry.value.data| > STREAMING_THRESHOLD || kappa !in store {
            ingested := ingested + 1;
          } else {
            deduplicated := deduplicated + 1;
          }
          store := Put(store, kappa, Git(kind, entry.value.data));
        case RefHead(oid) =>
          var resolved := Resolve(env, store, env.oidKappa(oid), entry.value.data);
          if resolved.Err? {
            return Err(resolved.error);
          }
          kappa, store := resolved.value.0, resolved.value.1;
          if kappa in store {
            deduplicated := deduplicated + 1;
          } else {
            ingested := ingested + 1;
          }
        case OfsHead(distance) =>
          if distance > pos {
            return Err(BadDelta);
          }
          if pos - distance !in offsetToKappa {
            return Err(MissingBase);
          }
          var resolved := Resolve(env, store, offsetToKappa[pos - distance], entry.value.data);
          if resolved.Err? {
            return Err(resolved.error);
          }
          kappa, store := resolved.value.0, resolved.value.1;
          if kappa in store {
            deduplicated := deduplicated + 1;
          } else {
            ingested := ingested + 1;
          }
      }
      offsetToKappa := offsetToKappa[pos := kappa];
      pos := entry.value.next;
    }
    r := Ok((Ingest(store, offsetToKappa, ingested, deduplicated), pos));
  }

  /** `resolve_delta`: fetch the base, apply, store the result under its own id. */
  method Resolve(env: Env, store: Store, base: bytes, delta: bytes) returns (r: Result<(bytes, Store), IngestError>)
    ensures
      forall offsets: map<nat, bytes>, offset: nat, ingested: nat, deduplicated: nat ::
        ResolveDelta(env, Ingest(store, offsets, ingested, deduplicated), offset, base, delta) ==
        match r
        case Err(e) => Err(e)
        case Ok((kappa, store')) => Ok(Ingest(store', offsets[offset := kappa], ingested, deduplicated + 1))
    ensures r.Ok? ==> r.value.0 in r.value.1
  {
    if base !in store {
      return Err(MissingBase);
    }
    match store[base] {
      case Opaque(_) => return Err(NotAnObject);
      case Git(kind, content) =>
        var applied := ApplyPackDelta(content, delta);
        if applied.None? {
          return Err(BadDelta);
        }
        var kappa := env.id(kind, applied.value);
        r := Ok((kappa, Put(store, kappa, Git(kind, applied.value))));
    }
  }
}
