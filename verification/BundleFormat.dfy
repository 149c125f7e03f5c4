/** The KBND frame, its decoder, and the decoder's answer on every well-formed listing of objects. */
module BundleFormat {
  import opened Bytes
  import opened Endian
  import opened DeltaFormat

  const MAGIC: bytes := [0x4B, 0x42, 0x4E, 0x44]
  const VERSION: byte := 1
  const TYPE_FULL: byte := 1
  const TYPE_DELTA: byte := 2
  const HAS_DELTAS: byte := 1
  const DECODE_MAX_BYTES: nat := 268_435_456
  const TRAILER: nat := 32

  datatype Object = Object(kappa: bytes, content: bytes)

  datatype Entry = Full(kappa: bytes, content: bytes) | DeltaOf(kappa: bytes, base: bytes, delta: bytes)

  datatype KappaCheck = Match | Mismatch | BadLabel

  /** What the bundle code calls elsewhere: the digest, UTF-8 validation and `verify_kappa`. */
  datatype Env = Env(sha256: bytes -> bytes, utf8: bytes -> bool, verify: (bytes, bytes) -> KappaCheck)

  ghost predicate Digests(env: Env) {
    forall x :: |env.sha256(x)| == TRAILER
  }

  datatype BundleError =
    | FrameTruncated
    | TrailerMismatch
    | KappaMismatch(kappa: bytes)
    | DeltaInNoDeltaBundle
    | DecodeLimitExceeded
    | UnsupportedEntryType(t: byte)
    | UnresolvableBase(base: bytes)
    | BadDelta(cause: DeltaError)
    | Label
    | Invalid

  // ---- Writing ----

  function ShortField(x: bytes): bytes {
    BigEndian(|x|, 2) + x
  }

  function LongField(x: bytes): bytes {
    BigEndian(|x|, 8) + x
  }

  function EntryBytes(e: Entry): (r: bytes)
    ensures r != []
  {
    match e
    case Full(kappa, content) => [TYPE_FULL] + ShortField(kappa) + LongField(content)
    case DeltaOf(kappa, base, delta) => [TYPE_DELTA] + ShortField(kappa) + ShortField(base) + LongField(delta)
  }

  function EntriesBytes(es: seq<Entry>): bytes {
    if es == [] then [] else EntryBytes(es[0]) + EntriesBytes(es[1..])
  }

  function Header(flags: byte, count: nat): (h: bytes)
    ensures |h| == 10
  {
    MAGIC + [VERSION, flags] + BigEndian(count, 4)
  }

  function Payload(flags: byte, es: seq<Entry>): bytes {
    Header(flags, |es|) + EntriesBytes(es)
  }

  function Frame(env: Env, flags: byte, es: seq<Entry>): bytes {
    Payload(flags, es) + env.sha256(Payload(flags, es))
  }

  // ---- Reading ----

  function ParseField(p: bytes, pos: nat, width: nat): (r: Result<(bytes, nat), BundleError>)
    ensures r.Ok? ==> pos + width <= r.value.1 <= |p|
  {
    if pos + width > |p| then Err(FrameTruncated)
    else
      var n := FromBigEndian(p[pos..pos + width]);
      if pos + width + n > |p| then Err(FrameTruncated)
      else Ok((p[pos + width..pos + width + n], pos + width + n))
  }

  function ParseKappa(env: Env, p: bytes, pos: nat): (r: Result<(bytes, nat), BundleError>)
    ensures r.Ok? ==> pos < r.value.1
  {
    var (k, next) :- ParseField(p, pos, 2);
    if env.utf8(k) then Ok((k, next)) else Err(Invalid)
  }

  function ParseContent(p: bytes, pos: nat): (r: Result<(bytes, nat), BundleError>)
    ensures r.Ok? ==> pos < r.value.1
  {
    ParseField(p, pos, 8)
  }

  function ReadFullBody(env: Env, p: bytes, pos: nat): Result<(Object, nat), BundleError> {
    var (kappa, p1) :- ParseKappa(env, p, pos);
    var (content, p2) :- ParseContent(p, p1);
    Ok((Object(kappa, content), p2))
  }

  /** A delta is resolved against the objects read before it, or else the caller's store. */
  function ReadDeltaBody(env: Env, resolve: bytes -> Option<bytes>, p: bytes, pos: nat, index: map<bytes, bytes>)
    : Result<(Object, nat), BundleError>
  {
    var (kappa, p1) :- ParseKappa(env, p, pos);
    var (base, p2) :- ParseKappa(env, p, p1);
    var (delta, p3) :- ParseContent(p, p2);
    match (if base in index then Some(index[base]) else resolve(base))
    case None => Err(UnresolvableBase(base))
    case Some(found) =>
      match Apply(found, delta)
      case Err(e) => Err(BadDelta(e))
      case Ok(content) => Ok((Object(kappa, content), p3))
  }

  function ReadEntry(env: Env, resolve: bytes -> Option<bytes>, p: bytes, flags: byte, pos: nat,
                     index: map<bytes, bytes>)
    : Result<(Object, nat), BundleError>
  {
    if pos >= |p| then Err(FrameTruncated)
    else if p[pos] == TYPE_FULL then ReadFullBody(env, p, pos + 1)
    else if p[pos] == TYPE_DELTA then
      if flags % 2 == 0 then Err(DeltaInNoDeltaBundle) else ReadDeltaBody(env, resolve, p, pos + 1, index)
    else Err(UnsupportedEntryType(p[pos]))
  }

  function Verify(env: Env, o: Object): Result<(), BundleError> {
    match env.verify(o.kappa, o.content)
    case Match => Ok(())
    case Mismatch => Err(KappaMismatch(o.kappa))
    case BadLabel => Err(Label)
  }

  function ReadEntries(env: Env, resolve: bytes -> Option<bytes>, p: bytes, flags: byte, n: nat, pos: nat,
                       index: map<bytes, bytes>, total: nat, entries: seq<Object>)
    : Result<seq<Object>, BundleError>
    decreases n
  {
    if n == 0 then Ok(entries)
    else
      var (o, next) :- ReadEntry(env, resolve, p, flags, pos, index);
      if total + |o.content| > DECODE_MAX_BYTES then Err(DecodeLimitExceeded)
      else
        var _ :- Verify(env, o);
        ReadEntries(env, resolve, p, flags, n - 1, next, index[o.kappa := o.content],
                    total + |o.content|, entries + [o])
  }

  function Decode(env: Env, resolve: bytes -> Option<bytes>, data: bytes): Result<seq<Object>, BundleError> {
    if |data| < 10 + TRAILER then Err(FrameTruncated)
    else
      var payload := data[..|data| - TRAILER];
      if env.sha256(payload) != data[|data| - TRAILER..] then Err(TrailerMismatch)
      else if data[..4] != MAGIC || data[4] != VERSION then Err(Invalid)
      else ReadEntries(env, resolve, payload, data[5], FromBigEndian(data[6..10]), 10, map[], 0, [])
  }

  method DecodeBundle(env: Env, resolve: bytes -> Option<bytes>, data: bytes)
    returns (r: Result<seq<Object>, BundleError>)
    ensures r == Decode(env, resolve, data)
  {
    hide ReadEntry, Verify;
    if |data| < 10 + TRAILER {
      return Err(FrameTruncated);
    }
    var payload := data[..|data| - TRAILER];
    if env.sha256(payload) != data[|data| - TRAILER..] {
      return Err(TrailerMismatch);
    }
    if data[..4] != MAGIC || data[4] != VERSION {
      return Err(Invalid);
    }
    var flags, count := data[5], FromBigEndian(data[6..10]);
    var pos, entries, total: nat := 10, [], 0;
    var index: map<bytes, bytes> := map[];
    for i := 0 to count
      invariant ReadEntries(env, resolve, payload, flags, count - i, pos, index, total, entries) ==
                ReadEntries(env, resolve, payload, flags, count, 10, map[], 0, [])
    {
      var read := ReadEntry(env, resolve, payload, flags, pos, index);
      if read.Err? {
        return Err(read.error);
      }
      var (o, next) := read.value;
      pos := next;
      total := total + |o.content|;
      if total > DECODE_MAX_BYTES {
        return Err(DecodeLimitExceeded);
      }
      var checked := Verify(env, o);
      if checked.Err? {
        return Err(checked.error);
      }
      index := index[o.kappa := o.content];
      entries := entries + [o];
    }
    r := Ok(entries);
  }

  // ---- Well-formed listings ----

  ghost predicate Sound(env: Env, o: Object) {
    && env.utf8(o.kappa) && |o.kappa| < 0x1_0000 && |o.content| < TWO64
    && env.verify(o.kappa, o.content) == Match
  }

  /** Every object is sound, and a kappa names one content. */
  ghost predicate Consistent(env: Env, objs: seq<Object>) {
    && (forall i :: 0 <= i < |objs| ==> Sound(env, objs[i]))
    && (forall i, j :: 0 <= i < |objs| && 0 <= j < |objs| && objs[i].kappa == objs[j].kappa ==>
          objs[i].content == objs[j].content)
  }

  /** Object `j` stands before object `i` and has the kappa a delta names as its base. */
  predicate IsBase(objs: seq<Object>, i: nat, base: bytes, j: nat)
    requires i < |objs|
  {
    j < i && objs[j].kappa == base
  }

  /** Applying the delta either gives this content or fails; it never gives something else. */
  predicate Candid(objs: seq<Object>, i: nat, delta: bytes, j: nat)
    requires i < |objs| && j < |objs|
  {
    Apply(objs[j].content, delta).Err? || Apply(objs[j].content, delta) == Ok(objs[i].content)
  }

  ghost predicate StandsFor(e: Entry, objs: seq<Object>, i: nat)
    requires i < |objs|
  {
    && e.kappa == objs[i].kappa
    && (e.Full? ==> e.content == objs[i].content)
    && (e.DeltaOf? ==> |e.delta| < TWO64 && exists j: nat :: IsBase(objs, i, e.base, j) && Candid(objs, i, e.delta, j))
  }

  ghost predicate Lists(es: seq<Entry>, objs: seq<Object>) {
    |es| == |objs| && forall i :: 0 <= i < |es| ==> StandsFor(es[i], objs, i)
  }

  /** The entry's delta applies, whichever earlier object with the base's kappa it is applied to. */
  ghost predicate Applies(e: Entry, objs: seq<Object>, i: nat)
    requires i < |objs|
  {
    e.DeltaOf? ==> forall j: nat :: IsBase(objs, i, e.base, j) ==> Apply(objs[j].content, e.delta).Ok?
  }

  ghost predicate AllApply(es: seq<Entry>, objs: seq<Object>, from: nat)
    requires |es| == |objs|
  {
    forall i :: from <= i < |es| ==> Applies(es[i], objs, i)
  }

  predicate NeedsFlag(es: seq<Entry>) {
    exists i :: 0 <= i < |es| && es[i].DeltaOf?
  }

  function TotalSize(objs: seq<Object>): nat {
    if objs == [] then 0 else TotalSize(objs[..|objs| - 1]) + |objs[|objs| - 1].content|
  }

  lemma {:induction false} ReadEntriesVerified(env: Env, resolve: bytes -> Option<bytes>, p: bytes, flags: byte, n: nat,
      pos: nat, index: map<bytes, bytes>, entries: seq<Object>)
    requires forall o :: o in entries ==> env.verify(o.kappa, o.content) == Match
    requires TotalSize(entries) <= DECODE_MAX_BYTES
    ensures
      var r := ReadEntries(env, resolve, p, flags, n, pos, index, TotalSize(entries), entries);
      r.Ok? ==>
        && |r.value| == |entries| + n && TotalSize(r.value) <= DECODE_MAX_BYTES
        && forall o :: o in r.value ==> env.verify(o.kappa, o.content) == Match
    decreases n
  {
    hide ReadEntry;
    if n > 0 {
      var read := ReadEntry(env, resolve, p, flags, pos, index);
      if read.Ok? && TotalSize(entries) + |read.value.0.content| <= DECODE_MAX_BYTES
         && Verify(env, read.value.0).Ok? {
        var (o, next) := read.value;
        assert (entries + [o])[..|entries|] == entries;
        ReadEntriesVerified(env, resolve, p, flags, n - 1, next, index[o.kappa := o.content], entries + [o]);
      }
    }
  }

  /** Whatever the bytes: the objects of a bundle that decodes match their kappas, are as many as it announces, and
      total at most 256 MiB. */
  lemma DecodedMatch(env: Env, resolve: bytes -> Option<bytes>, data: bytes)
    requires Decode(env, resolve, data).Ok?
    ensures
      var objs := Decode(env, resolve, data).value;
      && |data| >= 10 && |objs| == FromBigEndian(data[6..10]) && TotalSize(objs) <= DECODE_MAX_BYTES
      && forall o :: o in objs ==> env.verify(o.kappa, o.content) == Match
  {
    hide ReadEntries, FromBigEndian;
    var payload := data[..|data| - TRAILER];
    ReadEntriesVerified(env, resolve, payload, data[5], FromBigEndian(data[6..10]), 10, map[], []);
  }

  lemma {:induction false} TotalGrows(objs: seq<Object>, i: nat)
    requires i <= |objs|
    ensures TotalSize(objs[..i]) <= TotalSize(objs)
    decreases |objs|
  {
    if i < |objs| {
      var init := objs[..|objs| - 1];
      assert init[..i] == objs[..i];
      TotalGrows(init, i);
    } else {
      assert objs[..i] == objs;
    }
  }

  lemma {:induction false} FieldRoundTrip(p: bytes, pos: nat, x: bytes, width: nat)
    requires |x| < Pow256(width) && At(p, pos, BigEndian(|x|, width) + x)
    ensures ParseField(p, pos, width) == Ok((x, pos + width + |x|))
  {
    hide BigEndian, FromBigEndian, Pow256, At;
    var d := BigEndian(|x|, width);
    AtSplit(p, pos, d, x);
    AtSlice(p, pos, d);
    AtSlice(p, pos + width, x);
    BigEndianValue(|x|, width);
    SmallMod(|x|, Pow256(width));
  }

  lemma KappaRoundTrip(env: Env, p: bytes, pos: nat, k: bytes)
    requires |k| < 0x1_0000 && env.utf8(k) && At(p, pos, ShortField(k))
    ensures ParseKappa(env, p, pos) == Ok((k, pos + |ShortField(k)|))
  {
    Widths();
    FieldRoundTrip(p, pos, k, 2);
  }

  lemma ContentRoundTrip(p: bytes, pos: nat, c: bytes)
    requires |c| < TWO64 && At(p, pos, LongField(c))
    ensures ParseContent(p, pos) == Ok((c, pos + |LongField(c)|))
  {
    Widths();
    FieldRoundTrip(p, pos, c, 8);
  }

  /** The index holds exactly the objects listed so far. */
  ghost predicate IndexHolds(index: map<bytes, bytes>, objs: seq<Object>, i: nat)
    requires i <= |objs|
  {
    forall j :: 0 <= j < i ==> objs[j].kappa in index && index[objs[j].kappa] == objs[j].content
  }

  lemma FullBytes(kappa: bytes, content: bytes)
    ensures EntryBytes(Full(kappa, content)) == [TYPE_FULL] + (ShortField(kappa) + LongField(content))
  {
  }

  lemma DeltaBytes(kappa: bytes, base: bytes, delta: bytes)
    ensures
      EntryBytes(DeltaOf(kappa, base, delta)) ==
      [TYPE_DELTA] + (ShortField(kappa) + (ShortField(base) + LongField(delta)))
  {
  }

  lemma ReadFull(env: Env, resolve: bytes -> Option<bytes>, p: bytes, flags: byte, pos: nat, index: map<bytes, bytes>,
                 o: Object)
    requires Sound(env, o) && At(p, pos, EntryBytes(Full(o.kappa, o.content)))
    ensures ReadEntry(env, resolve, p, flags, pos, index) == Ok((o, pos + |EntryBytes(Full(o.kappa, o.content))|))
  {
    hide ParseKappa, ParseContent, ShortField, LongField, At, EntryBytes, ReadDeltaBody;
    var k, c := ShortField(o.kappa), LongField(o.content);
    FullBytes(o.kappa, o.content);
    AtTag(p, pos, TYPE_FULL, k + c);
    AtSplit(p, pos + 1, k, c);
    KappaRoundTrip(env, p, pos + 1, o.kappa);
    ContentRoundTrip(p, pos + 1 + |k|, o.content);
  }

  lemma {:induction false} ReadDelta(env: Env, resolve: bytes -> Option<bytes>, p: bytes, flags: byte, pos: nat,
                                     index: map<bytes, bytes>, o: Object, base: Object, delta: bytes)
    requires Sound(env, o) && Sound(env, base) && |delta| < TWO64 && flags % 2 == 1
    requires At(p, pos, EntryBytes(DeltaOf(o.kappa, base.kappa, delta)))
    requires base.kappa in index && index[base.kappa] == base.content
    ensures
      ReadEntry(env, resolve, p, flags, pos, index) ==
      match Apply(base.content, delta)
      case Err(e) => Err(BadDelta(e))
      case Ok(content) => Ok((Object(o.kappa, content), pos + |EntryBytes(DeltaOf(o.kappa, base.kappa, delta))|))
  {
    hide ParseKappa, ParseContent, ShortField, LongField, Apply, At, EntryBytes, ReadFullBody;
    var k, b, d := ShortField(o.kappa), ShortField(base.kappa), LongField(delta);
    DeltaBytes(o.kappa, base.kappa, delta);
    AtTag(p, pos, TYPE_DELTA, k + (b + d));
    AtSplit(p, pos + 1, k, b + d);
    AtSplit(p, pos + 1 + |k|, b, d);
    KappaRoundTrip(env, p, pos + 1, o.kappa);
    KappaRoundTrip(env, p, pos + 1 + |k|, base.kappa);
    ContentRoundTrip(p, pos + 1 + |k| + |b|, delta);
  }

  lemma ReadListed(env: Env, resolve: bytes -> Option<bytes>, p: bytes, flags: byte, pos: nat, index: map<bytes, bytes>,
                   es: seq<Entry>, objs: seq<Object>, i: nat)
    requires Consistent(env, objs) && Lists(es, objs) && i < |objs|
    requires NeedsFlag(es) ==> flags % 2 == 1
    requires IndexHolds(index, objs, i) && At(p, pos, EntryBytes(es[i]))
    ensures
      match ReadEntry(env, resolve, p, flags, pos, index)
      case Ok(read) => Applies(es[i], objs, i) && read == (objs[i], pos + |EntryBytes(es[i])|)
      case Err(_) => !Applies(es[i], objs, i)
  {
    hide ReadEntry, EntryBytes, Apply;
    match es[i] {
      case Full(kappa, content) =>
        ReadFull(env, resolve, p, flags, pos, index, objs[i]);
      case DeltaOf(kappa, base, delta) =>
        assert StandsFor(es[i], objs, i);
        var j: nat :| IsBase(objs, i, base, j) && Candid(objs, i, delta, j);
        assert forall k: nat :: IsBase(objs, i, base, k) ==> objs[k].content == objs[j].content;
        ReadDelta(env, resolve, p, flags, pos, index, objs[i], objs[j], delta);
    }
  }

  lemma VerifySound(env: Env, objs: seq<Object>, i: nat)
    requires Consistent(env, objs) && i < |objs|
    ensures Verify(env, objs[i]) == Ok(())
  {
    assert Sound(env, objs[i]);
  }

  lemma IndexGrows(env: Env, index: map<bytes, bytes>, objs: seq<Object>, i: nat)
    requires Consistent(env, objs) && i < |objs| && IndexHolds(index, objs, i)
    ensures IndexHolds(index[objs[i].kappa := objs[i].content], objs, i + 1)
  {
  }

  lemma {:induction false} ReadAll(env: Env, resolve: bytes -> Option<bytes>, p: bytes, flags: byte, pos: nat,
                                   index: map<bytes, bytes>, es: seq<Entry>, objs: seq<Object>, i: nat)
    requires Consistent(env, objs) && Lists(es, objs) && i <= |objs|
    requires NeedsFlag(es) ==> flags % 2 == 1
    requires IndexHolds(index, objs, i) && At(p, pos, EntriesBytes(es[i..]))
    requires TotalSize(objs[..i]) <= DECODE_MAX_BYTES
    ensures
      match ReadEntries(env, resolve, p, flags, |objs| - i, pos, index, TotalSize(objs[..i]), objs[..i])
      case Ok(read) => read == objs && TotalSize(objs) <= DECODE_MAX_BYTES && AllApply(es, objs, i)
      case Err(e) =>
        && !(TotalSize(objs) <= DECODE_MAX_BYTES && AllApply(es, objs, i))
        && (AllApply(es, objs, i) ==> e == DecodeLimitExceeded)
    decreases |objs| - i
  {
    hide ReadEntry, EntryBytes, IndexHolds, Consistent, Lists, NeedsFlag, At, AllApply, Applies, TotalSize;
    ListedCount(es, objs);
    AllApplyStep(es, objs, i);
    if i == |objs| {
      assert objs[..i] == objs;
    } else {
      var o := objs[i];
      NextEntryAt(p, pos, es, i);
      ReadListed(env, resolve, p, flags, pos, index, es, objs, i);
      NextTotal(objs, i);
      TotalGrows(objs, i + 1);
      if Applies(es[i], objs, i) && TotalSize(objs[..i + 1]) <= DECODE_MAX_BYTES {
        IndexGrows(env, index, objs, i);
        VerifySound(env, objs, i);
        ReadAll(env, resolve, p, flags, pos + |EntryBytes(es[i])|, index[o.kappa := o.content], es, objs, i + 1);
      }
    }
  }

  lemma NextEntryAt(p: bytes, pos: nat, es: seq<Entry>, i: nat)
    requires i < |es| && At(p, pos, EntriesBytes(es[i..]))
    ensures At(p, pos, EntryBytes(es[i])) && At(p, pos + |EntryBytes(es[i])|, EntriesBytes(es[i + 1..]))
  {
    hide EntryBytes, At;
    assert es[i..] == [es[i]] + es[i + 1..];
    AtSplit(p, pos, EntryBytes(es[i]), EntriesBytes(es[i + 1..]));
  }

  lemma NextTotal(objs: seq<Object>, i: nat)
    requires i < |objs|
    ensures objs[..i + 1] == objs[..i] + [objs[i]]
    ensures TotalSize(objs[..i + 1]) == TotalSize(objs[..i]) + |objs[i].content|
  {
  }

  lemma AllApplyStep(es: seq<Entry>, objs: seq<Object>, i: nat)
    requires |es| == |objs| && i <= |es|
    ensures i == |es| ==> AllApply(es, objs, i)
    ensures i < |es| ==> (AllApply(es, objs, i) <==> Applies(es[i], objs, i) && AllApply(es, objs, i + 1))
  {
  }

  lemma ListedCount(es: seq<Entry>, objs: seq<Object>)
    requires Lists(es, objs)
    ensures |es| == |objs|
    ensures IndexHolds(map[], objs, 0)
    ensures TotalSize(objs[..0]) == 0
  {
  }

  /** A framed listing decodes to its objects, in order, exactly when they are within the size limit and every
      delta applies. It never decodes to anything else. */
  lemma {:induction false} DecodeFrame(env: Env, resolve: bytes -> Option<bytes>, flags: byte, es: seq<Entry>,
      objs: seq<Object>)
    requires Digests(env) && Consistent(env, objs) && Lists(es, objs) && |objs| < TWO32
    requires NeedsFlag(es) ==> flags % 2 == 1
    ensures
      match Decode(env, resolve, Frame(env, flags, es))
      case Ok(read) => read == objs && TotalSize(objs) <= DECODE_MAX_BYTES && AllApply(es, objs, 0)
      case Err(e) =>
        && !(TotalSize(objs) <= DECODE_MAX_BYTES && AllApply(es, objs, 0))
        && (AllApply(es, objs, 0) ==> e == DecodeLimitExceeded)
  {
    hide ReadEntries, EntriesBytes, Decode, Frame, Payload, Consistent, Lists, NeedsFlag, AllApply;
    ListedCount(es, objs);
    FrameReads(env, resolve, flags, es);
    assert es[0..] == es && objs[..0] == [];
    ReadAll(env, resolve, Payload(flags, es), flags, 10, map[], es, objs, 0);
  }

  /** Decoding a frame is reading the entries of its payload. */
  lemma FrameReads(env: Env, resolve: bytes -> Option<bytes>, flags: byte, es: seq<Entry>)
    requires Digests(env) && |es| < TWO32
    ensures Decode(env, resolve, Frame(env, flags, es))
         == ReadEntries(env, resolve, Payload(flags, es), flags, |es|, 10, map[], 0, [])
    ensures At(Payload(flags, es), 10, EntriesBytes(es))
  {
    hide ReadEntries, EntriesBytes, BigEndian, FromBigEndian, Pow256;
    var p, h, b := Payload(flags, es), Header(flags, |es|), EntriesBytes(es);
    var data := Frame(env, flags, es);
    assert data[..|data| - TRAILER] == p && data[|data| - TRAILER..] == env.sha256(p);
    assert data[..10] == h;
    assert data[..4] == h[..4] == MAGIC && data[4] == h[4] && data[5] == h[5];
    assert data[6..10] == h[6..10] == BigEndian(|es|, 4);
    Widths();
    BigEndianValue(|es|, 4);
    SmallMod(|es|, TWO32);
    AtSplit(p, 0, h, b);
    assert At(p, 0, h + b);
  }

  // ---- Beyond the size limit ----

  /** Whatever the entry is resolved against, it gives `n` bytes or an error. */
  ghost predicate Announces(env: Env, e: Entry, n: nat) {
    && env.utf8(e.kappa) && |e.kappa| < 0x1_0000
    && (e.Full? ==> |e.content| == n < TWO64)
    && (e.DeltaOf? ==> env.utf8(e.base) && |e.base| < 0x1_0000 && |e.delta| < TWO64 && Gives(e.delta, n))
  }

  ghost predicate Gives(delta: bytes, n: nat) {
    forall b :: Apply(b, delta).Ok? ==> |Apply(b, delta).value| == n
  }

  lemma ReadAnnounced(env: Env, resolve: bytes -> Option<bytes>, p: bytes, flags: byte, pos: nat,
      index: map<bytes, bytes>, e: Entry, n: nat)
    requires Announces(env, e, n) && At(p, pos, EntryBytes(e))
    ensures
      var r := ReadEntry(env, resolve, p, flags, pos, index);
      r.Ok? ==> |r.value.0.content| == n && r.value.1 == pos + |EntryBytes(e)|
  {
    hide ParseKappa, ParseContent, ShortField, LongField, Apply, At, EntryBytes, Gives;
    match e {
      case Full(kappa, content) =>
        var k, c := ShortField(kappa), LongField(content);
        FullBytes(kappa, content);
        AtTag(p, pos, TYPE_FULL, k + c);
        AtSplit(p, pos + 1, k, c);
        KappaRoundTrip(env, p, pos + 1, kappa);
        ContentRoundTrip(p, pos + 1 + |k|, content);
      case DeltaOf(kappa, base, delta) =>
        var k, b, d := ShortField(kappa), ShortField(base), LongField(delta);
        DeltaBytes(kappa, base, delta);
        AtTag(p, pos, TYPE_DELTA, k + (b + d));
        AtSplit(p, pos + 1, k, b + d);
        AtSplit(p, pos + 1 + |k|, b, d);
        KappaRoundTrip(env, p, pos + 1, kappa);
        KappaRoundTrip(env, p, pos + 1 + |k|, base);
        ContentRoundTrip(p, pos + 1 + |k| + |b|, delta);
        var found := if base in index then Some(index[base]) else resolve(base);
        if found.Some? {
          GivesLength(found.value, delta, n);
        }
    }
  }

  lemma GivesLength(base: bytes, delta: bytes, n: nat)
    requires Gives(delta, n)
    ensures Apply(base, delta).Ok? ==> |Apply(base, delta).value| == n
  {
  }

  /** Entries that announce more than the limit in all are never read to the end. */
  lemma {:induction false} ReadOverLimit(env: Env, resolve: bytes -> Option<bytes>, p: bytes, flags: byte, pos: nat,
      index: map<bytes, bytes>, es: seq<Entry>, objs: seq<Object>, i: nat, read: seq<Object>)
    requires |es| == |objs| && i <= |objs|
    requires forall k :: 0 <= k < |es| ==> Announces(env, es[k], |objs[k].content|)
    requires At(p, pos, EntriesBytes(es[i..]))
    requires TotalSize(objs[..i]) <= DECODE_MAX_BYTES < TotalSize(objs)
    ensures ReadEntries(env, resolve, p, flags, |objs| - i, pos, index, TotalSize(objs[..i]), read).Err?
    decreases |objs| - i
  {
    hide ReadEntry, EntryBytes, EntriesBytes, At, Announces, TotalSize, Verify;
    assert objs[..|objs|] == objs;
    if i < |objs| {
      NextEntryAt(p, pos, es, i);
      ReadAnnounced(env, resolve, p, flags, pos, index, es[i], |objs[i].content|);
      NextTotal(objs, i);
      var r := ReadEntry(env, resolve, p, flags, pos, index);
      if r.Ok? && TotalSize(objs[..i + 1]) <= DECODE_MAX_BYTES {
        var (o, next) := r.value;
        ReadOverLimit(env, resolve, p, flags, next, index[o.kappa := o.content], es, objs, i + 1, read + [o]);
      }
    }
  }

  lemma FrameOverLimit(env: Env, resolve: bytes -> Option<bytes>, flags: byte, es: seq<Entry>, objs: seq<Object>)
    requires Digests(env) && |es| == |objs| < TWO32 && TotalSize(objs) > DECODE_MAX_BYTES
    requires forall k :: 0 <= k < |es| ==> Announces(env, es[k], |objs[k].content|)
    ensures Decode(env, resolve, Frame(env, flags, es)).Err?
  {
    hide ReadEntries, EntriesBytes, Decode, Frame, Payload, Announces;
    FrameReads(env, resolve, flags, es);
    assert es[0..] == es && objs[..0] == [];
    ReadOverLimit(env, resolve, Payload(flags, es), flags, 10, map[], es, objs, 0, []);
  }

  lemma {:induction false} TotalHolds(objs: seq<Object>, i: nat)
    requires i < |objs|
    ensures |objs[i].content| <= TotalSize(objs)
    decreases |objs|
  {
    if i < |objs| - 1 {
      TotalHolds(objs[..|objs| - 1], i);
    }
  }
}
