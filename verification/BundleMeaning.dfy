/** What every bundle means, and that nothing else decodes. */
module BundleMeaning {
  import opened Bytes
  import opened Endian
  import opened DeltaFormat
  import opened BundleFormat

  type Resolver = bytes -> Option<bytes>

  /** Names are text below 2^16 bytes, contents and deltas below 2^64. */
  ghost predicate EntryFits(env: Env, e: Entry) {
    && env.utf8(e.kappa) && |e.kappa| < 0x1_0000
    && (e.Full? ==> |e.content| < TWO64)
    && (e.DeltaOf? ==> env.utf8(e.base) && |e.base| < 0x1_0000 && |e.delta| < TWO64)
  }

  ghost predicate EntriesFit(env: Env, es: seq<Entry>) {
    forall e :: e in es ==> EntryFits(env, e)
  }

  /** The content of an entry: its own, or its delta applied to the last object of that name before it, or to the
      caller's. Deltas count only in a bundle that says it has them. */
  function ContentOf(resolve: Resolver, flags: byte, e: Entry, index: map<bytes, bytes>): Option<bytes> {
    match e
    case Full(_, content) => Some(content)
    case DeltaOf(_, name, delta) =>
      var base := if name in index then Some(index[name]) else resolve(name);
      if flags % 2 == 0 || base.None? then None
      else
        match Apply(base.value, delta)
        case Ok(content) => Some(content)
        case Err(_) => None
  }

  /** The objects of a list of entries, up to the first without content, beyond the total, or not matching its kappa. */
  function Meant(env: Env, resolve: Resolver, flags: byte, es: seq<Entry>, index: map<bytes, bytes>, total: nat)
    : (objs: seq<Object>)
    ensures |objs| <= |es|
    decreases |es|
  {
    if es == [] then []
    else
      var c := ContentOf(resolve, flags, es[0], index);
      if c.None? || total + |c.value| > 268_435_456 || env.verify(es[0].kappa, c.value) != Match then []
      else
        [Object(es[0].kappa, c.value)]
        + Meant(env, resolve, flags, es[1..], index[es[0].kappa := c.value], total + |c.value|)
  }

  /** A frame: magic, version, flags, count, entries, anything, and the digest of all that. */
  function PayloadOf(flags: byte, es: seq<Entry>, junk: bytes): bytes {
    [0x4B, 0x42, 0x4E, 0x44, 1, flags] + BigEndian(|es|, 4) + (EntriesBytes(es) + junk)
  }

  function FrameOf(env: Env, flags: byte, es: seq<Entry>, junk: bytes): bytes {
    PayloadOf(flags, es, junk) + env.sha256(PayloadOf(flags, es, junk))
  }

  // ---- Reading what was written ----

  lemma ReadMeant(env: Env, resolve: Resolver, p: bytes, flags: byte, pos: nat, index: map<bytes, bytes>, e: Entry)
    requires EntryFits(env, e) && At(p, pos, EntryBytes(e))
    ensures
      var r, c := ReadEntry(env, resolve, p, flags, pos, index), ContentOf(resolve, flags, e, index);
      if c.None? then r.Err? else r == Ok((Object(e.kappa, c.value), pos + |EntryBytes(e)|))
  {
    hide ParseKappa, ParseContent, ShortField, LongField, Apply, At, EntryBytes;
    match e {
      case Full(kappa, content) =>
        var k, c := ShortField(kappa), LongField(content);
        FullBytes(kappa, content);
        AtTag(p, pos, TYPE_FULL, k + c);
        AtSplit(p, pos + 1, k, c);
        KappaRoundTrip(env, p, pos + 1, kappa);
        ContentRoundTrip(p, pos + 1 + |k|, content);
      case DeltaOf(kappa, base, delta) =>
        var k, b, d := ShortField(kappa), ShortField(base), LongField(delta);
        DeltaBytes(kappa, base, delta);
        AtTag(p, pos, TYPE_DELTA, k + (b + d));
        AtSplit(p, pos + 1, k, b + d);
        AtSplit(p, pos + 1 + |k|, b, d);
        KappaRoundTrip(env, p, pos + 1, kappa);
        KappaRoundTrip(env, p, pos + 1 + |k|, base);
        ContentRoundTrip(p, pos + 1 + |k| + |b|, delta);
    }
  }

  lemma {:induction false} ReadAllMeant(env: Env, resolve: Resolver, p: bytes, flags: byte, pos: nat,
      index: map<bytes, bytes>, total: nat, es: seq<Entry>, done: seq<Object>)
    requires EntriesFit(env, es) && At(p, pos, EntriesBytes(es))
    ensures
      var r, objs := ReadEntries(env, resolve, p, flags, |es|, pos, index, total, done),
        Meant(env, resolve, flags, es, index, total);
      if |objs| == |es| then r == Ok(done + objs) else r.Err?
    decreases |es|
  {
    hide ReadEntry, EntryBytes, At, ContentOf, EntryFits;
    if es == [] {
      assert done + [] == done;
    } else {
      var e, rest := es[0], es[1..];
      assert e in es;
      AtSplit(p, pos, EntryBytes(e), EntriesBytes(rest));
      ReadMeant(env, resolve, p, flags, pos, index, e);
      var c := ContentOf(resolve, flags, e, index);
      if c.Some? && total + |c.value| <= DECODE_MAX_BYTES && env.verify(e.kappa, c.value) == Match {
        var o := Object(e.kappa, c.value);
        ReadAllMeant(env, resolve, p, flags, pos + |EntryBytes(e)|, index[e.kappa := c.value], total + |c.value|, rest,
                     done + [o]);
        var more := Meant(env, resolve, flags, rest, index[e.kappa := c.value], total + |c.value|);
        assert (done + [o]) + more == done + ([o] + more);
      }
    }
  }

  lemma PayloadParts(flags: byte, es: seq<Entry>, junk: bytes)
    requires |es| < TWO32
    ensures
      var p := PayloadOf(flags, es, junk);
      && |p| >= 10 && p[..4] == MAGIC && p[4] == VERSION && p[5] == flags && FromBigEndian(p[6..10]) == |es|
      && At(p, 10, EntriesBytes(es) + junk)
  {
    hide EntriesBytes, BigEndian, FromBigEndian, Pow256;
    var p, n := PayloadOf(flags, es, junk), BigEndian(|es|, 4);
    assert p[6..10] == n && p[..4] == MAGIC;
    assert p[10..] == EntriesBytes(es) + junk;
    Widths();
    BigEndianValue(|es|, 4);
    SmallMod(|es|, TWO32);
  }

  /** Every frame: it decodes iff every entry has content, within 256 MiB in all, that matches its kappa; then to those
      objects, whatever stands after the entries. */
  lemma FrameMeansObjects(env: Env, resolve: Resolver, flags: byte, es: seq<Entry>, junk: bytes)
    requires Digests(env) && EntriesFit(env, es) && |es| < TWO32
    ensures
      var r, objs := Decode(env, resolve, FrameOf(env, flags, es, junk)), Meant(env, resolve, flags, es, map[], 0);
      if |objs| == |es| then r == Ok(objs) else r.Err?
  {
    hide ReadEntries, EntriesBytes, PayloadOf, FromBigEndian, Meant, EntriesFit, At;
    var p, data := PayloadOf(flags, es, junk), FrameOf(env, flags, es, junk);
    PayloadParts(flags, es, junk);
    assert data[..|data| - TRAILER] == p && data[|data| - TRAILER..] == env.sha256(p);
    assert data[..4] == p[..4] && data[4] == p[4] && data[5] == p[5] && data[6..10] == p[6..10];
    AtSplit(p, 10, EntriesBytes(es), junk);
    ReadAllMeant(env, resolve, p, flags, 10, map[], 0, es, []);
    assert [] + Meant(env, resolve, flags, es, map[], 0) == Meant(env, resolve, flags, es, map[], 0);
  }

  // ---- Nothing else is read ----

  lemma FieldWasWritten(p: bytes, pos: nat, width: nat)
    requires ParseField(p, pos, width).Ok?
    ensures
      var (x, next) := ParseField(p, pos, width).value;
      |x| < Pow256(width) && At(p, pos, BigEndian(|x|, width) + x) && next == pos + width + |x|
  {
    hide BigEndian, FromBigEndian, Pow256;
    var (x, next) := ParseField(p, pos, width).value;
    BigEndianRead(p[pos..pos + width]);
    assert p[pos..next] == p[pos..pos + width] + x;
  }

  lemma EntryWasWritten(env: Env, resolve: Resolver, p: bytes, flags: byte, pos: nat, index: map<bytes, bytes>)
    returns (e: Entry)
    requires ReadEntry(env, resolve, p, flags, pos, index).Ok?
    ensures EntryFits(env, e) && At(p, pos, EntryBytes(e))
  {
    hide ParseField, At, EntryBytes, BigEndian, Pow256, Apply;
    Widths();
    FieldWasWritten(p, pos + 1, 2);
    var (kappa, p1) := ParseField(p, pos + 1, 2).value;
    if p[pos] == TYPE_FULL {
      FieldWasWritten(p, p1, 8);
      var (content, p2) := ParseField(p, p1, 8).value;
      e := Full(kappa, content);
      FullBytes(kappa, content);
      AtSplit(p, pos + 1, ShortField(kappa), LongField(content));
      TypeThen(p, pos, TYPE_FULL, ShortField(kappa) + LongField(content));
    } else {
      FieldWasWritten(p, p1, 2);
      var (base, p2) := ParseField(p, p1, 2).value;
      FieldWasWritten(p, p2, 8);
      var (delta, p3) := ParseField(p, p2, 8).value;
      e := DeltaOf(kappa, base, delta);
      DeltaBytes(kappa, base, delta);
      AtSplit(p, p1, ShortField(base), LongField(delta));
      AtSplit(p, pos + 1, ShortField(kappa), ShortField(base) + LongField(delta));
      TypeThen(p, pos, TYPE_DELTA, ShortField(kappa) + (ShortField(base) + LongField(delta)));
    }
  }

  lemma TypeThen(p: bytes, pos: nat, t: byte, rest: bytes)
    requires pos < |p| && p[pos] == t && At(p, pos + 1, rest)
    ensures At(p, pos, [t] + rest)
  {
    AtSplit(p, pos, [t], rest);
  }

  lemma {:induction false} EntriesWereWritten(env: Env, resolve: Resolver, p: bytes, flags: byte, n: nat, pos: nat,
      index: map<bytes, bytes>, total: nat, done: seq<Object>) returns (es: seq<Entry>)
    requires ReadEntries(env, resolve, p, flags, n, pos, index, total, done).Ok? && pos <= |p|
    ensures |es| == n && EntriesFit(env, es) && At(p, pos, EntriesBytes(es))
    decreases n
  {
    hide ReadEntry, EntryBytes, At, EntryFits, ContentOf;
    if n == 0 {
      es := [];
      NothingAt(p, pos);
    } else {
      var e := EntryWasWritten(env, resolve, p, flags, pos, index);
      ReadMeant(env, resolve, p, flags, pos, index, e);
      var (o, next) := ReadEntry(env, resolve, p, flags, pos, index).value;
      AtEnds(p, pos, EntryBytes(e));
      var rest := EntriesWereWritten(env, resolve, p, flags, n - 1, next, index[o.kappa := o.content],
                                     total + |o.content|, done + [o]);
      es := [e] + rest;
      assert es[1..] == rest;
      AtSplit(p, pos, EntryBytes(e), EntriesBytes(rest));
    }
  }

  lemma NothingAt(p: bytes, pos: nat)
    requires pos <= |p|
    ensures At(p, pos, [])
  {
  }

  lemma AtEnds(p: bytes, pos: nat, part: bytes)
    requires At(p, pos, part)
    ensures pos + |part| <= |p|
  {
  }

  /** Whatever decodes is such a frame, so the bytes decide what it means: no check of the decoder can be missing. */
  lemma DecodedIsFrame(env: Env, resolve: Resolver, data: bytes) returns (flags: byte, es: seq<Entry>, junk: bytes)
    requires Digests(env) && Decode(env, resolve, data).Ok?
    ensures EntriesFit(env, es) && |es| < TWO32 && data == FrameOf(env, flags, es, junk)
    ensures Decode(env, resolve, data).value == Meant(env, resolve, flags, es, map[], 0)
  {
    hide ReadEntries, EntriesBytes, Meant, EntriesFit, At, BigEndian, FromBigEndian, Pow256;
    var p := data[..|data| - TRAILER];
    flags := data[5];
    es := EntriesWereWritten(env, resolve, p, flags, FromBigEndian(data[6..10]), 10, map[], 0, []);
    AtSlice(p, 10, EntriesBytes(es));
    junk := p[10 + |EntriesBytes(es)|..];
    Widths();
    BigEndianRead(data[6..10]);
    assert p == [0x4B, 0x42, 0x4E, 0x44, 1, flags] + data[6..10] + (EntriesBytes(es) + junk) by {
      assert p[..4] == data[..4] == MAGIC;
      assert p == p[..10] + p[10..10 + |EntriesBytes(es)|] + junk;
      assert p[..10] == p[..4] + [p[4], p[5]] + p[6..10];
    }
    assert p == PayloadOf(flags, es, junk) && data == p + data[|p|..];
    FrameMeansObjects(env, resolve, flags, es, junk);
  }
}
