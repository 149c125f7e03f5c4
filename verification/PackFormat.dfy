/** Pack entry headers, OFS_DELTA distances and entry framing (gitformat-pack). */
module PackFormat {
  import opened Bytes
  import Varint

  datatype Kind = Commit | Tree | Blob | Tag

  function TypeId(kind: Kind): (t: nat)
    ensures 1 <= t <= 4
  {
    match kind case Commit => 1 case Tree => 2 case Blob => 3 case Tag => 4
  }

  function KindOf(t: nat): Option<Kind> {
    if t == 1 then Some(Commit)
    else if t == 2 then Some(Tree)
    else if t == 3 then Some(Blob)
    else if t == 4 then Some(Tag)
    else None
  }

  const OFS_DELTA: nat := 6
  const REF_DELTA: nat := 7

  // ---- Entry headers ----

  /** Three bits of type and four of size, then seven bits of size a byte, low group first. */
  function EntryHeader(t: nat, size: nat): (h: bytes)
    requires t < 8
    ensures h != []
  {
    if size < 16 then [16 * t + size] else [128 + 16 * t + size % 16] + Varint.Encoding(size / 16)
  }

  function ReadEntryHeader(data: bytes, pos: nat): (r: Option<(nat, nat, nat)>)
    ensures r.Some? ==> pos < r.value.2
  {
    if pos >= |data| then None
    else
      var b := data[pos];
      if b < 128 then Some((b / 16 % 8, b % 16, pos + 1))
      else
        match Varint.ReadAt(data, pos + 1)
        case Value(v, next) =>
          Varint.ReadFromBounds(data, pos + 1, 0, 0);
          Some((b / 16 % 8, b % 16 + 16 * v, next))
        case _ => None
  }

  lemma EntryHeaderRoundTrip(data: bytes, pos: nat, t: nat, size: nat)
    requires t < 8 && size < TWO64 && At(data, pos, EntryHeader(t, size))
    ensures ReadEntryHeader(data, pos) == Some((t, size, pos + |EntryHeader(t, size)|))
  {
    hide At, Varint.Encoding, Varint.ReadAt;
    var h := EntryHeader(t, size);
    if size < 16 {
      AtTag(data, pos, 16 * t + size, []) by { assert h == [16 * t + size] + []; }
    } else {
      AtTag(data, pos, 128 + 16 * t + size % 16, Varint.Encoding(size / 16));
      Varint.RoundTrip(data, pos + 1, size / 16);
    }
  }

  method EncodeEntryHeader(t: nat, size: nat) returns (header: bytes)
    requires t < 8
    ensures header == EntryHeader(t, size)
  {
    hide Groups;
    var rest: nat := size / 16;
    var first: byte := 16 * t + size % 16;
    if rest > 0 {
      first := first + 128;
    }
    header := [first];
    FirstByte(t, size);
    while rest > 0
      invariant EntryHeader(t, size) == header + Groups(rest)
      decreases rest
    {
      GroupStep(rest);
      var b: byte := rest % 128;
      rest := rest / 128;
      if rest > 0 {
        b := b + 128;
      }
      header := header + [b];
    }
    NoGroups();
  }

  lemma FirstByte(t: nat, size: nat)
    requires t < 8
    ensures EntryHeader(t, size)
         == [if size / 16 > 0 then 128 + 16 * t + size % 16 else 16 * t + size % 16] + Groups(size / 16)
  {
  }

  lemma NoGroups()
    ensures Groups(0) == []
  {
  }

  function Groups(rest: nat): bytes {
    if rest > 0 then Varint.Encoding(rest) else []
  }

  lemma GroupStep(rest: nat)
    requires rest > 0
    ensures Groups(rest) == [if rest / 128 > 0 then rest % 128 + 128 else rest % 128] + Groups(rest / 128)
  {
  }

  // ---- OFS_DELTA distances ----

  /** The continuation bytes above the last one; each step subtracts one first. */
  function OfsHigh(n: nat): bytes {
    if n == 0 then [] else OfsHigh((n - 1) / 128) + [128 + (n - 1) % 128]
  }

  function OfsBytes(distance: nat): (r: bytes)
    ensures r != []
  {
    OfsHigh(distance / 128) + [distance % 128]
  }

  /** The rule of gitformat-pack: every byte after a continuation adds one before shifting. */
  function ReadOfsRest(data: bytes, pos: nat, value: nat, more: bool): (r: Option<(nat, nat)>)
    ensures r.Some? ==> pos <= r.value.1
    decreases |data| - pos
  {
    if !more then Some((value, pos))
    else if pos >= |data| then None
    else ReadOfsRest(data, pos + 1, (value + 1) * 128 + data[pos] % 128, data[pos] >= 128)
  }

  function ReadOfs(data: bytes, pos: nat): (r: Option<(nat, nat)>)
    ensures r.Some? ==> pos < r.value.1
  {
    if pos >= |data| then None
    else ReadOfsRest(data, pos + 1, data[pos] % 128, data[pos] >= 128)
  }

  lemma {:induction false} ReadOfsHigh(data: bytes, pos: nat, n: nat)
    requires n > 0 && At(data, pos, OfsHigh(n))
    ensures ReadOfs(data, pos) == ReadOfsRest(data, pos + |OfsHigh(n)|, n - 1, true)
    decreases n
  {
    hide At;
    var q, m := (n - 1) / 128, (n - 1) % 128;
    var high := OfsHigh(q);
    AtSplit(data, pos, high, [128 + m]);
    AtHead(data, pos + |high|, [128 + m]);
    if q > 0 {
      ReadOfsHigh(data, pos, q);
      OfsStep(data, pos + |high|, q, m);
    }
  }

  lemma OfsStep(data: bytes, pos: nat, q: nat, m: nat)
    requires pos < |data| && q > 0 && m < 128 && data[pos] == 128 + m
    ensures ReadOfsRest(data, pos, q - 1, true) == ReadOfsRest(data, pos + 1, q * 128 + m, true)
  {
  }

  /** Every distance is read back, and nothing beyond its bytes. */
  lemma OfsRoundTrip(data: bytes, pos: nat, distance: nat)
    requires At(data, pos, OfsBytes(distance))
    ensures ReadOfs(data, pos) == Some((distance, pos + |OfsBytes(distance)|))
  {
    var high := OfsHigh(distance / 128);
    AtSplit(data, pos, high, [distance % 128]);
    AtHead(data, pos + |high|, [distance % 128]);
    if distance / 128 > 0 {
      ReadOfsHigh(data, pos, distance / 128);
    }
  }

  method EncodeOfsHeader(distance: nat) returns (out: bytes)
    ensures out == OfsBytes(distance)
  {
    var buf: bytes := [distance % 128];
    var d: nat := distance / 128;
    assert Reversed(buf) == [distance % 128];
    while d > 0
      invariant OfsHigh(d) + Reversed(buf) == OfsBytes(distance)
      decreases d
    {
      assert OfsHigh(d) == OfsHigh((d - 1) / 128) + [128 + (d - 1) % 128];
      d := d - 1;
      ReversedAppend(buf, 128 + d % 128);
      buf := buf + [128 + d % 128];
      d := d / 128;
    }
    out := Reversed(buf);
    assert [] + out == out;
  }

  // ---- Entries ----

  /** zlib as an inverse pair: a stream inflates to its content and ends where it says, whatever follows. */
  datatype Zlib = Zlib(deflate: bytes -> bytes, inflate: bytes -> Option<(bytes, nat)>)

  ghost predicate Inverse(z: Zlib) {
    forall c, rest :: z.inflate(z.deflate(c) + rest) == Some((c, |z.deflate(c)|))
  }

  datatype PackEntry =
    Whole(kind: Kind, content: bytes) | Ofs(distance: nat, delta: bytes) | Ref(oid: bytes, delta: bytes)

  function EntryBytes(z: Zlib, e: PackEntry): (r: bytes)
    ensures r != []
  {
    match e
    case Whole(kind, content) => EntryHeader(TypeId(kind), |content|) + z.deflate(content)
    case Ofs(distance, delta) => EntryHeader(OFS_DELTA, |delta|) + OfsBytes(distance) + z.deflate(delta)
    case Ref(oid, delta) => EntryHeader(REF_DELTA, |delta|) + oid + z.deflate(delta)
  }

  /** What the pack reader hands to ingestion: where the entry starts, its header, and its inflated data. */
  datatype Head = ObjectHead(kind: Kind) | OfsHead(distance: nat) | RefHead(oid: bytes)

  datatype Parsed = Parsed(head: Head, data: bytes, next: nat)

  function Inflate(z: Zlib, data: bytes, pos: nat, size: nat, head: Head): Option<Parsed>
    requires pos <= |data|
  {
    var (content, used) :- z.inflate(data[pos..]);
    if |content| == size then Some(Parsed(head, content, pos + used)) else None
  }

  function ReadEntry(z: Zlib, hashLen: nat, data: bytes, pos: nat): Option<Parsed> {
    var (t, size, p1) :- ReadEntryHeader(data, pos);
    if p1 > |data| then None
    else if KindOf(t).Some? then Inflate(z, data, p1, size, ObjectHead(KindOf(t).value))
    else if t == OFS_DELTA then
      var (distance, p2) :- ReadOfs(data, p1);
      if p2 > |data| then None else Inflate(z, data, p2, size, OfsHead(distance))
    else if t == REF_DELTA then
      if p1 + hashLen > |data| then None
      else Inflate(z, data, p1 + hashLen, size, RefHead(data[p1..p1 + hashLen]))
    else None
  }

  lemma InflateHere(z: Zlib, data: bytes, pos: nat, content: bytes, head: Head)
    requires Inverse(z) && At(data, pos, z.deflate(content))
    ensures pos <= |data|
    ensures Inflate(z, data, pos, |content|, head) == Some(Parsed(head, content, pos + |z.deflate(content)|))
  {
    var c := z.deflate(content);
    assert data[pos..] == c + data[pos + |c|..];
  }

  lemma WholeRoundTrip(z: Zlib, hashLen: nat, data: bytes, pos: nat, kind: Kind, content: bytes)
    requires Inverse(z) && |content| < TWO64 && At(data, pos, EntryBytes(z, Whole(kind, content)))
    ensures
      ReadEntry(z, hashLen, data, pos) ==
      Some(Parsed(ObjectHead(kind), content, pos + |EntryBytes(z, Whole(kind, content))|))
  {
    hide At, EntryHeader, ReadEntryHeader, Inflate, Inverse;
    var h, c := EntryHeader(TypeId(kind), |content|), z.deflate(content);
    AtSplit(data, pos, h, c);
    EntryHeaderRoundTrip(data, pos, TypeId(kind), |content|);
    InflateHere(z, data, pos + |h|, content, ObjectHead(kind));
  }

  lemma OfsEntryRoundTrip(z: Zlib, hashLen: nat, data: bytes, pos: nat, distance: nat, delta: bytes)
    requires Inverse(z) && |delta| < TWO64 && At(data, pos, EntryBytes(z, Ofs(distance, delta)))
    ensures
      ReadEntry(z, hashLen, data, pos) ==
      Some(Parsed(OfsHead(distance), delta, pos + |EntryBytes(z, Ofs(distance, delta))|))
  {
    hide At, EntryHeader, ReadEntryHeader, Inflate, Inverse, OfsBytes, ReadOfs;
    var h, o, c := EntryHeader(OFS_DELTA, |delta|), OfsBytes(distance), z.deflate(delta);
    AtSplit(data, pos, h + o, c);
    AtSplit(data, pos, h, o);
    EntryHeaderRoundTrip(data, pos, OFS_DELTA, |delta|);
    OfsRoundTrip(data, pos + |h|, distance);
    InflateHere(z, data, pos + |h| + |o|, delta, OfsHead(distance));
    AtBound(data, pos, h);
  }

  lemma RefEntryRoundTrip(z: Zlib, hashLen: nat, data: bytes, pos: nat, oid: bytes, delta: bytes)
    requires Inverse(z) && |oid| == hashLen && |delta| < TWO64 && At(data, pos, EntryBytes(z, Ref(oid, delta)))
    ensures
      ReadEntry(z, hashLen, data, pos) ==
      Some(Parsed(RefHead(oid), delta, pos + |EntryBytes(z, Ref(oid, delta))|))
  {
    hide At, EntryHeader, ReadEntryHeader, Inflate, Inverse;
    var h, c := EntryHeader(REF_DELTA, |delta|), z.deflate(delta);
    AtSplit(data, pos, h + oid, c);
    AtSplit(data, pos, h, oid);
    EntryHeaderRoundTrip(data, pos, REF_DELTA, |delta|);
    AtSlice(data, pos + |h|, oid);
    InflateHere(z, data, pos + |h| + |oid|, delta, RefHead(oid));
    AtBound(data, pos, h);
  }

  lemma AtBound(data: bytes, pos: nat, part: bytes)
    requires At(data, pos, part)
    ensures pos + |part| <= |data|
  {
  }
}
