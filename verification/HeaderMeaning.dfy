/** Commit blocks and archive headers with their fields in any order. */
module HeaderMeaning {
  import opened Bytes
  import opened Cbor
  import CommitCodec
  import Car

  // ---- Commits ----

  /** A field of a commit: the tree root, or another one with a value of the kinds commits have. */
  datatype CommitField =
    | DataOf(cid: bytes)
    | TextOf(key: bytes, text: bytes)
    | BytesOf(key: bytes, content: bytes)
    | LinkOf(key: bytes, link: Option<bytes>)
    | NumberOf(key: bytes, number: nat)

  ghost predicate OtherKey(utf8: bytes -> bool, key: bytes) {
    utf8(key) && |key| < 24 && key != CommitCodec.DATA
  }

  ghost predicate FieldFits(utf8: bytes -> bool, f: CommitField) {
    match f
    case DataOf(_) => true
    case TextOf(key, text) => OtherKey(utf8, key) && |text| < 256
    case BytesOf(key, content) => OtherKey(utf8, key) && |content| < 256
    case LinkOf(key, link) => OtherKey(utf8, key) && (link.Some? ==> |link.value| < 255)
    case NumberOf(key, n) => OtherKey(utf8, key) && n < 0x1_0000
  }

  function ValueBytes(f: CommitField): bytes {
    match f
    case DataOf(cid) => CidItem(cid)
    case TextOf(_, text) => TextItem(text)
    case BytesOf(_, content) => BytesItem(content)
    case LinkOf(_, link) => NullableCid(link)
    case NumberOf(_, n) => Head(MAJOR_UINT, n)
  }

  function KeyOf(f: CommitField): bytes {
    if f.DataOf? then ['d' as int, 'a' as int, 't' as int, 'a' as int] else f.key
  }

  function FieldsBytes(fields: seq<CommitField>): bytes {
    if fields == [] then [] else TextItem(KeyOf(fields[0])) + (ValueBytes(fields[0]) + FieldsBytes(fields[1..]))
  }

  /** The first data field. */
  function FirstData(fields: seq<CommitField>): Option<bytes> {
    if fields == [] then None else if fields[0].DataOf? then Some(fields[0].cid) else FirstData(fields[1..])
  }

  lemma KeyAt(utf8: bytes -> bool, data: bytes, pos: nat, key: bytes, rest: bytes)
    requires utf8(key) && |key| < 24 && At(data, pos, TextItem(key) + rest)
    ensures CommitCodec.ReadKey(utf8, data, pos) == Some((key, pos + |TextItem(key)|))
    ensures At(data, pos + |TextItem(key)|, rest)
  {
    hide At;
    AtSplit(data, pos, TextItem(key), rest);
    AtTag(data, pos, 32 * MAJOR_TEXT + |key|, key);
    AtSlice(data, pos + 1, key);
  }

  /** A short string: its head, in one byte or two, and its bytes are passed. */
  lemma StringSkipped(data: bytes, pos: nat, major: nat, x: bytes)
    requires (major == MAJOR_BYTES || major == MAJOR_TEXT) && |x| < 256 && At(data, pos, Head(major, |x|) + x)
    ensures CommitCodec.SkipValue(data, pos) == Some(pos + |Head(major, |x|)| + |x|)
  {
    hide At;
    var h := Head(major, |x|);
    AtSplit(data, pos, h, x);
    AtHead(data, pos, h);
    if |x| >= 24 {
      AtHead(data, pos + 1, h[1..]);
    }
  }

  lemma NumberSkipped(data: bytes, pos: nat, n: nat)
    requires n < 0x1_0000 && At(data, pos, Head(MAJOR_UINT, n))
    ensures CommitCodec.SkipValue(data, pos) == Some(pos + |Head(MAJOR_UINT, n)|)
  {
    hide At;
    AtHead(data, pos, Head(MAJOR_UINT, n));
  }

  lemma LinkSkipped(data: bytes, pos: nat, link: Option<bytes>)
    requires (link.Some? ==> |link.value| < 255) && At(data, pos, NullableCid(link))
    ensures CommitCodec.SkipValue(data, pos) == Some(pos + |NullableCid(link)|)
  {
    hide At, Head;
    match link {
      case None => AtHead(data, pos, [NULL]);
      case Some(cid) =>
        var s := [0] + cid;
        AtTwo(data, pos, 0xD8, CID_TAG, Head(MAJOR_BYTES, |s|) + s);
        StringSkipped(data, pos + 2, MAJOR_BYTES, s);
        OneSkipped(data, pos + 2);
    }
  }

  lemma OneSkipped(data: bytes, pos: nat)
    ensures CommitCodec.SkipValues(data, pos, 1) == CommitCodec.SkipValue(data, pos)
  {
    hide CommitCodec.SkipValue;
  }

  lemma ValueSkipped(data: bytes, pos: nat, utf8: bytes -> bool, f: CommitField)
    requires FieldFits(utf8, f) && !f.DataOf? && At(data, pos, ValueBytes(f))
    ensures CommitCodec.SkipValue(data, pos) == Some(pos + |ValueBytes(f)|)
  {
    hide At, Head, CommitCodec.SkipValue, NullableCid;
    match f {
      case TextOf(_, text) => StringSkipped(data, pos, MAJOR_TEXT, text);
      case BytesOf(_, content) => StringSkipped(data, pos, MAJOR_BYTES, content);
      case LinkOf(_, link) => LinkSkipped(data, pos, link);
      case NumberOf(_, n) => NumberSkipped(data, pos, n);
    }
  }

  lemma DataBytes(f: CommitField)
    requires f.DataOf?
    ensures ValueBytes(f) == CidItem(f.cid)
  {
  }

  lemma {:induction false} DataAmongFields(utf8: bytes -> bool, data: bytes, pos: nat, fields: seq<CommitField>)
    requires utf8(CommitCodec.DATA) && (forall f :: f in fields ==> FieldFits(utf8, f))
    requires At(data, pos, FieldsBytes(fields))
    ensures
      var first := FirstData(fields);
      CommitCodec.ReadData(utf8, data, pos, |fields|)
      == if first.Some? && |first.value| < 255 then first else None
    decreases |fields|
  {
    hide At, CommitCodec.ReadKey, CommitCodec.ReadDataValue, CommitCodec.SkipValue, TextItem, ValueBytes;
    if fields != [] {
      var f, rest := fields[0], fields[1..];
      assert f in fields;
      KeyAt(utf8, data, pos, KeyOf(f), ValueBytes(f) + FieldsBytes(rest));
      var p := pos + |TextItem(KeyOf(f))|;
      if f.DataOf? {
        DataBytes(f);
        CommitCodec.DataValueAt(data, p, f.cid, FieldsBytes(rest));
      } else {
        AtSplit(data, p, ValueBytes(f), FieldsBytes(rest));
        ValueSkipped(data, p, utf8, f);
        DataAmongFields(utf8, data, p + |ValueBytes(f)|, rest);
      }
    }
  }

  /** The tree root is found wherever its field stands among the others, iff it is shorter than 255 bytes; without
      the field there is none. */
  lemma CommitMeansRoot(utf8: bytes -> bool, fields: seq<CommitField>, junk: bytes)
    requires utf8(CommitCodec.DATA) && |fields| < 24 && forall f :: f in fields ==> FieldFits(utf8, f)
    ensures
      var first := FirstData(fields);
      CommitCodec.DataCid(utf8, [0xA0 + |fields|] + (FieldsBytes(fields) + junk))
      == if first.Some? && |first.value| < 255 then first else None
  {
    hide At, FieldsBytes, FieldFits, CommitCodec.ReadData;
    var data := [0xA0 + |fields|] + (FieldsBytes(fields) + junk);
    AtWhole(data);
    AtTag(data, 0, 0xA0 + |fields|, FieldsBytes(fields) + junk);
    AtSplit(data, 1, FieldsBytes(fields), junk);
    DataAmongFields(utf8, data, 1, fields);
  }

  // ---- Archive headers ----

  datatype ArchiveField = RootsOf(cids: seq<bytes>) | VersionOf(version: nat) | NoteOf(key: bytes, text: bytes)

  ghost predicate ArchiveFits(utf8: bytes -> bool, f: ArchiveField) {
    match f
    case RootsOf(cids) => |cids| < 24
    case VersionOf(v) => v < 24
    case NoteOf(key, text) =>
      utf8(key) && |key| < 24 && key != Car.ROOTS && key != Car.VERSION && |text| < 256
  }

  function CidItems(cids: seq<bytes>): bytes {
    if cids == [] then [] else CidItem(cids[0]) + CidItems(cids[1..])
  }

  ghost function ArchiveBytes(utf8: bytes -> bool, f: ArchiveField): bytes
    requires ArchiveFits(utf8, f)
  {
    match f
    case RootsOf(cids) => TextItem(Car.ROOTS) + ([0x80 + |cids|] + CidItems(cids))
    case VersionOf(v) => TextItem(Car.VERSION) + [v]
    case NoteOf(key, text) => TextItem(key) + TextItem(text)
  }

  ghost function ArchiveFieldsBytes(utf8: bytes -> bool, fields: seq<ArchiveField>): bytes
    requires forall f :: f in fields ==> ArchiveFits(utf8, f)
  {
    if fields == [] then [] else ArchiveBytes(utf8, fields[0]) + ArchiveFieldsBytes(utf8, fields[1..])
  }

  /** At most 16 roots, each shorter than 255 bytes, and version 1 only. */
  predicate Acceptable(f: ArchiveField) {
    match f
    case RootsOf(cids) => |cids| <= 16 && forall i :: 0 <= i < |cids| ==> |cids[i]| < 255
    case VersionOf(v) => v == 1
    case NoteOf(_, _) => true
  }

  function AllRoots(fields: seq<ArchiveField>): seq<bytes> {
    if fields == [] then []
    else (if fields[0].RootsOf? then fields[0].cids else []) + AllRoots(fields[1..])
  }

  predicate HasVersion(fields: seq<ArchiveField>) {
    exists i :: 0 <= i < |fields| && fields[i].VersionOf?
  }

  predicate AllAcceptable(fields: seq<ArchiveField>) {
    forall i :: 0 <= i < |fields| ==> Acceptable(fields[i])
  }

  lemma {:induction false} RootsRead(data: bytes, pos: nat, cids: seq<bytes>, acc: seq<bytes>)
    requires At(data, pos, CidItems(cids))
    ensures
      if forall i :: 0 <= i < |cids| ==> |cids[i]| < 255
      then Car.ReadRoots(data, pos, |cids|, acc) == Ok((acc + cids, pos + |CidItems(cids)|))
      else Car.ReadRoots(data, pos, |cids|, acc).Err?
    decreases |cids|
  {
    hide At, CidItem, Car.ReadRoot;
    if cids == [] {
      assert acc + cids == acc;
    } else {
      var cid, rest := cids[0], cids[1..];
      AtSplit(data, pos, CidItem(cid), CidItems(rest));
      Car.RootAt(data, pos, cid);
      if |cid| < 255 {
        RootsRead(data, pos + |CidItem(cid)|, rest, acc + [cid]);
        assert (acc + [cid]) + rest == acc + cids;
        assert forall i :: 0 <= i < |rest| ==> rest[i] == cids[i + 1];
        assert forall i :: 0 < i < |cids| ==> cids[i] == rest[i - 1];
      }
    }
  }

  lemma NoteSkipped(data: bytes, pos: nat, text: bytes)
    requires |text| < 256 && At(data, pos, TextItem(text))
    ensures Car.SkipHeaderValue(data, pos) == Ok(pos + |TextItem(text)|)
  {
    hide At;
    var h := Head(MAJOR_TEXT, |text|);
    AtSplit(data, pos, h, text);
    AtHead(data, pos, h);
    if |text| >= 24 {
      AtHead(data, pos + 1, h[1..]);
    }
  }

  lemma ArchiveFieldAt(utf8: bytes -> bool, data: bytes, pos: nat, f: ArchiveField, acc: Car.Header)
    requires utf8(Car.ROOTS) && utf8(Car.VERSION) && ArchiveFits(utf8, f) && At(data, pos, ArchiveBytes(utf8, f))
    ensures
      var r := Car.ReadHeaderField(utf8, data, pos, acc);
      if !Acceptable(f) then r.Err?
      else
        r == Ok((Car.Header(acc.roots + (if f.RootsOf? then f.cids else []), acc.versioned || f.VersionOf?),
                 pos + |ArchiveBytes(utf8, f)|))
  {
    hide At, Car.ReadKey, Car.ReadRoots, Car.SkipHeaderValue, TextItem, CidItems;
    assert acc.roots + [] == acc.roots;
    match f {
      case RootsOf(cids) =>
        Car.HeaderKeyAt(utf8, data, pos, Car.ROOTS, [0x80 + |cids|] + CidItems(cids));
        var p := pos + |TextItem(Car.ROOTS)|;
        AtTag(data, p, 0x80 + |cids|, CidItems(cids));
        RootsRead(data, p + 1, cids, acc.roots);
      case VersionOf(v) =>
        Car.HeaderKeyAt(utf8, data, pos, Car.VERSION, [v]);
        AtHead(data, pos + |TextItem(Car.VERSION)|, [v]);
      case NoteOf(key, text) =>
        Car.HeaderKeyAt(utf8, data, pos, key, TextItem(text));
        NoteSkipped(data, pos + |TextItem(key)|, text);
    }
  }

  lemma {:induction false} ArchiveFieldsAt(utf8: bytes -> bool, data: bytes, pos: nat, fields: seq<ArchiveField>,
                                           acc: Car.Header)
    requires utf8(Car.ROOTS) && utf8(Car.VERSION) && (forall f :: f in fields ==> ArchiveFits(utf8, f))
    requires At(data, pos, ArchiveFieldsBytes(utf8, fields))
    ensures
      var r := Car.ReadHeaderFields(utf8, data, pos, |fields|, acc);
      if !AllAcceptable(fields) then r.Err?
      else r == Ok(Car.Header(acc.roots + AllRoots(fields), acc.versioned || HasVersion(fields)))
    decreases |fields|
  {
    hide At, Car.ReadHeaderField, ArchiveBytes, ArchiveFits, Acceptable;
    if fields == [] {
      assert acc.roots + [] == acc.roots;
    } else {
      var f, rest := fields[0], fields[1..];
      assert f in fields && fields == [f] + rest;
      AtSplit(data, pos, ArchiveBytes(utf8, f), ArchiveFieldsBytes(utf8, rest));
      ArchiveFieldAt(utf8, data, pos, f, acc);
      HeadAndRest(f, rest);
      if Acceptable(f) {
        var (acc', next) := Car.ReadHeaderField(utf8, data, pos, acc).value;
        ArchiveFieldsAt(utf8, data, next, rest, acc');
        assert acc'.roots + AllRoots(rest) == acc.roots + AllRoots(fields);
      }
    }
  }

  lemma HeadAndRest(f: ArchiveField, rest: seq<ArchiveField>)
    ensures AllAcceptable([f] + rest) <==> Acceptable(f) && AllAcceptable(rest)
    ensures HasVersion([f] + rest) <==> f.VersionOf? || HasVersion(rest)
  {
    hide Acceptable;
    var all := [f] + rest;
    assert forall i :: 0 <= i < |rest| ==> rest[i] == all[i + 1];
    assert all[0] == f;
    if HasVersion(rest) {
      var i :| 0 <= i < |rest| && rest[i].VersionOf?;
      assert all[i + 1].VersionOf?;
    }
    if AllAcceptable(rest) && Acceptable(f) {
      assert forall i :: 0 < i < |all| ==> all[i] == rest[i - 1];
    }
  }

  lemma HeaderFrom(utf8: bytes -> bool, data: bytes, n: nat)
    requires n < 24 && data != [] && data[0] == 0xA0 + n
    ensures
      var fields := Car.ReadHeaderFields(utf8, data, 1, n, Car.Header([], false));
      Car.ReadHeader(utf8, data)
      == if fields.Err? then Err(fields.error)
         else if fields.value.versioned then Ok(fields.value.roots) else Err(Car.InvalidHeader)
  {
    hide Car.ReadHeaderFields;
  }

  /** A header is accepted iff it says version 1, and nothing else, and has no list of more than 16 roots and no
      root of 255 bytes or more; notes under other keys are passed over. Then its roots are those listed, in order. */
  lemma HeaderMeansRoots(utf8: bytes -> bool, fields: seq<ArchiveField>, junk: bytes)
    requires utf8(Car.ROOTS) && utf8(Car.VERSION) && |fields| < 24 && (forall f :: f in fields ==> ArchiveFits(utf8, f))
    ensures
      var r := Car.ReadHeader(utf8, [0xA0 + |fields|] + (ArchiveFieldsBytes(utf8, fields) + junk));
      if AllAcceptable(fields) && HasVersion(fields) then r == Ok(AllRoots(fields)) else r.Err?
  {
    hide At, ArchiveFieldsBytes, ArchiveFits, Car.ReadHeaderFields, Car.ReadHeader, AllAcceptable, HasVersion, AllRoots;
    var data := [0xA0 + |fields|] + (ArchiveFieldsBytes(utf8, fields) + junk);
    AtWhole(data);
    AtTag(data, 0, 0xA0 + |fields|, ArchiveFieldsBytes(utf8, fields) + junk);
    AtSplit(data, 1, ArchiveFieldsBytes(utf8, fields), junk);
    ArchiveFieldsAt(utf8, data, 1, fields, Car.Header([], false));
    HeaderFrom(utf8, data, |fields|);
    assert [] + AllRoots(fields) == AllRoots(fields);
  }
}
