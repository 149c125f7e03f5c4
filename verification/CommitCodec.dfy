/** Commit blocks, and finding the tree root in one. */
module CommitCodec {
  import opened Bytes
  import opened Cbor

  datatype Commit = Commit(did: bytes, version: nat, data: bytes, rev: bytes, prev: Option<bytes>, sig: Option<bytes>)

  function Ascii(s: string): bytes
    requires forall i :: 0 <= i < |s| ==> s[i] < 128 as char
  {
    seq(|s|, i requires 0 <= i < |s| => s[i] as int)
  }

  const DATA: bytes := ['d' as int, 'a' as int, 't' as int, 'a' as int]

  /** Version numbers are 32-bit. */
  function VersionItem(n: nat): bytes {
    if n < 0x1_0000 then Head(MAJOR_UINT, n)
    else [0x1A, n / 0x100_0000 % 256, n / 0x1_0000 % 256, n / 0x100 % 256, n % 256]
  }

  /** The fields in key order; the data field comes first. */
  function CommitBytes(c: Commit): bytes {
    [0xA0 + if c.sig.Some? then 6 else 5] + (TextItem(DATA) + (CidItem(c.data) + OtherFields(c)))
  }

  function OtherFields(c: Commit): bytes {
    TextItem(Ascii("did")) + TextItem(c.did) + TextItem(Ascii("prev")) + NullableCid(c.prev)
    + TextItem(Ascii("rev")) + TextItem(c.rev)
    + (if c.sig.Some? then TextItem(Ascii("sig")) + BytesItem(c.sig.value) else [])
    + TextItem(Ascii("version")) + VersionItem(c.version)
  }

  // ---- Reading ----

  /** String lengths in a commit: in the head byte, or in the byte after it. */
  function ShortLength(additional: nat, data: bytes, pos: nat): (r: Option<(nat, nat)>)
    ensures r.Some? ==> pos <= r.value.1
  {
    if additional < 24 then Some((additional, pos))
    else if additional == 24 && pos < |data| then Some((data[pos], pos + 1))
    else None
  }

  function SkipValue(data: bytes, pos: nat): (r: Option<nat>)
    ensures r.Some? ==> pos < r.value
    decreases Left(data, pos), 0, 0
  {
    if pos >= |data| then None
    else
      var major, additional := data[pos] / 32, data[pos] % 32;
      if major == 2 || major == 3 then
        var (n, p) :- ShortLength(additional, data, pos + 1);
        Some(p + n)
      else if major == 4 then SkipValues(data, pos + 1, additional)
      else if major == 5 then SkipValues(data, pos + 1, 2 * additional)
      else if major == 6 then SkipValues(data, pos + 1 + ArgumentWidth(additional), 1)
      else Some(pos + 1 + ArgumentWidth(additional))
  }

  function SkipValues(data: bytes, pos: nat, n: nat): (r: Option<nat>)
    ensures r.Some? ==> pos <= r.value
    decreases Left(data, pos), 1, n
  {
    if n == 0 then Some(pos)
    else
      var p :- SkipValue(data, pos);
      SkipValues(data, p, n - 1)
  }

  function ReadKey(utf8: bytes -> bool, data: bytes, pos: nat): Option<(bytes, nat)> {
    if pos >= |data| || data[pos] / 32 != MAJOR_TEXT then None
    else
      var n := data[pos] % 32;
      if pos + 1 + n > |data| || !utf8(data[pos + 1..pos + 1 + n]) then None
      else Some((data[pos + 1..pos + 1 + n], pos + 1 + n))
  }

  function ReadDataValue(data: bytes, pos: nat): Option<bytes> {
    if pos + 1 >= |data| || data[pos] != 0xD8 || data[pos + 1] != CID_TAG then None
    else if pos + 2 >= |data| || data[pos + 2] / 32 != MAJOR_BYTES then None
    else
      var (n, p) :- ShortLength(data[pos + 2] % 32, data, pos + 3);
      if p + n > |data| then None
      else if n > 0 && data[p] == 0 then Some(data[p + 1..p + n])
      else Some(data[p..p + n])
  }

  function ReadData(utf8: bytes -> bool, data: bytes, pos: nat, n: nat): Option<bytes>
    decreases n
  {
    if n == 0 then None
    else
      var (key, p) :- ReadKey(utf8, data, pos);
      if key == DATA then ReadDataValue(data, p)
      else
        var next :- SkipValue(data, p);
        ReadData(utf8, data, next, n - 1)
  }

  /** The tree root that a commit block names, if one can be read. */
  function DataCid(utf8: bytes -> bool, data: bytes): Option<bytes> {
    if data == [] || data[0] / 32 != MAJOR_MAP then None else ReadData(utf8, data, 1, data[0] % 32)
  }

  method ParseDataCid(utf8: bytes -> bool, data: bytes) returns (r: Option<bytes>)
    ensures r == DataCid(utf8, data)
  {
    hide ReadKey, ReadDataValue, SkipValue;
    if data == [] || data[0] / 32 != MAJOR_MAP {
      return None;
    }
    var pos: nat, fields: nat := 1, data[0] % 32;
    while fields > 0
      invariant DataCid(utf8, data) == ReadData(utf8, data, pos, fields)
    {
      var key :- ReadKey(utf8, data, pos);
      if key.0 == DATA {
        return ReadDataValue(data, key.1);
      }
      pos :- SkipValue(data, key.1);
      fields := fields - 1;
    }
    r := None;
  }

  // ---- Reading back what was written ----

  lemma KeyAt(utf8: bytes -> bool, data: bytes, pos: nat, rest: bytes)
    requires utf8(DATA) && At(data, pos, TextItem(DATA) + rest)
    ensures ReadKey(utf8, data, pos) == Some((DATA, pos + |TextItem(DATA)|)) && At(data, pos + |TextItem(DATA)|, rest)
  {
    hide At;
    AtSplit(data, pos, TextItem(DATA), rest);
    AtTag(data, pos, 0x64, DATA);
    AtSlice(data, pos + 1, DATA);
  }

  lemma DataValueAt(data: bytes, pos: nat, cid: bytes, rest: bytes)
    requires At(data, pos, CidItem(cid) + rest)
    ensures ReadDataValue(data, pos) == if |cid| < 255 then Some(cid) else None
  {
    hide At;
    var s := [0] + cid;
    var item := Head(MAJOR_BYTES, |s|) + s;
    AtSplit(data, pos, CidItem(cid), rest);
    AtTwo(data, pos, 0xD8, CID_TAG, item);
    var h := Head(MAJOR_BYTES, |s|);
    AtSplit(data, pos + 2, h, s);
    AtHead(data, pos + 2, h);
    if |cid| < 255 {
      if |s| >= 24 {
        AtHead(data, pos + 3, h[1..]);
      }
      AtTag(data, pos + 2 + |h|, 0, cid);
      AtSlice(data, pos + 2 + |h| + 1, cid);
    }
  }

  /** The root of a written commit is found exactly when it is shorter than 255 bytes. */
  lemma {:induction false} DataRoundTrip(utf8: bytes -> bool, c: Commit)
    requires utf8(DATA)
    ensures DataCid(utf8, CommitBytes(c)) == if |c.data| < 255 then Some(c.data) else None
  {
    hide At, TextItem, CidItem, OtherFields, ReadKey, ReadDataValue;
    var data, rest := CommitBytes(c), CidItem(c.data) + OtherFields(c);
    AtWhole(data);
    AtTag(data, 0, data[0], TextItem(DATA) + rest);
    KeyAt(utf8, data, 1, rest);
    DataValueAt(data, 1 + |TextItem(DATA)|, c.data, OtherFields(c));
  }
}
