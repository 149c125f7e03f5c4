/** The hand-rolled CBOR of repository nodes (heads as in section 3 of RFC 8949). */
module Cbor {
  import opened Bytes

  datatype CborError = Truncated | WrongType | Unsupported | NotUtf8

  const MAJOR_UINT: nat := 0
  const MAJOR_BYTES: nat := 2
  const MAJOR_TEXT: nat := 3
  const MAJOR_ARRAY: nat := 4
  const MAJOR_MAP: nat := 5
  const NULL: byte := 0xF6

  // ---- Heads ----

  /** A head with its argument in the byte itself, in one byte, or in two (where higher bits are cut off). */
  function Head(major: nat, n: nat): (h: bytes)
    requires major < 8
    ensures 1 <= |h| <= 3
  {
    if n < 24 then [32 * major + n]
    else if n < 256 then [32 * major + 24, n]
    else [32 * major + 25, n / 256 % 256, n % 256]
  }

  /** The argument that `additional` announces, read from `pos` on. */
  function ReadLength(additional: nat, data: bytes, pos: nat): (r: Result<(nat, nat), CborError>)
    ensures r.Ok? ==> pos <= r.value.1
  {
    if additional < 24 then Ok((additional, pos))
    else if additional == 24 then
      if pos >= |data| then Err(Truncated) else Ok((data[pos], pos + 1))
    else if additional == 25 then
      if pos + 2 > |data| then Err(Truncated) else Ok((data[pos] as int * 256 + data[pos + 1], pos + 2))
    else Err(Unsupported)
  }

  function ReadHead(major: nat, data: bytes, pos: nat): (r: Result<(nat, nat), CborError>)
    ensures r.Ok? ==> pos < r.value.1
  {
    if pos >= |data| then Err(Truncated)
    else if data[pos] / 32 != major then Err(WrongType)
    else ReadLength(data[pos] % 32, data, pos + 1)
  }

  /** Reading back a head gives its argument below 2^16, and the argument modulo 2^16 above. */
  lemma HeadRoundTrip(major: nat, n: nat, data: bytes, pos: nat)
    requires major < 8 && At(data, pos, Head(major, n))
    ensures ReadHead(major, data, pos) == Ok((n % 0x1_0000, pos + |Head(major, n)|))
  {
    var h := Head(major, n);
    AtHead(data, pos, h);
    if n >= 24 {
      AtHead(data, pos + 1, h[1..]);
      if n >= 256 {
        AtHead(data, pos + 2, h[1..][1..]);
        Low16(n);
      }
    }
  }

  lemma Low16(n: nat)
    ensures n / 256 % 256 * 256 + n % 256 == n % 0x1_0000
  {
  }

  // ---- Strings ----

  function BytesItem(x: bytes): bytes {
    Head(MAJOR_BYTES, |x|) + x
  }

  function TextItem(x: bytes): bytes {
    Head(MAJOR_TEXT, |x|) + x
  }

  function ReadString(major: nat, data: bytes, pos: nat): (r: Result<(bytes, nat), CborError>)
    ensures r.Ok? ==> pos < r.value.1 <= |data|
  {
    var (n, p) :- ReadHead(major, data, pos);
    if p + n > |data| then Err(Truncated) else Ok((data[p..p + n], p + n))
  }

  function ReadText(utf8: bytes -> bool, data: bytes, pos: nat): (r: Result<(bytes, nat), CborError>)
    ensures r.Ok? ==> pos < r.value.1 <= |data|
  {
    var (s, next) :- ReadString(MAJOR_TEXT, data, pos);
    if utf8(s) then Ok((s, next)) else Err(NotUtf8)
  }

  lemma StringRoundTrip(major: nat, x: bytes, data: bytes, pos: nat)
    requires major < 8 && |x| < 0x1_0000 && At(data, pos, Head(major, |x|) + x)
    ensures ReadString(major, data, pos) == Ok((x, pos + |Head(major, |x|)| + |x|))
  {
    hide Head, ReadHead, At;
    var h := Head(major, |x|);
    AtSplit(data, pos, h, x);
    HeadRoundTrip(major, |x|, data, pos);
    assert |x| % 0x1_0000 == |x|;
    AtSlice(data, pos + |h|, x);
  }

  lemma TextRoundTrip(utf8: bytes -> bool, x: bytes, data: bytes, pos: nat)
    requires utf8(x) && |x| < 0x1_0000 && At(data, pos, TextItem(x))
    ensures ReadText(utf8, data, pos) == Ok((x, pos + |TextItem(x)|))
  {
    StringRoundTrip(MAJOR_TEXT, x, data, pos);
  }

  // ---- Unsigned integers ----

  /** Prefix lengths: like a head up to 16 bits, then a full 64-bit form, which the reader does not accept. */
  function UintItem(n: nat): bytes {
    if n < 0x1_0000 then Head(MAJOR_UINT, n)
    else [0x1B, n / 0x100_0000_0000_0000 % 256, n / 0x1_0000_0000_0000 % 256, n / 0x100_0000_0000 % 256,
          n / 0x1_0000_0000 % 256, n / 0x100_0000 % 256, n / 0x1_0000 % 256, n / 0x100 % 256, n % 256]
  }

  // ---- Content identifiers: tag 42 around a byte string with a zero prefix ----

  const CID_TAG: byte := 42

  function CidItem(cid: bytes): bytes {
    [0xD8, CID_TAG] + (Head(MAJOR_BYTES, 1 + |cid|) + ([0] + cid))
  }

  function NullableCid(cid: Option<bytes>): bytes {
    match cid
    case None => [NULL]
    case Some(c) => CidItem(c)
  }

  function ReadCid(data: bytes, pos: nat): (r: Result<(bytes, nat), CborError>)
    ensures r.Ok? ==> pos < r.value.1 <= |data|
  {
    if pos + 1 >= |data| then Err(Truncated)
    else if !(data[pos] == 0xD8 && data[pos + 1] == CID_TAG) then Err(WrongType)
    else
      var (s, next) :- ReadString(MAJOR_BYTES, data, pos + 2);
      if s != [] && s[0] == 0 then Ok((s[1..], next)) else Ok((s, next))
  }

  function ReadNullableCid(data: bytes, pos: nat): (r: Result<(Option<bytes>, nat), CborError>)
    ensures r.Ok? ==> pos < r.value.1 <= |data|
  {
    if pos >= |data| then Err(Truncated)
    else if data[pos] == NULL then Ok((None, pos + 1))
    else
      var (cid, next) :- ReadCid(data, pos);
      Ok((Some(cid), next))
  }

  lemma CidRoundTrip(cid: bytes, data: bytes, pos: nat)
    requires |cid| < 0xFFFF && At(data, pos, CidItem(cid))
    ensures ReadCid(data, pos) == Ok((cid, pos + |CidItem(cid)|))
    ensures pos < |data| && data[pos] == 0xD8
  {
    hide Head, ReadString, At;
    var s := [0] + cid;
    var item := Head(MAJOR_BYTES, |s|) + s;
    AtTwo(data, pos, 0xD8, CID_TAG, item);
    StringRoundTrip(MAJOR_BYTES, s, data, pos + 2);
  }

  lemma AtTwo(data: bytes, pos: nat, a: byte, b: byte, rest: bytes)
    requires At(data, pos, [a, b] + rest)
    ensures pos + 1 < |data| && data[pos] == a && data[pos + 1] == b && At(data, pos + 2, rest)
  {
    assert [a, b] + rest == [a] + ([b] + rest);
    AtTag(data, pos, a, [b] + rest);
    AtTag(data, pos + 1, b, rest);
  }

  lemma NullableCidRoundTrip(cid: Option<bytes>, data: bytes, pos: nat)
    requires (cid.Some? ==> |cid.value| < 0xFFFF) && At(data, pos, NullableCid(cid))
    ensures ReadNullableCid(data, pos) == Ok((cid, pos + |NullableCid(cid)|))
  {
    hide CidItem, ReadCid;
    match cid {
      case None => AtHead(data, pos, [NULL]);
      case Some(c) => CidRoundTrip(c, data, pos);
    }
  }

  // ---- Skipping values of unknown keys ----

  function Left(data: bytes, pos: nat): nat {
    if pos <= |data| then |data| - pos else 0
  }

  /** The bytes of an argument that is skipped without being used. */
  function ArgumentWidth(additional: nat): nat {
    if additional == 24 then 1
    else if additional == 25 then 2
    else if additional == 26 then 4
    else if additional == 27 then 8
    else 0
  }

  /** The position after one value; it may lie beyond the end, and then the next read fails. */
  function Skip(data: bytes, pos: nat): (r: Result<nat, CborError>)
    ensures r.Ok? ==> pos < r.value
    decreases Left(data, pos), 0, 0
  {
    if pos >= |data| then Err(Truncated)
    else
      var major, additional := data[pos] / 32, data[pos] % 32;
      if major == 2 || major == 3 then
        var (n, p) :- ReadLength(additional, data, pos + 1);
        Ok(p + n)
      else if major == 4 then
        var (n, p) :- ReadLength(additional, data, pos + 1);
        SkipMany(data, p, n)
      else if major == 5 then
        var (n, p) :- ReadLength(additional, data, pos + 1);
        SkipMany(data, p, 2 * n)
      else if major == 6 then SkipMany(data, pos + 1 + ArgumentWidth(additional), 1)
      else Ok(pos + 1 + ArgumentWidth(additional))
  }

  function SkipMany(data: bytes, pos: nat, n: nat): (r: Result<nat, CborError>)
    ensures r.Ok? ==> pos <= r.value
    decreases Left(data, pos), 1, n
  {
    if n == 0 then Ok(pos)
    else
      var p :- Skip(data, pos);
      SkipMany(data, p, n - 1)
  }
}
