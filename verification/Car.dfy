/** CAR archives: a header with at most one root, then blocks framed by their lengths. */
module Car {
  import opened Bytes
  import opened Cbor
  import Varint

  datatype CarBlock = CarBlock(cid: bytes, data: bytes)

  datatype CarError =
    CutOff | InvalidHeader | InvalidCid | TooManyRoots | UnsupportedVersion | BlockTooLarge | VarintOverflow

  const MAX_BLOCK_SIZE: nat := 256 * 1024 * 1024
  const MAX_ROOTS: nat := 16
  const ROOTS: bytes := ['r' as int, 'o' as int, 'o' as int, 't' as int, 's' as int]
  const VERSION: bytes := ['v' as int, 'e' as int, 'r' as int, 's' as int, 'i' as int, 'o' as int, 'n' as int]

  // ---- The printed form ----

  function RootsItem(root: Option<bytes>): bytes {
    match root
    case None => [0x80]
    case Some(cid) => [0x81] + CidItem(cid)
  }

  function HeaderBytes(root: Option<bytes>): bytes {
    [0xA2] + (TextItem(ROOTS) + (RootsItem(root) + (TextItem(VERSION) + [1])))
  }

  function BlockBytes(b: CarBlock): bytes {
    Varint.Encoding(|b.cid| + |b.data|) + (b.cid + b.data)
  }

  function BlocksBytes(bs: seq<CarBlock>): bytes {
    if bs == [] then [] else BlockBytes(bs[0]) + BlocksBytes(bs[1..])
  }

  function CarBytes(root: Option<bytes>, bs: seq<CarBlock>): bytes {
    Varint.Encoding(|HeaderBytes(root)|) + (HeaderBytes(root) + BlocksBytes(bs))
  }

  lemma {:induction false} BlocksAppend(bs: seq<CarBlock>, b: CarBlock)
    ensures BlocksBytes(bs + [b]) == BlocksBytes(bs) + BlockBytes(b)
    decreases |bs|
  {
    hide BlockBytes;
    if bs == [] {
      assert BlocksBytes([b]) == BlockBytes(b) + BlocksBytes([]) == BlockBytes(b);
    } else {
      BlocksAppend(bs[1..], b);
      assert (bs + [b])[1..] == bs[1..] + [b];
      Associate(BlockBytes(bs[0]), BlocksBytes(bs[1..]), BlockBytes(b));
    }
  }

  method EncodeCar(root: Option<bytes>, bs: seq<CarBlock>) returns (out: bytes)
    ensures out == CarBytes(root, bs)
  {
    hide HeaderBytes, BlockBytes, Varint.Encoding;
    var header := HeaderBytes(root);
    out := Varint.Encode(|header|, []);
    out := out + header;
    ghost var front := out;
    for i := 0 to |bs|
      invariant out == front + BlocksBytes(bs[..i])
    {
      BlocksAppend(bs[..i], bs[i]);
      assert bs[..i] + [bs[i]] == bs[..i + 1];
      out := EncodeBlock(bs[i], out);
    }
    assert bs[..|bs|] == bs;
  }

  method EncodeBlock(b: CarBlock, buf: bytes) returns (out: bytes)
    ensures out == buf + BlockBytes(b)
  {
    hide Varint.Encoding;
    out := Varint.Encode(|b.cid| + |b.data|, buf);
    out := out + b.cid + b.data;
  }

  // ---- The length of a content identifier ----

  function Number(data: bytes, pos: nat): Result<(nat, nat), CarError> {
    match Varint.ReadAt(data, pos)
    case Value(v, next) => Ok((v, next))
    case Truncated => Err(CutOff)
    case Overflow => Err(VarintOverflow)
  }

  /** Version 1: codec, hash function and digest length as integers, then the digest. Version 0: a bare multihash. */
  function CidLen(data: bytes): Result<nat, CarError> {
    if data == [] then Err(CutOff)
    else if data[0] == 0x01 then
      var codec :- Number(data, 1);
      var func :- Number(data, codec.1);
      var digest :- Number(data, func.1);
      if digest.1 + digest.0 > |data| then Err(CutOff) else Ok(digest.1 + digest.0)
    else if data[0] == 0x12 then
      if |data| < 2 then Err(CutOff)
      else if 2 + data[1] as int > |data| then Err(CutOff) else Ok(2 + data[1] as int)
    else Err(InvalidCid)
  }

  /** A content identifier whose announced length is its own. */
  predicate WellFormedCid(cid: bytes) {
    CidLen(cid) == Ok(|cid|)
  }

  lemma {:induction false} ReadPrefix(data: bytes, more: bytes, pos: nat, shift: nat, value: nat)
    requires pos <= |data|
    ensures var r := Varint.ReadFrom(data + more, pos, shift, value);
      (r.Value? && r.next <= |data|) <==> Varint.ReadFrom(data, pos, shift, value).Value?
    ensures Varint.ReadFrom(data, pos, shift, value).Value? ==>
      Varint.ReadFrom(data + more, pos, shift, value) == Varint.ReadFrom(data, pos, shift, value)
    ensures var r := Varint.ReadFrom(data, pos, shift, value); r.Value? ==> pos < r.next <= |data|
    ensures var r := Varint.ReadFrom(data + more, pos, shift, value); r.Value? ==> pos < r.next
    decreases |data| - pos
  {
    if pos < |data| && data[pos] >= 128 && shift + 7 <= 63 {
      var v := value + (data[pos] % 128 * Varint.Scale(shift)) % TWO64;
      ReadPrefix(data, more, pos + 1, shift + 7, v);
    } else if pos == |data| {
      Varint.ReadFromBounds(data + more, pos, shift, value);
    }
  }

  lemma NumberPrefix(data: bytes, more: bytes, pos: nat)
    requires pos <= |data|
    ensures (Number(data + more, pos).Ok? && Number(data + more, pos).value.1 <= |data|) <==> Number(data, pos).Ok?
    ensures Number(data, pos).Ok? ==> Number(data + more, pos) == Number(data, pos)
    ensures Number(data, pos).Ok? ==> pos < Number(data, pos).value.1 <= |data|
    ensures Number(data + more, pos).Ok? ==> pos < Number(data + more, pos).value.1
  {
    hide Varint.ReadFrom;
    ReadPrefix(data, more, pos, 0, 0);
  }

  lemma NumberMoves(data: bytes, pos: nat)
    ensures Number(data, pos).Ok? ==> pos < Number(data, pos).value.1
  {
    Varint.ReadFromBounds(data, pos, 0, 0);
  }

  /** The length depends on the identifier's own bytes only: what follows it does not matter. */
  lemma CidLenPrefix(cid: bytes, data: bytes)
    ensures CidLen(cid + data) == Ok(|cid|) <==> WellFormedCid(cid)
  {
    hide Number;
    var all := cid + data;
    if cid != [] && cid[0] == 0x01 {
      NumberPrefix(cid, data, 1);
      NumberMoves(all, 1);
      if Number(cid, 1).Ok? {
        var p := Number(cid, 1).value.1;
        NumberPrefix(cid, data, p);
        NumberMoves(all, p);
        if Number(cid, p).Ok? {
          NumberPrefix(cid, data, Number(cid, p).value.1);
          NumberMoves(all, Number(cid, p).value.1);
        } else if Number(all, p).Ok? {
          NumberMoves(all, Number(all, p).value.1);
        }
      } else if Number(all, 1).Ok? {
        var p := Number(all, 1).value.1;
        NumberMoves(all, p);
        if Number(all, p).Ok? {
          NumberMoves(all, Number(all, p).value.1);
        }
      }
    } else if cid == [] {
      EmptyCid(data);
    }
  }

  lemma NumberAt(data: bytes, pos: nat, v: nat)
    requires v < TWO64 && At(data, pos, Varint.Encoding(v))
    ensures Number(data, pos) == Ok((v, pos + |Varint.Encoding(v)|))
  {
    hide Varint.Encoding, Varint.ReadAt, At;
    Varint.RoundTrip(data, pos, v);
  }

  lemma BareCid(digest: bytes)
    requires |digest| < 256
    ensures WellFormedCid([0x12, |digest|] + digest)
  {
    hide Number;
  }

  lemma VersionedCid(codec: nat, func: nat, digest: bytes)
    requires codec < TWO64 && func < TWO64 && |digest| < TWO64
    ensures
      WellFormedCid([1] + (Varint.Encoding(codec) + (Varint.Encoding(func) + (Varint.Encoding(|digest|) + digest))))
  {
    hide Varint.Encoding, At, Number;
    var a, b, n := Varint.Encoding(codec), Varint.Encoding(func), Varint.Encoding(|digest|);
    var cid := [1] + (a + (b + (n + digest)));
    AtWhole(cid);
    AtTag(cid, 0, 1, a + (b + (n + digest)));
    AtSplit(cid, 1, a, b + (n + digest));
    AtSplit(cid, 1 + |a|, b, n + digest);
    AtSplit(cid, 1 + |a| + |b|, n, digest);
    NumberAt(cid, 1, codec);
    NumberAt(cid, 1 + |a|, func);
    NumberAt(cid, 1 + |a| + |b|, |digest|);
  }

  /** The two forms of an identifier delimit themselves: a bare multihash, and version 1 with codec, hash function and
      digest length as integers. */
  lemma CidForms(codec: nat, func: nat, digest: bytes)
    requires codec < TWO64 && func < TWO64 && |digest| < TWO64
    ensures |digest| < 256 ==> WellFormedCid([0x12, |digest|] + digest)
    ensures
      WellFormedCid([1] + (Varint.Encoding(codec) + (Varint.Encoding(func) + (Varint.Encoding(|digest|) + digest))))
  {
    hide WellFormedCid, Varint.Encoding;
    if |digest| < 256 {
      BareCid(digest);
    }
    VersionedCid(codec, func, digest);
  }

  lemma EmptyCid(data: bytes)
    ensures CidLen([] + data) != Ok(0)
  {
    assert [] + data == data;
    NumberMoves(data, 1);
    if Number(data, 1).Ok? {
      var p := Number(data, 1).value.1;
      NumberMoves(data, p);
      if Number(data, p).Ok? {
        NumberMoves(data, Number(data, p).value.1);
      }
    }
  }

  // ---- Reading ----

  /** Lengths of strings in the header: in the head byte, or in the byte after it. */
  function HeaderLength(additional: nat, data: bytes, pos: nat, otherwise: CarError): (r: Result<(nat, nat), CarError>)
    ensures r.Ok? ==> pos <= r.value.1
  {
    if additional < 24 then Ok((additional, pos))
    else if additional == 24 then
      if pos >= |data| then Err(CutOff) else Ok((data[pos], pos + 1))
    else Err(otherwise)
  }

  function ReadKey(utf8: bytes -> bool, data: bytes, pos: nat): Result<(bytes, nat), CarError> {
    if pos >= |data| then Err(CutOff)
    else if data[pos] / 32 != MAJOR_TEXT then Err(InvalidHeader)
    else
      var (n, p) :- HeaderLength(data[pos] % 32, data, pos + 1, InvalidHeader);
      if p + n > |data| then Err(CutOff)
      else if !utf8(data[p..p + n]) then Err(InvalidHeader)
      else Ok((data[p..p + n], p + n))
  }

  function ReadRoot(data: bytes, pos: nat): Result<(bytes, nat), CarError> {
    if pos + 1 >= |data| then Err(CutOff)
    else if !(data[pos] == 0xD8 && data[pos + 1] == CID_TAG) then Err(InvalidCid)
    else if pos + 2 >= |data| then Err(CutOff)
    else if data[pos + 2] / 32 != MAJOR_BYTES then Err(InvalidCid)
    else
      var (n, p) :- HeaderLength(data[pos + 2] % 32, data, pos + 3, InvalidCid);
      if p + n > |data| then Err(CutOff)
      else if n > 0 && data[p] == 0 then Ok((data[p + 1..p + n], p + n))
      else Ok((data[p..p + n], p + n))
  }

  function ReadRoots(data: bytes, pos: nat, n: nat, acc: seq<bytes>): Result<(seq<bytes>, nat), CarError>
    decreases n
  {
    if n == 0 then Ok((acc, pos))
    else
      var (cid, next) :- ReadRoot(data, pos);
      ReadRoots(data, next, n - 1, acc + [cid])
  }

  /** The position after a header value of an unknown key; tags and simple values count as one byte here. */
  function SkipHeaderValue(data: bytes, pos: nat): (r: Result<nat, CarError>)
    ensures r.Ok? ==> pos < r.value
    decreases Left(data, pos), 0, 0
  {
    if pos >= |data| then Err(CutOff)
    else
      var major, additional := data[pos] / 32, data[pos] % 32;
      if major == 0 || major == 1 then Ok(pos + 1 + ArgumentWidth(additional))
      else if major == 2 || major == 3 then
        var (n, p) :- HeaderLength(additional, data, pos + 1, InvalidHeader);
        Ok(p + n)
      else if major == 4 then SkipHeaderValues(data, pos + 1, additional)
      else if major == 5 then SkipHeaderValues(data, pos + 1, 2 * additional)
      else if major == 6 then SkipHeaderValues(data, pos + 1, 1)
      else Ok(pos + 1)
  }

  function SkipHeaderValues(data: bytes, pos: nat, n: nat): (r: Result<nat, CarError>)
    ensures r.Ok? ==> pos <= r.value
    decreases Left(data, pos), 1, n
  {
    if n == 0 then Ok(pos)
    else
      var p :- SkipHeaderValue(data, pos);
      SkipHeaderValues(data, p, n - 1)
  }

  datatype Header = Header(roots: seq<bytes>, versioned: bool)

  function ReadHeaderField(utf8: bytes -> bool, data: bytes, pos: nat, acc: Header): Result<(Header, nat), CarError> {
    var (key, p) :- ReadKey(utf8, data, pos);
    if key == ROOTS then
      if p >= |data| || data[p] / 32 != MAJOR_ARRAY then Err(InvalidHeader)
      else if data[p] % 32 > MAX_ROOTS then Err(TooManyRoots)
      else
        var (roots, next) :- ReadRoots(data, p + 1, data[p] % 32, acc.roots);
        Ok((acc.(roots := roots), next))
    else if key == VERSION then
      if p >= |data| then Err(InvalidHeader)
      else if data[p] != 1 then Err(UnsupportedVersion)
      else Ok((acc.(versioned := true), p + 1))
    else
      var next :- SkipHeaderValue(data, p);
      Ok((acc, next))
  }

  function ReadHeaderFields(utf8: bytes -> bool, data: bytes, pos: nat, n: nat, acc: Header): Result<Header, CarError>
    decreases n
  {
    if n == 0 then Ok(acc)
    else
      var (acc', next) :- ReadHeaderField(utf8, data, pos, acc);
      ReadHeaderFields(utf8, data, next, n - 1, acc')
  }

  function ReadHeader(utf8: bytes -> bool, data: bytes): Result<seq<bytes>, CarError> {
    if data == [] || data[0] / 32 != MAJOR_MAP || data[0] % 32 >= 24 then Err(InvalidHeader)
    else
      var header :- ReadHeaderFields(utf8, data, 1, data[0] % 32, Header([], false));
      if header.versioned then Ok(header.roots) else Err(InvalidHeader)
  }

  function ReadBlock(data: bytes, pos: nat): (r: Result<(CarBlock, nat), CarError>)
    ensures r.Ok? ==> pos < r.value.1 <= |data|
  {
    NumberMoves(data, pos);
    var (n, p) :- Number(data, pos);
    if n > MAX_BLOCK_SIZE then Err(BlockTooLarge)
    else if p + n > |data| then Err(CutOff)
    else
      var len :- CidLen(data[p..p + n]);
      CidLenBounded(data[p..p + n]);
      Ok((CarBlock(data[p..p + len], data[p + len..p + n]), p + n))
  }

  lemma CidLenBounded(data: bytes)
    ensures CidLen(data).Ok? ==> CidLen(data).value <= |data|
  {
    hide Number;
  }

  /** Blocks up to the end of the data. */
  function ReadBlocks(data: bytes, pos: nat, acc: seq<CarBlock>): Result<seq<CarBlock>, CarError>
    requires pos <= |data|
    decreases |data| - pos
  {
    if pos == |data| then Ok(acc)
    else
      var (b, next) :- ReadBlock(data, pos);
      ReadBlocks(data, next, acc + [b])
  }

  function ReadCar(utf8: bytes -> bool, data: bytes): Result<(seq<bytes>, seq<CarBlock>), CarError> {
    NumberMoves(data, 0);
    var (n, p) :- Number(data, 0);
    if p + n > |data| then Err(CutOff)
    else
      var roots :- ReadHeader(utf8, data[p..p + n]);
      var blocks :- ReadBlocks(data, p + n, []);
      Ok((roots, blocks))
  }

  method DecodeHeader(utf8: bytes -> bool, data: bytes) returns (r: Result<seq<bytes>, CarError>)
    ensures r == ReadHeader(utf8, data)
  {
    hide ReadHeaderField;
    if data == [] || data[0] / 32 != MAJOR_MAP || data[0] % 32 >= 24 {
      return Err(InvalidHeader);
    }
    var acc := Header([], false);
    var pos: nat, fields: nat := 1, data[0] % 32;
    while fields > 0
      invariant ReadHeaderFields(utf8, data, 1, data[0] % 32, Header([], false))
             == ReadHeaderFields(utf8, data, pos, fields, acc)
    {
      var step :- ReadHeaderField(utf8, data, pos, acc);
      acc, pos, fields := step.0, step.1, fields - 1;
    }
    if !acc.versioned {
      return Err(InvalidHeader);
    }
    r := Ok(acc.roots);
  }

  method DecodeCar(utf8: bytes -> bool, data: bytes) returns (r: Result<(seq<bytes>, seq<CarBlock>), CarError>)
    ensures r == ReadCar(utf8, data)
  {
    hide Number, ReadHeader, ReadBlock;
    NumberMoves(data, 0);
    var size :- Number(data, 0);
    if size.1 + size.0 > |data| {
      return Err(CutOff);
    }
    var roots :- DecodeHeader(utf8, data[size.1..size.1 + size.0]);
    var pos := size.1 + size.0;
    var blocks: seq<CarBlock> := [];
    while pos < |data|
      invariant pos <= |data|
      invariant ReadBlocks(data, size.1 + size.0, []) == ReadBlocks(data, pos, blocks)
    {
      var step :- ReadBlock(data, pos);
      blocks, pos := blocks + [step.0], step.1;
    }
    r := Ok((roots, blocks));
  }

  // ---- Round trip ----

  lemma HeaderKeyAt(utf8: bytes -> bool, data: bytes, pos: nat, key: bytes, rest: bytes)
    requires utf8(key) && |key| < 24 && At(data, pos, TextItem(key) + rest)
    ensures ReadKey(utf8, data, pos) == Ok((key, pos + |TextItem(key)|)) && At(data, pos + |TextItem(key)|, rest)
  {
    hide At;
    AtSplit(data, pos, TextItem(key), rest);
    AtTag(data, pos, 32 * MAJOR_TEXT + |key|, key);
    AtSlice(data, pos + 1, key);
  }

  /** A root is read back below 255 bytes, and refused from there on. */
  lemma RootAt(data: bytes, pos: nat, cid: bytes)
    requires At(data, pos, CidItem(cid))
    ensures ReadRoot(data, pos) == if |cid| < 255 then Ok((cid, pos + |CidItem(cid)|)) else Err(InvalidCid)
  {
    hide At;
    var s := [0] + cid;
    var h := Head(MAJOR_BYTES, |s|);
    AtTwo(data, pos, 0xD8, CID_TAG, h + s);
    AtSplit(data, pos + 2, h, s);
    AtHead(data, pos + 2, h);
    if |cid| < 255 {
      if |s| >= 24 {
        AtHead(data, pos + 3, h[1..]);
      }
      AtTag(data, pos + 2 + |h|, 0, cid);
      AtSlice(data, pos + 2 + |h| + 1, cid);
    }
  }

  function RootList(root: Option<bytes>): seq<bytes> {
    match root
    case None => []
    case Some(cid) => [cid]
  }

  predicate ShortRoot(root: Option<bytes>) {
    root.Some? ==> |root.value| < 255
  }

  lemma RootsAt(utf8: bytes -> bool, data: bytes, pos: nat, root: Option<bytes>, rest: bytes)
    requires utf8(ROOTS) && At(data, pos, TextItem(ROOTS) + (RootsItem(root) + rest))
    ensures var next := pos + |TextItem(ROOTS)| + |RootsItem(root)|;
      && At(data, next, rest)
      && ReadHeaderField(utf8, data, pos, Header([], false))
         == if ShortRoot(root) then Ok((Header(RootList(root), false), next)) else Err(InvalidCid)
  {
    hide At, ReadKey, ReadRoot, TextItem, CidItem;
    HeaderKeyAt(utf8, data, pos, ROOTS, RootsItem(root) + rest);
    var p := pos + |TextItem(ROOTS)|;
    AtSplit(data, p, RootsItem(root), rest);
    match root {
      case None =>
        AtHead(data, p, RootsItem(root));
      case Some(cid) =>
        AtTag(data, p, 0x81, CidItem(cid));
        RootAt(data, p + 1, cid);
        OneRoot(data, p + 1);
    }
  }

  lemma OneRoot(data: bytes, pos: nat)
    ensures ReadRoot(data, pos).Err? ==> ReadRoots(data, pos, 1, []) == Err(ReadRoot(data, pos).error)
    ensures ReadRoot(data, pos).Ok? ==>
      ReadRoots(data, pos, 1, []) == Ok(([ReadRoot(data, pos).value.0], ReadRoot(data, pos).value.1))
  {
    hide ReadRoot;
    if ReadRoot(data, pos).Ok? {
      var (cid, next) := ReadRoot(data, pos).value;
      assert [] + [cid] == [cid];
      assert ReadRoots(data, next, 0, [cid]) == Ok(([cid], next));
    }
  }

  lemma HeaderRoundTrip(utf8: bytes -> bool, root: Option<bytes>)
    requires utf8(ROOTS) && utf8(VERSION)
    ensures ReadHeader(utf8, HeaderBytes(root)) == if ShortRoot(root) then Ok(RootList(root)) else Err(InvalidCid)
  {
    hide At, ReadKey, TextItem, RootsItem, ReadHeaderField;
    var data, version := HeaderBytes(root), TextItem(VERSION) + [1];
    AtWhole(data);
    AtTag(data, 0, 0xA2, TextItem(ROOTS) + (RootsItem(root) + version));
    RootsAt(utf8, data, 1, root, version);
    var next := 1 + |TextItem(ROOTS)| + |RootsItem(root)|;
    TwoHeaderFields(utf8, data);
    if ShortRoot(root) {
      VersionAt(utf8, data, next, Header(RootList(root), false));
    }
  }

  lemma VersionAt(utf8: bytes -> bool, data: bytes, pos: nat, acc: Header)
    requires utf8(VERSION) && At(data, pos, TextItem(VERSION) + [1])
    ensures ReadHeaderFields(utf8, data, pos, 1, acc) == Ok(acc.(versioned := true))
  {
    hide At, ReadKey, TextItem;
    HeaderKeyAt(utf8, data, pos, VERSION, [1]);
    var p := pos + |TextItem(VERSION)|;
    AtHead(data, p, [1]);
    assert ReadHeaderField(utf8, data, pos, acc) == Ok((acc.(versioned := true), p + 1));
    assert ReadHeaderFields(utf8, data, p + 1, 0, acc.(versioned := true)) == Ok(acc.(versioned := true));
  }

  lemma TwoHeaderFields(utf8: bytes -> bool, data: bytes)
    ensures var first := ReadHeaderField(utf8, data, 1, Header([], false));
      ReadHeaderFields(utf8, data, 1, 2, Header([], false))
      == if first.Ok? then ReadHeaderFields(utf8, data, first.value.1, 1, first.value.0) else Err(first.error)
  {
    hide ReadHeaderField;
  }

  /** What a block needs to be read back: a self-delimiting identifier and at most 256 MiB in all. */
  predicate Readable(b: CarBlock) {
    WellFormedCid(b.cid) && |b.cid| + |b.data| <= MAX_BLOCK_SIZE
  }

  lemma BlockAt(data: bytes, pos: nat, b: CarBlock)
    requires At(data, pos, BlockBytes(b)) && |b.cid| + |b.data| < TWO64
    ensures ReadBlock(data, pos) == Ok((b, pos + |BlockBytes(b)|)) <==> Readable(b)
    ensures ReadBlock(data, pos).Ok? ==> ReadBlock(data, pos).value.1 == pos + |BlockBytes(b)|
  {
    hide At, CidLen, Varint.ReadAt, Varint.Encoding;
    var n, content := |b.cid| + |b.data|, b.cid + b.data;
    var p := pos + |Varint.Encoding(n)|;
    AtSplit(data, pos, Varint.Encoding(n), content);
    Varint.RoundTrip(data, pos, n);
    AtSlice(data, p, content);
    CidLenPrefix(b.cid, b.data);
    CidLenBounded(content);
    if n <= MAX_BLOCK_SIZE && CidLen(content).Ok? {
      CutBlock(data, p, b, CidLen(content).value);
    }
  }

  lemma CutBlock(data: bytes, p: nat, b: CarBlock, len: nat)
    requires p + |b.cid| + |b.data| <= |data| && data[p..p + |b.cid| + |b.data|] == b.cid + b.data
    requires len <= |b.cid| + |b.data|
    ensures CarBlock(data[p..p + len], data[p + len..p + |b.cid| + |b.data|]) == b <==> len == |b.cid|
  {
    var all := b.cid + b.data;
    if len == |b.cid| {
      assert all[..len] == b.cid && all[len..] == b.data;
      assert data[p..p + len] == all[..len] && data[p + len..p + |all|] == all[len..];
    }
  }

  /** Blocks are read back exactly when each of them is readable. */
  lemma {:induction false} BlocksRoundTrip(data: bytes, pos: nat, bs: seq<CarBlock>, acc: seq<CarBlock>)
    requires At(data, pos, BlocksBytes(bs)) && pos + |BlocksBytes(bs)| == |data|
    requires forall b :: b in bs ==> |b.cid| + |b.data| < TWO64
    ensures ReadBlocks(data, pos, acc) == Ok(acc + bs) <==> forall b :: b in bs ==> Readable(b)
    ensures ReadBlocks(data, pos, acc).Ok? ==> acc <= ReadBlocks(data, pos, acc).value
    decreases |bs|
  {
    hide At, ReadBlock, Readable, BlockBytes;
    if bs == [] {
      assert acc + bs == acc;
    } else {
      var b, rest := bs[0], bs[1..];
      assert bs == [b] + rest;
      AtSplit(data, pos, BlockBytes(b), BlocksBytes(rest));
      BlockAt(data, pos, b);
      BlockNotEmpty(b);
      if ReadBlock(data, pos).Ok? {
        var (c, next) := ReadBlock(data, pos).value;
        BlocksRoundTrip(data, next, rest, acc + [c]);
        Prepended(acc, c, b, rest, ReadBlocks(data, next, acc + [c]));
      }
    }
  }

  lemma BlockNotEmpty(b: CarBlock)
    ensures |BlockBytes(b)| > 0
  {
  }

  lemma Prepended(acc: seq<CarBlock>, c: CarBlock, b: CarBlock, rest: seq<CarBlock>, r: Result<seq<CarBlock>, CarError>)
    requires r.Ok? ==> acc + [c] <= r.value
    ensures r == Ok(acc + ([b] + rest)) <==> c == b && r == Ok((acc + [c]) + rest)
    ensures r.Ok? ==> acc <= r.value
  {
    if r == Ok(acc + ([b] + rest)) {
      assert (acc + [c])[|acc|] == r.value[|acc|] == b;
    }
    if c == b {
      Associate(acc, [c], rest);
    }
    if r.Ok? {
      assert (acc + [c])[..|acc|] == acc;
      assert acc == r.value[..|acc|];
    }
  }

  /** An archive decodes to its root and blocks exactly when the root is short and every block is readable. */
  lemma {:induction false} CarRoundTrip(utf8: bytes -> bool, root: Option<bytes>, bs: seq<CarBlock>)
    requires utf8(ROOTS) && utf8(VERSION) && |HeaderBytes(root)| < TWO64
    requires forall b :: b in bs ==> |b.cid| + |b.data| < TWO64
    ensures ReadCar(utf8, CarBytes(root, bs)) == Ok((RootList(root), bs))
      <==> ShortRoot(root) && forall b :: b in bs ==> Readable(b)
  {
    hide At, HeaderBytes, BlocksBytes, Varint.Encoding, Varint.ReadAt, ReadHeader, ReadBlocks, Readable;
    var data, h, body := CarBytes(root, bs), HeaderBytes(root), BlocksBytes(bs);
    AtWhole(data);
    AtSplit(data, 0, Varint.Encoding(|h|), h + body);
    Varint.RoundTrip(data, 0, |h|);
    var p := |Varint.Encoding(|h|)|;
    AtSplit(data, p, h, body);
    AtSlice(data, p, h);
    HeaderRoundTrip(utf8, root);
    BlocksRoundTrip(data, p + |h|, bs, []);
    assert [] + bs == bs;
  }
}
