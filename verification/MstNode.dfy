/** Nodes of the Merkle search tree and their CBOR form. */
module MstNode {
  import opened Bytes
  import opened Cbor

  const CID_LEN: nat := 36

  datatype Entry = Entry(prefixLen: nat, suffix: bytes, value: bytes, tree: Option<bytes>)

  datatype Node = Node(left: Option<bytes>, entries: seq<Entry>)

  datatype NodeError = Malformed(cause: CborError) | NotAMap | WrongCidLength

  const E: byte := 'e' as int
  const L: byte := 'l' as int
  const K: byte := 'k' as int
  const P: byte := 'p' as int
  const T: byte := 't' as int
  const V: byte := 'v' as int

  // ---- The printed form ----

  const ENTRY_MAP: byte := 0xA4
  const NODE_MAP: byte := 0xA2

  function Label(b: byte): bytes {
    TextItem([b])
  }

  function EntryBytes(e: Entry): bytes {
    [ENTRY_MAP] + (Label(K) + (BytesItem(e.suffix) + (Label(P) + (UintItem(e.prefixLen)
    + (Label(T) + (NullableCid(e.tree) + (Label(V) + CidItem(e.value))))))))
  }

  function EntriesBytes(es: seq<Entry>): bytes {
    if es == [] then [] else EntryBytes(es[0]) + EntriesBytes(es[1..])
  }

  function NodeBytes(n: Node): bytes {
    [NODE_MAP] + (Label(E) + (Head(MAJOR_ARRAY, |n.entries|)
    + (EntriesBytes(n.entries) + (Label(L) + NullableCid(n.left)))))
  }

  lemma {:induction false} EntriesBytesAppend(es: seq<Entry>, e: Entry)
    ensures EntriesBytes(es + [e]) == EntriesBytes(es) + EntryBytes(e)
  {
    hide EntryBytes;
    if es == [] {
      assert EntriesBytes([e]) == EntryBytes(e) + EntriesBytes([]) == EntryBytes(e);
    } else {
      EntriesBytesAppend(es[1..], e);
      assert (es + [e])[1..] == es[1..] + [e];
      Associate(EntryBytes(es[0]), EntriesBytes(es[1..]), EntryBytes(e));
    }
  }

  method EncodeEntry(e: Entry, buf: bytes) returns (out: bytes)
    ensures out == buf + EntryBytes(e)
  {
    hide Head, TextItem, BytesItem, UintItem, NullableCid, CidItem;
    out := buf + [ENTRY_MAP];
    out := out + Label(K) + BytesItem(e.suffix);
    out := out + Label(P) + UintItem(e.prefixLen);
    out := out + Label(T) + NullableCid(e.tree);
    out := out + Label(V) + CidItem(e.value);
  }

  method EncodeNode(n: Node) returns (out: bytes)
    ensures out == NodeBytes(n)
  {
    hide Head, TextItem, EntryBytes, NullableCid;
    out := [NODE_MAP] + Label(E) + Head(MAJOR_ARRAY, |n.entries|);
    ghost var front := out;
    var i := 0;
    while i < |n.entries|
      invariant 0 <= i <= |n.entries|
      invariant out == front + EntriesBytes(n.entries[..i])
    {
      EntriesBytesAppend(n.entries[..i], n.entries[i]);
      assert n.entries[..i] + [n.entries[i]] == n.entries[..i + 1];
      out := EncodeEntry(n.entries[i], out);
      i := i + 1;
    }
    assert n.entries[..i] == n.entries;
    out := out + Label(L) + NullableCid(n.left);
  }

  // ---- Reading ----

  function Lift<A>(r: Result<A, CborError>): Result<A, NodeError> {
    match r
    case Ok(v) => Ok(v)
    case Err(e) => Err(Malformed(e))
  }

  /** A map head; its argument is taken from the byte itself, whatever its size class. */
  function ReadMapHead(data: bytes, pos: nat): (r: Result<nat, NodeError>) {
    if pos >= |data| then Err(Malformed(Truncated))
    else if data[pos] / 32 != MAJOR_MAP then Err(NotAMap)
    else Ok(data[pos] % 32)
  }

  const NO_CID: bytes := [0, 0, 0, 0, 0, 0, 0, 0, 0, 0, 0, 0, 0, 0, 0, 0, 0, 0,
                          0, 0, 0, 0, 0, 0, 0, 0, 0, 0, 0, 0, 0, 0, 0, 0, 0, 0]
  const BLANK := Entry(0, [], NO_CID, None)

  /** One key of an entry map and its value. */
  function ReadField(utf8: bytes -> bool, data: bytes, pos: nat, acc: Entry): Result<(Entry, nat), NodeError> {
    var (key, p) :- Lift(ReadText(utf8, data, pos));
    if key == [P] then
      var (n, next) :- Lift(ReadHead(MAJOR_UINT, data, p));
      Ok((acc.(prefixLen := n), next))
    else if key == [K] then
      var (s, next) :- Lift(ReadString(MAJOR_BYTES, data, p));
      Ok((acc.(suffix := s), next))
    else if key == [V] then
      var (cid, next) :- Lift(ReadCid(data, p));
      if |cid| == CID_LEN then Ok((acc.(value := cid), next)) else Err(WrongCidLength)
    else if key == [T] then
      var (cid, next) :- Lift(ReadNullableCid(data, p));
      Ok((acc.(tree := if cid.Some? && |cid.value| == CID_LEN then cid else None), next))
    else
      var next :- Lift(Skip(data, p));
      Ok((acc, next))
  }

  function ReadFields(utf8: bytes -> bool, data: bytes, pos: nat, n: nat, acc: Entry): Result<(Entry, nat), NodeError>
    decreases n
  {
    if n == 0 then Ok((acc, pos))
    else
      var (acc', next) :- ReadField(utf8, data, pos, acc);
      ReadFields(utf8, data, next, n - 1, acc')
  }

  function ReadEntry(utf8: bytes -> bool, data: bytes, pos: nat): Result<(Entry, nat), NodeError> {
    var n :- ReadMapHead(data, pos);
    ReadFields(utf8, data, pos + 1, n, BLANK)
  }

  function ReadEntries(utf8: bytes -> bool, data: bytes, pos: nat, n: nat, acc: seq<Entry>)
    : Result<(seq<Entry>, nat), NodeError>
    decreases n
  {
    if n == 0 then Ok((acc, pos))
    else
      var (e, next) :- ReadEntry(utf8, data, pos);
      ReadEntries(utf8, data, next, n - 1, acc + [e])
  }

  function ReadNodeField(utf8: bytes -> bool, data: bytes, pos: nat, acc: Node): Result<(Node, nat), NodeError> {
    var (key, p) :- Lift(ReadText(utf8, data, pos));
    if key == [E] then
      var (n, q) :- Lift(ReadHead(MAJOR_ARRAY, data, p));
      var (es, next) :- ReadEntries(utf8, data, q, n, []);
      Ok((acc.(entries := es), next))
    else if key == [L] then
      var (cid, next) :- Lift(ReadNullableCid(data, p));
      Ok((acc.(left := cid), next))
    else
      var next :- Lift(Skip(data, p));
      Ok((acc, next))
  }

  function ReadNodeFields(utf8: bytes -> bool, data: bytes, pos: nat, n: nat, acc: Node): Result<Node, NodeError>
    decreases n
  {
    if n == 0 then Ok(acc)
    else
      var (acc', next) :- ReadNodeField(utf8, data, pos, acc);
      ReadNodeFields(utf8, data, next, n - 1, acc')
  }

  /** What decoding a block gives; bytes after the map are ignored. */
  function ReadNode(utf8: bytes -> bool, data: bytes): Result<Node, NodeError> {
    var n :- ReadMapHead(data, 0);
    ReadNodeFields(utf8, data, 1, n, Node(None, []))
  }

  method DecodeEntry(utf8: bytes -> bool, data: bytes, pos: nat) returns (r: Result<(Entry, nat), NodeError>)
    ensures r == ReadEntry(utf8, data, pos)
  {
    hide ReadField;
    var n :- ReadMapHead(data, pos);
    var acc, left := BLANK, n;
    var p: nat := pos + 1;
    while left > 0
      invariant ReadEntry(utf8, data, pos) == ReadFields(utf8, data, p, left, acc)
    {
      var step :- ReadField(utf8, data, p, acc);
      acc, p, left := step.0, step.1, left - 1;
    }
    r := Ok((acc, p));
  }

  method DecodeEntries(utf8: bytes -> bool, data: bytes, pos: nat, n: nat)
    returns (r: Result<(seq<Entry>, nat), NodeError>)
    ensures r == ReadEntries(utf8, data, pos, n, [])
  {
    hide ReadEntry;
    var acc: seq<Entry> := [];
    var p, left := pos, n;
    while left > 0
      invariant ReadEntries(utf8, data, pos, n, []) == ReadEntries(utf8, data, p, left, acc)
    {
      var step :- DecodeEntry(utf8, data, p);
      acc, p, left := acc + [step.0], step.1, left - 1;
    }
    r := Ok((acc, p));
  }

  method DecodeNode(utf8: bytes -> bool, data: bytes) returns (r: Result<Node, NodeError>)
    ensures r == ReadNode(utf8, data)
  {
    hide ReadText, ReadHead, ReadEntries, ReadNullableCid, Skip;
    var n :- ReadMapHead(data, 0);
    var acc, pos, fields := Node(None, []), 1, n;
    while fields > 0
      invariant ReadNode(utf8, data) == ReadNodeFields(utf8, data, pos, fields, acc)
    {
      var key :- Lift(ReadText(utf8, data, pos));
      if key.0 == [E] {
        var count :- Lift(ReadHead(MAJOR_ARRAY, data, key.1));
        var es :- DecodeEntries(utf8, data, count.1, count.0);
        acc, pos := acc.(entries := es.0), es.1;
      } else if key.0 == [L] {
        var cid :- Lift(ReadNullableCid(data, key.1));
        acc, pos := acc.(left := cid.0), cid.1;
      } else {
        pos :- Lift(Skip(data, key.1));
      }
      fields := fields - 1;
    }
    r := Ok(acc);
  }

  // ---- Round trips ----

  /** Single ASCII letters are text. */
  ghost predicate Letters(utf8: bytes -> bool) {
    forall b: byte :: b < 128 ==> utf8([b])
  }

  ghost predicate WellFormedEntry(e: Entry) {
    e.prefixLen < 0x1_0000 && |e.suffix| < 0x1_0000 && |e.value| == CID_LEN
    && (e.tree.Some? ==> |e.tree.value| == CID_LEN)
  }

  ghost predicate WellFormed(n: Node) {
    (forall e :: e in n.entries ==> WellFormedEntry(e))
    && (n.left.Some? ==> |n.left.value| == CID_LEN)
  }

  lemma LabelAt(utf8: bytes -> bool, data: bytes, pos: nat, b: byte, rest: bytes)
    requires utf8([b]) && At(data, pos, Label(b) + rest)
    ensures ReadText(utf8, data, pos) == Ok(([b], pos + |Label(b)|)) && At(data, pos + |Label(b)|, rest)
    ensures pos < |data| && data[pos] == 0x61
  {
    hide ReadText, At;
    AtSplit(data, pos, Label(b), rest);
    TextRoundTrip(utf8, [b], data, pos);
    AtHead(data, pos, Label(b));
  }

  lemma ReadK(utf8: bytes -> bool, data: bytes, pos: nat, acc: Entry, s: bytes, rest: bytes)
    requires Letters(utf8) && |s| < 0x1_0000 && At(data, pos, Label(K) + (BytesItem(s) + rest))
    ensures ReadField(utf8, data, pos, acc) == Ok((acc.(suffix := s), pos + |Label(K)| + |BytesItem(s)|))
    ensures At(data, pos + |Label(K)| + |BytesItem(s)|, rest)
  {
    hide At, ReadText, ReadString, Label;
    LabelAt(utf8, data, pos, K, BytesItem(s) + rest);
    AtSplit(data, pos + |Label(K)|, BytesItem(s), rest);
    StringRoundTrip(MAJOR_BYTES, s, data, pos + |Label(K)|);
  }

  lemma ReadP(utf8: bytes -> bool, data: bytes, pos: nat, acc: Entry, n: nat, rest: bytes)
    requires Letters(utf8) && n < 0x1_0000 && At(data, pos, Label(P) + (UintItem(n) + rest))
    ensures ReadField(utf8, data, pos, acc) == Ok((acc.(prefixLen := n), pos + |Label(P)| + |UintItem(n)|))
    ensures At(data, pos + |Label(P)| + |UintItem(n)|, rest)
  {
    hide At, ReadText, ReadHead, Head, Label;
    LabelAt(utf8, data, pos, P, UintItem(n) + rest);
    AtSplit(data, pos + |Label(P)|, UintItem(n), rest);
    HeadRoundTrip(MAJOR_UINT, n, data, pos + |Label(P)|);
  }

  lemma ReadT(utf8: bytes -> bool, data: bytes, pos: nat, acc: Entry, t: Option<bytes>, rest: bytes)
    requires Letters(utf8) && (t.Some? ==> |t.value| == CID_LEN)
    requires At(data, pos, Label(T) + (NullableCid(t) + rest))
    ensures ReadField(utf8, data, pos, acc) == Ok((acc.(tree := t), pos + |Label(T)| + |NullableCid(t)|))
    ensures At(data, pos + |Label(T)| + |NullableCid(t)|, rest)
  {
    hide At, ReadText, ReadNullableCid, NullableCid, Label;
    LabelAt(utf8, data, pos, T, NullableCid(t) + rest);
    AtSplit(data, pos + |Label(T)|, NullableCid(t), rest);
    NullableCidRoundTrip(t, data, pos + |Label(T)|);
  }

  lemma ReadV(utf8: bytes -> bool, data: bytes, pos: nat, acc: Entry, v: bytes)
    requires Letters(utf8) && |v| == CID_LEN && At(data, pos, Label(V) + CidItem(v))
    ensures ReadField(utf8, data, pos, acc) == Ok((acc.(value := v), pos + |Label(V)| + |CidItem(v)|))
  {
    hide At, ReadText, ReadCid, CidItem, Label;
    LabelAt(utf8, data, pos, V, CidItem(v));
    CidRoundTrip(v, data, pos + |Label(V)|);
  }

  lemma NextField(utf8: bytes -> bool, data: bytes, pos: nat, n: nat, acc: Entry, acc': Entry, next: nat)
    requires n > 0 && ReadField(utf8, data, pos, acc) == Ok((acc', next))
    ensures ReadFields(utf8, data, pos, n, acc) == ReadFields(utf8, data, next, n - 1, acc')
  {
    hide ReadField;
  }

  lemma EntryRoundTrip(utf8: bytes -> bool, e: Entry, data: bytes, pos: nat)
    requires Letters(utf8) && WellFormedEntry(e) && At(data, pos, EntryBytes(e))
    ensures ReadEntry(utf8, data, pos) == Ok((e, pos + |EntryBytes(e)|))
    ensures pos < |data| && data[pos] == ENTRY_MAP
  {
    hide At, ReadField, ReadFields, Label, BytesItem, UintItem, NullableCid, CidItem;
    var cv := Label(V) + CidItem(e.value);
    var ct := Label(T) + (NullableCid(e.tree) + cv);
    var cp := Label(P) + (UintItem(e.prefixLen) + ct);
    var ck := Label(K) + (BytesItem(e.suffix) + cp);
    AtTag(data, pos, ENTRY_MAP, ck);
    var p0 := pos + 1;
    ReadK(utf8, data, p0, BLANK, e.suffix, cp);
    var p1, a1 := p0 + |Label(K)| + |BytesItem(e.suffix)|, BLANK.(suffix := e.suffix);
    ReadP(utf8, data, p1, a1, e.prefixLen, ct);
    var p2, a2 := p1 + |Label(P)| + |UintItem(e.prefixLen)|, a1.(prefixLen := e.prefixLen);
    ReadT(utf8, data, p2, a2, e.tree, cv);
    var p3, a3 := p2 + |Label(T)| + |NullableCid(e.tree)|, a2.(tree := e.tree);
    ReadV(utf8, data, p3, a3, e.value);
    var p4 := p3 + |Label(V)| + |CidItem(e.value)|;
    NextField(utf8, data, p0, 4, BLANK, a1, p1);
    NextField(utf8, data, p1, 3, a1, a2, p2);
    NextField(utf8, data, p2, 2, a2, a3, p3);
    NextField(utf8, data, p3, 1, a3, e, p4);
    assert ReadFields(utf8, data, p4, 0, e) == Ok((e, p4)) by {
      FieldsDone(utf8, data, p4, e);
    }
  }

  lemma FieldsDone(utf8: bytes -> bool, data: bytes, pos: nat, acc: Entry)
    ensures ReadFields(utf8, data, pos, 0, acc) == Ok((acc, pos))
  {
  }

  /** Reading some of the entries gives those entries and stops before the next one. */
  lemma {:induction false} EntriesRoundTrip(utf8: bytes -> bool, es: seq<Entry>, k: nat, data: bytes, pos: nat,
      acc: seq<Entry>)
    requires Letters(utf8) && k <= |es| && (forall e :: e in es ==> WellFormedEntry(e))
    requires At(data, pos, EntriesBytes(es))
    ensures ReadEntries(utf8, data, pos, k, acc) == Ok((acc + es[..k], pos + |EntriesBytes(es[..k])|))
    ensures At(data, pos + |EntriesBytes(es[..k])|, EntriesBytes(es[k..]))
    decreases k
  {
    hide At, ReadEntry, ReadEntries, WellFormedEntry, EntryBytes;
    if k == 0 {
      NoEntries(utf8, data, pos, acc);
      assert es[..0] == [] && es[0..] == es && acc + es[..0] == acc;
    } else {
      AtSplit(data, pos, EntryBytes(es[0]), EntriesBytes(es[1..]));
      EntryRoundTrip(utf8, es[0], data, pos);
      NextEntry(utf8, data, pos, k, acc, es[0], pos + |EntryBytes(es[0])|);
      EntriesRoundTrip(utf8, es[1..], k - 1, data, pos + |EntryBytes(es[0])|, acc + [es[0]]);
      assert es[..k][1..] == es[1..][..k - 1] && es[k..] == es[1..][k - 1..];
      assert acc + [es[0]] + es[1..][..k - 1] == acc + es[..k];
    }
  }

  lemma NextEntry(utf8: bytes -> bool, data: bytes, pos: nat, n: nat, acc: seq<Entry>, e: Entry, next: nat)
    requires n > 0 && ReadEntry(utf8, data, pos) == Ok((e, next))
    ensures ReadEntries(utf8, data, pos, n, acc) == ReadEntries(utf8, data, next, n - 1, acc + [e])
  {
    hide ReadEntry;
  }

  lemma NoEntries(utf8: bytes -> bool, data: bytes, pos: nat, acc: seq<Entry>)
    ensures ReadEntries(utf8, data, pos, 0, acc) == Ok((acc, pos))
  {
  }

  lemma NotText(utf8: bytes -> bool, es: seq<Entry>, data: bytes, pos: nat)
    requires es != [] && At(data, pos, EntriesBytes(es))
    ensures ReadText(utf8, data, pos).Err?
  {
    hide At, Label, BytesItem, UintItem, NullableCid, CidItem;
    AtSplit(data, pos, EntryBytes(es[0]), EntriesBytes(es[1..]));
    var e := es[0];
    AtTag(data, pos, ENTRY_MAP, Label(K) + (BytesItem(e.suffix) + (Label(P) + (UintItem(e.prefixLen)
      + (Label(T) + (NullableCid(e.tree) + (Label(V) + CidItem(e.value))))))));
  }

  /** The parts of a printed node, where they stand. */
  lemma NodeParts(utf8: bytes -> bool, n: Node) returns (es: nat, l: nat)
    requires Letters(utf8) && WellFormed(n)
    ensures 0 < es && es + |EntriesBytes(n.entries)| == l
    ensures ReadMapHead(NodeBytes(n), 0) == Ok(2)
    ensures ReadText(utf8, NodeBytes(n), 1) == Ok(([E], 1 + |Label(E)|))
    ensures ReadHead(MAJOR_ARRAY, NodeBytes(n), 1 + |Label(E)|) == Ok((|n.entries| % 0x1_0000, es))
    ensures At(NodeBytes(n), es, EntriesBytes(n.entries))
    ensures At(NodeBytes(n), l, Label(L) + NullableCid(n.left))
  {
    hide At, Head, ReadHead, ReadText, Label, EntriesBytes, NullableCid, WellFormedEntry;
    var data := NodeBytes(n);
    var cl := Label(L) + NullableCid(n.left);
    var ce := EntriesBytes(n.entries) + cl;
    var h := Head(MAJOR_ARRAY, |n.entries|);
    AtWhole(data);
    AtTag(data, 0, NODE_MAP, Label(E) + (h + ce));
    LabelAt(utf8, data, 1, E, h + ce);
    var p := 1 + |Label(E)|;
    AtSplit(data, p, h, ce);
    HeadRoundTrip(MAJOR_ARRAY, |n.entries|, data, p);
    es := p + |h|;
    AtSplit(data, es, EntriesBytes(n.entries), cl);
    l := es + |EntriesBytes(n.entries)|;
  }

  lemma ReadLeft(utf8: bytes -> bool, data: bytes, pos: nat, acc: Node, left: Option<bytes>)
    requires Letters(utf8) && (left.Some? ==> |left.value| == CID_LEN)
    requires At(data, pos, Label(L) + NullableCid(left))
    ensures ReadNodeFields(utf8, data, pos, 1, acc) == Ok(acc.(left := left))
  {
    hide At, ReadText, ReadNullableCid, NullableCid, Label;
    LabelAt(utf8, data, pos, L, NullableCid(left));
    NullableCidRoundTrip(left, data, pos + |Label(L)|);
    var next := pos + |Label(L)| + |NullableCid(left)|;
    assert ReadNodeField(utf8, data, pos, acc) == Ok((acc.(left := left), next));
    assert ReadNodeFields(utf8, data, next, 0, acc.(left := left)) == Ok(acc.(left := left));
  }

  /** A node decodes to itself below 2^16 entries; at or above, decoding its block is an error. */
  lemma {:induction false} NodeRoundTrip(utf8: bytes -> bool, n: Node)
    requires Letters(utf8) && WellFormed(n)
    ensures |n.entries| < 0x1_0000 ==> ReadNode(utf8, NodeBytes(n)) == Ok(n)
    ensures |n.entries| >= 0x1_0000 ==> ReadNode(utf8, NodeBytes(n)).Err?
  {
    hide At, ReadText, ReadHead, ReadEntries, NodeBytes, EntriesBytes, WellFormedEntry, Label, ReadNodeFields;
    var data, blank := NodeBytes(n), Node(None, []);
    var count := |n.entries| % 0x1_0000;
    var es, l := NodeParts(utf8, n);
    EntriesRoundTrip(utf8, n.entries, count, data, es, []);
    var front, next := n.entries[..count], es + |EntriesBytes(n.entries[..count])|;
    assert [] + front == front;
    assert ReadNodeField(utf8, data, 1, blank) == Ok((Node(None, front), next));
    TwoFields(utf8, data, blank, Node(None, front), next);
    if |n.entries| < 0x1_0000 {
      assert front == n.entries;
      ReadLeft(utf8, data, l, Node(None, front), n.left);
    } else {
      NotText(utf8, n.entries[count..], data, next);
      NoField(utf8, data, next, Node(None, front));
    }
  }

  lemma TwoFields(utf8: bytes -> bool, data: bytes, acc: Node, acc': Node, next: nat)
    requires ReadNodeField(utf8, data, 1, acc) == Ok((acc', next))
    ensures ReadNodeFields(utf8, data, 1, 2, acc) == ReadNodeFields(utf8, data, next, 1, acc')
  {
    hide ReadNodeField;
  }

  lemma NoField(utf8: bytes -> bool, data: bytes, pos: nat, acc: Node)
    requires ReadText(utf8, data, pos).Err?
    ensures ReadNodeFields(utf8, data, pos, 1, acc).Err?
  {
    hide ReadText;
    assert ReadNodeField(utf8, data, pos, acc).Err?;
  }

  // ---- Different nodes print differently, whatever their number of entries ----

  lemma {:induction false} EntriesDiffer(es: seq<Entry>, fs: seq<Entry>, data: bytes, pos: nat, p: nat, q: nat)
    requires (forall e :: e in es ==> WellFormedEntry(e)) && (forall f :: f in fs ==> WellFormedEntry(f))
    requires At(data, pos, EntriesBytes(es)) && At(data, pos, EntriesBytes(fs))
    requires p == pos + |EntriesBytes(es)| && q == pos + |EntriesBytes(fs)|
    requires p < |data| && q < |data| && data[p] == data[q] == 0x61
    ensures es == fs
    decreases |es|
  {
    hide At, ReadEntry, WellFormedEntry, EntryBytes;
    var any := (_: bytes) => true;
    if es != [] {
      AtSplit(data, pos, EntryBytes(es[0]), EntriesBytes(es[1..]));
      EntryRoundTrip(any, es[0], data, pos);
    }
    if fs != [] {
      AtSplit(data, pos, EntryBytes(fs[0]), EntriesBytes(fs[1..]));
      EntryRoundTrip(any, fs[0], data, pos);
    }
    if es != [] && fs != [] {
      EntriesDiffer(es[1..], fs[1..], data, pos + |EntryBytes(es[0])|, p, q);
      assert es == [es[0]] + es[1..] && fs == [fs[0]] + fs[1..];
    }
  }

  lemma NodeBytesInjective(m: Node, n: Node)
    requires WellFormed(m) && WellFormed(n) && NodeBytes(m) == NodeBytes(n)
    ensures m == n
  {
    hide At, Head, ReadHead, ReadText, ReadNullableCid, NodeBytes, EntriesBytes, NullableCid, WellFormedEntry, Label;
    var any := (_: bytes) => true;
    var data := NodeBytes(m);
    var em, lm := NodeParts(any, m);
    var en, ln := NodeParts(any, n);
    LabelAt(any, data, lm, L, NullableCid(m.left));
    LabelAt(any, data, ln, L, NullableCid(n.left));
    EntriesDiffer(m.entries, n.entries, data, em, lm, ln);
    NullableCidRoundTrip(m.left, data, lm + |Label(L)|);
    NullableCidRoundTrip(n.left, data, ln + |Label(L)|);
  }
}
