/** What every well-encoded tree node means: fields in any order, repeated or unknown, and identifiers of any length. */
module NodeMeaning {
  import opened Bytes
  import opened Cbor
  import CborSkip
  import opened MstNode

  datatype EntryItem =
    | SuffixOf(suffix: bytes)
    | PrefixOf(prefixLen: nat)
    | TreeOf(tree: Option<bytes>)
    | ValueOf(value: bytes)
    | Unknown(key: bytes, content: CborSkip.Value)

  datatype NodeItem =
    | EntriesOf(entries: seq<seq<EntryItem>>)
    | LeftOf(left: Option<bytes>)
    | UnknownField(key: bytes, content: CborSkip.Value)

  // ---- Sizes and bytes ----

  ghost predicate KeyFits(utf8: bytes -> bool, key: bytes) {
    utf8(key) && |key| < 0x1_0000
  }

  ghost predicate ItemFits(utf8: bytes -> bool, item: EntryItem) {
    match item
    case SuffixOf(s) => |s| < 0x1_0000
    case PrefixOf(n) => n < 0x1_0000
    case TreeOf(t) => t.Some? ==> |t.value| < 0xFFFF
    case ValueOf(v) => |v| < 0xFFFF
    case Unknown(key, v) =>
      KeyFits(utf8, key) && key != [K] && key != [P] && key != [T] && key != [V] && CborSkip.WellFormed(v)
  }

  ghost predicate EntryFits(utf8: bytes -> bool, items: seq<EntryItem>) {
    |items| < 24 && forall item :: item in items ==> ItemFits(utf8, item)
  }

  ghost predicate FieldFits(utf8: bytes -> bool, item: NodeItem) {
    match item
    case EntriesOf(es) => |es| < 0x1_0000 && forall e :: e in es ==> EntryFits(utf8, e)
    case LeftOf(c) => c.Some? ==> |c.value| < 0xFFFF
    case UnknownField(key, v) => KeyFits(utf8, key) && key != [E] && key != [L] && CborSkip.WellFormed(v)
  }

  ghost function ItemBytes(utf8: bytes -> bool, item: EntryItem): bytes
    requires ItemFits(utf8, item)
  {
    match item
    case SuffixOf(s) => Label(K) + BytesItem(s)
    case PrefixOf(n) => Label(P) + Head(MAJOR_UINT, n)
    case TreeOf(t) => Label(T) + NullableCid(t)
    case ValueOf(v) => Label(V) + CidItem(v)
    case Unknown(key, v) => TextItem(key) + CborSkip.Encoded(v)
  }

  ghost function ItemsBytes(utf8: bytes -> bool, items: seq<EntryItem>): bytes
    requires forall item :: item in items ==> ItemFits(utf8, item)
  {
    if items == [] then [] else ItemBytes(utf8, items[0]) + ItemsBytes(utf8, items[1..])
  }

  ghost function EntryBytesOf(utf8: bytes -> bool, e: seq<EntryItem>): bytes
    requires EntryFits(utf8, e)
  {
    [0xA0 + |e|] + ItemsBytes(utf8, e)
  }

  ghost function AllEntries(utf8: bytes -> bool, es: seq<seq<EntryItem>>): bytes
    requires forall e :: e in es ==> EntryFits(utf8, e)
  {
    if es == [] then [] else assert es[0] in es; EntryBytesOf(utf8, es[0]) + AllEntries(utf8, es[1..])
  }

  ghost function FieldBytes(utf8: bytes -> bool, item: NodeItem): bytes
    requires FieldFits(utf8, item)
  {
    match item
    case EntriesOf(es) => Label(E) + (Head(MAJOR_ARRAY, |es|) + AllEntries(utf8, es))
    case LeftOf(c) => Label(L) + NullableCid(c)
    case UnknownField(key, v) => TextItem(key) + CborSkip.Encoded(v)
  }

  ghost function FieldsBytes(utf8: bytes -> bool, items: seq<NodeItem>): bytes
    requires forall item :: item in items ==> FieldFits(utf8, item)
  {
    if items == [] then [] else FieldBytes(utf8, items[0]) + FieldsBytes(utf8, items[1..])
  }

  // ---- Meaning ----

  /** A later field replaces an earlier one; a subtree of another length is none; a value of another length is an
      error. */
  function Filled(items: seq<EntryItem>, acc: Entry): Option<Entry>
    decreases |items|
  {
    if items == [] then Some(acc)
    else
      match items[0]
      case SuffixOf(s) => Filled(items[1..], acc.(suffix := s))
      case PrefixOf(n) => Filled(items[1..], acc.(prefixLen := n))
      case TreeOf(t) => Filled(items[1..], acc.(tree := if t.Some? && |t.value| == 36 then t else None))
      case ValueOf(v) => if |v| == 36 then Filled(items[1..], acc.(value := v)) else None
      case Unknown(_, _) => Filled(items[1..], acc)
  }

  function FilledAll(es: seq<seq<EntryItem>>, blank: Entry): Option<seq<Entry>> {
    if es == [] then Some([])
    else
      var e :- Filled(es[0], blank);
      var rest :- FilledAll(es[1..], blank);
      Some([e] + rest)
  }

  function Meaning(items: seq<NodeItem>, acc: Node): Option<Node>
    decreases |items|
  {
    if items == [] then Some(acc)
    else
      match items[0]
      case EntriesOf(es) =>
        var entries :- FilledAll(es, Entry(0, [], seq(36, _ => 0), None));
        Meaning(items[1..], acc.(entries := entries))
      case LeftOf(c) => Meaning(items[1..], acc.(left := c))
      case UnknownField(_, _) => Meaning(items[1..], acc)
  }

  function Read<A>(r: Result<A, NodeError>): Option<A> {
    if r.Ok? then Some(r.value) else None
  }

  // ---- Fields of an entry ----

  lemma TextKeyAt(utf8: bytes -> bool, data: bytes, pos: nat, key: bytes, rest: bytes)
    requires KeyFits(utf8, key) && At(data, pos, TextItem(key) + rest)
    ensures ReadText(utf8, data, pos) == Ok((key, pos + |TextItem(key)|)) && At(data, pos + |TextItem(key)|, rest)
  {
    hide ReadText, At, TextItem;
    AtSplit(data, pos, TextItem(key), rest);
    TextRoundTrip(utf8, key, data, pos);
  }

  lemma ItemAt(utf8: bytes -> bool, data: bytes, pos: nat, item: EntryItem, acc: Entry)
    requires Letters(utf8) && ItemFits(utf8, item) && At(data, pos, ItemBytes(utf8, item))
    ensures
      var next := pos + |ItemBytes(utf8, item)|;
      match item
      case SuffixOf(s) => ReadField(utf8, data, pos, acc) == Ok((acc.(suffix := s), next))
      case PrefixOf(n) => ReadField(utf8, data, pos, acc) == Ok((acc.(prefixLen := n), next))
      case TreeOf(t) =>
        ReadField(utf8, data, pos, acc) == Ok((acc.(tree := if t.Some? && |t.value| == 36 then t else None), next))
      case ValueOf(v) =>
        ReadField(utf8, data, pos, acc) == if |v| == 36 then Ok((acc.(value := v), next)) else Err(WrongCidLength)
      case Unknown(_, _) => ReadField(utf8, data, pos, acc) == Ok((acc, next))
  {
    hide At, ReadText, ReadString, ReadHead, ReadCid, ReadNullableCid, Skip, Label, Head, TextItem, BytesItem;
    hide NullableCid, CidItem, CborSkip.Encoded, CborSkip.WellFormed;
    match item {
      case SuffixOf(s) =>
        LabelAt(utf8, data, pos, K, BytesItem(s));
        BytesAt(s, data, pos + |Label(K)|);
      case PrefixOf(n) =>
        LabelAt(utf8, data, pos, P, Head(MAJOR_UINT, n));
        HeadRoundTrip(MAJOR_UINT, n, data, pos + |Label(P)|);
        assert n % 0x1_0000 == n;
      case TreeOf(t) =>
        LabelAt(utf8, data, pos, T, NullableCid(t));
        NullableCidRoundTrip(t, data, pos + |Label(T)|);
      case ValueOf(v) =>
        LabelAt(utf8, data, pos, V, CidItem(v));
        CidRoundTrip(v, data, pos + |Label(V)|);
      case Unknown(key, v) =>
        TextKeyAt(utf8, data, pos, key, CborSkip.Encoded(v));
        CborSkip.SkipExact(v, data, pos + |TextItem(key)|);
    }
  }

  lemma BytesAt(s: bytes, data: bytes, pos: nat)
    requires |s| < 0x1_0000 && At(data, pos, BytesItem(s))
    ensures ReadString(MAJOR_BYTES, data, pos) == Ok((s, pos + |BytesItem(s)|))
  {
    StringRoundTrip(MAJOR_BYTES, s, data, pos);
  }

  lemma {:induction false} ItemsAt(utf8: bytes -> bool, data: bytes, pos: nat, items: seq<EntryItem>, acc: Entry)
    requires Letters(utf8) && (forall item :: item in items ==> ItemFits(utf8, item))
    requires At(data, pos, ItemsBytes(utf8, items))
    ensures
      var r := Filled(items, acc);
      if r.None? then ReadFields(utf8, data, pos, |items|, acc).Err?
      else ReadFields(utf8, data, pos, |items|, acc) == Ok((r.value, pos + |ItemsBytes(utf8, items)|))
    decreases |items|
  {
    hide At, ReadField, ItemBytes, ItemFits, Letters;
    if items != [] {
      var item, rest := items[0], items[1..];
      assert item in items;
      AtSplit(data, pos, ItemBytes(utf8, item), ItemsBytes(utf8, rest));
      ItemAt(utf8, data, pos, item, acc);
      var r := ReadField(utf8, data, pos, acc);
      if r.Ok? {
        ItemsAt(utf8, data, r.value.1, rest, r.value.0);
      }
    }
  }

  lemma EntryAt(utf8: bytes -> bool, data: bytes, pos: nat, items: seq<EntryItem>)
    requires Letters(utf8) && EntryFits(utf8, items) && At(data, pos, EntryBytesOf(utf8, items))
    ensures
      var r := Filled(items, BLANK);
      if r.None? then ReadEntry(utf8, data, pos).Err?
      else ReadEntry(utf8, data, pos) == Ok((r.value, pos + |EntryBytesOf(utf8, items)|))
  {
    hide At, ReadFields, ItemsBytes, ItemFits, Filled;
    AtTag(data, pos, 0xA0 + |items|, ItemsBytes(utf8, items));
    ItemsAt(utf8, data, pos + 1, items, BLANK);
  }

  lemma {:induction false} EntriesAt(utf8: bytes -> bool, data: bytes, pos: nat, es: seq<seq<EntryItem>>,
                                     acc: seq<Entry>)
    requires Letters(utf8) && (forall e :: e in es ==> EntryFits(utf8, e)) && At(data, pos, AllEntries(utf8, es))
    ensures
      var r := FilledAll(es, BLANK);
      if r.None? then ReadEntries(utf8, data, pos, |es|, acc).Err?
      else ReadEntries(utf8, data, pos, |es|, acc) == Ok((acc + r.value, pos + |AllEntries(utf8, es)|))
    decreases |es|
  {
    hide At, ReadEntry, EntryFits, Filled, ItemsBytes, Letters;
    if es == [] {
      assert acc + [] == acc;
    } else {
      var e, rest := es[0], es[1..];
      assert e in es;
      var b := EntryBytesOf(utf8, e);
      AtSplit(data, pos, b, AllEntries(utf8, rest));
      EntryAt(utf8, data, pos, e);
      var r := Filled(e, BLANK);
      if r.Some? {
        EntriesAt(utf8, data, pos + |b|, rest, acc + [r.value]);
        var more := FilledAll(rest, BLANK);
        if more.Some? {
          assert (acc + [r.value]) + more.value == acc + ([r.value] + more.value);
        }
      }
    }
  }

  // ---- Fields of a node ----

  lemma FieldAt(utf8: bytes -> bool, data: bytes, pos: nat, item: NodeItem, acc: Node)
    requires Letters(utf8) && FieldFits(utf8, item) && At(data, pos, FieldBytes(utf8, item))
    ensures
      var r, next := ReadNodeField(utf8, data, pos, acc), pos + |FieldBytes(utf8, item)|;
      match item
      case EntriesOf(es) =>
        var entries := FilledAll(es, BLANK);
        if entries.None? then r.Err? else r == Ok((acc.(entries := entries.value), next))
      case LeftOf(c) => r == Ok((acc.(left := c), next))
      case UnknownField(_, _) => r == Ok((acc, next))
  {
    hide At, ReadText, ReadHead, ReadNullableCid, ReadEntries, Skip, Label, Head, TextItem, NullableCid, AllEntries;
    hide CborSkip.Encoded, CborSkip.WellFormed, FilledAll, EntryFits;
    match item {
      case EntriesOf(es) =>
        var h, b := Head(MAJOR_ARRAY, |es|), AllEntries(utf8, es);
        LabelAt(utf8, data, pos, E, h + b);
        AtSplit(data, pos + |Label(E)|, h, b);
        HeadRoundTrip(MAJOR_ARRAY, |es|, data, pos + |Label(E)|);
        assert |es| % 0x1_0000 == |es|;
        EntriesAt(utf8, data, pos + |Label(E)| + |h|, es, []);
        assert FilledAll(es, BLANK).Some? ==> [] + FilledAll(es, BLANK).value == FilledAll(es, BLANK).value;
      case LeftOf(c) =>
        LabelAt(utf8, data, pos, L, NullableCid(c));
        NullableCidRoundTrip(c, data, pos + |Label(L)|);
      case UnknownField(key, v) =>
        TextKeyAt(utf8, data, pos, key, CborSkip.Encoded(v));
        CborSkip.SkipExact(v, data, pos + |TextItem(key)|);
    }
  }

  lemma BlankEntry()
    ensures BLANK == Entry(0, [], seq(36, _ => 0), None)
  {
  }

  lemma {:induction false} FieldsAt(utf8: bytes -> bool, data: bytes, pos: nat, items: seq<NodeItem>, acc: Node)
    requires Letters(utf8) && (forall item :: item in items ==> FieldFits(utf8, item))
    requires At(data, pos, FieldsBytes(utf8, items))
    ensures Read(ReadNodeFields(utf8, data, pos, |items|, acc)) == Meaning(items, acc)
    decreases |items|
  {
    hide At, ReadNodeField, FieldBytes, FieldFits, FilledAll, Letters;
    if items != [] {
      var item, rest := items[0], items[1..];
      assert item in items;
      AtSplit(data, pos, FieldBytes(utf8, item), FieldsBytes(utf8, rest));
      FieldAt(utf8, data, pos, item, acc);
      BlankEntry();
      var r := ReadNodeField(utf8, data, pos, acc);
      if r.Ok? {
        FieldsAt(utf8, data, r.value.1, rest, r.value.0);
      }
    }
  }

  /** A block decodes to what its fields mean, taken in turn: unknown ones are passed over, later ones win, and a
      value that is no identifier is an error. Bytes after the map do not matter. */
  lemma NodeMeansFields(utf8: bytes -> bool, items: seq<NodeItem>, junk: bytes)
    requires Letters(utf8) && |items| < 24 && forall item :: item in items ==> FieldFits(utf8, item)
    ensures
      Read(ReadNode(utf8, [0xA0 + |items|] + (FieldsBytes(utf8, items) + junk))) == Meaning(items, Node(None, []))
  {
    hide At, ReadNodeFields, FieldsBytes, FieldFits, Meaning;
    var data := [0xA0 + |items|] + (FieldsBytes(utf8, items) + junk);
    AtWhole(data);
    AtTag(data, 0, 0xA0 + |items|, FieldsBytes(utf8, items) + junk);
    AtSplit(data, 1, FieldsBytes(utf8, items), junk);
    FieldsAt(utf8, data, 1, items, Node(None, []));
  }
}
