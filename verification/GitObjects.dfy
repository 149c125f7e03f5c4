/** Reading the references out of Git objects. */
module GitObjects {
  import opened Bytes
  import opened PackFormat
  import opened Graph

  /** How object ids become kappas: the label prefix, the raw hash length, and UTF-8 text with its ends trimmed. */
  datatype Format = Format(prefix: bytes, hashLen: nat, text: bytes -> Option<bytes>)

  const NEWLINE: byte := 10
  const COLON: byte := 0x3A
  const TREE_LINE: bytes := [0x74, 0x72, 0x65, 0x65, 0x20]
  const PARENT_LINE: bytes := [0x70, 0x61, 0x72, 0x65, 0x6E, 0x74, 0x20]
  const OBJECT_LINE: bytes := [0x6F, 0x62, 0x6A, 0x65, 0x63, 0x74, 0x20]

  function Label(fmt: Format, hex: bytes): Kappa {
    fmt.prefix + [COLON] + hex
  }

  function Labels(fmt: Format, oids: seq<bytes>): (ks: seq<Kappa>)
    ensures |ks| == |oids|
  {
    seq(|oids|, i requires 0 <= i < |oids| => Label(fmt, oids[i]))
  }

  function HexDigit(d: nat): byte
    requires d < 16
  {
    if d < 10 then 0x30 + d else 0x61 + d - 10
  }

  function Hex(raw: bytes): bytes {
    if raw == [] then [] else [HexDigit(raw[0] / 16), HexDigit(raw[0] % 16)] + Hex(raw[1..])
  }

  /** The first position from `pos` on that holds `b`, or the end. */
  function Find(content: bytes, pos: nat, b: byte): (end: nat)
    requires pos <= |content|
    ensures pos <= end <= |content|
    ensures end < |content| ==> content[end] == b
    ensures forall i :: pos <= i < end ==> content[i] != b
    decreases |content| - pos
  {
    if pos == |content| || content[pos] == b then pos else Find(content, pos + 1, b)
  }

  /** The reference a header line makes, if it starts with `tag`. */
  function LineRef(fmt: Format, line: bytes, tag: bytes): seq<Kappa> {
    if tag <= line then
      match fmt.text(line[|tag|..])
      case Some(hex) => [Label(fmt, hex)]
      case None => []
    else []
  }

  function HeaderRef(fmt: Format, line: bytes): seq<Kappa> {
    if TREE_LINE <= line then LineRef(fmt, line, TREE_LINE)
    else if PARENT_LINE <= line then LineRef(fmt, line, PARENT_LINE)
    else []
  }

  /** The tree and parent lines of a commit header; a blank line ends it. */
  function CommitRefs(fmt: Format, content: bytes, pos: nat): seq<Kappa>
    requires pos <= |content|
    decreases |content| - pos
  {
    var end := Find(content, pos, NEWLINE);
    var line := content[pos..end];
    var refs := HeaderRef(fmt, line);
    if line == [] || end == |content| then refs else refs + CommitRefs(fmt, content, end + 1)
  }

  /** Every object line of a tag, wherever it stands. */
  function TagRefs(fmt: Format, content: bytes, pos: nat): seq<Kappa>
    requires pos <= |content|
    decreases |content| - pos
  {
    var end := Find(content, pos, NEWLINE);
    var refs := LineRef(fmt, content[pos..end], OBJECT_LINE);
    if end == |content| then refs else refs + TagRefs(fmt, content, end + 1)
  }

  /** Tree entries: mode and name up to a NUL, then a raw hash. A short tail is ignored. */
  function TreeRefs(fmt: Format, content: bytes, pos: nat): seq<Kappa>
    requires pos <= |content|
    decreases |content| - pos
  {
    var nul := Find(content, pos, 0);
    if nul == |content| || nul + 1 + fmt.hashLen > |content| then []
    else
      var end := nul + 1 + fmt.hashLen;
      [Label(fmt, Hex(content[nul + 1..end]))] + TreeRefs(fmt, content, end)
  }

  function Children(fmt: Format, kind: Kind, content: bytes): seq<Kappa> {
    match kind
    case Commit => CommitRefs(fmt, content, 0)
    case Tree => TreeRefs(fmt, content, 0)
    case Tag => TagRefs(fmt, content, 0)
    case Blob => []
  }

  method ExtractChildren(fmt: Format, kind: Kind, content: bytes) returns (children: seq<Kappa>)
    ensures children == Children(fmt, kind, content)
  {
    children := [];
    match kind {
      case Commit => children := CommitLoop(fmt, content);
      case Tree => children := TreeLoop(fmt, content);
      case Tag => children := TagLoop(fmt, content);
      case Blob =>
    }
  }

  method CommitLoop(fmt: Format, content: bytes) returns (children: seq<Kappa>)
    ensures children == CommitRefs(fmt, content, 0)
  {
    hide Find, HeaderRef;
    children := [];
    var pos := 0;
    while true
      invariant 0 <= pos <= |content|
      invariant children + CommitRefs(fmt, content, pos) == CommitRefs(fmt, content, 0)
      decreases |content| - pos
    {
      var end := Find(content, pos, NEWLINE);
      var line := content[pos..end];
      children := children + HeaderRef(fmt, line);
      if line == [] || end == |content| {
        break;
      }
      pos := end + 1;
    }
  }

  method TagLoop(fmt: Format, content: bytes) returns (children: seq<Kappa>)
    ensures children == TagRefs(fmt, content, 0)
  {
    hide Find, LineRef;
    children := [];
    var pos := 0;
    while true
      invariant 0 <= pos <= |content|
      invariant children + TagRefs(fmt, content, pos) == TagRefs(fmt, content, 0)
      decreases |content| - pos
    {
      var end := Find(content, pos, NEWLINE);
      children := children + LineRef(fmt, content[pos..end], OBJECT_LINE);
      if end == |content| {
        break;
      }
      pos := end + 1;
    }
  }

  method TreeLoop(fmt: Format, content: bytes) returns (children: seq<Kappa>)
    ensures children == TreeRefs(fmt, content, 0)
  {
    hide Find, Label, Hex, TreeRefs;
    children := [];
    var pos := 0;
    while pos < |content|
      invariant 0 <= pos <= |content|
      invariant children + TreeRefs(fmt, content, pos) == TreeRefs(fmt, content, 0)
      decreases |content| - pos
    {
      var nul := Find(content, pos, 0);
      TreeStep(fmt, content, pos, children);
      if nul == |content| || nul + 1 + fmt.hashLen > |content| {
        return;
      }
      children := children + [Label(fmt, Hex(content[nul + 1..nul + 1 + fmt.hashLen]))];
      pos := nul + 1 + fmt.hashLen;
    }
    NoMoreEntries(fmt, content);
  }

  lemma TreeStep(fmt: Format, content: bytes, pos: nat, children: seq<Kappa>)
    requires pos < |content|
    ensures
      var nul := Find(content, pos, 0);
      var end := nul + 1 + fmt.hashLen;
      if nul == |content| || end > |content| then children + TreeRefs(fmt, content, pos) == children
      else
        children + TreeRefs(fmt, content, pos)
        == (children + [Label(fmt, Hex(content[nul + 1..end]))]) + TreeRefs(fmt, content, end)
  {
    hide Find, Label, Hex;
  }

  lemma NoMoreEntries(fmt: Format, content: bytes)
    ensures TreeRefs(fmt, content, |content|) == []
  {
  }

  // ---- What the readers recover ----

  datatype TreeEntry = TreeEntry(modeAndName: bytes, hash: bytes)

  predicate WellFormedEntry(fmt: Format, e: TreeEntry) {
    0 !in e.modeAndName && |e.hash| == fmt.hashLen
  }

  function TreeContent(entries: seq<TreeEntry>): bytes {
    if entries == [] then []
    else entries[0].modeAndName + [0] + entries[0].hash + TreeContent(entries[1..])
  }

  lemma FindAt(content: bytes, pos: nat, b: byte, end: nat)
    requires pos <= end < |content| && content[end] == b
    requires forall i :: pos <= i < end ==> content[i] != b
    ensures Find(content, pos, b) == end
  {
  }

  lemma NameEnds(content: bytes, pos: nat, name: bytes)
    requires 0 !in name && At(content, pos, name + [0])
    ensures pos + |name| < |content| && Find(content, pos, 0) == pos + |name|
  {
    hide Find;
    AtSplit(content, pos, name, [0]);
    AtHead(content, pos + |name|, [0]);
    forall i | pos <= i < pos + |name|
      ensures content[i] != 0
    {
      assert content[i] == content[pos..pos + |name|][i - pos];
    }
    FindAt(content, pos, 0, pos + |name|);
  }

  lemma FirstEntry(content: bytes, pos: nat, e: TreeEntry, rest: seq<TreeEntry>)
    requires At(content, pos, TreeContent([e] + rest))
    ensures
      var nul := pos + |e.modeAndName|;
      && At(content, pos, e.modeAndName + [0])
      && At(content, nul + 1, e.hash)
      && At(content, nul + 1 + |e.hash|, TreeContent(rest))
      && |TreeContent([e] + rest)| == |e.modeAndName| + 1 + |e.hash| + |TreeContent(rest)|
  {
    hide At;
    var es := [e] + rest;
    assert es[0] == e && es[1..] == rest;
    var name, tail := e.modeAndName + [0], TreeContent(rest);
    assert TreeContent(es) == name + e.hash + tail;
    AtSplit(content, pos, name + e.hash, tail);
    AtSplit(content, pos, name, e.hash);
  }

  /** The reader of a tree returns the hashes of its entries, in order, whatever bytes the hashes contain. */
  lemma {:induction false} TreeRoundTrip(fmt: Format, entries: seq<TreeEntry>, content: bytes, pos: nat)
    requires forall i :: 0 <= i < |entries| ==> WellFormedEntry(fmt, entries[i])
    requires At(content, pos, TreeContent(entries)) && pos + |TreeContent(entries)| == |content|
    ensures
      TreeRefs(fmt, content, pos) ==
      seq(|entries|, i requires 0 <= i < |entries| => Label(fmt, Hex(entries[i].hash)))
    decreases |entries|
  {
    hide Label, Hex, At, Find, TreeContent;
    if entries == [] {
      EmptyTree();
    } else {
      var e, rest := entries[0], entries[1..];
      assert entries == [e] + rest;
      FirstEntry(content, pos, e, rest);
      NameEnds(content, pos, e.modeAndName);
      var nul := pos + |e.modeAndName|;
      AtSlice(content, nul + 1, e.hash);
      TreeRoundTrip(fmt, rest, content, nul + 1 + fmt.hashLen);
    }
  }

  lemma EmptyTree()
    ensures TreeContent([]) == []
  {
  }

  /** The value of a lower-case hexadecimal digit. */
  function HexValue(b: byte): Option<nat> {
    if '0' as int <= b <= '9' as int then Some(b as int - '0' as int)
    else if 'a' as int <= b <= 'f' as int then Some(b as int - 'a' as int + 10)
    else None
  }

  /** Two lower-case digits for each byte, the high one first. */
  lemma {:induction false} HexExact(raw: bytes, i: nat)
    requires i < |raw|
    ensures |Hex(raw)| == 2 * |raw|
    ensures HexValue(Hex(raw)[2 * i]).Some? && HexValue(Hex(raw)[2 * i + 1]).Some?
    ensures 16 * HexValue(Hex(raw)[2 * i]).value + HexValue(Hex(raw)[2 * i + 1]).value == raw[i] as int
    decreases |raw|
  {
    if i > 0 {
      HexExact(raw[1..], i - 1);
    } else if |raw| > 1 {
      HexExact(raw[1..], 0);
    }
  }

  /** Labels are the prefix, a colon and the id, so under one prefix they name one id. */
  lemma LabelExact(fmt: Format, x: bytes, y: bytes)
    ensures Label(fmt, x)[..|fmt.prefix|] == fmt.prefix && Label(fmt, x)[|fmt.prefix|] == ':' as int
    ensures Label(fmt, x) == Label(fmt, y) <==> x == y
  {
    assert Label(fmt, x)[|fmt.prefix| + 1..] == x && Label(fmt, y)[|fmt.prefix| + 1..] == y;
  }

  // ---- What commits and tags refer to ----

  /** Lines, each ended by a newline. */
  function Lines(lines: seq<bytes>): bytes {
    if lines == [] then [] else lines[0] + ([NEWLINE] + Lines(lines[1..]))
  }

  /** The lines of a header from `pos` on, up to and including the first blank one. */
  function HeaderLines(content: bytes, pos: nat): seq<bytes>
    requires pos <= |content|
    decreases |content| - pos
  {
    var end := Find(content, pos, NEWLINE);
    var line := content[pos..end];
    if line == [] || end == |content| then [line] else [line] + HeaderLines(content, end + 1)
  }

  function LineRefs(fmt: Format, lines: seq<bytes>): seq<Kappa> {
    if lines == [] then [] else HeaderRef(fmt, lines[0]) + LineRefs(fmt, lines[1..])
  }

  lemma {:induction false} CommitRefsByLine(fmt: Format, content: bytes, pos: nat)
    requires pos <= |content|
    ensures CommitRefs(fmt, content, pos) == LineRefs(fmt, HeaderLines(content, pos))
    decreases |content| - pos
  {
    hide Find, HeaderRef;
    var end := Find(content, pos, NEWLINE);
    var line := content[pos..end];
    if line == [] || end == |content| {
      var one: seq<bytes> := [line];
      assert one[1..] == [];
      assert HeaderRef(fmt, line) + [] == HeaderRef(fmt, line);
    } else {
      CommitRefsByLine(fmt, content, end + 1);
      assert ([line] + HeaderLines(content, end + 1))[1..] == HeaderLines(content, end + 1);
    }
  }

  lemma LineEnds(content: bytes, pos: nat, line: bytes, rest: bytes)
    requires NEWLINE !in line && At(content, pos, line + ([NEWLINE] + rest))
    ensures pos + |line| < |content| && Find(content, pos, NEWLINE) == pos + |line|
    ensures content[pos..pos + |line|] == line && At(content, pos + |line| + 1, rest)
  {
    hide Find;
    AtSplit(content, pos, line, [NEWLINE] + rest);
    AtTag(content, pos + |line|, NEWLINE, rest);
    AtSlice(content, pos, line);
    forall i | pos <= i < pos + |line|
      ensures content[i] != NEWLINE
    {
      assert content[i] == content[pos..pos + |line|][i - pos];
    }
    FindAt(content, pos, NEWLINE, pos + |line|);
  }

  lemma LastLineEnds(content: bytes, pos: nat, line: bytes)
    requires NEWLINE !in line && At(content, pos, line) && pos + |line| == |content|
    ensures Find(content, pos, NEWLINE) == |content| && content[pos..] == line
  {
    hide Find;
    AtSlice(content, pos, line);
    assert forall i :: pos <= i < |content| ==> content[i] == content[pos..][i - pos];
  }

  predicate HeaderLine(line: bytes) {
    line != [] && NEWLINE !in line
  }

  lemma HeaderLinesStep(content: bytes, pos: nat, line: bytes, rest: bytes)
    requires HeaderLine(line) && At(content, pos, line + ([NEWLINE] + rest))
    ensures pos + |line| + 1 <= |content| && At(content, pos + |line| + 1, rest)
    ensures HeaderLines(content, pos) == [line] + HeaderLines(content, pos + |line| + 1)
  {
    hide At, Find;
    LineEnds(content, pos, line, rest);
  }

  lemma {:induction false} ReadLines(content: bytes, pos: nat, lines: seq<bytes>, tail: bytes)
    requires At(content, pos, Lines(lines) + tail) && forall l :: l in lines ==> HeaderLine(l)
    ensures pos + |Lines(lines)| <= |content| && At(content, pos + |Lines(lines)|, tail)
    ensures HeaderLines(content, pos) == lines + HeaderLines(content, pos + |Lines(lines)|)
    decreases |lines|
  {
    hide At, Find, HeaderLines, HeaderLine;
    AtSplit(content, pos, Lines(lines), tail);
    AtInside(content, pos + |Lines(lines)|, tail);
    if lines == [] {
      assert lines + HeaderLines(content, pos) == HeaderLines(content, pos);
    } else {
      var line, rest := lines[0], lines[1..];
      assert line in lines && lines == [line] + rest;
      assert Lines(lines) + tail == line + ([NEWLINE] + (Lines(rest) + tail));
      HeaderLinesStep(content, pos, line, Lines(rest) + tail);
      ReadLines(content, pos + |line| + 1, rest, tail);
    }
  }

  lemma AtInside(content: bytes, pos: nat, part: bytes)
    requires At(content, pos, part)
    ensures pos + |part| <= |content|
  {
  }

  /** Whatever follows the blank line is not looked at. */
  lemma HeaderThenBody(lines: seq<bytes>, body: bytes)
    requires forall l :: l in lines ==> HeaderLine(l)
    ensures HeaderLines(Lines(lines) + ([NEWLINE] + body), 0) == lines + [[]]
  {
    hide At, Find, HeaderLines, Lines, HeaderLine;
    var content := Lines(lines) + ([NEWLINE] + body);
    AtWhole(content);
    ReadLines(content, 0, lines, [NEWLINE] + body);
    BlankLine(content, |Lines(lines)|, body);
  }

  lemma BlankLine(content: bytes, pos: nat, body: bytes)
    requires At(content, pos, [NEWLINE] + body)
    ensures pos <= |content| && HeaderLines(content, pos) == [[]]
  {
    hide Find, At;
    AtTag(content, pos, NEWLINE, body);
    assert [] + ([NEWLINE] + body) == [NEWLINE] + body;
    LineEnds(content, pos, [], body);
  }

  /** A header that stops without a blank line. */
  lemma HeaderAlone(lines: seq<bytes>, last: bytes)
    requires (forall l :: l in lines ==> HeaderLine(l)) && NEWLINE !in last
    ensures HeaderLines(Lines(lines) + last, 0) == lines + [last]
  {
    hide At, Find, HeaderLines, Lines, HeaderLine;
    var content := Lines(lines) + last;
    AtWhole(content);
    ReadLines(content, 0, lines, last);
    LastLine(content, |Lines(lines)|, last);
  }

  lemma LastLine(content: bytes, pos: nat, last: bytes)
    requires NEWLINE !in last && At(content, pos, last) && pos + |last| == |content|
    ensures HeaderLines(content, pos) == [last]
  {
    hide Find, At;
    LastLineEnds(content, pos, last);
    assert content[pos..|content|] == content[pos..];
  }

  /** The lines of a commit header. */
  datatype HeaderItem = TreeItem(id: bytes) | ParentItem(id: bytes) | OtherItem(line: bytes)

  function ItemLine(item: HeaderItem): bytes {
    match item
    case TreeItem(id) => TREE_LINE + id
    case ParentItem(id) => PARENT_LINE + id
    case OtherItem(line) => line
  }

  function ItemLines(items: seq<HeaderItem>): seq<bytes> {
    if items == [] then [] else [ItemLine(items[0])] + ItemLines(items[1..])
  }

  /** The ids that the tree and parent lines name, in order. */
  function ItemIds(items: seq<HeaderItem>): seq<bytes> {
    if items == [] then [] else (if items[0].OtherItem? then [] else [items[0].id]) + ItemIds(items[1..])
  }

  function ParentIds(items: seq<HeaderItem>): seq<bytes> {
    if items == [] then [] else (if items[0].ParentItem? then [items[0].id] else []) + ParentIds(items[1..])
  }

  /** Ids are one-line text that trimming leaves alone; other lines do not start like a tree or parent line. */
  ghost predicate ItemFits(fmt: Format, item: HeaderItem) {
    match item
    case OtherItem(line) => HeaderLine(line) && !(TREE_LINE <= line) && !(PARENT_LINE <= line)
    case _ => IsId(fmt, item.id)
  }

  ghost predicate IsId(fmt: Format, x: bytes) {
    fmt.text(x) == Some(x) && NEWLINE !in x
  }

  ghost predicate ItemsFit(fmt: Format, items: seq<HeaderItem>) {
    forall item :: item in items ==> ItemFits(fmt, item)
  }

  lemma TagLines(tag: bytes, x: bytes)
    ensures tag <= tag + x && (tag + x)[|tag|..] == x
  {
  }

  lemma ParentIsNotTree(x: bytes)
    ensures !(TREE_LINE <= PARENT_LINE + x) && !(PARENT_LINE <= TREE_LINE + x)
  {
    assert (PARENT_LINE + x)[0] == 0x70 && (TREE_LINE + x)[0] == 0x74;
  }

  lemma ItemRef(fmt: Format, item: HeaderItem)
    requires ItemFits(fmt, item)
    ensures HeaderLine(ItemLine(item))
    ensures HeaderRef(fmt, ItemLine(item)) == if item.OtherItem? then [] else [Label(fmt, item.id)]
    ensures LineRef(fmt, ItemLine(item), PARENT_LINE) == if item.ParentItem? then [Label(fmt, item.id)] else []
  {
    hide Label;
    match item {
      case TreeItem(id) => TagLines(TREE_LINE, id); ParentIsNotTree(id);
      case ParentItem(id) => TagLines(PARENT_LINE, id); ParentIsNotTree(id);
      case OtherItem(_) =>
    }
  }

  lemma LabelsHead(fmt: Format, id: bytes, rest: seq<bytes>)
    ensures Labels(fmt, [id] + rest) == [Label(fmt, id)] + Labels(fmt, rest)
  {
  }

  lemma {:induction false} ItemLineRefs(fmt: Format, items: seq<HeaderItem>)
    requires ItemsFit(fmt, items)
    ensures LineRefs(fmt, ItemLines(items)) == Labels(fmt, ItemIds(items))
    ensures forall l :: l in ItemLines(items) ==> HeaderLine(l)
    decreases |items|
  {
    hide Label, HeaderRef, ItemLine, HeaderLine, ItemFits, Labels;
    if items == [] {
      assert Labels(fmt, []) == [];
    } else {
      var head, rest := items[0], items[1..];
      assert head in items;
      ItemRef(fmt, head);
      ItemLineRefs(fmt, rest);
      assert ItemLines(items)[1..] == ItemLines(rest);
      if head.OtherItem? {
        assert ItemIds(items) == ItemIds(rest);
      } else {
        LabelsHead(fmt, head.id, ItemIds(rest));
      }
    }
  }

  lemma {:induction false} LineRefsSplit(fmt: Format, a: seq<bytes>, b: seq<bytes>)
    ensures LineRefs(fmt, a + b) == LineRefs(fmt, a) + LineRefs(fmt, b)
    decreases |a|
  {
    hide HeaderRef;
    if a == [] {
      assert a + b == b;
    } else {
      assert (a + b)[1..] == a[1..] + b;
      LineRefsSplit(fmt, a[1..], b);
    }
  }

  lemma BlankRefersToNothing(fmt: Format, lines: seq<bytes>)
    ensures LineRefs(fmt, lines + [[]]) == LineRefs(fmt, lines)
  {
    var blank: seq<bytes> := [[]];
    assert blank[1..] == [];
    assert LineRefs(fmt, blank) == [];
    LineRefsSplit(fmt, lines, blank);
  }

  function CommitContent(items: seq<HeaderItem>, message: bytes): bytes {
    Lines(ItemLines(items)) + ([NEWLINE] + message)
  }

  /** A commit refers to what its tree and parent lines name, in order, whatever else its header and message say. */
  lemma CommitRoundTrip(fmt: Format, items: seq<HeaderItem>, message: bytes)
    requires ItemsFit(fmt, items)
    ensures Children(fmt, Commit, CommitContent(items, message)) == Labels(fmt, ItemIds(items))
  {
    hide HeaderLines, Lines, LineRefs, Labels, ItemsFit, HeaderLine, Find;
    ItemLineRefs(fmt, items);
    HeaderThenBody(ItemLines(items), message);
    CommitRefsByLine(fmt, CommitContent(items, message), 0);
    BlankRefersToNothing(fmt, ItemLines(items));
  }

  /** The same for a header that ends without a blank line, with or without a final newline. */
  lemma BareCommitRoundTrip(fmt: Format, items: seq<HeaderItem>)
    requires ItemsFit(fmt, items)
    ensures Children(fmt, Commit, Lines(ItemLines(items))) == Labels(fmt, ItemIds(items))
    ensures
      items != [] ==>
        var last := |items| - 1;
        Children(fmt, Commit, Lines(ItemLines(items[..last])) + ItemLine(items[last])) == Labels(fmt, ItemIds(items))
  {
    hide HeaderLines, Lines, LineRefs, Labels, HeaderLine, Find, ItemFits, ItemLine;
    ItemLineRefs(fmt, items);
    HeaderAlone(ItemLines(items), []);
    assert Lines(ItemLines(items)) + [] == Lines(ItemLines(items));
    CommitRefsByLine(fmt, Lines(ItemLines(items)), 0);
    BlankRefersToNothing(fmt, ItemLines(items));
    if items != [] {
      var front, last := items[..|items| - 1], items[|items| - 1];
      ItemLineRefs(fmt, front);
      ItemRef(fmt, last);
      OneLine(last);
      HeaderAlone(ItemLines(front), ItemLine(last));
      CommitRefsByLine(fmt, Lines(ItemLines(front)) + ItemLine(last), 0);
      ItemLinesFront(items);
    }
  }

  lemma OneLine(item: HeaderItem)
    requires HeaderLine(ItemLine(item))
    ensures NEWLINE !in ItemLine(item)
  {
  }

  lemma {:induction false} ItemLinesFront(items: seq<HeaderItem>)
    requires items != []
    ensures ItemLines(items) == ItemLines(items[..|items| - 1]) + [ItemLine(items[|items| - 1])]
    decreases |items|
  {
    hide ItemLine;
    if |items| > 1 {
      ItemLinesFront(items[1..]);
      assert items[1..][..|items| - 2] == items[..|items| - 1][1..];
    }
  }

  /** A tag: the object line, and then lines up to the end, the message included. */
  function TagContent(target: bytes, lines: seq<bytes>, last: bytes): bytes {
    Lines([OBJECT_LINE + target] + lines) + last
  }

  ghost predicate NamesObject(fmt: Format, line: bytes) {
    OBJECT_LINE <= line && fmt.text(line[|OBJECT_LINE|..]).Some?
  }

  ghost predicate NoneNames(fmt: Format, lines: seq<bytes>) {
    forall l :: l in lines ==> !NamesObject(fmt, l)
  }

  lemma NoneNamesHead(fmt: Format, line: bytes, rest: seq<bytes>)
    ensures NoneNames(fmt, [line] + rest) <==> !NamesObject(fmt, line) && NoneNames(fmt, rest)
  {
    hide NamesObject;
    assert forall l :: l in [line] + rest <==> l == line || l in rest;
    assert line in [line] + rest;
  }

  lemma {:induction false} TagLineRefs(fmt: Format, content: bytes, pos: nat, lines: seq<bytes>, last: bytes)
    requires At(content, pos, Lines(lines) + last) && pos + |Lines(lines) + last| == |content|
    requires (forall l :: l in lines ==> NEWLINE !in l) && NEWLINE !in last
    ensures TagRefs(fmt, content, pos) == [] <==> NoneNames(fmt, lines + [last])
    decreases |lines|
  {
    hide At, Find;
    if lines == [] {
      assert Lines(lines) + last == last;
      LastLineEnds(content, pos, last);
      assert content[pos..|content|] == content[pos..];
      assert lines + [last] == [last] + [];
      NoneNamesHead(fmt, last, []);
    } else {
      var line, rest := lines[0], lines[1..];
      assert line in lines && lines + [last] == [line] + (rest + [last]);
      assert Lines(lines) + last == line + ([NEWLINE] + (Lines(rest) + last));
      LineEnds(content, pos, line, Lines(rest) + last);
      TagLineRefs(fmt, content, pos + |line| + 1, rest, last);
      NoneNamesHead(fmt, line, rest + [last]);
    }
  }

  /** A tag refers to its target, and to nothing else iff no line of it after the first, message included, names one. */
  lemma TagRoundTrip(fmt: Format, target: bytes, lines: seq<bytes>, last: bytes)
    requires IsId(fmt, target) && (forall l :: l in lines ==> NEWLINE !in l) && NEWLINE !in last
    ensures
      var refs := Children(fmt, Tag, TagContent(target, lines, last));
      && refs != [] && refs[0] == Label(fmt, target)
      && (refs == [Label(fmt, target)] <==> NoneNames(fmt, lines + [last]))
  {
    hide At, Find, Label, NoneNames;
    var content, line, rest := TagContent(target, lines, last), OBJECT_LINE + target, Lines(lines) + last;
    assert ([line] + lines)[1..] == lines;
    assert content == line + ([NEWLINE] + rest);
    AtWhole(content);
    LineEnds(content, 0, line, rest);
    TagLines(OBJECT_LINE, target);
    TagLineRefs(fmt, content, |line| + 1, lines, last);
  }
}
