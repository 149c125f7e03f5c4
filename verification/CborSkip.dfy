/** Skipping the value of an unknown key passes exactly one value, however it is nested. */
module CborSkip {
  import opened Bytes
  import opened Cbor

  /** CBOR values by major type: numbers and simple values with the bytes of their argument, strings, arrays, maps (keys
      and values in turn), and tags. */
  datatype Value =
    | Atom(major: nat, additional: nat, argument: bytes)
    | Text(major: nat, content: bytes)
    | Array(items: Values)
    | Dict(items: Values)
    | Tag(additional: nat, argument: bytes, inner: Value)

  datatype Values = Nil | Cons(head: Value, tail: Values)

  function Count(vs: Values): nat {
    match vs
    case Nil => 0
    case Cons(_, tail) => 1 + Count(tail)
  }

  /** Heads with 16-bit lengths, as the repository writes and reads them. */
  predicate WellFormed(v: Value) {
    match v
    case Atom(major, additional, argument) =>
      (major == 0 || major == 1 || major == 7) && additional < 32 && |argument| == ArgumentWidth(additional)
    case Text(major, content) => (major == MAJOR_BYTES || major == MAJOR_TEXT) && |content| < 0x1_0000
    case Array(items) => Count(items) < 0x1_0000 && AllWellFormed(items)
    case Dict(items) => Count(items) < 0x2_0000 && Count(items) % 2 == 0 && AllWellFormed(items)
    case Tag(additional, argument, inner) =>
      additional < 32 && |argument| == ArgumentWidth(additional) && WellFormed(inner)
  }

  predicate AllWellFormed(vs: Values) {
    match vs
    case Nil => true
    case Cons(head, tail) => WellFormed(head) && AllWellFormed(tail)
  }

  function Encoded(v: Value): bytes
    requires WellFormed(v)
  {
    match v
    case Atom(major, additional, argument) => [32 * major + additional] + argument
    case Text(major, content) => Head(major, |content|) + content
    case Array(items) => Head(MAJOR_ARRAY, Count(items)) + EncodedAll(items)
    case Dict(items) => Head(MAJOR_MAP, Count(items) / 2) + EncodedAll(items)
    case Tag(additional, argument, inner) => [32 * 6 + additional] + (argument + Encoded(inner))
  }

  function EncodedAll(vs: Values): bytes
    requires AllWellFormed(vs)
  {
    match vs
    case Nil => []
    case Cons(head, tail) => Encoded(head) + EncodedAll(tail)
  }

  /** A head announces its argument to the skipping loop as it does to the reader. */
  lemma HeadAnnounces(major: nat, n: nat, data: bytes, pos: nat, rest: bytes)
    requires major < 8 && n < 0x1_0000 && At(data, pos, Head(major, n) + rest)
    ensures pos < |data| && data[pos] / 32 == major && At(data, pos + |Head(major, n)|, rest)
    ensures ReadLength(data[pos] % 32, data, pos + 1) == Ok((n, pos + |Head(major, n)|))
  {
    hide Head, At, ReadLength;
    AtSplit(data, pos, Head(major, n), rest);
    HeadRoundTrip(major, n, data, pos);
    assert n % 0x1_0000 == n;
  }

  /** One unfolding of the skipping function, by the head at `pos`. */
  lemma SkipAtHead(data: bytes, pos: nat, major: nat, additional: nat)
    requires pos < |data| && data[pos] / 32 == major && data[pos] % 32 == additional
    ensures
      var length := ReadLength(additional, data, pos + 1);
      && (major == 0 || major == 1 || major == 7 ==> Skip(data, pos) == Ok(pos + 1 + ArgumentWidth(additional)))
      && (major == 6 ==> Skip(data, pos) == SkipMany(data, pos + 1 + ArgumentWidth(additional), 1))
      && (length.Ok? && (major == 2 || major == 3) ==> Skip(data, pos) == Ok(length.value.1 + length.value.0))
      && (length.Ok? && major == 4 ==> Skip(data, pos) == SkipMany(data, length.value.1, length.value.0))
      && (length.Ok? && major == 5 ==> Skip(data, pos) == SkipMany(data, length.value.1, 2 * length.value.0))
  {
    hide ReadLength, SkipMany;
  }

  lemma HeadByteAt(data: bytes, pos: nat, major: nat, additional: nat, rest: bytes)
    requires major < 8 && additional < 32 && At(data, pos, [32 * major + additional] + rest)
    ensures pos < |data| && data[pos] / 32 == major && data[pos] % 32 == additional && At(data, pos + 1, rest)
  {
    hide At;
    AtTag(data, pos, 32 * major + additional, rest);
  }

  lemma SkipOne(data: bytes, pos: nat)
    ensures SkipMany(data, pos, 1) == Skip(data, pos)
  {
    hide Skip;
  }

  /** Past an array or map head, what follows is skipped value by value. */
  lemma SkipCounted(major: nat, n: nat, data: bytes, pos: nat, rest: bytes)
    requires (major == MAJOR_ARRAY || major == MAJOR_MAP) && n < 0x1_0000 && At(data, pos, Head(major, n) + rest)
    ensures At(data, pos + |Head(major, n)|, rest)
    ensures
      Skip(data, pos) == SkipMany(data, pos + |Head(major, n)|, if major == MAJOR_ARRAY then n else 2 * n)
  {
    hide At, Head, ReadLength, Skip, SkipMany;
    HeadAnnounces(major, n, data, pos, rest);
    SkipAtHead(data, pos, major, data[pos] % 32);
  }

  lemma SkipText(major: nat, content: bytes, data: bytes, pos: nat)
    requires (major == MAJOR_BYTES || major == MAJOR_TEXT) && |content| < 0x1_0000
    requires At(data, pos, Head(major, |content|) + content)
    ensures Skip(data, pos) == Ok(pos + |Head(major, |content|)| + |content|)
  {
    hide At, Head, ReadLength, Skip;
    HeadAnnounces(major, |content|, data, pos, content);
    SkipAtHead(data, pos, major, data[pos] % 32);
  }

  lemma {:induction false} SkipExact(v: Value, data: bytes, pos: nat)
    requires WellFormed(v) && At(data, pos, Encoded(v))
    ensures Skip(data, pos) == Ok(pos + |Encoded(v)|)
    decreases v
  {
    hide At, Head, ReadLength, Skip, SkipMany, ArgumentWidth, Count;
    match v
    case Atom(major, additional, argument) =>
      HeadByteAt(data, pos, major, additional, argument);
      SkipAtHead(data, pos, major, additional);
    case Text(major, content) =>
      SkipText(major, content, data, pos);
    case Array(items) =>
      SkipCounted(MAJOR_ARRAY, Count(items), data, pos, EncodedAll(items));
      SkipAllExact(items, data, pos + |Head(MAJOR_ARRAY, Count(items))|);
    case Dict(items) =>
      SkipCounted(MAJOR_MAP, Count(items) / 2, data, pos, EncodedAll(items));
      SkipAllExact(items, data, pos + |Head(MAJOR_MAP, Count(items) / 2)|);
    case Tag(additional, argument, inner) =>
      HeadByteAt(data, pos, 6, additional, argument + Encoded(inner));
      AtSplit(data, pos + 1, argument, Encoded(inner));
      SkipAtHead(data, pos, 6, additional);
      SkipExact(inner, data, pos + 1 + |argument|);
      SkipOne(data, pos + 1 + |argument|);
  }

  lemma {:induction false} SkipAllExact(vs: Values, data: bytes, pos: nat)
    requires AllWellFormed(vs) && At(data, pos, EncodedAll(vs))
    ensures SkipMany(data, pos, Count(vs)) == Ok(pos + |EncodedAll(vs)|)
    decreases vs
  {
    hide At, Skip;
    match vs
    case Nil =>
    case Cons(head, tail) =>
      AtSplit(data, pos, Encoded(head), EncodedAll(tail));
      SkipExact(head, data, pos);
      SkipAllExact(tail, data, pos + |Encoded(head)|);
  }
}
