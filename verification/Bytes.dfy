/** Byte strings and the two result types every codec of the registry returns. */
module Bytes {

  type byte = x: int | 0 <= x < 256

  type bytes = seq<byte>

  /** The value range of the source's `u64` and 64-bit `usize`. */
  const TWO64: nat := 0x1_0000_0000_0000_0000
  const TWO32: nat := 0x1_0000_0000

  datatype Option<+T> = None | Some(value: T) {
    predicate IsFailure() {
      None?
    }

    function PropagateFailure<U>(): Option<U>
      requires None?
    {
      None
    }

    function Extract(): T
      requires Some?
    {
      value
    }
  }

  datatype Result<+T, +E> = Ok(value: T) | Err(error: E) {
    predicate IsFailure() {
      Err?
    }

    function PropagateFailure<U>(): Result<U, E>
      requires Err?
    {
      Err(error)
    }

    function Extract(): T
      requires Ok?
    {
      value
    }
  }

  /** `data` continues at `pos` with exactly the bytes of `part`. */
  predicate At(data: bytes, pos: nat, part: bytes) {
    pos + |part| <= |data| && data[pos..pos + |part|] == part
  }

  lemma AtSplit(data: bytes, pos: nat, a: bytes, b: bytes)
    ensures At(data, pos, a + b) <==> At(data, pos, a) && At(data, pos + |a|, b)
  {
    if At(data, pos, a + b) {
      assert data[pos..pos + |a|] == (a + b)[..|a|];
      assert data[pos + |a|..pos + |a| + |b|] == (a + b)[|a|..];
    }
    if At(data, pos, a) && At(data, pos + |a|, b) {
      assert data[pos..pos + |a + b|] == data[pos..pos + |a|] + data[pos + |a|..pos + |a| + |b|];
    }
  }

  lemma AtSlice(data: bytes, pos: nat, part: bytes)
    requires At(data, pos, part)
    ensures pos + |part| <= |data| && data[pos..pos + |part|] == part
  {
  }

  lemma AtHead(data: bytes, pos: nat, part: bytes)
    requires At(data, pos, part) && part != []
    ensures pos < |data| && data[pos] == part[0]
    ensures At(data, pos + 1, part[1..])
  {
    assert part == [part[0]] + part[1..];
    AtSplit(data, pos, [part[0]], part[1..]);
    assert data[pos..pos + 1][0] == data[pos];
  }

  lemma AtTag(data: bytes, pos: nat, tag: byte, rest: bytes)
    requires At(data, pos, [tag] + rest)
    ensures pos < |data| && data[pos] == tag && At(data, pos + 1, rest)
  {
    AtHead(data, pos, [tag] + rest);
    assert ([tag] + rest)[1..] == rest;
  }

  lemma AtWhole(data: bytes)
    ensures At(data, 0, data)
  {
    assert data[0..|data|] == data;
  }

  lemma LaterSeparator(sep: byte, a: bytes, x: bytes, b: bytes, y: bytes)
    requires a + [sep] + x == b + [sep] + y && |a| < |b|
    ensures sep in x
  {
    assert (b + [sep] + y)[|b|] == sep;
    assert (a + [sep] + x)[|b|] == x[|b| - |a| - 1];
  }

  /** A string splits at its last separator in one way only. */
  lemma LastSeparator(sep: byte, a: bytes, x: bytes, b: bytes, y: bytes)
    requires sep !in x && sep !in y && a + [sep] + x == b + [sep] + y
    ensures a == b && x == y
  {
    var s := a + [sep] + x;
    if |a| < |b| {
      LaterSeparator(sep, a, x, b, y);
    } else if |b| < |a| {
      LaterSeparator(sep, b, y, a, x);
    } else {
      assert s[..|a|] == a && (b + [sep] + y)[..|a|] == b;
      assert s[|a| + 1..] == x && (b + [sep] + y)[|a| + 1..] == y;
    }
  }

  lemma Associate<T>(a: seq<T>, b: seq<T>, c: seq<T>)
    ensures (a + b) + c == a + (b + c)
  {
  }

  /** No two of these inputs have the same hash. */
  ghost predicate CollisionFree(hash: bytes -> bytes, inputs: set<bytes>) {
    forall x, y :: x in inputs && y in inputs && hash(x) == hash(y) ==> x == y
  }

  predicate Ascending(s: seq<nat>) {
    forall i, j :: 0 <= i < j < |s| ==> s[i] < s[j]
  }

  predicate Distinct(s: seq<bytes>) {
    forall i, j :: 0 <= i < j < |s| ==> s[i] != s[j]
  }

  function Reversed(s: bytes): bytes {
    if s == [] then [] else Reversed(s[1..]) + [s[0]]
  }

  lemma {:induction false} ReversedAppend(s: bytes, b: byte)
    ensures Reversed(s + [b]) == [b] + Reversed(s)
    decreases |s|
  {
    if s == [] {
      assert Reversed([b]) == Reversed([b][1..]) + [b];
    } else {
      assert (s + [b])[1..] == s[1..] + [b];
      ReversedAppend(s[1..], b);
    }
  }

  function Concat(parts: seq<bytes>): bytes {
    if parts == [] then [] else Concat(parts[..|parts| - 1]) + parts[|parts| - 1]
  }

  lemma ConcatOne(parts: seq<bytes>, last: bytes)
    ensures Concat(parts + [last]) == Concat(parts) + last
  {
    assert (parts + [last])[..|parts|] == parts;
  }

  lemma {:induction false} ConcatSplit(a: seq<bytes>, b: seq<bytes>)
    ensures Concat(a + b) == Concat(a) + Concat(b)
    decreases |b|
  {
    if b == [] {
      assert a + b == a;
    } else {
      var front, last := b[..|b| - 1], b[|b| - 1];
      assert a + b == (a + front) + [last];
      ConcatOne(a + front, last);
      ConcatSplit(a, front);
    }
  }
}
