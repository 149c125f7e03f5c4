/** Scanning byte streams for store path hashes, whole or chunk by chunk. */
module NixRefs {
  import opened Bytes
  import opened Lex

  const HASH_LEN: nat := 32

  /** The nix-base32 alphabet: digits and lower-case letters without e, o, t and u. */
  predicate Base32Byte(b: byte) {
    '0' as int <= b <= '9' as int || 'a' as int <= b <= 'd' as int || 'f' as int <= b <= 'n' as int
    || 'p' as int <= b <= 's' as int || 'v' as int <= b <= 'z' as int
  }

  /** Of digits and lower-case letters, all but four are in the alphabet; nothing else is. */
  lemma Alphabet(b: byte)
    ensures
      Base32Byte(b) <==>
      && ('0' as int <= b <= '9' as int || 'a' as int <= b <= 'z' as int)
      && b != 'e' as int && b != 'o' as int && b != 't' as int && b != 'u' as int
  {
  }

  /** What the scan can match: 32 bytes whose first and last are in the alphabet. */
  predicate Scannable(c: bytes) {
    |c| == HASH_LEN && Base32Byte(c[0]) && Base32Byte(c[HASH_LEN - 1])
  }

  ghost predicate OccursAt(data: bytes, c: bytes, p: int) {
    0 <= p <= |data| - HASH_LEN && data[p..p + HASH_LEN] == c
  }

  ghost predicate Occurs(data: bytes, c: bytes) {
    exists p :: OccursAt(data, c, p)
  }

  /** The candidates found in one buffer, in order and without repetition. */
  method ScanReferences(utf8: bytes -> bool, data: bytes, candidates: seq<bytes>) returns (result: seq<bytes>)
    requires forall c :: c in candidates ==> utf8(c)
    ensures Increasing(result)
    ensures forall c :: c in result <==> c in candidates && Scannable(c) && Occurs(data, c)
  {
    if candidates == [] || |data| < HASH_LEN {
      return [];
    }
    var found: set<bytes> := {};
    for start := 0 to |data| - HASH_LEN + 1
      invariant forall c :: c in found <==>
        c in candidates && Scannable(c) && exists p :: 0 <= p < start && OccursAt(data, c, p)
    {
      var window := data[start..start + HASH_LEN];
      assert OccursAt(data, window, start);
      if !Base32Byte(data[start]) || !Base32Byte(window[HASH_LEN - 1]) {
        continue;
      }
      if utf8(window) && window in candidates {
        found := found + {window};
      }
    }
    result := SortedKeys(found);
  }

  // ---- Chunks ----

  function Min(a: nat, b: nat): nat {
    if a < b then a else b
  }

  function TailLen(chunk: bytes): (n: nat)
    ensures n <= |chunk| && n < HASH_LEN && (n == 0 <==> chunk == [])
  {
    Min(|chunk|, HASH_LEN - 1)
  }

  function TailOf(chunk: bytes): bytes {
    chunk[|chunk| - TailLen(chunk)..]
  }

  /** The bytes scanned across a chunk boundary. */
  function Overlap(tail: bytes, chunk: bytes): bytes {
    if tail == [] || chunk == [] then [] else tail + chunk[..TailLen(chunk)]
  }

  method ScanChunk(utf8: bytes -> bool, chunk: bytes, tail: bytes, candidates: seq<bytes>)
    returns (found: seq<bytes>, newTail: bytes)
    requires forall c :: c in candidates ==> utf8(c)
    ensures Increasing(found) && newTail == TailOf(chunk)
    ensures forall c :: c in found <==>
      c in candidates && Scannable(c) && (Occurs(chunk, c) || Occurs(Overlap(tail, chunk), c))
  {
    hide Occurs, Scannable;
    var overlapFound: seq<bytes> := [];
    if tail != [] && chunk != [] {
      var take := Min(HASH_LEN - 1, |chunk|);
      overlapFound := ScanReferences(utf8, tail + chunk[..take], candidates);
    } else {
      NothingOccurs();
    }
    var mainFound := ScanReferences(utf8, chunk, candidates);
    found := SortDedup(mainFound + overlapFound);
    SortDedupKeeps(mainFound + overlapFound);
    newTail := chunk[|chunk| - Min(|chunk|, HASH_LEN - 1)..];
  }

  lemma NothingOccurs()
    ensures forall c :: !Occurs([], c)
  {
  }

  function TailBefore(chunks: seq<bytes>, i: nat): bytes
    requires i <= |chunks|
  {
    if i == 0 then [] else TailOf(chunks[i - 1])
  }

  ghost predicate FoundIn(chunks: seq<bytes>, i: nat, c: bytes)
    requires i < |chunks|
  {
    Occurs(chunks[i], c) || Occurs(Overlap(TailBefore(chunks, i), chunks[i]), c)
  }

  /** The union of the chunk results. */
  ghost predicate Found(chunks: seq<bytes>, c: bytes) {
    exists i :: 0 <= i < |chunks| && FoundIn(chunks, i, c)
  }

  method ScanStream(utf8: bytes -> bool, chunks: seq<bytes>, candidates: seq<bytes>) returns (found: set<bytes>)
    requires forall c :: c in candidates ==> utf8(c)
    ensures forall c :: c in found <==> c in candidates && Scannable(c) && Found(chunks, c)
  {
    hide Occurs, Scannable, Overlap;
    found := {};
    var tail: bytes := [];
    for i := 0 to |chunks|
      invariant tail == TailBefore(chunks, i)
      invariant forall c :: c in found <==>
        c in candidates && Scannable(c) && exists k :: 0 <= k < i && FoundIn(chunks, k, c)
    {
      var more;
      more, tail := ScanChunk(utf8, chunks[i], tail, candidates);
      assert forall c :: c in more <==> c in candidates && Scannable(c) && FoundIn(chunks, i, c);
      found := found + (set c | c in more);
    }
  }

  // ---- Positions in the stream ----

  function Offset(chunks: seq<bytes>, i: nat): nat
    requires i <= |chunks|
  {
    if i == 0 then 0 else Offset(chunks, i - 1) + |chunks[i - 1]|
  }

  lemma {:induction false} OffsetGrows(chunks: seq<bytes>, i: nat, j: nat)
    requires i <= j <= |chunks|
    ensures Offset(chunks, i) <= Offset(chunks, j)
    ensures i < j ==> Offset(chunks, i) + |chunks[i]| <= Offset(chunks, j)
    decreases j - i
  {
    if i < j {
      OffsetGrows(chunks, i, j - 1);
    }
  }

  lemma {:induction false} OffsetPrefix(chunks: seq<bytes>, n: nat, i: nat)
    requires i <= n <= |chunks|
    ensures Offset(chunks[..n], i) == Offset(chunks, i)
    decreases i
  {
    if i > 0 {
      OffsetPrefix(chunks, n, i - 1);
    }
  }

  /** Each chunk stands in the stream at its offset. */
  lemma {:induction false} ChunkAt(chunks: seq<bytes>, i: nat)
    requires i < |chunks|
    ensures |Concat(chunks)| == Offset(chunks, |chunks|)
    ensures Offset(chunks, i) + |chunks[i]| <= |Concat(chunks)|
    ensures Concat(chunks)[Offset(chunks, i)..Offset(chunks, i) + |chunks[i]|] == chunks[i]
    decreases |chunks|
  {
    var front, last := chunks[..|chunks| - 1], chunks[|chunks| - 1];
    OffsetPrefix(chunks, |chunks| - 1, |chunks| - 1);
    StreamLength(front);
    if i < |chunks| - 1 {
      ChunkAt(front, i);
      OffsetPrefix(chunks, |chunks| - 1, i);
      assert Concat(chunks)[..|Concat(front)|] == Concat(front);
    }
  }

  lemma {:induction false} StreamLength(chunks: seq<bytes>)
    ensures |Concat(chunks)| == Offset(chunks, |chunks|)
    decreases |chunks|
  {
    if chunks != [] {
      StreamLength(chunks[..|chunks| - 1]);
      OffsetPrefix(chunks, |chunks| - 1, |chunks| - 1);
    }
  }

  // ---- Which windows of the stream are scanned ----

  predicate InChunk(chunks: seq<bytes>, i: nat, p: int)
    requires i < |chunks|
  {
    Offset(chunks, i) <= p && p + HASH_LEN <= Offset(chunks, i) + |chunks[i]|
  }

  predicate InOverlap(chunks: seq<bytes>, i: nat, p: int)
    requires i < |chunks|
  {
    i > 0 && OverlapStart(chunks, i) <= p <= OverlapEnd(chunks, i) - HASH_LEN
  }

  predicate Scanned(chunks: seq<bytes>, i: nat, p: int)
    requires i < |chunks|
  {
    InChunk(chunks, i, p) || InOverlap(chunks, i, p)
  }

  ghost predicate Covered(chunks: seq<bytes>, p: int) {
    exists i :: 0 <= i < |chunks| && Scanned(chunks, i, p)
  }

  lemma SliceOccurs(stream: bytes, a: nat, b: nat, c: bytes)
    requires a <= b <= |stream|
    ensures Occurs(stream[a..b], c) <==> exists p :: a <= p <= b - HASH_LEN && OccursAt(stream, c, p)
  {
    var part := stream[a..b];
    if Occurs(part, c) {
      var q :| OccursAt(part, c, q);
      SubSlice(stream, a, b, q, q + HASH_LEN);
      assert OccursAt(stream, c, a + q);
    }
    if exists p :: a <= p <= b - HASH_LEN && OccursAt(stream, c, p) {
      var p :| a <= p <= b - HASH_LEN && OccursAt(stream, c, p);
      SubSlice(stream, a, b, p - a, p - a + HASH_LEN);
      assert OccursAt(part, c, p - a);
    }
  }

  /** The end of one slice and the start of the next are a slice. */
  lemma Across(s: bytes, at: nat, a: bytes, b: bytes)
    requires |a| <= at && at + |b| <= |s|
    requires s[at - |a|..at] == a && s[at..at + |b|] == b
    ensures TailOf(a) + b[..TailLen(b)] == s[at - TailLen(a)..at + TailLen(b)]
  {
    hide TailLen;
    var l, r := TailLen(a), TailLen(b);
    SubSlice(s, at - |a|, at, |a| - l, |a|);
    SubSlice(s, at, at + |b|, 0, r);
    Join(s, at - l, at, at + r);
  }

  function OverlapStart(chunks: seq<bytes>, i: nat): int
    requires 0 < i < |chunks|
  {
    Offset(chunks, i) - TailLen(chunks[i - 1])
  }

  function OverlapEnd(chunks: seq<bytes>, i: nat): int
    requires 0 < i < |chunks|
  {
    Offset(chunks, i) + TailLen(chunks[i])
  }

  lemma OverlapBounds(chunks: seq<bytes>, i: nat)
    requires 0 < i < |chunks|
    ensures |chunks[i - 1]| <= Offset(chunks, i) && Offset(chunks, i) + |chunks[i]| <= |Concat(chunks)|
    ensures Concat(chunks)[Offset(chunks, i) - |chunks[i - 1]|..Offset(chunks, i)] == chunks[i - 1]
    ensures Concat(chunks)[Offset(chunks, i)..Offset(chunks, i) + |chunks[i]|] == chunks[i]
    ensures 0 <= OverlapStart(chunks, i) <= OverlapEnd(chunks, i) <= |Concat(chunks)|
  {
    hide Concat, Offset, TailLen;
    ChunkAt(chunks, i - 1);
    ChunkAt(chunks, i);
    NextOffset(chunks, i - 1);
  }

  lemma OverlapOf(a: bytes, b: bytes)
    requires a != [] && b != []
    ensures Overlap(TailOf(a), b) == TailOf(a) + b[..TailLen(b)]
  {
    hide TailLen;
    assert |TailOf(a)| == TailLen(a);
  }

  lemma OverlapAt(chunks: seq<bytes>, i: nat)
    requires 0 < i < |chunks| && chunks[i - 1] != [] && chunks[i] != []
    ensures 0 <= OverlapStart(chunks, i) <= OverlapEnd(chunks, i) <= |Concat(chunks)|
    ensures Overlap(TailBefore(chunks, i), chunks[i]) == Concat(chunks)[OverlapStart(chunks, i)..OverlapEnd(chunks, i)]
  {
    hide Concat, Offset, TailLen, TailOf, Overlap;
    OverlapBounds(chunks, i);
    Across(Concat(chunks), Offset(chunks, i), chunks[i - 1], chunks[i]);
    OverlapOf(chunks[i - 1], chunks[i]);
  }

  lemma SubSlice(s: bytes, a: nat, b: nat, i: nat, j: nat)
    requires a <= b <= |s| && i <= j <= b - a
    ensures s[a..b][i..j] == s[a + i..a + j]
  {
    var x, y := s[a..b][i..j], s[a + i..a + j];
    assert |x| == |y| && forall k :: 0 <= k < |x| ==> x[k] == y[k];
  }

  lemma Join(s: bytes, a: nat, m: nat, b: nat)
    requires a <= m <= b <= |s|
    ensures s[a..m] + s[m..b] == s[a..b]
  {
  }

  lemma ChunkWindows(chunks: seq<bytes>, i: nat, c: bytes)
    requires i < |chunks|
    ensures Occurs(chunks[i], c) <==> exists p :: InChunk(chunks, i, p) && OccursAt(Concat(chunks), c, p)
  {
    hide Concat, Occurs, OccursAt, Offset;
    var stream, at := Concat(chunks), Offset(chunks, i);
    ChunkAt(chunks, i);
    SliceOccurs(stream, at, at + |chunks[i]|, c);
    assert forall p :: InChunk(chunks, i, p) <==> at <= p <= at + |chunks[i]| - HASH_LEN;
  }

  lemma {:induction false} OverlapWindows(chunks: seq<bytes>, i: nat, c: bytes)
    requires i < |chunks|
    ensures Occurs(Overlap(TailBefore(chunks, i), chunks[i]), c)
      <==> exists p :: InOverlap(chunks, i, p) && OccursAt(Concat(chunks), c, p)
  {
    hide Concat, Occurs, OccursAt, Offset, TailLen;
    NothingOccurs();
    if i > 0 && chunks[i - 1] != [] && chunks[i] != [] {
      OverlapAt(chunks, i);
      SliceOccurs(Concat(chunks), OverlapStart(chunks, i), OverlapEnd(chunks, i), c);
    }
  }

  /** A chunk's own results are the occurrences in the windows it scans. */
  lemma FoundInWindows(chunks: seq<bytes>, i: nat, c: bytes)
    requires i < |chunks|
    ensures FoundIn(chunks, i, c) <==> exists p :: Scanned(chunks, i, p) && OccursAt(Concat(chunks), c, p)
  {
    hide Concat, Occurs, OccursAt, InChunk, InOverlap, Overlap;
    ChunkWindows(chunks, i, c);
    OverlapWindows(chunks, i, c);
    if Occurs(chunks[i], c) {
      var p :| InChunk(chunks, i, p) && OccursAt(Concat(chunks), c, p);
      assert Scanned(chunks, i, p);
    }
    if Occurs(Overlap(TailBefore(chunks, i), chunks[i]), c) {
      var p :| InOverlap(chunks, i, p) && OccursAt(Concat(chunks), c, p);
      assert Scanned(chunks, i, p);
    }
  }

  /** Chunk by chunk, a candidate is found exactly when it occurs in a covered window: nothing else is reported. */
  lemma FoundIffCovered(chunks: seq<bytes>, c: bytes)
    ensures Found(chunks, c) <==> exists p :: Covered(chunks, p) && OccursAt(Concat(chunks), c, p)
    ensures Found(chunks, c) ==> Occurs(Concat(chunks), c)
  {
    hide FoundIn, OccursAt, Scanned, Concat;
    if Found(chunks, c) {
      var i :| 0 <= i < |chunks| && FoundIn(chunks, i, c);
      FoundInWindows(chunks, i, c);
      var p :| Scanned(chunks, i, p) && OccursAt(Concat(chunks), c, p);
      assert Covered(chunks, p);
    }
    if exists p :: Covered(chunks, p) && OccursAt(Concat(chunks), c, p) {
      var p :| Covered(chunks, p) && OccursAt(Concat(chunks), c, p);
      var i :| 0 <= i < |chunks| && Scanned(chunks, i, p);
      FoundInWindows(chunks, i, c);
    }
  }

  // ---- When every window is scanned ----

  /** A chunk with bytes on both sides has at least 31 of its own, unless the stream is shorter than a hash. */
  ghost predicate Wide(chunks: seq<bytes>) {
    Offset(chunks, |chunks|) < HASH_LEN
    || forall k :: 0 <= k < |chunks| ==>
         |chunks[k]| >= HASH_LEN - 1 || Offset(chunks, k) == 0
         || Offset(chunks, k) + |chunks[k]| == Offset(chunks, |chunks|)
  }

  lemma {:induction false} Locate(chunks: seq<bytes>, p: nat, n: nat) returns (i: nat)
    requires n <= |chunks| && p < Offset(chunks, n)
    ensures i < n && Offset(chunks, i) <= p < Offset(chunks, i) + |chunks[i]|
    decreases n
  {
    if p < Offset(chunks, n - 1) {
      i := Locate(chunks, p, n - 1);
    } else {
      i := n - 1;
    }
  }

  lemma {:induction false} WideCovers(chunks: seq<bytes>, p: nat)
    requires Wide(chunks) && p + HASH_LEN <= Offset(chunks, |chunks|)
    ensures Covered(chunks, p)
  {
    hide Offset, Scanned, Wide;
    var i := Locate(chunks, p, |chunks|);
    var j := Locate(chunks, p + HASH_LEN - 1, |chunks|);
    NextOffset(chunks, i);
    if j < i {
      OffsetGrows(chunks, j, i);
    } else if j == i {
      WindowInChunk(chunks, i, p);
    } else {
      OffsetGrows(chunks, i + 1, j);
      OffsetGrows(chunks, j, |chunks|);
      if j > i + 1 {
        MiddleChunk(chunks, i + 1);
      }
      WindowAcross(chunks, j, p);
    }
  }

  lemma MiddleChunk(chunks: seq<bytes>, k: nat)
    requires Wide(chunks) && k < |chunks| && Offset(chunks, |chunks|) >= HASH_LEN
    requires Offset(chunks, k) > 0 && Offset(chunks, k) + |chunks[k]| < Offset(chunks, |chunks|)
    ensures |chunks[k]| >= HASH_LEN - 1
  {
    hide Offset;
  }

  lemma WindowInChunk(chunks: seq<bytes>, i: nat, p: nat)
    requires i < |chunks| && Offset(chunks, i) <= p && p + HASH_LEN - 1 < Offset(chunks, i) + |chunks[i]|
    ensures Scanned(chunks, i, p)
  {
    hide Offset;
  }

  lemma WindowAcross(chunks: seq<bytes>, j: nat, p: nat)
    requires 0 < j < |chunks| && Offset(chunks, j - 1) <= p < Offset(chunks, j) <= p + HASH_LEN - 1
    requires p + HASH_LEN - 1 < Offset(chunks, j) + |chunks[j]|
    ensures Scanned(chunks, j, p)
  {
    hide Offset;
    NextOffset(chunks, j - 1);
  }

  lemma NextOffset(chunks: seq<bytes>, i: nat)
    requires i < |chunks|
    ensures Offset(chunks, i + 1) == Offset(chunks, i) + |chunks[i]|
  {
  }

  /** Around a short chunk with bytes on both sides lies a window that no scan sees. */
  lemma {:induction false} NarrowUncovers(chunks: seq<bytes>) returns (p: nat)
    requires !Wide(chunks)
    ensures p + HASH_LEN <= Offset(chunks, |chunks|) && !Covered(chunks, p)
  {
    hide Offset;
    var k :| 0 <= k < |chunks| && |chunks[k]| < HASH_LEN - 1 && Offset(chunks, k) > 0
      && Offset(chunks, k) + |chunks[k]| != Offset(chunks, |chunks|);
    NextOffset(chunks, k);
    OffsetGrows(chunks, k + 1, |chunks|);
    var end := Offset(chunks, k + 1) + 1;
    p := if end < HASH_LEN then 0 else end - HASH_LEN;
    forall i | 0 <= i < |chunks|
      ensures !Scanned(chunks, i, p)
    {
      NextOffset(chunks, i);
      if i <= k {
        OffsetGrows(chunks, i + 1, k + 1);
      } else {
        OffsetGrows(chunks, k, i - 1);
        NextOffset(chunks, i - 1);
      }
    }
  }

  // ---- A stream with one occurrence ----

  const LETTER_A: byte := 'a' as int
  const ZERO: byte := '0' as int
  const OUTSIDE: byte := '!' as int

  function Needle(): bytes {
    seq(HASH_LEN, i => if i == 0 then LETTER_A else ZERO)
  }

  function Haystack(n: nat, p: nat): bytes {
    seq(n, i => if i == p then LETTER_A else if p < i < p + HASH_LEN then ZERO else OUTSIDE)
  }

  lemma OnlyOccurrence(n: nat, p: nat, q: int)
    requires p + HASH_LEN <= n
    ensures OccursAt(Haystack(n, p), Needle(), q) <==> q == p
  {
    var s := Haystack(n, p);
    if OccursAt(s, Needle(), q) {
      assert s[q..q + HASH_LEN][0] == s[q];
    }
    assert s[p..p + HASH_LEN] == Needle();
  }

  /** A stream cut at the same places. */
  function Recut(chunks: seq<bytes>, stream: bytes): (r: seq<bytes>)
    requires |stream| == Offset(chunks, |chunks|)
    ensures |r| == |chunks|
  {
    seq(|chunks|, i requires 0 <= i < |chunks| =>
      OffsetGrows(chunks, i + 1, |chunks|);
      stream[Offset(chunks, i)..Offset(chunks, i) + |chunks[i]|])
  }

  ghost predicate SameLengths(a: seq<bytes>, b: seq<bytes>) {
    |a| == |b| && forall i :: 0 <= i < |a| ==> |a[i]| == |b[i]|
  }

  lemma {:induction false} SameOffsets(a: seq<bytes>, b: seq<bytes>, i: nat)
    requires SameLengths(a, b) && i <= |a|
    ensures Offset(a, i) == Offset(b, i)
    decreases i
  {
    if i > 0 {
      SameOffsets(a, b, i - 1);
    }
  }

  lemma SameCover(a: seq<bytes>, b: seq<bytes>, p: int)
    requires SameLengths(a, b)
    ensures Covered(a, p) <==> Covered(b, p)
  {
    hide Offset;
    forall i | 0 <= i < |a|
      ensures Scanned(a, i, p) <==> Scanned(b, i, p)
    {
      SameOffsets(a, b, i);
    }
  }

  lemma {:induction false} ConcatRecut(chunks: seq<bytes>, stream: bytes, n: nat)
    requires |stream| == Offset(chunks, |chunks|) && n <= |chunks|
    ensures Offset(chunks, n) <= |stream| && Concat(Recut(chunks, stream)[..n]) == stream[..Offset(chunks, n)]
    decreases n
  {
    hide Offset;
    OffsetGrows(chunks, n, |chunks|);
    NoOffset(chunks);
    if n > 0 {
      ConcatRecut(chunks, stream, n - 1);
      var r := Recut(chunks, stream);
      assert r[..n][..n - 1] == r[..n - 1];
      NextOffset(chunks, n - 1);
      Join(stream, 0, Offset(chunks, n - 1), Offset(chunks, n));
    }
  }

  lemma NoOffset(chunks: seq<bytes>)
    ensures Offset(chunks, 0) == 0
  {
  }

  /** With chunks of these lengths, a hash of the alphabet in some stream is missed. */
  lemma NarrowMisses(chunks: seq<bytes>) returns (ds: seq<bytes>, c: bytes)
    requires !Wide(chunks)
    ensures SameLengths(ds, chunks) && Scannable(c) && (forall i :: 0 <= i < |c| ==> Base32Byte(c[i]))
    ensures Occurs(Concat(ds), c) && !Found(ds, c)
  {
    hide Offset, Concat, Covered, OccursAt;
    var p := NarrowUncovers(chunks);
    var n := Offset(chunks, |chunks|);
    var stream := Haystack(n, p);
    ds, c := Recut(chunks, stream), Needle();
    forall i | 0 <= i < |chunks|
      ensures |ds[i]| == |chunks[i]|
    {
      NextOffset(chunks, i);
      OffsetGrows(chunks, i + 1, |chunks|);
    }
    ConcatRecut(chunks, stream, |chunks|);
    assert ds[..|chunks|] == ds && stream[..n] == stream;
    OnlyOccurrence(n, p, p);
    FoundIffCovered(ds, c);
    if Found(ds, c) {
      var q :| Covered(ds, q) && OccursAt(Concat(ds), c, q);
      OnlyOccurrence(n, p, q);
      SameCover(ds, chunks, p);
    }
  }

  /**
   * For chunks of given lengths, the chunked scan agrees with the whole scan on every stream and every candidate
   * exactly when the chunks are wide. It never reports what does not occur.
   */
  lemma ChunkedScanExact(chunks: seq<bytes>)
    ensures Wide(chunks) <==> forall ds, c :: SameLengths(ds, chunks) && Scannable(c) ==>
      (Found(ds, c) <==> Occurs(Concat(ds), c))
  {
    hide Found, Concat, Occurs, Scannable;
    if Wide(chunks) {
      forall ds, c | SameLengths(ds, chunks) && Scannable(c)
        ensures Found(ds, c) <==> Occurs(Concat(ds), c)
      {
        WideFinds(chunks, ds, c);
      }
    } else {
      var ds, c := NarrowMisses(chunks);
    }
  }

  lemma WideFinds(chunks: seq<bytes>, ds: seq<bytes>, c: bytes)
    requires Wide(chunks) && SameLengths(ds, chunks)
    ensures Found(ds, c) <==> Occurs(Concat(ds), c)
  {
    hide Offset, Concat, Covered, Found;
    FoundIffCovered(ds, c);
    if Occurs(Concat(ds), c) {
      var p :| OccursAt(Concat(ds), c, p);
      StreamLength(ds);
      SameOffsets(ds, chunks, |ds|);
      WideCovers(chunks, p);
      SameCover(ds, chunks, p);
    }
  }
}
