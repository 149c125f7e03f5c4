/** Finding the longest stretch of the base that continues the target: brute force, and the block index. */
module DeltaSearch {
  import opened Bytes

  const BLOCK_SIZE: nat := 16

  /** How long base at `off` and target at `pos` agree. */
  function MatchLen(base: bytes, target: bytes, off: nat, pos: nat): (n: nat)
    ensures n > 0 ==> off + n <= |base| && pos + n <= |target|
    decreases |base| - off
  {
    if off < |base| && pos < |target| && base[off] == target[pos]
    then 1 + MatchLen(base, target, off + 1, pos + 1)
    else 0
  }

  lemma {:induction false} MatchedBytes(base: bytes, target: bytes, off: nat, pos: nat, n: nat)
    requires off + n <= |base| && pos + n <= |target|
    ensures n <= MatchLen(base, target, off, pos) <==> base[off..off + n] == target[pos..pos + n]
    decreases n
  {
    if n > 0 {
      MatchedBytes(base, target, off + 1, pos + 1, n - 1);
      var a, b := base[off..off + n], target[pos..pos + n];
      assert a[1..] == base[off + 1..off + n] && b[1..] == target[pos + 1..pos + n];
      assert a == [base[off]] + a[1..] && b == [target[pos]] + b[1..];
    }
  }

  /** The longest match of at least a block among the first `n` offsets; the least offset if several. */
  function Search(base: bytes, target: bytes, pos: nat, n: nat): (r: Option<(nat, nat)>)
    ensures r.Some? ==> BLOCK_SIZE <= r.value.1 && pos + r.value.1 <= |target| && r.value.0 + r.value.1 <= |base|
  {
    if n == 0 then None
    else
      var before := Search(base, target, pos, n - 1);
      var len := MatchLen(base, target, n - 1, pos);
      if len >= BLOCK_SIZE && (before.None? || len > before.value.1) then Some((n - 1, len)) else before
  }

  function Longest(base: bytes, target: bytes, pos: nat): (r: Option<(nat, nat)>)
    ensures r.Some? ==> BLOCK_SIZE <= r.value.1 && pos + r.value.1 <= |target| && r.value.0 + r.value.1 <= |base|
  {
    Search(base, target, pos, |base|)
  }

  /** `r` is the best of the offsets below `n` that satisfy `considered`. */
  ghost predicate IsBest(base: bytes, target: bytes, pos: nat, considered: set<nat>, r: Option<(nat, nat)>) {
    match r
    case None => forall o :: o in considered ==> MatchLen(base, target, o, pos) < BLOCK_SIZE
    case Some((off, len)) =>
      && off in considered && MatchLen(base, target, off, pos) == len && len >= BLOCK_SIZE
      && forall o :: o in considered ==>
           MatchLen(base, target, o, pos) <= len && (o < off ==> MatchLen(base, target, o, pos) < len)
  }

  ghost function Below(n: nat): (s: set<nat>)
    ensures forall o: nat :: o in s <==> o < n
  {
    if n == 0 then {} else Below(n - 1) + {n - 1}
  }

  lemma {:induction false} SearchIsBest(base: bytes, target: bytes, pos: nat, n: nat)
    ensures IsBest(base, target, pos, Below(n), Search(base, target, pos, n))
  {
    if n > 0 {
      SearchIsBest(base, target, pos, n - 1);
    }
  }

  lemma BestIsUnique(base: bytes, target: bytes, pos: nat, s: set<nat>, a: Option<(nat, nat)>, b: Option<(nat, nat)>)
    requires IsBest(base, target, pos, s, a) && IsBest(base, target, pos, s, b)
    ensures a == b
  {
  }

  /** The property that matters to a reader: nothing in the whole base matches longer. */
  lemma LongestIsLongest(base: bytes, target: bytes, pos: nat)
    ensures IsBest(base, target, pos, Below(|base|), Longest(base, target, pos))
    ensures Longest(base, target, pos).None? <==> forall o: nat :: MatchLen(base, target, o, pos) < BLOCK_SIZE
  {
    SearchIsBest(base, target, pos, |base|);
    forall o: nat | Longest(base, target, pos).None?
      ensures MatchLen(base, target, o, pos) < BLOCK_SIZE
    {
      assert o in Below(|base|) || o >= |base|;
    }
    match Longest(base, target, pos)
    case None =>
    case Some((off, len)) => assert MatchLen(base, target, off, pos) == len;
  }

  // ---- The block index ----

  type Index = map<nat, seq<nat>>

  function Window(data: bytes, at: nat): bytes
    requires at + BLOCK_SIZE <= |data|
  {
    data[at..at + BLOCK_SIZE]
  }

  /** Every bucket lists, in increasing order, exactly the offsets below `n` with its fingerprint. */
  ghost predicate Indexed(index: Index, base: bytes, fingerprint: bytes -> nat, n: nat)
    requires n == 0 || n + BLOCK_SIZE - 1 <= |base|
  {
    Filed(index, base, fingerprint, n) && Sorted(index) && Listed(index, base, fingerprint, n)
  }

  /** Every filed position is below `n` and in the bucket of its fingerprint. */
  ghost predicate Filed(index: Index, base: bytes, fingerprint: bytes -> nat, n: nat)
    requires n == 0 || n + BLOCK_SIZE - 1 <= |base|
  {
    forall fp, j :: fp in index && 0 <= j < |index[fp]| ==>
      index[fp][j] < n && fingerprint(Window(base, index[fp][j])) == fp
  }

  ghost predicate Sorted(index: Index) {
    forall fp, i, j :: fp in index && 0 <= i < j < |index[fp]| ==> index[fp][i] < index[fp][j]
  }

  ghost predicate Listed(index: Index, base: bytes, fingerprint: bytes -> nat, n: nat)
    requires n == 0 || n + BLOCK_SIZE - 1 <= |base|
  {
    forall o: nat :: o < n ==> fingerprint(Window(base, o)) in index && o in index[fingerprint(Window(base, o))]
  }

  function Blocks(base: bytes): nat {
    if |base| >= BLOCK_SIZE then |base| - BLOCK_SIZE + 1 else 0
  }

  method BuildIndex(base: bytes, fingerprint: bytes -> nat) returns (index: Index)
    ensures Indexed(index, base, fingerprint, Blocks(base))
  {
    index := map[];
    for i := 0 to Blocks(base)
      invariant Indexed(index, base, fingerprint, i)
    {
      hide Filed, Sorted, Listed;
      var fp := fingerprint(base[i..i + BLOCK_SIZE]);
      FiledStep(index, base, fingerprint, i);
      ListedStep(index, base, fingerprint, i);
      var bucket := if fp in index then index[fp] else [];
      index := index[fp := bucket + [i]];
    }
  }

  function Add(index: Index, fp: nat, i: nat): Index {
    index[fp := (if fp in index then index[fp] else []) + [i]]
  }

  lemma FiledStep(index: Index, base: bytes, fingerprint: bytes -> nat, i: nat)
    requires i + BLOCK_SIZE <= |base| && Filed(index, base, fingerprint, i) && Sorted(index)
    ensures Filed(Add(index, fingerprint(Window(base, i)), i), base, fingerprint, i + 1)
    ensures Sorted(Add(index, fingerprint(Window(base, i)), i))
  {
  }

  lemma ListedStep(index: Index, base: bytes, fingerprint: bytes -> nat, i: nat)
    requires i + BLOCK_SIZE <= |base| && Listed(index, base, fingerprint, i)
    ensures Listed(Add(index, fingerprint(Window(base, i)), i), base, fingerprint, i + 1)
  {
    var next := Add(index, fingerprint(Window(base, i)), i);
    forall o: nat | o < i + 1
      ensures fingerprint(Window(base, o)) in next && o in next[fingerprint(Window(base, o))]
    {
    }
  }

  /** Extend a verified block match as far as it goes. */
  method Extend(base: bytes, target: bytes, off: nat, pos: nat) returns (len: nat)
    requires off + BLOCK_SIZE <= |base| && pos + BLOCK_SIZE <= |target|
    requires Window(base, off) == Window(target, pos)
    ensures len == MatchLen(base, target, off, pos) >= BLOCK_SIZE
  {
    len := BLOCK_SIZE;
    while off + len < |base| && pos + len < |target| && base[off + len] == target[pos + len]
      invariant off + len <= |base| && pos + len <= |target|
      invariant len >= BLOCK_SIZE && base[off..off + len] == target[pos..pos + len]
      decreases |base| - len
    {
      assert base[off..off + len + 1] == base[off..off + len] + [base[off + len]];
      assert target[pos..pos + len + 1] == target[pos..pos + len] + [target[pos + len]];
      len := len + 1;
    }
    MatchedBytes(base, target, off, pos, len);
    if MatchLen(base, target, off, pos) > len {
      MatchedBytes(base, target, off, pos, len + 1);
    }
  }

  /** An offset outside the target's bucket cannot match a whole block: its fingerprint would agree. */
  lemma OutsideBucket(base: bytes, target: bytes, pos: nat, fingerprint: bytes -> nat, index: Index, o: nat)
    requires Indexed(index, base, fingerprint, Blocks(base)) && pos + BLOCK_SIZE <= |target|
    requires MatchLen(base, target, o, pos) >= BLOCK_SIZE
    ensures
      var fp := fingerprint(Window(target, pos));
      fp in index && o in index[fp]
  {
    MatchedBytes(base, target, o, pos, BLOCK_SIZE);
    assert Window(base, o) == Window(target, pos);
  }

  /** Scan one bucket. */
  method ScanBucket(base: bytes, target: bytes, pos: nat, offsets: seq<nat>) returns (r: Option<(nat, nat)>)
    requires pos + BLOCK_SIZE <= |target|
    requires forall j :: 0 <= j < |offsets| ==> offsets[j] + BLOCK_SIZE <= |base|
    requires forall i, j :: 0 <= i < j < |offsets| ==> offsets[i] < offsets[j]
    ensures IsBest(base, target, pos, (set o | o in offsets), r)
  {
    var bestOffset, bestLen := 0, 0;
    for j := 0 to |offsets|
      invariant bestLen == 0 || bestLen >= BLOCK_SIZE
      invariant IsBest(base, target, pos, (set o | o in offsets[..j]),
                       if bestLen == 0 then None else Some((bestOffset, bestLen)))
    {
      var off := offsets[j];
      assert offsets[..j + 1] == offsets[..j] + [off];
      MatchedBytes(base, target, off, pos, BLOCK_SIZE);
      if base[off..off + BLOCK_SIZE] != target[pos..pos + BLOCK_SIZE] {
        continue;
      }
      var len := Extend(base, target, off, pos);
      if len > bestLen {
        bestLen, bestOffset := len, off;
      }
    }
    assert offsets[..|offsets|] == offsets;
    r := if bestLen >= BLOCK_SIZE then Some((bestOffset, bestLen)) else None;
  }

  /** Whatever the fingerprint function, the index finds what brute force finds. */
  method FindMatch(base: bytes, target: bytes, pos: nat, fingerprint: bytes -> nat, index: Index)
    returns (r: Option<(nat, nat)>)
    requires Indexed(index, base, fingerprint, Blocks(base))
    ensures r == Longest(base, target, pos)
  {
    LongestIsLongest(base, target, pos);
    if pos + BLOCK_SIZE > |target| {
      return None;
    }
    var fp := fingerprint(target[pos..pos + BLOCK_SIZE]);
    if fp !in index {
      forall o: nat | MatchLen(base, target, o, pos) >= BLOCK_SIZE
        ensures false
      {
        OutsideBucket(base, target, pos, fingerprint, index, o);
      }
      return None;
    }
    r := ScanBucket(base, target, pos, index[fp]);
    forall o: nat | o in Below(|base|) && o !in index[fp]
      ensures MatchLen(base, target, o, pos) < BLOCK_SIZE
    {
      if MatchLen(base, target, o, pos) >= BLOCK_SIZE {
        OutsideBucket(base, target, pos, fingerprint, index, o);
      }
    }
    BestIsUnique(base, target, pos, Below(|base|), r, Longest(base, target, pos));
  }
}
