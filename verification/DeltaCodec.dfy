/** The greedy delta encoder, and exactly when applying its output gives the target back. */
module DeltaCodec {
  import opened Bytes
  import Varint
  import opened DeltaFormat
  import opened DeltaSearch

  const MAX_INSERT: nat := 127

  datatype Op = Literal(b: byte) | Copy(off: nat, len: nat)

  /** At each position take the longest match of the whole base, or else one literal byte. */
  function Greedy(base: bytes, target: bytes, pos: nat): seq<Op>
    requires pos <= |target|
    decreases |target| - pos
  {
    if pos == |target| then []
    else
      match Longest(base, target, pos)
      case None => [Literal(target[pos])] + Greedy(base, target, pos + 1)
      case Some((off, len)) => [Copy(off, len)] + Greedy(base, target, pos + len)
  }

  /** Insert instructions for `buf`, at most 127 bytes each. */
  function Inserts(buf: bytes): bytes {
    if buf == [] then []
    else
      var n := if |buf| < MAX_INSERT then |buf| else MAX_INSERT;
      [n] + buf[..n] + Inserts(buf[n..])
  }

  /** The instruction bytes: literals gather in `buf`, which is flushed when full, before a copy and at the end. */
  function Emit(ops: seq<Op>, buf: bytes): bytes {
    if ops == [] then Inserts(buf)
    else
      match ops[0]
      case Literal(b) =>
        if |buf| + 1 == MAX_INSERT then Inserts(buf + [b]) + Emit(ops[1..], [])
        else Emit(ops[1..], buf + [b])
      case Copy(off, len) => Inserts(buf) + CopyCode(off, len) + Emit(ops[1..], [])
  }

  function Delta(base: bytes, target: bytes): bytes {
    Varint.Encoding(|base|) + Varint.Encoding(|target|) + Emit(Greedy(base, target, 0), [])
  }

  // ---- What the emitted bytes are read as ----

  ghost predicate Within(base: bytes, ops: seq<Op>) {
    forall i :: 0 <= i < |ops| && ops[i].Copy? ==> 0 < ops[i].len && ops[i].off + ops[i].len <= |base|
  }

  /** The bytes one operation contributes once its fields have gone through the copy encoding. */
  function Piece(base: bytes, op: Op): bytes
    requires op.Copy? ==> 0 < op.len && op.off + op.len <= |base|
  {
    match op
    case Literal(b) => [b]
    case Copy(off, len) =>
      DecodedSizeExact(len);
      base[DecodedOffset(off)..DecodedOffset(off) + DecodedSize(len)]
  }

  function Decoded(base: bytes, ops: seq<Op>): bytes
    requires Within(base, ops)
  {
    if ops == [] then [] else Piece(base, ops[0]) + Decoded(base, ops[1..])
  }

  lemma {:induction false} GreedyWithin(base: bytes, target: bytes, pos: nat)
    requires pos <= |target|
    ensures Within(base, Greedy(base, target, pos))
    decreases |target| - pos
  {
    if pos < |target| {
      match Longest(base, target, pos)
      case None => GreedyWithin(base, target, pos + 1);
      case Some((off, len)) => GreedyWithin(base, target, pos + len);
    }
  }

  lemma RunInserts(base: bytes, delta: bytes, pos: nat, out: bytes, buf: bytes)
    requires |buf| <= MAX_INSERT && At(delta, pos, Inserts(buf))
    ensures Run(base, delta, pos, out) == Run(base, delta, pos + |Inserts(buf)|, out + buf)
  {
    if buf == [] {
      assert out + buf == out;
    } else {
      assert buf[..|buf|] == buf && buf[|buf|..] == [];
      assert Inserts(buf) == [|buf|] + buf;
      RunInsert(base, delta, pos, out, buf);
    }
  }

  lemma {:induction false} RunEmitted(base: bytes, ops: seq<Op>, buf: bytes, delta: bytes, pos: nat, out: bytes)
    requires Within(base, ops) && |buf| < MAX_INSERT
    requires At(delta, pos, Emit(ops, buf)) && pos + |Emit(ops, buf)| == |delta|
    ensures Run(base, delta, pos, out) == Ok(out + buf + Decoded(base, ops))
    decreases |ops|
  {
    if ops == [] {
      RunInserts(base, delta, pos, out, buf);
      assert out + buf + Decoded(base, ops) == out + buf;
    } else {
      match ops[0] {
        case Literal(b) =>
          RunLiteral(base, ops, buf, delta, pos, out);
        case Copy(off, len) =>
          RunCopyOp(base, ops, buf, delta, pos, out);
      }
    }
  }

  lemma Regroup(a: bytes, b: bytes, c: bytes, d: bytes)
    ensures a + (b + c) + d == a + b + (c + d)
  {
  }

  lemma UnfoldDecoded(base: bytes, ops: seq<Op>)
    requires ops != [] && Within(base, ops)
    ensures Within(base, ops[1..])
    ensures Decoded(base, ops) == Piece(base, ops[0]) + Decoded(base, ops[1..])
    ensures ops[0].Literal? ==> Piece(base, ops[0]) == [ops[0].b]
  {
  }

  lemma RunLiteral(base: bytes, ops: seq<Op>, buf: bytes, delta: bytes, pos: nat, out: bytes)
    requires Within(base, ops) && |buf| < MAX_INSERT
    requires ops != [] && ops[0].Literal?
    requires At(delta, pos, Emit(ops, buf)) && pos + |Emit(ops, buf)| == |delta|
    ensures Run(base, delta, pos, out) == Ok(out + buf + Decoded(base, ops))
    decreases |ops|, 0
  {
    hide Run, CopyCode, Inserts, At, Within, Piece, Decoded;
    UnfoldDecoded(base, ops);
    var b, rest := ops[0].b, ops[1..];
    if |buf| + 1 == MAX_INSERT {
      AtSplit(delta, pos, Inserts(buf + [b]), Emit(rest, []));
      RunInserts(base, delta, pos, out, buf + [b]);
      RunEmitted(base, rest, [], delta, pos + |Inserts(buf + [b])|, out + (buf + [b]));
      assert out + (buf + [b]) + [] == out + (buf + [b]);
    } else {
      RunEmitted(base, rest, buf + [b], delta, pos, out);
    }
    Regroup(out, buf, [b], Decoded(base, rest));
  }

  lemma OffsetShrinks(off: nat)
    ensures DecodedOffset(off) <= off
  {
  }

  lemma RunCopyOp(base: bytes, ops: seq<Op>, buf: bytes, delta: bytes, pos: nat, out: bytes)
    requires Within(base, ops) && |buf| < MAX_INSERT
    requires ops != [] && ops[0].Copy?
    requires At(delta, pos, Emit(ops, buf)) && pos + |Emit(ops, buf)| == |delta|
    ensures Run(base, delta, pos, out) == Ok(out + buf + Decoded(base, ops))
    decreases |ops|, 0
  {
    hide Run, CopyCode, Inserts, DecodedSize, DecodedOffset;
    var off, len, rest := ops[0].off, ops[0].len, ops[1..];
    var flush, code := Inserts(buf), CopyCode(off, len);
    assert Emit(ops, buf) == flush + (code + Emit(rest, []));
    AtSplit(delta, pos, flush, code + Emit(rest, []));
    AtSplit(delta, pos + |flush|, code, Emit(rest, []));
    RunInserts(base, delta, pos, out, buf);
    DecodedSizeExact(len);
    var piece := Piece(base, ops[0]);
    assert DecodedOffset(off) <= off by {
      OffsetShrinks(off);
    }
    RunCopy(base, delta, pos + |flush|, out + buf, off, len);
    RunEmitted(base, rest, [], delta, pos + |flush| + |code|, out + buf + piece);
    assert out + buf + piece + [] + Decoded(base, rest) == out + buf + (piece + Decoded(base, rest));
  }

  lemma ApplyDecoded(base: bytes, target: bytes)
    requires |base| < TWO64 && |target| < TWO64
    requires Within(base, Greedy(base, target, 0))
    ensures
      var out := Decoded(base, Greedy(base, target, 0));
      Apply(base, Delta(base, target)) ==
      if |out| == |target| then Ok(out) else Err(ResultSizeMismatch(|target|, |out|))
  {
    hide Run, Emit, Greedy, Decoded, Varint.ReadAt, Varint.Encoding;
    var d, ops := Delta(base, target), Greedy(base, target, 0);
    var a, b, c := Varint.Encoding(|base|), Varint.Encoding(|target|), Emit(ops, []);
    assert d == a + (b + c);
    AtSplit(d, 0, a, b + c);
    AtSplit(d, |a|, b, c);
    Varint.RoundTrip(d, 0, |base|);
    Varint.RoundTrip(d, |a|, |target|);
    RunEmitted(base, ops, [], d, |a| + |b|, []);
    assert [] + [] + Decoded(base, ops) == Decoded(base, ops);
  }

  // ---- When that is the target ----

  /** The copy fields hold this match: 24 bits of size, and the 32-bit offset names the same bytes. */
  predicate Faithful(base: bytes, op: Op)
    requires op.Copy? ==> 0 < op.len && op.off + op.len <= |base|
  {
    op.Copy? ==>
      && op.len < COPY_SIZES
      && base[DecodedOffset(op.off)..DecodedOffset(op.off) + op.len] == base[op.off..op.off + op.len]
  }

  ghost predicate AllFaithful(base: bytes, ops: seq<Op>)
    requires Within(base, ops)
  {
    forall i :: 0 <= i < |ops| ==> Faithful(base, ops[i])
  }

  /** What one operation of the encoder stands for in the target. */
  lemma LongestStands(base: bytes, target: bytes, pos: nat)
    requires Longest(base, target, pos).Some?
    ensures
      var (off, len) := Longest(base, target, pos).value;
      base[off..off + len] == target[pos..pos + len]
  {
    LongestIsLongest(base, target, pos);
    var (off, len) := Longest(base, target, pos).value;
    MatchedBytes(base, target, off, pos, len);
  }

  lemma FaithfulTail(base: bytes, ops: seq<Op>)
    requires ops != [] && Within(base, ops)
    ensures Within(base, ops[1..])
    ensures AllFaithful(base, ops) <==> Faithful(base, ops[0]) && AllFaithful(base, ops[1..])
  {
    if Faithful(base, ops[0]) && AllFaithful(base, ops[1..]) {
      forall i | 0 <= i < |ops|
        ensures Faithful(base, ops[i])
      {
        if i > 0 {
          assert ops[1..][i - 1] == ops[i];
        }
      }
    }
  }

  /** A copy never decodes to more bytes than it stands for, and to as many only if its size fits. */
  lemma PieceOfCopy(base: bytes, op: Op)
    requires op.Copy? && 0 < op.len && op.off + op.len <= |base|
    ensures |Piece(base, op)| <= op.len
    ensures |Piece(base, op)| == op.len <==> op.len < COPY_SIZES
    ensures Faithful(base, op) <==> Piece(base, op) == base[op.off..op.off + op.len]
  {
    DecodedSizeExact(op.len);
  }

  lemma {:induction false} DecodedIsTarget(base: bytes, target: bytes, pos: nat)
    requires pos <= |target|
    requires Within(base, Greedy(base, target, pos))
    ensures |Decoded(base, Greedy(base, target, pos))| <= |target| - pos
    ensures AllFaithful(base, Greedy(base, target, pos)) <==> Decoded(base, Greedy(base, target, pos)) == target[pos..]
    decreases |target| - pos
  {
    hide Piece, Faithful;
    if pos < |target| {
      hide AllFaithful, Decoded;
      var ops := Greedy(base, target, pos);
      FaithfulTail(base, ops);
      match Longest(base, target, pos) {
        case None =>
          assert ops[1..] == Greedy(base, target, pos + 1);
          DecodedIsTarget(base, target, pos + 1);
          PieceOfLiteral(base, target, pos);
          FirstPiece(base, target, pos, ops, 1);
        case Some((off, len)) =>
          assert ops[1..] == Greedy(base, target, pos + len);
          DecodedIsTarget(base, target, pos + len);
          LongestStands(base, target, pos);
          PieceOfCopy(base, ops[0]);
          FirstPiece(base, target, pos, ops, len);
      }
    }
  }

  lemma PieceOfLiteral(base: bytes, target: bytes, pos: nat)
    requires pos < |target|
    ensures Faithful(base, Literal(target[pos]))
    ensures Piece(base, Literal(target[pos])) == target[pos..pos + 1]
  {
  }

  lemma {:induction false} FirstPiece(base: bytes, target: bytes, pos: nat, ops: seq<Op>, n: nat)
    requires pos + n <= |target| && ops != [] && Within(base, ops) && Within(base, ops[1..])
    requires AllFaithful(base, ops) <==> Faithful(base, ops[0]) && AllFaithful(base, ops[1..])
    requires |Piece(base, ops[0])| <= n && (Faithful(base, ops[0]) <==> Piece(base, ops[0]) == target[pos..pos + n])
    requires |Decoded(base, ops[1..])| <= |target| - pos - n
    requires AllFaithful(base, ops[1..]) <==> Decoded(base, ops[1..]) == target[pos + n..]
    ensures |Decoded(base, ops)| <= |target| - pos
    ensures AllFaithful(base, ops) <==> Decoded(base, ops) == target[pos..]
  {
    hide Piece, Faithful, AllFaithful;
    SplitEqual(Piece(base, ops[0]), Decoded(base, ops[1..]), target[pos..], n);
    assert target[pos..][..n] == target[pos..pos + n] && target[pos..][n..] == target[pos + n..];
  }

  /** Two parts that are no longer than the two parts of `whole` make it up only if they are those parts. */
  lemma SplitEqual(a: bytes, b: bytes, whole: bytes, n: nat)
    requires n <= |whole| && |a| <= n && |b| <= |whole| - n
    ensures a + b == whole <==> a == whole[..n] && b == whole[n..]
  {
    if a + b == whole {
      assert |a| == n;
      assert whole[..n] == (a + b)[..n] && whole[n..] == (a + b)[n..];
    }
    if a == whole[..n] && b == whole[n..] {
      assert whole == whole[..n] + whole[n..];
    }
  }

  /** The encoder's output applies back to the target if and only if every match it took is held by the copy fields. */
  lemma {:induction false} RoundTripExactly(base: bytes, target: bytes)
    requires |base| < TWO64 && |target| < TWO64
    ensures Within(base, Greedy(base, target, 0))
    ensures Apply(base, Delta(base, target)) == Ok(target) <==> AllFaithful(base, Greedy(base, target, 0))
  {
    GreedyWithin(base, target, 0);
    ApplyDecoded(base, target);
    DecodedIsTarget(base, target, 0);
    assert target[0..] == target;
  }

  /** No match the encoder takes is 16 MiB or longer. */
  ghost predicate ShortMatches(base: bytes, target: bytes) {
    AllShort(Greedy(base, target, 0))
  }

  ghost predicate AllShort(ops: seq<Op>) {
    forall op :: op in ops && op.Copy? ==> op.len < COPY_SIZES
  }

  lemma ShortTail(ops: seq<Op>)
    requires ops != []
    ensures
      AllShort(ops) <==> (ops[0].Copy? ==> ops[0].len < COPY_SIZES) && AllShort(ops[1..])
  {
    assert ops == [ops[0]] + ops[1..];
  }

  lemma NothingDecoded(base: bytes)
    ensures Decoded(base, []) == [] && AllShort([])
  {
  }

  /** Applying gives as many bytes as the target has only if every size fits its field. */
  lemma {:induction false} DecodedLength(base: bytes, target: bytes, pos: nat)
    requires pos <= |target|
    requires Within(base, Greedy(base, target, pos))
    ensures
      var ops := Greedy(base, target, pos);
      && |Decoded(base, ops)| <= |target| - pos
      && (|Decoded(base, ops)| == |target| - pos <==> AllShort(ops))
    decreases |target| - pos
  {
    hide Piece, AllShort, Decoded, Within;
    if pos == |target| {
      NothingDecoded(base);
    } else {
      var ops := Greedy(base, target, pos);
      ShortTail(ops);
      UnfoldDecoded(base, ops);
      match Longest(base, target, pos) {
        case None =>
          assert ops[1..] == Greedy(base, target, pos + 1);
          DecodedLength(base, target, pos + 1);
        case Some((off, len)) =>
          assert ops[1..] == Greedy(base, target, pos + len);
          DecodedLength(base, target, pos + len);
          PieceOfCopy(base, ops[0]);
      }
    }
  }

  /** With a base of at most 4 GiB, only the size matters: the round trip holds iff no match is 16 MiB or longer,
      and otherwise the reader refuses the delta. */
  lemma {:induction false} RoundTripIffShort(base: bytes, target: bytes)
    requires |base| <= COPY_OFFSETS && |target| < TWO64
    ensures Apply(base, Delta(base, target)) == Ok(target) <==> ShortMatches(base, target)
    ensures Apply(base, Delta(base, target)).Err? <==> !ShortMatches(base, target)
  {
    hide Apply, Delta, Greedy, Decoded;
    RoundTripExactly(base, target);
    ApplyDecoded(base, target);
    DecodedLength(base, target, 0);
    var ops := Greedy(base, target, 0);
    if ShortMatches(base, target) {
      forall i | 0 <= i < |ops|
        ensures Faithful(base, ops[i])
      {
        assert ops[i] in ops;
        assert ops[i].Copy? ==> DecodedOffset(ops[i].off) == ops[i].off;
      }
    }
  }

  /** Whatever base it is applied to, an encoded delta gives something of the target's length or an error. */
  lemma AppliedLength(base: bytes, other: bytes, target: bytes)
    requires |other| < TWO64 && |target| < TWO64
    ensures Apply(base, Delta(other, target)).Ok? ==> |Apply(base, Delta(other, target)).value| == |target|
  {
    hide Run, Varint.ReadAt, Varint.Encoding, Emit, Greedy, At;
    var a, b, c := Varint.Encoding(|other|), Varint.Encoding(|target|), Emit(Greedy(other, target, 0), []);
    var delta := Delta(other, target);
    AtWhole(delta);
    Associate(a, b, c);
    AtSplit(delta, 0, a, b + c);
    AtSplit(delta, |a|, b, c);
    Varint.RoundTrip(delta, 0, |other|);
    Varint.RoundTrip(delta, |a|, |target|);
  }

  lemma {:induction false} GreedyLengths(base: bytes, target: bytes, pos: nat)
    requires pos <= |target|
    ensures forall op :: op in Greedy(base, target, pos) && op.Copy? ==> op.len <= |base| && op.len <= |target|
    decreases |target| - pos
  {
    if pos < |target| {
      match Longest(base, target, pos)
      case None => GreedyLengths(base, target, pos + 1);
      case Some((off, len)) => GreedyLengths(base, target, pos + len);
    }
  }

  /** In particular for every target below 16 MiB, and for every base below 16 MiB. */
  lemma RoundTrip(base: bytes, target: bytes)
    requires |base| <= COPY_OFFSETS && |target| < TWO64
    requires |base| < COPY_SIZES || |target| < COPY_SIZES
    ensures Apply(base, Delta(base, target)) == Ok(target)
  {
    GreedyLengths(base, target, 0);
    RoundTripIffShort(base, target);
  }

  /** A target that the base starts with is one copy, and its delta takes at most 18 bytes. */
  lemma PrefixDelta(base: bytes, x: bytes)
    requires x <= base && BLOCK_SIZE <= |x| && |base| <= COPY_OFFSETS
    ensures Greedy(base, x, 0) == [Copy(0, |x|)]
    ensures |Delta(base, x)| <= 18
  {
    MatchedBytes(base, x, 0, 0, |x|);
    LongestIsLongest(base, x, 0);
    assert Longest(base, x, 0) == Some((0, |x|)) by {
      match Longest(base, x, 0)
      case None =>
      case Some((off, len)) => assert 0 in Below(|base|);
    }
    var ops := Greedy(base, x, 0);
    assert Greedy(base, x, |x|) == [];
    assert ops == [Copy(0, |x|)];
    assert Inserts([]) == [];
    assert ops[1..] == [];
    assert Emit(ops[1..], []) == [];
    assert |Emit(ops, [])| == |CopyCode(0, |x|)|;
    NonzeroShorter(CopyArgs(0, |x|));
    EncodingShort(|base|);
    EncodingShort(|x|);
  }

  /** The failing family: a target of 16 MiB or more that the base starts with is one copy too long, and its delta is
      kept. */
  lemma LargePrefix(base: bytes, x: bytes)
    requires x <= base && COPY_SIZES <= |x| && |base| <= COPY_OFFSETS
    ensures !ShortMatches(base, x) && Apply(base, Delta(base, x)).Err?
    ensures |Delta(base, x)| < |x| * 75 / 100
  {
    hide Apply, Delta, Greedy;
    PrefixDelta(base, x);
    assert Greedy(base, x, 0)[0] in Greedy(base, x, 0);
    RoundTripIffShort(base, x);
  }

  /** At its simplest: an object of 16 MiB or more against itself. */
  lemma LargeObjectAgainstItself(x: bytes)
    requires COPY_SIZES <= |x| <= COPY_OFFSETS
    ensures Apply(x, Delta(x, x)).Err?
    ensures |Delta(x, x)| < |x| * 75 / 100
  {
    LargePrefix(x, x);
  }

  lemma {:induction false} NonzeroShorter(args: bytes)
    ensures |Nonzero(args)| <= |args|
    decreases |args|
  {
    if args != [] {
      NonzeroShorter(args[1..]);
    }
  }

  lemma EncodingShort(v: nat)
    requires v <= COPY_OFFSETS
    ensures |Varint.Encoding(v)| <= 5
  {
    if v >= 128 {
      var v1 := v / 128;
      assert |Varint.Encoding(v)| == 1 + |Varint.Encoding(v1)|;
      if v1 >= 128 {
        var v2 := v1 / 128;
        assert |Varint.Encoding(v1)| == 1 + |Varint.Encoding(v2)|;
        if v2 >= 128 {
          var v3 := v2 / 128;
          assert |Varint.Encoding(v2)| == 1 + |Varint.Encoding(v3)|;
          if v3 >= 128 {
            assert v3 / 128 < 128;
          }
        }
      }
    }
  }
}
