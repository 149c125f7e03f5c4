/** The encoders of `delta.rs` and `ingest.rs`, as loops over growing buffers. */
module DeltaEncoder {
  import opened Bytes
  import opened Endian
  import Varint
  import opened DeltaFormat
  import opened DeltaSearch
  import opened DeltaCodec

  /** `delta.rs` keeps a delta that saves at least a quarter of the target. */
  function KeptDelta(base: bytes, target: bytes): Option<bytes> {
    if base == [] || |target| < BLOCK_SIZE then None
    else if |Delta(base, target)| >= |target| * 75 / 100 then None
    else Some(Delta(base, target))
  }

  /** `ingest.rs` keeps any delta that is shorter than the target. */
  function KeptPackDelta(base: bytes, target: bytes): Option<bytes> {
    if base == [] || |target| < 2 * BLOCK_SIZE then None
    else if |Delta(base, target)| < |target| then Some(Delta(base, target))
    else None
  }

  // ---- Inserts ----

  method FlushInserts(instructions: bytes, pending: bytes) returns (out: bytes, buf: bytes)
    ensures out == instructions + Inserts(pending) && buf == []
  {
    out, buf := instructions, pending;
    while buf != []
      invariant out + Inserts(buf) == instructions + Inserts(pending)
      decreases |buf|
    {
      var n := if |buf| < MAX_INSERT then |buf| else MAX_INSERT;
      assert out + Inserts(buf) == out + [n] + buf[..n] + Inserts(buf[n..]);
      out := out + [n] + buf[..n];
      buf := buf[n..];
    }
  }

  /** `ingest.rs` walks the buffer in chunks and clears it once at the end. */
  method FlushChunks(instructions: bytes, pending: bytes) returns (out: bytes, buf: bytes)
    ensures out == instructions + Inserts(pending) && buf == []
  {
    hide Inserts;
    out, buf := instructions, pending;
    var i := 0;
    assert buf[0..] == pending;
    while i < |buf|
      invariant 0 <= i <= |buf|
      invariant out + Inserts(buf[i..]) == instructions + Inserts(pending)
      decreases |buf| - i
    {
      var end := if i + MAX_INSERT <= |buf| then i + MAX_INSERT else |buf|;
      ChunkStep(buf, i, end, out);
      out := out + [end - i] + buf[i..end];
      i := end;
    }
    NoInserts(buf[i..]);
    buf := [];
  }

  lemma ChunkStep(buf: bytes, i: nat, end: nat, out: bytes)
    requires i < |buf| && end == if i + MAX_INSERT <= |buf| then i + MAX_INSERT else |buf|
    ensures out + Inserts(buf[i..]) == out + [end - i] + buf[i..end] + Inserts(buf[end..])
  {
    assert buf[i..][..end - i] == buf[i..end] && buf[i..][end - i..] == buf[end..];
  }

  lemma NoInserts(s: bytes)
    requires s == []
    ensures Inserts(s) == []
  {
  }

  // ---- Copies ----

  lemma LowDigits(v: nat)
    ensures Digits(v, 3) == [v % 0x100, v / 0x100 % 0x100, v / 0x1_0000 % 0x100]
    ensures Digits(v, 4) == Digits(v, 3) + [v / 0x100_0000 % 0x100]
  {
    assert v / 0x100 / 0x100 == v / 0x1_0000;
    assert v / 0x1_0000 / 0x100 == v / 0x100_0000;
    assert Digits(v / 0x1_0000, 2) == [v / 0x1_0000 % 0x100, v / 0x100_0000 % 0x100];
    assert Digits(v / 0x1_0000, 1) == [v / 0x1_0000 % 0x100];
  }

  lemma {:induction false} NonzeroAppend(args: bytes, b: byte)
    ensures Nonzero(args + [b]) == Nonzero(args) + if b != 0 then [b] else []
    decreases |args|
  {
    if args == [] {
      assert [] + [b] == [b];
    } else {
      assert (args + [b])[1..] == args[1..] + [b];
      NonzeroAppend(args[1..], b);
    }
  }

  method PutByte(cmd: nat, extra: bytes, b: byte, bit: nat, ghost args: bytes) returns (cmd': nat, extra': bytes)
    requires extra == Nonzero(args)
    ensures cmd' == cmd + Weight(b != 0, bit)
    ensures extra' == Nonzero(args + [b])
  {
    NonzeroAppend(args, b);
    cmd', extra' := cmd, extra;
    if b != 0 {
      cmd' := cmd + bit;
      extra' := extra + [b];
    }
  }

  /** Eight-bit slices of a 32-bit value that was cast down from a machine word. */
  lemma CastSlices(offset: nat, size: nat)
    ensures
      var off, sz := offset % TWO32, SizeField(size) % TWO32;
      CopyArgs(offset, size) ==
      [off % 0x100, off / 0x100 % 0x100, off / 0x1_0000 % 0x100, off / 0x100_0000 % 0x100,
       sz % 0x100, sz / 0x100 % 0x100, sz / 0x1_0000 % 0x100]
  {
    var off, field, sz := offset % TWO32, SizeField(size), SizeField(size) % TWO32;
    assert Pow256(2) == 0x1_0000 && Pow256(4) == TWO32;
    DigitsOfCast(offset, 4);
    DigitsOfCast(field, 4);
    LowDigits(off);
    LowDigits(sz);
    LowDigits(field);
    assert Digits(field, 3) == Digits(field, 4)[..3] == Digits(sz, 4)[..3] == Digits(sz, 3);
  }

  /** `delta.rs`: seven tests of 32-bit values. */
  method EmitCopy(instructions: bytes, offset: nat, size: nat) returns (out: bytes)
    ensures out == instructions + CopyCode(offset, size)
  {
    hide Weight, Nonzero, Digits;
    var off := offset % TWO32;
    var sz := (if size == 0x1_0000 then 0 else size) % TWO32;
    CastSlices(offset, size);
    ghost var a := CopyArgs(offset, size);
    var cmd, extra := PutOffset(off, a);
    cmd, extra := PutSize(cmd, extra, sz, a);
    assert cmd == Command(Written(a));
    out := instructions + [cmd] + extra;
    assert out == instructions + CopyCode(offset, size);
  }

  /** The command byte and the four offset bytes. */
  method PutOffset(off: nat, ghost a: bytes) returns (cmd: nat, extra: bytes)
    requires |a| == 7 && a[0] == off % 0x100 && a[1] == off / 0x100 % 0x100
    requires a[2] == off / 0x1_0000 % 0x100 && a[3] == off / 0x100_0000 % 0x100
    ensures cmd == 128 + Weight(a[0] != 0, 1) + Weight(a[1] != 0, 2) + Weight(a[2] != 0, 4) + Weight(a[3] != 0, 8)
    ensures extra == Nonzero(a[..4])
  {
    hide Weight, Nonzero;
    cmd, extra := PutByte(128, [], off % 0x100, 0x01, a[..0]) by { NonzeroOfNothing(); }
    assert a[..0] + [a[0]] == a[..1];
    cmd, extra := PutByte(cmd, extra, off / 0x100 % 0x100, 0x02, a[..1]);
    assert a[..1] + [a[1]] == a[..2];
    cmd, extra := PutByte(cmd, extra, off / 0x1_0000 % 0x100, 0x04, a[..2]);
    assert a[..2] + [a[2]] == a[..3];
    cmd, extra := PutByte(cmd, extra, off / 0x100_0000 % 0x100, 0x08, a[..3]);
    assert a[..3] + [a[3]] == a[..4];
  }

  /** The three size bytes, after the four of the offset. */
  method PutSize(cmd: nat, extra: bytes, sz: nat, ghost a: bytes) returns (cmd': nat, extra': bytes)
    requires |a| == 7 && extra == Nonzero(a[..4])
    requires a[4] == sz % 0x100 && a[5] == sz / 0x100 % 0x100 && a[6] == sz / 0x1_0000 % 0x100
    ensures cmd' == cmd + Weight(a[4] != 0, 16) + Weight(a[5] != 0, 32) + Weight(a[6] != 0, 64)
    ensures extra' == Nonzero(a)
  {
    hide Weight, Nonzero;
    cmd', extra' := PutByte(cmd, extra, sz % 0x100, 0x10, a[..4]);
    assert a[..4] + [a[4]] == a[..5];
    cmd', extra' := PutByte(cmd', extra', sz / 0x100 % 0x100, 0x20, a[..5]);
    assert a[..5] + [a[5]] == a[..6];
    cmd', extra' := PutByte(cmd', extra', sz / 0x1_0000 % 0x100, 0x40, a[..6]);
    assert a[..6] + [a[6]] == a;
  }

  lemma NonzeroOfNothing()
    ensures Nonzero([]) == []
  {
  }

  function PartialCommand(flags: seq<bool>, k: nat): nat
    requires k <= |flags| == 7
  {
    if k == 0 then 128 else PartialCommand(flags, k - 1) + Weight(flags[k - 1], ARGUMENT_BITS[k - 1])
  }

  lemma WholeCommand(flags: seq<bool>)
    requires |flags| == 7
    ensures PartialCommand(flags, 7) == Command(flags)
  {
    hide Weight;
    assert PartialCommand(flags, 1) == 128 + Weight(flags[0], 1);
    assert PartialCommand(flags, 2) == 128 + Weight(flags[0], 1) + Weight(flags[1], 2);
    assert PartialCommand(flags, 4) == PartialCommand(flags, 2) + Weight(flags[2], 4) + Weight(flags[3], 8);
    assert PartialCommand(flags, 6) == PartialCommand(flags, 4) + Weight(flags[4], 16) + Weight(flags[5], 32);
  }

  /** The digits of one field, written as arguments `from .. to`. */
  method PutDigits(cmd: nat, extra: bytes, value: nat, from: nat, to: nat, ghost args: bytes)
    returns (cmd': nat, extra': bytes)
    requires from <= to <= |args| == 7 && args[from..to] == Digits(value, to - from)
    requires extra == Nonzero(args[..from]) && cmd == PartialCommand(Written(args), from)
    ensures extra' == Nonzero(args[..to]) && cmd' == PartialCommand(Written(args), to)
  {
    hide Digits, Nonzero, Weight, LittleEndian;
    cmd', extra' := cmd, extra;
    var scale: nat := 1;
    for i := from to to
      invariant scale == Pow256(i - from)
      invariant extra' == Nonzero(args[..i]) && cmd' == PartialCommand(Written(args), i)
    {
      DigitAt(value, to - from, i - from);
      var b := value / scale % 256;
      assert b == args[from..to][i - from] == args[i];
      assert args[..i] + [args[i]] == args[..i + 1];
      cmd', extra' := PutByte(cmd', extra', b, ARGUMENT_BITS[i], args[..i]);
      scale := 256 * scale;
    }
  }

  /** `ingest.rs`: the same instruction from two loops over 64-bit values. */
  method EncodeCopy(instructions: bytes, offset: nat, size: nat) returns (out: bytes)
    ensures out == instructions + CopyCode(offset, size)
  {
    ghost var a := CopyArgs(offset, size);
    assert a[0..4] == Digits(offset, 4) && a[4..7] == Digits(SizeField(size), 3);
    assert a[..0] == [] && a[..7] == a;
    var cmd, extra := PutDigits(128, [], offset, 0, 4, a);
    cmd, extra := PutDigits(cmd, extra, if size == 0x1_0000 then 0 else size, 4, 7, a);
    WholeCommand(Written(a));
    out := instructions + [cmd] + extra;
    assert out == instructions + CopyCode(offset, size);
  }

  // ---- The scan over the target ----

  lemma EmitLiteral(base: bytes, target: bytes, pos: nat, buf: bytes)
    requires pos < |target| && Longest(base, target, pos).None?
    ensures
      var next := buf + [target[pos]];
      Emit(Greedy(base, target, pos), buf) ==
      if |next| == MAX_INSERT then Inserts(next) + Emit(Greedy(base, target, pos + 1), [])
      else Emit(Greedy(base, target, pos + 1), next)
  {
    hide Longest, Inserts;
    var ops := Greedy(base, target, pos);
    assert ops == [Literal(target[pos])] + Greedy(base, target, pos + 1);
    assert ops[1..] == Greedy(base, target, pos + 1);
  }

  lemma EmitMatch(base: bytes, target: bytes, pos: nat, buf: bytes)
    requires pos < |target| && Longest(base, target, pos).Some?
    ensures
      var (off, len) := Longest(base, target, pos).value;
      Emit(Greedy(base, target, pos), buf) ==
      Inserts(buf) + CopyCode(off, len) + Emit(Greedy(base, target, pos + len), [])
  {
    hide Longest, Inserts, CopyCode;
    var (off, len) := Longest(base, target, pos).value;
    var ops := Greedy(base, target, pos);
    assert ops == [Copy(off, len)] + Greedy(base, target, pos + len);
    assert ops[1..] == Greedy(base, target, pos + len);
  }

  /** Whatever the fingerprint, the scan writes the instructions of the brute-force greedy parse. */
  method EncodeInstructions(base: bytes, target: bytes, fingerprint: bytes -> nat) returns (instructions: bytes)
    ensures instructions == Emit(Greedy(base, target, 0), [])
  {
    hide Emit, Greedy, Longest, Inserts, CopyCode;
    var index := BuildIndex(base, fingerprint);
    instructions := [];
    var buf: bytes, pos := [], 0;
    while pos < |target|
      invariant pos <= |target|
      invariant instructions + Emit(Greedy(base, target, pos), buf) == Emit(Greedy(base, target, 0), [])
      decreases |target| - pos
    {
      var found := FindMatch(base, target, pos, fingerprint, index);
      match found {
        case Some((off, len)) =>
          EmitMatch(base, target, pos, buf);
          instructions, buf := FlushInserts(instructions, buf);
          instructions := EmitCopy(instructions, off, len);
          pos := pos + len;
        case None =>
          EmitLiteral(base, target, pos, buf);
          buf := buf + [target[pos]];
          if |buf| == MAX_INSERT {
            instructions, buf := FlushInserts(instructions, buf);
          }
          pos := pos + 1;
      }
    }
    EmitEnd(base, target, buf);
    instructions, buf := FlushInserts(instructions, buf);
  }

  lemma EmitEnd(base: bytes, target: bytes, buf: bytes)
    ensures Emit(Greedy(base, target, |target|), buf) == Inserts(buf)
  {
  }

  method ComputeDelta(base: bytes, target: bytes, fingerprint: bytes -> nat) returns (r: Option<bytes>)
    ensures r == KeptDelta(base, target)
    ensures r == if base != [] && |target| >= 16 && |Delta(base, target)| < |target| * 75 / 100
                 then Some(Delta(base, target)) else None
  {
    hide Emit, Greedy;
    if base == [] || target == [] || |target| < BLOCK_SIZE {
      return None;
    }
    var instructions := EncodeInstructions(base, target, fingerprint);
    var delta := Varint.Encode(|base|, []);
    delta := Varint.Encode(|target|, delta);
    delta := delta + instructions;
    assert delta == Delta(base, target);
    if |delta| >= |target| * 75 / 100 {
      return None;
    }
    r := Some(delta);
  }

  /** `ingest.rs`: the same scan, taking a match with `continue`. */
  method EncodePackInstructions(base: bytes, target: bytes, fingerprint: bytes -> nat) returns (instructions: bytes)
    ensures instructions == Emit(Greedy(base, target, 0), [])
  {
    hide Emit, Greedy, Longest, Inserts, CopyCode;
    var index := BuildIndex(base, fingerprint);
    instructions := [];
    var buf: bytes, pos := [], 0;
    while pos < |target|
      invariant pos <= |target|
      invariant instructions + Emit(Greedy(base, target, pos), buf) == Emit(Greedy(base, target, 0), [])
      decreases |target| - pos
    {
      var found := FindMatch(base, target, pos, fingerprint, index);
      if found.Some? {
        var (off, len) := found.value;
        EmitMatch(base, target, pos, buf);
        instructions, buf := FlushChunks(instructions, buf);
        instructions := EncodeCopy(instructions, off, len);
        pos := pos + len;
        continue;
      }
      EmitLiteral(base, target, pos, buf);
      buf := buf + [target[pos]];
      if |buf| == MAX_INSERT {
        instructions, buf := FlushChunks(instructions, buf);
      }
      pos := pos + 1;
    }
    EmitEnd(base, target, buf);
    instructions, buf := FlushChunks(instructions, buf);
  }

  method ComputePackDelta(base: bytes, target: bytes, fingerprint: bytes -> nat) returns (r: Option<bytes>)
    ensures r == KeptPackDelta(base, target)
    ensures r == if base != [] && |target| >= 32 && |Delta(base, target)| < |target|
                 then Some(Delta(base, target)) else None
  {
    hide Emit, Greedy;
    if base == [] || target == [] || |target| < 2 * BLOCK_SIZE {
      return None;
    }
    var instructions := EncodePackInstructions(base, target, fingerprint);
    var delta := Varint.Encode(|base|, []);
    delta := Varint.Encode(|target|, delta);
    delta := delta + instructions;
    assert delta == Delta(base, target);
    if |delta| < |target| {
      return Some(delta);
    }
    r := None;
  }
}
