/** The copy/insert instruction stream and what applying it to a base means. */
module DeltaFormat {
  import opened Bytes
  import opened Endian
  import Varint

  datatype DeltaError =
    | Truncated
    | VarintOverflow
    | BaseSizeMismatch(expected: nat, got: nat)
    | CopyOutOfBounds(offset: nat, size: nat, baseLen: nat)
    | ReservedOpcode
    | ResultSizeMismatch(wanted: nat, produced: nat)

  type Outcome = Result<bytes, DeltaError>

  // ---- The seven optional argument bytes of a copy ----

  /** The argument bytes that are written: a zero byte is left out. */
  function Nonzero(args: bytes): bytes {
    if args == [] then []
    else (if args[0] != 0 then [args[0]] else []) + Nonzero(args[1..])
  }

  function Written(args: bytes): (flags: seq<bool>)
    ensures |flags| == |args|
  {
    seq(|args|, i requires 0 <= i < |args| => args[i] != 0)
  }

  function Weight(flag: bool, w: nat): nat {
    if flag then w else 0
  }

  /** The command byte: the top bit, and bit `i` set exactly when argument `i` follows. */
  function Command(flags: seq<bool>): (cmd: byte)
    requires |flags| == 7
    ensures cmd >= 128
  {
    128 + Weight(flags[0], 1) + Weight(flags[1], 2) + Weight(flags[2], 4) + Weight(flags[3], 8)
    + Weight(flags[4], 16) + Weight(flags[5], 32) + Weight(flags[6], 64)
  }

  /** The seven bit tests of the reader. */
  function CommandFlags(cmd: byte): (flags: seq<bool>)
    ensures |flags| == 7
  {
    [cmd % 2 == 1, cmd / 2 % 2 == 1, cmd / 4 % 2 == 1, cmd / 8 % 2 == 1,
     cmd / 16 % 2 == 1, cmd / 32 % 2 == 1, cmd / 64 % 2 == 1]
  }

  lemma {:induction false} BitOf(lo: nat, w: nat, flag: bool, hi: nat, cmd: nat)
    requires lo < w && cmd == lo + w * (Weight(flag, 1) + 2 * hi)
    ensures cmd / w % 2 == 1 <==> flag
  {
    DivUnique(cmd, w, Weight(flag, 1) + 2 * hi, lo);
  }

  lemma LowCommandBits(flags: seq<bool>)
    requires |flags| == 7
    ensures Command(flags) % 2 == 1 <==> flags[0]
    ensures Command(flags) / 2 % 2 == 1 <==> flags[1]
  {
    var b0, b1 := Weight(flags[0], 1), Weight(flags[1], 1);
    var hi := Weight(flags[2], 1) + Weight(flags[3], 2) + Weight(flags[4], 4) + Weight(flags[5], 8)
            + Weight(flags[6], 16) + 32;
    BitOf(0, 1, flags[0], b1 + 2 * hi, Command(flags));
    BitOf(b0, 2, flags[1], hi, Command(flags));
  }

  lemma MiddleCommandBits(flags: seq<bool>)
    requires |flags| == 7
    ensures Command(flags) / 4 % 2 == 1 <==> flags[2]
    ensures Command(flags) / 8 % 2 == 1 <==> flags[3]
  {
    var lo, b2, b3 := Weight(flags[0], 1) + Weight(flags[1], 2), Weight(flags[2], 1), Weight(flags[3], 1);
    var hi := Weight(flags[4], 1) + Weight(flags[5], 2) + Weight(flags[6], 4) + 8;
    BitOf(lo, 4, flags[2], b3 + 2 * hi, Command(flags));
    BitOf(lo + 4 * b2, 8, flags[3], hi, Command(flags));
  }

  lemma HighCommandBits(flags: seq<bool>)
    requires |flags| == 7
    ensures Command(flags) / 16 % 2 == 1 <==> flags[4]
    ensures Command(flags) / 32 % 2 == 1 <==> flags[5]
    ensures Command(flags) / 64 % 2 == 1 <==> flags[6]
  {
    var lo := Weight(flags[0], 1) + Weight(flags[1], 2) + Weight(flags[2], 4) + Weight(flags[3], 8);
    var b4, b5, b6 := Weight(flags[4], 1), Weight(flags[5], 1), Weight(flags[6], 1);
    BitOf(lo, 16, flags[4], b5 + 2 * b6 + 4, Command(flags));
    BitOf(lo + 16 * b4, 32, flags[5], b6 + 2, Command(flags));
    BitOf(lo + 16 * b4 + 32 * b5, 64, flags[6], 1, Command(flags));
  }

  lemma {:induction false} CommandRoundTrip(flags: seq<bool>)
    requires |flags| == 7
    ensures CommandFlags(Command(flags)) == flags
  {
    hide Command;
    LowCommandBits(flags);
    MiddleCommandBits(flags);
    HighCommandBits(flags);
  }

  /** Read one argument a flag, taking from the stream only those whose flag is set. */
  function ReadFlagged(flags: seq<bool>, data: bytes, pos: nat): (r: Option<(bytes, nat)>)
    ensures r.Some? ==> |r.value.0| == |flags| && pos <= r.value.1
  {
    if flags == [] then Some(([], pos))
    else if !flags[0] then
      var (rest, next) :- ReadFlagged(flags[1..], data, pos);
      Some(([0] + rest, next))
    else if pos >= |data| then None
    else
      var (rest, next) :- ReadFlagged(flags[1..], data, pos + 1);
      Some(([data[pos]] + rest, next))
  }

  lemma {:induction false} FlaggedRoundTrip(args: bytes, data: bytes, pos: nat)
    requires At(data, pos, Nonzero(args))
    ensures ReadFlagged(Written(args), data, pos) == Some((args, pos + |Nonzero(args)|))
    decreases |args|
  {
    if args != [] {
      assert args == [args[0]] + args[1..];
      var here := if args[0] != 0 then [args[0]] else [];
      assert Nonzero(args) == here + Nonzero(args[1..]);
      AtSplit(data, pos, here, Nonzero(args[1..]));
      if args[0] != 0 {
        AtHead(data, pos, here);
      }
      assert Written(args)[1..] == Written(args[1..]);
      FlaggedRoundTrip(args[1..], data, pos + |here|);
    }
  }

  const COPY_OFFSETS: nat := 0x1_0000_0000
  const COPY_SIZES: nat := 0x100_0000
  const SIZE_OF_ZERO: nat := 0x1_0000

  /** A size field of zero stands for 64 KiB. */
  function SizeField(size: nat): nat {
    if size == SIZE_OF_ZERO then 0 else size
  }

  function SizeOfField(field: nat): nat {
    if field == 0 then SIZE_OF_ZERO else field
  }

  function CopyArgs(offset: nat, size: nat): (args: bytes)
    ensures |args| == 7
  {
    Digits(offset, 4) + Digits(SizeField(size), 3)
  }

  function CopyCode(offset: nat, size: nat): (code: bytes)
    ensures |code| >= 1 && code[0] >= 128
  {
    [Command(Written(CopyArgs(offset, size)))] + Nonzero(CopyArgs(offset, size))
  }

  /** What a written copy is read as: the fields hold 32 bits of offset and 24 of size. */
  function DecodedOffset(offset: nat): nat {
    offset % COPY_OFFSETS
  }

  function DecodedSize(size: nat): nat {
    SizeOfField(SizeField(size) % COPY_SIZES)
  }

  lemma CopyArgsValue(offset: nat, size: nat)
    ensures LittleEndian(CopyArgs(offset, size)[..4]) == DecodedOffset(offset)
    ensures SizeOfField(LittleEndian(CopyArgs(offset, size)[4..])) == DecodedSize(size)
  {
    DigitsValue(offset, 4);
    DigitsValue(SizeField(size), 3);
    assert Pow256(2) == 0x1_0000;
    assert Pow256(3) == 0x100_0000;
    assert Pow256(4) == 0x1_0000_0000;
    assert CopyArgs(offset, size)[..4] == Digits(offset, 4);
    assert CopyArgs(offset, size)[4..] == Digits(SizeField(size), 3);
  }

  /** A positive size survives the 24-bit field exactly when it fits; otherwise it shrinks. */
  lemma DecodedSizeExact(size: nat)
    requires size > 0
    ensures DecodedSize(size) == size <==> size < COPY_SIZES
    ensures 0 < DecodedSize(size) <= size
  {
  }

  // ---- Applying a delta ----

  /** The offset and raw size field of a copy, and the position after its arguments. */
  function CopyFields(delta: bytes, pos: nat, cmd: byte): (r: Option<(nat, nat, nat)>)
    requires cmd >= 128
    ensures r.Some? ==> r.value.2 >= pos
  {
    match ReadFlagged(CommandFlags(cmd), delta, pos)
    case None => None
    case Some((args, next)) => Some((LittleEndian(args[..4]), LittleEndian(args[4..]), next))
  }

  function Run(base: bytes, delta: bytes, pos: nat, out: bytes): Outcome
    decreases |delta| - pos
  {
    if pos >= |delta| then Ok(out)
    else
      var cmd := delta[pos];
      if cmd == 0 then Err(ReservedOpcode)
      else if cmd >= 128 then
        match CopyFields(delta, pos + 1, cmd)
        case None => Err(Truncated)
        case Some((offset, field, next)) =>
          var size := SizeOfField(field);
          if offset + size > |base| then Err(CopyOutOfBounds(offset, size, |base|))
          else Run(base, delta, next, out + base[offset..offset + size])
      else if pos + 1 + cmd > |delta| then Err(Truncated)
      else Run(base, delta, pos + 1 + cmd, out + delta[pos + 1..pos + 1 + cmd])
  }

  function Apply(base: bytes, delta: bytes): Outcome {
    match Varint.ReadAt(delta, 0)
    case Truncated => Err(Truncated)
    case Overflow => Err(VarintOverflow)
    case Value(baseSize, p) =>
      match Varint.ReadAt(delta, p)
      case Truncated => Err(Truncated)
      case Overflow => Err(VarintOverflow)
      case Value(resultSize, q) =>
        if |base| != baseSize then Err(BaseSizeMismatch(baseSize, |base|))
        else
          var out :- Run(base, delta, q, []);
          if |out| != resultSize then Err(ResultSizeMismatch(resultSize, |out|)) else Ok(out)
  }

  /** A copy instruction is executed with its decoded offset and size. */
  lemma RunCopy(base: bytes, delta: bytes, pos: nat, out: bytes, offset: nat, size: nat)
    requires At(delta, pos, CopyCode(offset, size))
    requires DecodedOffset(offset) + DecodedSize(size) <= |base|
    ensures
      var o, n := DecodedOffset(offset), DecodedSize(size);
      Run(base, delta, pos, out) == Run(base, delta, pos + |CopyCode(offset, size)|, out + base[o..o + n])
  {
    var args := CopyArgs(offset, size);
    AtHead(delta, pos, CopyCode(offset, size));
    assert CopyCode(offset, size)[1..] == Nonzero(args);
    CommandRoundTrip(Written(args));
    FlaggedRoundTrip(args, delta, pos + 1);
    CopyArgsValue(offset, size);
  }

  lemma RunInsert(base: bytes, delta: bytes, pos: nat, out: bytes, data: bytes)
    requires 0 < |data| < 128 && At(delta, pos, [|data|] + data)
    ensures Run(base, delta, pos, out) == Run(base, delta, pos + 1 + |data|, out + data)
  {
    AtHead(delta, pos, [|data|] + data);
    assert ([|data|] + data)[1..] == data;
  }

  // ---- The two readers ----

  function Prepend(args: bytes, r: Option<(bytes, nat)>): Option<(bytes, nat)> {
    match r
    case None => None
    case Some((rest, next)) => Some((args + rest, next))
  }

  lemma PrependTwice(a: bytes, b: bytes, r: Option<(bytes, nat)>)
    ensures Prepend(a, Prepend(b, r)) == Prepend(a + b, r)
  {
    match r
    case None =>
    case Some((rest, next)) => assert a + (b + rest) == a + b + rest;
  }

  lemma PrependNothing(r: Option<(bytes, nat)>)
    ensures Prepend([], r) == r
  {
    match r
    case None =>
    case Some((rest, next)) => assert [] + rest == rest;
  }

  /** One optional argument byte. */
  method TakeByte(delta: bytes, pos: nat, flag: bool, ghost args: bytes, ghost flags: seq<bool>)
    returns (r: Option<(byte, nat)>)
    requires flags != [] && flags[0] == flag
    ensures
      Prepend(args, ReadFlagged(flags, delta, pos)) ==
      if r.None? then None else Prepend(args + [r.value.0], ReadFlagged(flags[1..], delta, r.value.1))
    ensures r.Some? ==> r.value.1 >= pos
  {
    if !flag {
      PrependTwice(args, [0], ReadFlagged(flags[1..], delta, pos));
      return Some((0, pos));
    }
    if pos >= |delta| {
      return None;
    }
    PrependTwice(args, [delta[pos]], ReadFlagged(flags[1..], delta, pos + 1));
    r := Some((delta[pos], pos + 1));
  }

  /** `delta.rs` tests the seven bits one after another: first the four offset bytes ... */
  method ReadOffset(delta: bytes, start: nat, cmd: byte) returns (r: Option<(nat, nat)>, ghost args: bytes)
    ensures
      ReadFlagged(CommandFlags(cmd), delta, start) ==
      if r.None? then None else Prepend(args, ReadFlagged(CommandFlags(cmd)[4..], delta, r.value.1))
    ensures r.Some? ==> |args| == 4 && r.value.0 == LittleEndian(args) && r.value.1 >= start
  {
    hide ReadFlagged, LittleEndian;
    ghost var f := CommandFlags(cmd);
    PrependNothing(ReadFlagged(f, delta, start));
    args := [];
    var t0 := TakeByte(delta, start, cmd % 2 == 1, args, f);
    if t0.None? { return None, []; }
    var (o0, p0) := t0.value;
    args := args + [o0];
    var t1 := TakeByte(delta, p0, cmd / 2 % 2 == 1, args, f[1..]);
    if t1.None? { return None, []; }
    var (o1, p1) := t1.value;
    args := args + [o1];
    assert f[1..][1..] == f[2..];
    var t2 := TakeByte(delta, p1, cmd / 4 % 2 == 1, args, f[2..]);
    if t2.None? { return None, []; }
    var (o2, p2) := t2.value;
    args := args + [o2];
    assert f[2..][1..] == f[3..];
    var t3 := TakeByte(delta, p2, cmd / 8 % 2 == 1, args, f[3..]);
    if t3.None? { return None, []; }
    var (o3, p3) := t3.value;
    assert f[3..][1..] == f[4..];
    args := args + [o3];
    assert args == [o0, o1, o2, o3];
    FourDigits(o0, o1, o2, o3);
    var offset := o0 as int + 0x100 * o1 as int + 0x1_0000 * o2 as int + 0x100_0000 * o3 as int;
    r := Some((offset, p3));
  }

  /** ... then the three size bytes. */
  method ReadSize(delta: bytes, start: nat, cmd: byte, ghost before: bytes)
    returns (r: Option<(nat, nat)>, ghost args: bytes)
    ensures
      Prepend(before, ReadFlagged(CommandFlags(cmd)[4..], delta, start)) ==
      if r.None? then None else Some((before + args, r.value.1))
    ensures r.Some? ==> |args| == 3 && r.value.0 == LittleEndian(args) && r.value.1 >= start
  {
    ghost var f := CommandFlags(cmd);
    args := [];
    var t4 := TakeByte(delta, start, cmd / 16 % 2 == 1, before, f[4..]);
    if t4.None? { return None, []; }
    var (s0, p4) := t4.value;
    assert f[4..][1..] == f[5..];
    var t5 := TakeByte(delta, p4, cmd / 32 % 2 == 1, before + [s0], f[5..]);
    if t5.None? { return None, []; }
    var (s1, p5) := t5.value;
    assert f[5..][1..] == f[6..];
    var t6 := TakeByte(delta, p5, cmd / 64 % 2 == 1, before + [s0] + [s1], f[6..]);
    if t6.None? { return None, []; }
    var (s2, p6) := t6.value;
    assert f[6..][1..] == [];
    args := [s0, s1, s2];
    assert before + [s0] + [s1] + [s2] + [] == before + args;
    ThreeDigits(s0, s1, s2);
    var size := s0 as int + 0x100 * s1 as int + 0x1_0000 * s2 as int;
    r := Some((size, p6));
  }

  method ReadCopy(delta: bytes, start: nat, cmd: byte) returns (r: Option<(nat, nat, nat)>)
    requires cmd >= 128
    ensures r == CopyFields(delta, start, cmd)
  {
    var offset, offsetArgs := ReadOffset(delta, start, cmd);
    if offset.None? {
      return None;
    }
    var size, sizeArgs := ReadSize(delta, offset.value.1, cmd, offsetArgs);
    if size.None? {
      return None;
    }
    assert (offsetArgs + sizeArgs)[..4] == offsetArgs && (offsetArgs + sizeArgs)[4..] == sizeArgs;
    r := Some((offset.value.0, size.value.0, size.value.1));
  }

  method RunInstructions(base: bytes, delta: bytes, start: nat) returns (r: Outcome)
    ensures r == Run(base, delta, start, [])
  {
    hide CopyFields;
    var out: bytes, pos := [], start;
    while pos < |delta|
      invariant Run(base, delta, pos, out) == Run(base, delta, start, [])
      decreases |delta| - pos
    {
      var cmd := delta[pos];
      pos := pos + 1;
      if cmd == 0 {
        return Err(ReservedOpcode);
      }
      if cmd >= 128 {
        var fields := ReadCopy(delta, pos, cmd);
        if fields.None? {
          return Err(Truncated);
        }
        var (offset, field, next) := fields.value;
        pos := next;
        var size := if field == 0 then 0x1_0000 else field;
        if offset + size > |base| {
          return Err(CopyOutOfBounds(offset, size, |base|));
        }
        out := out + base[offset..offset + size];
      } else {
        if pos + cmd > |delta| {
          return Err(Truncated);
        }
        out := out + delta[pos..pos + cmd];
        pos := pos + cmd;
      }
    }
    r := Ok(out);
  }

  method ApplyDelta(base: bytes, delta: bytes) returns (r: Outcome)
    ensures r == Apply(base, delta)
  {
    var first := Varint.Decode(delta, 0);
    match first {
      case Truncated => return Err(Truncated);
      case Overflow => return Err(VarintOverflow);
      case Value(_, _) =>
    }
    var second := Varint.Decode(delta, first.next);
    match second {
      case Truncated => return Err(Truncated);
      case Overflow => return Err(VarintOverflow);
      case Value(_, _) =>
    }
    if |base| != first.value {
      return Err(BaseSizeMismatch(first.value, |base|));
    }
    var out := RunInstructions(base, delta, second.next);
    if out.Err? {
      return out;
    }
    if |out.value| != second.value {
      return Err(ResultSizeMismatch(second.value, |out.value|));
    }
    r := out;
  }

  // ---- The pack reader of `ingest.rs`, which has one error and loops over the argument bits ----

  const ARGUMENT_BITS: seq<nat> := [0x01, 0x02, 0x04, 0x08, 0x10, 0x20, 0x40]

  lemma ArgumentBit(cmd: byte, i: nat)
    requires i < 7
    ensures CommandFlags(cmd)[i] <==> cmd / ARGUMENT_BITS[i] % 2 == 1
  {
  }

  /** Arguments `from .. to`, as little-endian digits. */
  method ReadDigits(delta: bytes, start: nat, cmd: byte, from: nat, to: nat, ghost before: bytes)
    returns (r: Option<(nat, nat)>, ghost args: bytes)
    requires from <= to <= 7
    ensures
      Prepend(before, ReadFlagged(CommandFlags(cmd)[from..], delta, start)) ==
      if r.None? then None else Prepend(before + args, ReadFlagged(CommandFlags(cmd)[to..], delta, r.value.1))
    ensures r.Some? ==> |args| == to - from && r.value.0 == LittleEndian(args) && r.value.1 >= start
  {
    hide ReadFlagged, CommandFlags, Prepend;
    var value: nat, pos, scale: nat := 0, start, 1;
    args := [];
    assert before + [] == before;
    for i := from to to
      invariant |args| == i - from && pos >= start
      invariant scale == Pow256(i - from) && value == LittleEndian(args)
      invariant
        Prepend(before, ReadFlagged(CommandFlags(cmd)[from..], delta, start)) ==
        Prepend(before + args, ReadFlagged(CommandFlags(cmd)[i..], delta, pos))
    {
      ArgumentBit(cmd, i);
      assert CommandFlags(cmd)[i..][1..] == CommandFlags(cmd)[i + 1..];
      var t := TakeByte(delta, pos, cmd / ARGUMENT_BITS[i] % 2 == 1, before + args, CommandFlags(cmd)[i..]);
      if t.None? {
        return None, [];
      }
      TopDigit(args, t.value.0);
      assert before + args + [t.value.0] == before + (args + [t.value.0]);
      args := args + [t.value.0];
      value := value + t.value.0 as int * scale;
      pos := t.value.1;
      scale := 256 * scale;
    }
    r := Some((value, pos));
  }

  method ReadCopyLoop(delta: bytes, start: nat, cmd: byte) returns (r: Option<(nat, nat, nat)>)
    requires cmd >= 128
    ensures r == CopyFields(delta, start, cmd)
  {
    ghost var f := CommandFlags(cmd);
    PrependNothing(ReadFlagged(f, delta, start));
    assert f[0..] == f;
    var offset, offsetArgs := ReadDigits(delta, start, cmd, 0, 4, []);
    if offset.None? {
      return None;
    }
    assert [] + offsetArgs == offsetArgs;
    var size, sizeArgs := ReadDigits(delta, offset.value.1, cmd, 4, 7, offsetArgs);
    if size.None? {
      return None;
    }
    assert offsetArgs + sizeArgs + [] == offsetArgs + sizeArgs;
    assert (offsetArgs + sizeArgs)[..4] == offsetArgs && (offsetArgs + sizeArgs)[4..] == sizeArgs;
    r := Some((offset.value.0, size.value.0, size.value.1));
  }

  method RunPackInstructions(base: bytes, delta: bytes, start: nat) returns (r: Option<bytes>)
    ensures r == match Run(base, delta, start, []) case Ok(out) => Some(out) case Err(_) => None
  {
    hide CopyFields;
    var out: bytes, pos := [], start;
    while pos < |delta|
      invariant Run(base, delta, pos, out) == Run(base, delta, start, [])
      decreases |delta| - pos
    {
      var cmd := delta[pos];
      pos := pos + 1;
      if cmd == 0 {
        return None;
      }
      if cmd >= 128 {
        var fields := ReadCopyLoop(delta, pos, cmd);
        if fields.None? {
          return None;
        }
        var (offset, field, next) := fields.value;
        pos := next;
        var size := if field == 0 then 0x1_0000 else field;
        if offset + size > |base| {
          return None;
        }
        out := out + base[offset..offset + size];
      } else {
        if pos + cmd > |delta| {
          return None;
        }
        out := out + delta[pos..pos + cmd];
        pos := pos + cmd;
      }
    }
    r := Some(out);
  }

  /** On every base and every byte string, the pack reader succeeds exactly where `Apply` does, and agrees. */
  method ApplyPackDelta(base: bytes, delta: bytes) returns (r: Option<bytes>)
    ensures r == match Apply(base, delta) case Ok(out) => Some(out) case Err(_) => None
  {
    hide Run, Varint.ReadFrom;
    var first := Varint.DecodeSlice(delta);
    if first.None? {
      return None;
    }
    var (baseSize, rest) := first.value;
    var second := Varint.DecodeSlice(rest);
    Varint.ReadSuffix(delta, |delta| - |rest|, 0, 0, 0);
    if second.None? {
      return None;
    }
    var (resultSize, rest2) := second.value;
    if baseSize != |base| {
      return None;
    }
    r := RunPackInstructions(base, delta, |delta| - |rest2|);
    if r.Some? && |r.value| != resultSize {
      return None;
    }
  }
}
