/** What every delta means, encoded by us or by anyone: instruction by instruction, with each way to fail. */
module DeltaMeaning {
  import opened Bytes
  import opened Endian
  import Varint
  import opened DeltaFormat

  /** A copy with its seven argument bytes, of which those without a flag are zero and left out; or literal bytes. */
  datatype Instruction = FromBase(flags: seq<bool>, args: bytes) | Literal(data: bytes)

  predicate WellFormed(i: Instruction) {
    match i
    case FromBase(flags, args) => |flags| == |args| == 7 && forall k :: 0 <= k < 7 ==> (!flags[k] ==> args[k] == 0)
    case Literal(data) => 0 < |data| < 128
  }

  function FlaggedBytes(flags: seq<bool>, args: bytes): bytes
    requires |flags| == |args|
  {
    if flags == [] then [] else (if flags[0] then [args[0]] else []) + FlaggedBytes(flags[1..], args[1..])
  }

  function InstructionBytes(i: Instruction): bytes
    requires WellFormed(i)
  {
    match i
    case FromBase(flags, args) => [Command(flags)] + FlaggedBytes(flags, args)
    case Literal(data) => [|data|] + data
  }

  function AllBytes(instructions: seq<Instruction>): bytes
    requires forall i :: i in instructions ==> WellFormed(i)
  {
    if instructions == [] then [] else InstructionBytes(instructions[0]) + AllBytes(instructions[1..])
  }

  /** Four little-endian bytes of offset, three of size, where size zero stands for 64 KiB. */
  function Offset(i: Instruction): nat
    requires WellFormed(i) && i.FromBase?
  {
    i.args[0] + 0x100 * i.args[1] as int + 0x1_0000 * i.args[2] as int + 0x100_0000 * i.args[3] as int
  }

  function Size(i: Instruction): nat
    requires WellFormed(i) && i.FromBase?
  {
    var n: int := i.args[4] + 0x100 * i.args[5] as int + 0x1_0000 * i.args[6] as int;
    if n == 0 then 0x1_0000 else n
  }

  predicate Inside(base: bytes, i: Instruction)
    requires WellFormed(i)
  {
    i.FromBase? ==> Offset(i) + Size(i) <= |base|
  }

  function Piece(base: bytes, i: Instruction): bytes
    requires WellFormed(i) && Inside(base, i)
  {
    if i.Literal? then i.data else base[Offset(i)..Offset(i) + Size(i)]
  }

  /** The pieces up to the first copy that leaves the base. */
  function Pieces(base: bytes, instructions: seq<Instruction>): bytes
    requires forall i :: i in instructions ==> WellFormed(i)
  {
    if instructions == [] || !Inside(base, instructions[0]) then []
    else Piece(base, instructions[0]) + Pieces(base, instructions[1..])
  }

  predicate AllInside(base: bytes, instructions: seq<Instruction>)
    requires forall i :: i in instructions ==> WellFormed(i)
  {
    forall i :: i in instructions ==> Inside(base, i)
  }

  lemma {:induction false} FlaggedAt(flags: seq<bool>, args: bytes, data: bytes, pos: nat)
    requires |flags| == |args| && forall k :: 0 <= k < |flags| ==> (!flags[k] ==> args[k] == 0)
    requires At(data, pos, FlaggedBytes(flags, args))
    ensures ReadFlagged(flags, data, pos) == Some((args, pos + |FlaggedBytes(flags, args)|))
    decreases |flags|
  {
    hide At;
    if flags != [] {
      var here := if flags[0] then [args[0]] else [];
      assert args == [args[0]] + args[1..];
      AtSplit(data, pos, here, FlaggedBytes(flags[1..], args[1..]));
      if flags[0] {
        AtHead(data, pos, here);
      }
      FlaggedAt(flags[1..], args[1..], data, pos + |here|);
    }
  }

  lemma FieldsAt(i: Instruction, delta: bytes, pos: nat)
    requires WellFormed(i) && i.FromBase? && At(delta, pos, FlaggedBytes(i.flags, i.args))
    ensures CommandFlags(Command(i.flags)) == i.flags
    ensures
      var f := CopyFields(delta, pos, Command(i.flags));
      && f.Some? && f.value.0 == Offset(i) && SizeOfField(f.value.1) == Size(i)
      && f.value.2 == pos + |FlaggedBytes(i.flags, i.args)|
  {
    hide At, Command, CommandFlags, ReadFlagged, LittleEndian;
    CommandRoundTrip(i.flags);
    FlaggedAt(i.flags, i.args, delta, pos);
    var a := i.args;
    assert a[..4] == [a[0], a[1], a[2], a[3]] && a[4..] == [a[4], a[5], a[6]];
    FourDigits(a[0], a[1], a[2], a[3]);
    ThreeDigits(a[4], a[5], a[6]);
  }

  /** One instruction: it adds its piece, or the copy leaves the base. */
  lemma RunOne(base: bytes, delta: bytes, pos: nat, out: bytes, i: Instruction)
    requires WellFormed(i) && At(delta, pos, InstructionBytes(i))
    ensures
      Run(base, delta, pos, out) ==
      if Inside(base, i) then Run(base, delta, pos + |InstructionBytes(i)|, out + Piece(base, i))
      else Err(CopyOutOfBounds(Offset(i), Size(i), |base|))
  {
    hide At, Command, CopyFields;
    match i {
      case FromBase(flags, args) =>
        AtTag(delta, pos, Command(flags), FlaggedBytes(flags, args));
        FieldsAt(i, delta, pos + 1);
      case Literal(data) =>
        RunInsert(base, delta, pos, out, data);
    }
  }

  lemma {:induction false} RunAll(base: bytes, delta: bytes, pos: nat, out: bytes, instructions: seq<Instruction>)
    requires (forall i :: i in instructions ==> WellFormed(i)) && At(delta, pos, AllBytes(instructions))
    ensures
      if AllInside(base, instructions) then
        Run(base, delta, pos, out)
        == Run(base, delta, pos + |AllBytes(instructions)|, out + Pieces(base, instructions))
      else Run(base, delta, pos, out).Err? && Run(base, delta, pos, out).error.CopyOutOfBounds?
    decreases |instructions|
  {
    hide At, Run, InstructionBytes, Piece, Offset, Size, WellFormed;
    if instructions == [] {
      assert out + Pieces(base, instructions) == out;
    } else {
      var i, rest := instructions[0], instructions[1..];
      assert i in instructions && instructions == [i] + rest;
      AtSplit(delta, pos, InstructionBytes(i), AllBytes(rest));
      RunOne(base, delta, pos, out, i);
      if Inside(base, i) {
        RunAll(base, delta, pos + |InstructionBytes(i)|, out + Piece(base, i), rest);
        assert (out + Piece(base, i)) + Pieces(base, rest) == out + (Piece(base, i) + Pieces(base, rest));
      }
    }
  }

  function DeltaBytes(baseSize: nat, resultSize: nat, instructions: seq<Instruction>, tail: bytes): bytes
    requires forall i :: i in instructions ==> WellFormed(i)
  {
    Varint.Encoding(baseSize) + (Varint.Encoding(resultSize) + (AllBytes(instructions) + tail))
  }

  lemma SizesAt(baseSize: nat, resultSize: nat, rest: bytes)
    requires baseSize < TWO64 && resultSize < TWO64
    ensures
      var delta := Varint.Encoding(baseSize) + (Varint.Encoding(resultSize) + rest);
      var p := |Varint.Encoding(baseSize)|;
      var q := p + |Varint.Encoding(resultSize)|;
      && Varint.ReadAt(delta, 0) == Varint.Value(baseSize, p) && Varint.ReadAt(delta, p) == Varint.Value(resultSize, q)
      && At(delta, q, rest) && |delta| == q + |rest|
  {
    hide Varint.Encoding, Varint.ReadAt, At;
    var a, b := Varint.Encoding(baseSize), Varint.Encoding(resultSize);
    var delta := a + (b + rest);
    AtWhole(delta);
    AtSplit(delta, 0, a, b + rest);
    AtSplit(delta, |a|, b, rest);
    Varint.RoundTrip(delta, 0, baseSize);
    Varint.RoundTrip(delta, |a|, resultSize);
  }

  /**
   * A delta of instructions applies iff it is for a base of this size, no copy leaves the base, and the pieces have the
   * announced length; then they are the result. Otherwise the first check that fails names the error.
   */
  lemma DeltaMeansPieces(base: bytes, baseSize: nat, resultSize: nat, instructions: seq<Instruction>)
    requires (forall i :: i in instructions ==> WellFormed(i)) && baseSize < TWO64 && resultSize < TWO64
    ensures
      var r, pieces := Apply(base, DeltaBytes(baseSize, resultSize, instructions, [])), Pieces(base, instructions);
      if baseSize != |base| then r == Err(BaseSizeMismatch(baseSize, |base|))
      else if !AllInside(base, instructions) then r.Err? && r.error.CopyOutOfBounds?
      else if |pieces| != resultSize then r == Err(ResultSizeMismatch(resultSize, |pieces|))
      else r == Ok(pieces)
  {
    hide Run, Varint.Encoding, Varint.ReadAt, AllBytes, Pieces, AllInside, At, WellFormed;
    var code := AllBytes(instructions);
    assert code + [] == code;
    SizesAt(baseSize, resultSize, code);
    var q := |Varint.Encoding(baseSize)| + |Varint.Encoding(resultSize)|;
    var delta := DeltaBytes(baseSize, resultSize, instructions, []);
    RunAll(base, delta, q, [], instructions);
    assert [] + Pieces(base, instructions) == Pieces(base, instructions);
    RunDone(base, delta, q + |code|, Pieces(base, instructions));
  }

  lemma RunDone(base: bytes, delta: bytes, pos: nat, out: bytes)
    requires pos >= |delta|
    ensures Run(base, delta, pos, out) == Ok(out)
  {
  }

  /** After instructions that stay inside: a zero byte is refused, and so is a literal that the delta does not hold. */
  lemma BadTailFails(base: bytes, resultSize: nat, instructions: seq<Instruction>, n: byte, rest: bytes)
    requires (forall i :: i in instructions ==> WellFormed(i)) && |base| < TWO64 && resultSize < TWO64
    requires AllInside(base, instructions) && n < 128
    ensures
      var r := Apply(base, DeltaBytes(|base|, resultSize, instructions, [n] + rest));
      (n == 0 ==> r == Err(ReservedOpcode)) && (|rest| < n ==> r == Err(Truncated))
  {
    hide Run, Varint.Encoding, Varint.ReadAt, AllBytes, Pieces, AllInside, At, WellFormed;
    var code, tail := AllBytes(instructions), [n] + rest;
    SizesAt(|base|, resultSize, code + tail);
    var q := |Varint.Encoding(|base|)| + |Varint.Encoding(resultSize)|;
    var delta := DeltaBytes(|base|, resultSize, instructions, tail);
    AtSplit(delta, q, code, tail);
    RunAll(base, delta, q, [], instructions);
    AtTag(delta, q + |code|, n, rest);
    RunBadTail(base, delta, q + |code|, [] + Pieces(base, instructions));
  }

  lemma RunBadTail(base: bytes, delta: bytes, pos: nat, out: bytes)
    requires pos < |delta| && delta[pos] < 128
    ensures delta[pos] == 0 ==> Run(base, delta, pos, out) == Err(ReservedOpcode)
    ensures 0 < delta[pos] && |delta| - pos - 1 < delta[pos] as int ==> Run(base, delta, pos, out) == Err(Truncated)
  {
  }
}
