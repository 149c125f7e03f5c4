/** The little-endian base-128 integers of delta headers, pack deltas and CAR frames. */
module Varint {
  import opened Bytes

  datatype Read = Value(value: nat, next: nat) | Truncated | Overflow

  /** Seven bits a byte, low group first, top bit set on every byte but the last. */
  function Encoding(v: nat): (r: bytes)
    ensures |r| >= 1
  {
    if v < 128 then [v] else [v % 128 + 128] + Encoding(v / 128)
  }

  /** Two to the power `shift`, for the multiples of seven a read goes through. */
  function Scale(shift: nat): (r: nat)
    ensures r >= 1
  {
    if shift < 7 then 1 else 128 * Scale(shift - 7)
  }

  /** One 64-bit read from `pos` on. Group bits shifted out of the word are dropped. */
  function ReadFrom(data: bytes, pos: nat, shift: nat, value: nat): Read
    decreases |data| - pos
  {
    if pos >= |data| then Truncated
    else
      var v := value + (data[pos] % 128 * Scale(shift)) % TWO64;
      if data[pos] < 128 then Value(v, pos + 1)
      else if shift + 7 > 63 then Overflow
      else ReadFrom(data, pos + 1, shift + 7, v)
  }

  function ReadAt(data: bytes, pos: nat): Read {
    ReadFrom(data, pos, 0, 0)
  }

  lemma TopGroup()
    ensures Scale(63) == 0x8000_0000_0000_0000
  {
    assert Scale(21) == 0x20_0000;
    assert Scale(42) == 0x20_0000 * 0x20_0000;
  }

  lemma {:induction false} ScaleGrows(a: nat, b: nat)
    requires a <= b && a % 7 == 0 && b % 7 == 0
    ensures Scale(a) <= Scale(b)
  {
    if a < b {
      ScaleGrows(a, b - 7);
    }
  }

  /** Splitting off the low group loses nothing when the whole value fits the word. */
  lemma GroupSplit(v: nat, scale: nat)
    requires v * scale < TWO64
    ensures (v % 128 * scale) % TWO64 == v % 128 * scale
    ensures v / 128 * (128 * scale) == v * scale - v % 128 * scale < TWO64
  {
    var low, high := v % 128, v / 128;
    calc {
      v * scale;
      (low + high * 128) * scale;
      low * scale + high * 128 * scale;
    }
  }

  /** A value with a group still to come leaves room for it in the word. */
  lemma GroupLeft(v: nat, shift: nat)
    requires shift % 7 == 0 && v >= 128 && v * Scale(shift) < TWO64
    ensures shift + 7 <= 63
  {
    if shift >= 63 {
      TopGroup();
      ScaleGrows(63, shift);
    }
  }

  lemma {:induction false} ReadFromEncoding(data: bytes, pos: nat, shift: nat, value: nat, v: nat)
    requires At(data, pos, Encoding(v))
    requires shift % 7 == 0 && v * Scale(shift) < TWO64
    ensures ReadFrom(data, pos, shift, value) == Value(value + v * Scale(shift), pos + |Encoding(v)|)
    decreases v
  {
    AtHead(data, pos, Encoding(v));
    GroupSplit(v, Scale(shift));
    if v >= 128 {
      GroupLeft(v, shift);
      ReadFromEncoding(data, pos + 1, shift + 7, value + v % 128 * Scale(shift), v / 128);
    }
  }

  /** Every 64-bit value, wherever its encoding stands in a buffer, is read back and nothing after it. */
  lemma RoundTrip(data: bytes, pos: nat, v: nat)
    requires At(data, pos, Encoding(v)) && v < TWO64
    ensures ReadAt(data, pos) == Value(v, pos + |Encoding(v)|)
  {
    ReadFromEncoding(data, pos, 0, 0, v);
  }

  lemma {:induction false} ReadFromBounds(data: bytes, pos: nat, shift: nat, value: nat)
    ensures
      var r := ReadFrom(data, pos, shift, value);
      r.Value? ==> pos < r.next <= |data|
    decreases |data| - pos
  {
    if pos < |data| && data[pos] >= 128 && shift + 7 <= 63 {
      ReadFromBounds(data, pos + 1, shift + 7, value + (data[pos] % 128 * Scale(shift)) % TWO64);
    }
  }

  /** The part of a group that stays in the word keeps the total below the next scale, or the word. */
  lemma GroupFits(g: nat, shift: nat, value: nat)
    requires g < 128 && shift % 7 == 0 && shift <= 63 && value < Scale(shift)
    ensures value + (g * Scale(shift)) % TWO64 < TWO64
    ensures shift < 63 ==> value + (g * Scale(shift)) % TWO64 < Scale(shift + 7)
  {
    TopGroup();
    if shift == 63 {
      assert g * Scale(63) == g / 2 * TWO64 + g % 2 * Scale(63);
    } else {
      ScaleGrows(shift + 7, 63);
      assert g * Scale(shift) <= 127 * Scale(shift);
    }
  }

  /** A read that succeeds stays in 64 bits, whatever the bytes: overlong input wraps, it never grows. */
  lemma {:induction false} ReadFromFits(data: bytes, pos: nat, shift: nat, value: nat)
    requires shift % 7 == 0 && shift <= 63 && value < Scale(shift)
    ensures
      var r := ReadFrom(data, pos, shift, value);
      r.Value? ==> r.value < TWO64
    decreases |data| - pos
  {
    if pos < |data| {
      GroupFits(data[pos] % 128, shift, value);
      if data[pos] >= 128 && shift + 7 <= 63 {
        ReadFromFits(data, pos + 1, shift + 7, value + (data[pos] % 128 * Scale(shift)) % TWO64);
      }
    }
  }

  function Moved(r: Read, skip: nat): Read {
    match r
    case Value(v, next) => Value(v, next + skip)
    case _ => r
  }

  /** Reading from a suffix is reading from the buffer, `skip` bytes on. */
  lemma {:induction false} ReadSuffix(data: bytes, skip: nat, pos: nat, shift: nat, value: nat)
    requires skip <= |data|
    ensures Moved(ReadFrom(data[skip..], pos, shift, value), skip) == ReadFrom(data, skip + pos, shift, value)
    decreases |data| - pos
  {
    if pos < |data[skip..]| && data[skip + pos] >= 128 && shift + 7 <= 63 {
      ReadSuffix(data, skip, pos + 1, shift + 7, value + (data[skip + pos] % 128 * Scale(shift)) % TWO64);
    }
  }

  method Encode(value: nat, prefix: bytes) returns (out: bytes)
    ensures out == prefix + Encoding(value)
  {
    out := prefix;
    var v := value;
    while true
      invariant prefix + Encoding(value) == out + Encoding(v)
      decreases v
    {
      var b := v % 128;
      v := v / 128;
      if v > 0 {
        b := b + 128;
      }
      out := out + [b];
      if v == 0 {
        break;
      }
    }
  }

  /** `delta.rs`: cursor form. */
  method Decode(data: bytes, start: nat) returns (r: Read)
    ensures r == ReadAt(data, start)
  {
    var value: nat, shift: nat, pos := 0, 0, start;
    while true
      invariant ReadFrom(data, pos, shift, value) == ReadAt(data, start)
      decreases |data| - pos
    {
      if pos >= |data| {
        return Truncated;
      }
      var b := data[pos];
      pos := pos + 1;
      value := value + (b % 128 * Scale(shift)) % TWO64;
      if b < 128 {
        break;
      }
      shift := shift + 7;
      if shift > 63 {
        return Overflow;
      }
    }
    r := Value(value, pos);
  }

  /** `ingest.rs`: slice form, which advances the shift before it tests the continuation bit. */
  method DecodeSlice(data: bytes) returns (r: Option<(nat, bytes)>)
    ensures
      match ReadAt(data, 0)
      case Value(v, next) => next <= |data| && r == Some((v, data[next..]))
      case _ => r == None
  {
    ReadFromBounds(data, 0, 0, 0);
    var value: nat, shift: nat := 0, 0;
    for i := 0 to |data|
      invariant ReadFrom(data, i, shift, value) == ReadAt(data, 0)
      invariant shift <= 63
    {
      var b := data[i];
      value := value + (b % 128 * Scale(shift)) % TWO64;
      shift := shift + 7;
      if b < 128 {
        return Some((value, data[i + 1..]));
      }
      if shift > 63 {
        return None;
      }
    }
    r := None;
  }
}
