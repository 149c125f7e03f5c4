/** Fixed-width integers: little-endian in delta instructions, big-endian in every frame. */
module Endian {
  import opened Bytes

  lemma {:induction false} DivUnique(v: int, m: int, q: int, r: int)
    requires m >= 1 && v == q * m + r && 0 <= r < m
    ensures v / m == q && v % m == r
  {
    var d := v / m - q;
    assert r - v % m == d * m by {
      assert v == (q + d) * m + v % m;
      assert (q + d) * m == q * m + d * m;
    }
    assert d >= 1 ==> d * m >= m;
    assert d <= -1 ==> d * m <= -m;
  }

  function LittleEndian(digits: bytes): nat {
    if digits == [] then 0 else digits[0] + 256 * LittleEndian(digits[1..])
  }

  function Digits(v: nat, n: nat): (d: bytes)
    ensures |d| == n
  {
    if n == 0 then [] else [v % 256] + Digits(v / 256, n - 1)
  }

  function Pow256(n: nat): (p: nat)
    ensures p >= 1
  {
    if n == 0 then 1 else 256 * Pow256(n - 1)
  }

  lemma {:induction false} ModStep(v: nat, m: nat)
    requires m >= 1
    ensures v % 256 + 256 * (v / 256 % m) == v % (256 * m)
  {
    var q := v / 256 / m;
    var r := v % 256 + 256 * (v / 256 % m);
    assert v / 256 == q * m + v / 256 % m;
    assert v == q * (256 * m) + r by {
      assert 256 * (q * m) == q * (256 * m);
    }
    assert 0 <= r < 256 * m;
    DivUnique(v, 256 * m, q, r);
  }

  lemma {:induction false} DigitsValue(v: nat, n: nat)
    ensures LittleEndian(Digits(v, n)) == v % Pow256(n)
  {
    if n > 0 {
      DigitsValue(v / 256, n - 1);
      assert Digits(v, n)[1..] == Digits(v / 256, n - 1);
      ModStep(v, Pow256(n - 1));
    }
  }

  lemma {:induction false} TopDigit(digits: bytes, top: byte)
    ensures LittleEndian(digits + [top]) == LittleEndian(digits) + top * Pow256(|digits|)
    decreases |digits|
  {
    if digits == [] {
      assert [] + [top] == [top];
    } else {
      assert (digits + [top])[1..] == digits[1..] + [top];
      TopDigit(digits[1..], top);
      assert 256 * (top * Pow256(|digits| - 1)) == top * Pow256(|digits|);
    }
  }

  lemma {:induction false} DigitsOfCast(v: nat, n: nat)
    ensures Digits(v % Pow256(n), n) == Digits(v, n)
  {
    if n > 0 {
      var m := Pow256(n - 1);
      ModStep(v, m);
      assert v % Pow256(n) == v % 256 + 256 * (v / 256 % m);
      assert v % Pow256(n) % 256 == v % 256 && v % Pow256(n) / 256 == v / 256 % m;
      DigitsOfCast(v / 256, n - 1);
    }
  }

  lemma {:induction false} DigitAt(v: nat, n: nat, i: nat)
    requires i < n
    ensures Digits(v, n)[i] == v / Pow256(i) % 256
  {
    if i > 0 {
      DigitAt(v / 256, n - 1, i - 1);
      DivTwice(v, Pow256(i - 1));
    }
  }

  lemma {:induction false} DivTwice(v: nat, m: nat)
    requires m >= 1
    ensures v / 256 / m == v / (256 * m)
  {
    ModStep(v, m);
    var q, r := v / 256 / m, v % (256 * m);
    assert v / 256 == q * m + v / 256 % m;
    assert 256 * (q * m) == q * (256 * m);
    DivUnique(v, 256 * m, q, r);
  }

  lemma FourDigits(a: byte, b: byte, c: byte, d: byte)
    ensures LittleEndian([a, b, c, d]) == a + 0x100 * b + 0x1_0000 * c + 0x100_0000 * d
  {
    assert [a, b, c, d][1..] == [b, c, d];
    ThreeDigits(b, c, d);
  }

  lemma ThreeDigits(a: byte, b: byte, c: byte)
    ensures LittleEndian([a, b, c]) == a + 0x100 * b + 0x1_0000 * c
  {
    assert [a, b, c][1..] == [b, c];
    assert [b, c][1..] == [c];
    assert LittleEndian([c]) == c;
  }

  // ---- Big-endian ----

  /** The low `n` bytes of `v`, most significant first; higher bytes are cut off, as in a cast. */
  function BigEndian(v: nat, n: nat): (d: bytes)
    ensures |d| == n
  {
    if n == 0 then [] else BigEndian(v / 256, n - 1) + [v % 256]
  }

  function FromBigEndian(d: bytes): nat {
    if d == [] then 0 else FromBigEndian(d[..|d| - 1]) * 256 + d[|d| - 1]
  }

  lemma {:induction false} BigEndianValue(v: nat, n: nat)
    ensures FromBigEndian(BigEndian(v, n)) == v % Pow256(n)
  {
    if n > 0 {
      BigEndianValue(v / 256, n - 1);
      assert BigEndian(v, n)[..n - 1] == BigEndian(v / 256, n - 1);
      ModStep(v, Pow256(n - 1));
    }
  }

  /** Reading is exact: the digits of what was read are the digits that were there. */
  lemma {:induction false} BigEndianRead(d: bytes)
    ensures BigEndian(FromBigEndian(d), |d|) == d && FromBigEndian(d) < Pow256(|d|)
    decreases |d|
  {
    if d != [] {
      var front, last := d[..|d| - 1], d[|d| - 1];
      BigEndianRead(front);
      var v := FromBigEndian(d);
      assert v / 256 == FromBigEndian(front) && v % 256 == last;
      assert d == front + [last];
    }
  }

  lemma Widths()
    ensures Pow256(1) == 0x100 && Pow256(2) == 0x1_0000
    ensures Pow256(4) == TWO32 && Pow256(8) == TWO64
  {
    assert Pow256(4) == 0x1_0000 * Pow256(2);
    assert Pow256(6) == TWO32 * Pow256(2);
  }

  lemma SmallMod(v: nat, m: nat)
    requires v < m
    ensures v % m == v
  {
  }
}
