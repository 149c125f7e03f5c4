/** Timestamp identifiers: their s32 text, its order, and the generator's compare-and-swap loop. */
module Tid {
  import opened Bytes
  import opened Lex

  const TID_LEN: nat := 13
  const DASH: byte := '-' as int

  /** The s32 alphabet: 2 to 7, then a to z. */
  function Char(d: nat): byte
    requires d < 32
  {
    if d < 6 then '2' as int + d else 'a' as int + d - 6
  }

  /** Characters outside the alphabet count as zero. */
  function Digit(b: byte): (d: nat)
    ensures d < 32
  {
    if '2' as int <= b <= '7' as int then b as int - '2' as int
    else if 'a' as int <= b <= 'z' as int then b as int - 'a' as int + 6
    else 0
  }

  // ---- Text of a number ----

  function Pow32(w: nat): (p: nat)
    ensures p > 0
  {
    if w == 0 then 1 else 32 * Pow32(w - 1)
  }

  /** Without leading zeros; zero has no digits. */
  function S32(n: nat): bytes {
    if n == 0 then [] else S32(n / 32) + [Char(n % 32)]
  }

  function Zeros(n: nat): (z: bytes)
    ensures |z| == n
  {
    if n == 0 then [] else Zeros(n - 1) + [Char(0)]
  }

  function Padded(w: nat, s: bytes): bytes {
    if |s| < w then Zeros(w - |s|) + s else s
  }

  function TidOf(timestamp: nat, clockId: nat): bytes {
    Padded(11, S32(timestamp)) + Padded(2, S32(clockId))
  }

  /** Exactly `w` digits, the last ones of the number. */
  function Fixed(n: nat, w: nat): (s: bytes)
    ensures |s| == w
  {
    if w == 0 then [] else Fixed(n / 32, w - 1) + [Char(n % 32)]
  }

  lemma {:induction false} FixedZero(w: nat)
    ensures Fixed(0, w) == Zeros(w)
    decreases w
  {
    if w > 0 {
      FixedZero(w - 1);
    }
  }

  lemma ShorterPower(n: nat, w: nat)
    requires w > 0
    ensures n < Pow32(w) <==> n / 32 < Pow32(w - 1)
  {
  }

  /** Padding gives exactly `w` digits below 32^w, and more than `w` above. */
  lemma {:induction false} PaddedFixed(n: nat, w: nat)
    ensures n < Pow32(w) ==> Padded(w, S32(n)) == Fixed(n, w)
    ensures n < Pow32(w) <==> |S32(n)| <= w
    decreases w
  {
    if n == 0 {
      FixedZero(w);
      assert Zeros(w) + [] == Zeros(w);
    } else if w > 0 {
      PaddedFixed(n / 32, w - 1);
      ShorterPower(n, w);
      var s, c := S32(n / 32), [Char(n % 32)];
      if |s| < w - 1 {
        assert Zeros(w - 1 - |s|) + (s + c) == (Zeros(w - 1 - |s|) + s) + c;
      }
    }
  }

  function Decoded(s: bytes): nat {
    if s == [] then 0 else 32 * Decoded(s[..|s| - 1]) + Digit(s[|s| - 1])
  }

  lemma {:induction false} FixedDecodes(n: nat, w: nat)
    requires n < Pow32(w)
    ensures Decoded(Fixed(n, w)) == n
    decreases w
  {
    if w > 0 {
      ShorterPower(n, w);
      FixedDecodes(n / 32, w - 1);
      assert Fixed(n, w)[..w - 1] == Fixed(n / 32, w - 1);
    }
  }

  lemma {:induction false} DecodedFits(s: bytes)
    ensures Decoded(s) < Pow32(|s|)
    decreases |s|
  {
    if s != [] {
      DecodedFits(s[..|s| - 1]);
    }
  }

  // ---- Order ----

  lemma {:induction false} LessAppend(a: bytes, b: bytes, x: bytes, y: bytes)
    requires |a| == |b|
    ensures Less(a + x, b + y) <==> Less(a, b) || (a == b && Less(x, y))
    decreases |a|
  {
    if a == [] {
      assert a + x == x && b + y == y;
    } else {
      LessAppend(a[1..], b[1..], x, y);
      assert (a + x)[1..] == a[1..] + x && (b + y)[1..] == b[1..] + y;
      assert a == [a[0]] + a[1..] && b == [b[0]] + b[1..];
    }
  }

  lemma {:induction false} FixedOrder(m: nat, n: nat, w: nat)
    requires m < Pow32(w) && n < Pow32(w)
    ensures Less(Fixed(m, w), Fixed(n, w)) <==> m < n
    ensures Fixed(m, w) == Fixed(n, w) <==> m == n
    decreases w
  {
    if w > 0 {
      ShorterPower(m, w);
      ShorterPower(n, w);
      FixedOrder(m / 32, n / 32, w - 1);
      var a, b, x, y := Fixed(m / 32, w - 1), Fixed(n / 32, w - 1), [Char(m % 32)], [Char(n % 32)];
      LessAppend(a, b, x, y);
      if m == n {
      } else {
        FixedDecodes(m, w);
        FixedDecodes(n, w);
      }
    }
  }

  /** Identifiers below 2^55 microseconds compare as strings exactly as their pairs compare. */
  lemma TidOrder(t: nat, c: nat, u: nat, d: nat)
    requires t < Pow32(11) && u < Pow32(11) && c < 32 && d < 32
    ensures Less(TidOf(t, c), TidOf(u, d)) <==> t < u || (t == u && c < d)
    ensures TidOf(t, c) == TidOf(u, d) <==> t == u && c == d
  {
    hide S32, Padded, Fixed;
    TidDigits(t, c);
    TidDigits(u, d);
    FixedOrder(t, u, 11);
    FixedOrder(c, d, 2);
    LessAppend(Fixed(t, 11), Fixed(u, 11), Fixed(c, 2), Fixed(d, 2));
    if TidOf(t, c) == TidOf(u, d) {
      assert TidOf(t, c)[..11] == Fixed(t, 11) && TidOf(u, d)[..11] == Fixed(u, 11);
      assert TidOf(t, c)[11..] == Fixed(c, 2) && TidOf(u, d)[11..] == Fixed(d, 2);
    }
  }

  lemma TidDigits(t: nat, c: nat)
    requires t < Pow32(11) && c < 32
    ensures TidOf(t, c) == Fixed(t, 11) + Fixed(c, 2) && c < Pow32(2)
  {
    hide S32, Padded, Fixed;
    PaddedFixed(t, 11);
    assert Pow32(2) == 32 * Pow32(1) == 32 * (32 * Pow32(0));
    PaddedFixed(c, 2);
  }

  // ---- Parsing ----

  function WithoutDashes(s: bytes): bytes {
    if s == [] then [] else (if s[0] == DASH then [] else [s[0]]) + WithoutDashes(s[1..])
  }

  datatype TidError = InvalidLength(n: nat)

  function Parsed(s: bytes): Result<(nat, nat), TidError> {
    var clean := WithoutDashes(s);
    if |clean| != TID_LEN then Err(InvalidLength(|clean|))
    else Ok((Decoded(clean[..11]), Decoded(clean[11..]) % 256))
  }

  lemma {:induction false} NoDashes(s: bytes)
    requires DASH !in s
    ensures WithoutDashes(s) == s
    decreases |s|
  {
    if s != [] {
      assert s[0] in s;
      NoDashes(s[1..]);
    }
  }

  lemma {:induction false} S32HasNoDash(n: nat)
    ensures DASH !in S32(n)
  {
    if n > 0 {
      S32HasNoDash(n / 32);
    }
  }

  lemma {:induction false} ZerosHaveNoDash(n: nat)
    ensures DASH !in Zeros(n)
  {
    if n > 0 {
      ZerosHaveNoDash(n - 1);
    }
  }

  lemma TidHasNoDash(t: nat, c: nat)
    ensures DASH !in TidOf(t, c)
  {
    S32HasNoDash(t);
    S32HasNoDash(c);
    ZerosHaveNoDash(if |S32(t)| < 11 then 11 - |S32(t)| else 0);
    ZerosHaveNoDash(if |S32(c)| < 2 then 2 - |S32(c)| else 0);
  }

  /** An identifier has 13 characters and parses back exactly below 2^55 microseconds; above, parsing is an error. */
  lemma TidRoundTrip(t: nat, c: nat)
    requires c < 32
    ensures |TidOf(t, c)| == TID_LEN <==> t < Pow32(11)
    ensures Parsed(TidOf(t, c)) == if t < Pow32(11) then Ok((t, c)) else Err(InvalidLength(|TidOf(t, c)|))
  {
    hide S32, Fixed, Decoded, WithoutDashes;
    TidHasNoDash(t, c);
    NoDashes(TidOf(t, c));
    PaddedFixed(t, 11);
    assert Pow32(2) == 32 * Pow32(1) == 32 * (32 * Pow32(0));
    PaddedFixed(c, 2);
    FixedDecodes(c, 2);
    if t < Pow32(11) {
      TidDigits(t, c);
      FixedDecodes(t, 11);
      assert TidOf(t, c)[..11] == Fixed(t, 11) && TidOf(t, c)[11..] == Fixed(c, 2);
    }
  }

  lemma {:induction false} DashDropped(a: bytes, b: bytes)
    ensures WithoutDashes(a + ['-' as int] + b) == WithoutDashes(a + b)
    decreases |a|
  {
    if a == [] {
      assert ([] + ['-' as int] + b)[1..] == b && [] + b == b;
    } else {
      assert (a + ['-' as int] + b)[1..] == a[1..] + ['-' as int] + b && (a + b)[1..] == a[1..] + b;
      DashDropped(a[1..], b);
    }
  }

  /** Dashes may stand anywhere. */
  lemma DashesDoNotMatter(a: bytes, b: bytes)
    ensures Parsed(a + ['-' as int] + b) == Parsed(a + b)
  {
    DashDropped(a, b);
  }

  lemma TimestampBits()
    ensures Pow32(11) == 0x80_0000_0000_0000
  {
    assert Pow32(3) == 32768;
    assert Pow32(6) == 0x4000_0000;
    assert Pow32(9) == 0x2000_0000_0000;
  }

  // ---- The code ----

  method EncodeS32(n: nat) returns (s: bytes)
    ensures s == S32(n)
  {
    var rest := n;
    var digits: bytes := [];
    while rest > 0
      invariant S32(n) == S32(rest) + Reversed(digits)
    {
      ReversedAppend(digits, Char(rest % 32));
      assert (S32(rest / 32) + [Char(rest % 32)]) + Reversed(digits)
          == S32(rest / 32) + ([Char(rest % 32)] + Reversed(digits));
      digits := digits + [Char(rest % 32)];
      rest := rest / 32;
    }
    s := ReverseOf(digits);
  }

  method ReverseOf(s: bytes) returns (r: bytes)
    ensures r == Reversed(s)
  {
    r := [];
    for i := 0 to |s|
      invariant r == Reversed(s[..i])
    {
      assert s[..i + 1] == s[..i] + [s[i]];
      ReversedAppend(s[..i], s[i]);
      r := [s[i]] + r;
    }
    assert s[..|s|] == s;
  }

  method Pad(w: nat, s: bytes) returns (out: bytes)
    ensures out == Padded(w, s)
  {
    out := [];
    var n := if |s| < w then w - |s| else 0;
    for i := 0 to n
      invariant out == Zeros(i)
    {
      out := out + [Char(0)];
    }
    out := out + s;
  }

  method TidFromParts(timestamp: nat, clockId: nat) returns (tid: bytes)
    ensures tid == TidOf(timestamp, clockId)
  {
    var t := EncodeS32(timestamp);
    var c := EncodeS32(clockId);
    var left := Pad(11, t);
    var right := Pad(2, c);
    tid := left + right;
  }

  /** Up to eleven digits, the most that are ever decoded, the 64-bit accumulator does not overflow. */
  method DecodeS32(s: bytes) returns (n: nat)
    ensures n == Decoded(s) && (|s| <= 11 ==> n < TWO64)
  {
    n := 0;
    for i := 0 to |s|
      invariant n == Decoded(s[..i])
    {
      assert s[..i + 1][..i] == s[..i];
      n := n * 32 + Digit(s[i]);
    }
    assert s[..|s|] == s;
    DecodedFits(s);
    TimestampBits();
    if |s| <= 11 {
      PowerGrows(|s|, 11);
    }
  }

  lemma {:induction false} PowerGrows(v: nat, w: nat)
    requires v <= w
    ensures Pow32(v) <= Pow32(w)
    decreases w
  {
    if v < w {
      PowerGrows(v, w - 1);
    }
  }

  method ParseTid(s: bytes) returns (r: Result<(nat, nat), TidError>)
    ensures r == Parsed(s)
  {
    var clean := WithoutDashes(s);
    if |clean| != TID_LEN {
      return Err(InvalidLength(|clean|));
    }
    var t := DecodeS32(clean[..11]);
    var c := DecodeS32(clean[11..]);
    r := Ok((t, c % 256));
  }

  // ---- The generator under concurrent callers ----

  /** A caller has read the clock, or has also loaded the last timestamp. */
  datatype Caller = Ready(now: nat) | Loaded(now: nat, prev: nat)

  /** `issued` lists the timestamps handed out, in the order of the successful swaps. */
  datatype Generator = Generator(last: nat, callers: map<nat, Caller>, issued: seq<nat>)

  const NEW: Generator := Generator(0, map[], [])

  datatype Step = Call(id: nat, now: nat) | Load(id: nat) | Swap(id: nat, spurious: bool)

  function Candidate(now: nat, prev: nat): nat {
    if now > prev then now else prev + 1
  }

  /** One atomic action of one caller; a swap fails if the value changed, or spuriously, and the caller loads again. */
  function Next(g: Generator, step: Step): Generator {
    match step
    case Call(id, now) => if id in g.callers then g else g.(callers := g.callers[id := Ready(now)])
    case Load(id) =>
      if id in g.callers && g.callers[id].Ready? then
        g.(callers := g.callers[id := Loaded(g.callers[id].now, g.last)])
      else g
    case Swap(id, spurious) =>
      if id in g.callers && g.callers[id].Loaded? then
        var c := g.callers[id];
        if c.prev == g.last && !spurious then
          var t := Candidate(c.now, c.prev);
          Generator(t, g.callers - {id}, g.issued + [t])
        else g.(callers := g.callers[id := Ready(c.now)])
      else g
  }

  function Run(g: Generator, steps: seq<Step>): Generator
    decreases |steps|
  {
    if steps == [] then g else Run(Next(g, steps[0]), steps[1..])
  }

  predicate Ordered(g: Generator) {
    Ascending(g.issued) && forall i :: 0 <= i < |g.issued| ==> g.issued[i] <= g.last
  }

  /** In every interleaving, whatever the clocks say and however swaps fail, timestamps strictly increase. */
  lemma {:induction false} IssuedAscend(g: Generator, steps: seq<Step>)
    requires Ordered(g)
    ensures Ordered(Run(g, steps)) && g.issued <= Run(g, steps).issued
    decreases |steps|
  {
    if steps != [] {
      assert Ordered(Next(g, steps[0])) && g.issued <= Next(g, steps[0]).issued;
      IssuedAscend(Next(g, steps[0]), steps[1..]);
    }
  }

  // ---- The loop behaves like one caller at a time ----

  /** The clock reading of the caller whose swap succeeds in this step, if one does. */
  function Winner(g: Generator, step: Step): seq<nat> {
    if step.Swap? && step.id in g.callers && g.callers[step.id].Loaded?
      && g.callers[step.id].prev == g.last && !step.spurious
    then [g.callers[step.id].now] else []
  }

  function Winners(g: Generator, steps: seq<Step>): seq<nat>
    decreases |steps|
  {
    if steps == [] then [] else Winner(g, steps[0]) + Winners(Next(g, steps[0]), steps[1..])
  }

  /** No earlier than the reading, and later than `floor` and all of `earlier`. */
  ghost predicate After(n: nat, reading: nat, floor: nat, earlier: seq<nat>) {
    reading <= n && floor < n && forall e :: e in earlier ==> e < n
  }

  ghost predicate LeastAfter(t: nat, reading: nat, floor: nat, earlier: seq<nat>) {
    After(t, reading, floor, earlier) && forall n: nat :: After(n, reading, floor, earlier) ==> t <= n
  }

  lemma LeastFrom(t: nat, reading: nat, last: nat, floor: nat, earlier: seq<nat>)
    requires floor <= last && (forall e :: e in earlier ==> e <= last)
    requires last == floor || last in earlier
    requires LeastAfter(t, reading, last, [])
    ensures LeastAfter(t, reading, floor, earlier)
  {
    forall n: nat | After(n, reading, floor, earlier)
      ensures t <= n
    {
      assert After(n, reading, last, []);
    }
  }

  /** One step: a winner gets the least timestamp after its reading and the last one; nothing else is issued. */
  lemma NextIssues(g: Generator, step: Step)
    ensures
      var h, w := Next(g, step), Winner(g, step);
      if w == [] then h.issued == g.issued && h.last == g.last
      else |w| == 1 && h.issued == g.issued + [h.last] && LeastAfter(h.last, w[0], g.last, [])
  {
  }

  /** The last timestamp is the latest one issued, or the initial one. */
  ghost predicate Latest(g: Generator, floor: nat) {
    && floor <= g.last && (forall e :: e in g.issued ==> e <= g.last)
    && (g.last == floor || g.last in g.issued)
  }

  /**
   * Every run behaves as one caller at a time would: the timestamps handed out are, in the order of the successful
   * swaps, each the least that is no earlier than the winner's reading and later than all before it.
   */
  lemma {:induction false} Linearizes(g: Generator, floor: nat, steps: seq<Step>)
    requires Latest(g, floor)
    ensures Explains(Run(g, steps).issued, g.issued, Winners(g, steps), floor)
    decreases |steps|
  {
    hide Next, Winner, Latest, Explains;
    if steps == [] {
      NothingIssued(g.issued, floor);
    } else {
      var h, w := Next(g, steps[0]), Winner(g, steps[0]);
      NextIssues(g, steps[0]);
      NextLatest(g, floor, steps[0]);
      Linearizes(h, floor, steps[1..]);
      if w == [] {
        assert w + Winners(h, steps[1..]) == Winners(h, steps[1..]);
      } else {
        LatestLeast(g, floor, h.last, w[0]);
        OneMoreIssued(Run(g, steps).issued, g.issued, h.last, w[0], Winners(h, steps[1..]), floor);
        assert [w[0]] == w;
      }
    }
  }

  /** `issued` continues `before` with one timestamp for each reading, each the least after the reading and all
      before. */
  ghost predicate Explains(issued: seq<nat>, before: seq<nat>, readings: seq<nat>, floor: nat) {
    && |issued| == |before| + |readings| && issued[..|before|] == before
    && forall i :: 0 <= i < |readings| ==>
         LeastAfter(issued[|before| + i], readings[i], floor, issued[..|before| + i])
  }

  lemma NothingIssued(before: seq<nat>, floor: nat)
    ensures Explains(before, before, [], floor)
  {
  }

  lemma OneMoreIssued(issued: seq<nat>, before: seq<nat>, t: nat, reading: nat, rest: seq<nat>, floor: nat)
    requires Explains(issued, before + [t], rest, floor) && LeastAfter(t, reading, floor, before)
    ensures Explains(issued, before, [reading] + rest, floor)
  {
    hide LeastAfter;
    var n, all := |before|, [reading] + rest;
    assert issued[..n] == issued[..n + 1][..n] == before && issued[n] == issued[..n + 1][n] == t;
    forall i | 0 <= i < |all|
      ensures LeastAfter(issued[n + i], all[i], floor, issued[..n + i])
    {
      if i > 0 {
        assert all[i] == rest[i - 1] && n + i == |before + [t]| + (i - 1);
      }
    }
  }

  lemma LatestLeast(g: Generator, floor: nat, t: nat, reading: nat)
    requires Latest(g, floor) && LeastAfter(t, reading, g.last, [])
    ensures LeastAfter(t, reading, floor, g.issued)
  {
    hide LeastAfter;
    LeastFrom(t, reading, g.last, floor, g.issued);
  }

  lemma NextLatest(g: Generator, floor: nat, step: Step)
    requires Latest(g, floor)
    ensures Latest(Next(g, step), floor)
  {
    hide Next, Winner;
    NextIssues(g, step);
  }

  /** From a new generator, a reading ahead of everything issued before is the timestamp itself. */
  lemma ClockIsKept(steps: seq<Step>, i: nat)
    requires i < |Winners(NEW, steps)|
    ensures
      var issued, w := Run(NEW, steps).issued, Winners(NEW, steps);
      && |issued| == |w|
      && (After(w[i], w[i], 0, issued[..i]) ==> issued[i] == w[i])
  {
    hide Run, Winners;
    Linearizes(NEW, 0, steps);
    assert LeastAfter(Run(NEW, steps).issued[0 + i], Winners(NEW, steps)[i], 0, Run(NEW, steps).issued[..0 + i]);
  }

  /** A caller that is not disturbed gets its timestamp: one call, one load, one swap. */
  lemma SoloCall(g: Generator, id: nat, now: nat)
    requires id !in g.callers
    ensures
      var h := Run(g, [Call(id, now), Load(id), Swap(id, false)]);
      && h.issued == g.issued + [h.last] && LeastAfter(h.last, now, g.last, [])
      && h.callers == g.callers
  {
    var a := Next(g, Call(id, now));
    var b := Next(a, Load(id));
    var c := Next(b, Swap(id, false));
    RunThree(g, Call(id, now), Load(id), Swap(id, false));
    assert b.callers[id] == Loaded(now, g.last) && c.callers == g.callers;
    NextIssues(b, Swap(id, false));
  }

  lemma RunThree(g: Generator, x: Step, y: Step, z: Step)
    ensures Run(g, [x, y, z]) == Next(Next(Next(g, x), y), z)
  {
    hide Next;
    assert [x, y, z][1..] == [y, z] && [y, z][1..] == [z] && [z][1..] == [];
    assert Run(Next(Next(g, x), y), [z]) == Next(Next(Next(g, x), y), z);
  }

  /** So the identifiers of one generator strictly increase as strings. */
  lemma TidsIncrease(steps: seq<Step>, clockId: nat, i: nat, j: nat)
    requires clockId < 32
    requires i < j < |Run(NEW, steps).issued|
    requires Run(NEW, steps).issued[j] < Pow32(11)
    ensures var issued := Run(NEW, steps).issued;
      Less(TidOf(issued[i], clockId), TidOf(issued[j], clockId))
  {
    hide Run, TidOf, Less;
    IssuedAscend(NEW, steps);
    var issued := Run(NEW, steps).issued;
    TidOrder(issued[i], clockId, issued[j], clockId);
  }
}
