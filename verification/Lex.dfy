/** The byte-wise order of strings: every sorted list and ordered map of the registry uses it. */
module Lex {
  import opened Bytes

  predicate Less(a: bytes, b: bytes) {
    b != [] && (a == [] || a[0] < b[0] || (a[0] == b[0] && Less(a[1..], b[1..])))
  }

  lemma {:induction false} Irreflexive(a: bytes)
    ensures !Less(a, a)
    decreases |a|
  {
    if a != [] {
      Irreflexive(a[1..]);
    }
  }

  lemma {:induction false} Transitive(a: bytes, b: bytes, c: bytes)
    requires Less(a, b) && Less(b, c)
    ensures Less(a, c)
    decreases |a|
  {
    if a != [] && a[0] == b[0] && b[0] == c[0] {
      Transitive(a[1..], b[1..], c[1..]);
    }
  }

  lemma {:induction false} Trichotomy(a: bytes, b: bytes)
    ensures Less(a, b) || a == b || Less(b, a)
    decreases |a|
  {
    if a != [] && b != [] && a[0] == b[0] {
      Trichotomy(a[1..], b[1..]);
      if a[1..] == b[1..] {
        assert a == [a[0]] + a[1..] && b == [b[0]] + b[1..];
      }
    }
  }

  lemma Asymmetric(a: bytes, b: bytes)
    requires Less(a, b)
    ensures !Less(b, a)
  {
    if Less(b, a) {
      Transitive(a, b, a);
      Irreflexive(a);
    }
  }

  predicate Increasing(s: seq<bytes>) {
    forall i, j :: 0 <= i < j < |s| ==> Less(s[i], s[j])
  }

  /** Two strictly increasing lists of the same strings are the same list. */
  lemma {:induction false} IncreasingIsUnique(s: seq<bytes>, t: seq<bytes>)
    requires Increasing(s) && Increasing(t)
    requires forall x :: x in s <==> x in t
    ensures s == t
    decreases |s|
  {
    assert t == [] || t[0] in t;
    if s != [] {
      assert s[0] in t;
      var k :| 0 <= k < |t| && t[k] == s[0];
      assert t[0] in s;
      var j :| 0 <= j < |s| && s[j] == t[0];
      if k > 0 {
        assert Less(t[0], t[k]);
        if j > 0 {
          assert Less(s[0], s[j]);
          Asymmetric(s[0], s[j]);
        } else {
          Irreflexive(s[0]);
        }
      }
      assert s[0] == t[0];
      forall x
        ensures x in s[1..] <==> x in t[1..]
      {
        Irreflexive(s[0]);
        assert x in s[1..] ==> x in s && x != s[0];
        assert x in t[1..] ==> x in t && x != t[0];
        assert x in s && x != s[0] ==> x in s[1..];
        assert x in t && x != t[0] ==> x in t[1..];
      }
      IncreasingIsUnique(s[1..], t[1..]);
      assert s == [s[0]] + s[1..] && t == [t[0]] + t[1..];
    }
  }

  function InsertSorted(x: bytes, s: seq<bytes>): seq<bytes> {
    if s == [] || Less(x, s[0]) then [x] + s
    else if x == s[0] then s
    else [s[0]] + InsertSorted(x, s[1..])
  }

  /** Sorted, without repetition: the source's `sort` followed by `dedup`. */
  function SortDedup(s: seq<bytes>): seq<bytes> {
    if s == [] then [] else InsertSorted(s[0], SortDedup(s[1..]))
  }

  lemma {:induction false} InsertKeeps(x: bytes, s: seq<bytes>)
    requires Increasing(s)
    ensures Increasing(InsertSorted(x, s))
    ensures forall y :: y in InsertSorted(x, s) <==> y == x || y in s
    decreases |s|
  {
    if s == [] {
    } else if Less(x, s[0]) {
      forall j | 0 <= j < |s|
        ensures Less(x, s[j])
      {
        if j > 0 {
          Transitive(x, s[0], s[j]);
        }
      }
    } else if x != s[0] {
      Trichotomy(x, s[0]);
      var rest := s[1..];
      InsertKeeps(x, rest);
      var r := InsertSorted(x, rest);
      assert s == [s[0]] + rest;
      forall j | 0 <= j < |r|
        ensures Less(s[0], r[j])
      {
        assert r[j] in r;
        if r[j] != x {
          assert r[j] in rest;
        }
      }
    }
  }

  lemma {:induction false} SortDedupKeeps(s: seq<bytes>)
    ensures Increasing(SortDedup(s))
    ensures forall y :: y in SortDedup(s) <==> y in s
    decreases |s|
  {
    if s != [] {
      SortDedupKeeps(s[1..]);
      InsertKeeps(s[0], SortDedup(s[1..]));
      assert s == [s[0]] + s[1..];
    }
  }

  // ---- The iteration order of an ordered map ----

  lemma {:induction false} HasLeast(keys: set<bytes>)
    requires keys != {}
    ensures exists k :: k in keys && IsLeast(k, keys)
    decreases |keys|
  {
    var k :| k in keys;
    if keys == {k} {
      assert IsLeast(k, keys);
    } else {
      HasLeast(keys - {k});
      var m :| m in keys - {k} && IsLeast(m, keys - {k});
      Trichotomy(k, m);
      if Less(m, k) {
        assert IsLeast(m, keys);
      } else {
        forall x | x in keys && x != k
          ensures Less(k, x)
        {
          if x != m {
            Transitive(k, m, x);
          }
        }
        assert IsLeast(k, keys);
      }
    }
  }

  predicate IsLeast(k: bytes, keys: set<bytes>) {
    forall x :: x in keys && x != k ==> Less(k, x)
  }

  lemma LeastIsUnique(j: bytes, k: bytes, keys: set<bytes>)
    requires j in keys && k in keys && IsLeast(j, keys) && IsLeast(k, keys)
    ensures j == k
  {
    if j != k {
      Asymmetric(j, k);
    }
  }

  function Least(keys: set<bytes>): (k: bytes)
    requires keys != {}
    ensures k in keys && IsLeast(k, keys)
  {
    HasLeast(keys);
    assert forall j, k :: j in keys && k in keys && IsLeast(j, keys) && IsLeast(k, keys) ==> j == k by {
      forall j, k | j in keys && k in keys && IsLeast(j, keys) && IsLeast(k, keys)
        ensures j == k
      {
        LeastIsUnique(j, k, keys);
      }
    }
    var k :| k in keys && IsLeast(k, keys);
    k
  }

  function SortedKeys(keys: set<bytes>): (s: seq<bytes>)
    ensures Increasing(s)
    ensures forall k :: k in s <==> k in keys
    decreases |keys|
  {
    if keys == {} then [] else
      var k := Least(keys);
      var rest := SortedKeys(keys - {k});
      assert forall x :: x in rest ==> Less(k, x);
      assert forall j :: 0 <= j < |rest| ==> rest[j] in rest;
      [k] + rest
  }
}
