/** What changed between two repository trees. */
module MstDiff {
  import opened Bytes
  import opened Lex

  datatype Change = Change(key: bytes, before: bytes, after: bytes)

  datatype Diff = Diff(created: seq<(bytes, bytes)>, updated: seq<Change>, deleted: seq<(bytes, bytes)>)

  function CreatedIn(now: map<bytes, bytes>, was: map<bytes, bytes>, keys: seq<bytes>): seq<(bytes, bytes)>
    requires forall k :: k in keys ==> k in now
  {
    if keys == [] then []
    else
      var k := keys[|keys| - 1];
      CreatedIn(now, was, keys[..|keys| - 1]) + if k in was then [] else [(k, now[k])]
  }

  function UpdatedIn(now: map<bytes, bytes>, was: map<bytes, bytes>, keys: seq<bytes>): seq<Change>
    requires forall k :: k in keys ==> k in now
  {
    if keys == [] then []
    else
      var k := keys[|keys| - 1];
      UpdatedIn(now, was, keys[..|keys| - 1])
      + if k in was && was[k] != now[k] then [Change(k, was[k], now[k])] else []
  }

  function DiffOf(now: map<bytes, bytes>, was: map<bytes, bytes>): Diff {
    Diff(CreatedIn(now, was, SortedKeys(now.Keys)), UpdatedIn(now, was, SortedKeys(now.Keys)),
         CreatedIn(was, now, SortedKeys(was.Keys)))
  }

  lemma {:induction false} CreatedExactly(now: map<bytes, bytes>, was: map<bytes, bytes>, keys: seq<bytes>)
    requires forall k :: k in keys ==> k in now
    ensures forall x :: x in CreatedIn(now, was, keys) <==> x.0 in keys && x.0 !in was && x.1 == now[x.0]
    decreases |keys|
  {
    if keys != [] {
      CreatedExactly(now, was, keys[..|keys| - 1]);
      assert keys == keys[..|keys| - 1] + [keys[|keys| - 1]];
    }
  }

  predicate Changed(now: map<bytes, bytes>, was: map<bytes, bytes>, c: Change) {
    c.key in now && c.key in was && c.before == was[c.key] && c.after == now[c.key] && c.before != c.after
  }

  lemma {:induction false} UpdatedExactly(now: map<bytes, bytes>, was: map<bytes, bytes>, keys: seq<bytes>)
    requires forall k :: k in keys ==> k in now
    ensures forall c :: c in UpdatedIn(now, was, keys) <==> c.key in keys && Changed(now, was, c)
    decreases |keys|
  {
    if keys != [] {
      UpdatedExactly(now, was, keys[..|keys| - 1]);
      assert keys == keys[..|keys| - 1] + [keys[|keys| - 1]];
    }
  }

  predicate InKeyOrder(s: seq<(bytes, bytes)>) {
    forall i, j :: 0 <= i < j < |s| ==> Less(s[i].0, s[j].0)
  }

  predicate ChangesInKeyOrder(s: seq<Change>) {
    forall i, j :: 0 <= i < j < |s| ==> Less(s[i].key, s[j].key)
  }

  lemma LastIsGreatest(keys: seq<bytes>, x: bytes)
    requires keys != [] && Increasing(keys) && x in keys[..|keys| - 1]
    ensures Less(x, keys[|keys| - 1])
  {
    hide Less;
    var i :| 0 <= i < |keys| - 1 && keys[..|keys| - 1][i] == x;
    assert keys[i] == x;
  }

  lemma {:induction false} CreatedInOrder(now: map<bytes, bytes>, was: map<bytes, bytes>, keys: seq<bytes>)
    requires Increasing(keys) && forall k :: k in keys ==> k in now
    ensures InKeyOrder(CreatedIn(now, was, keys))
    decreases |keys|
  {
    hide Less;
    if keys != [] {
      var front := keys[..|keys| - 1];
      CreatedInOrder(now, was, front);
      CreatedExactly(now, was, front);
      var c := CreatedIn(now, was, front);
      forall i | 0 <= i < |c|
        ensures Less(c[i].0, keys[|keys| - 1])
      {
        assert c[i] in c;
        LastIsGreatest(keys, c[i].0);
      }
    }
  }

  lemma {:induction false} UpdatedInOrder(now: map<bytes, bytes>, was: map<bytes, bytes>, keys: seq<bytes>)
    requires Increasing(keys) && forall k :: k in keys ==> k in now
    ensures ChangesInKeyOrder(UpdatedIn(now, was, keys))
    decreases |keys|
  {
    hide Less;
    if keys != [] {
      var front := keys[..|keys| - 1];
      UpdatedInOrder(now, was, front);
      UpdatedExactly(now, was, front);
      var u := UpdatedIn(now, was, front);
      forall i | 0 <= i < |u|
        ensures Less(u[i].key, keys[|keys| - 1])
      {
        assert u[i] in u;
        LastIsGreatest(keys, u[i].key);
      }
    }
  }

  /** Created are the new keys, deleted the old ones that are gone, updated those with another value; each once,
      with its values, in key order. */
  lemma DiffExactly(now: map<bytes, bytes>, was: map<bytes, bytes>)
    ensures
      var d := DiffOf(now, was);
      && (forall x :: x in d.created <==> x.0 in now && x.0 !in was && x.1 == now[x.0])
      && (forall x :: x in d.deleted <==> x.0 in was && x.0 !in now && x.1 == was[x.0])
      && (forall c :: c in d.updated <==>
            c.key in now && c.key in was && c.before == was[c.key] && c.after == now[c.key] && c.before != c.after)
      && InKeyOrder(d.created) && ChangesInKeyOrder(d.updated) && InKeyOrder(d.deleted)
  {
    hide CreatedIn, UpdatedIn, SortedKeys, Less, InKeyOrder, ChangesInKeyOrder;
    CreatedExactly(now, was, SortedKeys(now.Keys));
    CreatedExactly(was, now, SortedKeys(was.Keys));
    UpdatedExactly(now, was, SortedKeys(now.Keys));
    CreatedInOrder(now, was, SortedKeys(now.Keys));
    CreatedInOrder(was, now, SortedKeys(was.Keys));
    UpdatedInOrder(now, was, SortedKeys(now.Keys));
  }

  /** A map after the changes of a difference. */
  function Patched(was: map<bytes, bytes>, d: Diff): map<bytes, bytes> {
    PatchUpdates(PatchCreates(Kept(was, d), d.created), d.updated)
  }

  function Kept(was: map<bytes, bytes>, d: Diff): map<bytes, bytes> {
    was - (set x | x in d.deleted :: x.0)
  }

  function PatchCreates(m: map<bytes, bytes>, s: seq<(bytes, bytes)>): (r: map<bytes, bytes>)
    ensures r.Keys == m.Keys + set x | x in s :: x.0
  {
    if s == [] then m else PatchCreates(m, s[..|s| - 1])[s[|s| - 1].0 := s[|s| - 1].1]
  }

  function PatchUpdates(m: map<bytes, bytes>, s: seq<Change>): (r: map<bytes, bytes>)
    ensures r.Keys == m.Keys + set c | c in s :: c.key
  {
    if s == [] then m else PatchUpdates(m, s[..|s| - 1])[s[|s| - 1].key := s[|s| - 1].after]
  }

  lemma {:induction false} PatchCreatesAt(m: map<bytes, bytes>, s: seq<(bytes, bytes)>, k: bytes, v: bytes)
    requires forall x :: x in s && x.0 == k ==> x.1 == v
    requires (k in m && m[k] == v) || (k, v) in s
    ensures k in PatchCreates(m, s) && PatchCreates(m, s)[k] == v
    decreases |s|
  {
    if s != [] {
      var last := s[|s| - 1];
      assert s == s[..|s| - 1] + [last];
      if last.0 != k {
        PatchCreatesAt(m, s[..|s| - 1], k, v);
      } else {
        assert last in s;
      }
    }
  }

  lemma {:induction false} PatchUpdatesAt(m: map<bytes, bytes>, s: seq<Change>, k: bytes, v: bytes)
    requires forall c :: c in s && c.key == k ==> c.after == v
    requires (k in m && m[k] == v) || exists c :: c in s && c.key == k
    ensures k in PatchUpdates(m, s) && PatchUpdates(m, s)[k] == v
    decreases |s|
  {
    if s != [] {
      var last := s[|s| - 1];
      assert s == s[..|s| - 1] + [last];
      if last.key != k {
        PatchUpdatesAt(m, s[..|s| - 1], k, v);
      } else {
        assert last in s;
      }
    }
  }

  /** A difference turns the old map into the new one, and it is empty only between equal maps. */
  lemma {:induction false} DiffPatches(now: map<bytes, bytes>, was: map<bytes, bytes>)
    ensures Patched(was, DiffOf(now, was)) == now
    ensures DiffOf(now, was) == Diff([], [], []) <==> now == was
  {
    hide CreatedIn, UpdatedIn, SortedKeys, PatchCreates, PatchUpdates;
    var d := DiffOf(now, was);
    CreatedExactly(now, was, SortedKeys(now.Keys));
    UpdatedExactly(now, was, SortedKeys(now.Keys));
    var kept := Kept(was, d);
    KeptExactly(now, was);
    var r := PatchUpdates(PatchCreates(kept, d.created), d.updated);
    assert r.Keys <= now.Keys;
    forall k | k in now
      ensures k in r && r[k] == now[k]
    {
      PatchedAt(now, was, kept, d, k);
    }
    assert r == now;
    EmptyPatch(was);
    if now == was {
      NothingCreated(was, SortedKeys(was.Keys));
    }
  }

  lemma KeptExactly(now: map<bytes, bytes>, was: map<bytes, bytes>)
    ensures forall k :: k in Kept(was, DiffOf(now, was)) <==> k in was && k in now
    ensures forall k :: k in Kept(was, DiffOf(now, was)) ==> Kept(was, DiffOf(now, was))[k] == was[k]
  {
    hide CreatedIn, UpdatedIn, SortedKeys;
    var d := DiffOf(now, was);
    CreatedExactly(was, now, SortedKeys(was.Keys));
    forall k | k in was && k !in now
      ensures k !in Kept(was, d)
    {
      assert (k, was[k]) in d.deleted;
    }
  }

  lemma EmptyPatch(was: map<bytes, bytes>)
    ensures Patched(was, Diff([], [], [])) == was
  {
    var d := Diff([], [], []);
    assert Kept(was, d) == was;
    assert PatchUpdates(PatchCreates(was, []), []) == was;
  }

  lemma {:induction false} NothingCreated(m: map<bytes, bytes>, keys: seq<bytes>)
    requires forall k :: k in keys ==> k in m
    ensures CreatedIn(m, m, keys) == [] && UpdatedIn(m, m, keys) == []
    decreases |keys|
  {
    if keys != [] {
      NothingCreated(m, keys[..|keys| - 1]);
    }
  }

  lemma {:induction false} PatchedAt(now: map<bytes, bytes>, was: map<bytes, bytes>, kept: map<bytes, bytes>,
      d: Diff, k: bytes)
    requires k in now
    requires (forall x :: x in kept <==> x in was && x in now) && (forall x :: x in kept ==> kept[x] == was[x])
    requires forall x :: x in d.created <==> x.0 in now && x.0 !in was && x.1 == now[x.0]
    requires forall c :: c in d.updated <==> Changed(now, was, c)
    ensures k in PatchUpdates(PatchCreates(kept, d.created), d.updated)
    ensures PatchUpdates(PatchCreates(kept, d.created), d.updated)[k] == now[k]
  {
    hide PatchCreates, PatchUpdates;
    var mid := PatchCreates(kept, d.created);
    if k !in was {
      assert (k, now[k]) in d.created;
      PatchCreatesAt(kept, d.created, k, now[k]);
    } else {
      PatchCreatesAt(kept, d.created, k, was[k]);
      if was[k] != now[k] {
        assert Change(k, was[k], now[k]) in d.updated;
      }
    }
    PatchUpdatesAt(mid, d.updated, k, now[k]);
  }
}
