/** Staged transactions: byte accounting, limits, and what a commit promotes. */
module Transaction {
  import opened Bytes
  import opened Lex

  type Id = bytes
  type Kappa = bytes
  type Blobs = map<Kappa, bytes>

  datatype Verdict = Match | Mismatch | Invalid

  /** Limits, the content check of the store's labels, and which staged file names are listed as blobs. */
  datatype Config = Config(maxConcurrent: nat, maxPerTxn: nat, maxGlobal: nat, timeout: nat,
                           verify: (Kappa, bytes) -> Verdict, listed: Kappa -> bool)

  datatype Txn = Txn(createdAt: nat, stagedBytes: int, dirCreated: bool)

  /** The manager: its table, its two counters, the staging directories, and the main store. */
  datatype State = State(active: map<Id, Txn>, activeCount: int, total: int, staging: map<Id, Blobs>, store: Blobs)

  datatype Error = NotFound | AtCapacity | PerTxnLimit | GlobalLimit | DigestMismatch | InvalidLabel | Rejected

  // ---- Sums over maps ----

  ghost function Sum(m: map<bytes, int>): int
    decreases |m|
  {
    if m == map[] then 0
    else
      var k :| k in m;
      m[k] + Sum(m - {k})
  }

  lemma {:induction false} SumRemove(m: map<bytes, int>, k: bytes)
    requires k in m
    ensures Sum(m) == m[k] + Sum(m - {k})
    decreases |m|
  {
    var j :| j in m && Sum(m) == m[j] + Sum(m - {j});
    if j != k {
      SumRemove(m - {j}, k);
      SumRemove(m - {k}, j);
      assert m - {j} - {k} == m - {k} - {j};
    }
  }

  lemma SumPut(m: map<bytes, int>, k: bytes, v: int)
    ensures Sum(m[k := v]) == (if k in m then Sum(m) - m[k] else Sum(m)) + v
  {
    SumRemove(m[k := v], k);
    if k in m {
      SumRemove(m, k);
      assert m[k := v] - {k} == m - {k};
    } else {
      assert m[k := v] - {k} == m;
    }
  }

  lemma {:induction false} SumNonNegative(m: map<bytes, int>)
    requires forall k :: k in m ==> m[k] >= 0
    ensures Sum(m) >= 0 && forall k :: k in m ==> m[k] <= Sum(m)
    decreases |m|
  {
    forall k | k in m
      ensures m[k] <= Sum(m)
    {
      SumRemove(m, k);
      SumNonNegative(m - {k});
    }
    if m != map[] {
      var k :| k in m;
      assert 0 <= m[k] <= Sum(m);
    }
  }

  ghost function Sizes(blobs: Blobs): map<bytes, int> {
    map k | k in blobs :: |blobs[k]|
  }

  /** The total size of the distinct blobs in a staging directory. */
  ghost function Size(blobs: Blobs): int {
    Sum(Sizes(blobs))
  }

  lemma SizePut(blobs: Blobs, k: Kappa, content: bytes)
    requires k !in blobs
    ensures Size(blobs[k := content]) == Size(blobs) + |content|
  {
    assert Sizes(blobs[k := content]) == Sizes(blobs)[k := |content|];
    SumPut(Sizes(blobs), k, |content|);
  }

  ghost function StagedBytes(active: map<Id, Txn>): map<bytes, int> {
    map id | id in active :: active[id].stagedBytes
  }

  // ---- The steps ----

  function Staged(s: State, id: Id): Blobs {
    if id in s.staging then s.staging[id] else map[]
  }

  function Begun(s: State, id: Id, now: nat): State {
    s.(active := s.active[id := Txn(now, 0, false)], activeCount := s.activeCount + 1)
  }

  /** Where a put stops, if it does, before it touches the staging directory. */
  function PutCheck(c: Config, s: State, id: Id, kappa: Kappa, content: bytes): Option<Error> {
    match c.verify(kappa, content)
    case Mismatch => Some(DigestMismatch)
    case Invalid => Some(InvalidLabel)
    case Match =>
      if id !in s.active then Some(NotFound)
      else if s.active[id].stagedBytes + |content| > c.maxPerTxn then Some(PerTxnLimit)
      else if s.total + |content| > c.maxGlobal then Some(GlobalLimit)
      else None
  }

  /** Staging a blob: a first one makes the directory, and one already there is not counted again. */
  function WithBlob(s: State, id: Id, kappa: Kappa, content: bytes): State
    requires id in s.active
  {
    var t, blobs := s.active[id], Staged(s, id);
    if kappa in blobs then
      s.(active := s.active[id := t.(dirCreated := true)], staging := s.staging[id := blobs])
    else
      s.(active := s.active[id := t.(dirCreated := true, stagedBytes := t.stagedBytes + |content|)],
         staging := s.staging[id := blobs[kappa := content]],
         total := s.total + |content|)
  }

  /** The transaction is gone, with its directory and its bytes. */
  function Dropped(s: State, id: Id): State
    requires id in s.active
  {
    s.(active := s.active - {id}, activeCount := s.activeCount - 1,
       total := s.total - s.active[id].stagedBytes, staging := s.staging - {id})
  }

  function DroppedAll(s: State, ids: seq<Id>): State
    decreases |ids|
  {
    if ids == [] then s
    else
      var t := DroppedAll(s, ids[..|ids| - 1]);
      if ids[|ids| - 1] in t.active then Dropped(t, ids[|ids| - 1]) else t
  }

  predicate Expired(c: Config, t: Txn, now: nat) {
    now - t.createdAt > c.timeout
  }

  // ---- The invariant ----

  ghost predicate TxnSound(c: Config, s: State, id: Id)
    requires id in s.active
  {
    && (s.active[id].dirCreated <==> id in s.staging)
    && s.active[id].stagedBytes == Size(Staged(s, id)) <= c.maxPerTxn
    && (forall k :: k in Staged(s, id) ==> c.verify(k, Staged(s, id)[k]) == Match)
  }

  /** Counters agree with the staged blobs, limits hold, and only running transactions have a directory. */
  ghost predicate Sound(c: Config, s: State) {
    && (forall id :: id in s.active ==> TxnSound(c, s, id))
    && (forall id :: id in s.staging ==> id in s.active)
    && s.total == Sum(StagedBytes(s.active)) <= c.maxGlobal
    && s.activeCount == |s.active| <= c.maxConcurrent
  }

  /** A transaction that a step does not name stays as it was. */
  lemma Untouched(c: Config, s: State, t: State, i: Id)
    requires i in s.active && TxnSound(c, s, i) && i in t.active && t.active[i] == s.active[i]
    requires i in t.staging <==> i in s.staging
    requires i in s.staging ==> t.staging[i] == s.staging[i]
    ensures TxnSound(c, t, i)
  {
    hide Size;
  }

  lemma BegunTxn(c: Config, s: State, id: Id, now: nat)
    requires id !in s.staging
    ensures TxnSound(c, Begun(s, id, now), id)
  {
    assert Sizes(map[]) == map[];
  }

  lemma BeginSound(c: Config, s: State, id: Id, now: nat)
    requires Sound(c, s) && id !in s.active && s.activeCount < c.maxConcurrent
    ensures Sound(c, Begun(s, id, now))
  {
    hide Sum, TxnSound;
    var t := Begun(s, id, now);
    assert StagedBytes(t.active) == StagedBytes(s.active)[id := 0];
    SumPut(StagedBytes(s.active), id, 0);
    BegunTxn(c, s, id, now);
    forall i | i in t.active
      ensures TxnSound(c, t, i)
    {
      if i != id {
        Untouched(c, s, t, i);
      }
    }
  }

  lemma PutTxn(c: Config, s: State, id: Id, kappa: Kappa, content: bytes)
    requires id in s.active && TxnSound(c, s, id) && PutCheck(c, s, id, kappa, content).None?
    ensures TxnSound(c, WithBlob(s, id, kappa, content), id)
  {
    hide Size;
    if kappa !in Staged(s, id) {
      SizePut(Staged(s, id), kappa, content);
    } else {
      assert Staged(WithBlob(s, id, kappa, content), id) == Staged(s, id);
    }
  }

  lemma PutTotal(s: State, id: Id, kappa: Kappa, content: bytes)
    requires id in s.active && s.total == Sum(StagedBytes(s.active))
    ensures WithBlob(s, id, kappa, content).total == Sum(StagedBytes(WithBlob(s, id, kappa, content).active))
  {
    hide Sum;
    var t := WithBlob(s, id, kappa, content);
    assert StagedBytes(t.active) == StagedBytes(s.active)[id := t.active[id].stagedBytes];
    SumPut(StagedBytes(s.active), id, t.active[id].stagedBytes);
  }

  lemma {:induction false} PutSound(c: Config, s: State, id: Id, kappa: Kappa, content: bytes)
    requires Sound(c, s) && PutCheck(c, s, id, kappa, content).None?
    ensures Sound(c, WithBlob(s, id, kappa, content))
  {
    hide Sum, StagedBytes, TxnSound;
    var t := WithBlob(s, id, kappa, content);
    PutTxn(c, s, id, kappa, content);
    PutTotal(s, id, kappa, content);
    forall i | i in t.active
      ensures TxnSound(c, t, i)
    {
      if i != id {
        Untouched(c, s, t, i);
      }
    }
    assert t.active.Keys == s.active.Keys;
  }

  lemma DropTotal(c: Config, s: State, id: Id)
    requires Sound(c, s) && id in s.active
    ensures Dropped(s, id).total == Sum(StagedBytes(Dropped(s, id).active))
    ensures 0 <= s.active[id].stagedBytes <= s.total
  {
    hide Sum, TxnSound;
    assert StagedBytes(Dropped(s, id).active) == StagedBytes(s.active) - {id};
    SumRemove(StagedBytes(s.active), id);
    BytesNonNegative(c, s);
    SumNonNegative(StagedBytes(s.active));
    assert StagedBytes(s.active)[id] <= Sum(StagedBytes(s.active));
  }

  /** Ending a transaction gives back exactly its bytes; no counter goes below zero. */
  lemma {:induction false} DropSound(c: Config, s: State, id: Id)
    requires Sound(c, s) && id in s.active
    ensures Sound(c, Dropped(s, id)) && Dropped(s, id).total >= 0 && Dropped(s, id).activeCount >= 0
  {
    hide Sum, StagedBytes, TxnSound;
    var t := Dropped(s, id);
    DropTotal(c, s, id);
    assert |t.active| == |s.active| - 1 by {
      assert t.active.Keys == s.active.Keys - {id};
    }
    forall i | i in t.active
      ensures TxnSound(c, t, i)
    {
      Untouched(c, s, t, i);
    }
  }

  lemma BytesNonNegative(c: Config, s: State)
    requires Sound(c, s)
    ensures forall id :: id in s.active ==> s.active[id].stagedBytes >= 0
  {
    forall id | id in s.active
      ensures s.active[id].stagedBytes >= 0
    {
      assert TxnSound(c, s, id);
      SumNonNegative(Sizes(Staged(s, id)));
    }
  }

  lemma {:induction false} DropAllSound(c: Config, s: State, ids: seq<Id>)
    requires Sound(c, s)
    ensures Sound(c, DroppedAll(s, ids))
    ensures DroppedAll(s, ids).active == s.active - Listed(ids)
    ensures DroppedAll(s, ids).staging == s.staging - Listed(ids)
    ensures DroppedAll(s, ids).store == s.store
    decreases |ids|
  {
    hide Sound;
    if ids != [] {
      var front, last := ids[..|ids| - 1], ids[|ids| - 1];
      DropAllSound(c, s, front);
      var t := DroppedAll(s, front);
      OneMore(ids);
      if last in t.active {
        DropSound(c, t, last);
      } else {
        NoDirectory(c, t, last);
      }
    }
  }

  function Listed(ids: seq<Id>): set<Id> {
    set id | id in ids
  }

  lemma OneMore(ids: seq<Id>)
    requires ids != []
    ensures Listed(ids) == Listed(ids[..|ids| - 1]) + {ids[|ids| - 1]}
  {
    assert ids == ids[..|ids| - 1] + [ids[|ids| - 1]];
  }

  lemma NoDirectory(c: Config, s: State, id: Id)
    requires Sound(c, s) && id !in s.active
    ensures id !in s.staging
  {
  }

  // ---- Commit ----

  /** Ingesting blobs into the main store one by one, until the store rejects one. */
  function Promote(store: Blobs, blobs: Blobs, order: seq<Kappa>, accepts: Kappa -> bool): (r: (Blobs, nat))
    requires forall k :: k in order ==> k in blobs
    ensures r.1 <= |order|
    decreases |order|
  {
    if order == [] || !accepts(order[0]) then (store, 0)
    else
      var (after, n) := Promote(Ingest(store, order[0], blobs[order[0]]), blobs, order[1..], accepts);
      (after, n + 1)
  }

  /** The store is content-addressed: a kappa it already has stays as it is. */
  function Ingest(store: Blobs, k: Kappa, content: bytes): Blobs {
    if k in store then store else store[k := content]
  }

  function OnlyListed(c: Config, ks: seq<Kappa>): (r: seq<Kappa>)
    ensures forall k :: k in r ==> k in ks
  {
    if ks == [] then [] else (if c.listed(ks[0]) then [ks[0]] else []) + OnlyListed(c, ks[1..])
  }

  /** The staged blobs in the order in which a commit promotes them. */
  function StagedOrder(c: Config, s: State, id: Id): (r: seq<Kappa>)
    ensures forall k :: k in r ==> k in Staged(s, id)
  {
    OnlyListed(c, SortedKeys(Staged(s, id).Keys))
  }

  function Committed(c: Config, s: State, id: Id, accepts: Kappa -> bool): (r: (State, Result<seq<Kappa>, Error>)) {
    if id !in s.active then (s, Err(NotFound))
    else if !s.active[id].dirCreated then
      (s.(active := s.active - {id}, activeCount := s.activeCount - 1), Ok([]))
    else
      var order := StagedOrder(c, s, id);
      var (store, n) := Promote(s.store, Staged(s, id), order, accepts);
      if n < |order| then (s.(store := store), Err(Rejected))
      else (Dropped(s, id).(store := store), Ok(order))
  }

  /** Labels that pass the content check look like labels to the directory listing. */
  ghost predicate LabelsListed(c: Config) {
    forall k, content :: c.verify(k, content) == Match ==> c.listed(k)
  }

  lemma {:induction false} AllListed(c: Config, ks: seq<Kappa>)
    requires forall k :: k in ks ==> c.listed(k)
    ensures OnlyListed(c, ks) == ks
    decreases |ks|
  {
    if ks != [] {
      AllListed(c, ks[1..]);
    }
  }

  /** The main store together with staged blobs; what it has already wins. */
  function Overlaid(store: Blobs, blobs: Blobs): Blobs {
    blobs + store
  }

  lemma {:induction false} PromoteKeys(store: Blobs, blobs: Blobs, order: seq<Kappa>, accepts: Kappa -> bool)
    requires forall k :: k in order ==> k in blobs
    ensures var (after, n) := Promote(store, blobs, order, accepts);
      forall k :: k in after <==> k in store || k in order[..n]
    decreases |order|
  {
    if order != [] && accepts(order[0]) {
      var k0, rest := order[0], order[1..];
      PromoteKeys(Ingest(store, k0, blobs[k0]), blobs, rest, accepts);
      var (after, n) := Promote(Ingest(store, k0, blobs[k0]), blobs, rest, accepts);
      assert order[..n + 1] == [k0] + rest[..n];
    }
  }

  lemma {:induction false} PromoteContents(store: Blobs, blobs: Blobs, order: seq<Kappa>, accepts: Kappa -> bool)
    requires forall k :: k in order ==> k in blobs
    ensures var after := Promote(store, blobs, order, accepts).0;
      forall k :: k in after ==> k in Overlaid(store, blobs) && after[k] == Overlaid(store, blobs)[k]
    decreases |order|
  {
    if order != [] && accepts(order[0]) {
      var k0 := order[0];
      PromoteContents(Ingest(store, k0, blobs[k0]), blobs, order[1..], accepts);
      assert Overlaid(Ingest(store, k0, blobs[k0]), blobs) == Overlaid(store, blobs);
    }
  }

  lemma {:induction false} PromotesAll(store: Blobs, blobs: Blobs, order: seq<Kappa>, accepts: Kappa -> bool)
    requires forall k :: k in order ==> k in blobs
    ensures Promote(store, blobs, order, accepts).1 == |order| <==> forall k :: k in order ==> accepts(k)
    decreases |order|
  {
    if order != [] {
      assert order == [order[0]] + order[1..];
      if accepts(order[0]) {
        PromotesAll(Ingest(store, order[0], blobs[order[0]]), blobs, order[1..], accepts);
      }
    }
  }

  /** The store has gained the first blobs in order, up to one that it rejects. */
  lemma PromoteExact(store: Blobs, blobs: Blobs, order: seq<Kappa>, accepts: Kappa -> bool)
    requires forall k :: k in order ==> k in blobs
    ensures var (after, n) := Promote(store, blobs, order, accepts);
      && (forall k :: k in after <==> k in store || k in order[..n])
      && (forall k :: k in after ==> k in Overlaid(store, blobs) && after[k] == Overlaid(store, blobs)[k])
    ensures Promote(store, blobs, order, accepts).1 == |order| <==> forall k :: k in order ==> accepts(k)
  {
    hide Promote, Overlaid;
    PromoteKeys(store, blobs, order, accepts);
    PromoteContents(store, blobs, order, accepts);
    PromotesAll(store, blobs, order, accepts);
  }

  /**
   * A commit succeeds exactly when its transaction runs and the store takes every staged blob;
   * then the store has gained exactly the staged blobs, the transaction is gone, and nothing else changed.
   */
  lemma {:induction false} CommitExact(c: Config, s: State, id: Id, accepts: Kappa -> bool)
    requires Sound(c, s) && LabelsListed(c)
    ensures var (t, r) := Committed(c, s, id, accepts);
      && (r.Ok? <==> id in s.active && forall k :: k in Staged(s, id) ==> accepts(k))
      && (r.Ok? ==> r.value == SortedKeys(Staged(s, id).Keys)
                    && t == Dropped(s, id).(store := Overlaid(s.store, Staged(s, id))))
      && (r.Err? ==> t == s.(store := t.store)
                     && forall k :: k in s.store ==> k in t.store && t.store[k] == s.store[k])
      && (forall k :: k in t.store && k !in s.store ==> k in Staged(s, id) && t.store[k] == Staged(s, id)[k])
      && (id !in s.active ==> r == Err(NotFound) && t == s)
  {
    if id in s.active {
      hide Sum, Size, Promote, SortedKeys, OnlyListed;
      assert TxnSound(c, s, id);
      if !s.active[id].dirCreated {
        NothingStaged(c, s, id);
      } else {
        var keys := SortedKeys(Staged(s, id).Keys);
        AllListed(c, keys);
        PromoteExact(s.store, Staged(s, id), keys, accepts);
        CommitStore(c, s, id, accepts);
      }
    }
  }

  lemma {:induction false} OnlyListedKeeps(c: Config, ks: seq<Kappa>)
    requires Increasing(ks)
    ensures Increasing(OnlyListed(c, ks)) && forall k :: k in OnlyListed(c, ks) <==> k in ks && c.listed(k)
    decreases |ks|
  {
    hide Less;
    if ks != [] {
      OnlyListedKeeps(c, ks[1..]);
      var rest := OnlyListed(c, ks[1..]);
      assert ks == [ks[0]] + ks[1..];
      forall j | 0 <= j < |rest|
        ensures Less(ks[0], rest[j])
      {
        assert rest[j] in rest && rest[j] in ks[1..];
        var i :| 0 <= i < |ks[1..]| && ks[1..][i] == rest[j];
        assert ks[i + 1] == rest[j];
      }
    }
  }

  /** Whatever the file names look like: a commit that succeeds on a staging directory returns the listed ones, in
      order. */
  lemma CommitReturnsListed(c: Config, s: State, id: Id, accepts: Kappa -> bool)
    requires id in s.active && s.active[id].dirCreated && Committed(c, s, id, accepts).1.Ok?
    ensures
      var r := Committed(c, s, id, accepts).1.value;
      Increasing(r) && forall k :: k in r <==> k in Staged(s, id) && c.listed(k)
  {
    hide Promote, SortedKeys, OnlyListed, Less;
    OnlyListedKeeps(c, SortedKeys(Staged(s, id).Keys));
  }

  /** The keys before the `n`-th are in the store, the `n`-th is the first that was refused. */
  ghost predicate PromotedTo(before: Blobs, after: Blobs, keys: seq<Kappa>, accepts: Kappa -> bool, n: nat) {
    && n < |keys| && !accepts(keys[n]) && (forall i :: 0 <= i < n ==> accepts(keys[i]))
    && forall k :: k in after <==> k in before || k in keys[..n]
  }

  /** A commit that fails has promoted the staged blobs before the first one the store rejects, in order, and no
      other; the transaction stays. */
  lemma RejectedCommit(c: Config, s: State, id: Id, accepts: Kappa -> bool) returns (n: nat)
    requires Sound(c, s) && LabelsListed(c) && id in s.active && Committed(c, s, id, accepts).1.Err?
    ensures Committed(c, s, id, accepts).1 == Err(Rejected)
    ensures
      var t := Committed(c, s, id, accepts).0;
      t == s.(store := t.store) && PromotedTo(s.store, t.store, SortedKeys(Staged(s, id).Keys), accepts, n)
  {
    hide Sum, Size, Promote, SortedKeys, OnlyListed;
    assert TxnSound(c, s, id);
    var keys := SortedKeys(Staged(s, id).Keys);
    AllListed(c, keys);
    PromoteExact(s.store, Staged(s, id), keys, accepts);
    StopsAtFirst(s.store, Staged(s, id), keys, accepts);
    n := Promote(s.store, Staged(s, id), keys, accepts).1;
  }

  lemma {:induction false} StopsAtFirst(store: Blobs, blobs: Blobs, order: seq<Kappa>, accepts: Kappa -> bool)
    requires forall k :: k in order ==> k in blobs
    ensures
      var n := Promote(store, blobs, order, accepts).1;
      (n < |order| ==> !accepts(order[n])) && forall i :: 0 <= i < n ==> accepts(order[i])
    decreases |order|
  {
    if order != [] && accepts(order[0]) {
      StopsAtFirst(Ingest(store, order[0], blobs[order[0]]), blobs, order[1..], accepts);
    }
  }

  lemma NothingStaged(c: Config, s: State, id: Id)
    requires id in s.active && TxnSound(c, s, id) && !s.active[id].dirCreated
    ensures Staged(s, id) == map[] && s.active[id].stagedBytes == 0
    ensures SortedKeys(Staged(s, id).Keys) == []
    ensures s.staging - {id} == s.staging && Overlaid(s.store, Staged(s, id)) == s.store
  {
    assert Sizes(map[]) == map[];
    assert Staged(s, id).Keys == {};
  }

  lemma {:induction false} CommitStore(c: Config, s: State, id: Id, accepts: Kappa -> bool)
    requires StagedOrder(c, s, id) == SortedKeys(Staged(s, id).Keys)
    ensures var keys := SortedKeys(Staged(s, id).Keys);
      var (after, n) := Promote(s.store, Staged(s, id), keys, accepts);
      n == |keys| ==> after == Overlaid(s.store, Staged(s, id))
  {
    hide Promote, SortedKeys;
    var keys := SortedKeys(Staged(s, id).Keys);
    PromoteExact(s.store, Staged(s, id), keys, accepts);
    var (after, n) := Promote(s.store, Staged(s, id), keys, accepts);
    if n == |keys| {
      assert keys[..n] == keys;
      assert after.Keys == Overlaid(s.store, Staged(s, id)).Keys;
    }
  }

  // ---- Runs ----

  datatype Step =
    | Begin(id: Id, now: nat)
    | Put(id: Id, kappa: Kappa, content: bytes)
    | Commit(id: Id, accepts: Kappa -> bool)
    | Abort(id: Id)
    | Evict(ids: seq<Id>)

  /** One atomic operation; a begin draws an identifier not in use, an eviction ends the transactions it found
      expired. */
  function Next(c: Config, s: State, step: Step): State {
    match step
    case Begin(id, now) => if id !in s.active && s.activeCount < c.maxConcurrent then Begun(s, id, now) else s
    case Put(id, kappa, content) =>
      if id in s.active && PutCheck(c, s, id, kappa, content).None? then WithBlob(s, id, kappa, content) else s
    case Commit(id, accepts) => Committed(c, s, id, accepts).0
    case Abort(id) => if id in s.active then Dropped(s, id) else s
    case Evict(ids) => DroppedAll(s, ids)
  }

  function Run(c: Config, s: State, steps: seq<Step>): State
    decreases |steps|
  {
    if steps == [] then s else Run(c, Next(c, s, steps[0]), steps[1..])
  }

  lemma NextSound(c: Config, s: State, step: Step)
    requires Sound(c, s) && LabelsListed(c)
    ensures Sound(c, Next(c, s, step))
  {
    hide Sound, LabelsListed, Begun, WithBlob, Dropped, DroppedAll, Committed;
    match step {
      case Begin(id, now) =>
        if id !in s.active && s.activeCount < c.maxConcurrent {
          BeginSound(c, s, id, now);
        }
      case Put(id, kappa, content) =>
        if id in s.active && PutCheck(c, s, id, kappa, content).None? {
          PutSound(c, s, id, kappa, content);
        }
      case Commit(id, accepts) =>
        CommitSound(c, s, id, accepts);
      case Abort(id) =>
        if id in s.active {
          DropSound(c, s, id);
        }
      case Evict(ids) =>
        DropAllSound(c, s, ids);
    }
  }

  lemma CommitSound(c: Config, s: State, id: Id, accepts: Kappa -> bool)
    requires Sound(c, s) && LabelsListed(c)
    ensures Sound(c, Committed(c, s, id, accepts).0)
  {
    hide Sound, LabelsListed, Dropped, Committed, Overlaid;
    CommitExact(c, s, id, accepts);
    var (t, r) := Committed(c, s, id, accepts);
    if r.Ok? {
      DropSound(c, s, id);
      SameButStore(c, Dropped(s, id), t.store);
    } else {
      SameButStore(c, s, t.store);
    }
  }

  lemma SameButStore(c: Config, s: State, store: Blobs)
    requires Sound(c, s)
    ensures Sound(c, s.(store := store))
  {
    hide Sum, Size;
    forall id | id in s.active
      ensures TxnSound(c, s.(store := store), id)
    {
      assert TxnSound(c, s, id);
    }
  }

  /** Over every run the accounting holds, and the store only gains blobs that match their kappa. */
  lemma {:induction false} RunSound(c: Config, s: State, steps: seq<Step>)
    requires Sound(c, s) && LabelsListed(c)
    ensures Sound(c, Run(c, s, steps))
    ensures forall k :: k in s.store ==> k in Run(c, s, steps).store && Run(c, s, steps).store[k] == s.store[k]
    ensures forall k :: k in Run(c, s, steps).store && k !in s.store ==> c.verify(k, Run(c, s, steps).store[k]) == Match
    decreases |steps|
  {
    hide Sound, LabelsListed, Next;
    if steps != [] {
      NextSound(c, s, steps[0]);
      NextStore(c, s, steps[0]);
      RunSound(c, Next(c, s, steps[0]), steps[1..]);
    }
  }

  /** Only a commit changes the store. */
  lemma NextStore(c: Config, s: State, step: Step)
    requires Sound(c, s) && LabelsListed(c)
    ensures !step.Commit? ==> Next(c, s, step).store == s.store
    ensures forall k :: k in s.store ==> k in Next(c, s, step).store && Next(c, s, step).store[k] == s.store[k]
    ensures forall k :: k in Next(c, s, step).store && k !in s.store ==> c.verify(k, Next(c, s, step).store[k]) == Match
  {
    hide LabelsListed, Committed, DroppedAll, Sum, Size, PutCheck;
    match step {
      case Begin(_, _) =>
      case Put(_, _, _) =>
      case Commit(id, accepts) =>
        CommitExact(c, s, id, accepts);
        if id in s.active {
          assert TxnSound(c, s, id);
        }
      case Abort(_) =>
      case Evict(ids) =>
        DropAllSound(c, s, ids);
    }
  }

  /** A fresh manager, whatever the store holds. */
  lemma InitiallySound(c: Config, store: Blobs)
    ensures Sound(c, State(map[], 0, 0, map[], store))
  {
    assert StagedBytes(map[]) == map[];
  }

  // ---- What a transaction stages and a commit delivers ----

  /** The step may end the transaction. */
  predicate MayEnd(step: Step, id: Id) {
    ((step.Commit? || step.Abort?) && step.id == id) || (step.Evict? && id in step.ids)
  }

  ghost function SizesOf(s: State): map<bytes, int> {
    map id | id in s.active :: Size(Staged(s, id))
  }

  /** The content matches its label, the transaction runs, and the distinct blobs staged leave room for it. */
  ghost predicate Taken(c: Config, s: State, id: Id, kappa: Kappa, content: bytes) {
    && c.verify(kappa, content) == Match && id in s.active
    && Size(Staged(s, id)) + |content| <= c.maxPerTxn
    && Sum(SizesOf(s)) + |content| <= c.maxGlobal
  }

  lemma TakenExactly(c: Config, s: State, id: Id, kappa: Kappa, content: bytes)
    requires Sound(c, s)
    ensures PutCheck(c, s, id, kappa, content).None? <==> Taken(c, s, id, kappa, content)
  {
    hide Sum, Size;
    forall i | i in s.active
      ensures s.active[i].stagedBytes == Size(Staged(s, i))
    {
      assert TxnSound(c, s, i);
    }
    assert SizesOf(s) == StagedBytes(s.active);
  }

  /** The first check that fails names the error of a put. */
  lemma PutRefusals(c: Config, s: State, id: Id, kappa: Kappa, content: bytes)
    requires Sound(c, s)
    ensures
      var e, verdict := PutCheck(c, s, id, kappa, content), c.verify(kappa, content);
      var running := verdict == Match && id in s.active;
      var fits := running && Size(Staged(s, id)) + |content| <= c.maxPerTxn;
      && (e == Some(DigestMismatch) <==> verdict == Mismatch)
      && (e == Some(InvalidLabel) <==> verdict == Invalid)
      && (e == Some(NotFound) <==> verdict == Match && id !in s.active)
      && (e == Some(PerTxnLimit) <==> running && !fits)
      && (e == Some(GlobalLimit) <==> fits && Sum(SizesOf(s)) + |content| > c.maxGlobal)
  {
    hide Sum, Size;
    forall i | i in s.active
      ensures s.active[i].stagedBytes == Size(Staged(s, i))
    {
      assert TxnSound(c, s, i);
    }
    assert SizesOf(s) == StagedBytes(s.active);
  }

  /** What one step leaves staged in a transaction: a put to it that is taken adds its blob, nothing else does. */
  ghost function StagedBy(c: Config, s: State, step: Step, id: Id, blobs: Blobs): Blobs {
    if step.Put? && step.id == id && Taken(c, s, id, step.kappa, step.content) && step.kappa !in blobs
    then blobs[step.kappa := step.content] else blobs
  }

  ghost function StagedByAll(c: Config, s: State, steps: seq<Step>, id: Id, blobs: Blobs): Blobs
    decreases |steps|
  {
    if steps == [] then blobs
    else StagedByAll(c, Next(c, s, steps[0]), steps[1..], id, StagedBy(c, s, steps[0], id, blobs))
  }

  lemma NextStages(c: Config, s: State, step: Step, id: Id)
    requires Sound(c, s) && LabelsListed(c) && id in s.active && !MayEnd(step, id)
    ensures
      var t := Next(c, s, step);
      && id in t.active && t.active[id].createdAt == s.active[id].createdAt
      && Staged(t, id) == StagedBy(c, s, step, id, Staged(s, id))
  {
    hide Sound, LabelsListed, PutCheck, Taken, Committed, DroppedAll;
    match step {
      case Begin(_, _) =>
      case Put(i, kappa, content) => TakenExactly(c, s, i, kappa, content); NotRunning(c, s, i, kappa, content);
      case Commit(i, accepts) => CommitExact(c, s, i, accepts);
      case Abort(_) =>
      case Evict(ids) => DropAllSound(c, s, ids);
    }
  }

  lemma NotRunning(c: Config, s: State, id: Id, kappa: Kappa, content: bytes)
    ensures PutCheck(c, s, id, kappa, content).None? ==> id in s.active
  {
  }

  /** As long as nothing ends it, a transaction stages exactly the puts that were taken, the first content of each
      kappa, whatever the other transactions do. */
  lemma {:induction false} StagedIsPuts(c: Config, s: State, steps: seq<Step>, id: Id)
    requires Sound(c, s) && LabelsListed(c) && id in s.active
    requires forall i :: 0 <= i < |steps| ==> !MayEnd(steps[i], id)
    ensures
      var t := Run(c, s, steps);
      && id in t.active && t.active[id].createdAt == s.active[id].createdAt
      && Staged(t, id) == StagedByAll(c, s, steps, id, Staged(s, id))
    decreases |steps|
  {
    hide Sound, LabelsListed, Next, Staged, StagedBy, MayEnd;
    if steps != [] {
      NextSound(c, s, steps[0]);
      NextStages(c, s, steps[0], id);
      StagedIsPuts(c, Next(c, s, steps[0]), steps[1..], id);
    }
  }

  lemma BeginStages(c: Config, s: State, id: Id, now: nat)
    requires Sound(c, s) && id !in s.active && s.activeCount < c.maxConcurrent
    ensures
      var t := Next(c, s, Begin(id, now));
      Sound(c, t) && id in t.active && t.active[id].createdAt == now && Staged(t, id) == map[] && t.store == s.store
  {
    hide Sum, TxnSound;
    BeginSound(c, s, id, now);
  }

  /**
   * From begin to commit: the commit succeeds iff the store takes every blob that was put, returns their kappas in
   * order, and the store gains exactly those blobs; what it had stays.
   */
  lemma BeginPutCommit(c: Config, s: State, id: Id, now: nat, steps: seq<Step>, accepts: Kappa -> bool)
    requires Sound(c, s) && LabelsListed(c) && id !in s.active && s.activeCount < c.maxConcurrent
    requires forall i :: 0 <= i < |steps| ==> !MayEnd(steps[i], id)
    ensures
      var begun := Next(c, s, Begin(id, now));
      var t, puts := Run(c, begun, steps), StagedByAll(c, begun, steps, id, map[]);
      var (u, r) := Committed(c, t, id, accepts);
      && (r.Ok? <==> forall k :: k in puts ==> accepts(k))
      && (r.Ok? ==>
            && r.value == SortedKeys(puts.Keys) && id !in u.active && id !in u.staging
            && (forall k :: k in u.store <==> k in t.store || k in puts)
            && (forall k :: k in u.store ==> u.store[k] == if k in t.store then t.store[k] else puts[k]))
  {
    hide Sound, LabelsListed, Run, StagedByAll, SortedKeys, MayEnd;
    var begun := Next(c, s, Begin(id, now));
    BeginStages(c, s, id, now);
    RunSound(c, begun, steps);
    StagedIsPuts(c, begun, steps, id);
    CommitExact(c, Run(c, begun, steps), id, accepts);
  }

  // ---- A transaction alone ----

  function PutSteps(id: Id, puts: seq<(Kappa, bytes)>): seq<Step> {
    if puts == [] then [] else [Put(id, puts[0].0, puts[0].1)] + PutSteps(id, puts[1..])
  }

  function TotalOf(puts: seq<(Kappa, bytes)>): nat {
    if puts == [] then 0 else |puts[0].1| + TotalOf(puts[1..])
  }

  /** The first content given for each kappa. */
  function FirstContents(blobs: Blobs, puts: seq<(Kappa, bytes)>): Blobs
    decreases |puts|
  {
    if puts == [] then blobs
    else FirstContents(if puts[0].0 in blobs then blobs else blobs[puts[0].0 := puts[0].1], puts[1..])
  }

  lemma AloneTaken(c: Config, s: State, id: Id, kappa: Kappa, content: bytes)
    requires Sound(c, s) && s.active.Keys == {id} && c.verify(kappa, content) == Match
    requires Size(Staged(s, id)) + |content| <= c.maxPerTxn && Size(Staged(s, id)) + |content| <= c.maxGlobal
    ensures Taken(c, s, id, kappa, content)
    ensures
      var t := Next(c, s, Put(id, kappa, content));
      t.active.Keys == {id} && Size(Staged(t, id)) <= Size(Staged(s, id)) + |content|
  {
    hide Size;
    var sizes := SizesOf(s);
    assert sizes == map[id := Size(Staged(s, id))];
    SumRemove(sizes, id);
    assert sizes - {id} == map[];
    TakenExactly(c, s, id, kappa, content);
    var t := Next(c, s, Put(id, kappa, content));
    assert t == WithBlob(s, id, kappa, content);
    assert t.active.Keys == {id};
    if kappa !in Staged(s, id) {
      SizePut(Staged(s, id), kappa, content);
    } else {
      assert Staged(t, id) == Staged(s, id);
    }
  }

  lemma {:induction false} AlonePuts(c: Config, s: State, id: Id, puts: seq<(Kappa, bytes)>)
    requires Sound(c, s) && LabelsListed(c) && s.active.Keys == {id}
    requires forall i :: 0 <= i < |puts| ==> c.verify(puts[i].0, puts[i].1) == Match
    requires Size(Staged(s, id)) + TotalOf(puts) <= c.maxPerTxn && Size(Staged(s, id)) + TotalOf(puts) <= c.maxGlobal
    ensures StagedByAll(c, s, PutSteps(id, puts), id, Staged(s, id)) == FirstContents(Staged(s, id), puts)
    ensures forall i :: 0 <= i < |PutSteps(id, puts)| ==> !MayEnd(PutSteps(id, puts)[i], id)
    ensures forall i :: 0 <= i < |PutSteps(id, puts)| ==> PutSteps(id, puts)[i].Put?
    decreases |puts|
  {
    hide Sound, LabelsListed, Size, Taken, Next;
    if puts != [] {
      var step, rest := Put(id, puts[0].0, puts[0].1), puts[1..];
      AloneTaken(c, s, id, puts[0].0, puts[0].1);
      assert Next(c, s, step).active.Keys == {id};
      assert id in s.active.Keys && id in s.active;
      NextSound(c, s, step);
      NextStages(c, s, step, id);
      AlonePuts(c, Next(c, s, step), id, rest);
      assert PutSteps(id, puts)[1..] == PutSteps(id, rest);
    }
  }

  /** On a new manager, blobs that match their labels and fit the limits together all arrive in the store. */
  lemma PutsArrive(c: Config, store: Blobs, id: Id, now: nat, puts: seq<(Kappa, bytes)>)
    requires LabelsListed(c) && c.maxConcurrent >= 1
    requires forall i :: 0 <= i < |puts| ==> c.verify(puts[i].0, puts[i].1) == Match
    requires TotalOf(puts) <= c.maxPerTxn && TotalOf(puts) <= c.maxGlobal
    ensures
      var t := Run(c, Next(c, State(map[], 0, 0, map[], store), Begin(id, now)), PutSteps(id, puts));
      var (u, r) := Committed(c, t, id, _ => true);
      && r == Ok(SortedKeys(FirstContents(map[], puts).Keys))
      && u.store == FirstContents(map[], puts) + store
  {
    hide Sound, LabelsListed, Size, StagedByAll, MayEnd, SortedKeys, Next, Committed, FirstContents, Run, PutSteps;
    hide Staged;
    var s := State(map[], 0, 0, map[], store);
    var begun := Next(c, s, Begin(id, now));
    InitiallySound(c, store);
    BeginStages(c, s, id, now);
    AloneBegun(c, store, id, now);
    AlonePuts(c, begun, id, puts);
    BeginPutCommit(c, s, id, now, PutSteps(id, puts), _ => true);
    PutsKeepStore(c, begun, id, puts);
    IsUnion(Committed(c, Run(c, begun, PutSteps(id, puts)), id, _ => true).0.store, FirstContents(map[], puts), store);
  }

  lemma IsUnion(all: Blobs, puts: Blobs, store: Blobs)
    requires forall k :: k in all <==> k in store || k in puts
    requires forall k :: k in all ==> all[k] == if k in store then store[k] else puts[k]
    ensures all == puts + store
  {
  }

  lemma AloneBegun(c: Config, store: Blobs, id: Id, now: nat)
    requires c.maxConcurrent >= 1
    ensures
      var t := Next(c, State(map[], 0, 0, map[], store), Begin(id, now));
      t.active.Keys == {id} && Size(Staged(t, id)) == 0
  {
    assert Sizes(map[]) == map[];
  }

  lemma {:induction false} PutsKeepStore(c: Config, s: State, id: Id, puts: seq<(Kappa, bytes)>)
    requires Sound(c, s) && LabelsListed(c)
    ensures Run(c, s, PutSteps(id, puts)).store == s.store
    decreases |puts|
  {
    hide Sound, LabelsListed, Next;
    if puts != [] {
      var step := Put(id, puts[0].0, puts[0].1);
      NextSound(c, s, step);
      NextStore(c, s, step);
      PutsKeepStore(c, Next(c, s, step), id, puts[1..]);
      assert PutSteps(id, puts)[1..] == PutSteps(id, puts[1..]);
    }
  }

  // ---- The manager ----

  class Manager {
    const config: Config
    var active: map<Id, Txn>
    var activeCount: int
    var total: int
    var staging: map<Id, Blobs>
    var store: Blobs

    ghost function Snapshot(): State
      reads this
    {
      State(active, activeCount, total, staging, store)
    }

    constructor (config: Config, store: Blobs)
      ensures this.config == config && Snapshot() == State(map[], 0, 0, map[], store)
    {
      this.config := config;
      active, activeCount, total, staging := map[], 0, 0, map[];
      this.store := store;
    }

    method BeginTxn(id: Id, now: nat) returns (r: Result<Id, Error>)
      requires id !in active
      modifies this
      ensures Snapshot() == Next(config, old(Snapshot()), Begin(id, now))
      ensures r == if old(activeCount) >= config.maxConcurrent then Err(AtCapacity) else Ok(id)
    {
      if activeCount >= config.maxConcurrent {
        return Err(AtCapacity);
      }
      active := active[id := Txn(now, 0, false)];
      activeCount := activeCount + 1;
      r := Ok(id);
    }

    /** True for a new blob, false for one already staged. */
    method PutBlob(id: Id, kappa: Kappa, content: bytes) returns (r: Result<bool, Error>)
      modifies this
      ensures Snapshot() == Next(config, old(Snapshot()), Put(id, kappa, content))
      ensures match PutCheck(config, old(Snapshot()), id, kappa, content)
        case Some(e) => r == Err(e)
        case None => r == Ok(kappa !in old(Staged(Snapshot(), id)))
    {
      hide Begun, Committed, Dropped, DroppedAll, WithBlob;
      match config.verify(kappa, content) {
        case Mismatch => return Err(DigestMismatch);
        case Invalid => return Err(InvalidLabel);
        case Match =>
      }
      if id !in active {
        return Err(NotFound);
      }
      if active[id].stagedBytes + |content| > config.maxPerTxn {
        return Err(PerTxnLimit);
      }
      if total + |content| > config.maxGlobal {
        return Err(GlobalLimit);
      }
      var added := Stage(id, kappa, content);
      r := Ok(added);
    }

    /** Writes the blob into the staging directory and counts it, unless it is there already. */
    method Stage(id: Id, kappa: Kappa, content: bytes) returns (added: bool)
      requires id in active
      modifies this
      ensures Snapshot() == WithBlob(old(Snapshot()), id, kappa, content)
      ensures added <==> kappa !in old(Staged(Snapshot(), id))
    {
      var blobs := if id in staging then staging[id] else map[];
      var t := active[id].(dirCreated := true);
      active := active[id := t];
      staging := staging[id := blobs];
      if kappa in blobs {
        return false;
      }
      staging := staging[id := blobs[kappa := content]];
      active := active[id := t.(stagedBytes := t.stagedBytes + |content|)];
      total := total + |content|;
      assert staging == old(staging)[id := blobs[kappa := content]];
      assert active == old(active)[id := t.(stagedBytes := t.stagedBytes + |content|)];
      added := true;
    }

    method CommitTxn(id: Id, accepts: Kappa -> bool) returns (r: Result<seq<Kappa>, Error>)
      modifies this
      ensures Snapshot() == Committed(config, old(Snapshot()), id, accepts).0
      ensures r == Committed(config, old(Snapshot()), id, accepts).1
    {
      hide SortedKeys, OnlyListed, Promote;
      if id !in active {
        return Err(NotFound);
      }
      if !active[id].dirCreated {
        Cleanup(id);
        return Ok([]);
      }
      var blobs := if id in staging then staging[id] else map[];
      var order := OnlyListed(config, SortedKeys(blobs.Keys));
      assert order == StagedOrder(config, old(Snapshot()), id);
      var all := PromoteAll(blobs, order, accepts);
      if !all {
        return Err(Rejected);
      }
      staging := staging - {id};
      total := total - active[id].stagedBytes;
      Cleanup(id);
      r := Ok(order);
    }

    /** The promotion loop: blobs go to the store until one is rejected. */
    method PromoteAll(blobs: Blobs, order: seq<Kappa>, accepts: Kappa -> bool) returns (all: bool)
      requires forall k :: k in order ==> k in blobs
      modifies this`store
      ensures store == Promote(old(store), blobs, order, accepts).0
      ensures all <==> Promote(old(store), blobs, order, accepts).1 == |order|
    {
      assert order[0..] == order;
      var i := 0;
      while i < |order|
        invariant 0 <= i <= |order|
        invariant Promote(old(store), blobs, order, accepts).0 == Promote(store, blobs, order[i..], accepts).0
        invariant Promote(old(store), blobs, order, accepts).1 == Promote(store, blobs, order[i..], accepts).1 + i
      {
        assert order[i..][0] == order[i] && order[i..][1..] == order[i + 1..];
        if !accepts(order[i]) {
          return false;
        }
        store := Ingest(store, order[i], blobs[order[i]]);
        i := i + 1;
      }
      all := true;
    }

    method AbortTxn(id: Id) returns (r: Result<(), Error>)
      modifies this
      ensures Snapshot() == Next(config, old(Snapshot()), Abort(id))
      ensures r == if id in old(active) then Ok(()) else Err(NotFound)
    {
      if id !in active {
        return Err(NotFound);
      }
      staging := staging - {id};
      total := total - active[id].stagedBytes;
      Cleanup(id);
      r := Ok(());
    }

    method Cleanup(id: Id)
      modifies this`active, this`activeCount
      ensures active == old(active) - {id}
      ensures activeCount == old(activeCount) - if id in old(active) then 1 else 0
    {
      if id in active {
        active := active - {id};
        activeCount := activeCount - 1;
      }
    }

    /** Ends every transaction older than the timeout, and no other. */
    method EvictExpired(now: nat) returns (count: nat, ghost ids: seq<Id>)
      modifies this
      ensures Distinct(ids)
      ensures forall id :: id in ids <==> id in old(active) && old(active)[id].createdAt + config.timeout < now
      ensures count == |ids| && Snapshot() == Next(config, old(Snapshot()), Evict(ids))
    {
      hide Begun, Committed, Dropped, WithBlob, PutCheck;
      var expired := FindExpired(now);
      ids := expired;
      count := |expired|;
      var i := 0;
      while i < |expired|
        invariant 0 <= i <= |expired|
        invariant Snapshot() == DroppedAll(old(Snapshot()), expired[..i])
      {
        assert expired[..i + 1][..i] == expired[..i];
        var _ := AbortTxn(expired[i]);
        i := i + 1;
      }
      assert expired[..i] == expired;
    }

    method FindExpired(now: nat) returns (expired: seq<Id>)
      ensures Distinct(expired) && forall id :: id in expired <==> id in active && Expired(config, active[id], now)
    {
      expired := [];
      var rest := active.Keys;
      while rest != {}
        invariant rest <= active.Keys && Distinct(expired)
        invariant forall id :: id in expired <==> id in active.Keys - rest && Expired(config, active[id], now)
        decreases |rest|
      {
        var id :| id in rest;
        rest := rest - {id};
        if Expired(config, active[id], now) {
          expired := expired + [id];
        }
      }
    }
  }
}
