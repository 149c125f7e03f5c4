/** What the counters of an ingested pack mean, and where the copy size limit bites for packs. */
module PackLimits {
  import opened Bytes
  import Lex
  import opened DeltaFormat
  import DeltaCodec
  import opened PackIngest
  import opened PackCodec

  // ---- Counters ----

  /** Entries whose object the store does not have when they are read. */
  function New(objs: seq<GitObject>, store: Store): nat
    decreases |objs|
  {
    if objs == [] then 0
    else (if objs[0].kappa in store then 0 else 1) + New(objs[1..], WithObject(store, objs[0]))
  }

  /** Delta entries among them: they are counted as deduplicated. */
  function NewDeltas(objs: seq<GitObject>, recent: Recent, store: Store): nat
    decreases |objs|
  {
    if objs == [] then 0
    else
      (if Choose(recent, objs[0]).Some? && objs[0].kappa !in store then 1 else 0)
      + NewDeltas(objs[1..], Slid(recent, objs[0]), WithObject(store, objs[0]))
  }

  /** Whole entries above the streaming threshold whose object is there already: they are counted as ingested. */
  function StreamedAgain(objs: seq<GitObject>, recent: Recent, store: Store): nat
    decreases |objs|
  {
    if objs == [] then 0
    else
      (if Choose(recent, objs[0]).None? && |objs[0].content| > STREAMING_THRESHOLD && objs[0].kappa in store
       then 1 else 0)
      + StreamedAgain(objs[1..], Slid(recent, objs[0]), WithObject(store, objs[0]))
  }

  lemma {:induction false} CountersBalance(objs: seq<GitObject>, recent: Recent, store: Store)
    ensures Ingested(objs, recent, store) + NewDeltas(objs, recent, store)
         == New(objs, store) + StreamedAgain(objs, recent, store)
    decreases |objs|
  {
    hide Choose;
    if objs != [] {
      CountersBalance(objs[1..], Slid(recent, objs[0]), WithObject(store, objs[0]));
    }
  }

  /** New entries are what the store gains. */
  lemma {:induction false} NewIsGrowth(objs: seq<GitObject>, store: Store)
    ensures |PutAll(store, objs)| == |store| + New(objs, store)
    decreases |objs|
  {
    if objs != [] {
      NewIsGrowth(objs[1..], WithObject(store, objs[0]));
      if objs[0].kappa !in store {
        assert WithObject(store, objs[0]).Keys == store.Keys + {objs[0].kappa};
      }
    }
  }

  /** The ingested counter is the number of objects the store gained iff as many streamed objects were there already as
      delta objects were new. */
  lemma IngestedIsGrowthIff(env: Env, objs: seq<GitObject>, store: Store)
    requires Usable(env) && Addressed(env, objs) && Agrees(store, objs) && OneObject(objs) && |objs| < TWO32
    requires IngestPack(env, Pack(env, objs), store).Ok?
    ensures
      var end := IngestPack(env, Pack(env, objs), store).value;
      && (end.ingested == |end.store| - |store| <==> StreamedAgain(objs, [], store) == NewDeltas(objs, [], store))
      && end.ingested + NewDeltas(objs, [], store) == |end.store| - |store| + StreamedAgain(objs, [], store)
  {
    hide IngestPack, Pack, Addressed, Agrees, OneObject, PutAll, Ingested, New, NewDeltas, StreamedAgain, ShortDeltas;
    PackRoundTrip(env, objs, store);
    CountersBalance(objs, [], store);
    NewIsGrowth(objs, store);
  }

  // ---- Two objects of which the second starts the first ----

  lemma PairChoice(big: GitObject, x: GitObject)
    requires big.kind == x.kind && x.content <= big.content
    requires MIN_DELTA_TARGET <= |x.content| && |big.content| <= COPY_OFFSETS
    ensures Choose([], big).None? && Slid([], big) == [(big.kind, big.content)]
    ensures Choose(Slid([], big), x) == Some((0, DeltaCodec.Delta(big.content, x.content)))
  {
    hide DeltaCodec.Delta;
    DeltaCodec.PrefixDelta(big.content, x.content);
    var recent := [(big.kind, big.content)];
    assert [] + [(big.kind, big.content)] == recent;
    assert ChooseFrom(recent, 1, x.kind, x.content) == None;
    assert ChooseFrom([], 0, big.kind, big.content) == None;
  }

  lemma PairShort(big: GitObject, x: GitObject)
    requires big.kind == x.kind && x.content <= big.content
    requires MIN_DELTA_TARGET <= |x.content| && |big.content| <= COPY_OFFSETS
    ensures ShortDeltas([big, x], []) <==> DeltaCodec.ShortMatches(big.content, x.content)
  {
    hide Choose, DeltaCodec.ShortMatches, DeltaCodec.Delta;
    PairChoice(big, x);
    var recent := Slid([], big);
    assert [big, x][1..] == [x] && [x][1..] == [];
    assert ShortDeltas([], Slid(recent, x));
    assert ShortDeltas([x], recent) <==> DeltaCodec.ShortMatches(recent[0].1, x.content);
  }

  /** The limit is real for packs: two objects of one kind that share their first 16 MiB make a pack that is refused. */
  lemma LargePairFails(env: Env, big: GitObject, x: GitObject, store: Store)
    requires Usable(env) && Addressed(env, [big, x]) && Agrees(store, [big, x]) && OneObject([big, x])
    requires big.kind == x.kind && x.content <= big.content && COPY_SIZES <= |x.content|
    ensures IngestPack(env, Pack(env, [big, x]), store).Err?
  {
    hide IngestPack, Pack, Agrees, OneObject, ShortDeltas, DeltaCodec.ShortMatches;
    assert big in [big, x];
    PackRoundTrip(env, [big, x], store);
    DeltaCodec.LargePrefix(big.content, x.content);
    PairShort(big, x);
  }

  /** The same from store to store: asking for such a pair can never succeed, whatever the client has. */
  lemma LargeTransferFails(env: Env, source: Store, k1: bytes, k2: bytes, hints: map<bytes, bytes>, target: Store)
    requires Usable(env) && ContentAddressed(env, source)
    requires k1 in source && k2 in source && source[k1].Git? && source[k2].Git? && source[k1].kind == source[k2].kind
    requires source[k2].content < source[k1].content && COPY_SIZES <= |source[k2].content|
    requires Hint(hints, k1) == Hint(hints, k2)
    requires forall k :: k in [k1, k2] && k in target ==> target[k] == source[k]
    ensures IngestPack(env, Generated(env, source, [k1, k2], hints), target).Err?
  {
    hide IngestPack, Pack, Agrees, OneObject, Addressed, ContentAddressed;
    var big := GitObject(k1, source[k1].kind, source[k1].content);
    var x := GitObject(k2, source[k2].kind, source[k2].content);
    assert [k1, k2][1..] == [k2] && [k2][1..] == [];
    assert Loaded(source, [k2]) == [x] + [];
    assert Loaded(source, [k1, k2]) == [big] + [x] == [big, x];
    PairSorted(hints, big, x);
    TransferAgrees(env, source, [k1, k2], hints, target);
    LargePairFails(env, big, x, target);
  }

  lemma PairSorted(hints: map<bytes, bytes>, big: GitObject, x: GitObject)
    requires big.kind == x.kind && Hint(hints, big.kappa) == Hint(hints, x.kappa) && |x.content| < |big.content|
    ensures Sorted(hints, [big, x]) == [big, x]
  {
    hide Lex.Less;
    Lex.Irreflexive(Hint(hints, x.kappa));
    assert [big, x][1..] == [x] && [x][1..] == [];
    assert Sorted(hints, [x]) == [x];
  }

  /** The counters are off on the simplest pack with a delta: two new objects, and one of them counts as a duplicate. */
  lemma NewDeltaCountsAsDuplicate(env: Env, big: GitObject, x: GitObject, store: Store)
    requires Usable(env) && Addressed(env, [big, x]) && big.kappa !in store && x.kappa !in store && big.kappa != x.kappa
    requires big.kind == x.kind && x.content <= big.content && MIN_DELTA_TARGET <= |x.content| < COPY_SIZES
    ensures
      match IngestPack(env, Pack(env, [big, x]), store)
      case Err(_) => false
      case Ok(end) => |end.store| == |store| + 2 && end.ingested == 1 && end.deduplicated == 1
  {
    hide IngestPack, Pack, ShortDeltas, Choose, DeltaCodec.Delta, DeltaCodec.ShortMatches;
    var objs := [big, x];
    assert big in objs;
    PackRoundTrip(env, objs, store);
    PairShort(big, x);
    PairChoice(big, x);
    assert DeltaCodec.ShortMatches(big.content, x.content) by {
      ShortTarget(big.content, x.content);
    }
    NewIsGrowth(objs, store);
    assert objs[1..] == [x] && [x][1..] == [];
    assert Ingested([x], Slid([], big), WithObject(store, big)) == 0;
    assert Ingested(objs, [], store) == 1;
    assert New([x], WithObject(store, big)) == 1;
  }

  /** A whole object above the threshold that is there already counts as ingested, though the store gains nothing. */
  lemma StreamedDuplicateCountsAsIngested(env: Env, o: GitObject, store: Store)
    requires Usable(env) && Addressed(env, [o]) && o.kappa in store && store[o.kappa] == Git(o.kind, o.content)
    requires |o.content| > STREAMING_THRESHOLD
    ensures
      match IngestPack(env, Pack(env, [o]), store)
      case Err(_) => false
      case Ok(end) => end.store == store && end.ingested == 1
  {
    hide IngestPack, Pack;
    assert [o][1..] == [];
    assert ChooseFrom([], 0, o.kind, o.content) == None;
    PackRoundTrip(env, [o], store);
  }

  // ---- A condition a caller can check ----

  lemma ShortTarget(base: bytes, target: bytes)
    requires |target| < COPY_SIZES
    ensures DeltaCodec.ShortMatches(base, target)
  {
    DeltaCodec.GreedyLengths(base, target, 0);
  }

  lemma {:induction false} SmallIsShort(objs: seq<GitObject>, recent: Recent)
    requires forall o :: o in objs ==> |o.content| < COPY_SIZES
    ensures ShortDeltas(objs, recent)
    decreases |objs|
  {
    hide Choose, DeltaCodec.ShortMatches;
    if objs != [] {
      var o := objs[0];
      assert o in objs;
      if Choose(recent, o).Some? {
        ShortTarget(recent[Choose(recent, o).value.0].1, o.content);
      }
      SmallIsShort(objs[1..], Slid(recent, o));
    }
  }

  /** With objects below 16 MiB a transfer always succeeds and adds exactly the requested objects. */
  lemma TransferBelow16MiB(env: Env, source: Store, kappas: seq<bytes>, hints: map<bytes, bytes>, target: Store)
    requires Usable(env) && ContentAddressed(env, source) && |kappas| < TWO32
    requires forall k :: k in kappas && k in source && source[k].Git? ==> |source[k].content| < COPY_SIZES
    requires forall k :: k in kappas && k in source && source[k].Git? && k in target ==> target[k] == source[k]
    ensures
      match IngestPack(env, Generated(env, source, kappas, hints), target)
      case Err(_) => false
      case Ok(end) => end.store == target + (map k | k in kappas && k in source && source[k].Git? :: source[k])
  {
    hide IngestPack, Generated, ShortDeltas, Sorted, Loaded, Ingested, ContentAddressed;
    var objs := Sorted(hints, Loaded(source, kappas));
    SortedMembers(hints, Loaded(source, kappas));
    forall o | o in objs
      ensures |o.content| < COPY_SIZES
    {
      LoadedHolds(source, kappas, o);
    }
    SmallIsShort(objs, []);
    TransferExact(env, source, kappas, hints, target);
  }
}
