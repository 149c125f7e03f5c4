/** A fetch from end to end: walk, pack, ingest. */
module FetchTransfer {
  import opened Bytes
  import opened PackIngest
  import opened PackCodec
  import opened GitObjects
  import opened Graph
  import opened NeedWalk
  import opened NeedSet

  /** What a client may be asked to hold: the readable objects behind the commits it claims, and no other object under
      one of the server's labels. */
  ghost predicate Holds(client: Store, store: Store, have: set<Kappa>) {
    && (forall k :: k in have && Readable(store, k) ==> k in client)
    && (forall k :: k in client && Readable(store, k) ==> client[k] == store[k])
  }

  /** What a client that wants these commits has to have in the end. */
  ghost predicate Due(store: Store, fmt: Format, wants: seq<bytes>, filter: Option<Filter>, k: Kappa) {
    && Reachable(Objects(store, fmt), Members(Labels(fmt, wants)), k)
    && Readable(store, k) && !Excluded(store, filter, k)
  }

  /** Sending the need set: the transfer succeeds iff no delta of its pack copies 16 MiB at once. Then the client has
      every readable object reachable from the wants that the filter lets through, with the server's content, and gains
      nothing else. */
  lemma FetchCompletes(env: Env, store: Store, fmt: Format, wants: seq<bytes>, common: seq<bytes>,
                       filter: Option<Filter>, hints: map<bytes, bytes>, client: Store)
    requires Usable(env) && ContentAddressed(env, store)
    requires Holds(client, store, HaveSet(store, fmt, common))
    requires |Fetch(store, fmt, wants, common, None, filter).needed| < TWO32
    ensures
      var needed := Fetch(store, fmt, wants, common, None, filter).needed;
      var r := IngestPack(env, Generated(env, store, needed, hints), client);
      && (r.Ok? <==> ShortDeltas(Sorted(hints, Loaded(store, needed)), []))
      && (r.Ok? ==>
            && (forall k :: Due(store, fmt, wants, filter, k) ==> k in r.value.store && r.value.store[k] == store[k])
            && (forall k :: k in r.value.store && k !in client ==> k in needed)
            && (forall k :: k in client ==> k in r.value.store && r.value.store[k] == client[k]))
  {
    hide IngestPack, Generated, Fetch, ShortDeltas, Sorted, Loaded, Reachable, HaveSet, Excluded, Ingested;
    hide ContentAddressed;
    var needed := Fetch(store, fmt, wants, common, None, filter).needed;
    NeedExact(store, fmt, wants, common, filter);
    HaveExact(store, fmt, common);
    TransferExact(env, store, needed, hints, client);
  }
}
