# Kappa-registry: a verified model of its codecs, walks, trees and state machines

Kappa-registry is a content-addressed store. On top of it sit hand-written codecs (delta, bundle, Git pack, CBOR, CAR),
graph walks (Git fetch, repository export, garbage collection), authenticated trees (Merkle search tree, binary Merkle
tree) and small state machines (collaborative rooms, transactions, sessions, timestamp identifiers). This project
models those parts in Dafny 4.11 and proves what they promise, for all inputs and all runs.

`dafny verify dfyconfig.toml` checks the whole project.

How the model is built:

- Code that works by loops and mutation is modelled by methods and classes; each is proved equal to a specification
  function or state transition. What that function gives is then stated a second time, independently of it: by an
  inverse, by what is observed over whole runs, or by the meaning of every well-formed and every accepted input
  (the `...Meaning` modules).
- Bytes are integers from 0 to 255, machine words are written out with their truncation, and lengths are below 2^64.
- SHA-256, content identifiers, kappa labels, zlib, UTF-8 validation, fingerprints and clocks are parameters. Where a
  theorem needs a hash not to collide, it asks this of the finite set of inputs that are actually hashed, never of all
  inputs. Zlib is an inverse pair. The fingerprint can be any function, and no result depends on it.
- The concurrent parts (rooms, transactions, sessions, the compare-and-swap loop) are state machines over atomic steps,
  and the theorems hold for every sequence of steps.

What the proofs found:

- A copy instruction of the delta format carries 24 bits of size. A match of 16 MiB or more is therefore cut, and the
  delta round trip holds exactly when no such match is used; otherwise applying the delta is an error, never wrong bytes
  (`DeltaCodec.RoundTripIffShort`). Bundles and packs inherit this condition and nothing else (`BundleCodec.RoundTrip`,
  `PackCodec.TransferExact`). It fails within every other limit on two objects of which one has 16 MiB or
  more and is the start of the other (`DeltaCodec.LargePrefix`, `BundleCodec.LargePairFails`,
  `PackLimits.LargeTransferFails`), and holds whenever contents are below 16 MiB
  (`BundleCodec.RoundTripBelow16MiB`, `PackLimits.TransferBelow16MiB`).
- The chunked reference scan keeps the last 31 bytes of the previous chunk only, so it agrees with the whole scan exactly
  when chunks with bytes on both sides have at least 31 bytes (`NixRefs.ChunkedScanExact`).
- A tree node or archive root beyond its length field is written and then refused on reading: 2^16 entries for a node,
  255 bytes for a root (`MstNode.NodeRoundTrip`, `Car.CarRoundTrip`, `CommitCodec.DataRoundTrip`).
- The module comment of the identifier generator speaks of 53-bit timestamps; the code keeps the 13-character form up to
  2^55 microseconds, and the model follows the code (`Tid.TidRoundTrip`).
- Pack ingestion asks whether a delta object exists only after storing it, so such an entry always counts as
  deduplicated, and a streamed large object always counts as ingested. The ingested counter is therefore the number of
  new objects exactly when these two errors cancel (`PackLimits.IngestedIsGrowthIff`), and both occur
  (`PackLimits.NewDeltaCountsAsDuplicate`, `PackLimits.StreamedDuplicateCountsAsIngested`).
- The collector walks epoch chains without a visited set, so it ends exactly when no epoch is its own ancestor
  (`Gc.WalkEndsIff`).
- The reader of annotated tags looks for object lines in the whole tag, so a message line that starts like one adds a
  reference (`GitObjects.TagRoundTrip`).

## Model

| member | source | states |
|---|---|---|
| `Varint.RoundTrip` | crates/kappa-core/src/delta.rs:43-77 | Every 64-bit value written as a varint is read back, with the position just after it. |
| `Varint.ReadFromFits` | crates/kappa-core/src/delta.rs:58-77 | A read that succeeds gives a 64-bit value: group bits beyond the word are dropped, never carried. |
| `Varint.ReadSuffix` | crates/kappa-module-git/src/ingest.rs:594-608 | Reading from a slice is reading the whole buffer at an offset, so the two readers of the repository agree. |
| `Varint.Encode` | crates/kappa-core/src/delta.rs:43-56 | The writing loop appends exactly the varint of the value. |
| `Varint.Decode` | crates/kappa-core/src/delta.rs:58-77 | The cursor loop equals the specified read, truncation and overflow included. |
| `Varint.DecodeSlice` | crates/kappa-module-git/src/ingest.rs:594-608 | The slice reader equals the specified read; it returns the rest of the slice. |
| `DeltaFormat.CommandRoundTrip` | crates/kappa-core/src/delta.rs:174-212 | The seven flag bits of a copy command are the ones the reader tests. |
| `DeltaFormat.FlaggedRoundTrip` | crates/kappa-core/src/delta.rs:174-290 | Arguments whose zero bytes are left out are read back in full. |
| `DeltaFormat.CopyArgsValue` | crates/kappa-core/src/delta.rs:174-212 | A copy command carries the offset modulo 2^32 and the size field modulo 2^24; nothing else is lost. |
| `DeltaFormat.DecodedSizeExact` | crates/kappa-core/src/delta.rs:174-212 | A positive copy size, with the special code for 0x10000, decodes to itself iff it is below 2^24, and otherwise to something shorter but not empty. |
| `DeltaFormat.RunCopy` | crates/kappa-core/src/delta.rs:217-319 | A written copy whose decoded range lies in the base appends exactly that range and moves on. |
| `DeltaFormat.RunInsert` | crates/kappa-core/src/delta.rs:217-319 | A written insert instruction appends exactly its literal bytes. |
| `DeltaFormat.ReadCopy` | crates/kappa-core/src/delta.rs:240-290 | The unrolled reader of copy arguments equals the flag-by-flag specification. |
| `DeltaFormat.ApplyDelta` | crates/kappa-core/src/delta.rs:217-319 | The instruction loop equals the specified run on every base and delta; what that run gives is stated by DeltaMeaning.DeltaMeansPieces. |
| `DeltaFormat.ReadCopyLoop` | crates/kappa-module-git/src/ingest.rs:340-370 | The looping reader of copy arguments equals the same specification as the unrolled one. |
| `DeltaFormat.ApplyPackDelta` | crates/kappa-module-git/src/ingest.rs:309-392 | The Git module gives the same answer as the core module on every base and delta: same bytes, and failure on the same inputs. |
| `DeltaMeaning.DeltaMeansPieces` | crates/kappa-core/src/delta.rs:217-319 | Any list of copies and literals, however its argument bytes are left out: the delta applies iff it is for a base of this size, no copy leaves the base and the pieces have the announced length, and gives those pieces; otherwise the first check that fails names the error. |
| `DeltaMeaning.BadTailFails` | crates/kappa-core/src/delta.rs:232-319 | A zero command is refused, and so is a literal longer than what is left of the delta. |
| `DeltaSearch.LongestIsLongest` | crates/kappa-core/src/delta.rs:99-137 | The reference search finds a match iff some base offset matches 16 bytes or more, and returns the first offset of maximal length. |
| `DeltaSearch.BuildIndex` | crates/kappa-core/src/delta.rs:99-104 | After the loop every base position is filed once, in order, under the fingerprint of its block, for any fingerprint function. |
| `DeltaSearch.Extend` | crates/kappa-core/src/delta.rs:117-125 | Match extension computes the length of the common run, bounded by both ends. |
| `DeltaSearch.ScanBucket` | crates/kappa-core/src/delta.rs:112-133 | Scanning a bucket keeps its longest match, the earliest of equals. |
| `DeltaSearch.FindMatch` | crates/kappa-module-git/src/ingest.rs:408-466 | The indexed search equals brute force over all base offsets, in length and in offset, for any fingerprint function. |
| `DeltaCodec.GreedyWithin` | crates/kappa-core/src/delta.rs:108-150 | Every copy the encoder decides on is non-empty and lies inside the base. |
| `DeltaCodec.ApplyDecoded` | crates/kappa-core/src/delta.rs:94-163 | Applying an encoded delta gives the concatenation of the decoded pieces, or a size mismatch error if that is shorter than the target. |
| `DeltaCodec.DecodedIsTarget` | crates/kappa-core/src/delta.rs:94-163 | The decoded pieces make up the target iff every emitted copy survives the field widths. |
| `DeltaCodec.DecodedLength` | crates/kappa-core/src/delta.rs:94-163 | The decoded pieces are never longer than the target, and as long iff no emitted copy has 2^24 bytes or more. |
| `DeltaCodec.RoundTripExactly` | crates/kappa-core/src/delta.rs:94-319 | For all 64-bit lengths: applying the delta gives the target iff every emitted copy survives its 32-bit offset and 24-bit size. |
| `DeltaCodec.RoundTripIffShort` | crates/kappa-core/src/delta.rs:94-319 | For bases up to 4 GiB: applying the delta gives the target iff no match is 16 MiB or longer, and otherwise it is an error, never wrong bytes. |
| `DeltaCodec.RoundTrip` | crates/kappa-core/src/delta.rs:94-319 | With base or target below 16 MiB the round trip always succeeds. |
| `DeltaCodec.PrefixDelta` | crates/kappa-core/src/delta.rs:94-163 | A target that the base starts with is parsed as one copy, and its delta takes at most 18 bytes. |
| `DeltaCodec.LargePrefix` | crates/kappa-core/src/delta.rs:94-319 | The failing family: a target of 16 MiB or more that the base starts with gives a delta that is kept and does not decode. |
| `DeltaCodec.AppliedLength` | crates/kappa-core/src/delta.rs:217-319 | Whatever base it is applied to, an encoded delta gives bytes of the length of the target or an error. |
| `DeltaCodec.LargeObjectAgainstItself` | crates/kappa-core/src/delta.rs:174-212 | The limit is real: every object of 16 MiB to 4 GiB, encoded against itself, yields a delta that is kept and does not decode. |
| `DeltaEncoder.FlushInserts` | crates/kappa-core/src/delta.rs:165-172 | Pending literals leave in insert instructions of at most 127 bytes, in order. |
| `DeltaEncoder.FlushChunks` | crates/kappa-module-git/src/ingest.rs:514-524 | The indexed form of the same flush emits the same bytes. |
| `DeltaEncoder.EmitCopy` | crates/kappa-core/src/delta.rs:174-212 | The unrolled bit packing writes the specified copy instruction, through the 32-bit casts. |
| `DeltaEncoder.EncodeCopy` | crates/kappa-module-git/src/ingest.rs:526-552 | The looping bit packing writes the same instruction. |
| `DeltaEncoder.EncodeInstructions` | crates/kappa-core/src/delta.rs:94-150 | The encoding loop emits the instructions of the greedy parse. |
| `DeltaEncoder.ComputeDelta` | crates/kappa-core/src/delta.rs:94-163 | The result is the specified delta, or none for an empty base, a target below 16 bytes or a delta of at least 75 percent of the target; it does not depend on the fingerprint. |
| `DeltaEncoder.EncodePackInstructions` | crates/kappa-module-git/src/ingest.rs:474-505 | The Git encoder emits the same greedy parse. |
| `DeltaEncoder.ComputePackDelta` | crates/kappa-module-git/src/ingest.rs:474-512 | The Git encoder gives the same delta, kept for targets of at least 32 bytes whenever it is shorter than the target. |
| `BundleCodec.SortIsSort` | crates/kappa-core/src/bundle.rs:69-75 | The size sort is a permutation, largest first. |
| `BundleCodec.PlansGrounded` | crates/kappa-core/src/bundle.rs:82-99 | Every chosen base comes earlier in the plan, the stored delta is the encoder output against it, and it is shorter than the content. |
| `BundleCodec.PlanExactly` | crates/kappa-core/src/bundle.rs:77-99 | An object is stored in full iff none of the ten before it gives a delta below three quarters of its length, else as the shortest such delta, against the first of several. |
| `BundleCodec.OrderIsPermutation` | crates/kappa-core/src/bundle.rs:101-132 | The emission order lists every planned object exactly once. |
| `BundleCodec.ListedIsPermutation` | crates/kappa-core/src/bundle.rs:64-170 | What the bundle lists is a permutation of the input, and the input order itself without deltas. |
| `BundleCodec.BaseStandsEarlier` | crates/kappa-core/src/bundle.rs:101-132 | Every delta entry comes after the entry of its base. |
| `BundleCodec.EntriesListed` | crates/kappa-core/src/bundle.rs:134-170 | The emitted entries stand for the planned objects, and a delta entry applies iff it is short. |
| `BundleCodec.RoundTrip` | crates/kappa-core/src/bundle.rs:64-268 | For contents of any length: decoding an encoded bundle gives the listed objects iff they total at most 256 MiB and no chosen delta copies 16 MiB at once; otherwise it is an error. |
| `BundleCodec.RoundTripBelow16MiB` | crates/kappa-core/src/bundle.rs:64-268 | With contents below 16 MiB and 256 MiB in all, decoding always gives back exactly the objects. |
| `BundleCodec.LargePairFails` | crates/kappa-core/src/bundle.rs:64-268 | Two objects of which the second is 16 MiB or more and starts the first make a bundle, within the size limit, that does not decode. |
| `BundleFormat.KappaRoundTrip` | crates/kappa-core/src/bundle.rs:283-297 | A kappa field is read back below 2^16 bytes. |
| `BundleFormat.ContentRoundTrip` | crates/kappa-core/src/bundle.rs:299-320 | A content field is read back below 2^64 bytes. |
| `BundleFormat.DecodeBundle` | crates/kappa-core/src/bundle.rs:192-268 | The decoding loop equals the specification on every input: frame checks, delta resolution, size limit, kappa verification, in that order. |
| `BundleFormat.ReadAll` | crates/kappa-core/src/bundle.rs:220-268 | From any point of a listing, reading the rest succeeds iff the size limit holds and every remaining delta applies; the only error of an applicable listing is the limit. |
| `BundleFormat.DecodeFrame` | crates/kappa-core/src/bundle.rs:192-268 | A framed listing decodes to its objects in order iff they are within the limit and every delta applies. |
| `BundleFormat.FrameOverLimit` | crates/kappa-core/src/bundle.rs:192-268 | Entries that announce more than 256 MiB in all are never decoded, whatever their deltas give. |
| `BundleFormat.DecodedMatch` | crates/kappa-core/src/bundle.rs:192-268 | Whatever the bytes: the objects of a bundle that decodes match their kappas, are as many as announced, and total at most 256 MiB. |
| `BundleMeaning.FrameMeansObjects` | crates/kappa-core/src/bundle.rs:192-268 | Any frame of any entries and flags: it decodes iff every entry has content, from itself or from a base listed before or known to the caller, within the limit and matching its kappa; then to those objects. |
| `BundleMeaning.DecodedIsFrame` | crates/kappa-core/src/bundle.rs:192-268 | Conversely every input that decodes is such a frame, with magic, version, count and digest in place, so no check can be missing. |
| `BundleEncoder.ChooseBase` | crates/kappa-core/src/bundle.rs:82-92 | The window loop keeps the shortest delta, the first of equals. |
| `BundleEncoder.PlanEntries` | crates/kappa-core/src/bundle.rs:81-99 | The planning loop computes the specified plans. |
| `BundleEncoder.OrderEntries` | crates/kappa-core/src/bundle.rs:101-132 | The three loops compute full entries, then deltas in index order; the second pass makes no progress and the leftover loop appends nothing. |
| `BundleEncoder.EncodeFullOnly` | crates/kappa-core/src/bundle.rs:172-190 | Without deltas the entries are framed in input order. |
| `BundleEncoder.EncodeBundle` | crates/kappa-core/src/bundle.rs:64-170 | The whole encoder writes the specified bundle, for any fingerprint function. |
| `PackFormat.EntryHeaderRoundTrip` | crates/kappa-module-git/src/packgen.rs:189-207 | Type and size of an entry header are read back for all sizes below 2^64. |
| `PackFormat.EncodeEntryHeader` | crates/kappa-module-git/src/packgen.rs:189-207 | The shifting loop writes the specified header. |
| `PackFormat.OfsRoundTrip` | crates/kappa-module-git/src/ingest.rs:572-592 | Offset bytes decode to the distance they were made from under the rule of gitformat-pack, for every distance. |
| `PackFormat.EncodeOfsHeader` | crates/kappa-module-git/src/ingest.rs:572-592 | The loop that collects groups and reverses them writes the specified offset bytes. |
| `PackFormat.WholeRoundTrip` | crates/kappa-module-git/src/packgen.rs:320-402 | A whole entry is parsed back to its kind and content, given an inverse pair for the compression. |
| `PackFormat.OfsEntryRoundTrip` | crates/kappa-module-git/src/packgen.rs:320-350 | A delta entry is parsed back to its distance and delta. |
| `PackFormat.RefEntryRoundTrip` | crates/kappa-module-git/src/ingest.rs:119-132 | Entries against an object id parse back. |
| `PackIngest.IngestLoop` | crates/kappa-module-git/src/ingest.rs:71-165 | The entry loop equals the specified step for each entry; what any list of entries comes to is stated by PackMeaning.PackMeansObjects. |
| `PackIngest.Resolve` | crates/kappa-module-git/src/ingest.rs:253-281 | Resolving a delta stores the result under the kind of its base and records its kappa. |
| `PackIngest.IngestedIsSound` | crates/kappa-module-git/src/ingest.rs:53-170 | Whatever the bytes: an ingested pack has its magic, version and checksum, the store keeps all it had and gains only objects stored under their own id, and every announced entry is counted once. |
| `PackMeaning.PackMeansObjects` | crates/kappa-module-git/src/ingest.rs:53-170 | Any mix of whole, offset and reference entries: the pack is ingested iff every entry stands for an object and nothing follows the last one; the store then gains exactly those objects, with the kinds of their bases and exact counters, and otherwise the first faulty entry names the error. |
| `PackMeaning.ThinPack` | crates/kappa-module-git/src/ingest.rs:119-132 | A reference delta against a stored object brings exactly the target, with the kind of the base, iff the delta is short. |
| `PackMeaning.ThinPackWithoutBase` | crates/kappa-module-git/src/ingest.rs:253-281 | A reference delta whose base is missing or is no object is the error for that case. |
| `PackCodec.SortedPermutes` | crates/kappa-module-git/src/packgen.rs:222-250 | Sorting for the pack is a permutation of the loaded objects. |
| `PackCodec.SortedIsStable` | crates/kappa-module-git/src/packgen.rs:242-259 | The sorted list is in order of kind, name hint and falling size, and objects equal in all three stay in the order they were requested; with the permutation this determines the list. |
| `PackCodec.SortedByKindNameSize` | crates/kappa-module-git/src/packgen.rs:242-259 | The order spelled out: commits, trees, blobs, tags; within a kind by name; within a name the larger first. |
| `PackCodec.IngestGenerated` | crates/kappa-module-git/src/packgen.rs:295-402 | Each generated delta entry has a positive distance to an entry already in the offset map; reading it back gives the object, with its kind, iff its delta is short, and raises the counter that its form, size and presence decide. |
| `PackCodec.IngestBody` | crates/kappa-module-git/src/packgen.rs:295-402 | Ingesting the generated entries stores exactly the objects with exact values of both counters, or fails iff some delta is not short. |
| `PackCodec.PackRoundTrip` | crates/kappa-module-git/src/packgen.rs:266-402 | Ingesting a generated pack adds exactly its objects to any agreeing store, with exact counters, iff every chosen delta is short; otherwise it is an error. |
| `PackCodec.TransferExact` | crates/kappa-module-git/src/packgen.rs:222-402 | From store to store: ingesting the pack generated for a list of kappas adds exactly the Git objects among them, with exact counters, iff every chosen delta is short; otherwise it is an error. |
| `PackLimits.LargePairFails` | crates/kappa-module-git/src/packgen.rs:266-402 | Two objects of one kind, the second of 16 MiB or more and a start of the first, make a pack that cannot be ingested, whatever agreeing store it goes to. |
| `PackLimits.LargeTransferFails` | crates/kappa-module-git/src/packgen.rs:222-402 | The same from store to store: a request for such a pair with equal name hints never succeeds. |
| `PackLimits.SmallIsShort` | crates/kappa-module-git/src/packgen.rs:295-402 | If every content is below 16 MiB, every chosen delta is short: the condition a caller can check. |
| `PackLimits.TransferBelow16MiB` | crates/kappa-module-git/src/packgen.rs:222-402 | With contents below 16 MiB a transfer always succeeds and adds exactly the requested objects. |
| `PackLimits.CountersBalance` | crates/kappa-module-git/src/ingest.rs:88-165 | The entries counted as ingested and the new delta entries are together as many as the new entries and the streamed ones already present. |
| `PackLimits.NewIsGrowth` | crates/kappa-module-git/src/ingest.rs:88-165 | The entries whose object is not there when they are read are as many as the objects the store gains. |
| `PackLimits.IngestedIsGrowthIff` | crates/kappa-module-git/src/ingest.rs:68-169 | The ingested counter is the number of objects gained iff as many streamed objects were there already as delta objects were new. |
| `PackLimits.NewDeltaCountsAsDuplicate` | crates/kappa-module-git/src/ingest.rs:119-131 | Two new objects of one kind, the second a start of the first: both are stored, and one counts as ingested and one as deduplicated. |
| `PackLimits.StreamedDuplicateCountsAsIngested` | crates/kappa-module-git/src/ingest.rs:91-103 | An object above the streaming threshold that is there already counts as ingested, and the store does not change. |
| `PackGenerator.ChooseDelta` | crates/kappa-module-git/src/packgen.rs:302-319 | Going back through the window, the loop keeps the shortest delta against an object of the same kind, the most recent of equals. |
| `PackChoice.PackExplained` | crates/kappa-module-git/src/packgen.rs:266-402 | Entry by entry: each object is written whole iff none of the ten before it has its kind and gives a delta shorter than itself, else as the shortest such delta, against the nearest of several, with the distance to its entry. |
| `PackGenerator.WriteObjects` | crates/kappa-module-git/src/packgen.rs:295-390 | The loop over the sorted objects writes the specified entries at the specified offsets. |
| `PackGenerator.GeneratePack` | crates/kappa-module-git/src/packgen.rs:266-402 | The generator writes the specified pack, for any fingerprint function. |
| `GitObjects.ExtractChildren` | crates/kappa-module-git/src/protocol.rs:1045-1103 | The line and entry loops list exactly the specified references of a commit, tree or tag, stopping where the source stops. |
| `GitObjects.TreeRoundTrip` | crates/kappa-module-git/src/protocol.rs:1069-1089 | From a well-formed tree the extracted children are exactly the hashes of its entries, in order. |
| `GitObjects.CommitRoundTrip` | crates/kappa-module-git/src/protocol.rs:1052-1068 | A commit refers to exactly what its tree and parent lines name, in order, whatever other header lines and the message say. |
| `GitObjects.BareCommitRoundTrip` | crates/kappa-module-git/src/protocol.rs:1052-1068 | The same for a header without a blank line, with or without a final newline. |
| `GitObjects.TagRoundTrip` | crates/kappa-module-git/src/protocol.rs:1090-1098 | A tag refers to its object first, and to nothing else iff no later line, message included, names one. |
| `GitObjects.HexExact` | crates/kappa-module-git/src/protocol.rs:1083-1087 | Hashes become two lower-case hexadecimal digits for each byte, the high one first. |
| `NeedWalk.WalkReachable` | crates/kappa-module-git/src/protocol.rs:1005-1039 | The have walk marks exactly what is reachable from the common commits. |
| `NeedWalk.StepBounded` | crates/kappa-module-git/src/protocol.rs:909-998 | Every turn of the worklist visits a new object or shortens the queue. |
| `NeedWalk.UniverseCloses` | crates/kappa-module-git/src/protocol.rs:909-998 | The wants and the references of the stored objects are closed under references, so every store bounds its walks and each of them ends. |
| `NeedWalk.HaveExact` | crates/kappa-module-git/src/protocol.rs:1005-1039 | The have set is exactly what is reachable from the common commits, and closed under references. |
| `NeedWalk.ComputeNeedSet` | crates/kappa-module-git/src/protocol.rs:894-1003 | On every store and request the worklist loop ends and computes the specified walk over exactly the have set. |
| `NeedSet.NeedExact` | crates/kappa-module-git/src/protocol.rs:894-1003 | On every store: without a depth limit the result has no duplicates and is exactly the readable, unfiltered objects reachable from a want and not from a common commit. |
| `NeedSet.NeedPlusHaveIsClosed` | crates/kappa-module-git/src/protocol.rs:894-1003 | What is sent and what the client has are together closed under the children present in the store. |
| `NeedSet.HistoryIsSent` | crates/kappa-module-git/src/protocol.rs:894-1003 | The tree and the parents named by a commit that is sent are sent too, unless the client has them. |
| `NeedSet.FilterMeaning` | crates/kappa-module-git/src/protocol.rs:940-960 | Without blobs means no blob is sent; a limit means exactly the blobs of at most that many bytes are. |
| `BlobFilter.FilterOnlyRemovesBlobs` | crates/kappa-module-git/src/protocol.rs:940-960 | With or without a depth limit, a blob filter leaves the unfiltered sequence with only the excluded blobs removed, order kept, and the same shallow marks. |
| `FetchTransfer.FetchCompletes` | crates/kappa-module-git/src/protocol.rs:543-592 | A fetch from end to end: ingesting the pack of the need set leaves the client with every readable, unfiltered object reachable from the wants, adds nothing else and changes nothing it had, iff every chosen delta is short. |
| `Shallow.StepBfs` | crates/kappa-module-git/src/protocol.rs:909-998 | Every turn keeps the queue ordered by depth, with recorded depths equal to shortest parent distances. |
| `Shallow.CommitsByDistance` | crates/kappa-module-git/src/protocol.rs:909-998 | At the end a commit was visited iff its shortest parent distance is below the limit, and marked iff it is exactly one less. |
| `Shallow.DepthZeroIsOne` | crates/kappa-module-git/src/protocol.rs:909-998 | A fetch of depth 0 is the same walk as one of depth 1. |
| `Shallow.ParentsOfCommit` | crates/kappa-module-git/src/protocol.rs:1059-1062 | The parents that distance is measured by are the commits that parent lines name. |
| `Shallow.ShallowFetch` | crates/kappa-module-git/src/protocol.rs:894-1003 | At every depth d, with any filter, where 0 counts as 1: the commits sent are exactly those at distance below d that the client lacks, the shallow marks exactly those at distance d - 1, and the rest exactly the unfiltered trees and blobs of the sent commits that the client lacks. |
| `Graph.ClosedHoldsReachable` | crates/kappa-core/src/gc.rs:27-50 | Reachability is the least set with the roots that is closed under edges. |
| `Gc.ComputeReachable` | crates/kappa-core/src/gc.rs:27-50 | The queue loop ends on every finite graph, cycles included, with exactly the reachable set. |
| `Gc.BuildRootSet` | crates/kappa-core/src/gc.rs:57-93 | The loops end on acyclic epoch chains and list tags and chains of every namespace with a 16-byte identifier, sorted without repetition. |
| `Gc.WalkEndsIff` | crates/kappa-core/src/gc.rs:75-88 | The walk along an epoch chain ends iff no epoch on it is its own ancestor, and then within one turn per blob and one more; otherwise no number of turns is enough. |
| `Gc.ChainIsReachable` | crates/kappa-core/src/gc.rs:68-88 | The epoch chain holds exactly the epochs reachable over readable predecessor links. |
| `Gc.RootsAreRoots` | crates/kappa-core/src/gc.rs:57-93 | A kappa is a root iff it is a tag target or on the epoch chain of a valid namespace. |
| `Gc.Store.DeleteUnreachable` | crates/kappa-core/src/gc.rs:104-114 | The loop keeps exactly the reachable blobs; blobs and bytes are conserved between kept and collected. |
| `Gc.Store.Sweep` | crates/kappa-core/src/gc.rs:97-124 | A sweep leaves exactly the old blobs that are live, unchanged, with conserved counts; the reachable count is the number of live kappas, stored or not. |
| `Gc.SecondSweepKeepsAll` | crates/kappa-core/src/gc.rs:97-124 | After a sweep the epoch walks still end and every remaining blob is still live, so a second sweep collects nothing. |
| `Cbor.HeadRoundTrip` | crates/kappa-module-atproto/src/mst.rs:481-545 | A head is read back with its argument modulo 2^16. |
| `Cbor.StringRoundTrip` | crates/kappa-module-atproto/src/mst.rs:512-525 | Byte and text strings below 2^16 bytes are read back. |
| `Cbor.CidRoundTrip` | crates/kappa-module-atproto/src/mst.rs:527-545 | A tagged content identifier is read back without its zero prefix byte. |
| `Cbor.NullableCidRoundTrip` | crates/kappa-module-atproto/src/mst.rs:617-627 | A missing or present subtree reference is read back. |
| `CborSkip.SkipExact` | crates/kappa-module-atproto/src/mst.rs:792-840 | Skipping a value of an unknown key passes exactly its bytes, for every value, however arrays, maps and tags are nested. |
| `MstNode.EncodeNode` | crates/kappa-module-atproto/src/mst.rs:145-172 | The writing loop produces the specified block. |
| `MstNode.DecodeNode` | crates/kappa-module-atproto/src/mst.rs:178-211 | The reading loops equal the specification on every block: unknown keys, repeated keys, wrong lengths, truncation. |
| `MstNode.EntryRoundTrip` | crates/kappa-module-atproto/src/mst.rs:547-573 | An entry with fields below 2^16 is read back wherever it stands. |
| `MstNode.NodeRoundTrip` | crates/kappa-module-atproto/src/mst.rs:145-211 | A node block decodes to its node below 2^16 entries, and is an error from there on. |
| `NodeMeaning.NodeMeansFields` | crates/kappa-module-atproto/src/mst.rs:178-211 | Any well-encoded block decodes to what its fields mean in turn: unknown keys passed over, later fields win, a subtree of another length is none, a value of another length is an error. |
| `MstNode.NodeBytesInjective` | crates/kappa-module-atproto/src/mst.rs:145-172 | Different nodes have different blocks, whatever their number of entries. |
| `Mst.BuildPlaces` | crates/kappa-module-atproto/src/mst.rs:384-458 | Read in order, the layout lists every key once, in order, and a key of layer L sits root layer minus L levels below the root. |
| `Mst.StraysExactly` | crates/kappa-module-atproto/src/mst.rs:447-450 | The branch that steps over a key runs iff some key is above the layer being laid out; from the maximal layer it never does. |
| `MstCommitment.PrefixLen` | crates/kappa-module-atproto/src/mst.rs:461-463 | The shared prefix is common to both keys and cannot be longer. |
| `MstCommitment.EntriesCompress` | crates/kappa-module-atproto/src/mst.rs:384-458 | Every entry leaves out exactly the longest prefix its key shares with the key before it. |
| `MstCommitment.WalkExact` | crates/kappa-module-atproto/src/mst.rs:178-211 | Walking the stored blocks of any tree recovers its keys, values and levels iff every node has fewer than 2^16 entries. |
| `MstCommitment.WalkRecoversMap` | crates/kappa-module-atproto/src/mst.rs:307-329 | Walking from the root of a map lists exactly the map, sorted, each key at its level; with a wider node the walk fails. |
| `MstCommitment.SameRefSameTree` | crates/kappa-module-atproto/src/mst.rs:384-458 | Without collisions among the blocks, equal references stand for equal trees. |
| `MstCommitment.RootCommits` | crates/kappa-module-atproto/src/mst.rs:307-329 | Two maps have the same root iff they are the same map, without collisions among their blocks. |
| `MstRepository.CountLeadingZeros` | crates/kappa-module-atproto/src/mst.rs:109-135 | The byte loop counts the leading zero 2-bit chunks of the hash; the tree theorems hold for this and any other assignment of layers to keys. |
| `MstRepository.ZerosByFirstByte` | crates/kappa-module-atproto/src/mst.rs:109-135 | By the first byte: none from 64 on, one from 16, two from 4, three from 1, and four for a zero byte, with the count going on behind it. |
| `MstRepository.IsValidKey` | crates/kappa-module-atproto/src/mst.rs:77-94 | The check by splitting accepts exactly one slash between two non-empty parts of allowed characters, within 1024 bytes. |
| `MstRepository.BuildSubtree` | crates/kappa-module-atproto/src/mst.rs:384-458 | The recursive builder stores exactly the blocks of the layout, children first, and returns them with the root identifier. |
| `MstRepository.SearchTree.Insert` | crates/kappa-module-atproto/src/mst.rs:252-261 | Adds one entry iff the key is valid and absent; says which error otherwise and changes nothing. |
| `MstRepository.SearchTree.Update` | crates/kappa-module-atproto/src/mst.rs:264-270 | Replaces the value of a present key, else an error and no change. |
| `MstRepository.SearchTree.Delete` | crates/kappa-module-atproto/src/mst.rs:273-277 | Removes a present key and returns its value, else an error and no change. |
| `MstRepository.SearchTree.WriteToStore` | crates/kappa-module-atproto/src/mst.rs:307-329 | Stores the tree of the entries; the root depends on the entries alone, and the entries have the sizes the reading theorems ask for. |
| `MstRepository.WrittenTreeIsReadable` | crates/kappa-module-atproto/src/mst.rs:307-458 | Whatever the store held, after writing a map the walk from the returned root lists exactly that map, or fails iff some node has 2^16 entries. |
| `MstRepository.SearchTree.DiffFrom` | crates/kappa-module-atproto/src/mst.rs:332-360 | The two loops compute the specified difference, each part in key order. |
| `MstDiff.DiffPatches` | crates/kappa-module-atproto/src/mst.rs:332-378 | Applying the difference to the old map gives the new one, and it is empty iff the maps are equal. |
| `MstDiff.DiffExactly` | crates/kappa-module-atproto/src/mst.rs:332-378 | Created, deleted and updated keys are exactly the new, gone and changed ones, each once, with its values, in key order. |
| `CommitCodec.ParseDataCid` | crates/kappa-module-atproto/src/xrpc.rs:370-444 | The field loop equals the specified search for the data field on every input. |
| `CommitCodec.DataRoundTrip` | crates/kappa-module-atproto/src/commit.rs:92-143 | The root of a written commit is found iff it is shorter than 255 bytes. |
| `HeaderMeaning.CommitMeansRoot` | crates/kappa-module-atproto/src/xrpc.rs:370-444 | The root is found wherever its field stands among text, byte, link and number fields, iff it is shorter than 255 bytes. |
| `Export.WalkCids` | crates/kappa-module-atproto/src/xrpc.rs:499-536 | The exclusion walk ends by growth of the visited set; everything new lies under its root and is closed under links. |
| `Export.WalkNode` | crates/kappa-module-atproto/src/xrpc.rs:539-600 | The collecting walk visits what the repository has of the tree, missing tags included, and adds exactly one block, with its content, for every newly visited identifier it has. |
| `Export.WholeTree` | crates/kappa-module-atproto/src/xrpc.rs:499-600 | Started from a complete visited set, a walk adds exactly the tree under its root: all of it for the exclusion walk, what the repository has for the collecting one. |
| `Export.ExportRepo` | crates/kappa-module-atproto/src/xrpc.rs:307-345 | The blocks are exactly the commit and what the repository has of the tree its data field names, minus the tree the older commit names, each once, with their content. |
| `Export.IncrementalExport` | crates/kappa-module-atproto/src/xrpc.rs:315-345 | The incremental export is the full one without the older tree, both ways, and with the older blocks it completes the new repository. |
| `RepoSync.GetRepo` | crates/kappa-module-atproto/src/xrpc.rs:307-345 | The archive of an export holds the commit as its root and exactly the delivered blocks. |
| `RepoSync.SyncRecoversMap` | crates/kappa-module-atproto/src/xrpc.rs:307-345 | The archive of a full export decodes, and from its root alone the receiver gets back the map, every key at its level, with the content of every record, iff no node has 2^16 entries. |
| `Car.EncodeCar` | crates/kappa-module-atproto/src/car.rs:31-49 | The writing loop produces the specified archive. |
| `Car.DecodeCar` | crates/kappa-module-atproto/src/car.rs:54-92 | The reading loop equals the specification on every input and consumes all of it. |
| `Car.DecodeHeader` | crates/kappa-module-atproto/src/car.rs:180-251 | The header loop equals the specification: map and array lengths, versions, unknown keys. |
| `Car.CidLenPrefix` | crates/kappa-module-atproto/src/car.rs:98-133 | The detected identifier length depends on the identifier only: what follows it does not matter. |
| `Car.HeaderRoundTrip` | crates/kappa-module-atproto/src/car.rs:141-332 | The header gives back its root below 255 bytes and is an error from there on. |
| `HeaderMeaning.HeaderMeansRoots` | crates/kappa-module-atproto/src/car.rs:180-251 | A header of fields in any order is accepted iff it says version 1 and nothing else, with at most 16 roots a list, each below 255 bytes; other notes are passed over and the roots come in order. |
| `Car.CidForms` | crates/kappa-module-atproto/src/car.rs:98-133 | Both forms of an identifier, bare multihash and version 1, delimit themselves. |
| `Car.BlocksRoundTrip` | crates/kappa-module-atproto/src/car.rs:39-92 | Blocks are read back iff each is at most 256 MiB and has a self-delimiting identifier. |
| `Car.CarRoundTrip` | crates/kappa-module-atproto/src/car.rs:31-449 | An archive decodes to its root and blocks iff the root is below 255 bytes and every block is readable. |
| `Merkle.BuildNext` | crates/kappa-core/src/merkle.rs:52-64 | The pairing loop computes the next level, an odd last node paired with itself. |
| `Merkle.MerkleRoot` | crates/kappa-core/src/merkle.rs:47-67 | The level loop computes the specified root, none for no leaves. |
| `Merkle.SmallRoots` | crates/kappa-core/src/merkle.rs:20-67 | What is hashed for one, two and three leaves: leaves behind a zero byte, pairs behind a one, left before right, an odd node with itself. |
| `Merkle.MerkleProof` | crates/kappa-core/src/merkle.rs:74-113 | The loop computes the specified path, none for an index out of range. |
| `Merkle.MerkleVerify` | crates/kappa-core/src/merkle.rs:119-129 | The loop accepts iff the path leads from the leaf to the root. |
| `Merkle.ProofVerifies` | crates/kappa-core/src/merkle.rs:47-129 | The generated proof of every leaf is accepted. |
| `Merkle.OnlyThatLeaf` | crates/kappa-core/src/merkle.rs:47-129 | With the directions of an index, only that leaf with its own siblings is accepted, without collisions among the hashed inputs. |
| `Merkle.AcceptedIsMember` | crates/kappa-core/src/merkle.rs:47-129 | Any accepted proof, of whatever length and directions, is for a leaf of the list. |
| `Merkle.SameRootSameLeaves` | crates/kappa-core/src/merkle.rs:47-67 | Lists of the same length have the same root iff they are equal. |
| `Merkle.OddTailDoubles` | crates/kappa-core/src/merkle.rs:56-63 | The length is needed: repeating the last leaf of an odd list of three or more keeps the root. |
| `Crdt.KeyInjective` | crates/kappa-module-distribution/src/ws_crdt.rs:50-50 | Room keys of different documents differ, document names being single path segments. |
| `Crdt.Manager.Join` | crates/kappa-module-distribution/src/ws_crdt.rs:45-65 | Opens the room from the persisted state if needed, counts the client, and hands out the state and the receiver position. |
| `Crdt.Manager.ApplyUpdate` | crates/kappa-module-distribution/src/ws_crdt.rs:67-74 | Appends the update to the state and broadcasts it; does nothing without a room. |
| `Crdt.Manager.Leave` | crates/kappa-module-distribution/src/ws_crdt.rs:76-100 | Counts down, and on the last client closes the room and persists a non-empty state. |
| `Crdt.NextSound` | crates/kappa-module-distribution/src/ws_crdt.rs:45-148 | Every step keeps the invariant: a room is open iff it has clients, counts them, and is the persisted start plus all updates; every client is at a point of that history. |
| `Crdt.RunHistory` | crates/kappa-module-distribution/src/ws_crdt.rs:45-148 | After any interleaving, the content of a document is what it was followed by every update made to it, in order. |
| `Crdt.TornDownIsPersisted` | crates/kappa-module-distribution/src/ws_crdt.rs:76-105 | Whenever nobody is in a room, the whole history is persisted. |
| `Crdt.ClientSeesPrefix` | crates/kappa-module-distribution/src/ws_crdt.rs:118-148 | What a client was sent is always a prefix of the history, without gap or repetition, and of the document. |
| `Crdt.CatchesUp` | crates/kappa-module-distribution/src/ws_crdt.rs:118-148 | A client at most 256 updates behind that keeps receiving ends with the whole document; one further behind is dropped (Crdt.ReceiveCloser). |
| `Crdt.ReceiveCloser` | crates/kappa-module-distribution/src/ws_crdt.rs:118-148 | One receive brings a client exactly one update closer and changes nothing else, or drops it when it is more than 256 behind. |
| `Crdt.JoinsUpToDate` | crates/kappa-module-distribution/src/ws_crdt.rs:45-65 | A client joins with the whole document so far. |
| `Transaction.Manager.BeginTxn` | crates/kappa-core/src/transaction.rs:95-113 | Starts a transaction unless the limit is reached. |
| `Transaction.Manager.PutBlob` | crates/kappa-core/src/transaction.rs:117-179 | Checks content, transaction and both limits in that order, and takes the step whose effect Transaction.StagedIsPuts states. |
| `Transaction.Manager.CommitTxn` | crates/kappa-core/src/transaction.rs:186-229 | Promotes the staged blobs in sorted order and ends the transaction; on a rejected blob it stops with an error and the transaction stays. |
| `Transaction.Manager.AbortTxn` | crates/kappa-core/src/transaction.rs:232-251 | Ends the transaction and gives back its bytes; nothing is promoted. |
| `Transaction.Manager.EvictExpired` | crates/kappa-core/src/transaction.rs:254-270 | Aborts exactly the transactions older than the timeout, each once, and returns their number. |
| `Transaction.PutSound` | crates/kappa-core/src/transaction.rs:117-179 | A put keeps counters equal to the staged sizes and within the limits. |
| `Transaction.StagedIsPuts` | crates/kappa-core/src/transaction.rs:117-179 | Until something ends it, a transaction stages exactly the puts to it that were taken, the first content of each kappa, whatever other transactions do. |
| `Transaction.TakenExactly` | crates/kappa-core/src/transaction.rs:117-160 | A put is taken iff its content matches its label, the transaction runs, and the distinct blobs staged so far leave room for it under both limits. |
| `Transaction.PutRefusals` | crates/kappa-core/src/transaction.rs:117-160 | The first check that fails names the error. |
| `Transaction.BeginPutCommit` | crates/kappa-core/src/transaction.rs:95-229 | From begin to commit: the commit succeeds iff the store takes every blob that was put, returns their kappas in order, and the store gains exactly those blobs. |
| `Transaction.PutsArrive` | crates/kappa-core/src/transaction.rs:95-229 | On a new manager, blobs that match their labels and fit the limits together all arrive. |
| `Transaction.DropSound` | crates/kappa-core/src/transaction.rs:232-287 | Ending a transaction keeps the accounting exact; no counter goes below zero. |
| `Transaction.CommitExact` | crates/kappa-core/src/transaction.rs:186-229 | A commit succeeds iff the transaction runs and the store takes every staged blob; then the store has gained exactly those blobs and nothing else changed. |
| `Transaction.RejectedCommit` | crates/kappa-core/src/transaction.rs:186-229 | A commit that fails has promoted exactly the staged blobs before the first one the store rejects, and the transaction stays. |
| `Transaction.CommitReturnsListed` | crates/kappa-core/src/transaction.rs:186-229 | A commit returns the staged names that look like labels, in order. |
| `Transaction.NextStore` | crates/kappa-core/src/transaction.rs:95-287 | No other operation changes the store. |
| `Transaction.RunSound` | crates/kappa-core/src/transaction.rs:95-287 | Over every run the global counter is the sum of the per-transaction ones, each the size of its distinct staged blobs, all limits hold, the active count is the table size, and the store gains only blobs that match their kappa. |
| `NixRefs.ScanReferences` | crates/kappa-module-nix/src/refs.rs:45-70 | The window loop finds, sorted and once each, exactly the candidates of 32 bytes that begin and end in the alphabet and occur in the buffer. |
| `NixRefs.ScanChunk` | crates/kappa-module-nix/src/refs.rs:77-105 | One chunk finds exactly the candidates in the chunk or across the boundary, and keeps the last 31 bytes. |
| `NixRefs.ScanStream` | crates/kappa-module-nix/src/refs.rs:77-105 | Scanning chunk after chunk gives the union of the chunk results. |
| `NixRefs.FoundIffCovered` | crates/kappa-module-nix/src/refs.rs:77-105 | For any split, a candidate is found iff it occurs in a window that some scan sees; nothing is reported that does not occur. |
| `NixRefs.NarrowMisses` | crates/kappa-module-nix/src/refs.rs:77-105 | For every list of chunk lengths that is not wide there is a stream and a hash of the alphabet in it that the chunked scan misses. |
| `NixRefs.ChunkedScanExact` | crates/kappa-module-nix/src/refs.rs:77-105 | The chunked scan equals the whole scan on all streams with these chunk lengths iff no chunk with bytes on both sides is shorter than 31 bytes (or the stream is shorter than 32). |
| `Tid.EncodeS32` | crates/kappa-module-atproto/src/tid.rs:115-127 | The digit loop with its final reversal gives the digits of the number, most significant first. |
| `Tid.TidFromParts` | crates/kappa-module-atproto/src/tid.rs:97-112 | The padding loops give the specified identifier. |
| `Tid.DecodeS32` | crates/kappa-module-atproto/src/tid.rs:130-141 | The decoding loop computes the value and does not overflow 64 bits on the lengths it is used for. |
| `Tid.ParseTid` | crates/kappa-module-atproto/src/tid.rs:144-152 | Dashes are dropped, then the length is checked and both parts decoded. |
| `Tid.TidRoundTrip` | crates/kappa-module-atproto/src/tid.rs:97-152 | An identifier has 13 characters and parses back to its pair iff the timestamp is below 2^55; above, parsing is a length error. |
| `Tid.DashesDoNotMatter` | crates/kappa-module-atproto/src/tid.rs:144-152 | A dash anywhere in the text does not change what is parsed. |
| `Tid.TidOrder` | crates/kappa-module-atproto/src/tid.rs:97-112 | Identifiers compare as strings exactly as their (timestamp, clock) pairs compare. |
| `Tid.IssuedAscend` | crates/kappa-module-atproto/src/tid.rs:66-88 | In every interleaving of the compare-and-swap loop, with any clock readings and spurious failures, timestamps strictly increase. |
| `Tid.Linearizes` | crates/kappa-module-atproto/src/tid.rs:66-88 | In every interleaving the timestamps handed out are, in the order of the successful swaps, each the least that is no earlier than the reading of its caller and later than all before it. |
| `Tid.ClockIsKept` | crates/kappa-module-atproto/src/tid.rs:66-88 | From a new generator, a reading ahead of everything issued before is the timestamp itself. |
| `Tid.SoloCall` | crates/kappa-module-atproto/src/tid.rs:66-88 | A caller that is not disturbed gets its timestamp with one load and one swap. |
| `Tid.TidsIncrease` | crates/kappa-module-atproto/src/tid.rs:66-112 | So the identifiers of one generator strictly increase as strings. |
| `Session.InputNumber` | crates/kappa-module-atproto/src/session.rs:289-293 | Token inputs with different counter values differ, whatever identifiers and times they contain. |
| `Session.SessionStore.CreateSession` | crates/kappa-module-atproto/src/session.rs:89-130 | Issues a token pair iff the credentials match. |
| `Session.SessionStore.RefreshSession` | crates/kappa-module-atproto/src/session.rs:134-173 | Consumes the refresh token and issues a new pair with the same account, key and handle. |
| `Session.SessionStore.DeleteSession` | crates/kappa-module-atproto/src/session.rs:176-188 | Removes the session and its refresh token. |
| `Session.SessionStore.GetSession` | crates/kappa-module-atproto/src/session.rs:191-200 | Finds a session that exists and has not expired. |
| `Session.SessionStore.VerifyDpopRequest` | crates/kappa-module-atproto/src/session.rs:214-262 | Takes the specified step; what it accepts and refuses is stated by Session.VerifiedIff and Session.RefusalNamesCheck. |
| `Session.VerifiedIff` | crates/kappa-module-atproto/src/session.rs:214-262 | A request is accepted, for the account of the session, iff the token is alive, the proof identifier is new, and the proof is for this method, this address without its query, this token, the key of the session, and at most 300 seconds from now; the identifier is recorded iff the token is alive (section 4.3 of RFC 9449). |
| `Session.RefusalNamesCheck` | crates/kappa-module-atproto/src/session.rs:214-262 | The first check that fails names the error. |
| `Session.CreateIff` | crates/kappa-module-atproto/src/session.rs:80-130 | Over every run, a session is created iff the password hashes to the one registered last for the account; it is for that account, key and handle and lives an hour; otherwise nothing changes. |
| `Session.SessionLives` | crates/kappa-module-atproto/src/session.rs:134-200 | A session that is neither refreshed nor deleted stays as it is and is found until it expires, and its refresh token still gives a new pair for the same account, key and handle. |
| `Session.RunSound` | crates/kappa-module-atproto/src/session.rs:89-262 | Over every run the session table and the refresh index stay inverse to each other and disjoint, without collisions among the token inputs. |
| `Session.RefreshOnce` | crates/kappa-module-atproto/src/session.rs:134-173 | A refresh token that succeeded never succeeds again, and the access token it replaced stays invalid. |
| `Session.DeletedForever` | crates/kappa-module-atproto/src/session.rs:176-188 | After deletion neither the access token nor the refresh token is ever accepted again. |
| `Session.LineageKeepsBinding` | crates/kappa-module-atproto/src/session.rs:134-173 | Along every refresh lineage the account, the client key and the handle never change. |
| `Session.AcceptedKeyIsOriginal` | crates/kappa-module-atproto/src/session.rs:134-262 | However often a session was refreshed, a request on it is accepted only with a proof by its original key, and for its original account (section 4.3 of RFC 9449). |
| `Session.JtiOnce` | crates/kappa-module-atproto/src/session.rs:224-230 | A proof identifier is accepted at most once in any run (section 11.1 of RFC 9449). |

## Left out

- HTTP routing, JSON, WebSocket frames, headers, progress callbacks and async plumbing: no algorithm.
- Real cryptography, zlib, dCBOR and file systems: they are parameters or finite maps.
- Failures of the store and of file operations, except where the model says so (a rejected blob in a commit, unreadable objects and missing bridge tags in walks): they only end an operation early.
- Additions of lengths and offsets are exact integers; their wrap-around at 2^64, and the 2^64 wrap of the token and timestamp counters, is not modelled.
- BundleFormat.DecodeBundle: a length field near 2^64 would wrap the position in the source; here it runs past the end and is an error.
- Car.DecodeCar: the same for block and header lengths.
- Car.CidLenPrefix: the same for an announced digest length.
- DeltaCodec.RoundTripIffShort: asks for bases up to 4 GiB, because a copy offset has 32 bits; RoundTripExactly has no such limit.
- DeltaFormat.ApplyDelta: the source reserves the announced result size before it reads an instruction (crates/kappa-core/src/delta.rs:228) and panics above 2^63 - 1 bytes; the model has no such limit.
- DeltaFormat.ApplyPackDelta: the same reservation (crates/kappa-module-git/src/ingest.rs:326).
- BundleCodec.RoundTrip: asks for fewer than 2^32 objects, the width of the count field.
- PackCodec.TransferExact: asks for fewer than 2^32 objects, the width of the count field, and contents up to 4 GiB; PackMeaning.PackMeansObjects says what a pack gives without that limit.
- Shallow.ShallowFetch: wants are commits and commits are referenced by parent lines only, as in Git repositories.
- Export.ExportRepo: asks that no identifier is tagged as a node and named as a record, or the other way round, and that the commit is not tagged as a node.
- Gc.BuildRootSet: asks that the epoch chains of the namespaces end, since the loop does not otherwise; Gc.WalkEndsIff says exactly when.
- Interleavings inside one operation of the transaction manager and the session store: each operation is one atomic step.
- Transaction.Manager.BeginTxn: the random identifier is an input and is asked to be unused.
- Crdt.Manager.Join: the tag and blob of a persisted document are one map entry; a store that fails to save is not modelled.
- The plain pack generator without deltas and the reference advertisement of the Git protocol: they would only add easy members.
- The per-namespace sweep handler, reconciliation, the key directory, password hashing strength, proof signature checking and base64url: external or easy.
- Tid.ParseTid: works on bytes; the source cuts the cleaned text at byte 11 and panics when that is inside a character.
- Revision ordering across commits: each commit makes a fresh generator, so the order theorem covers one generator.
- UTF-8 validation is a parameter that accepts the ASCII keys the encoders write; a header or node key outside ASCII is whatever the parameter says.
