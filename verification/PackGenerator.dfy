/** `generate_pack_sorted` as written: a writer, a running offset and a window of recent objects. */
module PackGenerator {
  import opened Bytes
  import opened Endian
  import DeltaEncoder
  import opened PackFormat
  import opened PackIngest
  import opened PackCodec

  method ChooseDelta(window: Recent, kind: Kind, content: bytes, fingerprint: bytes -> nat)
    returns (best: Option<(nat, bytes)>)
    ensures best == ChooseFrom(window, 0, kind, content)
  {
    hide DeltaEncoder.KeptPackDelta;
    best := None;
    for i := |window| downto 0
      invariant best == ChooseFrom(window, i, kind, content)
    {
      if window[i].0 != kind {
        continue;
      }
      var delta := DeltaEncoder.ComputePackDelta(window[i].1, content, fingerprint);
      if delta.Some? {
        if best.None? || |delta.value| < |best.value.1| {
          best := Some((i, delta.value));
        }
      }
    }
  }

  method WriteEntry(z: Zlib, out: bytes, e: PackEntry) returns (out': bytes)
    requires !e.Ref?
    ensures out' == out + EntryBytes(z, e)
  {
    hide EntryHeader, OfsBytes;
    match e {
      case Whole(kind, content) =>
        var header := EncodeEntryHeader(TypeId(kind), |content|);
        out' := out + header;
        out' := out' + z.deflate(content);
      case Ofs(distance, delta) =>
        var ofsHeader := EncodeOfsHeader(distance);
        var header := EncodeEntryHeader(OFS_DELTA, |delta|);
        out' := out + header;
        out' := out' + ofsHeader;
        out' := out' + z.deflate(delta);
    }
  }

  /** The object loop. The entry offset is the number of bytes written so far. */
  method WriteObjects(z: Zlib, header: bytes, objs: seq<GitObject>, fingerprint: bytes -> nat) returns (out: bytes)
    ensures out == header + Body(z, objs, [], [], |header|)
  {
    hide EntryBytes, ChooseFrom, DeltaEncoder.KeptPackDelta, Body, Push;
    out := header;
    assert objs[0..] == objs;
    var recent: Recent, offsets: seq<nat> := [], [];
    for idx := 0 to |objs|
      invariant |recent| == |offsets| && forall i :: 0 <= i < |offsets| ==> offsets[i] < |out|
      invariant out + Body(z, objs[idx..], recent, offsets, |out|) == header + Body(z, objs, [], [], |header|)
    {
      var o := objs[idx];
      var entryOffset := |out|;
      assert objs[idx..][0] == o && objs[idx..][1..] == objs[idx + 1..];
      BodyStep(z, objs[idx..], recent, offsets, entryOffset);
      var best: Option<(nat, bytes)> := None;
      if |o.content| >= MIN_DELTA_TARGET {
        best := ChooseDelta(recent, o.kind, o.content, fingerprint);
      }
      assert best == Choose(recent, o);
      if best.Some? && |best.value.1| < |o.content| {
        out := WriteEntry(z, out, Ofs(entryOffset - offsets[best.value.0], best.value.1));
      } else {
        KeptIsShorter(recent, o);
        out := WriteEntry(z, out, Whole(o.kind, o.content));
      }
      recent, offsets := Slid(recent, o), Push<nat>(offsets, entryOffset);
    }
    assert objs[|objs|..] == [];
    NothingToDo(z, recent, offsets, |out|);
  }

  lemma KeptIsShorter(recent: Recent, o: GitObject)
    ensures Choose(recent, o).Some? ==> |Choose(recent, o).value.1| < |o.content|
  {
  }

  method GeneratePack(env: Env, source: Store, kappas: seq<bytes>, hints: map<bytes, bytes>, fingerprint: bytes -> nat)
    returns (pack: bytes)
    ensures pack == Generated(env, source, kappas, hints)
  {
    hide Body, BigEndian, Sorted, Loaded;
    var sorted := Sorted(hints, Loaded(source, kappas));
    var header := PACK_MAGIC + BigEndian(2, 4) + BigEndian(|sorted|, 4);
    pack := WriteObjects(env.z, header, sorted, fingerprint);
    pack := pack + env.checksum(pack);
  }
}
