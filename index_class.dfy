/** The value index of one container (`Indexing`): the in-memory copy of the chunk records, the
    metadata file and the index file, and the operations that update them in place. Every
    method is proved to perform the transition of module IndexSpec on the state it starts from. */
module Indexing {
  import opened Primitives
  import opened Errors
  import opened Sequences
  import opened IndexFormat
  import opened IndexSpec

  /** The metadata half of `load_index`: one record per whole 18 bytes of the metadata file. */
  method DecodeMetadataFile(buffer: seq<byte>) returns (elements: seq<MetaRecord>)
    ensures elements == MetadataOf(buffer)
  {
    elements := [];
    var i := 0;
    while i < |buffer| / 18
      invariant 0 <= i <= |buffer| / 18
      invariant elements == MetadataOf(buffer)[..i]
    {
      var record := buffer[18 * i..18 * i + 18];
      elements := elements + [DecodeMeta(record)];
      i := i + 1;
    }
  }

  class Index {
    /** The chunk records, in chunk order. */
    var metadata: seq<MetaRecord>
    /** The `.cimeta` file. */
    var metaFile: seq<byte>
    /** The `.cindex` file, slot by slot. */
    var indexFile: seq<Slot>
    /** Set by every write; the flush task (not modelled) clears it. */
    var changes: bool

    function State(): Store
      reads this
    {
      Store(metadata, metaFile, indexFile)
    }

    /** Every chunk the records name can be read from the index file. */
    predicate Valid()
      reads this
    {
      Consistent(State())
    }

    /** `load_index` on existing files: the records decoded from the metadata file, no pending
        changes. The index file must hold every chunk the metadata file names. */
    constructor Load(metaBytes: seq<byte>, indexSlots: seq<Slot>)
      requires 4096 * (|metaBytes| / 18) <= |indexSlots|
      ensures metadata == MetadataOf(metaBytes) && metaFile == metaBytes && indexFile == indexSlots
      ensures !changes && Valid()
    {
      var elements := DecodeMetadataFile(metaBytes);
      metadata := elements;
      metaFile := metaBytes;
      indexFile := indexSlots;
      changes := false;
    }

    /** `create_index_chunk`: push the record, grow the metadata file by one record and write it
        there, grow the index file by one chunk and write the new chunk there. */
    method CreateIndexChunk(arg: u64, off: u64)
      modifies this
      ensures State() == CreateChunkSpec(old(State()), arg, off)
      ensures changes
    {
      var m := MetaRecord(arg, AsU64(arg + INDEX_CHUNK_SIZE), 1);
      metadata := metadata + [m];

      var metadataSize := |metaFile|;
      metaFile := SetLen(metaFile, metadataSize + 18, 0);
      metaFile := WriteAt(metaFile, metadataSize, EncodeMeta(m), 0);
      GrowThenWrite(old(metaFile), EncodeMeta(m), 0);

      var indexFileSize := |indexFile|;
      indexFile := SetLen(indexFile, indexFileSize + INDEX_CHUNK_SIZE, EMPTY_SLOT);
      var buffer := [Slot(arg, off)] + seq(4095, _ => EMPTY_SLOT);
      indexFile := WriteAt(indexFile, indexFileSize, buffer, EMPTY_SLOT);
      GrowThenWrite(old(indexFile), buffer, EMPTY_SLOT);
      assert buffer == NewChunk(arg, off);
      changes := true;
    }

    /** `insert_index`: write the pair at slot m.count of chunk idx and the record m at record idx
        of the metadata file. The in-memory records are left alone. */
    method InsertIndex(arg: u64, off: u64, idx: nat, m: MetaRecord)
      modifies this
      ensures State() == InsertSpec(old(State()), arg, off, idx, m)
      ensures changes
    {
      indexFile := WriteAt(indexFile, 4096 * idx + m.count, [Slot(arg, off)], EMPTY_SLOT);
      metaFile := WriteAt(metaFile, 18 * idx, EncodeMeta(m), 0);
      changes := true;
    }

    /** `add`: count the pair in the first chunk that accepts arg and write it there, or open a
        new chunk for it. */
    method Add(arg: u64, off: u64)
      modifies this
      ensures State() == AddSpec(old(State()), arg, off)
      ensures changes
    {
      var index := 0;
      var alloc := false;
      var i := 0;
      while i < |metadata|
        invariant 0 <= i <= |metadata|
        invariant metadata == old(metadata) && metaFile == old(metaFile) && indexFile == old(indexFile)
        invariant forall j :: 0 <= j < i ==> !Accepts(metadata[j], arg)
      {
        var v := metadata[i];
        if v.count < U16_MAX && arg <= v.max && arg >= v.min {
          metadata := metadata[i := v.(count := v.count + 1)];
          index := i;
          alloc := true;
          break;
        }
        i := i + 1;
      }
      if !alloc {
        assert FirstAccepting(old(metadata), arg).None?;
        CreateIndexChunk(arg, off);
        return;
      }
      assert FirstAccepting(old(metadata), arg) == Some(index);
      InsertIndex(arg, off, index, metadata[index]);
    }

    /** `remove_index`: collect the chunks whose range covers arg; for each, read the 4096 slots at
        slot idx * 256, keep those other than (arg, off), write them back packed and zero-padded
        over chunk idx, and decrement the chunk's count in memory and on disk. */
    method Remove(arg: u64, off: u64)
      requires Valid()
      modifies this
      ensures State() == RemoveSpec(old(State()), arg, off)
      ensures changes == (old(changes) || Selected(old(metadata), Exact(arg)) != [])
    {
      var slots := SelectChunks(Exact(arg));
      ghost var st := State();
      var k := 0;
      while k < |slots|
        invariant 0 <= k <= |slots|
        invariant Consistent(st) && Below(slots, |st.metadata|)
        invariant State() == RemoveFold(st, arg, off, slots[..k])
        invariant changes == (old(changes) || k > 0)
      {
        RemovePass(st, arg, off, slots, k);
        k := k + 1;
      }
      assert slots[..|slots|] == slots;
    }

    /** Pass k of the loop of `remove_index` over the chunks cs, which extends the fold by one. */
    method RemovePass(ghost st: Store, arg: u64, off: u64, cs: seq<nat>, k: nat)
      requires Consistent(st) && Below(cs, |st.metadata|) && k < |cs|
      requires State() == RemoveFold(st, arg, off, cs[..k])
      modifies this
      ensures State() == RemoveFold(st, arg, off, cs[..k + 1])
      ensures changes
    {
      RemoveFoldStep(st, arg, off, cs, k);
      RemoveChunk(arg, off, cs[k]);
    }

    /** One pass of the loop of `remove_index`, over chunk idx. */
    method RemoveChunk(arg: u64, off: u64, idx: nat)
      requires Valid() && idx < |metadata|
      modifies this
      ensures State() == RemoveOne(old(State()), arg, off, idx)
      ensures changes
    {
      var window := indexFile[256 * idx..256 * idx + 4096];
      var kept := Survivors(window, Slot(arg, off));
      var buffer := PackChunk(kept);
      indexFile := WriteAt(indexFile, 4096 * idx, buffer, EMPTY_SLOT);
      var v := metadata[idx].(count := WrappingDecrement(metadata[idx].count));
      metadata := metadata[idx := v];
      metaFile := WriteAt(metaFile, 18 * idx, EncodeMeta(v), 0);
      changes := true;
    }

    /** The chunks, in order, whose records the query selects: the first loop of `search`, and,
        for an exact query, of `remove_index`. */
    method SelectChunks(q: SearchQuery) returns (groups: seq<nat>)
      ensures groups == Selected(metadata, q)
    {
      groups := [];
      var idx := 0;
      while idx < |metadata|
        invariant 0 <= idx <= |metadata|
        invariant groups == Selected(metadata[..idx], q)
      {
        assert metadata[..idx + 1][..idx] == metadata[..idx];
        if Selects(q, metadata[idx]) {
          groups := groups + [idx];
        }
        idx := idx + 1;
      }
      assert metadata[..|metadata|] == metadata;
    }

    /** `search`: collect the chunks the query selects, then scan each of them slot by slot and
        gather the offsets of the matching slots. */
    method Search(q: SearchQuery) returns (offsets: set<u64>)
      requires Valid()
      ensures offsets == SearchSpec(State(), q)
    {
      var groups := SelectChunks(q);
      offsets := {};
      var gi := 0;
      while gi < |groups|
        invariant 0 <= gi <= |groups|
        invariant ChunksInside(indexFile, groups)
        invariant offsets == HitsOver(indexFile, groups[..gi], q)
      {
        HitsOverStep(indexFile, groups, gi, q);
        var buffer := ChunkAt(indexFile, groups[gi]);
        var found := ScanChunk(buffer, q);
        offsets := offsets + found;
        gi := gi + 1;
      }
      assert groups[..|groups|] == groups;
    }
  }

  lemma RemoveFoldStep(st: Store, arg: u64, off: u64, cs: seq<nat>, k: nat)
    requires Consistent(st) && Below(cs, |st.metadata|) && k < |cs|
    ensures RemoveFold(st, arg, off, cs[..k + 1]) == RemoveOne(RemoveFold(st, arg, off, cs[..k]), arg, off, cs[k])
  {
    assert cs[..k + 1][..k] == cs[..k];
  }

  lemma HitsOverStep(file: seq<Slot>, gs: seq<nat>, k: nat, q: SearchQuery)
    requires ChunksInside(file, gs) && k < |gs|
    ensures HitsOver(file, gs[..k + 1], q) == HitsOver(file, gs[..k], q) + ChunkHits(ChunkAt(file, gs[k]), q)
  {
    assert gs[..k + 1][..k] == gs[..k];
  }

  /** The slot loop of `remove_index`: every slot of the window except the removed pair, in order. */
  method Survivors(window: seq<Slot>, t: Slot) returns (kept: seq<Slot>)
    ensures kept == Without(window, t)
  {
    kept := [];
    var j := 0;
    while j < |window|
      invariant 0 <= j <= |window|
      invariant kept == Filter(window[..j], s => s != t)
    {
      assert window[..j + 1][..j] == window[..j];
      if window[j] != t {
        kept := kept + [window[j]];
      }
      j := j + 1;
    }
    assert window[..|window|] == window;
  }

  /** The buffer `remove_index` writes back: a zeroed chunk-sized buffer with the kept slots
      copied to its front. */
  method PackChunk(kept: seq<Slot>) returns (buffer: seq<Slot>)
    requires |kept| <= 4096
    ensures buffer == kept + seq(4096 - |kept|, _ => EMPTY_SLOT)
  {
    var a := new Slot[4096](_ => EMPTY_SLOT);
    var i := 0;
    while i < |kept|
      invariant 0 <= i <= |kept|
      invariant a[..] == kept[..i] + seq(4096 - i, _ => EMPTY_SLOT)
    {
      a[i] := kept[i];
      i := i + 1;
    }
    buffer := a[..];
  }

  /** The slot loop of `search` over one chunk: the offsets of the slots whose keys match. */
  method ScanChunk(buffer: seq<Slot>, q: SearchQuery) returns (found: set<u64>)
    ensures found == ChunkHits(buffer, q)
  {
    found := {};
    var j := 0;
    while j < |buffer|
      invariant 0 <= j <= |buffer|
      invariant found == ChunkHits(buffer[..j], q)
    {
      assert buffer[..j + 1][..j] == buffer[..j];
      if Matches(q, buffer[j].key) {
        found := found + {buffer[j].offset};
      }
      j := j + 1;
    }
    assert buffer[..|buffer|] == buffer;
  }
}
