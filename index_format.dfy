/** The two files of a container's value index. The `.cindex` file holds chunks of
    INDEX_CHUNK_SIZE slots; a slot is 16 bytes, the big-endian index value then the big-endian
    row offset. The `.cimeta` file holds one 18-byte record per chunk: the big-endian smallest
    and largest value the chunk accepts, then its big-endian 16-bit item count. */
module IndexFormat {
  import opened Primitives

  const INDEX_CHUNK_SIZE: nat := 4096
  const SLOT_BYTES: nat := 16
  const META_RECORD_BYTES: nat := 18

  datatype Slot = Slot(key: u64, offset: u64)

  /** What sixteen zero bytes of the index file read as. */
  const EMPTY_SLOT: Slot := Slot(0, 0)

  datatype MetaRecord = MetaRecord(min: u64, max: u64, count: u16)

  function EncodeSlot(s: Slot): (bs: seq<byte>)
    ensures |bs| == SLOT_BYTES
  {
    U64ToBytes(s.key) + U64ToBytes(s.offset)
  }

  function DecodeSlot(bs: seq<byte>): (s: Slot)
    requires |bs| == SLOT_BYTES
    ensures EncodeSlot(s) == bs
  {
    var s := Slot(U64FromBytes(bs[..8]), U64FromBytes(bs[8..]));
    assert bs == bs[..8] + bs[8..];
    s
  }

  lemma SlotRoundTrip(s: Slot)
    ensures DecodeSlot(EncodeSlot(s)) == s
  {
    var bs := EncodeSlot(s);
    assert bs[..8] == U64ToBytes(s.key) && bs[8..] == U64ToBytes(s.offset);
    U64BytesRoundTrip(s.key);
    U64BytesRoundTrip(s.offset);
  }

  lemma {:induction false} FromBigEndianZeros(n: nat)
    ensures FromBigEndian(Zeros(n)) == 0
  {
    if n > 0 {
      assert Zeros(n)[..n - 1] == Zeros(n - 1);
      FromBigEndianZeros(n - 1);
    }
  }

  /** A zero-filled region of the index file reads as empty slots. */
  lemma ZerosAreEmptySlot()
    ensures DecodeSlot(Zeros(SLOT_BYTES)) == EMPTY_SLOT
  {
    var s := DecodeSlot(Zeros(SLOT_BYTES));
    assert Zeros(SLOT_BYTES)[..8] == Zeros(8) == Zeros(SLOT_BYTES)[8..];
    FromBigEndianZeros(8);
    assert FromBigEndian(U64ToBytes(s.key)) == 0;
    assert FromBigEndian(U64ToBytes(s.offset)) == 0;
  }

  function EncodeMeta(m: MetaRecord): (bs: seq<byte>)
    ensures |bs| == META_RECORD_BYTES
  {
    U64ToBytes(m.min) + U64ToBytes(m.max) + U16ToBytes(m.count)
  }

  function DecodeMeta(bs: seq<byte>): (m: MetaRecord)
    requires |bs| == META_RECORD_BYTES
    ensures EncodeMeta(m) == bs
  {
    var m := MetaRecord(U64FromBytes(bs[0..8]), U64FromBytes(bs[8..16]), U16FromBytes(bs[16..18]));
    assert bs == bs[0..8] + bs[8..16] + bs[16..18];
    m
  }

  lemma MetaRoundTrip(m: MetaRecord)
    ensures DecodeMeta(EncodeMeta(m)) == m
  {
    var bs := EncodeMeta(m);
    assert bs[0..8] == U64ToBytes(m.min) && bs[8..16] == U64ToBytes(m.max) && bs[16..18] == U16ToBytes(m.count);
    U64BytesRoundTrip(m.min);
    U64BytesRoundTrip(m.max);
    U16BytesRoundTrip(m.count);
  }

  /** The content of a `.cimeta` file that holds exactly the records ms. */
  function EncodeMetadata(ms: seq<MetaRecord>): (bs: seq<byte>)
    ensures |bs| == META_RECORD_BYTES * |ms|
  {
    if ms == [] then [] else EncodeMetadata(ms[..|ms| - 1]) + EncodeMeta(ms[|ms| - 1])
  }

  /** The records `load_index` reads from a `.cimeta` file: one per whole 18 bytes. */
  function MetadataOf(bs: seq<byte>): (ms: seq<MetaRecord>)
    ensures |ms| == |bs| / META_RECORD_BYTES
    ensures forall i :: 0 <= i < |ms| ==> 18 * i + 18 <= |bs| && ms[i] == DecodeMeta(bs[18 * i..18 * i + 18])
  {
    seq(|bs| / 18, i requires 0 <= i < |bs| / 18 => DecodeMeta(bs[18 * i..18 * i + 18]))
  }

  lemma {:induction false} EncodeMetadataBlock(ms: seq<MetaRecord>, i: nat)
    requires i < |ms|
    ensures EncodeMetadata(ms)[18 * i..18 * i + 18] == EncodeMeta(ms[i])
  {
    var n := |ms|;
    var prefix := EncodeMetadata(ms[..n - 1]);
    if i < n - 1 {
      EncodeMetadataBlock(ms[..n - 1], i);
      assert EncodeMetadata(ms)[18 * i..18 * i + 18] == prefix[18 * i..18 * i + 18];
    } else {
      assert EncodeMetadata(ms)[18 * i..18 * i + 18] == EncodeMeta(ms[n - 1]);
    }
  }

  /** Decoding the metadata file recovers every record that was encoded into it. */
  lemma MetadataRoundTrip(ms: seq<MetaRecord>)
    ensures MetadataOf(EncodeMetadata(ms)) == ms
  {
    var bs := EncodeMetadata(ms);
    forall i | 0 <= i < |ms|
      ensures MetadataOf(bs)[i] == ms[i]
    {
      EncodeMetadataBlock(ms, i);
      MetaRoundTrip(ms[i]);
    }
  }

  /** A metadata file whose length is a whole number of records is exactly the encoding of what
      `load_index` reads from it. */
  lemma MetadataFileRoundTrip(bs: seq<byte>)
    requires |bs| % META_RECORD_BYTES == 0
    ensures EncodeMetadata(MetadataOf(bs)) == bs
  {
    var ms := MetadataOf(bs);
    assert EncodesBlocks(ms, bs);
    EncodeMetadataFromRecords(ms, bs);
  }

  /** Every 18-byte block of bs is the encoding of the matching record of ms. */
  predicate EncodesBlocks(ms: seq<MetaRecord>, bs: seq<byte>) {
    && |bs| == 18 * |ms|
    && forall i :: 0 <= i < |ms| ==> EncodeMeta(ms[i]) == bs[18 * i..18 * i + 18]
  }

  /** Bytes whose every 18-byte block encodes the matching record are the records' encoding. */
  lemma {:induction false} EncodeMetadataFromRecords(ms: seq<MetaRecord>, bs: seq<byte>)
    requires EncodesBlocks(ms, bs)
    ensures EncodeMetadata(ms) == bs
  {
    if ms != [] {
      var cut := |bs| - 18;
      EncodesBlocksInit(ms, bs);
      EncodeMetadataFromRecords(ms[..|ms| - 1], bs[..cut]);
      assert bs == bs[..cut] + bs[cut..];
    }
  }

  lemma EncodesBlocksInit(ms: seq<MetaRecord>, bs: seq<byte>)
    requires EncodesBlocks(ms, bs) && ms != []
    ensures EncodesBlocks(ms[..|ms| - 1], bs[..|bs| - 18])
    ensures EncodeMeta(ms[|ms| - 1]) == bs[|bs| - 18..]
  {
    var n := |ms|;
    var prefix := bs[..|bs| - 18];
    forall i | 0 <= i < n - 1
      ensures EncodeMeta(ms[..n - 1][i]) == prefix[18 * i..18 * i + 18]
    {
      assert prefix[18 * i..18 * i + 18] == bs[18 * i..18 * i + 18];
    }
    assert bs[|bs| - 18..] == bs[18 * (n - 1)..18 * (n - 1) + 18];
  }

  /** A trailing partial record is not read. */
  lemma MetadataIgnoresPartialTail(bs: seq<byte>)
    ensures MetadataOf(bs) == MetadataOf(bs[..18 * (|bs| / 18)])
  {
    var cut := 18 * (|bs| / 18);
    forall i | 0 <= i < |bs| / 18
      ensures MetadataOf(bs)[i] == MetadataOf(bs[..cut])[i]
    {
      assert bs[..cut][18 * i..18 * i + 18] == bs[18 * i..18 * i + 18];
    }
  }

  /** `write_all_at`: data overwrites file from pos on; the file grows when the write ends past its
      end, and a gap between the old end and pos reads as fill. */
  function WriteAt<T>(file: seq<T>, pos: nat, data: seq<T>, fill: T): (r: seq<T>)
    ensures |r| == if pos + |data| > |file| then pos + |data| else |file|
    ensures r[pos..pos + |data|] == data
    ensures forall k :: 0 <= k < |r| && !(pos <= k < pos + |data|) ==>
      r[k] == if k < |file| then file[k] else fill
  {
    var grown := if pos > |file| then file + seq(pos - |file|, _ => fill) else file;
    grown[..pos] + data + (if pos + |data| < |grown| then grown[pos + |data|..] else [])
  }

  /** A write inside the file splices data in and leaves the length alone. */
  lemma WriteAtInside<T>(file: seq<T>, pos: nat, data: seq<T>, fill: T)
    requires pos + |data| <= |file|
    ensures WriteAt(file, pos, data, fill) == file[..pos] + data + file[pos + |data|..]
  {
    var r := WriteAt(file, pos, data, fill);
    var s := file[..pos] + data + file[pos + |data|..];
    assert |r| == |s|;
    forall k | 0 <= k < |r|
      ensures r[k] == s[k]
    {
      if pos <= k < pos + |data| {
        assert r[k] == r[pos..pos + |data|][k - pos];
      }
    }
  }

  /** A write at the end of the file appends. */
  lemma WriteAtEnd<T>(file: seq<T>, data: seq<T>, fill: T)
    ensures WriteAt(file, |file|, data, fill) == file + data
  {
    var r := WriteAt(file, |file|, data, fill);
    forall k | |file| <= k < |r|
      ensures r[k] == data[k - |file|]
    {
      assert r[k] == r[|file|..|file| + |data|][k - |file|];
    }
  }

  /** `set_len`: truncate the file to n, or extend it with fill. */
  function SetLen<T>(file: seq<T>, n: nat, fill: T): (r: seq<T>)
    ensures |r| == n
    ensures forall k :: 0 <= k < n ==> r[k] == if k < |file| then file[k] else fill
  {
    if n <= |file| then file[..n] else file + seq(n - |file|, _ => fill)
  }

  /** Growing a file by |data| entries and writing data at its old end appends data. */
  lemma GrowThenWrite<T>(file: seq<T>, data: seq<T>, fill: T)
    ensures WriteAt(SetLen(file, |file| + |data|, fill), |file|, data, fill) == file + data
  {
    var grown := SetLen(file, |file| + |data|, fill);
    WriteAtInside(grown, |file|, data, fill);
    assert grown[..|file|] == file;
  }

  /** file with the bytes at pos..pos + |data| replaced by data. */
  function Splice<T>(file: seq<T>, pos: nat, data: seq<T>): (r: seq<T>)
    requires pos + |data| <= |file|
    ensures |r| == |file|
    ensures forall k :: 0 <= k < |file| ==> r[k] == if pos <= k < pos + |data| then data[k - pos] else file[k]
  {
    file[..pos] + data + file[pos + |data|..]
  }

  /** Rewriting the record of chunk i in the metadata file is the same as encoding the metadata
      with that record replaced. */
  lemma EncodeMetadataUpdate(ms: seq<MetaRecord>, i: nat, m: MetaRecord)
    requires i < |ms|
    ensures EncodeMetadata(ms[i := m]) == WriteAt(EncodeMetadata(ms), 18 * i, EncodeMeta(m), 0)
  {
    EncodeMetadataSplice(ms, i, m);
    WriteAtInside(EncodeMetadata(ms), 18 * i, EncodeMeta(m), 0);
  }

  lemma {:induction false} EncodeMetadataSplice(ms: seq<MetaRecord>, i: nat, m: MetaRecord)
    requires i < |ms|
    ensures EncodeMetadata(ms[i := m]) == Splice(EncodeMetadata(ms), 18 * i, EncodeMeta(m))
  {
    var n := |ms|;
    var prefix := ms[..n - 1];
    var p := EncodeMetadata(prefix);
    var tail := EncodeMeta(ms[n - 1]);
    var e := EncodeMetadata(ms);
    var d := EncodeMeta(m);
    assert e == p + tail;
    if i == n - 1 {
      assert ms[i := m][..n - 1] == prefix;
      assert EncodeMetadata(ms[i := m]) == p + d;
      assert e[..18 * i] == p && e[18 * i + 18..] == [];
      assert Splice(e, 18 * i, d) == p + d + [];
    } else {
      assert ms[i := m][..n - 1] == prefix[i := m];
      assert EncodeMetadata(ms[i := m]) == EncodeMetadata(prefix[i := m]) + tail;
      EncodeMetadataSplice(prefix, i, m);
      SpliceAppend(p, tail, 18 * i, d);
    }
  }

  /** Splicing data into the front part of a concatenation splices it into the whole. */
  lemma SpliceAppend<T>(p: seq<T>, tail: seq<T>, pos: nat, data: seq<T>)
    requires pos + |data| <= |p|
    ensures Splice(p, pos, data) + tail == Splice(p + tail, pos, data)
  {
    assert (p + tail)[..pos] == p[..pos];
    assert (p + tail)[pos + |data|..] == p[pos + |data|..] + tail;
  }
}
