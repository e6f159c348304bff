/** The record index of a Palm-style PDB container (`parse_pdb_records`) and
    the per-record byte ranges the extractor cuts from it. */
module Pdb {
  import opened Bytes

  /** Size of the fixed container header; the record table starts here. */
  const HeaderSize: nat := 78
  /** Width of one record-table entry: 4 offset bytes, then 4 ignored bytes. */
  const RecordEntrySize: nat := 8
  /** Position of the big-endian 16-bit record count (bytes 76 and 77). */
  const RecordCountAt: nat := 76

  /** First byte of table entry `i`. */
  function EntryStart(i: nat): nat { HeaderSize + i * RecordEntrySize }

  /** The record count N, read as `int.from_bytes(buf[76:78], 'big')`: a
      short buffer yields a partial or zero count, never an error. */
  function RecordCount(buf: seq<byte>): (n: nat)
    ensures n < 0x1_0000
  {
    var raw := Slice(buf, RecordCountAt, HeaderSize);
    SliceLength(buf, RecordCountAt, HeaderSize);
    FromBytesBEBound(raw);
    assert Pow256(0) == 1 && Pow256(1) == 256 && Pow256(2) == 0x1_0000;
    FromBytesBE(raw)
  }

  /** Offset of record `i`: the big-endian value of the first four bytes of
      table entry `i`, clamped to the buffer like a Python slice. */
  function EntryOffset(buf: seq<byte>, i: nat): uint32
  {
    var raw := Slice(buf, EntryStart(i), EntryStart(i) + 4);
    FromBytesBEFitsUint32(raw);
    FromBytesBE(raw)
  }

  /** The whole record-offset table, in table order. */
  function RecordOffsets(buf: seq<byte>): (offsets: seq<uint32>)
    ensures |offsets| == RecordCount(buf)
  {
    seq(RecordCount(buf), i requires 0 <= i < RecordCount(buf) => EntryOffset(buf, i))
  }

  /** `parse_pdb_records`: reads the count, then appends one offset per table
      entry. */
  method ParsePdbRecords(pdbData: seq<byte>) returns (recordOffsets: seq<uint32>)
    ensures recordOffsets == RecordOffsets(pdbData)
  {
    recordOffsets := [];
    var numRecords := FromBytesBE(Slice(pdbData, RecordCountAt, HeaderSize));
    assert numRecords == RecordCount(pdbData);
    var offsetTableStart := HeaderSize;
    var i := 0;
    while i < numRecords
      invariant 0 <= i <= numRecords
      invariant recordOffsets == RecordOffsets(pdbData)[..i]
    {
      var entry := offsetTableStart + i * RecordEntrySize;
      var raw := Slice(pdbData, entry, entry + 4);
      FromBytesBEFitsUint32(raw);
      var recordOffset: uint32 := FromBytesBE(raw);
      OffsetsPrefixStep(pdbData, i, recordOffset);
      recordOffsets := recordOffsets + [recordOffset];
      i := i + 1;
    }
    assert RecordOffsets(pdbData)[..i] == RecordOffsets(pdbData);
  }

  /** The first `i + 1` offsets are the first `i` followed by the value of
      entry `i`'s first four bytes. */
  lemma OffsetsPrefixStep(buf: seq<byte>, i: nat, value: nat)
    requires i < RecordCount(buf)
    requires value == FromBytesBE(Slice(buf, HeaderSize + i * RecordEntrySize, HeaderSize + i * RecordEntrySize + 4))
    ensures RecordOffsets(buf)[..i + 1] == RecordOffsets(buf)[..i] + [value]
  {
    var offsets := RecordOffsets(buf);
    assert EntryStart(i) == HeaderSize + i * RecordEntrySize;
    assert offsets[i] == EntryOffset(buf, i) == value;
    PrefixStep(offsets, i);
  }

  /** On a buffer holding the full header, N is `buf[76] * 256 + buf[77]`,
      and so never exceeds 65535. */
  lemma RecordCountWellFormed(buf: seq<byte>)
    requires |buf| >= HeaderSize
    ensures RecordCount(buf) == (buf[76] as int) * 256 + buf[77]
    ensures RecordCount(buf) < 0x1_0000
  {
    FromBytesBE2(buf[76..78]);
  }

  /** On a short buffer the count is whatever of bytes 76..77 is present:
      zero when neither is, the single byte 76 when only it is. */
  lemma RecordCountShortContainer(buf: seq<byte>)
    requires |buf| < HeaderSize
    ensures |buf| <= RecordCountAt ==> RecordCount(buf) == 0 && RecordOffsets(buf) == []
    ensures |buf| == RecordCountAt + 1 ==> RecordCount(buf) == buf[76]
  {
    if |buf| == RecordCountAt + 1 {
      var raw := Slice(buf, RecordCountAt, HeaderSize);
      assert raw == [buf[76]];
      assert raw[..0] == [];
      assert FromBytesBE(raw) == FromBytesBE(raw[..0]) * 256 + raw[0];
    }
  }

  /** When entry `i` lies wholly inside the buffer, its offset is the
      big-endian 32-bit value of bytes `78+8i .. 78+8i+3`. */
  lemma EntryOffsetWellFormed(buf: seq<byte>, i: nat)
    requires EntryStart(i) + 4 <= |buf|
    ensures EntryOffset(buf, i) ==
      (buf[EntryStart(i)] as int) * 0x100_0000 + (buf[EntryStart(i) + 1] as int) * 0x1_0000
      + (buf[EntryStart(i) + 2] as int) * 0x100 + buf[EntryStart(i) + 3]
  {
    FromBytesBE4(buf[EntryStart(i)..EntryStart(i) + 4]);
  }

  /** On a buffer of at least `78 + 8*N` bytes every offset in the table is
      the big-endian value of its entry's first four bytes. */
  lemma WellFormedTable(buf: seq<byte>)
    requires |buf| >= HeaderSize + RecordEntrySize * RecordCount(buf)
    ensures |RecordOffsets(buf)| == RecordCount(buf)
    ensures forall i :: 0 <= i < RecordCount(buf) ==>
      RecordOffsets(buf)[i] ==
      (buf[EntryStart(i)] as int) * 0x100_0000 + (buf[EntryStart(i) + 1] as int) * 0x1_0000
      + (buf[EntryStart(i) + 2] as int) * 0x100 + buf[EntryStart(i) + 3]
  {
    forall i | 0 <= i < RecordCount(buf)
      ensures RecordOffsets(buf)[i] ==
        (buf[EntryStart(i)] as int) * 0x100_0000 + (buf[EntryStart(i) + 1] as int) * 0x1_0000
        + (buf[EntryStart(i) + 2] as int) * 0x100 + buf[EntryStart(i) + 3]
    {
      assert EntryStart(i) + 4 <= |buf|;
      EntryOffsetWellFormed(buf, i);
    }
  }

  /** A truncated table is read as written: an entry starting at or past the
      end gives offset 0, and one cut short gives the value of the bytes that
      remain. */
  lemma EntryOffsetShortContainer(buf: seq<byte>, i: nat)
    requires |buf| < EntryStart(i) + 4
    ensures |buf| <= EntryStart(i) ==> EntryOffset(buf, i) == 0
    ensures EntryStart(i) < |buf| ==> EntryOffset(buf, i) == FromBytesBE(buf[EntryStart(i)..])
  {
  }

  /** The bytes the parser reads from `buf`: the count at 76..77 and the
      first four bytes of each of the N table entries. */
  predicate IsIndexByte(buf: seq<byte>, p: nat)
  {
    p == RecordCountAt || p == RecordCountAt + 1 ||
    (HeaderSize <= p < EntryStart(RecordCount(buf)) && (p - HeaderSize) % RecordEntrySize < 4)
  }

  /** Bytes 4..7 of every table entry (the record attributes and unique id),
      every other header byte and everything after the N-entry table never
      affect the parsed table: two buffers of one length that agree on the
      index bytes parse alike. */
  lemma IgnoredBytesDoNotMatter(buf: seq<byte>, other: seq<byte>)
    requires |buf| == |other|
    requires forall p :: 0 <= p < |buf| && IsIndexByte(buf, p) ==> buf[p] == other[p]
    ensures RecordOffsets(buf) == RecordOffsets(other)
  {
    SliceAgree(buf, other, RecordCountAt, HeaderSize);
    forall i: nat | i < RecordCount(buf)
      ensures EntryOffset(buf, i) == EntryOffset(other, i)
    {
      forall p | EntryStart(i) <= p < EntryStart(i) + 4 && p < |buf|
        ensures buf[p] == other[p]
      {
        var j := p - EntryStart(i);
        assert p - HeaderSize == i * RecordEntrySize + j;
        assert (p - HeaderSize) % RecordEntrySize == j;
        assert p < EntryStart(RecordCount(buf));
        assert IsIndexByte(buf, p);
      }
      SliceAgree(buf, other, EntryStart(i), EntryStart(i) + 4);
    }
  }

  /** One past the last byte of record `idx`: the next record's offset, or
      the end of the buffer for the last record. */
  function RecordEnd(buf: seq<byte>, offsets: seq<uint32>, idx: nat): nat
    requires idx < |offsets|
  {
    if idx + 1 < |offsets| then offsets[idx + 1] else |buf|
  }

  /** The bytes of record `idx`: `buf[offsets[idx]:end]` with Python slice
      clamping. */
  function RecordData(buf: seq<byte>, offsets: seq<uint32>, idx: nat): (r: seq<byte>)
    requires idx < |offsets|
    ensures |r| <= |buf|
  {
    Slice(buf, offsets[idx], RecordEnd(buf, offsets, idx))
  }

  /** Record `idx` is exactly `buf[offsets[idx] .. offsets[idx+1])` when its
      bounds are in order and inside the buffer; the last record runs to the
      end of the buffer. */
  lemma RecordDataInRange(buf: seq<byte>, offsets: seq<uint32>, idx: nat)
    requires idx < |offsets|
    ensures idx + 1 < |offsets| && offsets[idx] <= offsets[idx + 1] <= |buf| ==>
      RecordData(buf, offsets, idx) == buf[offsets[idx]..offsets[idx + 1]]
    ensures idx + 1 == |offsets| && offsets[idx] <= |buf| ==>
      RecordData(buf, offsets, idx) == buf[offsets[idx]..]
  {
  }

  /** A reversed pair of offsets, or a start at or past the end of the
      buffer, gives an empty record rather than an error; an end past the
      buffer is clamped to it. */
  lemma RecordDataClamped(buf: seq<byte>, offsets: seq<uint32>, idx: nat)
    requires idx < |offsets|
    ensures RecordEnd(buf, offsets, idx) <= offsets[idx] ==> RecordData(buf, offsets, idx) == []
    ensures |buf| <= offsets[idx] ==> RecordData(buf, offsets, idx) == []
    ensures offsets[idx] <= |buf| <= RecordEnd(buf, offsets, idx) ==>
      RecordData(buf, offsets, idx) == buf[offsets[idx]..]
  {
  }

  /** Offsets that never decrease and stay inside the buffer. */
  ghost predicate OrderedWithin(buf: seq<byte>, offsets: seq<uint32>)
  {
    (forall i :: 0 <= i < |offsets| - 1 ==> offsets[i] <= offsets[i + 1]) &&
    (|offsets| > 0 ==> offsets[|offsets| - 1] <= |buf|)
  }

  /** Records `from`, `from+1`, ... laid end to end. */
  ghost function JoinedRecords(buf: seq<byte>, offsets: seq<uint32>, from: nat): seq<byte>
    requires from <= |offsets|
    decreases |offsets| - from
  {
    if from == |offsets| then [] else RecordData(buf, offsets, from) + JoinedRecords(buf, offsets, from + 1)
  }

  /** With an ordered table the records tile the buffer: laid end to end,
      records `from..N-1` are exactly `buf[offsets[from]..]`, so no byte is
      lost or read twice. */
  lemma {:induction false} RecordsTileBuffer(buf: seq<byte>, offsets: seq<uint32>, from: nat)
    requires OrderedWithin(buf, offsets)
    requires from < |offsets|
    ensures offsets[from] <= |buf|
    ensures JoinedRecords(buf, offsets, from) == buf[offsets[from]..]
    decreases |offsets| - from
  {
    if from + 1 == |offsets| {
      assert JoinedRecords(buf, offsets, from + 1) == [];
    } else {
      RecordsTileBuffer(buf, offsets, from + 1);
      assert offsets[from] <= offsets[from + 1];
      assert RecordData(buf, offsets, from) == buf[offsets[from]..offsets[from + 1]];
      assert buf[offsets[from]..offsets[from + 1]] + buf[offsets[from + 1]..] == buf[offsets[from]..];
    }
  }
}
