/** The extraction loop of `process_pdb_file` with the file system left out:
    parse the record table, cut each record, and collect the pixel buffers
    of the records that pass both length checks, with their record index. */
module Wqv {
  import opened Bytes
  import opened Wrappers
  import opened Pdb
  import opened Image

  /** Every record starts with a 36-byte header before its pixels. */
  const PayloadOffset: nat := 36

  /** One image the extractor hands to the image encoder as
      `image_{index}.png`. For an empty `w*h` the encoder fails and no file
      is written; this model does not represent that failure. */
  datatype SavedImage = SavedImage(index: nat, pixels: seq<byte>)

  /** What the loop makes of one record: nothing when `is_valid_image_data`
      rejects it, otherwise whatever `extract_image_from_record` produces. */
  function RecordImage(record: seq<byte>, width: nat, height: nat): Option<seq<byte>>
  {
    if IsValidImageData(record, width, height, PayloadOffset) then DecodeRecord(record, width, height, PayloadOffset)
    else None
  }

  /** A record yields an image iff it holds the 36-byte header and
      `ceil(w*h/2)` bytes of pixels. */
  lemma RecordImageSucceeds(record: seq<byte>, width: nat, height: nat)
    ensures RecordImage(record, width, height).Some? <==> |record| >= PayloadOffset + (width * height + 1) / 2
    ensures RecordImage(record, width, height).Some? ==> |RecordImage(record, width, height).value| == width * height
  {
    LengthChecksCombined(record, width, height, PayloadOffset);
    if RecordImage(record, width, height).Some? {
      DecodedPixels(record, width, height, PayloadOffset, RecordImage(record, width, height).value);
    }
  }

  /** What the loop makes of each record of the table, in table order. */
  ghost function RecordImages(buf: seq<byte>, offsets: seq<uint32>, width: nat, height: nat): (r: seq<Option<seq<byte>>>)
    ensures |r| == |offsets|
  {
    seq(|offsets|, idx requires 0 <= idx < |offsets| => RecordImage(RecordData(buf, offsets, idx), width, height))
  }

  /** The images saved from the first `n` per-record results, in order, each
      tagged with its record index. */
  function Collect(results: seq<Option<seq<byte>>>, n: nat): (images: seq<SavedImage>)
    requires n <= |results|
    ensures |images| <= n
  {
    if n == 0 then []
    else
      Collect(results, n - 1) +
      match results[n - 1]
      case Some(pixels) => [SavedImage(n - 1, pixels)]
      case None => []
  }

  /** Collecting one more record appends the image it yields, if any. */
  lemma CollectNextRecord(buf: seq<byte>, offsets: seq<uint32>, width: nat, height: nat, idx: nat,
                          record: seq<byte>, pixels: Option<seq<byte>>, images: seq<SavedImage>)
    requires idx < |offsets|
    requires record == RecordData(buf, offsets, idx)
    requires pixels == RecordImage(record, width, height)
    requires images == Collect(RecordImages(buf, offsets, width, height), idx)
    ensures Collect(RecordImages(buf, offsets, width, height), idx + 1) ==
      images + if pixels.Some? then [SavedImage(idx, pixels.value)] else []
  {
    assert RecordImages(buf, offsets, width, height)[idx] == pixels;
  }

  /** Whether some image was saved from record `idx`. */
  ghost predicate Saved(images: seq<SavedImage>, idx: nat)
  {
    exists j :: 0 <= j < |images| && images[j].index == idx
  }

  /** An index is saved in two runs of images together iff it is saved in
      one of them. */
  lemma SavedAppend(a: seq<SavedImage>, b: seq<SavedImage>, idx: nat)
    ensures Saved(a + b, idx) <==> Saved(a, idx) || Saved(b, idx)
  {
    var images := a + b;
    if Saved(images, idx) {
      var j :| 0 <= j < |images| && images[j].index == idx;
      if j < |a| {
        assert images[j] == a[j];
      } else {
        assert images[j] == b[j - |a|];
      }
    }
    if Saved(a, idx) {
      var j :| 0 <= j < |a| && a[j].index == idx;
      assert images[j] == a[j];
    }
    if Saved(b, idx) {
      var j :| 0 <= j < |b| && b[j].index == idx;
      assert images[|a| + j] == b[j];
    }
  }

  /** The collected images carry indices below `n` in increasing order (so
      at most `n` of them), and each holds the pixels of its own record's
      result. */
  lemma {:induction false} CollectOrdered(results: seq<Option<seq<byte>>>, n: nat)
    requires n <= |results|
    ensures |Collect(results, n)| <= n
    ensures forall j :: 0 <= j < |Collect(results, n)| ==>
      Collect(results, n)[j].index < n && results[Collect(results, n)[j].index] == Some(Collect(results, n)[j].pixels)
    ensures forall j, j' :: 0 <= j < j' < |Collect(results, n)| ==>
      Collect(results, n)[j].index < Collect(results, n)[j'].index
  {
    if n > 0 {
      var before := Collect(results, n - 1);
      CollectOrdered(results, n - 1);
      assert Collect(results, n)[..|before|] == before;
    }
  }

  /** Record `idx < n` has an image among those collected iff its result is
      an image: no record with an image is skipped, and no other record gets
      one. (That none is saved twice follows from the
      strictly increasing indices of `CollectOrdered`.) */
  lemma {:induction false} CollectComplete(results: seq<Option<seq<byte>>>, n: nat)
    requires n <= |results|
    ensures forall idx :: 0 <= idx < n ==> (Saved(Collect(results, n), idx) <==> results[idx].Some?)
  {
    if n > 0 {
      var before := Collect(results, n - 1);
      var step := if results[n - 1].Some? then [SavedImage(n - 1, results[n - 1].value)] else [];
      var images := before + step;
      assert images == Collect(results, n);
      CollectComplete(results, n - 1);
      CollectOrdered(results, n - 1);
      forall idx | 0 <= idx < n
        ensures Saved(images, idx) <==> results[idx].Some?
      {
        SavedAppend(before, step, idx);
        if idx == n - 1 && step != [] {
          assert step[0].index == idx;
        }
      }
    }
  }

  /** The images extracted from a container, in terms of its record table:
      in record order, one per record with at least `36 + ceil(w*h/2)` bytes
      and none for any other record, each of `w*h` samples decoded from its
      own record. */
  lemma ExtractedImages(buf: seq<byte>, width: nat, height: nat)
    ensures var images := Collect(RecordImages(buf, RecordOffsets(buf), width, height), RecordCount(buf));
      |images| <= RecordCount(buf) &&
      (forall j :: 0 <= j < |images| ==>
        images[j].index < RecordCount(buf) &&
        |images[j].pixels| == width * height &&
        Some(images[j].pixels) == DecodeRecord(RecordData(buf, RecordOffsets(buf), images[j].index), width, height, PayloadOffset)) &&
      (forall j, j' :: 0 <= j < j' < |images| ==> images[j].index < images[j'].index) &&
      (forall idx :: 0 <= idx < RecordCount(buf) ==>
        (Saved(images, idx) <==>
         |RecordData(buf, RecordOffsets(buf), idx)| >= PayloadOffset + (width * height + 1) / 2))
  {
    var offsets := RecordOffsets(buf);
    var n := RecordCount(buf);
    var results := RecordImages(buf, offsets, width, height);
    var images := Collect(results, n);
    CollectOrdered(results, n);
    CollectComplete(results, n);
    forall j | 0 <= j < |images|
      ensures |images[j].pixels| == width * height
      ensures Some(images[j].pixels) == DecodeRecord(RecordData(buf, offsets, images[j].index), width, height, PayloadOffset)
    {
      var record := RecordData(buf, offsets, images[j].index);
      assert RecordImage(record, width, height) == Some(images[j].pixels);
      RecordImageSucceeds(record, width, height);
    }
    forall idx | 0 <= idx < n
      ensures results[idx].Some? <==> |RecordData(buf, offsets, idx)| >= PayloadOffset + (width * height + 1) / 2
    {
      RecordImageSucceeds(RecordData(buf, offsets, idx), width, height);
    }
  }

  /** `process_pdb_file` on the container's bytes: the loop over the record
      table that cuts each record, skips the ones `is_valid_image_data`
      rejects and keeps the pixel buffer `extract_image_from_record` would
      save. */
  method ProcessPdbData(pdbData: seq<byte>, width: nat, height: nat) returns (images: seq<SavedImage>)
    ensures images == Collect(RecordImages(pdbData, RecordOffsets(pdbData), width, height), RecordCount(pdbData))
    ensures |images| <= RecordCount(pdbData)
    ensures forall j :: 0 <= j < |images| ==>
      images[j].index < RecordCount(pdbData) &&
      |images[j].pixels| == width * height &&
      Some(images[j].pixels) == DecodeRecord(RecordData(pdbData, RecordOffsets(pdbData), images[j].index), width, height, PayloadOffset)
    ensures forall j, j' :: 0 <= j < j' < |images| ==> images[j].index < images[j'].index
    ensures forall idx :: 0 <= idx < RecordCount(pdbData) ==>
      (Saved(images, idx) <==>
       |RecordData(pdbData, RecordOffsets(pdbData), idx)| >= PayloadOffset + (width * height + 1) / 2)
  {
    var recordOffsets := ParsePdbRecords(pdbData);
    images := [];
    var idx := 0;
    while idx < |recordOffsets|
      invariant idx <= |recordOffsets|
      invariant images == Collect(RecordImages(pdbData, recordOffsets, width, height), idx)
    {
      var startOffset := recordOffsets[idx];
      var endOffset := if idx + 1 < |recordOffsets| then recordOffsets[idx + 1] else |pdbData|;
      var recordData := Slice(pdbData, startOffset, endOffset);
      var pixels: Option<seq<byte>> := None;
      if IsValidImageData(recordData, width, height, PayloadOffset) {
        pixels := ExtractImageFromRecord(recordData, width, height, PayloadOffset);
      }
      assert endOffset == RecordEnd(pdbData, recordOffsets, idx);
      CollectNextRecord(pdbData, recordOffsets, width, height, idx, recordData, pixels, images);
      if pixels.Some? {
        images := images + [SavedImage(idx, pixels.value)];
      }
      idx := idx + 1;
    }
    ExtractedImages(pdbData, width, height);
  }
}
