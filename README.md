# WQV monochrome image extractor — Dafny model

`wqv_monochrome/wqv.py` pulls the pictures out of a Casio WQV wrist-camera
database. The database is a Palm-style PDB container: a 78-byte header whose
bytes 76..77 hold the big-endian record count N, then an N-entry table of
8-byte entries. The first four bytes of each entry hold the record's
big-endian offset. Record `i` runs from its own offset to the next record's
offset, and the last record runs to the end of the file. A record holds a
36-byte header and then 4-bit grayscale pixels packed two to a byte, high
nibble first. The extractor does four things:

- it scales each nibble to 8 bits (`n * 16`);
- it keeps the first `width*height` samples;
- it inverts them (`255 - v`);
- it saves the result as `image_{idx}.png`.

It skips every record that fails its two length checks.

This model covers that pipeline on the container's bytes, in five modules:

- `Bytes`: the octet type, Python's clamping slice `s[lo:hi]`, and
  `int.from_bytes(..., 'big')`.
- `Wrappers`: `Option`.
- `Pdb`: `parse_pdb_records` and the record-slicing rule.
- `Image`: `convert_4bit_to_8bit`, `is_valid_image_data`, and the unpack,
  truncate and invert steps of `extract_image_from_record`.
- `Wqv`: the loop of `process_pdb_file`, which returns the images it would
  save instead of writing files.

The three loops of the source (the byte loop in `convert_4bit_to_8bit`, the
table loop in `parse_pdb_records` and the record loop in `process_pdb_file`)
are methods with `while` loops. Each is proved against a specification
function (`Unpack`, `RecordOffsets`, `Collect` of `RecordImages`). The lemmas
then state what those functions mean.

The code never reports a malformed container. A short buffer gives a partial
or zero record count. A truncated table entry gives the value of the bytes
that are present. Offsets past the end, or in the wrong order, give empty or
clamped records. The model follows the code in all of these cases; no error
result exists for them.

The extractor applies two length checks. `is_valid_image_data` uses floor
division, `len >= w*h // 2 + 36`. `extract_image_from_record` then requires
at least `w*h` samples. `Image.LengthChecksCombined` proves that together
they accept a record exactly when it holds `36 + ceil(w*h/2)` bytes.

## Model

| member | source | states |
|---|---|---|
| Bytes.Slice | wqv_monochrome/wqv.py:41 | A Python slice never fails. It is `s[lo..hi]` when `lo <= hi <= len`, empty when the bounds are reversed or start past the end, and runs to the end when `hi` exceeds the length. |
| Bytes.SliceLength | wqv_monochrome/wqv.py:68 | A slice holds `min(hi, len) - lo` elements when `lo < hi` and `lo < len`, and none otherwise. |
| Bytes.SliceAgree | wqv_monochrome/wqv.py:41 | Two sequences of equal length that agree on the sliced positions give equal slices. |
| Bytes.FromBytesBE | wqv_monochrome/wqv.py:36 | `int.from_bytes(s, 'big')`: each byte shifts the value so far by 8 bits, and the empty slice gives 0. It has no contract of its own; `FromBytesBEBound`, `FromBytesBE2` and `FromBytesBE4` state its values. |
| Bytes.FromBytesBEBound | wqv_monochrome/wqv.py:40-43 | The big-endian value of `k` bytes is below `256^k`. |
| Bytes.FromBytesBE2 | wqv_monochrome/wqv.py:36 | Two bytes read big-endian give `s[0]*256 + s[1]`. |
| Bytes.FromBytesBE4 | wqv_monochrome/wqv.py:40-43 | Four bytes read big-endian give `s[0]*2^24 + s[1]*2^16 + s[2]*2^8 + s[3]`. |
| Bytes.FromBytesBEFitsUint32 | wqv_monochrome/wqv.py:40-43 | At most four bytes always decode to a value below `2^32`. |
| Pdb.RecordCount | wqv_monochrome/wqv.py:36 | N, the big-endian value of the clamped slice `buf[76:78]`, is always below 65536, whatever the buffer's length. |
| Pdb.EntryOffset | wqv_monochrome/wqv.py:40-43 | Offset `i` is `int.from_bytes` of the clamped slice at `78 + 8i` of width 4, and its type keeps it below `2^32`. `EntryOffsetWellFormed` and `EntryOffsetShortContainer` state its value. |
| Pdb.RecordOffsets | wqv_monochrome/wqv.py:33-46 | The table has exactly N entries, one per index `0..N-1`. |
| Pdb.OffsetsPrefixStep | wqv_monochrome/wqv.py:39-44 | The table's first `i+1` entries are its first `i` followed by the value read at entry `i`: one iteration of the parsing loop. |
| Pdb.ParsePdbRecords | wqv_monochrome/wqv.py:31-46 | The loop returns exactly the table `RecordOffsets`: one offset per entry `0..N-1`, in table order. |
| Pdb.RecordCountWellFormed | wqv_monochrome/wqv.py:36 | With the full 78-byte header present, N is `buf[76]*256 + buf[77]` and below 65536. |
| Pdb.RecordCountShortContainer | wqv_monochrome/wqv.py:36 | A buffer of at most 76 bytes has N = 0 and an empty table. A 77-byte buffer has N = `buf[76]`. |
| Pdb.EntryOffsetWellFormed | wqv_monochrome/wqv.py:39-43 | When entry `i` lies entirely inside the buffer, its offset is the big-endian value of bytes `78+8i .. 78+8i+3`. |
| Pdb.WellFormedTable | wqv_monochrome/wqv.py:33-46 | On a buffer of at least `78 + 8N` bytes the table has N entries, each the big-endian value of its entry's first four bytes. |
| Pdb.EntryOffsetShortContainer | wqv_monochrome/wqv.py:40-43 | An entry at or past the end of the buffer reads as 0. An entry cut short reads as the bytes that remain. |
| Pdb.IgnoredBytesDoNotMatter | wqv_monochrome/wqv.py:34-44 | Only bytes 76..77 and the first four bytes of each of the N table entries affect the table; bytes 4..7 of each entry, the rest of the header and everything after the table do not. Buffers of equal length that agree on those bytes parse alike. |
| Pdb.RecordEnd | wqv_monochrome/wqv.py:67 | The end bound of record `idx`: the next offset, or the buffer length for the last record. It is a definition; `RecordDataInRange` and `RecordDataClamped` state the records it delimits. |
| Pdb.RecordData | wqv_monochrome/wqv.py:68 | A record is never longer than the buffer it is cut from. |
| Pdb.RecordDataInRange | wqv_monochrome/wqv.py:67-68 | With bounds in order and inside the buffer, record `idx` is `buf[off[idx]..off[idx+1]]`. The last record is `buf[off[idx]..]`. |
| Pdb.RecordDataClamped | wqv_monochrome/wqv.py:67-68 | Reversed bounds, or a start at or past the end, give an empty record. An end past the buffer is clamped to the buffer's end. |
| Pdb.RecordsTileBuffer | wqv_monochrome/wqv.py:66-68 | With a non-decreasing table inside the buffer, records `from..N-1` laid end to end are exactly `buf[off[from]..]`: no byte is lost or duplicated. |
| Image.HighSample | wqv_monochrome/wqv.py:8-10 | The scaled high nibble is the byte with its low four bits cleared. |
| Image.LowSample | wqv_monochrome/wqv.py:9-11 | The scaled high nibble plus the low sample divided by 16 gives the byte back: the two samples split the byte. |
| Image.Unpack | wqv_monochrome/wqv.py:6-14 | Unpacking gives exactly two samples per input byte. |
| Image.UnpackAt | wqv_monochrome/wqv.py:7-13 | Sample `2i` is the scaled high nibble of byte `i`, and sample `2i+1` is its scaled low nibble. |
| Image.UnpackAppend | wqv_monochrome/wqv.py:7-13 | Unpacking distributes over concatenation. |
| Image.SamplesAreScaledNibbles | wqv_monochrome/wqv.py:8-11 | Every sample is a multiple of 16 and at most 240. |
| Image.SampleAt | wqv_monochrome/wqv.py:7-13 | Sample `k` is the high nibble (even `k`) or the low nibble (odd `k`) of byte `k/2`, scaled. |
| Image.ScaledNibbles | wqv_monochrome/wqv.py:8-11 | Both scaled nibbles of a byte are multiples of 16, at most 240, and their inverses are 15 modulo 16. |
| Image.PackUnpack | wqv_monochrome/wqv.py:4-14 | Packing the samples back two to a byte restores the input: unpacking loses nothing. |
| Image.Convert4BitTo8Bit | wqv_monochrome/wqv.py:4-14 | The output has two samples per input byte, high nibble first, each nibble times 16, in input order. It equals `Unpack(data)`. |
| Image.Invert | wqv_monochrome/wqv.py:24 | A definition: `ImageOps.invert`, `255 - v` per sample. `InvertInvolutive` and `InvertedSamplesAt` state its properties. |
| Image.InvertInvolutive | wqv_monochrome/wqv.py:24 | Inverting twice gives the samples back. |
| Image.IsValidImageData | wqv_monochrome/wqv.py:48-51 | A definition: `len(data) >= w*h // 2 + offset`. `LengthChecksCombined` and `FloorCheckAloneAdmitsShortRecord` state what it accepts. |
| Image.Payload | wqv_monochrome/wqv.py:19 | `data[offset:]` is the suffix after the offset, and empty when the offset is at or past the end. |
| Image.DecodeRecord | wqv_monochrome/wqv.py:19-24 | A decoded image always has exactly `w*h` samples. `DecodeRecordSucceeds` says when one exists, and `DecodedPixels` gives its contents. |
| Image.PayloadLength | wqv_monochrome/wqv.py:19 | `data[offset:]` holds `max(0, len - offset)` bytes. |
| Image.DecodeRecordSucceeds | wqv_monochrome/wqv.py:19-21 | The sample-count check accepts a record exactly when the image is empty or the record holds `offset + ceil(w*h/2)` bytes. |
| Image.LengthChecksCombined | wqv_monochrome/wqv.py:50-51 | The floor check and the sample-count check together accept a record exactly when `len - offset >= ceil(w*h/2)`. For a non-empty image the sample-count check implies the floor check. |
| Image.FloorCheckAloneAdmitsShortRecord | wqv_monochrome/wqv.py:48-51 | With `w*h` odd, a record of `offset + w*h//2` bytes passes the floor check, but the sample-count check rejects it. |
| Image.InvertedSamplesAt | wqv_monochrome/wqv.py:19-24 | The first `n` inverted samples are `255` minus the scaled nibble of byte `k/2`, and each is 15 modulo 16. |
| Image.DecodedPixels | wqv_monochrome/wqv.py:19-24 | A decoded image has `w*h` pixels. Pixel `k` is `255 - nibble*16` taken from `data[offset + k/2]`, and every pixel is 15 modulo 16. |
| Image.UnpackPrefix | wqv_monochrome/wqv.py:19-23 | The first `n` samples depend only on the first `ceil(n/2)` bytes. |
| Image.TrailingBytesIgnored | wqv_monochrome/wqv.py:20-23 | Bytes beyond `offset + ceil(w*h/2)` never change the decoded image. |
| Image.ExtractImageFromRecord | wqv_monochrome/wqv.py:16-24 | Returns `DecodeRecord`. The result is present exactly when the image is empty or the record holds `offset + ceil(w*h/2)` bytes, and then it has `w*h` pixels. |
| Image.Examples | wqv_monochrome/wqv.py:4-24 | Worked values: 0xA5 unpacks to 160, 80 and inverts to 95, 175. A 2x2 record `[0x00,0xFF]` gives `[255,255,15,15]`. A 3-pixel image takes two bytes and drops the fourth nibble. One byte is too short for it. |
| Wqv.RecordImage | wqv_monochrome/wqv.py:70-74 | One record's outcome: nothing when `is_valid_image_data` rejects it, otherwise the extractor's result. It is a definition; `RecordImageSucceeds` states when it yields an image. |
| Wqv.RecordImageSucceeds | wqv_monochrome/wqv.py:70-74 | A record yields an image exactly when it holds `36 + ceil(w*h/2)` bytes, and then the image has `w*h` pixels. |
| Wqv.Collect | wqv_monochrome/wqv.py:66-74 | At most one image per record: the first `n` results give at most `n` images. |
| Wqv.CollectNextRecord | wqv_monochrome/wqv.py:66-74 | Handling one more record appends that record's image, tagged with its index, or nothing. |
| Wqv.SavedAppend | wqv_monochrome/wqv.py:66-74 | An index is saved in a concatenation exactly when it is saved in one of the parts. |
| Wqv.CollectOrdered | wqv_monochrome/wqv.py:66-74 | The collected images have indices below `n` in strictly increasing order, and each carries its own record's result. |
| Wqv.CollectComplete | wqv_monochrome/wqv.py:70-74 | Record `idx` has an image among those collected exactly when its result is present: no record with an image is skipped, and no other record gets one. That no record is saved twice follows from `CollectOrdered`. |
| Wqv.ExtractedImages | wqv_monochrome/wqv.py:63-74 | The extracted images come in record order, at most N of them. Each has `w*h` pixels decoded from its own record. Record `idx` is saved exactly when it holds `36 + ceil(w*h/2)` bytes. |
| Wqv.ProcessPdbData | wqv_monochrome/wqv.py:53-74 | The loop returns the `Collect` of the per-record results over the parsed table. It therefore carries every property of `ExtractedImages`: order, count bound, pixel count, decoded contents, and saved exactly when long enough. |

## Left out

- Reading the file, creating the output directory and the `FileNotFoundError` message (wqv.py:55-60, :76-77) are I/O. `ProcessPdbData` takes the file's bytes as input.
- Building the PIL image and writing the PNG (wqv.py:23, :26) are not modelled. `ExtractImageFromRecord` returns the `w*h` samples of the inverted image that would be saved. The image file name `image_{idx}.png` (wqv.py:73) is kept only as the index in `SavedImage`.
- The progress message (wqv.py:27) is output only.
- When `width * height == 0`, every record of at least 36 bytes gives an empty pixel buffer, and the model lists it as a `SavedImage`. In the source that buffer goes to the image library (wqv.py:23-26), which cannot encode an empty image; the `except` at wqv.py:28-29 swallows the error and no file appears. The image library is not part of this model, so that failure is not represented.
- The `try`/`except Exception: pass` blocks (wqv.py:18, :28-29, :58, :78-79) are not modelled. On byte input none of the modelled steps raises. The only exceptions left are those of PIL and file I/O, which are out of scope.
- The path constants and the top-level call (wqv.py:82-86) are configuration.
- Width and height are `nat`. The source's defaults, 120x120 with a 36-byte header, are parameters here, except the header size, which the loop fixes at 36 (`Wqv.PayloadOffset`). Negative dimensions are not modelled.
- Python integers are unbounded, and so are Dafny's. The sample arithmetic stays within a byte (`*16` of a nibble, `255 - v`), and offsets fit in 32 bits. The model states both facts through its `byte` and `uint32` types.
- `Pdb.ParsePdbRecords`: its `ensures` ties the result to `RecordOffsets`. The count and the per-entry formulas are stated by the `Pdb` lemmas about `RecordOffsets`, not repeated in the method's contract.
