/** Decoding one record's payload: 4-bit grayscale samples packed two to a
    byte, high nibble first (`convert_4bit_to_8bit`, `is_valid_image_data`
    and the pixel steps of `extract_image_from_record`). */
module Image {
  import opened Bytes
  import opened Wrappers

  /** `((byte >> 4) & 0xF) * 16`: the high nibble scaled to 8 bits. */
  function HighSample(b: byte): (s: byte)
    ensures s == b - b % 16
  {
    (b / 16 % 16) * 16
  }

  /** `(byte & 0xF) * 16`: the low nibble scaled to 8 bits. */
  function LowSample(b: byte): (s: byte)
    ensures HighSample(b) + s / 16 == b
  {
    (b % 16) * 16
  }

  /** The 8-bit samples of `data`, two per byte, high nibble first, in input
      order. */
  function Unpack(data: seq<byte>): (xs: seq<byte>)
    ensures |xs| == 2 * |data|
  {
    if data == [] then []
    else
      var last := data[|data| - 1];
      Unpack(data[..|data| - 1]) + [HighSample(last), LowSample(last)]
  }

  /** Sample `2i` comes from the high nibble of byte `i` and sample `2i+1`
      from its low nibble. */
  lemma {:induction false} UnpackAt(data: seq<byte>, i: nat)
    requires i < |data|
    ensures Unpack(data)[2 * i] == HighSample(data[i])
    ensures Unpack(data)[2 * i + 1] == LowSample(data[i])
  {
    var init := data[..|data| - 1];
    if i < |init| {
      UnpackAt(init, i);
      assert Unpack(data)[2 * i] == Unpack(init)[2 * i];
      assert Unpack(data)[2 * i + 1] == Unpack(init)[2 * i + 1];
    }
  }

  /** Unpacking works byte by byte, so it distributes over concatenation. */
  lemma {:induction false} UnpackAppend(a: seq<byte>, b: seq<byte>)
    ensures Unpack(a + b) == Unpack(a) + Unpack(b)
    decreases |b|
  {
    if b == [] {
      assert a + b == a;
    } else {
      var b' := b[..|b| - 1];
      var last := b[|b| - 1];
      assert (a + b)[..|a + b| - 1] == a + b';
      UnpackAppend(a, b');
      calc {
        Unpack(a + b);
        Unpack(a + b') + [HighSample(last), LowSample(last)];
        Unpack(a) + Unpack(b') + [HighSample(last), LowSample(last)];
        Unpack(a) + Unpack(b);
      }
    }
  }

  /** Every sample is a nibble times 16: a multiple of 16 no larger than 240,
      so nibble 15 becomes 240, never 255. */
  lemma SamplesAreScaledNibbles(data: seq<byte>)
    ensures forall k :: 0 <= k < |Unpack(data)| ==> Unpack(data)[k] % 16 == 0 && Unpack(data)[k] <= 240
  {
    forall k | 0 <= k < |Unpack(data)|
      ensures Unpack(data)[k] % 16 == 0 && Unpack(data)[k] <= 240
    {
      SampleAt(data, k);
      ScaledNibbles(data[k / 2]);
    }
  }

  /** Sample `k` is the high nibble (even `k`) or the low nibble (odd `k`)
      of byte `k / 2`. */
  lemma SampleAt(data: seq<byte>, k: nat)
    requires k < 2 * |data|
    ensures Unpack(data)[k] == if k % 2 == 0 then HighSample(data[k / 2]) else LowSample(data[k / 2])
  {
    UnpackAt(data, k / 2);
    assert k == 2 * (k / 2) || k == 2 * (k / 2) + 1;
  }

  /** Both scaled nibbles of a byte are multiples of 16 no larger than 240,
      so their inverses are 15 modulo 16. */
  lemma ScaledNibbles(b: byte)
    ensures HighSample(b) % 16 == 0 && HighSample(b) <= 240 && (255 - HighSample(b)) % 16 == 15
    ensures LowSample(b) % 16 == 0 && LowSample(b) <= 240 && (255 - LowSample(b)) % 16 == 15
  {
    var hi, lo := b / 16 % 16, b % 16;
    assert 255 - HighSample(b) == (15 - hi) * 16 + 15;
    assert 255 - LowSample(b) == (15 - lo) * 16 + 15;
  }

  /** Packs samples back two to a byte, keeping each sample's top four bits:
      the inverse of `Unpack`. */
  ghost function PackSamples(xs: seq<byte>): (data: seq<byte>)
    requires |xs| % 2 == 0
    ensures 2 * |data| == |xs|
  {
    if xs == [] then []
    else PackSamples(xs[..|xs| - 2]) + [xs[|xs| - 2] / 16 * 16 + xs[|xs| - 1] / 16]
  }

  /** Unpacking loses nothing: packing the samples again gives the bytes
      back. */
  lemma {:induction false} PackUnpack(data: seq<byte>)
    ensures PackSamples(Unpack(data)) == data
  {
    if data != [] {
      var init := data[..|data| - 1];
      var xs := Unpack(data);
      assert xs[..|xs| - 2] == Unpack(init);
      PackUnpack(init);
      var b := data[|data| - 1];
      assert HighSample(b) / 16 * 16 + LowSample(b) / 16 == b;
    }
  }

  /** `convert_4bit_to_8bit`: grows the sample buffer by two samples per
      input byte. */
  method Convert4BitTo8Bit(data: seq<byte>) returns (xs: seq<byte>)
    ensures |xs| == 2 * |data|
    ensures forall i :: 0 <= i < |data| ==> xs[2 * i] == HighSample(data[i]) && xs[2 * i + 1] == LowSample(data[i])
    ensures xs == Unpack(data)
  {
    xs := [];
    var i := 0;
    while i < |data|
      invariant 0 <= i <= |data|
      invariant xs == Unpack(data[..i])
    {
      var b := data[i];
      var high := (b / 16) % 16;
      var low := b % 16;
      high := high * 16;
      low := low * 16;
      assert data[..i + 1][..i] == data[..i];
      xs := xs + [high, low];
      i := i + 1;
    }
    assert data[..i] == data;
    forall i | 0 <= i < |data|
      ensures xs[2 * i] == HighSample(data[i]) && xs[2 * i + 1] == LowSample(data[i])
    {
      UnpackAt(data, i);
    }
  }

  /** `ImageOps.invert` on an 8-bit grayscale image: `255 - v` per sample. */
  function Invert(pixels: seq<byte>): seq<byte>
  {
    seq(|pixels|, k requires 0 <= k < |pixels| => 255 - pixels[k])
  }

  /** Inverting twice restores the samples. */
  lemma InvertInvolutive(pixels: seq<byte>)
    ensures Invert(Invert(pixels)) == pixels
  {
    assert forall k :: 0 <= k < |pixels| ==> Invert(Invert(pixels))[k] == pixels[k];
  }

  /** `is_valid_image_data`: the floor-division length check. */
  function IsValidImageData(data: seq<byte>, width: nat, height: nat, offset: nat): bool
  {
    |data| >= (width * height) / 2 + offset
  }

  /** `data[offset:]`: the packed payload after the record header. */
  function Payload(data: seq<byte>, offset: nat): (payload: seq<byte>)
    ensures offset <= |data| ==> payload == data[offset..]
    ensures |data| <= offset ==> payload == []
  {
    Slice(data, offset, |data|)
  }

  /** The pixel steps of `extract_image_from_record`: unpack the payload,
      give up when fewer than `width*height` samples result, otherwise keep
      the first `width*height` samples and invert them. */
  function DecodeRecord(data: seq<byte>, width: nat, height: nat, offset: nat): (pixels: Option<seq<byte>>)
    ensures pixels.Some? ==> |pixels.value| == width * height
  {
    var imageData := Unpack(Payload(data, offset));
    var n := width * height;
    if |imageData| < n then None else Some(Invert(imageData[..n]))
  }

  /** The payload holds `max(0, |data| - offset)` bytes. */
  lemma PayloadLength(data: seq<byte>, offset: nat)
    ensures |Payload(data, offset)| == if offset <= |data| then |data| - offset else 0
    ensures offset <= |data| ==> Payload(data, offset) == data[offset..]
  {
  }

  /** The sample count check alone: a record decodes exactly when its
      payload holds `ceil(w*h/2)` bytes after the header, or when the image
      is empty. */
  lemma DecodeRecordSucceeds(data: seq<byte>, width: nat, height: nat, offset: nat)
    ensures DecodeRecord(data, width, height, offset).Some? <==>
      width * height == 0 || |data| >= offset + (width * height + 1) / 2
  {
    var n := width * height;
    PayloadLength(data, offset);
    assert |Unpack(Payload(data, offset))| == 2 * |Payload(data, offset)|;
    assert 2 * |Payload(data, offset)| >= n <==> n == 0 || |data| >= offset + (n + 1) / 2;
  }

  /** The two length checks of the extractor together (the floor check of
      `is_valid_image_data`, then the sample count in
      `extract_image_from_record`) accept a record iff it holds
      `ceil(w*h/2)` payload bytes; for a non-empty image the floor check
      never rejects a record the sample count accepts. */
  lemma LengthChecksCombined(data: seq<byte>, width: nat, height: nat, offset: nat)
    ensures (IsValidImageData(data, width, height, offset) && DecodeRecord(data, width, height, offset).Some?)
      <==> |data| - offset >= (width * height + 1) / 2
    ensures width * height > 0 && DecodeRecord(data, width, height, offset).Some? ==>
      IsValidImageData(data, width, height, offset)
  {
    DecodeRecordSucceeds(data, width, height, offset);
  }

  /** With an odd pixel count the floor check alone lets through a record
      one nibble short; the sample count then rejects it. */
  lemma FloorCheckAloneAdmitsShortRecord(data: seq<byte>, width: nat, height: nat, offset: nat)
    requires (width * height) % 2 == 1
    requires |data| == offset + (width * height) / 2
    ensures IsValidImageData(data, width, height, offset)
    ensures DecodeRecord(data, width, height, offset).None?
  {
    DecodeRecordSucceeds(data, width, height, offset);
  }

  /** Sample `k` of the first `n` inverted samples is `255` minus the scaled
      high nibble (even `k`) or low nibble (odd `k`) of byte `k / 2`. */
  lemma InvertedSamplesAt(payload: seq<byte>, n: nat)
    requires n <= 2 * |payload|
    ensures |Invert(Unpack(payload)[..n])| == n
    ensures forall k :: 0 <= k < n ==>
      Invert(Unpack(payload)[..n])[k] ==
        255 - (if k % 2 == 0 then HighSample(payload[k / 2]) else LowSample(payload[k / 2]))
    ensures forall k :: 0 <= k < n ==> Invert(Unpack(payload)[..n])[k] % 16 == 15
  {
    var samples := Unpack(payload)[..n];
    var pixels := Invert(samples);
    forall k | 0 <= k < n
      ensures pixels[k] == 255 - (if k % 2 == 0 then HighSample(payload[k / 2]) else LowSample(payload[k / 2]))
      ensures pixels[k] % 16 == 15
    {
      SampleAt(payload, k);
      ScaledNibbles(payload[k / 2]);
      assert pixels[k] == 255 - samples[k];
    }
  }

  /** A decoded image has exactly `w*h` samples, and sample `k` is the
      inverse of unpacked sample `k`: `255 - ((b >> 4) * 16)` for the high
      nibble and `255 - ((b & 0xF) * 16)` for the low nibble of payload byte
      `b = data[offset + k / 2]`. Every pixel is therefore 15 modulo 16. */
  lemma DecodedPixels(data: seq<byte>, width: nat, height: nat, offset: nat, pixels: seq<byte>)
    requires DecodeRecord(data, width, height, offset) == Some(pixels)
    ensures |pixels| == width * height
    ensures width * height > 0 ==> offset + (width * height + 1) / 2 <= |data|
    ensures forall k :: 0 <= k < |pixels| ==>
      offset + k / 2 < |data| &&
      pixels[k] == 255 - (if k % 2 == 0 then HighSample(data[offset + k / 2]) else LowSample(data[offset + k / 2]))
    ensures forall k :: 0 <= k < |pixels| ==> pixels[k] % 16 == 15
  {
    var n := width * height;
    var payload := Payload(data, offset);
    PayloadLength(data, offset);
    assert n <= 2 * |payload|;
    InvertedSamplesAt(payload, n);
    assert pixels == Invert(Unpack(payload)[..n]);
    forall k | 0 <= k < n
      ensures offset + k / 2 < |data| && payload[k / 2] == data[offset + k / 2]
    {
    }
  }

  /** The first `n` samples depend only on the first `ceil(n/2)` bytes. */
  lemma UnpackPrefix(p: seq<byte>, q: seq<byte>, n: nat)
    requires n <= 2 * |p|
    ensures Unpack(p + q)[..n] == Unpack(p)[..n]
  {
    UnpackAppend(p, q);
  }

  /** Only the first `offset + ceil(w*h/2)` bytes of a record matter:
      trailing bytes, and a trailing extra nibble, are dropped. */
  lemma TrailingBytesIgnored(data: seq<byte>, width: nat, height: nat, offset: nat)
    requires |data| >= offset + (width * height + 1) / 2
    ensures DecodeRecord(data, width, height, offset) ==
      DecodeRecord(data[..offset + (width * height + 1) / 2], width, height, offset)
  {
    var n := width * height;
    var cut := data[..offset + (n + 1) / 2];
    PayloadLength(data, offset);
    PayloadLength(cut, offset);
    var payload, short := Payload(data, offset), Payload(cut, offset);
    assert payload == short + payload[(n + 1) / 2..];
    UnpackPrefix(short, payload[(n + 1) / 2..], n);
  }

  /** `extract_image_from_record` without the image-file output: the pixel
      buffer it hands to the encoder, or `None` when the record is too
      short. */
  method ExtractImageFromRecord(data: seq<byte>, width: nat, height: nat, offset: nat)
    returns (pixels: Option<seq<byte>>)
    ensures pixels == DecodeRecord(data, width, height, offset)
    ensures pixels.Some? <==> width * height == 0 || |data| >= offset + (width * height + 1) / 2
    ensures pixels.Some? ==> |pixels.value| == width * height
  {
    var imageData := Convert4BitTo8Bit(Slice(data, offset, |data|));
    var size := width * height;
    if |imageData| < size {
      pixels := None;
    } else {
      pixels := Some(Invert(imageData[..size]));
    }
    assert pixels == DecodeRecord(data, width, height, offset);
    DecodeRecordSucceeds(data, width, height, offset);
  }

  /** The worked examples: byte 0xA5 unpacks to 160, 80 and inverts to
      95, 175; a 2x2 record `[0x00, 0xFF]` decodes to `[255, 255, 15, 15]`;
      a 3-pixel image needs two bytes and drops the fourth nibble. */
  lemma Examples()
    ensures Unpack([0xA5]) == [160, 80]
    ensures Invert(Unpack([0xA5])) == [95, 175]
    ensures DecodeRecord([0x00, 0xFF], 2, 2, 0) == Some([255, 255, 15, 15])
    ensures DecodeRecord([0x12, 0x34], 3, 1, 0) == Some([239, 223, 207])
    ensures DecodeRecord([0x12], 3, 1, 0) == None
  {
    assert [0xA5][..0] == [];
    assert Unpack([0x00, 0xFF]) == [0, 0, 240, 240] by {
      assert [0x00, 0xFF][..1] == [0x00];
      assert [0x00][..0] == [];
    }
    assert Unpack([0x12, 0x34]) == [16, 32, 48, 64] by {
      assert [0x12, 0x34][..1] == [0x12];
      assert [0x12][..0] == [];
    }
    assert Invert([0, 0, 240, 240]) == [255, 255, 15, 15];
    assert Unpack([0x00, 0xFF])[..4] == [0, 0, 240, 240];
    assert Invert([16, 32, 48]) == [239, 223, 207];
    assert Unpack([0x12, 0x34])[..3] == [16, 32, 48];
    assert Payload([0x00, 0xFF], 0) == [0x00, 0xFF];
    assert Payload([0x12, 0x34], 0) == [0x12, 0x34];
    assert Payload([0x12], 0) == [0x12];
    assert [0x12][..0] == [];
  }
}
