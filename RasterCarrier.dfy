/**
 * The pixel loops of `ImageSteganography`: the payload bytes go into the
 * lowest bit of the red sample of consecutive pixels of a flat RGBA buffer
 * (four bytes per pixel, red first).  Pixels 0 to 31 carry the payload
 * length as a 32-digit binary numeral, most significant digit first; from
 * pixel 32 on, every byte takes eight pixels, most significant bit first.
 */
module RasterCarrier {
  import opened Common
  import opened BinaryText
  import opened Sequences

  /** A sample of the canvas buffer (`Uint8ClampedArray`). */
  type Byte = n: int | 0 <= n < 256

  /** The largest length header `extractEmojiFromImage` accepts. */
  const MaxLength: nat := 50000

  /** `(x & 0xFE) | bit`: the sample with its lowest bit replaced. */
  function SetLow(x: Byte, bit: nat): (r: Byte)
    requires bit < 2
    ensures r % 2 == bit && r / 2 == x / 2
  {
    x - x % 2 + bit
  }

  /** The capacity `embedEmojiIntoImage` checks against: `Math.floor(data.length / 4 - 32)`. */
  function Capacity(len: nat): int {
    (len - 128) / 4
  }

  /** `byte.toString(2).padStart(8, '0')`. */
  function Octet(b: Byte): string {
    Fixed(b, 8)
  }

  /**
   * The digits written, one per pixel: the length as `toString(2).padStart(32, '0')`
   * (its first 32 characters), then the eight digits of every byte.
   */
  function Stream(bytes: seq<Byte>): string {
    Fixed(|bytes|, 32)[..32] + Flatten(Octet, bytes)
  }

  /** The buffer after the digits of pixels `0 .. n - 1` have been written, each only where it is inside the buffer. */
  function Written(img: seq<Byte>, stream: string, n: nat): (r: seq<Byte>)
    requires n <= |stream|
    ensures |r| == |img|
  {
    seq(|img|, j requires 0 <= j < |img| =>
      if j % 4 == 0 && j / 4 < n then SetLow(img[j], DigitValue(stream[j / 4])) else img[j])
  }

  /** The buffer after a complete embedding. */
  function Embedded(img: seq<Byte>, bytes: seq<Byte>): seq<Byte> {
    StreamLength(bytes);
    Written(img, Stream(bytes), |Stream(bytes)|)
  }

  lemma StreamLength(bytes: seq<Byte>)
    ensures |Stream(bytes)| == 32 + 8 * |bytes|
  {
    forall i | 0 <= i < |bytes| ensures |Octet(bytes[i])| == 8 {
      assert Pow2(8) == 256;
      FixedValue(bytes[i], 8);
    }
    FlattenLength(Octet, bytes, 8);
  }

  /** Digit `bitPos` of byte `byteIndex` stands at position `32 + 8 * byteIndex + bitPos` of the stream. */
  lemma StreamAt(bytes: seq<Byte>, byteIndex: nat, bitPos: nat)
    requires byteIndex < |bytes| && bitPos < 8
    ensures |Stream(bytes)| == 32 + 8 * |bytes|
    ensures |Octet(bytes[byteIndex])| == 8
    ensures Stream(bytes)[32 + 8 * byteIndex + bitPos] == Octet(bytes[byteIndex])[bitPos]
  {
    StreamLength(bytes);
    forall i | 0 <= i < |bytes| ensures |Octet(bytes[i])| == 8 {
      assert Pow2(8) == 256;
      FixedValue(bytes[i], 8);
    }
    FlattenAt(Octet, bytes, byteIndex, bitPos);
  }

  /** `data[pixelIndex] & 1`; past the end of the buffer the read gives `undefined`, and `undefined & 1` is 0. */
  function LowBit(img: seq<Byte>, j: nat): nat {
    if j < |img| then img[j] % 2 else 0
  }

  /** `lengthBinary` as the extraction reads it from pixels 0 to 31. */
  function HeaderOf(img: seq<Byte>): (h: string)
    ensures |h| == 32 && IsBits(h)
  {
    seq(32, i requires 0 <= i < 32 => Digit(LowBit(img, 4 * i)))
  }

  /** The digits of the `k`-th payload byte, from pixels `32 + 8k` to `32 + 8k + 7`. */
  function ByteDigits(img: seq<Byte>, k: nat): (d: string)
    ensures |d| == 8 && IsBits(d)
  {
    var d := seq(8, b requires 0 <= b < 8 => Digit(LowBit(img, 4 * (32 + 8 * k + b))));
    assert IsBits(d) by {
      forall i | 0 <= i < 8 ensures IsBit(d[i]) {
        assert d[i] == Digit(LowBit(img, 4 * (32 + 8 * k + i)));
      }
    }
    d
  }

  function ByteAt(img: seq<Byte>, k: nat): Byte {
    assert Pow2(8) == 256;
    FromBits(ByteDigits(img, k))
  }

  /**
   * What `extractEmojiFromImage` recovers before `TextDecoder`: the header
   * rejected when 0 or above the ceiling, an error when the payload's last
   * pixel lies past the buffer, the bytes otherwise.
   */
  function Extracted(img: seq<Byte>): Result<seq<Byte>> {
    var n := FromBits(HeaderOf(img));
    if n <= 0 || n > MaxLength then Err(InvalidLength(n))
    else if 4 * (32 + 8 * n - 1) >= |img| then Err(IncompleteExtraction)
    else Ok(BytesUpTo(img, n))
  }

  /** The first `m` payload bytes. */
  function BytesUpTo(img: seq<Byte>, m: nat): (r: seq<Byte>)
    ensures |r| == m && forall k :: 0 <= k < m ==> r[k] == ByteAt(img, k)
  {
    seq(m, k requires 0 <= k < m => ByteAt(img, k))
  }

  // ---------------------------------------------------------------- the loops

  /**
   * The pixel loops of `embedEmojiIntoImage` with its capacity check as
   * written: the check counts one pixel per byte, so a payload that passes
   * it may not fit, and bits that fall past the buffer are dropped.
   */
  method Embed(data: array<Byte>, bytes: seq<Byte>) returns (r: Result<()>)
    modifies data
    ensures |bytes| > Capacity(data.Length) ==> r == Err(ImageTooSmall(|bytes|, Capacity(data.Length))) && data[..] == old(data[..])
    ensures |bytes| <= Capacity(data.Length) ==> r == Ok(()) && data[..] == Embedded(old(data[..]), bytes)
  {
    var maxCapacity := (data.Length - 128) / 4;
    if |bytes| > maxCapacity {
      return Err(ImageTooSmall(|bytes|, maxCapacity));
    }
    WriteBits(data, bytes);
    r := Ok(());
  }

  /**
   * The same loops behind the check the layout needs: 32 header pixels
   * plus eight pixels per byte.
   */
  method EmbedChecked(data: array<Byte>, bytes: seq<Byte>) returns (r: Result<()>)
    modifies data
    ensures 32 + 8 * |bytes| > data.Length / 4 ==> r == Err(ImageTooSmall(|bytes|, (data.Length / 4 - 32) / 8)) && data[..] == old(data[..])
    ensures 32 + 8 * |bytes| <= data.Length / 4 ==> r == Ok(()) && data[..] == Embedded(old(data[..]), bytes)
    ensures r.Ok? && 1 <= |bytes| <= MaxLength ==> Extracted(data[..]) == Ok(bytes)
  {
    var pixels := data.Length / 4;
    if 32 + 8 * |bytes| > pixels {
      return Err(ImageTooSmall(|bytes|, (pixels - 32) / 8));
    }
    WriteBits(data, bytes);
    r := Ok(());
    if 1 <= |bytes| <= MaxLength {
      RasterRoundTrip(old(data[..]), bytes);
    }
  }

  /** The header loop and the data loop: `data[pixelIndex] = (data[pixelIndex] & 0xFE) | bit`. */
  method WriteBits(data: array<Byte>, bytes: seq<Byte>)
    requires data.Length >= 128
    modifies data
    ensures data[..] == Embedded(old(data[..]), bytes)
  {
    ghost var img := data[..];
    StreamLength(bytes);
    WriteHeader(data, bytes, img);
    for byteIndex := 0 to |bytes|
      invariant data[..] == Written(img, Stream(bytes), 32 + 8 * byteIndex)
    {
      WriteByte(data, bytes, byteIndex, img);
    }
  }

  /** The loop that writes the 32 digits of the length into pixels 0 to 31. */
  method WriteHeader(data: array<Byte>, bytes: seq<Byte>, ghost img: seq<Byte>)
    requires data.Length >= 128 && data[..] == img
    modifies data
    ensures |Stream(bytes)| == 32 + 8 * |bytes|
    ensures data[..] == Written(img, Stream(bytes), 32)
  {
    ghost var stream := Stream(bytes);
    StreamLength(bytes);
    var lengthBinary := PadStart(Bin(|bytes|), 32, '0');
    for i := 0 to 32
      invariant data[..] == Written(img, stream, i)
    {
      var pixelIndex := i * 4;
      var bit := DigitValue(lengthBinary[i]);
      assert stream[i] == lengthBinary[i];
      WrittenStep(img, stream, i, data[..]);
      data[pixelIndex] := SetLow(data[pixelIndex], bit);
    }
  }

  /** The inner loop that writes the eight digits of byte `byteIndex`, skipping pixels past the end of the buffer. */
  method WriteByte(data: array<Byte>, bytes: seq<Byte>, byteIndex: nat, ghost img: seq<Byte>)
    requires byteIndex < |bytes| && |Stream(bytes)| == 32 + 8 * |bytes|
    requires data[..] == Written(img, Stream(bytes), 32 + 8 * byteIndex)
    modifies data
    ensures data[..] == Written(img, Stream(bytes), 32 + 8 * byteIndex + 8)
  {
    ghost var stream := Stream(bytes);
    var byteBinary := PadStart(Bin(bytes[byteIndex]), 8, '0');
    for bitPos := 0 to 8
      invariant data[..] == Written(img, stream, 32 + 8 * byteIndex + bitPos)
    {
      ghost var n := 32 + 8 * byteIndex + bitPos;
      var pixelIndex := (32 + 8 * byteIndex + bitPos) * 4;
      var bit := DigitValue(byteBinary[bitPos]);
      assert bit == DigitValue(stream[n]) by {
        StreamAt(bytes, byteIndex, bitPos);
      }
      WrittenStep(img, stream, n, data[..]);
      if pixelIndex < data.Length {
        data[pixelIndex] := SetLow(data[pixelIndex], bit);
      }
    }
  }

  /** The extraction loops of `extractEmojiFromImage`, up to the bytes handed to `TextDecoder`. */
  method Extract(data: array<Byte>) returns (r: Result<seq<Byte>>)
    ensures r == Extracted(data[..])
  {
    var lengthBinary := ReadHeader(data);
    var dataLength := FromBits(lengthBinary);
    if dataLength <= 0 || dataLength > MaxLength {
      return Err(InvalidLength(dataLength));
    }
    var extracted: seq<Byte> := [];
    for byteIndex := 0 to dataLength
      invariant byteIndex == 0 || 4 * (32 + 8 * byteIndex - 1) < data.Length
      invariant extracted == BytesUpTo(data[..], byteIndex)
    {
      var byteBinary := ReadByte(data, byteIndex);
      if byteBinary.None? {
        return Err(IncompleteExtraction);
      }
      assert Pow2(8) == 256;
      extracted := extracted + [FromBits(byteBinary.value)];
      assert extracted == BytesUpTo(data[..], byteIndex + 1);
    }
    r := Ok(extracted);
  }

  /** The loop that reads `lengthBinary` from pixels 0 to 31. */
  method ReadHeader(data: array<Byte>) returns (lengthBinary: string)
    ensures lengthBinary == HeaderOf(data[..])
  {
    ghost var img := data[..];
    lengthBinary := "";
    for i := 0 to 32
      invariant lengthBinary == HeaderOf(img)[..i]
    {
      var pixelIndex := i * 4;
      var bit := if pixelIndex < data.Length then data[pixelIndex] % 2 else 0;
      assert HeaderOf(img)[..i + 1] == HeaderOf(img)[..i] + [Digit(bit)];
      lengthBinary := lengthBinary + [Digit(bit)];
    }
  }

  /**
   * The inner loop that reads `byteBinary` for byte `byteIndex`; `None`
   * stands for the throw at the first pixel past the end of the buffer.
   */
  method ReadByte(data: array<Byte>, byteIndex: nat) returns (byteBinary: Option<string>)
    ensures 4 * (32 + 8 * byteIndex + 7) < data.Length ==> byteBinary == Some(ByteDigits(data[..], byteIndex))
    ensures 4 * (32 + 8 * byteIndex + 7) >= data.Length ==> byteBinary == None
  {
    ghost var img := data[..];
    var digits := "";
    for bitPos := 0 to 8
      invariant digits == ByteDigits(img, byteIndex)[..bitPos]
      invariant 4 * (32 + 8 * byteIndex + bitPos - 1) < data.Length || bitPos == 0
    {
      var pixelIndex := (32 + 8 * byteIndex + bitPos) * 4;
      if pixelIndex < data.Length {
        ReadBit(img, byteIndex, bitPos);
        digits := digits + [Digit(data[pixelIndex] % 2)];
      } else {
        return None;
      }
    }
    assert digits == ByteDigits(img, byteIndex);
    return Some(digits);
  }

  /** The digit the extraction loop appends for bit `bitPos` of byte `byteIndex`. */
  lemma ReadBit(img: seq<Byte>, byteIndex: nat, bitPos: nat)
    requires bitPos < 8 && 4 * (32 + 8 * byteIndex + bitPos) < |img|
    ensures ByteDigits(img, byteIndex)[..bitPos + 1] == ByteDigits(img, byteIndex)[..bitPos] + [Digit(img[4 * (32 + 8 * byteIndex + bitPos)] % 2)]
  {
    var d := ByteDigits(img, byteIndex);
    assert d[bitPos] == Digit(LowBit(img, 4 * (32 + 8 * byteIndex + bitPos)));
  }

  // ---------------------------------------------------------------- one write at a time

  /** Writing pixel `n` takes the buffer from `n` pixels written to `n + 1`; a pixel past the end changes nothing. */
  lemma WrittenStep(img: seq<Byte>, stream: string, n: nat, cur: seq<Byte>)
    requires n < |stream| && cur == Written(img, stream, n)
    ensures 4 * n < |img| ==> Written(img, stream, n + 1) == cur[4 * n := SetLow(cur[4 * n], DigitValue(stream[n]))]
    ensures 4 * n >= |img| ==> Written(img, stream, n + 1) == cur
  {
    var next := Written(img, stream, n + 1);
    if 4 * n < |img| {
      assert cur[4 * n] == img[4 * n];
      forall j | 0 <= j < |img| ensures next[j] == cur[4 * n := SetLow(cur[4 * n], DigitValue(stream[n]))][j] {
        if j == 4 * n {
          assert j % 4 == 0 && j / 4 == n;
        } else if j % 4 == 0 {
          assert j / 4 != n;
        }
      }
    } else {
      forall j | 0 <= j < |img| ensures next[j] == cur[j] {
        if j % 4 == 0 {
          assert j / 4 != n;
        }
      }
    }
  }

  // ---------------------------------------------------------------- what an embedding does

  lemma StreamBits(bytes: seq<Byte>)
    ensures IsBits(Stream(bytes))
  {
    var st := Stream(bytes);
    StreamLength(bytes);
    FixedBits(|bytes|, 32);
    forall i | 0 <= i < |st| ensures IsBit(st[i]) {
      if i >= 32 {
        var k := (i - 32) / 8;
        StreamAt(bytes, k, (i - 32) % 8);
        FixedBits(bytes[k], 8);
        assert st[i] == Octet(bytes[k])[(i - 32) % 8];
      } else {
        assert st[i] == Fixed(|bytes|, 32)[i];
      }
    }
  }

  /** A written pixel inside the buffer carries its digit in the low bit of its red sample. */
  lemma WrittenLow(img: seq<Byte>, stream: string, n: nat, p: nat)
    requires n <= |stream| && IsBits(stream) && p < n && 4 * p < |img|
    ensures Digit(LowBit(Written(img, stream, n), 4 * p)) == stream[p]
  {
    var w := Written(img, stream, n);
    assert (4 * p) % 4 == 0 && (4 * p) / 4 == p;
    assert w[4 * p] == SetLow(img[4 * p], DigitValue(stream[p]));
    DigitOfValue(stream[p]);
  }

  /**
   * Only the lowest bit of a sample can change, and only in the red
   * sample of the first `32 + 8 * |bytes|` pixels.
   */
  lemma OnlyLowBitsChange(img: seq<Byte>, bytes: seq<Byte>, j: nat)
    requires j < |img|
    ensures |Embedded(img, bytes)| == |img|
    ensures Embedded(img, bytes)[j] / 2 == img[j] / 2
    ensures j % 4 != 0 || j / 4 >= 32 + 8 * |bytes| ==> Embedded(img, bytes)[j] == img[j]
  {
    StreamLength(bytes);
  }

  /** On a buffer of at least 32 pixels the header reads back the length written. */
  lemma HeaderOfEmbedded(img: seq<Byte>, bytes: seq<Byte>)
    requires |img| >= 128 && |bytes| < 0x1_0000_0000
    ensures FromBits(HeaderOf(Embedded(img, bytes))) == |bytes|
  {
    var e := Embedded(img, bytes);
    var st := Stream(bytes);
    StreamLength(bytes);
    StreamBits(bytes);
    Pow2Of32();
    FixedValue(|bytes|, 32);
    forall i | 0 <= i < 32 ensures HeaderOf(e)[i] == Fixed(|bytes|, 32)[i] {
      WrittenLow(img, st, |st|, i);
    }
    assert HeaderOf(e) == Fixed(|bytes|, 32);
  }

  /**
   * Embedding accepts payloads longer than 50000 bytes when the image is
   * large enough, but extraction refuses every one of them by its header.
   */
  lemma OversizedRefused(img: seq<Byte>, bytes: seq<Byte>)
    requires |img| >= 128 && MaxLength < |bytes| < 0x1_0000_0000
    ensures Extracted(Embedded(img, bytes)) == Err(InvalidLength(|bytes|))
  {
    HeaderOfEmbedded(img, bytes);
  }

  /** A byte whose eight pixels are inside the buffer reads back as written. */
  lemma ByteOfEmbedded(img: seq<Byte>, bytes: seq<Byte>, k: nat)
    requires k < |bytes| && 4 * (32 + 8 * k + 7) < |img|
    ensures ByteAt(Embedded(img, bytes), k) == bytes[k]
  {
    var e := Embedded(img, bytes);
    forall b | 0 <= b < 8 ensures ByteDigits(e, k)[b] == Octet(bytes[k])[b] {
      EmbeddedDigit(img, bytes, k, b);
    }
    assert Pow2(8) == 256;
    FixedValue(bytes[k], 8);
    assert ByteDigits(e, k) == Octet(bytes[k]);
  }

  /** Digit `b` of byte `k` reads back as written when its pixel is inside the buffer. */
  lemma EmbeddedDigit(img: seq<Byte>, bytes: seq<Byte>, k: nat, b: nat)
    requires k < |bytes| && b < 8 && 4 * (32 + 8 * k + 7) < |img|
    ensures ByteDigits(Embedded(img, bytes), k)[b] == Octet(bytes[k])[b]
  {
    var st := Stream(bytes);
    ghost var n := 32 + 8 * k + b;
    assert 4 * n < |img|;
    StreamLength(bytes);
    StreamBits(bytes);
    StreamAt(bytes, k, b);
    WrittenLow(img, st, |st|, n);
  }

  /**
   * Extraction inverts embedding whenever the payload's last pixel lies
   * inside the buffer and its length is one the extraction accepts.
   */
  lemma RasterRoundTrip(img: seq<Byte>, bytes: seq<Byte>)
    requires 1 <= |bytes| <= MaxLength && 4 * (32 + 8 * |bytes| - 1) < |img|
    ensures Extracted(Embedded(img, bytes)) == Ok(bytes)
  {
    var e := Embedded(img, bytes);
    HeaderOfEmbedded(img, bytes);
    forall k | 0 <= k < |bytes| ensures ByteAt(e, k) == bytes[k] {
      ByteOfEmbedded(img, bytes, k);
    }
    ExtractedAccepts(e, |bytes|);
    assert BytesUpTo(e, |bytes|) == bytes;
  }

  lemma ExtractedAccepts(e: seq<Byte>, n: nat)
    requires FromBits(HeaderOf(e)) == n && 1 <= n <= MaxLength && 4 * (32 + 8 * n - 1) < |e|
    ensures Extracted(e) == Ok(BytesUpTo(e, n))
  {
  }

  /**
   * The capacity check as written lets through payloads whose last bits
   * fall past the buffer; their extraction then fails.
   */
  lemma TruncatedEmbedding(img: seq<Byte>, bytes: seq<Byte>)
    requires 1 <= |bytes| <= MaxLength && |bytes| <= Capacity(|img|)
    requires 4 * (32 + 8 * |bytes| - 1) >= |img|
    ensures Extracted(Embedded(img, bytes)) == Err(IncompleteExtraction)
  {
    HeaderOfEmbedded(img, bytes);
  }

  /** A 40-pixel image: the check accepts two bytes, and the 48 pixels they need are not there. */
  lemma SmallImageLosesData(img: seq<Byte>)
    requires |img| == 160
    ensures 2 <= Capacity(|img|)
    ensures Extracted(Embedded(img, [1, 2])) == Err(IncompleteExtraction)
  {
    TruncatedEmbedding(img, [1, 2]);
  }

  /** The check of `EmbedChecked` is stricter than the one as written: whatever it accepts, the original accepts too. */
  lemma CheckedWithinCapacity(len: nat, n: nat)
    requires 32 + 8 * n <= len / 4
    ensures n <= Capacity(len)
  {
  }
}
