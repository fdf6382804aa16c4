/** The container layout shared by the decoder and the encoder: a magic tag,
    the width and the height as big-endian u32, then `height` rows of
    `width * bytesPerPixel` bytes with no padding. The two sibling format
    variants differ only in the magic tag and the pixel width, so both are
    values of one `Format`. This module also holds the error taxonomy and the
    pure specification of what each read returns from a given stream. */
module Layout {
  import opened Bytes

  /** The kinds of I/O failure an in-memory stream can report. */
  datatype IoErrorKind = UnexpectedEof | WriteZero

  /** The codec's error: a wrong magic tag, a row index past the end, or an I/O failure. */
  datatype Error = FormatError(msg: string) | ImageEnd | IoError(kind: IoErrorKind)

  datatype Result<T> = Ok(value: T) | Err(error: Error)

  /** The colour types the encoder can be asked for (each with its bits per channel). */
  datatype ColorType = Gray(bits: nat) | RGB(bits: nat) | Palette(bits: nat) | GrayA(bits: nat) | RGBA(bits: nat)

  /** One format variant: its magic tag, its bytes per pixel, the header length
      its code uses for reads and offsets, and the one colour type it stores. */
  datatype Format = Format(magic: seq<byte>, bytesPerPixel: nat, headerLen: nat, color: ColorType)
  {
    /** The header read holds the magic tag and both dimensions. */
    predicate Readable() { |magic| + 8 <= headerLen }

    /** The header is exactly the magic tag and both dimensions, as the layout says. */
    predicate Consistent() { headerLen == |magic| + 8 }
  }

  /** The `imagefile` variant: 9-byte magic, 8-bit RGBA pixels, HEADER_LEN = 9+4+4. */
  const Imagefile: Format := Format(Ascii("imagefile"), 4, 17, RGBA(8))

  /** The `farbfeld` variant with its layout's header length 8+4+4. */
  const Farbfeld: Format := Format(Ascii("farbfeld"), 8, 16, RGBA(16))

  /** The `farbfeld` variant as its decoder is written: the 8-byte magic and
      8 bytes per pixel, but the shared HEADER_LEN of 17. */
  const FarbfeldAsWritten: Format := Format(Ascii("farbfeld"), 8, 17, RGBA(16))

  /** The header: the magic tag, then the width and the height, big-endian. */
  function HeaderBytes(f: Format, width: u32, height: u32): (b: seq<byte>)
    ensures |b| == |f.magic| + 8
    ensures b[..|f.magic|] == f.magic
  {
    f.magic + BigEndian32(width) + BigEndian32(height)
  }

  /** A whole file: the header followed by the pixel bytes verbatim. */
  function Encoded(f: Format, width: u32, height: u32, pixels: seq<byte>): (b: seq<byte>)
    ensures |b| == |f.magic| + 8 + |pixels|
    ensures b[|f.magic| + 8..] == pixels
  {
    HeaderBytes(f, width, height) + pixels
  }

  /** Bytes in one row. */
  function RowLen(f: Format, width: u32): (n: nat)
  {
    width * f.bytesPerPixel
  }

  /** Absolute offset of row `row`: rows follow the header back to back. */
  function RowOffset(f: Format, width: u32, row: u32): (o: nat)
    ensures o >= f.headerLen
  {
    f.headerLen + row * RowLen(f, width)
  }

  /** Pixel bytes of an image of the given dimensions: `height` rows of
      `row_len` bytes each. */
  function PayloadLen(f: Format, width: u32, height: u32): (n: nat)
  {
    height * RowLen(f, width)
  }

  /** An exact-length read of `len` bytes at absolute position `pos` of the
      stream `s`: it fails with UnexpectedEof when the stream ends first, and
      an empty read always succeeds, even past the end. */
  function ReadAt(s: seq<byte>, pos: nat, len: nat): (r: Result<seq<byte>>)
    ensures r.Ok? <==> len == 0 || pos + len <= |s|
    ensures r.Ok? ==> |r.value| == len && (len > 0 ==> r.value == s[pos..pos + len])
    ensures r.Err? ==> r.error == IoError(UnexpectedEof)
  {
    if len == 0 then Ok([])
    else if pos + len <= |s| then Ok(s[pos..pos + len])
    else Err(IoError(UnexpectedEof))
  }

  /** What opening a decoder on stream `s` yields: the dimensions, or the
      error. The exact-length header read comes before the magic compare. */
  function ParseHeader(f: Format, s: seq<byte>): (r: Result<(u32, u32)>)
    requires f.Readable()
    ensures r == Err(IoError(UnexpectedEof)) <==> |s| < f.headerLen
    ensures r == Err(FormatError("unexpected magic number")) <==> |s| >= f.headerLen && s[..|f.magic|] != f.magic
    ensures r.Err? ==> r.error in {IoError(UnexpectedEof), FormatError("unexpected magic number")}
  {
    var m := |f.magic|;
    if |s| < f.headerLen then Err(IoError(UnexpectedEof))
    else if s[..m] != f.magic then Err(FormatError("unexpected magic number"))
    else Ok((ReadBigEndian32(s[m..m + 4]), ReadBigEndian32(s[m + 4..m + 8])))
  }

  /** What `read_row(row, buf)` reads from stream `s` of an image with the
      given dimensions. The bound check is `row > height`, so `row == height`
      is let through to the read. */
  function ReadRowSpec(f: Format, s: seq<byte>, width: u32, height: u32, row: u32): (r: Result<seq<byte>>)
    ensures r == Err(ImageEnd) <==> row > height
    ensures r.Ok? ==> |r.value| == RowLen(f, width)
    ensures r.Err? && row <= height ==> r.error == IoError(UnexpectedEof)
    ensures r.Ok? <==> row <= height && (RowLen(f, width) == 0 || RowOffset(f, width, row) + RowLen(f, width) <= |s|)
    ensures r.Ok? && RowLen(f, width) > 0 ==>
      r.value == s[RowOffset(f, width, row)..RowOffset(f, width, row) + RowLen(f, width)]
  {
    if row > height then Err(ImageEnd)
    else ReadAt(s, RowOffset(f, width, row), RowLen(f, width))
  }

  /** What `read_image()` reads: the `height * row_len` bytes right after the header. */
  function ReadImageSpec(f: Format, s: seq<byte>, width: u32, height: u32): (r: Result<seq<byte>>)
    ensures r.Ok? <==> PayloadLen(f, width, height) == 0 || f.headerLen + PayloadLen(f, width, height) <= |s|
    ensures r.Ok? ==> |r.value| == PayloadLen(f, width, height)
    ensures r.Ok? && PayloadLen(f, width, height) > 0 ==>
      r.value == s[f.headerLen..f.headerLen + PayloadLen(f, width, height)]
    ensures r.Err? ==> r.error == IoError(UnexpectedEof)
  {
    ReadAt(s, f.headerLen, PayloadLen(f, width, height))
  }

  /** Two reads one after the other: the first one's error, or else the
      second one's, or else both results concatenated. */
  function Then(first: Result<seq<byte>>, next: Result<seq<byte>>): (r: Result<seq<byte>>)
  {
    match first
    case Err(e) => Err(e)
    case Ok(a) => (match next case Err(e) => Err(e) case Ok(b) => Ok(a + b))
  }

  /** Rows 0 to k-1 read one `read_row` at a time, in order, and
      concatenated; the first failing row's error stops the sequence. */
  function RowByRow(f: Format, s: seq<byte>, width: u32, height: u32, k: nat): (r: Result<seq<byte>>)
    requires k <= height
  {
    if k == 0 then Ok([])
    else Then(RowByRow(f, s, width, height, k - 1), ReadRowSpec(f, s, width, height, k - 1))
  }

  /** One exact read of a + b bytes gives what a read of a bytes followed by
      a read of the next b bytes gives. */
  lemma ReadAtSplit(s: seq<byte>, pos: nat, a: nat, b: nat)
    ensures ReadAt(s, pos, a + b) == Then(ReadAt(s, pos, a), ReadAt(s, pos + a, b))
  {
    if a == 0 {
      var second := ReadAt(s, pos, b);
      assert second.Ok? ==> [] + second.value == second.value;
    } else if b == 0 {
      var first := ReadAt(s, pos, a);
      assert first.Ok? ==> first.value + [] == first.value;
    } else if pos + a + b <= |s| {
      assert s[pos..pos + a] + s[pos + a..pos + a + b] == s[pos..pos + a + b];
    }
  }

  /** The first k rows read one by one are the first k * row_len bytes of the
      payload, read at once. */
  lemma {:induction false} RowByRowPrefix(f: Format, s: seq<byte>, width: u32, height: u32, k: nat)
    requires k <= height
    ensures RowByRow(f, s, width, height, k) == ReadAt(s, f.headerLen, k * RowLen(f, width))
  {
    if k > 0 {
      var len := RowLen(f, width);
      RowByRowPrefix(f, s, width, height, k - 1);
      assert k * len == (k - 1) * len + len;
      ReadAtSplit(s, f.headerLen, (k - 1) * len, len);
    }
  }

  /** Once a row fails, reading further rows does not change the outcome:
      the first failure is the one reported. */
  lemma {:induction false} RowByRowStops(f: Format, s: seq<byte>, width: u32, height: u32, k: nat, later: nat)
    requires k <= later <= height
    requires RowByRow(f, s, width, height, k).Err?
    ensures RowByRow(f, s, width, height, later) == RowByRow(f, s, width, height, k)
  {
    if later > k {
      RowByRowStops(f, s, width, height, k, later - 1);
    }
  }

  /** Reading every row in order gives byte for byte what `read_image` gives,
      for every stream: the same bytes on success, the same error otherwise. */
  lemma RowByRowIsImage(f: Format, s: seq<byte>, width: u32, height: u32)
    ensures RowByRow(f, s, width, height, height) == ReadImageSpec(f, s, width, height)
  {
    RowByRowPrefix(f, s, width, height, height);
  }

  /** Rows tile the payload: row 0 starts right after the header and each
      next row starts `row_len` bytes after the previous one. */
  lemma RowStride(f: Format, width: u32, row: u32)
    requires row < 0xFFFF_FFFF
    ensures RowOffset(f, width, 0) == f.headerLen
    ensures RowOffset(f, width, row + 1) == RowOffset(f, width, row) + RowLen(f, width)
  {
    var len := RowLen(f, width);
    assert (row + 1) * len == row * len + len;
  }

  /** Row `row` of `height` rows of `len` bytes ends within the payload. */
  lemma RowWithin(row: nat, height: nat, len: nat)
    requires row < height
    ensures (row + 1) * len == row * len + len <= height * len
  {
    var rest := height - row - 1;
    assert height * len == (row + 1) * len + rest * len;
  }

  /** A slice of a successful exact read is itself a successful exact read. */
  lemma ReadAtSlice(s: seq<byte>, pos: nat, total: nat, from: nat, len: nat)
    requires ReadAt(s, pos, total).Ok?
    requires from + len <= total
    ensures ReadAt(s, pos + from, len) == Ok(ReadAt(s, pos, total).value[from..from + len])
  {
    if len > 0 {
      assert pos + total <= |s|;
      var whole := s[pos..pos + total];
      assert ReadAt(s, pos, total).value == whole;
      var part, direct := whole[from..from + len], s[pos + from..pos + from + len];
      forall i | 0 <= i < len
        ensures part[i] == direct[i]
      {
        assert part[i] == whole[from + i] == s[pos + from + i];
      }
      assert part == direct;
    } else {
      assert ReadAt(s, pos, total).value[from..from] == [];
    }
  }

  /** Each row that `read_row` returns is the matching slice of the payload
      that `read_image` returns. */
  lemma RowOfImage(f: Format, s: seq<byte>, width: u32, height: u32, row: u32)
    requires ReadImageSpec(f, s, width, height).Ok?
    requires row < height
    ensures row * RowLen(f, width) + RowLen(f, width) <= height * RowLen(f, width)
    ensures var len := RowLen(f, width);
      ReadRowSpec(f, s, width, height, row)
        == Ok(ReadImageSpec(f, s, width, height).value[row * len..row * len + len])
  {
    var len := RowLen(f, width);
    RowWithin(row, height, len);
    ReadAtSlice(s, f.headerLen, height * len, row * len, len);
  }

  /** The `>` bound: the row one past the last one is let through to the read
      (on a file that ends with its payload it then fails for lack of bytes,
      unless rows are empty), and only the row after it is refused with ImageEnd. */
  lemma RowBoundary(f: Format, pixels: seq<byte>, width: u32, height: u32)
    requires f.Consistent()
    requires |pixels| == PayloadLen(f, width, height)
    requires height < 0xFFFF_FFFF
    ensures var s := Encoded(f, width, height, pixels);
      && ReadRowSpec(f, s, width, height, height + 1) == Err(ImageEnd)
      && ReadRowSpec(f, s, width, height, height)
           == if RowLen(f, width) == 0 then Ok([]) else Err(IoError(UnexpectedEof))
  {
    var s := Encoded(f, width, height, pixels);
    assert RowOffset(f, width, height) + RowLen(f, width) == |s| + RowLen(f, width);
  }

  /** A header parsed from a stream is exactly the header written for those
      dimensions: with `HeaderRoundTrip`, parsing and writing invert each other. */
  lemma ParsedHeaderIsWritten(f: Format, s: seq<byte>)
    requires f.Readable()
    requires ParseHeader(f, s).Ok?
    ensures var (width, height) := ParseHeader(f, s).value;
      s[..|f.magic| + 8] == HeaderBytes(f, width, height)
  {
    var m := |f.magic|;
    WrittenRead(s[m..m + 4]);
    WrittenRead(s[m + 4..m + 8]);
    assert s[..m + 8] == s[..m] + s[m..m + 4] + s[m + 4..m + 8];
  }

  /** A written header followed by at least the rest of the header read
      parses back to the dimensions it was written with. */
  lemma HeaderRoundTrip(f: Format, width: u32, height: u32, rest: seq<byte>)
    requires f.Readable()
    requires |f.magic| + 8 + |rest| >= f.headerLen
    ensures ParseHeader(f, HeaderBytes(f, width, height) + rest) == Ok((width, height))
  {
    var m := |f.magic|;
    var s := HeaderBytes(f, width, height) + rest;
    assert s[..m] == f.magic;
    assert s[m..m + 4] == BigEndian32(width);
    assert s[m + 4..m + 8] == BigEndian32(height);
    ReadWritten(width);
    ReadWritten(height);
  }

  /** `read_image` on an encoded file returns exactly the pixels written. */
  lemma PayloadRoundTrip(f: Format, width: u32, height: u32, pixels: seq<byte>)
    requires f.Consistent()
    requires |pixels| == PayloadLen(f, width, height)
    ensures ReadImageSpec(f, Encoded(f, width, height, pixels), width, height) == Ok(pixels)
  {
    var s := Encoded(f, width, height, pixels);
    if |pixels| > 0 {
      assert s[f.headerLen..] == pixels;
      assert s[f.headerLen..f.headerLen + |pixels|] == pixels;
    }
  }

  /** Encoding then decoding gives back the input: the dimensions from the
      header, and the pixels both from `read_image` and from `read_row` over
      every row in order. */
  lemma RoundTrip(f: Format, width: u32, height: u32, pixels: seq<byte>)
    requires f.Consistent()
    requires |pixels| == PayloadLen(f, width, height)
    ensures var s := Encoded(f, width, height, pixels);
      && ParseHeader(f, s) == Ok((width, height))
      && ReadImageSpec(f, s, width, height) == Ok(pixels)
      && RowByRow(f, s, width, height, height) == Ok(pixels)
  {
    var s := Encoded(f, width, height, pixels);
    HeaderRoundTrip(f, width, height, pixels);
    PayloadRoundTrip(f, width, height, pixels);
    RowByRowIsImage(f, s, width, height);
  }
}
