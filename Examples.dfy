/** The repository's test scenarios on the `imagefile` variant: the 3x3 test
    image and its 53-byte encoding, the decoder's error cases on damaged
    copies of it, and a caller that reads an image row by row. */
module Examples {
  import opened Bytes
  import opened Layout
  import opened Streams
  import opened Decoding
  import opened Encoding

  const Red: seq<byte> := [0xff, 0x00, 0x00, 0xff]
  const Green: seq<byte> := [0x00, 0xff, 0x00, 0xff]
  const Blue: seq<byte> := [0x00, 0x00, 0xff, 0xff]
  const Gray: seq<byte> := [0x80, 0x80, 0x80, 0x80]

  /** The 3x3 test image, row-major, 4 bytes per pixel. */
  const TestImage: seq<byte> := Red + Green + Blue + Blue + Gray + Green + Green + Blue + Red

  /** The expected file: magic, width 3, height 3, then the 36 pixel bytes. */
  const ImageData: seq<byte> :=
    Ascii("imagefile")
    + [0x00, 0x00, 0x00, 0x03]
    + [0x00, 0x00, 0x00, 0x03]
    + [0xff, 0x00, 0x00, 0xff, 0x00, 0xff, 0x00, 0xff, 0x00, 0x00, 0xff, 0xff]
    + [0x00, 0x00, 0xff, 0xff, 0x80, 0x80, 0x80, 0x80, 0x00, 0xff, 0x00, 0xff]
    + [0x00, 0xff, 0x00, 0xff, 0x00, 0x00, 0xff, 0xff, 0xff, 0x00, 0x00, 0xff]

  /** The test image encodes to exactly the 53 expected bytes: the 17-byte
      header, which is HEADER_LEN long, and 36 pixel bytes. */
  lemma TestImageEncoding()
    ensures |ImageData| == 53 && |HeaderBytes(Imagefile, 3, 3)| == Imagefile.headerLen == 17
    ensures Encoded(Imagefile, 3, 3, TestImage) == ImageData
  {
    assert BigEndian32(3) == [0x00, 0x00, 0x00, 0x03];
    assert TestImage == ImageData[17..];
    assert HeaderBytes(Imagefile, 3, 3) == ImageData[..17];
  }

  /** Encoding the test image into an empty vector completes and leaves
      exactly the expected bytes. */
  method EncodeTestImage() returns (res: Outcome, out: seq<byte>)
    ensures res == Done && out == ImageData
  {
    var w := new Writer(1024);
    var e := new ImagefileEncoder(Imagefile, w);
    TestImageEncoding();
    res := e.Encode(TestImage, 3, 3, RGBA(8));
    out := w.bytes;
  }

  /** Decoding the expected bytes gives back the 3x3 dimensions and the test
      image's pixels. */
  method DecodeTestImage() returns (dims: (u32, u32), pixels: Result<seq<byte>>)
    ensures dims == (3, 3) && pixels == Ok(TestImage)
  {
    var rd := new Reader(ImageData);
    TestImageEncoding();
    RoundTrip(Imagefile, 3, 3, TestImage);
    var made := Decoder.New(Imagefile, rd);
    assert made.Ok?;
    var d := made.value;
    dims := d.Dimensions();
    pixels := d.ReadImage();
  }

  /** A full-length stream whose first bytes are `test fail` instead of the
      magic tag is refused with a format error, both by the `imagefile`
      decoder and by the decoder as written, which compares `farbfeld`. */
  method InvalidMagic() returns (res: Result<Decoder>)
    ensures res == Err(FormatError("unexpected magic number"))
    ensures ParseHeader(FarbfeldAsWritten, Ascii("test fail") + ImageData[8..]) == Err(FormatError("unexpected magic number"))
  {
    var data := Ascii("test fail") + ImageData[8..];
    var rd := new Reader(data);
    assert data[0] != Imagefile.magic[0];
    res := Decoder.New(Imagefile, rd);
  }

  /** The first 8 bytes alone are refused as truncated, not as a wrong format,
      even though they do not hold the whole magic tag; this holds for both
      the `imagefile` decoder and the decoder as written. */
  method TruncateHeader() returns (res: Result<Decoder>)
    ensures res == Err(IoError(UnexpectedEof))
    ensures ParseHeader(FarbfeldAsWritten, ImageData[..8]) == Err(IoError(UnexpectedEof))
  {
    var rd := new Reader(ImageData[..8]);
    res := Decoder.New(Imagefile, rd);
  }

  /** With the last byte of the payload missing, the header still parses but
      `read_image` fails with UnexpectedEof. */
  method TruncateData() returns (dims: (u32, u32), pixels: Result<seq<byte>>)
    ensures dims == (3, 3) && pixels == Err(IoError(UnexpectedEof))
  {
    var rd := new Reader(ImageData[..|ImageData| - 1]);
    TestImageEncoding();
    HeaderRoundTrip(Imagefile, 3, 3, TestImage[..|TestImage| - 1]);
    assert ImageData[..|ImageData| - 1] == HeaderBytes(Imagefile, 3, 3) + TestImage[..|TestImage| - 1];
    var made := Decoder.New(Imagefile, rd);
    assert made.Ok?;
    var d := made.value;
    dims := d.Dimensions();
    pixels := d.ReadImage();
  }

  /** The same truncated stream given to the decoder as written, which
      compares the `farbfeld` tag: the stream starts with `imagefil`, so `new`
      fails with the format error and the test's unwrap of it would panic. */
  lemma TruncateDataAsWritten()
    ensures ParseHeader(FarbfeldAsWritten, ImageData[..|ImageData| - 1]) == Err(FormatError("unexpected magic number"))
  {
    TestImageEncoding();
    assert ImageData[..|ImageData| - 1][0..8] != FarbfeldAsWritten.magic by {
      assert ImageData[0] == 'i' as int;
    }
  }

  /** A caller that reads rows 0 to height-1 in order with `read_row` into
      one row buffer and appends them; by `RowByRowIsImage` it gets exactly
      what `read_image` returns. */
  method ReadAllRows(d: Decoder) returns (res: Result<seq<byte>>)
    modifies d.r
    ensures res == ReadImageSpec(d.f, d.r.data, d.width, d.height)
  {
    var buf := new byte[d.RowLen()];
    var acc: seq<byte> := [];
    var row: u32 := 0;
    while row < d.height
      invariant row <= d.height
      invariant RowByRow(d.f, d.r.data, d.width, d.height, row) == Ok(acc)
    {
      var n := d.ReadRow(row, buf);
      if n.Err? {
        assert RowByRow(d.f, d.r.data, d.width, d.height, row + 1) == Err(n.error);
        RowByRowStops(d.f, d.r.data, d.width, d.height, row + 1, d.height);
        RowByRowIsImage(d.f, d.r.data, d.width, d.height);
        return Err(n.error);
      }
      acc := acc + buf[..n.value];
      row := row + 1;
    }
    RowByRowIsImage(d.f, d.r.data, d.width, d.height);
    return Ok(acc);
  }
}
