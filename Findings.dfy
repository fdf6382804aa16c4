/** The decoder compares the 8-byte `farbfeld` tag but reads, seeks and
    offsets with the shared HEADER_LEN of 9+4+4 = 17, one more than that
    layout's 8+4+4 = 16-byte header. `FarbfeldAsWritten` models the code as
    written; `Farbfeld` is the variant with the header length its layout
    calls for. */
module Findings {
  import opened Bytes
  import opened Layout

  /** As written, no exact-length farbfeld file yields its pixels: a file
      with an empty payload (such as the 16 bytes of a 0x0 image) is refused
      as truncated when the decoder is made, and for any other file the header
      parses but `read_image` runs one byte past the end. */
  lemma AsWrittenRefusesFarbfeldFiles(width: u32, height: u32, pixels: seq<byte>)
    requires |pixels| == PayloadLen(Farbfeld, width, height)
    ensures var s := Encoded(Farbfeld, width, height, pixels);
      if |pixels| == 0 then
        ParseHeader(FarbfeldAsWritten, s) == Err(IoError(UnexpectedEof))
      else
        && ParseHeader(FarbfeldAsWritten, s) == Ok((width, height))
        && ReadImageSpec(FarbfeldAsWritten, s, width, height) == Err(IoError(UnexpectedEof))
  {
    var s := Encoded(Farbfeld, width, height, pixels);
    assert RowLen(FarbfeldAsWritten, width) == RowLen(Farbfeld, width);
    assert HeaderBytes(FarbfeldAsWritten, width, height) == HeaderBytes(Farbfeld, width, height);
    if |pixels| > 0 {
      HeaderRoundTrip(FarbfeldAsWritten, width, height, pixels);
    }
  }

  /** As written, a row comes back shifted by one byte. In a 1x2 image
      (rows of 8 bytes), row 0 is read as bytes 1 to 8 of the payload: the
      second byte of row 0 up to the first byte of row 1. */
  lemma AsWrittenShiftsRows(pixels: seq<byte>)
    requires |pixels| == 16
    ensures ReadRowSpec(FarbfeldAsWritten, Encoded(Farbfeld, 1, 2, pixels), 1, 2, 0) == Ok(pixels[1..9])
    ensures ReadRowSpec(Farbfeld, Encoded(Farbfeld, 1, 2, pixels), 1, 2, 0) == Ok(pixels[..8])
  {
    var s := Encoded(Farbfeld, 1, 2, pixels);
    assert s[16..] == pixels;
    assert s[17..25] == pixels[1..9];
    assert s[16..24] == pixels[..8];
  }

  /** With the header length its layout calls for, the farbfeld variant
      decodes every file it encodes: dimensions, whole payload and every row. */
  lemma FarbfeldRoundTrip(width: u32, height: u32, pixels: seq<byte>)
    requires |pixels| == PayloadLen(Farbfeld, width, height)
    ensures var s := Encoded(Farbfeld, width, height, pixels);
      && Farbfeld.Consistent()
      && ParseHeader(Farbfeld, s) == Ok((width, height))
      && ReadImageSpec(Farbfeld, s, width, height) == Ok(pixels)
      && RowByRow(Farbfeld, s, width, height, height) == Ok(pixels)
  {
    RoundTrip(Farbfeld, width, height, pixels);
  }
}
