/** The decoder: it owns a seekable stream, validates the header once when it
    is created and keeps the width and the height it read; rows are then read
    at computed offsets, one at a time in any order, or the whole payload at
    once. Every read seeks first, so no call depends on an earlier one. */
module Decoding {
  import opened Bytes
  import opened Layout
  import opened Streams

  class Decoder {
    const f: Format
    const r: Reader
    const width: u32
    const height: u32

    /** The dimensions are the ones in the stream's header. They are fixed
        when the decoder is made, and no method can change them. */
    ghost predicate Valid()
    {
      f.Readable() && ParseHeader(f, r.data) == Ok((width, height))
    }

    constructor FromHeader(f: Format, r: Reader, width: u32, height: u32)
      requires f.Readable() && ParseHeader(f, r.data) == Ok((width, height))
      ensures this.f == f && this.r == r && this.width == width && this.height == height
      ensures Valid()
    {
      this.f := f;
      this.r := r;
      this.width := width;
      this.height := height;
    }

    /** `Decoder::new`: seek to the start, read exactly the header, then
        compare the magic tag; a short stream is reported before a wrong tag. */
    static method New(f: Format, rd: Reader) returns (res: Result<Decoder>)
      requires f.Readable()
      modifies rd
      ensures res.Ok? <==> ParseHeader(f, rd.data).Ok?
      ensures res.Err? ==> res.error == ParseHeader(f, rd.data).error
      ensures res.Ok? ==> fresh(res.value) && res.value.f == f && res.value.r == rd
      ensures res.Ok? ==> res.value.Valid()
    {
      var head := new byte[f.headerLen];
      rd.SeekStart(0);
      var read := rd.ReadExact(head, f.headerLen);
      if read.Err? {
        return Err(read.error);
      }
      assert head[..] == rd.data[..f.headerLen];
      var m := |f.magic|;
      if head[..m] != f.magic {
        return Err(FormatError("unexpected magic number"));
      }
      assert head[..m] == rd.data[..m];
      var wide, high := head[m..m + 4], head[m + 4..m + 8];
      assert wide == rd.data[m..m + 4] && high == rd.data[m + 4..m + 8];
      var d := new Decoder.FromHeader(f, rd, ReadBigEndian32(wide), ReadBigEndian32(high));
      return Ok(d);
    }

    /** `dimensions()`: the header's `(width, height)`, without any I/O. */
    function Dimensions(): (d: (u32, u32))
      requires Valid()
      ensures ParseHeader(f, r.data) == Ok(d)
    {
      (width, height)
    }

    /** `row_len()`: bytes per row, `width * bytes_per_pixel`. */
    function RowLen(): (n: nat)
      ensures n == width * f.bytesPerPixel
    {
      Layout.RowLen(f, width)
    }

    /** `read_row(row, buf)`: refuses only rows past `height`; otherwise seeks
        to the row's offset and reads exactly `row_len` bytes into the front of
        `buf`, returning `row_len`. The rest of `buf` is never touched. */
    method ReadRow(row: u32, buf: array<byte>) returns (res: Result<nat>)
      requires row <= height ==> RowLen() <= buf.Length
      modifies r, buf
      ensures res.Ok? <==> ReadRowSpec(f, r.data, width, height, row).Ok?
      ensures res.Ok? ==> res.value == RowLen() && buf[..RowLen()] == ReadRowSpec(f, r.data, width, height, row).value
      ensures res.Err? ==> res.error == ReadRowSpec(f, r.data, width, height, row).error
      ensures row > height ==> unchanged(r) && unchanged(buf)
      ensures RowLen() <= buf.Length ==> buf[RowLen()..] == old(buf[RowLen()..])
    {
      if row > height {
        return Err(ImageEnd);
      }
      var rowLen := RowLen();
      var offset := f.headerLen + row * rowLen;
      r.SeekStart(offset);
      var read := r.ReadExact(buf, rowLen);
      if read.Err? {
        return Err(read.error);
      }
      return Ok(rowLen);
    }

    /** `read_image()`: seeks past the header and reads exactly
        `height * row_len` bytes into a fresh buffer. */
    method ReadImage() returns (res: Result<seq<byte>>)
      modifies r
      ensures res == ReadImageSpec(f, r.data, width, height)
    {
      r.SeekStart(f.headerLen);
      var n := height * RowLen();
      var buf := new byte[n];
      var read := r.ReadExact(buf, n);
      if read.Err? {
        return Err(read.error);
      }
      assert buf[..] == buf[..n];
      return Ok(buf[..]);
    }
  }
}
