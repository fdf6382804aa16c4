# A verified model of the farbfeld / imagefile raster codec

This project models the byte-level codec of a minimal uncompressed RGBA raster container in Dafny. A file is:

- a fixed ASCII magic tag;
- the width and the height, each a big-endian `u32`;
- then `height` rows of `width * bytes_per_pixel` bytes, packed with no padding.

The repository's files mix two sibling variants of this format, so the model treats the magic tag, the bytes per pixel and the header length as the fields of one `Format` value (`Layout.Format`). There are three instances:

- `Imagefile`: the 9-byte tag `imagefile`, 4 bytes per pixel and a 17-byte header. The encoder, the tests and `HEADER_LEN` use this variant.
- `FarbfeldAsWritten`: the 8-byte tag `farbfeld` and 8 bytes per pixel that the decoder checks, combined with the shared `HEADER_LEN` of 17.
- `Farbfeld`: the same tag and pixel width with the 16-byte header that this layout calls for.

The model has these modules:

- `Bytes`: bytes, `u32`, and big-endian packing and unpacking, each proved to invert the other.
- `Layout`: the error kinds and the format variants. It also holds pure functions that say what each decoder operation returns for a given stream: `ParseHeader`, `ReadRowSpec` and `ReadImageSpec`. The lemmas here cover the layout: row-by-row reading against whole-image reading, the `>` row bound, and the encode/decode round trip.
- `Streams`: the stream objects. `Reader` is a seekable in-memory reader made of fixed contents and a cursor. `Writer` is an append-only destination with a fixed amount of room.
- `Decoding`: the decoder as a class. It owns its reader and keeps the width and height as `const` fields, so nothing can change them after the header is read. `New`, `ReadRow` and `ReadImage` seek and fill arrays in place, and each is proved against the matching `Layout` function. `Dimensions` and `RowLen` are pure accessors; `RowLen` is `width * bytes_per_pixel`.
- `Encoding`: the single-use encoder as a class. It writes the magic tag, the width and the height, and only then looks at the colour type and the payload length. It stops at the first failed write. The end state of the destination is stated as the longest prefix of the intended output that fits.
- `Examples`: the repository's tests on the 3x3 test image, its 53-byte encoding and damaged copies of it. It also has a caller that reads every row with `read_row`.
- `Findings`: the mismatch between the decoder's 8-byte magic tag and the 17-byte header length.

The encoder writes the header before it looks at the payload:

- A payload shorter than `width * height * 4` makes `ImageBuffer::from_raw` return `None`, and the `unwrap` then panics. So the destination is left holding the whole header, not nothing, and there is no "not enough data" error value.
- A colour type other than `RGBA(8)` also panics after the header.
- The model represents both panics as the outcome `Panicked`.

## Model

| member | source | states |
|---|---|---|
| `Bytes.BigEndian32` | src/encoder.rs:15-16 | A `u32` is written as exactly 4 bytes. |
| `Bytes.ReadWritten` | src/decoder.rs:28-29 | Reading back the 4 big-endian bytes of a `u32` gives the same integer. |
| `Bytes.ReadBigEndian32` | src/decoder.rs:28-29 | Reads 4 bytes most significant first: the first byte is the value's top byte and the last byte is its lowest. |
| `Bytes.WrittenRead` | src/encoder.rs:15-16 | Every 4-byte group is the big-endian encoding of the integer read from it, so the two functions are inverse bijections. |
| `Layout.HeaderBytes` | src/encoder.rs:14-16 | The header is `magic_len + 8` bytes long and starts with the magic tag. |
| `Layout.Encoded` | src/encoder.rs:14-23 | After the header, the file holds the pixel bytes verbatim, with no separator or padding. |
| `Layout.RowOffset` | src/decoder.rs:50 | A row's offset is never inside the header. |
| `Layout.RowStride` | src/decoder.rs:50 | Row 0 starts right after the header, and each next row starts `row_len` bytes after the previous one, so rows tile the payload with no gap or overlap. |
| `Layout.ReadAt` | src/decoder.rs:51-52 | An exact read of `len` bytes at `pos` succeeds iff the read is empty or the stream holds `pos + len` bytes. On success it returns exactly those bytes. Otherwise it fails with UnexpectedEof. |
| `Layout.ParseHeader` | src/decoder.rs:18-31 | The result is UnexpectedEof iff the stream is shorter than the header, whatever its first bytes are. It is the FormatError "unexpected magic number" iff the full header is there but its first `magic_len` bytes differ from the tag. No other error is possible. |
| `Layout.ReadRowSpec` | src/decoder.rs:46-54 | The result is ImageEnd iff `row > height`, so `row == height` passes the check. Any other failure is UnexpectedEof. It succeeds iff `row <= height` and the row is empty or lies within the stream. A row that is read is exactly the `row_len` bytes at the row's offset. |
| `Layout.ReadImageSpec` | src/decoder.rs:57-63 | The result is exactly the `height * row_len` bytes that follow the header. It succeeds iff the payload is empty or the stream holds `header_len + height * row_len` bytes; otherwise it fails with UnexpectedEof. |
| `Layout.ReadAtSplit` | src/decoder.rs:50-52 | One exact read of `a + b` bytes gives the same result as a read of `a` bytes followed by a read of the next `b` bytes: the same bytes, or the same error. |
| `Layout.RowByRowPrefix` | src/decoder.rs:50-59 | Reading rows `0..k-1` in order gives the same result as one read of `k * row_len` bytes from the header's end. |
| `Layout.RowByRowStops` | src/decoder.rs:46-54 | Once a row fails, reading more rows does not change the outcome: the first failure is the one reported. |
| `Layout.RowByRowIsImage` | src/decoder.rs:46-63 | For every stream, reading all rows in order and concatenating them gives the same result as `read_image`: the same bytes on success and the same error on failure. |
| `Layout.RowWithin` | src/decoder.rs:50 | Arithmetic helper: row `row < height` ends within the `height * row_len` payload. |
| `Layout.ReadAtSlice` | src/decoder.rs:52 | Any slice of a successful exact read is what an exact read of that slice returns. |
| `Layout.RowOfImage` | src/decoder.rs:49-61 | When `read_image` succeeds, each row `row < height` is returned by `read_row` as the slice `[row * row_len, (row + 1) * row_len)` of the image. |
| `Layout.RowBoundary` | src/decoder.rs:47 | On an exact-length file, `read_row(height + 1)` fails with ImageEnd. `read_row(height)` passes the check and then fails with UnexpectedEof, or returns an empty row when rows are empty. |
| `Layout.ParsedHeaderIsWritten` | src/decoder.rs:26-30 | The first `magic_len + 8` bytes of a stream that parses are exactly the header written for the parsed width and height. |
| `Layout.HeaderRoundTrip` | src/decoder.rs:19-30 | A written header, followed by enough bytes to fill the header read, parses back to the width and height it was written with. |
| `Layout.PayloadRoundTrip` | src/decoder.rs:57-62 | `read_image` on an encoded file returns exactly the pixels that were encoded. |
| `Layout.RoundTrip` | src/encoder.rs:12-25 | For a format whose header is `magic_len + 8` bytes and exact-length pixels, decoding an encoded file gives back the dimensions, the whole payload from `read_image`, and the same payload from `read_row` over every row. |
| `Streams.Reader.ReadExact` | src/decoder.rs:52 | The reader copies the bytes available from the cursor into the front of `buf`, advances the cursor by that count and never touches `buf[len..]`. The call succeeds iff `ReadAt` does, and then `buf[..len]` is what `ReadAt` returns. |
| `Streams.Reader.SeekStart` | src/decoder.rs:51 | Seeking from the start on an in-memory stream always succeeds, even past the end, and sets the cursor to the given offset. |
| `Streams.Writer.WriteAll` | src/encoder.rs:14 | The writer appends what fits in the remaining room. It fails with WriteZero iff the buffer does not fit, and the bytes that fit stay written. |
| `Decoding.Decoder.New` | src/decoder.rs:18-31 | Seeks to 0, reads exactly the header, then compares the tag. It succeeds iff `ParseHeader` does and returns the same error otherwise. A new decoder owns the given reader and holds the parsed width and height. |
| `Decoding.Decoder.FromHeader` | src/decoder.rs:26-30 | The decoder is built from the reader and the parsed width and height, which the stream's header must give; the result is a valid decoder holding exactly those values. |
| `Decoding.Decoder.Dimensions` | src/decoder.rs:34-36 | Returns exactly the `(width, height)` in the stream's header, without any I/O. |
| `Decoding.Decoder.RowLen` | src/decoder.rs:39-41 | A row is `width * bytes_per_pixel` bytes: `width * 8` for farbfeld and `width * 4` for imagefile. `Layout.RowStride` relates it to the row offsets. |
| `Decoding.Decoder.ReadRow` | src/decoder.rs:46-54 | Agrees with `ReadRowSpec` on success and on the error. On success it returns `row_len` and `buf[..row_len]` holds the row. `buf[row_len..]` is never changed. A row past `height` touches neither the stream nor `buf`. `buf` must hold `row_len` bytes whenever `row <= height`. |
| `Decoding.Decoder.ReadImage` | src/decoder.rs:57-63 | Returns exactly `ReadImageSpec` of the stream. |
| `Encoding.Emitted` | src/encoder.rs:14-23 | The intended output starts with the header. With an accepted colour and payload it is the whole file; otherwise it is the header alone. |
| `Encoding.EncodeOutcome` | src/encoder.rs:12-25 | `encode` ends Done iff the colour type is the format's, the payload is long enough, and the whole file fits. A panic happens iff the header fits and the colour or payload is refused. The colour is checked before the payload length, so the panic is the colour panic, carrying the given colour, iff the colour type is wrong. A failure is WriteZero, and the intended output did not fit. |
| `Encoding.ImagefileEncoder.WriteHeader` | src/encoder.rs:14-16 | The three header writes leave the longest prefix of the header that fits, and they fail iff the header does not fit. |
| `Encoding.ImagefileEncoder.Encode` | src/encoder.rs:12-25 | Can only be called once. Afterwards the destination holds the longest prefix of `Emitted` that fits, so nothing is written after the first failed write. The outcome is `EncodeOutcome`. |
| `Encoding.EncodedDecodes` | src/encoder.rs:12-25 | The intended output of an encode of exact-length pixels that ends Done decodes back to the encoded dimensions and pixels. |
| `Encoding.PanicLeavesHeader` | src/encoder.rs:14-21 | When `encode` panics, the destination holds exactly the complete header. |
| `Encoding.WriteStep` | src/encoder.rs:14-23 | Sequence helper: appending the first `n` bytes of the next piece of the output extends a written prefix by `n` bytes. |
| `Examples.TestImageEncoding` | src/tests.rs:24-44 | The 3x3 test image encodes to exactly the 53 expected bytes. The header is 17 bytes, which is `HEADER_LEN`. |
| `Examples.EncodeTestImage` | src/tests.rs:15-22 | Encoding the test image completes and writes exactly the expected bytes. |
| `Examples.DecodeTestImage` | src/tests.rs:8-13 | Decoding the expected bytes gives the dimensions 3x3 and the test image's pixels. |
| `Examples.InvalidMagic` | src/decoder.rs:73-87 | A full-length stream that starts with `test fail` is refused with the FormatError "unexpected magic number", both by the `imagefile` decoder and by the decoder as written, which compares `farbfeld` and reads 17 bytes. |
| `Examples.TruncateHeader` | src/decoder.rs:89-103 | The first 8 bytes alone are refused with UnexpectedEof, not with FormatError, both by the `imagefile` decoder and by the decoder as written. |
| `Examples.TruncateData` | src/decoder.rs:105-120 | When the payload is one byte short, the header still parses as 3x3 and `read_image` fails with UnexpectedEof. |
| `Examples.TruncateDataAsWritten` | src/decoder.rs:105-110 | The one-byte-short copy of the `imagefile` test data, given to the decoder that compares the `farbfeld` tag, is refused in `new` with the FormatError "unexpected magic number", so the test never reaches `read_image`. |
| `Examples.ReadAllRows` | src/decoder.rs:46-63 | A caller that reads rows `0..height-1` with `read_row` gets exactly what `read_image` returns. |
| `Findings.AsWrittenRefusesFarbfeldFiles` | src/lib.rs:11 | With the 17-byte header length, no exact-length farbfeld file gives its pixels. A file with an empty payload is refused as truncated. For any other file the header parses, but `read_image` fails with UnexpectedEof. |
| `Findings.AsWrittenShiftsRows` | src/decoder.rs:50 | With the 17-byte header length, row 0 of a 1x2 farbfeld image is read as payload bytes 1 to 8 instead of 0 to 7. |
| `Findings.FarbfeldRoundTrip` | src/decoder.rs:22 | With the 16-byte header length, the farbfeld variant decodes every file it encodes: the dimensions, the whole payload, and the payload read row by row. |

## Findings

| source | as written | input that shows it | evidently intended | confidence | as-written member | corrected member |
|---|---|---|---|---|---|---|
| src/lib.rs:11 | The decoder checks the 8-byte tag `farbfeld` (src/decoder.rs:22) but reads the header with `HEADER_LEN = 9+4+4 = 17`. | The 16-byte file of a 0x0 farbfeld image (`farbfeld` followed by 8 zero bytes): `new` fails with UnexpectedEof. Any larger exact-length file: `read_image` fails with UnexpectedEof. | A header of 8+4+4 = 16 bytes for the 8-byte tag | not executed; the constants are unambiguous, though the mismatch may come from combining two revisions | `Findings.AsWrittenRefusesFarbfeldFiles` | `Findings.FarbfeldRoundTrip` |
| src/decoder.rs:50 | Row offsets start at `HEADER_LEN = 17` for the 8-byte-tag layout. | A 1x2 farbfeld image with 16 payload bytes: `read_row(0)` returns payload bytes 1 to 8. | Row `r` at offset `16 + r * row_len` | not executed | `Findings.AsWrittenShiftsRows` | `Findings.FarbfeldRoundTrip` |
| src/decoder.rs:105-110 | The test `truncate_data` gives the `farbfeld`-tag decoder a copy of the `imagefile` test data and unwraps `Decoder::new`. | `IMAGE_DATA` without its last byte: it starts with `imagefil`, so `new` returns the FormatError and the `unwrap` panics before `read_image`. | The test reaches `read_image`, which fails with UnexpectedEof | not executed | `Examples.TruncateDataAsWritten` | `Examples.TruncateData` |

The decoder's own test `truncate_data` (src/decoder.rs:105-120) feeds it a copy of the `imagefile` test data. With the `farbfeld` tag check, that copy fails in `new` with FormatError (`Examples.TruncateDataAsWritten`), so the test's `unwrap` panics. The `Examples` module therefore states the decoder's tests on the `Imagefile` variant and proves each test's expected result there.

## Left out

- `Decoding.Decoder.ReadRow`: offsets are unbounded integers. In the source, `row as u64 * row_len as u64` can overflow for very large dimensions, for example width 2^30 and row 2^31.
- `Decoding.Decoder.ReadImage`: lengths are unbounded integers. In the source, `height as usize * row_len()` and `width as usize * 8` can overflow `usize`.
- `Decoding.Decoder.ReadRow`: after a failed read, the contract says nothing about the contents of `buf[..row_len]`. `read_exact` leaves those bytes unspecified; the model copies the bytes that were available.
- `Encoding.ImagefileEncoder.Encode`: a payload longer than `width * height * bytes_per_pixel` is written in full. What `ImageBuffer::from_raw` and `into_raw` keep of extra bytes belongs to the `image` crate, which is not part of this model. The round trip is proved only for exact-length payloads.
- `Encoding.ImagefileEncoder.Encode`: a panic is modelled as the outcome `Panicked` rather than as unwinding. The destination's state at that point is still stated exactly.
- `Streams.Writer.WriteAll`: the only write failure modelled is a destination that runs out of room (WriteZero). Other `io::Error`s from a generic writer are not modelled; the source passes them on unchanged.
- `Streams.Reader`: only an in-memory stream is modelled. Seek and read errors other than end-of-stream, which the source passes on unchanged, are not modelled.
- The colour type of the `farbfeld` variant (`RGBA(16)`) is an assumption. The encoder in these files exists only for `imagefile`.
- The `image` crate types (`ImageBuffer`, `RgbaImage`, `Rgba`), the `into_img` and `encode_img` adapters used by src/tests.rs, and the `byteorder` crate are not part of this model. Pixels are raw bytes, and big-endian packing is modelled in `Bytes`.
- Error formatting, the `Debug` derives and the crate wiring in src/lib.rs carry no behaviour and are not modelled.
