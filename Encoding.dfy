/** The encoder: a single-use value around a destination. It writes the magic
    tag, the width and the height first, and only then looks at the colour
    type and the payload length, so a refused payload leaves the whole header
    behind. Each failed write ends the call at once. */
module Encoding {
  import opened Bytes
  import opened Layout
  import opened Streams

  /** How `encode` ends: normally, with the I/O error of a failed write, or in
      a panic (the `panic!` on a colour type, or the `unwrap` of a payload
      too short for the dimensions). */
  datatype Outcome = Done | Failed(error: Error) | Panicked(cause: PanicCause)

  datatype PanicCause = UnsupportedColor(color: ColorType) | NotEnoughData

  /** The payload is written only for the format's colour type and a buffer
      holding at least the pixels the dimensions call for. */
  predicate Accepts(f: Format, data: seq<byte>, width: u32, height: u32, color: ColorType)
  {
    color == f.color && |data| >= PayloadLen(f, width, height)
  }

  /** Everything `encode` sets out to write, in order: the header, then the
      pixel bytes verbatim once they are accepted. */
  function Emitted(f: Format, data: seq<byte>, width: u32, height: u32, color: ColorType): (out: seq<byte>)
    ensures |out| >= |f.magic| + 8 && out[..|f.magic| + 8] == HeaderBytes(f, width, height)
    ensures Accepts(f, data, width, height, color) ==> out == Encoded(f, width, height, data)
    ensures !Accepts(f, data, width, height, color) ==> out == HeaderBytes(f, width, height)
  {
    HeaderBytes(f, width, height) + if Accepts(f, data, width, height, color) then data else []
  }

  /** How `encode` ends on a destination with `room` bytes of space. */
  function EncodeOutcome(f: Format, room: nat, data: seq<byte>, width: u32, height: u32, color: ColorType): (o: Outcome)
    ensures o == Done <==> Accepts(f, data, width, height, color) && |Encoded(f, width, height, data)| <= room
    ensures o.Panicked? ==> room >= |f.magic| + 8
    ensures o.Panicked? ==> (o.cause.UnsupportedColor? <==> color != f.color)
    ensures o.Panicked? <==> room >= |f.magic| + 8 && !Accepts(f, data, width, height, color)
    ensures o.Panicked? && o.cause.UnsupportedColor? ==> o.cause.color == color
    ensures o.Failed? ==> o.error == IoError(WriteZero) && room < |Emitted(f, data, width, height, color)|
  {
    if room < |f.magic| + 8 then Failed(IoError(WriteZero))
    else if color != f.color then Panicked(UnsupportedColor(color))
    else if |data| < PayloadLen(f, width, height) then Panicked(NotEnoughData)
    else if room < |f.magic| + 8 + |data| then Failed(IoError(WriteZero))
    else Done
  }

  /** An encoder around the destination `w`; `consumed` records that its one
      `encode` call has been made. */
  class ImagefileEncoder {
    const f: Format
    const w: Writer
    var consumed: bool

    constructor (f: Format, w: Writer)
      ensures this.f == f && this.w == w && !consumed
    {
      this.f := f;
      this.w := w;
      consumed := false;
    }

    /** The three header writes of `encode`: the magic tag, then the width
        and the height as big-endian u32, stopping at the first failure. */
    method WriteHeader(width: u32, height: u32) returns (res: Result<()>)
      modifies w
      ensures var header := HeaderBytes(f, width, height);
        && w.bytes == old(w.bytes) + header[..Min(|header|, old(w.room))]
        && w.room == old(w.room) - Min(|header|, old(w.room))
        && (res.Ok? <==> |header| <= old(w.room))
        && (res.Err? ==> res.error == IoError(WriteZero))
    {
      ghost var start, room := w.bytes, w.room;
      ghost var header := HeaderBytes(f, width, height);
      ghost var m := |f.magic|;
      assert header[0..m] == f.magic && header[m..m + 4] == BigEndian32(width) && header[m + 4..m + 8] == BigEndian32(height);
      res := w.WriteAll(f.magic);
      WriteStep(start, header, 0, f.magic, Min(m, room));
      assert w.bytes == start + header[..Min(m, room)];
      if res.Err? {
        return;
      }
      var wide := BigEndian32(width);
      res := w.WriteAll(wide);
      WriteStep(start, header, m, wide, Min(4, room - m));
      assert w.bytes == start + header[..Min(m + 4, room)];
      if res.Err? {
        return;
      }
      var high := BigEndian32(height);
      res := w.WriteAll(high);
      WriteStep(start, header, m + 4, high, Min(4, room - m - 4));
      assert w.bytes == start + header[..Min(m + 8, room)];
    }

    /** `encode(data, width, height, color)`: the destination ends up holding
        the longest prefix of `Emitted` that fits, and the call ends as
        `EncodeOutcome` says. */
    method Encode(data: seq<byte>, width: u32, height: u32, color: ColorType) returns (res: Outcome)
      requires !consumed
      modifies this, w
      ensures consumed
      ensures res == EncodeOutcome(f, old(w.room), data, width, height, color)
      ensures var out := Emitted(f, data, width, height, color);
        && w.bytes == old(w.bytes) + out[..Min(|out|, old(w.room))]
        && w.room == old(w.room) - Min(|out|, old(w.room))
    {
      consumed := true;
      ghost var start, room := w.bytes, w.room;
      ghost var header := HeaderBytes(f, width, height);
      ghost var out := Emitted(f, data, width, height, color);
      var written := WriteHeader(width, height);
      if written.Err? {
        assert out[..room] == header[..room];
        return Failed(written.error);
      }
      if color != f.color {
        return Panicked(UnsupportedColor(color));
      }
      if |data| < PayloadLen(f, width, height) {
        return Panicked(NotEnoughData);
      }
      written := w.WriteAll(data);
      assert out == header + data;
      WriteStep(start, out, |header|, data, Min(|data|, room - |header|));
      if written.Err? {
        return Failed(written.error);
      }
      return Done;
    }
  }

  /** Appending the first `n` bytes of the piece that comes next in `out`
      extends a prefix of `out` by `n` bytes. */
  lemma WriteStep(start: seq<byte>, out: seq<byte>, k: nat, piece: seq<byte>, n: nat)
    requires k + |piece| <= |out| && out[k..k + |piece|] == piece && n <= |piece|
    ensures (start + out[..k]) + piece[..n] == start + out[..k + n]
  {
    assert piece[..n] == out[k..k + n];
    assert out[..k] + out[k..k + n] == out[..k + n];
  }

  /** The intended output of an encode that ends Done decodes back to the
      dimensions and the pixels that were encoded. */
  lemma EncodedDecodes(f: Format, room: nat, data: seq<byte>, width: u32, height: u32, color: ColorType)
    requires f.Consistent()
    requires |data| == PayloadLen(f, width, height)
    requires EncodeOutcome(f, room, data, width, height, color) == Done
    ensures var out := Emitted(f, data, width, height, color);
      && ParseHeader(f, out) == Ok((width, height))
      && ReadImageSpec(f, out, width, height) == Ok(data)
  {
    RoundTrip(f, width, height, data);
  }

  /** A panic comes after the header writes: the destination then holds the
      complete header and nothing of the payload. */
  lemma PanicLeavesHeader(f: Format, room: nat, data: seq<byte>, width: u32, height: u32, color: ColorType)
    requires EncodeOutcome(f, room, data, width, height, color).Panicked?
    ensures var out := Emitted(f, data, width, height, color);
      out[..Min(|out|, room)] == HeaderBytes(f, width, height)
  {
  }
}
