/** The byte streams the codec works over, as in-memory objects: a seekable
    reader over fixed contents with a cursor, and an append-only writer with a
    fixed amount of room. They stand for the `Read + Seek` and `Write` values
    the decoder and the encoder are generic over. */
module Streams {
  import opened Bytes
  import opened Layout

  /** The smaller of two counts. */
  function Min(a: nat, b: nat): (m: nat)
    ensures m <= a && m <= b && (m == a || m == b)
  {
    if a <= b then a else b
  }

  /** A seekable reader over fixed contents (as `std::io::Cursor`). */
  class Reader {
    const data: seq<byte>
    var pos: nat

    constructor (data: seq<byte>)
      ensures this.data == data && pos == 0
    {
      this.data := data;
      pos := 0;
    }

    /** `seek(SeekFrom::Start(n))`: on an in-memory stream it always succeeds,
        also past the end. */
    method SeekStart(n: nat)
      modifies this
      ensures pos == n
    {
      pos := n;
    }

    /** `read_exact(&mut buf[..len])`: copies the bytes available from the
        cursor on, up to `len`, and fails with UnexpectedEof when fewer than
        `len` were available. Nothing past `buf[len - 1]` is touched. */
    method ReadExact(buf: array<byte>, len: nat) returns (r: Result<()>)
      requires len <= buf.Length
      modifies this, buf
      ensures var from := Min(old(pos), |data|); var n := Min(len, |data| - from);
        && pos == old(pos) + n
        && buf[..n] == data[from..from + n]
        && buf[len..] == old(buf[len..])
      ensures r.Ok? <==> ReadAt(data, old(pos), len).Ok?
      ensures r.Ok? ==> buf[..len] == ReadAt(data, old(pos), len).value
      ensures r.Err? ==> r.error == ReadAt(data, old(pos), len).error
    {
      var from := Min(pos, |data|);
      var n := Min(len, |data| - from);
      var i := 0;
      while i < n
        invariant 0 <= i <= n
        invariant pos == old(pos)
        invariant buf[..i] == data[from..from + i]
        invariant forall k :: n <= k < buf.Length ==> buf[k] == old(buf[k])
      {
        buf[i] := data[from + i];
        i := i + 1;
      }
      assert buf[len..] == old(buf[len..]);
      pos := pos + n;
      r := if n == len then Ok(()) else Err(IoError(UnexpectedEof));
    }
  }

  /** A destination that holds `bytes` and accepts `room` more (as a `Cursor`
      over a fixed-size buffer; a growable vector is one with ample room). */
  class Writer {
    var bytes: seq<byte>
    var room: nat

    constructor (room: nat)
      ensures bytes == [] && this.room == room
    {
      bytes := [];
      this.room := room;
    }

    /** `write_all(buf)`: appends what fits and fails with WriteZero once the
        destination is full; the bytes that fit stay written. */
    method WriteAll(buf: seq<byte>) returns (r: Result<()>)
      modifies this
      ensures bytes == old(bytes) + buf[..Min(|buf|, old(room))]
      ensures room == old(room) - Min(|buf|, old(room))
      ensures r.Ok? <==> |buf| <= old(room)
      ensures r.Err? ==> r.error == IoError(WriteZero)
    {
      var n := Min(|buf|, room);
      bytes := bytes + buf[..n];
      room := room - n;
      r := if n == |buf| then Ok(()) else Err(IoError(WriteZero));
    }
  }
}
