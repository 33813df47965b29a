/**
 * `array_writer`: a writer over a fixed-size byte array, with a write
 * position and an `ok` flag.
 */
module ArrayWriters {
  import opened Bytes
  import opened Sink
  import opened LinearCursors

  /**
   * The writer's own position cursor `position_` is kept as its address,
   * `position`; `Position()` hands out a cursor copy of it, as
   * `position()` returns a copy.
   */
  class ArrayWriter {
    const buffer: array<byte>
    var position: nat
    var ok: bool

    ghost predicate Valid()
      reads this
    {
      position <= buffer.Length
    }

    /** The abstract value of the writer: contents, position and `ok`. */
    ghost function State(): (s: SinkState)
      reads this, buffer
    {
      SinkState(buffer[..], position, ok)
    }

    /** A new writer is ok, positioned at the start of the buffer. */
    constructor (buffer: array<byte>)
      ensures this.buffer == buffer && position == 0 && ok && Valid()
    {
      this.buffer := buffer;
      position := 0;
      ok := true;
    }

    /** `available()`: the distance from the position to the buffer's end. */
    function Available(): (n: int)
      reads this
      requires Valid()
      ensures n >= 0 && position + n == buffer.Length
    {
      buffer.Length - position
    }

    /** `reserve(size)`: `ok` becomes whether `size` bytes are available, whatever it was. */
    method Reserve(size: nat) returns (r: bool)
      requires Valid()
      modifies this`ok
      ensures Valid() && ok == (old(Available()) >= size) && r == ok
      ensures State() == Sink.Reserve(old(State()), size)
    {
      ok := Available() >= size;
      r := ok;
    }

    method Ok() returns (r: bool)
      ensures r == ok
    {
      r := ok;
    }

    /** `position()`: a cursor on this writer at the current position. */
    method Position() returns (c: LinearCursor<ArrayWriter>)
      ensures fresh(c) && c.writer == this && c.address == position
    {
      c := new LinearCursor(this, position);
    }

    method Begin() returns (c: LinearCursor<ArrayWriter>)
      ensures fresh(c) && c.writer == this && c.address == 0
    {
      c := new LinearCursor(this, 0);
    }

    method End() returns (c: LinearCursor<ArrayWriter>)
      ensures fresh(c) && c.writer == this && c.address == buffer.Length
    {
      c := new LinearCursor(this, buffer.Length);
    }

    /** `distance(a, b)`: how far `b` lies past `a`. */
    function Distance(a: LinearCursor<ArrayWriter>, b: LinearCursor<ArrayWriter>): (d: int)
      reads a, b
      ensures a.address + d == b.address
    {
      b.address - a.address
    }

    /** `valid()`: the number of bytes between the buffer start and the position. */
    method ValidBytes() returns (n: int)
      ensures n == position
    {
      var b := Begin();
      var p := Position();
      n := Distance(b, p);
    }

    /** `advance(size)`: the caller guarantees `size` bytes are available. */
    method Advance(size: nat)
      requires Valid() && size <= Available()
      modifies this`position
      ensures Valid() && position == old(position) + size
    {
      position := position + size;
    }

    /** `write_at(cursor, data, size)`: copy `data` at the cursor; the position does not move. */
    method WriteAt(c: LinearCursor<ArrayWriter>, data: seq<byte>)
      requires c.writer == this && c.address + |data| <= buffer.Length
      modifies buffer
      ensures buffer[..] == Overwrite(old(buffer[..]), c.address, data)
    {
      var i := 0;
      while i < |data|
        invariant 0 <= i <= |data|
        invariant forall k :: 0 <= k < buffer.Length ==>
          buffer[k] == if c.address <= k < c.address + i then data[k - c.address] else old(buffer[k])
      {
        buffer[c.address + i] := data[i];
        i := i + 1;
      }
      assert buffer[..] == Overwrite(old(buffer[..]), c.address, data);
    }

    /** `write(data, size)`: copy at the position, then advance past the copy. */
    method Write(data: seq<byte>)
      requires Valid() && position + |data| <= buffer.Length
      modifies this`position, buffer
      ensures Valid() && State() == Sink.Write(old(State()), data)
    {
      var p := Position();
      WriteAt(p, data);
      Advance(|data|);
    }
  }
}
