/** `linear_cursor`: a writer reference paired with a position in the writer's buffer. */
module LinearCursors {

  /**
   * The position is the index into the writer's buffer that the C++
   * iterator `base_cursor_` designates. The writer never changes; the
   * position moves only through `Advance`.
   */
  class LinearCursor<W> {
    const writer: W
    var address: nat

    constructor (writer: W, base: nat)
      ensures this.writer == writer && address == base
    {
      this.writer := writer;
      address := base;
    }

    /** `advance(size)`: move forward by exactly `size`; the writer stays. */
    method Advance(size: nat)
      modifies this
      ensures address == old(address) + size
    {
      address := address + size;
    }
  }
}
