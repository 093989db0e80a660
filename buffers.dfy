/**
 * The outbound `ByteBuf` as the encoder uses it: an append-only byte buffer.
 * `bytes` is everything written so far; the writer index is `|bytes|`.
 */
module Buffers {
  import opened BigEndian

  class ByteBuf {
    var bytes: seq<byte>

    constructor ()
      ensures bytes == []
    {
      bytes := [];
    }

    /** The writer index. */
    function WriterIndex(): nat
      reads this
    {
      |bytes|
    }

    /** Appends the four bytes of `value`, most significant first; the writer index grows by 4. */
    method WriteInt(value: int32)
      modifies this
      ensures bytes == old(bytes) + Int32ToBE(value)
      ensures WriterIndex() == old(WriterIndex()) + 4
    {
      bytes := bytes + Int32ToBE(value);
    }

    /** Appends `src` unchanged; the writer index grows by `|src|`. */
    method WriteBytes(src: seq<byte>)
      modifies this
      ensures bytes == old(bytes) + src
      ensures WriterIndex() == old(WriterIndex()) + |src|
    {
      bytes := bytes + src;
    }
  }
}
