/** The serializer interface the codec is parameterised by, and the exception it throws. */
module Serialize {
  import opened BigEndian
  import opened Results
  import opened Entity

  /** A Java `byte[]`: its length is an `int`, so it is below 2^31. */
  type JavaBytes = s: seq<byte> | |s| < 0x8000_0000

  datatype SerializeException = SerializeException(message: string)

  /**
   * `Serializer.serialize`: a deterministic function of the value that either
   * produces a byte array or throws. The byte format is not modelled.
   */
  type Serializer = Msg -> Result<JavaBytes, SerializeException>
}
