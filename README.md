# Length-prefixed Kryo frame encoder (Netty-Demo)

This project models the outbound half of the demo RPC wire protocol: the Netty
encoder `NettyKryoEncoder`. It takes a message value (an `RPCRequest` or an
`RPCResponse`) and a configured class. When the value is of that class, the
encoder serializes it and appends one frame to the outbound `ByteBuf`. A frame
is a 4-byte big-endian length followed by exactly that many body bytes. When
the value is of another class, nothing is written.

Modules:

- `BigEndian` holds bytes, Java's `int`, and network byte order. It defines
  `BE32` and `ReadBE32`, the two's-complement form `Int32ToBE` that
  `ByteBuf.writeInt` emits, and the round-trip lemmas between them.
- `Entity` holds the message datatype `Msg`, the class tag `Kind` and
  `isInstance`. A value is an instance of a class exactly when its
  constructor's class tag is that class.
- `Serialize` holds the serializer interface and `SerializeException`. The
  serializer is a deterministic function that either returns a byte array
  (shorter than 2^31 bytes) or throws `SerializeException`.
- `Buffers` holds the outbound `ByteBuf` as a class whose `bytes` field is
  everything written so far. `writeInt` and `writeBytes` only append.
- `Coder` holds `Frame` and `Frames`, the one-call specification `Encoded`,
  and the class `NettyKryoEncoder`. That class has the two final fields of the
  Java class and an `Encode` method that mutates the buffer.

The serializer is a parameter of the encoder, so nothing here depends on
Kryo's byte format.

## Model

| member | source | states |
|---|---|---|
| `Coder.NettyKryoEncoder.Encode` | src/main/java/coder/NettyKryoEncoder.java:17-28 | the buffer becomes its old contents followed by what `Encoded` gives. On a serializer exception, that exception is returned and the buffer is exactly as before. Bytes already in the buffer are never changed. |
| `Coder.NettyKryoEncoder.constructor` | src/main/java/coder/NettyKryoEncoder.java:10-13 | the encoder keeps the serializer and the configured class it is given |
| `Coder.Encoded` | src/main/java/coder/NettyKryoEncoder.java:17-28 | a value not of `genericClass` writes nothing and throws nothing. A matching value throws exactly when its serialization throws, with the same exception. Otherwise the call writes 4 + body-length bytes: the first four read back as the body length, and the rest are exactly the serialized body. |
| `Coder.Frame` | src/main/java/coder/NettyKryoEncoder.java:22-26 | a frame is 4 bytes longer than its body. Its first four bytes read as the body length in network byte order. The bytes after them are the body, with no padding or trailer. |
| `Entity.IsInstance` | src/main/java/coder/NettyKryoEncoder.java:18 | `genericClass.isInstance(o)`: a value matches exactly when its constructor's class tag is the configured class |
| `Entity.InstanceOfExactlyOneClass` | src/main/java/coder/NettyKryoEncoder.java:18 | every value is an instance of exactly one class tag, so an encoder drops every value of the other class |
| `Coder.FrameCharacterization` | src/main/java/coder/NettyKryoEncoder.java:22-26 | a byte string is the frame of a body if and only if it has the length, prefix and suffix that `Frame` promises |
| `Coder.Frames` | src/main/java/coder/NettyKryoEncoder.java:24-26 | a stream of back-to-back frames is exactly 4 bytes per frame plus all body bytes long, with nothing between frames; its structure is given by `FramesHead` |
| `Coder.FramesHead` | src/main/java/coder/NettyKryoEncoder.java:24-26 | in a stream of frames, the first prefix gives the first body's length and that body follows it. What remains after the body is the stream of the remaining frames. |
| `Coder.FramesInjective` | src/main/java/coder/NettyKryoEncoder.java:24-26 | two streams of frames are equal if and only if they carry the same bodies in the same order. The framing is self-delimiting, so no body is lost, merged or duplicated. |
| `Coder.EncodeInOrder` | src/main/java/coder/NettyKryoEncoder.java:24-26 | encoding two matching, serializable values one after the other leaves the old bytes followed by the first frame and then the second |
| `Buffers.ByteBuf.WriteInt` | src/main/java/coder/NettyKryoEncoder.java:24 | `writeInt` appends the 4 big-endian bytes of the value and advances the writer index by 4 |
| `Buffers.ByteBuf.WriteBytes` | src/main/java/coder/NettyKryoEncoder.java:26 | `writeBytes` appends the array unchanged and advances the writer index by its length |
| `BigEndian.Int32ToBE` | src/main/java/coder/NettyKryoEncoder.java:22-24 | the bytes `writeInt` emits for a Java `int` read back, as unsigned, as the value modulo 2^32. For a non-negative value such as an array length, they are exactly `BE32` of it. |
| `BigEndian.ReadInt32OfInt32ToBE` | src/main/java/coder/NettyKryoEncoder.java:24 | reading the 4 written bytes back as a signed `int` gives the value written, for every `int` |
| `BigEndian.ReadInt32BE` | src/main/java/coder/NettyKryoEncoder.java:24 | a read-side helper that serves only to state `ReadInt32OfInt32ToBE`: the signed reading of four bytes agrees with their unsigned reading modulo 2^32 |
| `BigEndian.ReadBE32OfBE32` | src/main/java/coder/NettyKryoEncoder.java:22-24 | reading a prefix back as an unsigned 32-bit big-endian value gives the length that was written |
| `BigEndian.BE32OfReadBE32` | src/main/java/coder/NettyKryoEncoder.java:22-24 | every 4-byte string is the prefix of exactly the value it reads as |
| `BigEndian.BE32Injective` | src/main/java/coder/NettyKryoEncoder.java:22-24 | two lengths have the same prefix if and only if they are equal |
| `BigEndian.BE32Bytes` | src/main/java/coder/NettyKryoEncoder.java:24 | the prefix is in network byte order: the most significant byte comes first, down to the least significant byte |
| `BigEndian.FromToBigEndian` | src/main/java/coder/NettyKryoEncoder.java:24 | big-endian encoding at any width followed by decoding gives back the number |
| `BigEndian.ToFromBigEndian` | src/main/java/coder/NettyKryoEncoder.java:24 | big-endian decoding of any byte string followed by re-encoding at the same width gives back the string |

## Left out

- Netty's `ByteBuf` is not part of this model beyond the append behaviour of `writeInt` and `writeBytes` that the encoder relies on. Its `maxCapacity` check, reader index, reference counting and release are left out. The buffer is unbounded here.
- Where `MessageToByteEncoder` takes the buffer from and how it flushes the buffer to the channel is Netty plumbing. It is not part of this model.
- Only `RPCRequest` and `RPCResponse` are modelled as message values. Other Java objects, `null`, and subclassing under `isInstance` are not modelled.
- `KryoSerializer` (its Kryo registrations, the `ThreadLocal` cache and the byte format) is not modelled. The serializer is an abstract, deterministic, possibly-throwing function. `deserialize` is not modelled, because no component of this model calls it.
- The frame decoder `coder.NettyKryoDecoder` is not part of this model. `ReadBE32`, `FramesHead` and `FramesInjective` state what the wire format lets a reader recover. They do not describe that decoder's buffering or state machine.
- `NettyClient` is left out: its event loop, bootstrap, 5000 ms connect timeout, blocking `sync()` calls, logging and `main`. This is transport I/O and concurrency.
- `NettyClientHandler` is left out: it stores the response in a channel attribute and closes the channel. This is a Netty callback.
- `NettyServerHandler` is left out: its canned response, `AtomicInteger` counter, close-after-write listener and `release`. This is pipeline glue and a concurrent counter.
