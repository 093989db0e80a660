/**
 * The length-prefixed frame encoder. A frame is a four-byte big-endian length
 * followed by exactly that many body bytes; the body is whatever the
 * serializer produced for the message.
 */
module Coder {
  import opened BigEndian
  import opened Results
  import opened Entity
  import opened Serialize
  import opened Buffers

  /** The frame carrying `body`: its length prefix, then the body itself. */
  function Frame(body: JavaBytes): (f: seq<byte>)
    ensures |f| == 4 + |body|
    ensures ReadBE32(f[..4]) == |body|
    ensures f[4..] == body
  {
    ReadBE32OfBE32(|body|);
    assert (BE32(|body|) + body)[..4] == BE32(|body|);
    BE32(|body|) + body
  }

  /** The three facts of `Frame`'s contract pin the frame down completely. */
  lemma FrameCharacterization(f: seq<byte>, body: JavaBytes)
    ensures f == Frame(body) <==> |f| == 4 + |body| && ReadBE32(f[..4]) == |body| && f[4..] == body
  {
    if |f| == 4 + |body| && ReadBE32(f[..4]) == |body| && f[4..] == body {
      BE32OfReadBE32(f[..4]);
      assert f == f[..4] + f[4..];
      assert Frame(body) == Frame(body)[..4] + Frame(body)[4..];
      BE32OfReadBE32(Frame(body)[..4]);
    }
  }

  /** The number of body bytes in `bodies`, all together. */
  function BodyBytes(bodies: seq<JavaBytes>): nat {
    if bodies == [] then 0 else |bodies[0]| + BodyBytes(bodies[1..])
  }

  /** The byte stream made of one frame per body, back to back, with nothing between. */
  function Frames(bodies: seq<JavaBytes>): (s: seq<byte>)
    ensures |s| == 4 * |bodies| + BodyBytes(bodies)
  {
    if bodies == [] then [] else Frame(bodies[0]) + Frames(bodies[1..])
  }

  /**
   * The first four bytes of a stream of frames announce the length of the first
   * body, that body follows, and the rest is the stream of the remaining frames.
   */
  lemma FramesHead(bodies: seq<JavaBytes>)
    requires bodies != []
    ensures var s, n := Frames(bodies), |bodies[0]|;
      && |s| >= 4 + n
      && ReadBE32(s[..4]) == n
      && s[4..4 + n] == bodies[0]
      && s[4 + n..] == Frames(bodies[1..])
  {
    var s, f := Frames(bodies), Frame(bodies[0]);
    assert s[..4] == f[..4];
    assert s[4..4 + |bodies[0]|] == f[4..];
  }

  /** Frames are self-delimiting: a stream of frames determines the bodies it carries. */
  lemma {:induction false} FramesInjective(xs: seq<JavaBytes>, ys: seq<JavaBytes>)
    ensures Frames(xs) == Frames(ys) <==> xs == ys
  {
    if Frames(xs) == Frames(ys) && xs != [] && ys != [] {
      FramesHead(xs);
      FramesHead(ys);
      FramesInjective(xs[1..], ys[1..]);
      assert xs == [xs[0]] + xs[1..];
      assert ys == [ys[0]] + ys[1..];
    }
  }

  /**
   * What one call of `encode(ctx, o, byteBuf)` does: either the bytes it
   * appends, or the exception it throws (in which case it appends nothing).
   */
  function Encoded(serializer: Serializer, genericClass: Kind, o: Msg): (r: Result<seq<byte>, SerializeException>)
    // a value of another class is dropped silently: nothing written, nothing thrown
    ensures !IsInstance(genericClass, o) ==> r == Success([])
    // a matching value throws exactly when its serialization throws, and with that exception
    ensures IsInstance(genericClass, o) ==> (r.Failure? <==> serializer(o).Failure?)
    ensures r.Failure? ==> serializer(o).Failure? && r.error == serializer(o).error
    // otherwise one frame: a prefix announcing the body's length, then exactly the body
    ensures IsInstance(genericClass, o) && serializer(o).Success? ==>
      var body := serializer(o).value;
      r.Success? && |r.value| == 4 + |body| && ReadBE32(r.value[..4]) == |body| && r.value[4..] == body
  {
    if !IsInstance(genericClass, o) then Success([])
    else
      match serializer(o)
      case Failure(e) => Failure(e)
      case Success(body) => Success(Frame(body))
  }

  /** `NettyKryoEncoder`: frames values of one configured class with a given serializer. */
  class NettyKryoEncoder {
    const serializer: Serializer
    const genericClass: Kind

    constructor (serializer: Serializer, genericClass: Kind)
      ensures this.serializer == serializer && this.genericClass == genericClass
    {
      this.serializer := serializer;
      this.genericClass := genericClass;
    }

    /**
     * Appends the frame of `o` to `byteBuf` when `o` is of the configured class.
     * Serialization happens before the first write, so a throwing serializer
     * leaves the buffer as it was. Bytes already in the buffer are never touched.
     */
    method Encode(o: Msg, byteBuf: ByteBuf) returns (outcome: Outcome<SerializeException>)
      modifies byteBuf
      ensures var r := Encoded(serializer, genericClass, o);
        && (outcome.Pass? <==> r.Success?)
        && (r.Success? ==> byteBuf.bytes == old(byteBuf.bytes) + r.value)
        && (r.Failure? ==> outcome.error == r.error && byteBuf.bytes == old(byteBuf.bytes))
    {
      if IsInstance(genericClass, o) {
        var serialized := serializer(o);
        if serialized.Failure? {
          return Fail(serialized.error);
        }
        var body := serialized.value;
        var dataLength := |body| as int32;
        byteBuf.WriteInt(dataLength);
        byteBuf.WriteBytes(body);
      }
      return Pass;
    }
  }

  /**
   * Two values written one after the other through the same encoder: the
   * buffer ends with the first frame followed by the second.
   */
  method EncodeInOrder(encoder: NettyKryoEncoder, o1: Msg, o2: Msg, byteBuf: ByteBuf)
    returns (outcome1: Outcome<SerializeException>, outcome2: Outcome<SerializeException>)
    modifies byteBuf
    ensures var b1, b2 := encoder.serializer(o1), encoder.serializer(o2);
      IsInstance(encoder.genericClass, o1) && IsInstance(encoder.genericClass, o2) && b1.Success? && b2.Success? ==>
        && outcome1.Pass? && outcome2.Pass?
        && byteBuf.bytes == old(byteBuf.bytes) + Frames([b1.value, b2.value])
  {
    outcome1 := encoder.Encode(o1, byteBuf);
    outcome2 := encoder.Encode(o2, byteBuf);
    var b1, b2 := encoder.serializer(o1), encoder.serializer(o2);
    if IsInstance(encoder.genericClass, o1) && IsInstance(encoder.genericClass, o2) && b1.Success? && b2.Success? {
      FrameCharacterization(Encoded(encoder.serializer, encoder.genericClass, o1).value, b1.value);
      FrameCharacterization(Encoded(encoder.serializer, encoder.genericClass, o2).value, b2.value);
      assert Frames([b2.value]) == Frame(b2.value);
    }
  }
}
