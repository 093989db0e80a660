/**
 * Network byte order. The length prefix of a frame is written with
 * `ByteBuf.writeInt`, which emits the four bytes of a 32-bit two's complement
 * integer, most significant byte first.
 */
module BigEndian {

  newtype byte = b: int | 0 <= b < 0x100

  /** Java's `int`. */
  newtype int32 = x: int | -0x8000_0000 <= x < 0x8000_0000

  const TWO_TO_THE_32: nat := 0x1_0000_0000

  function Pow256(k: nat): (p: nat)
    ensures p > 0
  {
    if k == 0 then 1 else 0x100 * Pow256(k - 1)
  }

  /** The `width` bytes of `n`, most significant first. */
  function ToBigEndian(n: nat, width: nat): (s: seq<byte>)
    requires n < Pow256(width)
    ensures |s| == width
  {
    if width == 0 then [] else ToBigEndian(n / 0x100, width - 1) + [(n % 0x100) as byte]
  }

  /** The unsigned value of a big-endian byte string. */
  function FromBigEndian(s: seq<byte>): (n: nat)
    ensures n < Pow256(|s|)
  {
    if s == [] then 0 else FromBigEndian(s[..|s| - 1]) * 0x100 + s[|s| - 1] as nat
  }

  lemma {:induction false} FromToBigEndian(n: nat, width: nat)
    requires n < Pow256(width)
    ensures FromBigEndian(ToBigEndian(n, width)) == n
  {
    if width > 0 {
      var s := ToBigEndian(n, width);
      assert s[..|s| - 1] == ToBigEndian(n / 0x100, width - 1);
      FromToBigEndian(n / 0x100, width - 1);
    }
  }

  lemma {:induction false} ToFromBigEndian(s: seq<byte>)
    ensures ToBigEndian(FromBigEndian(s), |s|) == s
  {
    if s != [] {
      var init := s[..|s| - 1];
      ToFromBigEndian(init);
      assert s == init + [s[|s| - 1]];
    }
  }

  lemma Pow256Of4()
    ensures Pow256(4) == TWO_TO_THE_32
  {
  }

  /** The four bytes of an unsigned 32-bit value, in network byte order. */
  function BE32(n: nat): (r: seq<byte>)
    requires n < TWO_TO_THE_32
    ensures |r| == 4
  {
    Pow256Of4();
    ToBigEndian(n, 4)
  }

  /** Reads four bytes in network byte order as an unsigned 32-bit value. */
  function ReadBE32(s: seq<byte>): (n: nat)
    requires |s| == 4
    ensures n < TWO_TO_THE_32
  {
    Pow256Of4();
    FromBigEndian(s)
  }

  /** Reading back the prefix written for `n` gives `n`. */
  lemma ReadBE32OfBE32(n: nat)
    requires n < TWO_TO_THE_32
    ensures ReadBE32(BE32(n)) == n
  {
    Pow256Of4();
    FromToBigEndian(n, 4);
  }

  /** Every four-byte string is the prefix of exactly the value it reads as. */
  lemma BE32OfReadBE32(s: seq<byte>)
    requires |s| == 4
    ensures BE32(ReadBE32(s)) == s
  {
    Pow256Of4();
    ToFromBigEndian(s);
  }

  /** The prefix is determined by its value and vice versa. */
  lemma BE32Injective(m: nat, n: nat)
    requires m < TWO_TO_THE_32 && n < TWO_TO_THE_32
    ensures BE32(m) == BE32(n) <==> m == n
  {
    if BE32(m) == BE32(n) {
      ReadBE32OfBE32(m);
      ReadBE32OfBE32(n);
    }
  }

  /** Byte by byte: the most significant byte comes first. */
  lemma BE32Bytes(n: nat)
    requires n < TWO_TO_THE_32
    ensures BE32(n) == [(n / 0x100_0000) as byte, (n / 0x1_0000 % 0x100) as byte,
                        (n / 0x100 % 0x100) as byte, (n % 0x100) as byte]
  {
    Pow256Of4();
    var q1 := n / 0x100;
    var q2 := q1 / 0x100;
    var q3 := q2 / 0x100;
    assert q2 == n / 0x1_0000;
    assert q3 == n / 0x100_0000;
    assert q3 / 0x100 == 0;
    calc {
      ToBigEndian(n, 4);
      ToBigEndian(q1, 3) + [(n % 0x100) as byte];
      ToBigEndian(q2, 2) + [(q1 % 0x100) as byte] + [(n % 0x100) as byte];
      ToBigEndian(q3, 1) + [(q2 % 0x100) as byte] + [(q1 % 0x100) as byte] + [(n % 0x100) as byte];
      [(q3 % 0x100) as byte] + [(q2 % 0x100) as byte] + [(q1 % 0x100) as byte] + [(n % 0x100) as byte];
    }
  }

  /**
   * What `ByteBuf.writeInt(v)` emits: the two's complement bit pattern of `v`
   * in network byte order. Read back as unsigned, it is `v` modulo 2^32.
   */
  function Int32ToBE(v: int32): (r: seq<byte>)
    ensures |r| == 4
    ensures ReadBE32(r) == (v as int) % TWO_TO_THE_32
    ensures v >= 0 ==> r == BE32(v as nat)
  {
    var unsigned := (v as int) % TWO_TO_THE_32;
    ReadBE32OfBE32(unsigned);
    BE32(unsigned)
  }

  /**
   * The signed reading of four bytes in network byte order. It serves only to
   * state that `writeInt` loses nothing (`ReadInt32OfInt32ToBE`).
   */
  function ReadInt32BE(s: seq<byte>): (v: int32)
    requires |s| == 4
    ensures (v as int) % TWO_TO_THE_32 == ReadBE32(s)
  {
    var n := ReadBE32(s);
    if n < 0x8000_0000 then n as int32 else (n - TWO_TO_THE_32) as int32
  }

  /** `writeInt` loses nothing: the signed reading of its bytes is the value written. */
  lemma ReadInt32OfInt32ToBE(v: int32)
    ensures ReadInt32BE(Int32ToBE(v)) == v
  {
  }
}
