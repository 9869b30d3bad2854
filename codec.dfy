/** The byte-order-dependent decode that Device.Read performs with
    binary.Read, and the encoding it inverts. A record is 24 bytes: two
    8-byte time words, a 2-byte type, a 2-byte code and a 4-byte value, each
    stored in the host's byte order. */
module EventCodec {
  import opened Events
  import opened Seqs

  type Byte = b: int | 0 <= b < 0x100

  const RecordSize: nat := 24

  function Pow256(n: nat): (r: nat)
    ensures r >= 1
  {
    if n == 0 then 1 else 256 * Pow256(n - 1)
  }

  /** The unsigned value of bytes stored least significant first. */
  function UintLE(bs: seq<Byte>): (v: nat)
    ensures v < Pow256(|bs|)
  {
    if bs == [] then 0 else bs[0] + 256 * UintLE(bs[1..])
  }

  /** The n bytes of v, least significant first (v is taken modulo 256^n). */
  function BytesLE(v: nat, n: nat): (bs: seq<Byte>)
    ensures |bs| == n
  {
    if n == 0 then [] else [v % 256] + BytesLE(v / 256, n - 1)
  }

  /** The unsigned value of bytes stored in the given byte order. */
  function Uint(bs: seq<Byte>, littleEndian: bool): (v: nat)
    ensures v < Pow256(|bs|)
  {
    if littleEndian then UintLE(bs) else UintLE(Reverse(bs))
  }

  /** The n bytes of v in the given byte order. */
  function UintBytes(v: nat, n: nat, littleEndian: bool): (bs: seq<Byte>)
    ensures |bs| == n
  {
    if littleEndian then BytesLE(v, n) else Reverse(BytesLE(v, n))
  }

  lemma {:induction false} UintLEOfBytesLE(v: nat, n: nat)
    requires v < Pow256(n)
    ensures UintLE(BytesLE(v, n)) == v
  {
    if n > 0 {
      UintLEOfBytesLE(v / 256, n - 1);
    }
  }

  lemma {:induction false} BytesLEOfUintLE(bs: seq<Byte>)
    ensures BytesLE(UintLE(bs), |bs|) == bs
  {
    if bs != [] {
      BytesLEOfUintLE(bs[1..]);
      assert UintLE(bs) % 256 == bs[0];
      assert UintLE(bs) / 256 == UintLE(bs[1..]);
    }
  }

  /** Writing a field and reading it back gives the value, in either order. */
  lemma UintOfUintBytes(v: nat, n: nat, littleEndian: bool)
    requires v < Pow256(n)
    ensures Uint(UintBytes(v, n, littleEndian), littleEndian) == v
  {
    UintLEOfBytesLE(v, n);
    if !littleEndian {
      ReverseReverse(BytesLE(v, n));
    }
  }

  /** Reading a field and writing it back gives the bytes, in either order. */
  lemma UintBytesOfUint(bs: seq<Byte>, littleEndian: bool)
    ensures UintBytes(Uint(bs, littleEndian), |bs|, littleEndian) == bs
  {
    if littleEndian {
      BytesLEOfUintLE(bs);
    } else {
      BytesLEOfUintLE(Reverse(bs));
      ReverseReverse(bs);
    }
  }

  /** The int32 whose two's-complement bit pattern is u. */
  function ToInt32(u: nat): (x: I32)
    requires u < 0x1_0000_0000
    ensures FromInt32(x) == u
  {
    if u < 0x8000_0000 then u else u - 0x1_0000_0000
  }

  /** The two's-complement bit pattern of x. */
  function FromInt32(x: I32): (u: nat)
    ensures u < 0x1_0000_0000
  {
    if x >= 0 then x else x + 0x1_0000_0000
  }

  /** Every int32 is the int32 of its own bit pattern. */
  lemma Int32RoundTrip(x: I32)
    ensures ToInt32(FromInt32(x)) == x
  {
  }

  /** binary.Read of an Event from 24 bytes in the given byte order. Every
      record is the encoding of the event it decodes to, so decoding loses
      nothing and no two records decode to the same event. */
  function Decode(bs: seq<Byte>, littleEndian: bool): (e: Event)
    requires |bs| == RecordSize
    ensures Encode(e, littleEndian) == bs
  {
    UintBytesOfUint(bs[0..8], littleEndian);
    UintBytesOfUint(bs[8..16], littleEndian);
    UintBytesOfUint(bs[16..18], littleEndian);
    UintBytesOfUint(bs[18..20], littleEndian);
    UintBytesOfUint(bs[20..24], littleEndian);
    assert Pow256(4) == 0x1_0000_0000;
    assert bs == bs[0..8] + bs[8..16] + bs[16..18] + bs[18..20] + bs[20..24];
    Event(Uint(bs[0..8], littleEndian),
          Uint(bs[8..16], littleEndian),
          Uint(bs[16..18], littleEndian),
          Uint(bs[18..20], littleEndian),
          ToInt32(Uint(bs[20..24], littleEndian)))
  }

  /** The 24 bytes binary.Write would produce for e in the given byte order. */
  function Encode(e: Event, littleEndian: bool): (bs: seq<Byte>)
    ensures |bs| == RecordSize
  {
    UintBytes(e.seconds, TimeWordSize, littleEndian) +
    UintBytes(e.microseconds, TimeWordSize, littleEndian) +
    UintBytes(e.eventType, TypeSize, littleEndian) +
    UintBytes(e.code, CodeSize, littleEndian) +
    UintBytes(FromInt32(e.value), ValueSize, littleEndian)
  }

  /** The record's layout: seconds in bytes 0-7, microseconds in 8-15, type
      in 16-17, code in 18-19 and the value's bit pattern in 20-23, each as
      wide as its field and in the given byte order. */
  lemma EncodeLayout(e: Event, littleEndian: bool)
    ensures var bs := Encode(e, littleEndian);
      bs[0..TimeWordSize] == UintBytes(e.seconds, TimeWordSize, littleEndian) &&
      bs[TimeWordSize..2 * TimeWordSize] == UintBytes(e.microseconds, TimeWordSize, littleEndian) &&
      bs[16..16 + TypeSize] == UintBytes(e.eventType, TypeSize, littleEndian) &&
      bs[18..18 + CodeSize] == UintBytes(e.code, CodeSize, littleEndian) &&
      bs[20..20 + ValueSize] == UintBytes(FromInt32(e.value), ValueSize, littleEndian)
  {
  }

  /** Decoding an encoded event gives the event back, under either byte order. */
  lemma DecodeEncode(e: Event, littleEndian: bool)
    ensures Decode(Encode(e, littleEndian), littleEndian) == e
  {
    var bs := Encode(e, littleEndian);
    assert Pow256(8) == 0x1_0000_0000_0000_0000;
    assert Pow256(2) == 0x1_0000;
    assert Pow256(4) == 0x1_0000_0000;
    EncodeLayout(e, littleEndian);
    UintOfUintBytes(e.seconds, 8, littleEndian);
    UintOfUintBytes(e.microseconds, 8, littleEndian);
    UintOfUintBytes(e.eventType, 2, littleEndian);
    UintOfUintBytes(e.code, 2, littleEndian);
    UintOfUintBytes(FromInt32(e.value), 4, littleEndian);
    Int32RoundTrip(e.value);
  }

  lemma UintLETwo(x: seq<Byte>)
    requires |x| == 2
    ensures UintLE(x) == (x[0] as int) + 256 * (x[1] as int)
  {
    assert x[1..][1..] == [];
    assert UintLE(x[1..]) == x[1] as int;
  }

  lemma UintLEFour(x: seq<Byte>)
    requires |x| == 4
    ensures UintLE(x) == (x[0] as int) + 256 * ((x[1] as int) + 256 * ((x[2] as int) + 256 * (x[3] as int)))
  {
    assert x[1..][1..] == x[2..];
    UintLETwo(x[2..]);
  }

  /** The 16-bit fields spelled out byte by byte: little-endian takes the
      first byte as the low one, big-endian as the high one. */
  lemma DecodeShortFields(bs: seq<Byte>)
    requires |bs| == RecordSize
    ensures Decode(bs, true).eventType == (bs[16] as int) + 256 * (bs[17] as int)
    ensures Decode(bs, false).eventType == 256 * (bs[16] as int) + (bs[17] as int)
    ensures Decode(bs, true).code == (bs[18] as int) + 256 * (bs[19] as int)
    ensures Decode(bs, false).code == 256 * (bs[18] as int) + (bs[19] as int)
  {
    UintLETwo(bs[16..18]);
    UintLETwo(bs[18..20]);
    UintLETwo(Reverse(bs[16..18]));
    UintLETwo(Reverse(bs[18..20]));
  }

  /** The value is negative exactly when the sign bit, the top bit of its most
      significant byte (byte 23 little-endian, byte 20 big-endian), is set. */
  lemma DecodeValueSign(bs: seq<Byte>)
    requires |bs| == RecordSize
    ensures Decode(bs, true).value < 0 <==> (bs[23] as int) >= 0x80
    ensures Decode(bs, false).value < 0 <==> (bs[20] as int) >= 0x80
  {
    UintLEFour(bs[20..24]);
    UintLEFour(Reverse(bs[20..24]));
  }

  /** Zero bytes decode to zero in either order. */
  lemma {:induction false} UintOfZeros(n: nat, littleEndian: bool)
    ensures Uint(Zeros(n), littleEndian) == 0
  {
    if n > 0 {
      UintOfZeros(n - 1, true);
      assert Zeros(n)[1..] == Zeros(n - 1);
    }
    if !littleEndian {
      assert Reverse(Zeros(n)) == Zeros(n);
    }
  }

  function Zeros(n: nat): (z: seq<Byte>)
    ensures |z| == n && forall i :: 0 <= i < n ==> z[i] == 0
  {
    seq(n, _ => 0)
  }
}
