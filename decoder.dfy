/** The byte-order decoder of the Exif reader. The TIFF header of an Exif
    segment starts with "II" (Intel, little-endian) or "MM" (Motorola,
    big-endian), section 2 of TIFF 6.0; every 2- and 4-byte field after it is
    an unsigned integer in that byte order. */
module Decoder {
  import opened Bytes

  datatype ByteOrder = LittleEndian | BigEndian

  const II: seq<Byte> := [0x49, 0x49]
  const MM: seq<Byte> := [0x4D, 0x4D]

  /** The order an alignment selects: anything other than "II", even an
      invalid alignment, selects big-endian */
  function OrderOf(align: seq<Byte>): (order: ByteOrder)
    ensures order == LittleEndian <==> align == II
  {
    if align == II then LittleEndian else BigEndian
  }

  /** `decode_bytes`: 0 for no bytes, an unsigned 16- or 32-bit value for 2 or
      4 bytes, and no value for any other length */
  function DecodeUint(order: ByteOrder, b: seq<Byte>): (r: Option<nat>)
    ensures r.Some? <==> |b| == 0 || |b| == 2 || |b| == 4
    ensures |b| == 0 ==> r == Some(0)
    ensures |b| == 2 ==> r.value < 0x1_0000
    ensures |b| == 4 ==> r.value < 0x1_0000_0000
  {
    if |b| == 0 then Some(0)
    else if |b| == 2 then
      var little := if order == LittleEndian then b else Reverse(b);
      var b0: int, b1: int := little[0], little[1];
      Some(b0 + 0x100 * b1)
    else if |b| == 4 then
      var little := if order == LittleEndian then b else Reverse(b);
      var b0: int, b1: int, b2: int, b3: int := little[0], little[1], little[2], little[3];
      Some(b0 + 0x100 * b1 + 0x1_0000 * b2 + 0x100_0000 * b3)
    else None
  }

  /** The `width` bytes that store v in the given order: the inverse of DecodeUint */
  function EncodeUint(order: ByteOrder, v: nat, width: nat): (b: seq<Byte>)
    requires width == 2 || width == 4
    requires width == 2 ==> v < 0x1_0000
    requires width == 4 ==> v < 0x1_0000_0000
    ensures |b| == width
  {
    var little := if width == 2 then [v % 0x100, v / 0x100]
                  else [v % 0x100, (v / 0x100) % 0x100, (v / 0x1_0000) % 0x100, v / 0x100_0000];
    if order == LittleEndian then little else Reverse(little)
  }

  function Reverse(b: seq<Byte>): (r: seq<Byte>)
    ensures |r| == |b|
    ensures forall i :: 0 <= i < |b| ==> r[i] == b[|b| - 1 - i]
  {
    if b == [] then [] else Reverse(b[1..]) + [b[0]]
  }

  lemma DivMod256(x: int, lo: int, hi: int)
    requires 0 <= lo < 0x100 && x == lo + 0x100 * hi
    ensures x % 0x100 == lo && x / 0x100 == hi
  {
  }

  lemma DecodeEncode(order: ByteOrder, v: nat, width: nat)
    requires width == 2 || width == 4
    requires width == 2 ==> v < 0x1_0000
    requires width == 4 ==> v < 0x1_0000_0000
    ensures DecodeUint(order, EncodeUint(order, v, width)) == Some(v)
  {
    if width == 4 {
      var q1 := v / 0x100;
      var q2 := q1 / 0x100;
      var q3 := q2 / 0x100;
      DivMod256(v, v % 0x100, q1);
      DivMod256(q1, q1 % 0x100, q2);
      DivMod256(q2, q2 % 0x100, q3);
      assert v / 0x1_0000 == q2;
      assert v / 0x100_0000 == q3;
      var little := [v % 0x100, q1 % 0x100, q2 % 0x100, q3];
      assert EncodeUint(LittleEndian, v, width) == little;
      assert Reverse(Reverse(little)) == little;
    }
  }

  lemma EncodeDecode(order: ByteOrder, b: seq<Byte>)
    requires |b| == 2 || |b| == 4
    ensures EncodeUint(order, DecodeUint(order, b).value, |b|) == b
  {
    var v := DecodeUint(order, b).value;
    if |b| == 4 {
      var little := if order == LittleEndian then b else Reverse(b);
      var b0: int, b1: int, b2: int, b3: int := little[0], little[1], little[2], little[3];
      assert v == b0 + 0x100 * (b1 + 0x100 * (b2 + 0x100 * b3));
      DivMod256(v, b0, b1 + 0x100 * (b2 + 0x100 * b3));
      DivMod256(b1 + 0x100 * (b2 + 0x100 * b3), b1, b2 + 0x100 * b3);
      DivMod256(b2 + 0x100 * b3, b2, b3);
      assert v / 0x1_0000 == b2 + 0x100 * b3;
      assert v / 0x100_0000 == b3;
      assert EncodeUint(LittleEndian, v, 4) == little;
      if order == BigEndian {
        assert Reverse(little) == b;
      }
    }
  }

  /** The values `struct.unpack` gives for '<H', '>H', '<I' and '>I' */
  lemma DecodeUintFormulas(b: seq<Byte>)
    ensures |b| == 2 ==> DecodeUint(LittleEndian, b) == Some(b[0] as int + 0x100 * b[1] as int)
    ensures |b| == 2 ==> DecodeUint(BigEndian, b) == Some(0x100 * b[0] as int + b[1] as int)
    ensures |b| == 4 ==>
              DecodeUint(LittleEndian, b) ==
              Some(b[0] as int + 0x100 * b[1] as int + 0x1_0000 * b[2] as int + 0x100_0000 * b[3] as int)
    ensures |b| == 4 ==>
              DecodeUint(BigEndian, b) ==
              Some(0x100_0000 * b[0] as int + 0x1_0000 * b[1] as int + 0x100 * b[2] as int + b[3] as int)
  {
  }

  /** Little-endian reads the bytes in the opposite order of big-endian */
  lemma LittleIsReversedBig(b: seq<Byte>)
    ensures DecodeUint(LittleEndian, b) == DecodeUint(BigEndian, Reverse(b))
  {
  }

  /** `ExifDecoder`: holds the byte order for a run of decodes */
  class ExifDecoder {
    var byteorder: ByteOrder

    /** Little-endian when no alignment is given, otherwise the order it selects */
    constructor (endian: Option<seq<Byte>>)
      ensures endian.None? ==> byteorder == LittleEndian
      ensures endian.Some? ==> byteorder == OrderOf(endian.value)
    {
      byteorder := LittleEndian;
      new;
      if endian.Some? {
        SetByteOrder(endian.value);
      }
    }

    /** `set_byteorder(bytealign)`; for an alignment other than "II" or "MM"
        the source also prints a warning */
    method SetByteOrder(bytealign: seq<Byte>)
      modifies this
      ensures byteorder == OrderOf(bytealign)
      ensures byteorder == LittleEndian <==> bytealign == II
    {
      byteorder := if bytealign == II then LittleEndian else BigEndian;
    }

    function DecodeBytes(b: seq<Byte>): Option<nat>
      reads this
    {
      DecodeUint(byteorder, b)
    }
  }
}
