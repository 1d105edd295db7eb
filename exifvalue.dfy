/** Rendering of an Exif field value for display, by its Exif datatype code
    (section 4.6.2 of Exif 2.3), and the metadata records the reader writes. */
module ExifValue {
  import opened Bytes
  import opened Text
  import opened Decoder

  /** What the source stores as the displayed value: normally a string, but the
      UNDEFINED path stores an int and the JFIF identifier stores raw bytes */
  datatype Display = Text(s: string) | Int(n: int) | Raw(b: seq<Byte>)

  /** The tag-number, datatype and count slots of a record: the empty string
      for non-Exif records, an int, or None when decoding the field failed */
  datatype Field = Blank | Num(n: nat) | NoneValue

  function OptField(o: Option<nat>): Field
  {
    match o
    case None => NoneValue
    case Some(n) => Num(n)
  }

  /** The value tuple of the metadata dictionary, keyed by "category|tagname" */
  datatype MetaValue = MetaValue(display: Display, tagNo: string, dataType: Field, count: Field)

  type MetaDict = map<string, MetaValue>

  /** One character per byte, with the 8th bit cleared (`byte & 0x7F`) */
  function Ascii7(b: seq<Byte>): string
  {
    seq(|b|, i requires 0 <= i < |b| => (b[i] % 0x80) as char)
  }

  /** `str(decode(...))` of a slice of the stored bytes */
  function Decoded(order: ByteOrder, b: seq<Byte>, i: nat, j: nat): string
    requires i <= j
  {
    OptText(DecodeUint(order, Slice(b, i, j)))
  }

  /** `exifdata_tostring(stored_bytes, datatype, decoder)` for a decoder in the
      given byte order. The datatype is None when the reader could not decode
      it; it then takes the fallback path, as an unknown code does. */
  function RenderValue(b: seq<Byte>, dataType: Option<nat>, order: ByteOrder): (r: Result<Display>)
    ensures r.Err? <==> (dataType == Some(1) && |b| != 1) || dataType == Some(6) || (dataType == Some(7) && |b| == 0)
    ensures dataType == Some(2) ==> r.Ok? && r.value.Text? && |r.value.s| == |b|
    ensures dataType.None? ==> r == Ok(Text(BytesRepr(b)))
  {
    match dataType
    case None => Ok(Text(BytesRepr(b)))
    case Some(t) =>
      if t == 1 then
        // BYTE: struct.unpack('B', ...) accepts exactly one byte
        if |b| == 1 then Ok(Text(NatToString(b[0]))) else Err(StructError)
      else if t == 2 then Ok(Text(Ascii7(b)))
      // SSHORT, SLONG and SRATIONAL (8, 9, 10) take the unsigned paths
      else if t == 3 || t == 8 then Ok(Text(Decoded(order, b, 0, 2)))
      else if t == 4 || t == 9 then Ok(Text(Decoded(order, b, 0, 4)))
      else if t == 5 || t == 10 then Ok(Text(Decoded(order, b, 0, 4) + "/" + Decoded(order, b, 4, 8)))
      else if t == 6 then
        // SBYTE: struct.unpack_from is handed an int, or indexing fails first
        if |b| == 0 then Err(IndexError) else Err(TypeError)
      else if t == 7 then
        // UNDEFINED: the first byte itself, an int
        if |b| == 0 then Err(IndexError) else Ok(Int(b[0]))
      else Ok(Text(BytesRepr(b)))
  }

  /** The ASCII branch of `exifdata_tostring`: a loop appending one character
      per stored byte */
  method AsciiToString(storedBytes: seq<Byte>) returns (s: string)
    ensures |s| == |storedBytes|
    ensures forall i :: 0 <= i < |s| ==> s[i] as int == storedBytes[i] % 0x80
  {
    s := "";
    var k := 0;
    while k < |storedBytes|
      invariant 0 <= k <= |storedBytes|
      invariant |s| == k
      invariant forall i :: 0 <= i < k ==> s[i] as int == storedBytes[i] % 0x80
    {
      s := s + [(storedBytes[k] % 0x80) as char];
      k := k + 1;
    }
  }

  /** `exifdata_tostring`, dispatching on the datatype code */
  method ExifDataToString(storedBytes: seq<Byte>, dataType: Option<nat>, decoder: ExifDecoder)
    returns (r: Result<Display>)
    ensures r == RenderValue(storedBytes, dataType, decoder.byteorder)
  {
    if dataType == Some(2) {
      var s := AsciiToString(storedBytes);
      assert s == Ascii7(storedBytes);
      r := Ok(Text(s));
    } else {
      r := RenderValue(storedBytes, dataType, decoder.byteorder);
    }
  }

  /** SHORT renders the first two bytes and LONG the first four; the signed
      types take the same unsigned path */
  lemma RenderIntegers(b: seq<Byte>, order: ByteOrder)
    requires |b| >= 4
    ensures RenderValue(b, Some(3), order) == Ok(Text(NatToString(DecodeUint(order, b[..2]).value)))
    ensures RenderValue(b, Some(4), order) == Ok(Text(NatToString(DecodeUint(order, b[..4]).value)))
    ensures RenderValue(b, Some(8), order) == RenderValue(b, Some(3), order)
    ensures RenderValue(b, Some(9), order) == RenderValue(b, Some(4), order)
    ensures RenderValue(b, Some(10), order) == RenderValue(b, Some(5), order)
  {
    assert Slice(b, 0, 2) == b[..2];
    assert Slice(b, 0, 4) == b[..4];
  }

  /** RATIONAL and SRATIONAL render "numerator/denominator" from bytes 0-3 and
      4-7, and the text splits back into the two values at the '/' */
  lemma RenderRational(b: seq<Byte>, order: ByteOrder, dataType: nat)
    requires |b| >= 8 && (dataType == 5 || dataType == 10)
    ensures var n := DecodeUint(order, b[..4]).value;
            var d := DecodeUint(order, b[4..8]).value;
            RenderValue(b, Some(dataType), order) == Ok(Text(NatToString(n) + "/" + NatToString(d)))
    ensures var s := RenderValue(b, Some(dataType), order).value.s;
            var k := |NatToString(DecodeUint(order, b[..4]).value)|;
            k < |s| && s[k] == '/' && (forall i :: 0 <= i < k ==> IsDigit(s[i])) &&
            ParseDecimal(s[..k]) == DecodeUint(order, b[..4]).value &&
            (forall i :: k < i < |s| ==> IsDigit(s[i])) &&
            ParseDecimal(s[k + 1..]) == DecodeUint(order, b[4..8]).value
  {
    var n := DecodeUint(order, b[..4]).value;
    var d := DecodeUint(order, b[4..8]).value;
    assert Slice(b, 0, 4) == b[..4];
    assert Slice(b, 4, 8) == b[4..8];
    var s := NatToString(n) + "/" + NatToString(d);
    var k := |NatToString(n)|;
    assert s[..k] == NatToString(n);
    assert s[k + 1..] == NatToString(d);
    DecimalRoundTrip(n);
    DecimalRoundTrip(d);
  }

  /** A directory entry's value field is 4 bytes, so a RATIONAL read from it
      always shows a denominator of 0: bytes 4-7 are not there */
  lemma RenderRationalFromField(b: seq<Byte>, order: ByteOrder)
    requires |b| == 4
    ensures RenderValue(b, Some(5), order) == Ok(Text(NatToString(DecodeUint(order, b).value) + "/0"))
  {
    assert Slice(b, 0, 4) == b;
    assert Slice(b, 4, 8) == [];
    assert NatToString(0) == "0";
    assert Decoded(order, b, 4, 8) == "0";
    var n := Decoded(order, b, 0, 4);
    assert n + "/" + "0" == n + "/0";
  }

  /** The worked example: bytes 01 00 as SHORT */
  lemma RenderShortExample()
    ensures RenderValue([0x01, 0x00], Some(3), LittleEndian) == Ok(Text("1"))
    ensures RenderValue([0x01, 0x00], Some(3), BigEndian) == Ok(Text("256"))
  {
    assert Slice([0x01, 0x00], 0, 2) == [0x01, 0x00];
    assert Reverse([0x01, 0x00]) == [0x00, 0x01];
    assert DecodeUint(BigEndian, [0x01, 0x00]) == Some(256);
    assert NatToString(2) == "2";
    assert NatToString(25) == NatToString(2) + "5";
    assert NatToString(256) == NatToString(25) + "6";
    assert NatToString(256) == "256";
  }

  /** ASCII keeps every byte's position and clears only its top bit */
  lemma RenderAscii(b: seq<Byte>, order: ByteOrder)
    ensures RenderValue(b, Some(2), order).value.s == Ascii7(b)
    ensures forall i :: 0 <= i < |b| ==> RenderValue(b, Some(2), order).value.s[i] as int < 0x80
    ensures forall i :: 0 <= i < |b| && b[i] < 0x80 ==> RenderValue(b, Some(2), order).value.s[i] as int == b[i]
  {
  }

  /** An unknown datatype shows the untouched bytes, recoverable from the text */
  lemma RenderUnknown(b: seq<Byte>, dataType: nat, order: ByteOrder)
    requires dataType == 0 || dataType > 10
    ensures RenderValue(b, Some(dataType), order) == Ok(Text(BytesRepr(b)))
    ensures var s := BytesRepr(b); UnreprBody(s[2..|s| - 1]) == b
  {
    BytesReprRoundTrip(b);
  }
}
