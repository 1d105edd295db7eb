/** The framing checks of the metadata reader (segment marker, Exif
    identifier, JFIF identifier, TIFF header) and the JFIF reader of APP0.
    A check that makes the source print a diagnostic and call `sys.exit()`
    returns `Err(Exit(...))` here. */
module Headers {
  import opened Bytes
  import opened Text
  import opened Decoder
  import opened ExifValue

  /** The marker types `verify_marker` accepts as its argument */
  const MARKER_TYPES: seq<string> := ["SOI", "APP0", "APP1", "APP2", "APP3", "APP12", "APP13", "APP14"]

  const SOI_MARKER: seq<Byte> := [0xFF, 0xD8]

  /** `verify_marker(f, markertype)`: reads two bytes; only an unknown marker
      type or a missing SOI ends processing. A wrong APPn marker only makes the
      source print a message, and reading goes on. */
  function VerifyMarker(data: seq<Byte>, pos: nat, markertype: string): (r: Result<nat>)
    ensures markertype !in MARKER_TYPES ==> r.Err?
    ensures markertype in MARKER_TYPES && markertype != "SOI" ==> r == Ok(Advance(data, pos, 2))
    ensures markertype == "SOI" ==> (r.Ok? <==> pos + 2 <= |data| && data[pos..pos + 2] == SOI_MARKER)
    ensures r.Ok? ==> r.value == Advance(data, pos, 2)
  {
    var marker := Read(data, pos, 2);
    if markertype !in MARKER_TYPES then
      Err(Exit("Unknown marker type passed to verify_marker(): " + markertype))
    else if markertype == "SOI" && marker != SOI_MARKER then
      Err(Exit("ERROR: SOI expected but not found." + BytesRepr(marker)))
    else Ok(Advance(data, pos, 2))
  }

  const EXIF_HEADER: seq<Byte> := Latin1("Exif\0\0")

  /** `verify_exifheader`: the six bytes "Exif\0\0" */
  function VerifyExifHeader(data: seq<Byte>, pos: nat): (r: Result<nat>)
    ensures r.Ok? <==> pos + 6 <= |data| && data[pos..pos + 6] == EXIF_HEADER
    ensures r.Ok? ==> r.value == pos + 6
  {
    var header := Read(data, pos, 6);
    if header != EXIF_HEADER then Err(Exit("INVALID Exif header: " + BytesRepr(header)))
    else Ok(Advance(data, pos, 6))
  }

  const JFIF_HEADERS: seq<seq<Byte>> := [Latin1("JFIF\0"), Latin1("JFXX\0")]

  /** `verify_jfifheader`: the five bytes "JFIF\0" or "JFXX\0", which it returns */
  function VerifyJfifHeader(data: seq<Byte>, pos: nat): (r: Result<(seq<Byte>, nat)>)
    ensures r.Ok? <==> pos + 5 <= |data| && data[pos..pos + 5] in JFIF_HEADERS
    ensures r.Ok? ==> r.value == (data[pos..pos + 5], pos + 5)
  {
    var header := Read(data, pos, 5);
    if header !in JFIF_HEADERS then Err(Exit("INVALID JFIF header: " + BytesRepr(header)))
    else Ok((header, Advance(data, pos, 5)))
  }

  /** What `verify_tiffheader` returns, and where it leaves the cursor */
  datatype TiffHeader = TiffHeader(base: nat, alignment: seq<Byte>, ifd0: Option<nat>, pos: nat)

  /** `verify_tiffheader`: the byte-order mark, the value 42 in that order, and
      the offset of IFD0 relative to the header (section 2 of TIFF 6.0) */
  function VerifyTiffHeader(data: seq<Byte>, pos: nat): (r: Result<TiffHeader>)
    ensures r.Ok? <==> pos + 4 <= |data| && DecodeUint(OrderOf(data[pos..pos + 2]), data[pos + 2..pos + 4]) == Some(42)
    ensures r.Ok? ==> r.value.base == pos && r.value.alignment == data[pos..pos + 2]
    ensures r.Ok? && pos + 8 <= |data| ==>
              r.value.ifd0 == DecodeUint(OrderOf(data[pos..pos + 2]), data[pos + 4..pos + 8]) &&
              r.value.pos == pos + 8
  {
    var alignment := Read(data, pos, 2);
    var afterAlignment := Advance(data, pos, 2);
    var order := OrderOf(alignment);
    var sample := DecodeUint(order, Read(data, afterAlignment, 2));
    var afterSample := Advance(data, afterAlignment, 2);
    if sample != Some(42) then Err(Exit("Sample encoded value: INCORRECT " + OptText(sample)))
    else
      Ok(TiffHeader(pos, alignment, DecodeUint(order, Read(data, afterSample, 4)), Advance(data, afterSample, 4)))
  }

  /** A header that passes holds 42 as "*\0" after "II" and as "\0*" after
      anything else */
  lemma TiffSampleBytes(data: seq<Byte>, pos: nat)
    requires VerifyTiffHeader(data, pos).Ok?
    ensures data[pos..pos + 2] == II ==> data[pos + 2..pos + 4] == [42, 0]
    ensures data[pos..pos + 2] != II ==> data[pos + 2..pos + 4] == [0, 42]
  {
    var order := OrderOf(data[pos..pos + 2]);
    EncodeDecode(order, data[pos + 2..pos + 4]);
    assert Reverse([42, 0]) == [0, 42];
  }

  const JFIF_IDENTIFIER := "JFIF|Identifier"
  const JFIF_XTHUMBNAIL := "JFIF|Xthumbnail"
  const JFIF_YTHUMBNAIL := "JFIF|Ythumbnail"

  /** The record the JFIF reader stores under each of its three keys */
  function JfifRecord(d: Display): MetaValue
  {
    MetaValue(d, "", Blank, Num(1))
  }

  /** `read_app0_jfif`: from the APP0 segment at segOffset, the identifier (5
      bytes after the marker and size) and the thumbnail width and height (the
      two bytes after 7 more) */
  function ReadApp0Jfif(data: seq<Byte>, segOffset: nat, meta: MetaDict): (r: Result<MetaDict>)
  {
    match VerifyMarker(data, segOffset, "APP0")
    case Err(e) => Err(e)
    case Ok(afterMarker) =>
      var afterSize := Advance(data, afterMarker, 2);
      match VerifyJfifHeader(data, afterSize)
      case Err(e) => Err(e)
      case Ok((jfif, afterHeader)) =>
        var withId := meta[JFIF_IDENTIFIER := JfifRecord(Raw(jfif))];
        var thumbPos := Advance(data, afterHeader, 7);
        var xthumb := Read(data, thumbPos, 1);
        if |xthumb| != 1 then Err(StructError)
        else
          var withX := withId[JFIF_XTHUMBNAIL := JfifRecord(Text(NatToString(xthumb[0])))];
          var ythumb := Read(data, Advance(data, thumbPos, 1), 1);
          if |ythumb| != 1 then Err(StructError)
          else Ok(withX[JFIF_YTHUMBNAIL := JfifRecord(Text(NatToString(ythumb[0])))])
  }

  /** Where the reads of `read_app0_jfif` land when the identifier fits */
  lemma JfifCursor(data: seq<Byte>, o: nat)
    ensures Advance(data, Advance(data, o, 2), 2) == Advance(data, o, 4)
    ensures o + 9 <= |data| ==> Advance(data, Advance(data, o, 2), 2) == o + 4
    ensures o + 16 <= |data| ==> Advance(data, o + 9, 7) == o + 16
  {
    ReadTwice(data, o, 2, 2);
  }

  /** A valid identifier followed by both thumbnail bytes: the three updates */
  lemma ReadApp0JfifValue(data: seq<Byte>, o: nat, meta: MetaDict)
    requires o + 18 <= |data| && data[o + 4..o + 9] in JFIF_HEADERS
    ensures ReadApp0Jfif(data, o, meta) ==
              Ok(meta[JFIF_IDENTIFIER := JfifRecord(Raw(data[o + 4..o + 9]))]
                     [JFIF_XTHUMBNAIL := JfifRecord(Text(NatToString(data[o + 16])))]
                     [JFIF_YTHUMBNAIL := JfifRecord(Text(NatToString(data[o + 17])))])
  {
    JfifCursor(data, o);
    assert VerifyJfifHeader(data, o + 4) == Ok((data[o + 4..o + 9], o + 9));
    assert Read(data, o + 16, 1) == [data[o + 16]];
    assert Read(data, o + 17, 1) == [data[o + 17]];
  }

  /** Without a valid identifier or both thumbnail bytes, the reader fails */
  lemma ReadApp0JfifFails(data: seq<Byte>, o: nat, meta: MetaDict)
    requires !(o + 18 <= |data| && data[o + 4..o + 9] in JFIF_HEADERS)
    ensures ReadApp0Jfif(data, o, meta).Err?
  {
    JfifCursor(data, o);
    var afterSize := Advance(data, Advance(data, o, 2), 2);
    if o + 9 <= |data| && data[o + 4..o + 9] in JFIF_HEADERS {
      assert VerifyJfifHeader(data, o + 4) == Ok((data[o + 4..o + 9], o + 9));
      var thumbPos := Advance(data, o + 9, 7);
      if o + 16 < |data| {
        assert thumbPos == o + 16;
        assert |Read(data, Advance(data, thumbPos, 1), 1)| != 1;
      } else {
        assert |Read(data, thumbPos, 1)| != 1;
      }
    } else if o + 9 > |data| {
      assert afterSize + 5 > |data|;
    }
  }

  /** The JFIF reader succeeds exactly when the identifier is valid and the
      segment holds both thumbnail bytes; it then writes the three JFIF keys
      from fixed offsets and leaves every other key alone. */
  lemma ReadApp0JfifResult(data: seq<Byte>, o: nat, meta: MetaDict)
    ensures ReadApp0Jfif(data, o, meta).Ok? <==> o + 18 <= |data| && data[o + 4..o + 9] in JFIF_HEADERS
    ensures var r := ReadApp0Jfif(data, o, meta);
            r.Ok? ==>
              r.value.Keys == meta.Keys + {JFIF_IDENTIFIER, JFIF_XTHUMBNAIL, JFIF_YTHUMBNAIL} &&
              r.value[JFIF_IDENTIFIER] == MetaValue(Raw(data[o + 4..o + 9]), "", Blank, Num(1)) &&
              r.value[JFIF_XTHUMBNAIL] == MetaValue(Text(NatToString(data[o + 16])), "", Blank, Num(1)) &&
              r.value[JFIF_YTHUMBNAIL] == MetaValue(Text(NatToString(data[o + 17])), "", Blank, Num(1)) &&
              forall k :: k in meta && k !in {JFIF_IDENTIFIER, JFIF_XTHUMBNAIL, JFIF_YTHUMBNAIL} ==> r.value[k] == meta[k]
  {
    if o + 18 <= |data| && data[o + 4..o + 9] in JFIF_HEADERS {
      ReadApp0JfifValue(data, o, meta);
    } else {
      ReadApp0JfifFails(data, o, meta);
    }
  }
}
