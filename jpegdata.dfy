/** The static data of the reader: the JPEG marker table (ITU-T T.81, Annex B,
    Table B.1, plus the Exif 2.3 application markers) and the Exif tag-name
    lookup, whose table is plain data handed in as a map. */
module JpegData {
  import opened Bytes
  import opened Text

  /** What the reader knows about a segment type */
  datatype SegDesc = SegDesc(name: string, hasData: bool, hasMeta: bool)

  /** The table of known markers, by the second byte of a marker 0xFF xx */
  function KnownMarker(code: Byte): Option<SegDesc>
  {
    match code
    case 0x01 => Some(SegDesc("ff01", false, false))
    case 0xE0 => Some(SegDesc("APP0", true, true))
    case 0xE1 => Some(SegDesc("APP1", true, true))
    case 0xE2 => Some(SegDesc("APP2", true, true))
    case 0xE3 => Some(SegDesc("APP3", true, true))
    case 0xE4 => Some(SegDesc("APP4", true, true))
    case 0xE5 => Some(SegDesc("APP5", true, true))
    case 0xE6 => Some(SegDesc("APP6", true, true))
    case 0xE7 => Some(SegDesc("APP7", true, true))
    case 0xE8 => Some(SegDesc("APP8", true, true))
    case 0xE9 => Some(SegDesc("APP9", true, true))
    case 0xEA => Some(SegDesc("APP10", true, true))
    case 0xEB => Some(SegDesc("APP11", true, true))
    case 0xEC => Some(SegDesc("APP12", true, true))
    case 0xED => Some(SegDesc("APP13", true, true))
    case 0xEE => Some(SegDesc("APP14", true, true))
    case 0xEF => Some(SegDesc("APP15", true, true))
    case 0xFE => Some(SegDesc("COM", true, false))
    case 0xC4 => Some(SegDesc("DHT", true, false))
    case 0xDB => Some(SegDesc("DQT", true, false))
    case 0xDD => Some(SegDesc("DRI", true, false))
    case 0xD9 => Some(SegDesc("EOI", false, false))
    case 0xD0 => Some(SegDesc("RST0", false, false))
    case 0xD1 => Some(SegDesc("RST1", false, false))
    case 0xD2 => Some(SegDesc("RST2", false, false))
    case 0xD3 => Some(SegDesc("RST3", false, false))
    case 0xD4 => Some(SegDesc("RST4", false, false))
    case 0xD5 => Some(SegDesc("RST5", false, false))
    case 0xD6 => Some(SegDesc("RST6", false, false))
    case 0xD7 => Some(SegDesc("RST7", false, false))
    case 0xC0 => Some(SegDesc("SOF0", true, false))
    case 0xC2 => Some(SegDesc("SOF2", true, false))
    case 0xD8 => Some(SegDesc("SOI", false, false))
    case 0xDA => Some(SegDesc("SOS", true, false))
    case _ => None
  }

  predicate IsKnownMarker(m: seq<Byte>)
  {
    |m| == 2 && m[0] == 0xFF && KnownMarker(m[1]).Some?
  }

  /** `seginfo(m)`: the table entry of a known marker; any other byte string,
      of any length, is named by its hex digits followed by '?' */
  function SegInfo(m: seq<Byte>): SegDesc
  {
    if IsKnownMarker(m) then KnownMarker(m[1]).value
    else SegDesc(HexName(m) + "?", false, false)
  }

  /** The 11 markers that are only two bytes long, as listed in exiferino.py */
  const NO_PAYLOAD: seq<seq<Byte>> :=
    [[0xFF, 0x01], [0xFF, 0xD0], [0xFF, 0xD1], [0xFF, 0xD2], [0xFF, 0xD3], [0xFF, 0xD4],
     [0xFF, 0xD5], [0xFF, 0xD6], [0xFF, 0xD7], [0xFF, 0xD8], [0xFF, 0xD9]]

  /** The table's own expectations for five markers */
  lemma SegInfoTable()
    ensures SegInfo([0xFF, 0x01]) == SegDesc("ff01", false, false)
    ensures SegInfo([0xFF, 0xE0]) == SegDesc("APP0", true, true)
    ensures SegInfo([0xFF, 0xE1]) == SegDesc("APP1", true, true)
    ensures SegInfo([0xFF, 0xED]) == SegDesc("APP13", true, true)
    ensures SegInfo([0xFF, 0xDA]) == SegDesc("SOS", true, false)
  {
  }

  /** A marker carries metadata exactly when it is APP0 through APP15 */
  lemma HasMetaIffApp(m: seq<Byte>)
    ensures SegInfo(m).hasMeta <==> |m| == 2 && m[0] == 0xFF && 0xE0 <= m[1] <= 0xEF
  {
  }

  /** Among the table's markers, exactly the 11 two-byte markers that
      exiferino.py hard-codes have no length field; an unknown marker is
      treated as having none either, but it is not in that list. */
  lemma NoDataIffNoPayload(m: seq<Byte>)
    ensures IsKnownMarker(m) ==> (!SegInfo(m).hasData <==> m in NO_PAYLOAD)
    ensures !IsKnownMarker(m) ==> !SegInfo(m).hasData && m !in NO_PAYLOAD
  {
    if IsKnownMarker(m) {
      assert m == [0xFF, m[1]];
    }
  }

  /** The name of an unknown marker gives back the marker's bytes */
  lemma UnknownNameRecoversMarker(m: seq<Byte>)
    requires !IsKnownMarker(m)
    ensures var n := SegInfo(m).name; |n| == 2 * |m| + 1 && n[|n| - 1] == '?'
    ensures var n := SegInfo(m).name; ParseHex(n[..|n| - 1]) == m
  {
    var n := SegInfo(m).name;
    assert n[..|n| - 1] == HexName(m);
    HexRoundTrip(m);
  }

  /** The position of a known name in the table, the inverse of KnownMarker */
  function CodeOfName(name: string): Option<Byte>
  {
    match name
    case "ff01" => Some(0x01)
    case "APP0" => Some(0xE0)
    case "APP1" => Some(0xE1)
    case "APP2" => Some(0xE2)
    case "APP3" => Some(0xE3)
    case "APP4" => Some(0xE4)
    case "APP5" => Some(0xE5)
    case "APP6" => Some(0xE6)
    case "APP7" => Some(0xE7)
    case "APP8" => Some(0xE8)
    case "APP9" => Some(0xE9)
    case "APP10" => Some(0xEA)
    case "APP11" => Some(0xEB)
    case "APP12" => Some(0xEC)
    case "APP13" => Some(0xED)
    case "APP14" => Some(0xEE)
    case "APP15" => Some(0xEF)
    case "COM" => Some(0xFE)
    case "DHT" => Some(0xC4)
    case "DQT" => Some(0xDB)
    case "DRI" => Some(0xDD)
    case "EOI" => Some(0xD9)
    case "RST0" => Some(0xD0)
    case "RST1" => Some(0xD1)
    case "RST2" => Some(0xD2)
    case "RST3" => Some(0xD3)
    case "RST4" => Some(0xD4)
    case "RST5" => Some(0xD5)
    case "RST6" => Some(0xD6)
    case "RST7" => Some(0xD7)
    case "SOF0" => Some(0xC0)
    case "SOF2" => Some(0xC2)
    case "SOI" => Some(0xD8)
    case "SOS" => Some(0xDA)
    case _ => None
  }

  lemma CodeOfKnownName(code: Byte)
    requires KnownMarker(code).Some?
    ensures CodeOfName(KnownMarker(code).value.name) == Some(code)
    ensures var n := KnownMarker(code).value.name; n[|n| - 1] != '?'
  {
  }

  /** No two byte strings get the same segment name, so comparing names, as
      both scanners do, is comparing markers */
  lemma SegInfoNameInjective(a: seq<Byte>, b: seq<Byte>)
    ensures SegInfo(a).name == SegInfo(b).name ==> a == b
  {
    if SegInfo(a).name == SegInfo(b).name {
      if IsKnownMarker(a) && IsKnownMarker(b) {
        CodeOfKnownName(a[1]);
        CodeOfKnownName(b[1]);
        assert a == [0xFF, a[1]] && b == [0xFF, b[1]];
      } else if IsKnownMarker(a) {
        CodeOfKnownName(a[1]);
        UnknownNameRecoversMarker(b);
      } else if IsKnownMarker(b) {
        CodeOfKnownName(b[1]);
        UnknownNameRecoversMarker(a);
      } else {
        UnknownNameRecoversMarker(a);
        UnknownNameRecoversMarker(b);
      }
    }
  }

  /** The names the scanners test for belong to one marker each */
  lemma NamedMarkers(m: seq<Byte>)
    ensures SegInfo(m).name == "APP1" <==> m == [0xFF, 0xE1]
    ensures SegInfo(m).name == "SOS" <==> m == [0xFF, 0xDA]
    ensures SegInfo(m).name == "EOI" <==> m == [0xFF, 0xD9]
  {
    SegInfoNameInjective(m, [0xFF, 0xE1]);
    SegInfoNameInjective(m, [0xFF, 0xDA]);
    SegInfoNameInjective(m, [0xFF, 0xD9]);
  }

  /** The argument of `exiftag`, which converts it with `str()` */
  datatype TagArg = IntTag(n: nat) | StrTag(s: string) | NoneTag

  function PyStr(t: TagArg): string
  {
    match t
    case IntTag(n) => NatToString(n)
    case StrTag(s) => s
    case NoneTag => "None"
  }

  /** `exiftag(tagno)`: the table's name for the tag, or its text followed by '?' */
  function ExifTag(tags: map<string, string>, tagno: TagArg): string
  {
    var key := PyStr(tagno);
    if key in tags then tags[key] else key + "?"
  }

  /** A tag number and its decimal text name the same tag; a number missing from
      the table can be read back from its fallback name. */
  lemma ExifTagLookup(tags: map<string, string>, n: nat)
    ensures ExifTag(tags, IntTag(n)) == ExifTag(tags, StrTag(NatToString(n)))
    ensures NatToString(n) in tags ==> ExifTag(tags, IntTag(n)) == tags[NatToString(n)]
    ensures var name := ExifTag(tags, IntTag(n));
            NatToString(n) !in tags ==>
              |name| >= 2 && name[|name| - 1] == '?' &&
              (forall i :: 0 <= i < |name| - 1 ==> IsDigit(name[i])) &&
              ParseDecimal(name[..|name| - 1]) == n
  {
    var name := ExifTag(tags, IntTag(n));
    if NatToString(n) !in tags {
      assert name[..|name| - 1] == NatToString(n);
      DecimalRoundTrip(n);
    }
  }
}
