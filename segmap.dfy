/** `segment_map`: the list of (segment name, marker offset) pairs of a JPEG
    file, from the first marker after SOI up to and including the first SOS
    or EOI. A segment's length field counts itself but not the marker
    (section B.1.1.4 of ITU-T T.81), so the next marker lies 2 + length bytes
    after the current one. */
module SegMap {
  import opened Bytes
  import opened Text
  import opened JpegData
  import opened Decoder
  import opened Headers

  /** The identifier strings of the XMP packet and of extended XMP */
  const XMP_ID: seq<Byte> := Latin1("http://ns.adobe.com/xap/1.0/\0")
  const XMPEXT_ID: seq<Byte> := Latin1("http://ns.adobe.com/xmp/extension/\0")

  /** The name of an APP1 segment by its first 35 payload bytes, compared by
      prefix as the slices `id_str[:6]`, `id_str[:29]` and `id_str[:35]` do */
  function App1Kind(idStr: seq<Byte>): string
  {
    if Slice(idStr, 0, 6) == EXIF_HEADER then "APP1-Exif"
    else if Slice(idStr, 0, 29) == XMP_ID then "APP1-XMP"
    else if Slice(idStr, 0, 35) == XMPEXT_ID then "APP1-XMPext"
    else "APP1-unknown"
  }

  /** The 35 bytes after the marker and the size of the segment at pos */
  function Probe(data: seq<Byte>, pos: nat): seq<Byte>
  {
    Read(data, Advance(data, pos + 2, 2), 35)
  }

  const APP1_MARK: seq<Byte> := [0xFF, 0xE1]
  const SOS_MARK: seq<Byte> := [0xFF, 0xDA]
  const EOI_MARK: seq<Byte> := [0xFF, 0xD9]

  /** The name recorded for the marker read at pos */
  function MarkName(data: seq<Byte>, pos: nat): string
  {
    var segMark := Read(data, pos, 2);
    var segId := SegInfo(segMark).name;
    if segId == "APP1" then App1Kind(Probe(data, pos)) else segId
  }

  /** The markers after which the scan stops: those named "SOS" and "EOI" */
  predicate EndsScan(data: seq<Byte>, pos: nat)
    requires pos + 2 <= |data|
  {
    data[pos] == 0xFF && (data[pos + 1] == 0xDA || data[pos + 1] == 0xD9)
  }

  /** The markers of the hard-coded list without a length field */
  predicate NoLength(data: seq<Byte>, pos: nat)
    requires pos + 2 <= |data|
  {
    data[pos] == 0xFF && (data[pos + 1] == 0x01 || 0xD0 <= data[pos + 1] <= 0xD9)
  }

  /** The names and the list the source tests, as bytes of the marker */
  lemma MarkFacts(data: seq<Byte>, pos: nat)
    requires pos + 2 <= |data|
    ensures var m := Read(data, pos, 2);
            m == data[pos..pos + 2] &&
            (SegInfo(m).name == "EOI" || SegInfo(m).name == "SOS" <==> EndsScan(data, pos)) &&
            (m in NO_PAYLOAD <==> NoLength(data, pos))
  {
    var m := Read(data, pos, 2);
    assert m == [data[pos], data[pos + 1]];
    NamedMarkers(m);
  }

  /** Where the scan goes after the marker at pos: 2 bytes on for the
      markers without a length field, otherwise 2 + the big-endian length;
      None when the length field is cut short by the end of the data */
  function NextMarker(data: seq<Byte>, pos: nat): (q: Option<nat>)
    requires pos + 2 <= |data|
    ensures q.Some? ==> q.value >= pos + 2
  {
    if NoLength(data, pos) then Some(pos + 2)
    else if pos + 4 <= |data| then Some(pos + 2 + DecodeUint(BigEndian, data[pos + 2..pos + 4]).value)
    else None
  }

  /** The marker offsets the scan visits from pos on */
  function ScanOffsets(data: seq<Byte>, pos: nat): (offs: seq<nat>)
    ensures forall i :: 0 <= i < |offs| ==> pos <= offs[i] && offs[i] + 2 <= |data|
    ensures offs != [] ==> offs[0] == pos
    decreases |data| - pos
  {
    if pos + 2 > |data| then []
    else if EndsScan(data, pos) then [pos]
    else
      match NextMarker(data, pos)
      case None => [pos]
      case Some(q) => [pos] + ScanOffsets(data, q)
  }

  /** One step of the scan */
  lemma ScanStep(data: seq<Byte>, pos: nat)
    requires pos + 2 <= |data|
    ensures EndsScan(data, pos) || NextMarker(data, pos).None? ==> ScanOffsets(data, pos) == [pos]
    ensures !EndsScan(data, pos) && NextMarker(data, pos).Some? ==>
              ScanOffsets(data, pos) == [pos] + ScanOffsets(data, NextMarker(data, pos).value)
  {
  }

  /** The record of each visited marker, in order: its name and its offset */
  function Named(data: seq<Byte>, offs: seq<nat>): (recs: seq<(string, nat)>)
    ensures |recs| == |offs|
  {
    if offs == [] then []
    else
      var last := offs[|offs| - 1];
      Named(data, offs[..|offs| - 1]) + [(MarkName(data, last), last)]
  }

  lemma {:induction false} NamedIndex(data: seq<Byte>, offs: seq<nat>)
    ensures forall i :: 0 <= i < |offs| ==> Named(data, offs)[i] == (MarkName(data, offs[i]), offs[i])
  {
    if offs != [] {
      var init := offs[..|offs| - 1];
      NamedIndex(data, init);
      forall i | 0 <= i < |offs| - 1
        ensures Named(data, offs)[i] == (MarkName(data, offs[i]), offs[i])
      {
        assert Named(data, offs)[i] == Named(data, init)[i];
        assert init[i] == offs[i];
      }
    }
  }

  /** The result of the scan from the marker at pos on */
  function MapFrom(data: seq<Byte>, pos: nat): seq<(string, nat)>
  {
    Named(data, ScanOffsets(data, pos))
  }

  /** The name `segment_map` records for the marker segMark read at pos: an
      APP1 segment is classified by the 35 bytes after its size, and the
      cursor goes back to just after the marker */
  method NameSegment(data: seq<Byte>, pos: nat, segMark: seq<Byte>, segId: string) returns (name: string)
    requires segMark == Read(data, pos, 2) && segId == SegInfo(segMark).name
    ensures name == MarkName(data, pos)
  {
    if segId == "APP1" {
      var filepos := Advance(data, pos, 2);
      var idStr := Read(data, Advance(data, filepos, 2), 35);
      if Slice(idStr, 0, 6) == EXIF_HEADER {
        name := "APP1-Exif";
      } else if Slice(idStr, 0, 29) == XMP_ID {
        name := "APP1-XMP";
      } else if Slice(idStr, 0, 35) == XMPEXT_ID {
        name := "APP1-XMPext";
      } else {
        name := "APP1-unknown";
      }
      assert |segMark| == 2 by {
        NamedMarkers(segMark);
      }
    } else {
      name := segId;
    }
  }

  /** The skip to the next marker: none for the listed two-byte markers,
      otherwise past the length field and the rest of the segment; None when
      the length field is cut short */
  method SkipSegment(data: seq<Byte>, pos: nat, segMark: seq<Byte>) returns (next: Option<nat>)
    requires pos + 2 <= |data| && segMark == data[pos..pos + 2]
    ensures next == NextMarker(data, pos)
  {
    MarkFacts(data, pos);
    var cursor := pos + 2;
    if segMark !in NO_PAYLOAD {
      var dsbytes := Read(data, cursor, 2);
      if |dsbytes| < 2 {
        return None;
      }
      var datasize := DecodeUint(BigEndian, dsbytes).value;
      cursor := cursor + 2 + datasize - 2;
    }
    next := Some(cursor);
  }

  lemma AppendAssoc(a: seq<nat>, x: nat, b: seq<nat>)
    ensures a + ([x] + b) == (a + [x]) + b
  {
  }

  /** `segment_map(filehandle)` */
  method SegmentMap(data: seq<Byte>) returns (segments: seq<(string, nat)>)
    ensures segments == MapFrom(data, 2)
  {
    segments := [];
    ghost var visited: seq<nat> := [];
    var pos := 2;
    while true
      invariant ScanOffsets(data, 2) == visited + ScanOffsets(data, pos)
      invariant segments == Named(data, visited)
      decreases |data| - pos
    {
      var segMark := Read(data, pos, 2);
      if |segMark| < 2 {
        assert ScanOffsets(data, pos) == [];
        assert visited == ScanOffsets(data, 2);
        break;
      }
      MarkFacts(data, pos);
      ScanStep(data, pos);
      var segId := SegInfo(segMark).name;
      var name := NameSegment(data, pos, segMark, segId);
      segments := segments + [(name, pos)];
      ghost var before := visited;
      visited := visited + [pos];
      assert visited[..|visited| - 1] == before;
      if segId == "EOI" || segId == "SOS" {
        assert visited == ScanOffsets(data, 2);
        break;
      }
      var next := SkipSegment(data, pos, segMark);
      if next.None? {
        assert visited == ScanOffsets(data, 2);
        break;
      }
      AppendAssoc(before, pos, ScanOffsets(data, next.value));
      pos := next.value;
    }
  }

  /** Offsets strictly increase, and each but the last is not SOS or EOI and
      is followed by the marker its length field points to */
  lemma {:induction false} ScanShape(data: seq<Byte>, pos: nat)
    ensures forall i :: 0 <= i < |ScanOffsets(data, pos)| - 1 ==> !EndsScan(data, ScanOffsets(data, pos)[i])
    ensures forall i :: 0 <= i < |ScanOffsets(data, pos)| - 1 ==>
              NextMarker(data, ScanOffsets(data, pos)[i]) == Some(ScanOffsets(data, pos)[i + 1])
    ensures forall i, j :: 0 <= i < j < |ScanOffsets(data, pos)| ==> ScanOffsets(data, pos)[i] < ScanOffsets(data, pos)[j]
    decreases |data| - pos
  {
    if pos + 2 <= |data| && !EndsScan(data, pos) && NextMarker(data, pos).Some? {
      var q := NextMarker(data, pos).value;
      ScanShape(data, q);
      var rest := ScanOffsets(data, q);
      var offs := ScanOffsets(data, pos);
      assert offs == [pos] + rest;
      forall i | 0 <= i < |offs| - 1
        ensures !EndsScan(data, offs[i]) && NextMarker(data, offs[i]) == Some(offs[i + 1])
      {
        assert offs[i + 1] == rest[i];
        if i > 0 {
          assert offs[i] == rest[i - 1];
        } else {
          assert offs[i] == pos && rest[0] == q;
        }
      }
      forall i, j | 0 <= i < j < |offs|
        ensures offs[i] < offs[j]
      {
        assert offs[j] == rest[j - 1] && rest[j - 1] >= q;
        if i > 0 {
          assert offs[i] == rest[i - 1];
        }
      }
    }
  }

  /** The scan visits nothing exactly when no marker fits at pos, and it ends
      on SOS or EOI unless the next marker or length field is cut short by the
      end of the data */
  lemma {:induction false} ScanEnd(data: seq<Byte>, pos: nat)
    ensures ScanOffsets(data, pos) == [] <==> pos + 2 > |data|
    ensures var offs := ScanOffsets(data, pos);
            offs != [] ==>
              var last := offs[|offs| - 1];
              EndsScan(data, last) || NextMarker(data, last).None? || NextMarker(data, last).value + 2 > |data|
    decreases |data| - pos
  {
    if pos + 2 <= |data| && !EndsScan(data, pos) && NextMarker(data, pos).Some? {
      var q := NextMarker(data, pos).value;
      ScanEnd(data, q);
      var offs := ScanOffsets(data, pos);
      if ScanOffsets(data, q) != [] {
        assert offs[|offs| - 1] == ScanOffsets(data, q)[|ScanOffsets(data, q)| - 1];
      }
    }
  }

  /** An APP1 segment is named by the first identifier its payload starts
      with; an extended-XMP identifier is never taken for the shorter XMP one */
  lemma App1KindCases(idStr: seq<Byte>)
    ensures App1Kind(idStr) == "APP1-Exif" <==> |idStr| >= 6 && idStr[..6] == EXIF_HEADER
    ensures |idStr| >= 35 && idStr[..35] == XMPEXT_ID ==> App1Kind(idStr) == "APP1-XMPext"
    ensures |idStr| >= 29 && idStr[..29] == XMP_ID ==> App1Kind(idStr) == "APP1-XMP"
    ensures App1Kind(idStr) == "APP1-unknown" <==>
              !(|idStr| >= 6 && idStr[..6] == EXIF_HEADER) && !(|idStr| >= 29 && idStr[..29] == XMP_ID) &&
              !(|idStr| >= 35 && idStr[..35] == XMPEXT_ID)
  {
    assert EXIF_HEADER[0] == 'E' as int && XMP_ID[0] == 'h' as int && XMPEXT_ID[0] == 'h' as int;
    assert XMP_ID[21] == 'a' as int && XMPEXT_ID[21] == 'm' as int;
    if |idStr| >= 6 {
      assert Slice(idStr, 0, 6) == idStr[..6];
    }
    if |idStr| >= 29 {
      assert Slice(idStr, 0, 29) == idStr[..29];
      assert idStr[..29][0] == idStr[0];
      assert idStr[..29][21] == idStr[21];
    }
    if |idStr| >= 35 {
      assert Slice(idStr, 0, 35) == idStr[..35];
      assert idStr[..35][0] == idStr[0];
      assert idStr[..35][21] == idStr[21];
    }
    if |idStr| >= 6 && idStr[..6] == EXIF_HEADER {
      assert idStr[0] == 'E' as int;
    }
  }

  /** The probe reads the identifier straight after the length field */
  lemma ProbeBytes(data: seq<Byte>, pos: nat)
    requires pos + 2 <= |data|
    ensures pos + 4 + 35 <= |data| ==> Probe(data, pos) == data[pos + 4..pos + 39]
    ensures forall i :: 0 <= i < |Probe(data, pos)| ==> pos + 4 + i < |data| && Probe(data, pos)[i] == data[pos + 4 + i]
  {
    var q := Advance(data, pos + 2, 2);
    var r := Read(data, q, 35);
    assert r == Probe(data, pos);
    if pos + 4 <= |data| {
      assert q == pos + 4;
      forall i | 0 <= i < |r|
        ensures pos + 4 + i < |data| && r[i] == data[pos + 4 + i]
      {
      }
    } else {
      assert r == [];
    }
  }

  /** The records of the scan: each names the marker at its offset, the
      offsets strictly increase, the scan stops only after SOS or EOI, and
      every other record is followed by the one of the marker its length
      field points to */
  lemma MapRecords(data: seq<Byte>, pos: nat)
    ensures forall i :: 0 <= i < |MapFrom(data, pos)| ==>
              pos <= MapFrom(data, pos)[i].1 && MapFrom(data, pos)[i].1 + 2 <= |data| &&
              MapFrom(data, pos)[i].0 == MarkName(data, MapFrom(data, pos)[i].1)
    ensures forall i :: 0 <= i < |MapFrom(data, pos)| - 1 ==>
              !EndsScan(data, MapFrom(data, pos)[i].1) &&
              NextMarker(data, MapFrom(data, pos)[i].1) == Some(MapFrom(data, pos)[i + 1].1)
    ensures forall i, j :: 0 <= i < j < |MapFrom(data, pos)| ==> MapFrom(data, pos)[i].1 < MapFrom(data, pos)[j].1
  {
    var offs := ScanOffsets(data, pos);
    NamedIndex(data, offs);
    ScanShape(data, pos);
  }

  /** How far the scan moves: 2 bytes for a listed marker, 2 + length
      otherwise. A length below 2 moves back into the length field, whose
      bytes are then read as the next marker. */
  lemma NextMarkerCases(data: seq<Byte>, pos: nat)
    requires pos + 2 <= |data|
    ensures data[pos..pos + 2] in NO_PAYLOAD ==> NextMarker(data, pos) == Some(pos + 2)
    ensures data[pos..pos + 2] !in NO_PAYLOAD ==>
              (NextMarker(data, pos).Some? <==> pos + 4 <= |data|) &&
              (pos + 4 <= |data| ==>
                 NextMarker(data, pos) == Some(pos + 2 + 0x100 * data[pos + 2] as int + data[pos + 3] as int))
    ensures data[pos..pos + 2] !in NO_PAYLOAD && pos + 4 <= |data| && data[pos + 2] == 0 && data[pos + 3] < 2 ==>
              NextMarker(data, pos).value < pos + 4
  {
    MarkFacts(data, pos);
    if pos + 4 <= |data| {
      DecodeUintFormulas(data[pos + 2..pos + 4]);
    }
  }

  /** An APP1 segment is named after the identifier 4 bytes into it */
  lemma MarkNameApp1(data: seq<Byte>, pos: nat)
    requires pos + 2 <= |data| && data[pos..pos + 2] == APP1_MARK
    ensures MarkName(data, pos) == "APP1-Exif" <==> pos + 10 <= |data| && data[pos + 4..pos + 10] == EXIF_HEADER
    ensures pos + 33 <= |data| && data[pos + 4..pos + 33] == XMP_ID ==> MarkName(data, pos) == "APP1-XMP"
    ensures pos + 39 <= |data| && data[pos + 4..pos + 39] == XMPEXT_ID ==> MarkName(data, pos) == "APP1-XMPext"
  {
    NamedMarkers(data[pos..pos + 2]);
    var probe := Probe(data, pos);
    App1KindCases(probe);
    ProbeBytes(data, pos);
    if pos + 10 <= |data| {
      assert |probe| >= 6 ==> probe[..6] == data[pos + 4..pos + 10];
      assert |probe| >= 6;
    }
    if |probe| >= 6 {
      assert probe[..6] == data[pos + 4..pos + 10];
    }
    if pos + 33 <= |data| {
      assert |probe| >= 29 && probe[..29] == data[pos + 4..pos + 33];
    }
    if pos + 39 <= |data| {
      assert probe[..35] == data[pos + 4..pos + 39];
    }
  }

  const EXAMPLE_FILE: seq<Byte> := [0xFF, 0xD8, 0xFF, 0xE0, 0x00, 0x04, 0x00, 0x00, 0xFF, 0xDA, 0x00, 0x02]

  /** The markers of the small file below sit at offsets 2 and 8 */
  lemma ExampleOffsets()
    ensures ScanOffsets(EXAMPLE_FILE, 2) == [2, 8]
  {
    var data := EXAMPLE_FILE;
    assert data[4..6] == [0x00, 0x04];
    DecodeUintFormulas(data[4..6]);
    assert !NoLength(data, 2) && !EndsScan(data, 2);
    assert NextMarker(data, 2) == Some(8);
    assert EndsScan(data, 8);
  }

  /** A small file: SOI, an empty APP0 segment, then SOS. SOI itself is not
      recorded, since the scan starts after it. */
  lemma SegmentMapExample()
    ensures MapFrom(EXAMPLE_FILE, 2) == [("APP0", 2), ("SOS", 8)]
  {
    var data := EXAMPLE_FILE;
    ExampleOffsets();
    SegInfoTable();
    assert Read(data, 2, 2) == [0xFF, 0xE0];
    assert Read(data, 8, 2) == [0xFF, 0xDA];
    assert MarkName(data, 2) == "APP0";
    assert MarkName(data, 8) == "SOS";
    assert [2, 8][..1] == [2];
  }
}
