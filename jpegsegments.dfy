/** The second scanner of jpegsegments.py: `segment_read` turns the segment
    at the cursor into a record, keeping the payload of metadata segments,
    and `segment_list` follows the `next_segment` offsets from the start of
    the file. */
module JpegSegments {
  import opened Bytes
  import opened JpegData
  import opened SegMap

  /** The dictionary `segment_read` returns */
  datatype Segment = Segment(
    offset: nat,                     // the cursor on entry
    segmark: seq<Byte>,              // the two bytes read there
    segtype: string,                 // the three fields copied from seginfo
    hasData: bool,
    hasMeta: bool,
    payload: Option<seq<Byte>>,      // the data of a metadata segment
    nextSegment: Option<nat>)        // where the next segment starts

  /** The segment types at which `segment_read` stops without reading a length */
  predicate IsStop(seg: Segment)
  {
    seg.segtype == "SOS" || seg.segtype == "EOI"
  }

  /** `struct.unpack('>H', b)[0]` */
  function UnpackUShortBE(b: seq<Byte>): (v: nat)
    requires |b| == 2
    ensures v < 0x1_0000
    ensures b == [v / 0x100, v % 0x100]
  {
    0x100 * b[0] as int + b[1] as int
  }

  /** `read(n)` from pos for any int n, with the cursor after it: -1 reads to
      the end of the file and a smaller n is refused */
  function ReadSized(data: seq<Byte>, pos: nat, n: int): (r: Result<(seq<Byte>, nat)>)
    ensures r.Err? <==> n < -1
    ensures n >= 0 ==> r == Ok((Read(data, pos, n), Advance(data, pos, n)))
    ensures n == -1 ==> r.Ok? && r.value.0 == (if pos < |data| then data[pos..] else [])
  {
    if n >= 0 then Ok((Read(data, pos, n), Advance(data, pos, n)))
    else if n == -1 then Ok((Read(data, pos, |data|), Advance(data, pos, |data|)))
    else Err(ValueError)
  }

  /** `segment_read` on a file whose cursor is at pos */
  function SegmentAt(data: seq<Byte>, pos: nat): (r: Result<Segment>)
    ensures r.Ok? ==> r.value.offset == pos && r.value.segmark == Read(data, pos, 2)
    ensures r.Ok? && r.value.nextSegment.Some? ==> r.value.nextSegment.value >= pos + 2
  {
    var segmark := Read(data, pos, 2);
    var afterMark := Advance(data, pos, 2);
    var info := SegInfo(segmark);
    var seg := Segment(pos, segmark, info.name, info.hasData, info.hasMeta, None, None);
    if seg.segtype in ["SOS", "EOI"] then Ok(seg)
    else if !seg.hasData then Ok(seg.(nextSegment := Some(pos + 2)))
    else
      var sizeBytes := Read(data, afterMark, 2);
      var afterSize := Advance(data, afterMark, 2);
      if |sizeBytes| != 2 then Err(StructError)
      else
        var datasize := UnpackUShortBE(sizeBytes);
        if seg.hasMeta then
          match ReadSized(data, afterSize, datasize - 2)
          case Err(e) => Err(e)
          case Ok((payload, afterPayload)) =>
            Ok(seg.(payload := Some(payload), nextSegment := Some(afterPayload)))
        else
          // seek(datasize - 2, 1) from just after the length field
          Ok(seg.(nextSegment := Some(afterSize + datasize - 2)))
  }

  /** `segment_read`: the fields of the record are filled in one by one as
      the cursor moves over the marker, the length and the payload */
  method SegmentRead(data: seq<Byte>, start: nat) returns (r: Result<Segment>)
    ensures r == SegmentAt(data, start)
  {
    var cursor := start;
    var segmark := Read(data, cursor, 2);
    cursor := Advance(data, cursor, 2);
    var seg := Segment(start, segmark, "", false, false, None, None);
    var info := SegInfo(seg.segmark);
    seg := seg.(segtype := info.name, hasData := info.hasData, hasMeta := info.hasMeta);
    if seg.segtype in ["SOS", "EOI"] {
      return Ok(seg);
    }
    if !seg.hasData {
      seg := seg.(nextSegment := Some(seg.offset + 2));
      return Ok(seg);
    }
    var sizeBytes := Read(data, cursor, 2);
    cursor := Advance(data, cursor, 2);
    if |sizeBytes| != 2 {
      return Err(StructError);
    }
    var datasize := UnpackUShortBE(sizeBytes);
    if seg.hasMeta {
      var size := datasize as int - 2;
      if size < -1 {
        return Err(ValueError);
      }
      var n: nat := if size == -1 then |data| else size;
      seg := seg.(payload := Some(Read(data, cursor, n)));
      cursor := Advance(data, cursor, n);
    } else {
      cursor := cursor + datasize - 2;
    }
    seg := seg.(nextSegment := Some(cursor));
    r := Ok(seg);
  }

  /** The big-endian length after the marker at pos */
  function LengthAt(data: seq<Byte>, pos: nat): nat
    requires pos + 4 <= |data|
  {
    0x100 * data[pos + 2] as int + data[pos + 3] as int
  }

  /** The record copies the table's three fields for its marker; the records
      without a next segment are exactly the SOS and EOI records, and they
      carry no payload; only a metadata segment carries one */
  lemma SegmentFields(data: seq<Byte>, pos: nat)
    ensures var m := Read(data, pos, 2);
            SegmentAt(data, pos).Ok? ==>
              SegmentAt(data, pos).value.segtype == SegInfo(m).name &&
              SegmentAt(data, pos).value.hasData == SegInfo(m).hasData &&
              SegmentAt(data, pos).value.hasMeta == SegInfo(m).hasMeta
    ensures SegmentAt(data, pos).Ok? ==>
              (SegmentAt(data, pos).value.nextSegment.None? <==> IsStop(SegmentAt(data, pos).value))
    ensures SegmentAt(data, pos).Ok? && SegmentAt(data, pos).value.nextSegment.None? ==>
              SegmentAt(data, pos).value.payload.None?
    ensures SegmentAt(data, pos).Ok? && SegmentAt(data, pos).value.payload.Some? ==>
              SegmentAt(data, pos).value.hasMeta
  {
  }

  /** SOS and EOI, named by their bytes, end the record without a length */
  lemma SegmentStops(data: seq<Byte>, pos: nat)
    ensures var m := Read(data, pos, 2);
            m == SOS_MARK || m == EOI_MARK <==>
              SegmentAt(data, pos).Ok? && SegmentAt(data, pos).value.nextSegment.None?
    ensures var m := Read(data, pos, 2);
            m == SOS_MARK || m == EOI_MARK ==>
              SegmentAt(data, pos) == Ok(Segment(pos, m, SegInfo(m).name, SegInfo(m).hasData, false, None, None))
  {
    NamedMarkers(Read(data, pos, 2));
  }

  /** A marker without data, known or not (an unknown marker, and the short
      read at the end of the file, count as having none), is followed
      directly by the next segment */
  lemma SegmentNoData(data: seq<Byte>, pos: nat)
    requires !SegInfo(Read(data, pos, 2)).hasData && Read(data, pos, 2) != EOI_MARK
    ensures var m := Read(data, pos, 2);
            SegmentAt(data, pos) == Ok(Segment(pos, m, SegInfo(m).name, false, false, None, Some(pos + 2)))
  {
    NamedMarkers(Read(data, pos, 2));
  }

  /** Unknown markers are among them */
  lemma SegmentUnknown(data: seq<Byte>, pos: nat)
    requires !IsKnownMarker(Read(data, pos, 2))
    ensures SegmentAt(data, pos).Ok? && SegmentAt(data, pos).value.nextSegment == Some(pos + 2)
    ensures SegmentAt(data, pos).value.payload.None?
  {
    NamedMarkers(Read(data, pos, 2));
  }

  /** A segment with data needs its 2-byte length; the next segment of a
      segment without metadata starts `2 + length` bytes after the marker */
  lemma SegmentWithData(data: seq<Byte>, pos: nat)
    requires SegInfo(Read(data, pos, 2)).hasData && Read(data, pos, 2) != SOS_MARK
    ensures pos + 4 > |data| <==> SegmentAt(data, pos) == Err(StructError)
    ensures var m := Read(data, pos, 2);
            pos + 4 <= |data| && !SegInfo(m).hasMeta ==>
              SegmentAt(data, pos) ==
              Ok(Segment(pos, m, SegInfo(m).name, true, false, None, Some(pos + 2 + LengthAt(data, pos))))
  {
    var m := Read(data, pos, 2);
    NamedMarkers(m);
    if pos + 4 <= |data| {
      assert Read(data, pos + 2, 2) == data[pos + 2..pos + 4];
      assert UnpackUShortBE(data[pos + 2..pos + 4]) == LengthAt(data, pos);
      HasMetaIffApp(m);
    }
  }

  /** A metadata segment keeps the `length - 2` bytes after the length field
      as its payload, fewer at the end of the file; a length of 1 reads the
      rest of the file and a length of 0 is refused by `read` */
  lemma SegmentMetaData(data: seq<Byte>, pos: nat)
    requires pos + 4 <= |data| && SegInfo(data[pos..pos + 2]).hasMeta
    ensures var m := data[pos..pos + 2];
            LengthAt(data, pos) >= 2 ==>
              SegmentAt(data, pos) ==
              Ok(Segment(pos, m, SegInfo(m).name, true, true,
                         Some(Read(data, pos + 4, LengthAt(data, pos) - 2)),
                         Some(Advance(data, pos + 4, LengthAt(data, pos) - 2))))
    ensures LengthAt(data, pos) == 1 ==>
              SegmentAt(data, pos).Ok? &&
              SegmentAt(data, pos).value.payload == Some(data[pos + 4..]) &&
              SegmentAt(data, pos).value.nextSegment == Some(|data|)
    ensures LengthAt(data, pos) == 0 ==> SegmentAt(data, pos) == Err(ValueError)
  {
    var m := data[pos..pos + 2];
    assert Read(data, pos, 2) == m;
    HasMetaIffApp(m);
    assert m != SOS_MARK && m != EOI_MARK;
    NamedMarkers(m);
    assert Read(data, pos + 2, 2) == data[pos + 2..pos + 4];
    assert UnpackUShortBE(data[pos + 2..pos + 4]) == LengthAt(data, pos);
    assert Read(data, pos + 4, |data|) == data[pos + 4..];
  }

  /** A metadata segment that fits in the file: its payload is exactly the
      `length - 2` bytes after the length field */
  lemma SegmentPayload(data: seq<Byte>, pos: nat)
    requires pos + 4 <= |data| && SegInfo(data[pos..pos + 2]).hasMeta
    requires LengthAt(data, pos) >= 2 && pos + 2 + LengthAt(data, pos) <= |data|
    ensures SegmentAt(data, pos).Ok?
    ensures SegmentAt(data, pos).value.payload == Some(data[pos + 4..pos + 2 + LengthAt(data, pos)])
    ensures SegmentAt(data, pos).value.nextSegment == Some(pos + 2 + LengthAt(data, pos))
  {
    SegmentMetaData(data, pos);
  }

  /** `segment_read` fails exactly on a segment with data whose length field
      is cut short (struct.error), or on a metadata segment of length 0
      (`read(-2)` raises ValueError) */
  lemma SegmentErrors(data: seq<Byte>, pos: nat)
    ensures var m := Read(data, pos, 2);
            SegmentAt(data, pos).Err? <==>
              SegInfo(m).hasData && m != SOS_MARK &&
              (pos + 4 > |data| || (SegInfo(m).hasMeta && data[pos + 2] == 0 && data[pos + 3] == 0))
    ensures SegmentAt(data, pos).Err? ==> SegmentAt(data, pos).error in {StructError, ValueError}
  {
    var m := Read(data, pos, 2);
    NamedMarkers(m);
    if SegInfo(m).hasData && m != SOS_MARK {
      SegmentWithData(data, pos);
      if pos + 4 <= |data| && SegInfo(m).hasMeta {
        SegmentMetaData(data, pos);
      }
    } else if m == SOS_MARK || m == EOI_MARK {
      SegmentStops(data, pos);
    } else {
      SegmentNoData(data, pos);
    }
  }

  /** The two scanners disagree on an unknown marker: `segment_read` takes it
      to have no data, `segment_map` reads a length after it; they meet only
      when that length is 0 */
  lemma UnknownMarkerDisagreement(data: seq<Byte>, pos: nat)
    requires pos + 4 <= |data| && !IsKnownMarker(data[pos..pos + 2])
    ensures SegmentAt(data, pos).Ok? && SegmentAt(data, pos).value.nextSegment == Some(pos + 2)
    ensures NextMarker(data, pos) == Some(pos + 2 + LengthAt(data, pos))
    ensures SegmentAt(data, pos).value.nextSegment == NextMarker(data, pos) <==> LengthAt(data, pos) == 0
  {
    assert Read(data, pos, 2) == data[pos..pos + 2];
    SegmentUnknown(data, pos);
    NoDataIffNoPayload(data[pos..pos + 2]);
    NextMarkerCases(data, pos);
  }

  /** On a known marker other than SOS and EOI, whose segment fits in the
      file, both scanners find the next segment at the same offset */
  lemma ScannersAgree(data: seq<Byte>, pos: nat)
    requires pos + 2 <= |data| && IsKnownMarker(data[pos..pos + 2]) && !EndsScan(data, pos)
    requires SegInfo(data[pos..pos + 2]).hasData ==> pos + 4 <= |data|
    requires SegInfo(data[pos..pos + 2]).hasMeta ==>
               LengthAt(data, pos) >= 2 && pos + 2 + LengthAt(data, pos) <= |data|
    ensures SegmentAt(data, pos).Ok? && SegmentAt(data, pos).value.nextSegment == NextMarker(data, pos)
  {
    var m := data[pos..pos + 2];
    MarkFacts(data, pos);
    NamedMarkers(m);
    NoDataIffNoPayload(m);
    NextMarkerCases(data, pos);
    if !SegInfo(m).hasData {
      SegmentNoData(data, pos);
    } else if SegInfo(m).hasMeta {
      SegmentPayload(data, pos);
    } else {
      SegmentWithData(data, pos);
    }
  }

  /** `segment_read` as the loop of `segment_list` uses it */
  type SegmentReader = (seq<Byte>, nat) -> Result<Segment>

  /** What the loop relies on: a record is taken at the cursor, it has no next
      segment exactly when it is SOS or EOI, the next segment lies at least
      two bytes further on, and past the end of the file the (empty) marker
      has no data */
  ghost predicate ReaderSteps(read: SegmentReader)
  {
    forall data: seq<Byte>, pos: nat ::
      (read(data, pos).Ok? ==>
         read(data, pos).value.offset == pos &&
         (read(data, pos).value.nextSegment.None? <==> IsStop(read(data, pos).value)) &&
         (read(data, pos).value.nextSegment.Some? ==> read(data, pos).value.nextSegment.value >= pos + 2)) &&
      (pos + 2 > |data| ==> read(data, pos).Ok? && read(data, pos).value.nextSegment == Some(pos + 2))
  }

  lemma SegmentAtSteps()
    ensures ReaderSteps(SegmentAt)
  {
    forall data: seq<Byte>, pos: nat
      ensures SegmentAt(data, pos).Ok? ==>
                SegmentAt(data, pos).value.offset == pos &&
                (SegmentAt(data, pos).value.nextSegment.None? <==> IsStop(SegmentAt(data, pos).value)) &&
                (SegmentAt(data, pos).value.nextSegment.Some? ==> SegmentAt(data, pos).value.nextSegment.value >= pos + 2)
      ensures pos + 2 > |data| ==> SegmentAt(data, pos).Ok? && SegmentAt(data, pos).value.nextSegment == Some(pos + 2)
    {
      SegmentFields(data, pos);
      if pos + 2 > |data| {
        SegmentUnknown(data, pos);
      }
    }
  }

  /** The records read so far in front of the outcome of the rest of the scan */
  function Prefixed(done: seq<Segment>, rest: Result<seq<Segment>>): (r: Result<seq<Segment>>)
    ensures r.Ok? <==> rest.Ok?
    ensures r.Ok? ==> |r.value| == |done| + |rest.value| && r.value[..|done|] == done
  {
    match rest
    case Ok(segs) => Ok(done + segs)
    case Err(e) => Err(e)
  }

  lemma PrefixedAssoc(done: seq<Segment>, seg: Segment, rest: Result<seq<Segment>>)
    ensures Prefixed(done, Prefixed([seg], rest)) == Prefixed(done + [seg], rest)
  {
    if rest.Ok? {
      assert done + ([seg] + rest.value) == (done + [seg]) + rest.value;
    }
  }

  /** The loop of `segment_list` from the segment at pos, reading at most fuel
      segments; it goes on while `next_segment` is set and nonzero */
  function SegmentsWith(read: SegmentReader, data: seq<Byte>, pos: nat, fuel: nat): Result<seq<Segment>>
    decreases fuel
  {
    if fuel == 0 then Err(OutOfFuel)
    else
      match read(data, pos)
      case Err(e) => Err(e)
      case Ok(seg) =>
        if seg.nextSegment.Some? && seg.nextSegment.value != 0 then
          Prefixed([seg], SegmentsWith(read, data, seg.nextSegment.value, fuel - 1))
        else Ok([seg])
  }

  function SegmentsFrom(data: seq<Byte>, pos: nat, fuel: nat): Result<seq<Segment>>
  {
    SegmentsWith(SegmentAt, data, pos, fuel)
  }

  /** `segment_list`: opens the file at offset 0 and appends one record per
      segment until a record has no `next_segment` */
  method SegmentList(data: seq<Byte>, fuel: nat) returns (r: Result<seq<Segment>>)
    ensures r == SegmentsFrom(data, 0, fuel)
  {
    var segList: seq<Segment> := [];
    var pos := 0;
    var left := fuel;
    while true
      invariant SegmentsFrom(data, 0, fuel) == Prefixed(segList, SegmentsFrom(data, pos, left))
      decreases left
    {
      if left == 0 {
        return Err(OutOfFuel);
      }
      var seg := SegmentRead(data, pos);
      if seg.Err? {
        return Err(seg.error);
      }
      var before := segList;
      segList := segList + [seg.value];
      var nextseg := seg.value.nextSegment;
      if nextseg.Some? && nextseg.value != 0 {
        PrefixedAssoc(before, seg.value, SegmentsFrom(data, nextseg.value, left - 1));
        pos := nextseg.value;
        left := left - 1;
      } else {
        return Ok(segList);
      }
    }
  }

  /** A list of records as `segment_list` builds it: each record is what
      `segment_read` gives at its offset, and each but the last is neither SOS
      nor EOI and names the offset of the record after it */
  predicate ChainedWith(read: SegmentReader, data: seq<Byte>, segs: seq<Segment>)
  {
    (forall i :: 0 <= i < |segs| ==> read(data, segs[i].offset) == Ok(segs[i])) &&
    (forall i :: 0 <= i < |segs| - 1 ==> segs[i].nextSegment == Some(segs[i + 1].offset) && !IsStop(segs[i]))
  }

  predicate Chained(data: seq<Byte>, segs: seq<Segment>)
  {
    ChainedWith(SegmentAt, data, segs)
  }

  lemma ChainedCons(read: SegmentReader, data: seq<Byte>, seg: Segment, rest: seq<Segment>)
    requires read(data, seg.offset) == Ok(seg) && ChainedWith(read, data, rest)
    requires rest != [] ==> seg.nextSegment == Some(rest[0].offset) && !IsStop(seg)
    ensures ChainedWith(read, data, [seg] + rest)
  {
    var segs := [seg] + rest;
    assert forall i :: 1 <= i < |segs| ==> segs[i] == rest[i - 1];
  }

  lemma {:induction false} ShapeWith(read: SegmentReader, data: seq<Byte>, pos: nat, fuel: nat)
    requires ReaderSteps(read)
    ensures SegmentsWith(read, data, pos, fuel).Ok? ==>
              var segs := SegmentsWith(read, data, pos, fuel).value;
              1 <= |segs| <= fuel && segs[0].offset == pos && ChainedWith(read, data, segs) &&
              IsStop(segs[|segs| - 1])
    decreases fuel
  {
    if fuel > 0 && read(data, pos).Ok? {
      var seg := read(data, pos).value;
      if seg.nextSegment.Some? && seg.nextSegment.value != 0 {
        var next := seg.nextSegment.value;
        ShapeWith(read, data, next, fuel - 1);
        if SegmentsWith(read, data, next, fuel - 1).Ok? {
          var rest := SegmentsWith(read, data, next, fuel - 1).value;
          assert SegmentsWith(read, data, pos, fuel) == Ok([seg] + rest);
          assert !IsStop(seg) && read(data, seg.offset) == Ok(seg);
          ChainedCons(read, data, seg, rest);
          assert ([seg] + rest)[|rest|] == rest[|rest| - 1];
        }
      } else {
        assert SegmentsWith(read, data, pos, fuel) == Ok([seg]);
        assert IsStop(seg) && read(data, seg.offset) == Ok(seg);
        assert ChainedWith(read, data, [seg]);
      }
    }
  }

  /** What `segment_list` returns when it returns: at most one record per
      unit of fuel, the first at the starting offset, chained record to
      record, and ending at the first SOS or EOI record */
  lemma SegmentsShape(data: seq<Byte>, pos: nat, fuel: nat)
    ensures SegmentsFrom(data, pos, fuel).Ok? ==>
              var segs := SegmentsFrom(data, pos, fuel).value;
              1 <= |segs| <= fuel && segs[0].offset == pos && Chained(data, segs) && IsStop(segs[|segs| - 1])
  {
    SegmentAtSteps();
    ShapeWith(SegmentAt, data, pos, fuel);
  }

  /** `segment_list` starts at offset 0, so on a file that opens with SOI
      its first record is SOI */
  lemma SegmentListStartsAtSoi(data: seq<Byte>, fuel: nat)
    requires |data| >= 2 && data[..2] == [0xFF, 0xD8]
    ensures SegmentsFrom(data, 0, fuel).Ok? ==>
              SegmentsFrom(data, 0, fuel).value[0] == Segment(0, [0xFF, 0xD8], "SOI", false, false, None, Some(2))
  {
    SegmentsShape(data, 0, fuel);
    if SegmentsFrom(data, 0, fuel).Ok? {
      var first := SegmentsFrom(data, 0, fuel).value[0];
      assert SegmentAt(data, 0) == Ok(first);
      assert Read(data, 0, 2) == [0xFF, 0xD8];
      SegmentNoData(data, 0);
    }
  }

  lemma {:induction false} PastEndWith(read: SegmentReader, data: seq<Byte>, pos: nat, fuel: nat)
    requires ReaderSteps(read) && pos + 2 > |data|
    ensures SegmentsWith(read, data, pos, fuel) == Err(OutOfFuel)
    decreases fuel
  {
    if fuel > 0 {
      PastEndWith(read, data, pos + 2, fuel - 1);
    }
  }

  /** Past the end of the file every read is empty, the empty marker is
      unknown and so has no data, and the cursor moves on by 2: the loop of
      `segment_list` never ends there */
  lemma SegmentsPastEnd(data: seq<Byte>, pos: nat, fuel: nat)
    requires pos + 2 > |data|
    ensures SegmentsFrom(data, pos, fuel) == Err(OutOfFuel)
  {
    SegmentAtSteps();
    PastEndWith(SegmentAt, data, pos, fuel);
  }

  /** A file cut off after its SOI marker: `segment_list` never returns,
      however many segments it is allowed to read */
  lemma SegmentListTruncated(fuel: nat)
    ensures SegmentsFrom([0xFF, 0xD8], 0, fuel) == Err(OutOfFuel)
  {
    if fuel > 0 {
      var data: seq<Byte> := [0xFF, 0xD8];
      assert Read(data, 0, 2) == [0xFF, 0xD8];
      SegmentNoData(data, 0);
      SegmentsPastEnd(data, 2, fuel - 1);
    }
  }

  /** The loop as evidently intended: it also ends when fewer than two bytes
      are left for a marker, and then needs no bound */
  function ToEndWith(read: SegmentReader, data: seq<Byte>, pos: nat): (r: Result<seq<Segment>>)
    requires ReaderSteps(read)
    decreases |data| - pos
  {
    if pos + 2 > |data| then Ok([])
    else
      match read(data, pos)
      case Err(e) => Err(e)
      case Ok(seg) =>
        if seg.nextSegment.Some? && seg.nextSegment.value != 0 then
          Prefixed([seg], ToEndWith(read, data, seg.nextSegment.value))
        else Ok([seg])
  }

  function SegmentsToEnd(data: seq<Byte>, pos: nat): Result<seq<Segment>>
  {
    SegmentAtSteps();
    ToEndWith(SegmentAt, data, pos)
  }

  lemma {:induction false} AgreesWith(read: SegmentReader, data: seq<Byte>, pos: nat, fuel: nat)
    requires ReaderSteps(read) && SegmentsWith(read, data, pos, fuel) != Err(OutOfFuel)
    ensures ToEndWith(read, data, pos) == SegmentsWith(read, data, pos, fuel)
    decreases fuel
  {
    if pos + 2 > |data| {
      PastEndWith(read, data, pos, fuel);
    } else if read(data, pos).Ok? {
      var seg := read(data, pos).value;
      if seg.nextSegment.Some? && seg.nextSegment.value != 0 {
        AgreesWith(read, data, seg.nextSegment.value, fuel - 1);
      }
    }
  }

  /** Wherever the source's loop returns, the corrected loop returns the same */
  lemma SegmentsToEndAgrees(data: seq<Byte>, pos: nat, fuel: nat)
    requires SegmentsFrom(data, pos, fuel) != Err(OutOfFuel)
    ensures SegmentsToEnd(data, pos) == SegmentsFrom(data, pos, fuel)
  {
    SegmentAtSteps();
    AgreesWith(SegmentAt, data, pos, fuel);
  }

  lemma {:induction false} NoFuelWith(read: SegmentReader, data: seq<Byte>, pos: nat)
    requires ReaderSteps(read) && forall d: seq<Byte>, p: nat :: read(d, p) != Err(OutOfFuel)
    ensures ToEndWith(read, data, pos) != Err(OutOfFuel)
    decreases |data| - pos
  {
    if pos + 2 <= |data| && read(data, pos).Ok? {
      var seg := read(data, pos).value;
      if seg.nextSegment.Some? && seg.nextSegment.value != 0 {
        NoFuelWith(read, data, seg.nextSegment.value);
      }
    }
  }

  lemma {:induction false} ToEndShapeWith(read: SegmentReader, data: seq<Byte>, pos: nat)
    requires ReaderSteps(read)
    ensures ToEndWith(read, data, pos).Ok? ==>
              var segs := ToEndWith(read, data, pos).value;
              (segs == [] <==> pos + 2 > |data|) &&
              ChainedWith(read, data, segs) &&
              (forall i :: 0 <= i < |segs| ==> segs[i].offset + 2 <= |data|) &&
              (segs != [] ==>
                 segs[0].offset == pos &&
                 (IsStop(segs[|segs| - 1]) || segs[|segs| - 1].nextSegment.value + 2 > |data|))
    decreases |data| - pos
  {
    if pos + 2 <= |data| && read(data, pos).Ok? {
      var seg := read(data, pos).value;
      if seg.nextSegment.Some? && seg.nextSegment.value != 0 {
        var next := seg.nextSegment.value;
        ToEndShapeWith(read, data, next);
        if ToEndWith(read, data, next).Ok? {
          var rest := ToEndWith(read, data, next).value;
          var segs := [seg] + rest;
          if rest != [] {
            ChainedCons(read, data, seg, rest);
            assert segs[|segs| - 1] == rest[|rest| - 1];
          } else {
            assert ChainedWith(read, data, [seg]);
          }
          assert forall i :: 1 <= i < |segs| ==> segs[i] == rest[i - 1];
        }
      } else {
        assert ChainedWith(read, data, [seg]);
      }
    }
  }

  /** The corrected loop never runs out, records only markers inside the
      file, chained as `segment_list` chains them, and ends at SOS or EOI or
      where the next marker would lie past the end */
  lemma SegmentsToEndShape(data: seq<Byte>, pos: nat)
    ensures SegmentsToEnd(data, pos) != Err(OutOfFuel)
    ensures SegmentsToEnd(data, pos).Ok? ==>
              var segs := SegmentsToEnd(data, pos).value;
              (segs == [] <==> pos + 2 > |data|) &&
              Chained(data, segs) &&
              (forall i :: 0 <= i < |segs| ==> segs[i].offset + 2 <= |data|) &&
              (segs != [] ==>
                 segs[0].offset == pos &&
                 (IsStop(segs[|segs| - 1]) || segs[|segs| - 1].nextSegment.value + 2 > |data|))
  {
    SegmentAtSteps();
    forall d: seq<Byte>, p: nat
      ensures SegmentAt(d, p) != Err(OutOfFuel)
    {
      SegmentErrors(d, p);
    }
    NoFuelWith(SegmentAt, data, pos);
    ToEndShapeWith(SegmentAt, data, pos);
  }

  lemma {:induction false} CompleteWith(read: SegmentReader, data: seq<Byte>, pos: nat)
    requires ReaderSteps(read)
    requires ToEndWith(read, data, pos).Ok? && ToEndWith(read, data, pos).value != []
    requires IsStop(ToEndWith(read, data, pos).value[|ToEndWith(read, data, pos).value| - 1])
    ensures SegmentsWith(read, data, pos, |ToEndWith(read, data, pos).value|) == ToEndWith(read, data, pos)
    decreases |data| - pos
  {
    var seg := read(data, pos).value;
    if seg.nextSegment.Some? && seg.nextSegment.value != 0 {
      var next := seg.nextSegment.value;
      var rest := ToEndWith(read, data, next).value;
      assert ToEndWith(read, data, pos).value == [seg] + rest;
      if rest == [] {
        assert false;
      } else {
        assert ([seg] + rest)[|rest|] == rest[|rest| - 1];
        CompleteWith(read, data, next);
      }
    }
  }

  /** Where the corrected loop ends at SOS or EOI, the source's loop gives the
      same list, reading one segment per record */
  lemma SegmentsToEndComplete(data: seq<Byte>, pos: nat)
    requires SegmentsToEnd(data, pos).Ok? && SegmentsToEnd(data, pos).value != []
    requires IsStop(SegmentsToEnd(data, pos).value[|SegmentsToEnd(data, pos).value| - 1])
    ensures SegmentsFrom(data, pos, |SegmentsToEnd(data, pos).value|) == SegmentsToEnd(data, pos)
  {
    SegmentAtSteps();
    CompleteWith(SegmentAt, data, pos);
  }

  /** The small file of the segment map example: `segment_list` records SOI,
      the empty APP0 segment with its two payload bytes, and SOS */
  lemma SegmentListExample()
    ensures SegmentsFrom(EXAMPLE_FILE, 0, 3) ==
              Ok([Segment(0, [0xFF, 0xD8], "SOI", false, false, None, Some(2)),
                  Segment(2, [0xFF, 0xE0], "APP0", true, true, Some([0x00, 0x00]), Some(8)),
                  Segment(8, [0xFF, 0xDA], "SOS", true, false, None, None)])
  {
    var data := EXAMPLE_FILE;
    var soi := Segment(0, [0xFF, 0xD8], "SOI", false, false, None, Some(2));
    var app0 := Segment(2, [0xFF, 0xE0], "APP0", true, true, Some([0x00, 0x00]), Some(8));
    var sos := Segment(8, [0xFF, 0xDA], "SOS", true, false, None, None);
    ExampleSoi();
    ExampleApp0();
    ExampleSos();
    assert SegmentsWith(SegmentAt, data, 8, 1) == Ok([sos]);
    assert [app0] + [sos] == [app0, sos];
    assert Prefixed([app0], Ok([sos])) == Ok([app0, sos]);
    assert SegmentsWith(SegmentAt, data, 2, 2) == Prefixed([app0], Ok([sos]));
    assert SegmentsWith(SegmentAt, data, 0, 3) == Prefixed([soi], Ok([app0, sos]));
    assert [soi] + [app0, sos] == [soi, app0, sos];
  }

  lemma ExampleSoi()
    ensures SegmentAt(EXAMPLE_FILE, 0) == Ok(Segment(0, [0xFF, 0xD8], "SOI", false, false, None, Some(2)))
  {
    assert Read(EXAMPLE_FILE, 0, 2) == [0xFF, 0xD8];
    SegmentNoData(EXAMPLE_FILE, 0);
  }

  lemma ExampleApp0()
    ensures SegmentAt(EXAMPLE_FILE, 2) == Ok(Segment(2, [0xFF, 0xE0], "APP0", true, true, Some([0x00, 0x00]), Some(8)))
  {
    var data := EXAMPLE_FILE;
    SegInfoTable();
    assert data[2..4] == [0xFF, 0xE0];
    assert LengthAt(data, 2) == 4;
    SegmentMetaData(data, 2);
    assert Read(data, 6, 2) == [0x00, 0x00];
  }

  lemma ExampleSos()
    ensures SegmentAt(EXAMPLE_FILE, 8) == Ok(Segment(8, [0xFF, 0xDA], "SOS", true, false, None, None))
  {
    SegInfoTable();
    assert Read(EXAMPLE_FILE, 8, 2) == [0xFF, 0xDA];
    SegmentStops(EXAMPLE_FILE, 8);
  }
}
