/** One Image File Directory (IFD) of an Exif segment, as `read_ifd` reads it:
    a 2-byte entry count, that many 12-byte entries (tag, datatype, count,
    4-byte value field; section 4.6.2 of Exif 2.3) and a 4-byte offset of the
    next IFD. Pointer tags to the Exif-specific IFDs (section 4.6.3) feed a
    queue; every other entry becomes a record of the metadata dictionary. */
module Ifd {
  import opened Bytes
  import opened Text
  import opened JpegData
  import opened Decoder
  import opened ExifValue

  /** One directory entry as decoded; a field of the wrong length decodes to None */
  datatype Entry = Entry(tag: Option<nat>, dataType: Option<nat>, count: Option<nat>, tagData: seq<Byte>)

  /** The entry at q: four reads in a row of 2, 2, 4 and 4 bytes */
  function EntryAt(data: seq<Byte>, q: nat, order: ByteOrder): Entry
  {
    var afterTag := Advance(data, q, 2);
    var afterType := Advance(data, afterTag, 2);
    var afterCount := Advance(data, afterType, 4);
    Entry(DecodeUint(order, Read(data, q, 2)), DecodeUint(order, Read(data, afterTag, 2)),
          DecodeUint(order, Read(data, afterType, 4)), Read(data, afterCount, 4))
  }

  /** An entry that lies inside the data holds its fields at the fixed offsets
      0, 2, 4 and 8, and the cursor ends 12 bytes on */
  lemma EntryLayout(data: seq<Byte>, q: nat, order: ByteOrder)
    ensures Advance(data, Advance(data, Advance(data, Advance(data, q, 2), 2), 4), 4) == Advance(data, q, 12)
    ensures q + 12 <= |data| ==>
              EntryAt(data, q, order) ==
              Entry(DecodeUint(order, data[q..q + 2]), DecodeUint(order, data[q + 2..q + 4]),
                    DecodeUint(order, data[q + 4..q + 8]), data[q + 8..q + 12])
  {
    ReadTwice(data, q, 2, 2);
    ReadTwice(data, q, 4, 4);
    ReadTwice(data, q, 8, 4);
  }

  /** The n entries of an IFD whose first entry starts at start: entry i
      lies 12*i bytes after the first */
  function Entries(data: seq<Byte>, start: nat, order: ByteOrder, n: nat): (es: seq<Entry>)
    ensures |es| == n
  {
    seq(n, i requires 0 <= i < n => EntryAt(data, Advance(data, start, 12 * i), order))
  }

  /** The Exif IFD, GPS IFD and Interoperability IFD pointers */
  predicate IsPointerTag(tag: Option<nat>)
  {
    tag == Some(34665) || tag == Some(34853) || tag == Some(40965)
  }

  /** `exiftag(exif_tag_no)`, where a tag that failed to decode is None */
  function TagName(tags: map<string, string>, tag: Option<nat>): string
  {
    ExifTag(tags, if tag.Some? then IntTag(tag.value) else NoneTag)
  }

  function EntryKey(tags: map<string, string>, e: Entry): string
  {
    "Exif|" + TagName(tags, e.tag)
  }

  /** The record of a non-pointer entry: the rendered value, `str(tag)`, the
      datatype and the count */
  function EntryRecord(e: Entry, order: ByteOrder): (r: Result<MetaValue>)
    ensures r.Err? <==> RenderValue(e.tagData, e.dataType, order).Err?
    ensures r.Ok? ==> r.value.display == RenderValue(e.tagData, e.dataType, order).value &&
                      r.value.tagNo == OptText(e.tag) &&
                      r.value.dataType == OptField(e.dataType) && r.value.count == OptField(e.count)
  {
    match RenderValue(e.tagData, e.dataType, order)
    case Err(err) => Err(err)
    case Ok(v) => Ok(MetaValue(v, OptText(e.tag), OptField(e.dataType), OptField(e.count)))
  }

  /** The metadata dictionary and the sub-IFD queue, which `read_ifd` updates */
  datatype IfdState = IfdState(meta: MetaDict, queue: seq<Option<nat>>)

  /** What one entry adds to the queue: its decoded offset if it is a pointer */
  function PointersOf(e: Entry, order: ByteOrder): seq<Option<nat>>
  {
    if IsPointerTag(e.tag) then [DecodeUint(order, e.tagData)] else []
  }

  /** One pass of the entry loop */
  function ApplyEntry(tags: map<string, string>, st: IfdState, e: Entry, order: ByteOrder): Result<IfdState>
  {
    if IsPointerTag(e.tag) then Ok(IfdState(st.meta, st.queue + [DecodeUint(order, e.tagData)]))
    else
      match EntryRecord(e, order)
      case Err(err) => Err(err)
      case Ok(rec) => Ok(IfdState(st.meta[EntryKey(tags, e) := rec], st.queue))
  }

  /** One pass of the entry loop, as a value */
  type EntryStep = (IfdState, Entry) -> Result<IfdState>

  function EntryApplier(tags: map<string, string>, order: ByteOrder): EntryStep
  {
    (s: IfdState, e: Entry) => ApplyEntry(tags, s, e, order)
  }

  /** apply is the pass of the entry loop for this tag table and byte order.
      The trigger lets a proof learn what apply does to an entry only where it
      already speaks of ApplyEntry there. */
  ghost predicate AppliesEntries(apply: EntryStep, tags: map<string, string>, order: ByteOrder)
  {
    forall s: IfdState, e: Entry {:trigger ApplyEntry(tags, s, e, order)} :: apply(s, e) == ApplyEntry(tags, s, e, order)
  }

  lemma EntryApplierApplies(tags: map<string, string>, order: ByteOrder)
    ensures AppliesEntries(EntryApplier(tags, order), tags, order)
  {
  }

  /** The passes of the entry loop over es from entry i on, starting from st */
  function FoldEntries(apply: EntryStep, st: IfdState, es: seq<Entry>, i: nat): Result<IfdState>
    requires i <= |es|
    decreases |es| - i
  {
    if i == |es| then Ok(st)
    else
      match apply(st, es[i])
      case Err(err) => Err(err)
      case Ok(s) => FoldEntries(apply, s, es, i + 1)
  }

  /** The entry loop from entry i on, starting from state st */
  function ApplyEntries(tags: map<string, string>, st: IfdState, es: seq<Entry>, order: ByteOrder, i: nat)
    : Result<IfdState>
    requires i <= |es|
  {
    FoldEntries(EntryApplier(tags, order), st, es, i)
  }

  /** The entry count read at the start of the IFD at pos */
  function IfdCount(data: seq<Byte>, pos: nat, align: seq<Byte>): (count: Option<nat>)
    ensures count.Some? ==> count.value < 0x1_0000
  {
    DecodeUint(OrderOf(align), Read(data, pos, 2))
  }

  /** What `read_ifd` leaves behind: the updated state, the next-IFD offset it
      returns, and the cursor */
  datatype IfdEnd = IfdEnd(state: IfdState, next: Option<nat>, pos: nat)

  /** `read_ifd` for the IFD at pos, with apply as the pass of its entry loop;
      `range(None)` fails when the count does not decode */
  function ReadIfdWith(apply: EntryStep, data: seq<Byte>, pos: nat, align: seq<Byte>, st: IfdState): Result<IfdEnd>
  {
    var order := OrderOf(align);
    var count := IfdCount(data, pos, align);
    if count.None? then Err(TypeError)
    else
      var start := Advance(data, pos, 2);
      match FoldEntries(apply, st, Entries(data, start, order, count.value), 0)
      case Err(err) => Err(err)
      case Ok(s) =>
        var tail := Advance(data, start, 12 * count.value);
        Ok(IfdEnd(s, DecodeUint(order, Read(data, tail, 4)), Advance(data, tail, 4)))
  }

  /** `read_ifd` for the IFD at pos with the tag table tags */
  function ReadIfdSpec(tags: map<string, string>, data: seq<Byte>, pos: nat, align: seq<Byte>, st: IfdState)
    : Result<IfdEnd>
  {
    ReadIfdWith(EntryApplier(tags, OrderOf(align)), data, pos, align, st)
  }

  /** The decoded pointers among the entries from i on, in entry order */
  function PointerOffsets(es: seq<Entry>, order: ByteOrder, i: nat): seq<Option<nat>>
    requires i <= |es|
    decreases |es| - i
  {
    if i == |es| then [] else PointersOf(es[i], order) + PointerOffsets(es, order, i + 1)
  }

  predicate EntryFails(e: Entry, order: ByteOrder)
  {
    !IsPointerTag(e.tag) && RenderValue(e.tagData, e.dataType, order).Err?
  }

  /** A pass that appends the pointers of its entry to the queue */
  ghost predicate QueueStep(apply: EntryStep, order: ByteOrder)
  {
    forall s: IfdState, e: Entry :: apply(s, e).Ok? ==> apply(s, e).value.queue == s.queue + PointersOf(e, order)
  }

  /** A pass that fails exactly on an entry that cannot be rendered */
  ghost predicate FailStep(apply: EntryStep, order: ByteOrder)
  {
    forall s: IfdState, e: Entry :: apply(s, e).Err? <==> EntryFails(e, order)
  }

  /** A pass that leaves the dictionary alone for a pointer and otherwise
      writes the record of its entry under the entry's key */
  ghost predicate RecordStep(apply: EntryStep, tags: map<string, string>, order: ByteOrder)
  {
    forall s: IfdState, e: Entry :: apply(s, e).Ok? ==>
      if IsPointerTag(e.tag) then apply(s, e).value.meta == s.meta
      else EntryRecord(e, order).Ok? && apply(s, e).value.meta == s.meta[EntryKey(tags, e) := EntryRecord(e, order).value]
  }

  /** The pass of the entry loop is of all three kinds */
  lemma EntryApplierSteps(tags: map<string, string>, order: ByteOrder)
    ensures QueueStep(EntryApplier(tags, order), order)
    ensures FailStep(EntryApplier(tags, order), order)
    ensures RecordStep(EntryApplier(tags, order), tags, order)
  {
  }

  lemma {:induction false} FoldQueue(apply: EntryStep, order: ByteOrder, st: IfdState, es: seq<Entry>, i: nat)
    requires QueueStep(apply, order) && i <= |es|
    ensures var r := FoldEntries(apply, st, es, i);
            r.Ok? ==> r.value.queue == st.queue + PointerOffsets(es, order, i)
    decreases |es| - i
  {
    if i < |es| {
      var s := apply(st, es[i]);
      if s.Ok? {
        FoldQueue(apply, order, s.value, es, i + 1);
        var head := PointersOf(es[i], order);
        assert st.queue + head + PointerOffsets(es, order, i + 1) == st.queue + (head + PointerOffsets(es, order, i + 1));
      }
    }
  }

  lemma {:induction false} FoldFails(apply: EntryStep, order: ByteOrder, st: IfdState, es: seq<Entry>, i: nat)
    requires FailStep(apply, order) && i <= |es|
    ensures FoldEntries(apply, st, es, i).Err? <==> exists j :: i <= j < |es| && EntryFails(es[j], order)
    decreases |es| - i
  {
    if i < |es| {
      var s := apply(st, es[i]);
      if s.Ok? {
        FoldFails(apply, order, s.value, es, i + 1);
        if exists j :: i <= j < |es| && EntryFails(es[j], order) {
          var j :| i <= j < |es| && EntryFails(es[j], order);
          assert i + 1 <= j;
        }
      }
    }
  }

  lemma {:induction false} FoldUntouched(apply: EntryStep, tags: map<string, string>, order: ByteOrder, st: IfdState,
                                         es: seq<Entry>, i: nat, key: string)
    requires RecordStep(apply, tags, order) && i <= |es|
    requires forall j :: i <= j < |es| && !IsPointerTag(es[j].tag) ==> EntryKey(tags, es[j]) != key
    ensures var r := FoldEntries(apply, st, es, i);
            r.Ok? ==> (key in r.value.meta <==> key in st.meta) &&
                      (key in st.meta ==> r.value.meta[key] == st.meta[key])
    decreases |es| - i
  {
    if i < |es| {
      var s := apply(st, es[i]);
      if s.Ok? {
        FoldUntouched(apply, tags, order, s.value, es, i + 1, key);
      }
    }
  }

  lemma {:induction false} FoldLastWrite(apply: EntryStep, tags: map<string, string>, order: ByteOrder, st: IfdState,
                                         es: seq<Entry>, i: nat, j: nat)
    requires RecordStep(apply, tags, order)
    requires i <= j < |es| && !IsPointerTag(es[j].tag)
    requires forall l :: j < l < |es| && !IsPointerTag(es[l].tag) ==> EntryKey(tags, es[l]) != EntryKey(tags, es[j])
    ensures var r := FoldEntries(apply, st, es, i);
            r.Ok? ==>
              EntryRecord(es[j], order).Ok? && EntryKey(tags, es[j]) in r.value.meta &&
              r.value.meta[EntryKey(tags, es[j])] == EntryRecord(es[j], order).value
    decreases |es| - i
  {
    var s := apply(st, es[i]);
    if s.Ok? {
      if i < j {
        FoldLastWrite(apply, tags, order, s.value, es, i + 1, j);
      } else {
        FoldUntouched(apply, tags, order, s.value, es, i + 1, EntryKey(tags, es[j]));
      }
    }
  }

  /** The queue only grows at the back, by the pointers of the entries in order */
  lemma ApplyEntriesQueue(tags: map<string, string>, st: IfdState, es: seq<Entry>, order: ByteOrder, i: nat)
    requires i <= |es|
    ensures var r := ApplyEntries(tags, st, es, order, i);
            r.Ok? ==> r.value.queue == st.queue + PointerOffsets(es, order, i)
  {
    EntryApplierSteps(tags, order);
    FoldQueue(EntryApplier(tags, order), order, st, es, i);
  }

  /** The loop fails exactly when some non-pointer entry cannot be rendered */
  lemma ApplyEntriesFails(tags: map<string, string>, st: IfdState, es: seq<Entry>, order: ByteOrder, i: nat)
    requires i <= |es|
    ensures ApplyEntries(tags, st, es, order, i).Err? <==> exists j :: i <= j < |es| && EntryFails(es[j], order)
  {
    EntryApplierSteps(tags, order);
    FoldFails(EntryApplier(tags, order), order, st, es, i);
  }

  /** A key no non-pointer entry writes keeps its old presence and value */
  lemma ApplyEntriesUntouched(tags: map<string, string>, st: IfdState, es: seq<Entry>, order: ByteOrder, i: nat,
                              key: string)
    requires i <= |es|
    requires forall j :: i <= j < |es| && !IsPointerTag(es[j].tag) ==> EntryKey(tags, es[j]) != key
    ensures var r := ApplyEntries(tags, st, es, order, i);
            r.Ok? ==> (key in r.value.meta <==> key in st.meta) &&
                      (key in st.meta ==> r.value.meta[key] == st.meta[key])
  {
    EntryApplierSteps(tags, order);
    FoldUntouched(EntryApplier(tags, order), tags, order, st, es, i, key);
  }

  /** Last write wins: the record under a written key is that of the last
      non-pointer entry with that key */
  lemma ApplyEntriesLastWrite(tags: map<string, string>, st: IfdState, es: seq<Entry>, order: ByteOrder, i: nat, j: nat)
    requires i <= j < |es| && !IsPointerTag(es[j].tag)
    requires forall l :: j < l < |es| && !IsPointerTag(es[l].tag) ==> EntryKey(tags, es[l]) != EntryKey(tags, es[j])
    ensures var r := ApplyEntries(tags, st, es, order, i);
            r.Ok? ==>
              EntryRecord(es[j], order).Ok? && EntryKey(tags, es[j]) in r.value.meta &&
              r.value.meta[EntryKey(tags, es[j])] == EntryRecord(es[j], order).value
  {
    EntryApplierSteps(tags, order);
    FoldLastWrite(EntryApplier(tags, order), tags, order, st, es, i, j);
  }

  /** `read_ifd` consumes 2 + 12*n + 4 bytes for n entries (fewer at the end
      of the data) and returns the 4 bytes after the last entry as the offset
      of the next IFD. Both depend on the data alone, not on the state or on
      what the entry loop does. */
  lemma ReadIfdConsumes(apply: EntryStep, data: seq<Byte>, pos: nat, align: seq<Byte>, st: IfdState)
    requires ReadIfdWith(apply, data, pos, align, st).Ok?
    ensures var order := OrderOf(align);
            var n := IfdCount(data, pos, align).value;
            var r := ReadIfdWith(apply, data, pos, align, st).value;
            r.pos == Advance(data, pos, 2 + 12 * n + 4) &&
            r.next == IfdNext(data, pos, align) &&
            (pos + 2 + 12 * n + 4 <= |data| ==>
               r.pos == pos + 2 + 12 * n + 4 &&
               r.next == DecodeUint(order, data[pos + 2 + 12 * n..pos + 2 + 12 * n + 4]))
  {
    var n := IfdCount(data, pos, align).value;
    ReadIfdWithEnd(apply, data, pos, align, st);
    IfdTailRead(data, pos, n, OrderOf(align));
  }

  /** What `read_ifd` returns once its entries are applied: the next offset and
      the cursor after the four bytes that follow the entries */
  lemma ReadIfdWithEnd(apply: EntryStep, data: seq<Byte>, pos: nat, align: seq<Byte>, st: IfdState)
    requires ReadIfdWith(apply, data, pos, align, st).Ok?
    ensures var n := IfdCount(data, pos, align).value;
            var tail := Advance(data, Advance(data, pos, 2), 12 * n);
            var r := ReadIfdWith(apply, data, pos, align, st).value;
            r.pos == Advance(data, tail, 4) && r.next == DecodeUint(OrderOf(align), Read(data, tail, 4))
  {
  }

  /** The next offset `read_ifd` decodes after n entries, and where it leaves the cursor */
  lemma IfdTailRead(data: seq<Byte>, pos: nat, n: nat, order: ByteOrder)
    ensures var tail := Advance(data, Advance(data, pos, 2), 12 * n);
            Advance(data, tail, 4) == Advance(data, pos, 2 + 12 * n + 4) &&
            Read(data, tail, 4) == Read(data, Advance(data, pos, 2 + 12 * n), 4) &&
            (pos + 2 + 12 * n + 4 <= |data| ==>
               Advance(data, tail, 4) == pos + 2 + 12 * n + 4 &&
               Read(data, tail, 4) == data[pos + 2 + 12 * n..pos + 2 + 12 * n + 4])
  {
    IfdTail(data, pos, n);
  }

  /** The cursor positions of `read_ifd` after the count, the entries and the
      next offset */
  lemma IfdTail(data: seq<Byte>, pos: nat, n: nat)
    ensures var tail := Advance(data, Advance(data, pos, 2), 12 * n);
            tail == Advance(data, pos, 2 + 12 * n) &&
            Advance(data, tail, 4) == Advance(data, pos, 2 + 12 * n + 4) &&
            (pos + 2 + 12 * n + 4 <= |data| ==> tail == pos + 2 + 12 * n)
  {
    AdvanceTwice(data, pos, 2, 12 * n);
    AdvanceTwice(data, pos, 2 + 12 * n, 4);
  }

  /** `read_ifd` only appends to the queue: the pointers of its entries, in order */
  lemma ReadIfdQueue(tags: map<string, string>, data: seq<Byte>, pos: nat, align: seq<Byte>, st: IfdState)
    requires ReadIfdSpec(tags, data, pos, align, st).Ok?
    ensures var order := OrderOf(align);
            var n := IfdCount(data, pos, align).value;
            ReadIfdSpec(tags, data, pos, align, st).value.state.queue ==
              st.queue + PointerOffsets(Entries(data, Advance(data, pos, 2), order, n), order, 0)
    ensures st.queue <= ReadIfdSpec(tags, data, pos, align, st).value.state.queue
  {
    var order := OrderOf(align);
    var n := IfdCount(data, pos, align).value;
    EntryApplierSteps(tags, order);
    FoldQueue(EntryApplier(tags, order), order, st, Entries(data, Advance(data, pos, 2), order, n), 0);
  }

  /** The next-IFD offset of the IFD at pos, read straight after its entries */
  function IfdNext(data: seq<Byte>, pos: nat, align: seq<Byte>): Option<nat>
  {
    var order := OrderOf(align);
    var count := IfdCount(data, pos, align);
    var n := if count.Some? then count.value else 0;
    DecodeUint(order, Read(data, Advance(data, pos, 2 + 12 * n), 4))
  }

  /** Whether `read_ifd` fails at pos depends on the data alone: the count
      does not decode, or some non-pointer entry cannot be rendered */
  lemma ReadIfdFails(tags: map<string, string>, data: seq<Byte>, pos: nat, align: seq<Byte>, st: IfdState)
    ensures var order := OrderOf(align);
            var count := IfdCount(data, pos, align);
            ReadIfdSpec(tags, data, pos, align, st).Err? <==>
              count.None? ||
              exists i :: 0 <= i < count.value && EntryFails(Entries(data, Advance(data, pos, 2), order, count.value)[i], order)
  {
    var order := OrderOf(align);
    var count := IfdCount(data, pos, align);
    if count.Some? {
      var es := Entries(data, Advance(data, pos, 2), order, count.value);
      EntryApplierSteps(tags, order);
      FoldFails(EntryApplier(tags, order), order, st, es, 0);
    }
  }
}
