/** `read_app1_exif`: the framing of an APP1 Exif segment, then the IFD0 chain
    (each IFD's trailing offset names the next, 0 ends the chain), then the
    queue of Exif-specific IFDs (section 4.6.3 of Exif 2.3) taken first in,
    first out, each followed down its own chain. Offsets count from the TIFF
    header. Nothing in the source guards against a cycle of offsets, so the
    specification counts IFD reads against a fuel bound. */
module ExifWalk {
  import opened Bytes
  import opened Text
  import opened Decoder
  import opened ExifValue
  import opened Headers
  import opened Ifd

  /** `read_ifd` as the walk sees it: from the absolute position of an IFD and
      the state before it to what the read leaves behind */
  type IfdReader = (nat, IfdState) -> Result<IfdEnd>

  /** The reader of one Exif segment: its tag table, its data and the byte
      order of its TIFF header */
  function SegmentReader(tags: map<string, string>, data: seq<Byte>, align: seq<Byte>): IfdReader
  {
    (p: nat, s: IfdState) => ReadIfdSpec(tags, data, p, align, s)
  }

  /** The state of a walk, the fuel left, and the absolute positions of the
      IFDs read so far, in order */
  datatype Walk = Walk(state: IfdState, fuel: nat, visited: seq<nat>)

  /** `while offset_ifd > 0: ... offset_ifd = read_ifd(...)`; `None > 0` fails */
  function FollowChain(read: IfdReader, base: nat, st: IfdState, off: Option<nat>, fuel: nat, seen: seq<nat>)
    : (r: Result<Walk>)
    ensures r.Ok? ==> r.value.fuel <= fuel && r.value.fuel + |r.value.visited| == fuel + |seen|
    ensures r.Ok? ==> seen <= r.value.visited
    ensures r.Ok? && r.value.fuel == fuel ==> r.value.state == st
    decreases fuel
  {
    if off.None? then Err(TypeError)
    else if off.value == 0 then Ok(Walk(st, fuel, seen))
    else if fuel == 0 then Err(OutOfFuel)
    else
      match read(base + off.value, st)
      case Err(e) => Err(e)
      case Ok(r) => FollowChain(read, base, r.state, r.next, fuel - 1, seen + [base + off.value])
  }

  /** `while len(subifd_queue) > 0: offset_ifd = subifd_queue.popleft()` and
      the chain from that offset */
  function Drain(read: IfdReader, base: nat, st: IfdState, fuel: nat, seen: seq<nat>): (r: Result<Walk>)
    ensures r.Ok? ==> r.value.state.queue == [] && r.value.fuel <= fuel
    ensures r.Ok? ==> seen <= r.value.visited
    decreases fuel, |st.queue|
  {
    if st.queue == [] then Ok(Walk(st, fuel, seen))
    else
      match FollowChain(read, base, IfdState(st.meta, st.queue[1..]), st.queue[0], fuel, seen)
      case Err(e) => Err(e)
      case Ok(w) => Drain(read, base, w.state, w.fuel, w.visited)
  }

  /** One pass of the chain loop: the IFD at base + off is read, and the
      walk either stops with its error or goes on from its next offset */
  lemma FollowChainStep(read: IfdReader, base: nat, st: IfdState, off: Option<nat>, fuel: nat, seen: seq<nat>)
    requires off.Some? && off.value != 0 && fuel > 0
    ensures var res := read(base + off.value, st);
            FollowChain(read, base, st, off, fuel, seen) ==
              if res.Err? then Err(res.error)
              else FollowChain(read, base, res.value.state, res.value.next, fuel - 1, seen + [base + off.value])
  {
  }

  /** The chain from IFD0, then the queue */
  function WalkFrom(read: IfdReader, base: nat, st: IfdState, ifd0: Option<nat>, fuel: nat): Result<Walk>
  {
    match FollowChain(read, base, st, ifd0, fuel, [])
    case Err(e) => Err(e)
    case Ok(w) => Drain(read, base, w.state, w.fuel, w.visited)
  }

  /** The framing checks of `read_app1_exif` before its walk: the APP1 marker,
      the size (skipped), the Exif identifier and the TIFF header 10 bytes
      into the segment */
  function ExifFraming(data: seq<Byte>, segOffset: nat): (r: Result<TiffHeader>)
  {
    match VerifyMarker(data, segOffset, "APP1")
    case Err(e) => Err(e)
    case Ok(afterMarker) =>
      match VerifyExifHeader(data, Advance(data, afterMarker, 2))
      case Err(e) => Err(e)
      case Ok(afterExif) => VerifyTiffHeader(data, afterExif)
  }

  /** The framing passes exactly when the Exif identifier sits 4 bytes into
      the segment and a valid TIFF header follows it */
  lemma ExifFramingOk(data: seq<Byte>, o: nat)
    ensures ExifFraming(data, o).Ok? <==>
              o + 10 <= |data| && data[o + 4..o + 10] == EXIF_HEADER && VerifyTiffHeader(data, o + 10).Ok?
    ensures ExifFraming(data, o).Ok? ==> o + 14 <= |data| && ExifFraming(data, o) == VerifyTiffHeader(data, o + 10)
  {
    assert VerifyMarker(data, o, "APP1") == Ok(Advance(data, o, 2));
    AdvanceTwice(data, o, 2, 2);
    var afterSize := Advance(data, o, 4);
    if o + 10 <= |data| {
      assert afterSize == o + 4;
      if data[o + 4..o + 10] == EXIF_HEADER {
        assert VerifyExifHeader(data, afterSize) == Ok(o + 10);
      } else {
        assert VerifyExifHeader(data, afterSize).Err?;
      }
    } else {
      assert VerifyExifHeader(data, afterSize).Err?;
    }
  }

  /** `read_app1_exif` as a value: the framing, then the walk from IFD0 */
  function ReadApp1ExifSpec(tags: map<string, string>, data: seq<Byte>, segOffset: nat, meta: MetaDict, fuel: nat)
    : Result<Walk>
  {
    match ExifFraming(data, segOffset)
    case Err(e) => Err(e)
    case Ok(h) => WalkFrom(SegmentReader(tags, data, h.alignment), h.base, IfdState(meta, []), h.ifd0, fuel)
  }

  /** read is the reader of the segment with this tag table, data and byte
      order. The trigger lets a proof learn what read returns at a position only
      where it already speaks of `read_ifd` there, so that following a chain
      does not unfold every IFD on it. */
  ghost predicate ReadsSegment(read: IfdReader, tags: map<string, string>, data: seq<Byte>, align: seq<Byte>)
  {
    forall p: nat, s: IfdState {:trigger ReadIfdSpec(tags, data, p, align, s)} ::
      read(p, s) == ReadIfdSpec(tags, data, p, align, s)
  }

  lemma SegmentReaderReads(tags: map<string, string>, data: seq<Byte>, align: seq<Byte>)
    ensures ReadsSegment(SegmentReader(tags, data, align), tags, data, align)
  {
  }

  /** A reader that only ever appends to the queue */
  ghost predicate AppendsToQueue(read: IfdReader)
  {
    forall p: nat, s: IfdState :: read(p, s).Ok? ==> s.queue <= read(p, s).value.state.queue
  }

  /** The next-IFD offset stored at each position */
  type NextOffsets = nat -> Option<nat>

  /** The next-IFD offsets a segment stores after the entries of each IFD */
  function StoredNext(data: seq<Byte>, align: seq<Byte>): NextOffsets
  {
    (p: nat) => IfdNext(data, p, align)
  }

  /** A reader that returns the stored next offset, whatever the state */
  ghost predicate ReturnsNext(read: IfdReader, next: NextOffsets)
  {
    forall p: nat, s: IfdState :: read(p, s).Ok? ==> read(p, s).value.next == next(p)
  }

  /** The reader of a segment has both properties */
  lemma SegmentReaderFacts(tags: map<string, string>, data: seq<Byte>, align: seq<Byte>)
    ensures AppendsToQueue(SegmentReader(tags, data, align))
    ensures ReturnsNext(SegmentReader(tags, data, align), StoredNext(data, align))
  {
    var read := SegmentReader(tags, data, align);
    forall p: nat, s: IfdState | read(p, s).Ok?
      ensures s.queue <= read(p, s).value.state.queue
      ensures read(p, s).value.next == StoredNext(data, align)(p)
    {
      ReadIfdQueue(tags, data, p, align, s);
      ReadIfdConsumes(EntryApplier(tags, OrderOf(align)), data, p, align, s);
    }
  }

  /** vs is the chain of IFD positions that starts at offset off, each IFD's
      stored next offset naming the next, up to an IFD whose next offset is 0.
      For StoredNext it is a property of the data alone. */
  ghost predicate IsChain(next: NextOffsets, base: nat, off: nat, vs: seq<nat>)
    decreases |vs|
  {
    if off == 0 then vs == []
    else
      vs != [] && vs[0] == base + off && next(vs[0]).Some? &&
      IsChain(next, base, next(vs[0]).value, vs[1..])
  }

  /** There is at most one chain from an offset */
  lemma {:induction false} IsChainUnique(next: NextOffsets, base: nat, off: nat, a: seq<nat>, b: seq<nat>)
    requires IsChain(next, base, off, a) && IsChain(next, base, off, b)
    ensures a == b
    decreases |a|
  {
    if off != 0 {
      IsChainUnique(next, base, next(a[0]).value, a[1..], b[1..]);
    }
  }

  /** A chain that completes reads exactly the IFDs of the chain from its
      offset, in order */
  lemma {:induction false} FollowChainVisits(read: IfdReader, next: NextOffsets, base: nat,
                                              st: IfdState, off: Option<nat>, fuel: nat, seen: seq<nat>)
    requires ReturnsNext(read, next)
    requires FollowChain(read, base, st, off, fuel, seen).Ok?
    ensures var w := FollowChain(read, base, st, off, fuel, seen).value;
            off.Some? && IsChain(next, base, off.value, w.visited[|seen|..])
    decreases fuel
  {
    var w := FollowChain(read, base, st, off, fuel, seen).value;
    if off.value != 0 {
      var at := base + off.value;
      var r := read(at, st).value;
      var seen2: seq<nat> := seen + [at];
      assert FollowChain(read, base, st, off, fuel, seen) == FollowChain(read, base, r.state, r.next, fuel - 1, seen2);
      FollowChainVisits(read, next, base, r.state, r.next, fuel - 1, seen2);
      assert r.next == next(at);
      assert w.visited[|seen|..][1..] == w.visited[|seen2|..];
      assert w.visited[|seen|] == at;
    }
  }

  /** A chain only appends to the queue */
  lemma {:induction false} FollowChainQueue(read: IfdReader, base: nat, st: IfdState, off: Option<nat>, fuel: nat,
                                             seen: seq<nat>)
    requires AppendsToQueue(read)
    requires FollowChain(read, base, st, off, fuel, seen).Ok?
    ensures st.queue <= FollowChain(read, base, st, off, fuel, seen).value.state.queue
    decreases fuel
  {
    if off.value != 0 {
      var at := base + off.value;
      var r := read(at, st).value;
      var seen2: seq<nat> := seen + [at];
      assert FollowChain(read, base, st, off, fuel, seen) == FollowChain(read, base, r.state, r.next, fuel - 1, seen2);
      FollowChainQueue(read, base, r.state, r.next, fuel - 1, seen2);
      PrefixTrans(st.queue, r.state.queue, FollowChain(read, base, st, off, fuel, seen).value.state.queue);
    }
  }

  lemma PrefixTrans<T>(a: seq<T>, b: seq<T>, c: seq<T>)
    requires a <= b && b <= c
    ensures a <= c
  {
    assert b[..|a|] == c[..|a|];
  }

  function Concat(chains: seq<seq<nat>>): seq<nat>
    decreases |chains|
  {
    if chains == [] then [] else chains[0] + Concat(chains[1..])
  }

  lemma {:induction false} ConcatPrefix(chains: seq<seq<nat>>, k: nat)
    requires k <= |chains|
    ensures Concat(chains[..k]) <= Concat(chains)
    decreases k
  {
    if k > 0 {
      assert chains[..k][1..] == chains[1..][..k - 1];
      ConcatPrefix(chains[1..], k - 1);
    }
  }

  lemma ConcatCons(seen: seq<nat>, first: seq<nat>, chains: seq<seq<nat>>)
    ensures seen + Concat([first] + chains) == (seen + first) + Concat(chains)
  {
    assert ([first] + chains)[1..] == chains;
  }

  lemma AppendPrefix<T>(c: seq<T>, a: seq<T>, b: seq<T>)
    requires a <= b
    ensures c + a <= c + b
  {
    assert (c + b)[..|c + a|] == c + a;
  }

  /** First in, first out: the queue entries present when draining starts are
      followed in queue order, each down its whole chain, before anything
      they add to the queue */
  lemma {:induction false} DrainFifo(read: IfdReader, next: NextOffsets, base: nat,
                                      st: IfdState, fuel: nat, seen: seq<nat>)
    returns (chains: seq<seq<nat>>)
    requires AppendsToQueue(read) && ReturnsNext(read, next)
    requires Drain(read, base, st, fuel, seen).Ok?
    ensures |chains| == |st.queue|
    ensures forall i :: 0 <= i < |chains| ==>
              st.queue[i].Some? && IsChain(next, base, st.queue[i].value, chains[i])
    ensures seen + Concat(chains) <= Drain(read, base, st, fuel, seen).value.visited
    decreases fuel, |st.queue|
  {
    if st.queue == [] {
      chains := [];
    } else {
      var st1 := IfdState(st.meta, st.queue[1..]);
      var w := FollowChain(read, base, st1, st.queue[0], fuel, seen).value;
      assert Drain(read, base, st, fuel, seen) == Drain(read, base, w.state, w.fuel, w.visited);
      FollowChainVisits(read, next, base, st1, st.queue[0], fuel, seen);
      FollowChainQueue(read, base, st1, st.queue[0], fuel, seen);
      var first := w.visited[|seen|..];
      var later := DrainFifo(read, next, base, w.state, w.fuel, w.visited);
      var rest := |st.queue| - 1;
      assert st.queue[1..] <= w.state.queue;
      chains := [first] + later[..rest];
      forall i | 0 <= i < |chains|
        ensures st.queue[i].Some? && IsChain(next, base, st.queue[i].value, chains[i])
      {
        if i > 0 {
          assert chains[i] == later[i - 1];
          assert st.queue[i] == w.state.queue[i - 1];
        }
      }
      ConcatPrefix(later, rest);
      assert w.visited == seen + first;
      ConcatCons(seen, first, later[..rest]);
      AppendPrefix(w.visited, Concat(later[..rest]), Concat(later));
      PrefixTrans(seen + Concat(chains), w.visited + Concat(later), Drain(read, base, st, fuel, seen).value.visited);
    }
  }

  /** The IFD0 chain is read first and completely, then the queue drains
      until it is empty */
  lemma WalkFromOrder(read: IfdReader, next: NextOffsets, base: nat, st: IfdState, ifd0: Option<nat>, fuel: nat)
    returns (main: seq<nat>)
    requires ReturnsNext(read, next)
    requires WalkFrom(read, base, st, ifd0, fuel).Ok?
    ensures ifd0.Some? && IsChain(next, base, ifd0.value, main)
    ensures main <= WalkFrom(read, base, st, ifd0, fuel).value.visited
    ensures WalkFrom(read, base, st, ifd0, fuel).value.state.queue == []
  {
    var w := FollowChain(read, base, st, ifd0, fuel, []).value;
    FollowChainVisits(read, next, base, st, ifd0, fuel, []);
    main := w.visited;
    assert main == w.visited[0..];
  }

  /** The IFD0 chain of a segment is read first and completely, and the
      queue is empty at the end */
  lemma ReadApp1ExifOrder(tags: map<string, string>, data: seq<Byte>, o: nat, meta: MetaDict, fuel: nat)
    returns (main: seq<nat>)
    requires ReadApp1ExifSpec(tags, data, o, meta, fuel).Ok?
    ensures VerifyTiffHeader(data, o + 10).Ok?
    ensures var h := VerifyTiffHeader(data, o + 10).value;
            h.ifd0.Some? && IsChain(StoredNext(data, h.alignment), o + 10, h.ifd0.value, main)
    ensures main <= ReadApp1ExifSpec(tags, data, o, meta, fuel).value.visited
    ensures ReadApp1ExifSpec(tags, data, o, meta, fuel).value.state.queue == []
  {
    ExifFramingOk(data, o);
    var h := ExifFraming(data, o).value;
    SegmentReaderFacts(tags, data, h.alignment);
    main := WalkFromOrder(SegmentReader(tags, data, h.alignment), StoredNext(data, h.alignment), h.base,
                          IfdState(meta, []), h.ifd0, fuel);
  }

  /** The metadata dictionary of `readmeta` and the sub-IFD deque of
      `read_app1_exif`, which `read_ifd` updates in place */
  class ExifReader {
    var meta: MetaDict
    var subifdQueue: seq<Option<nat>>

    constructor (meta0: MetaDict)
      ensures meta == meta0 && subifdQueue == []
    {
      meta := meta0;
      subifdQueue := [];
    }

    /** The four reads of one directory entry, from p */
    static method ReadEntry(data: seq<Byte>, p: nat, decoder: ExifDecoder) returns (e: Entry, p': nat)
      ensures e == EntryAt(data, p, decoder.byteorder)
      ensures p' == Advance(data, p, 12) && (p + 12 <= |data| ==> p' == p + 12)
    {
      var exifTagNo := decoder.DecodeBytes(Read(data, p, 2));
      p' := Advance(data, p, 2);
      var dataType := decoder.DecodeBytes(Read(data, p', 2));
      p' := Advance(data, p', 2);
      var numberOfValues := decoder.DecodeBytes(Read(data, p', 4));
      p' := Advance(data, p', 4);
      var tagData := Read(data, p', 4);
      p' := Advance(data, p', 4);
      e := Entry(exifTagNo, dataType, numberOfValues, tagData);
      EntryLayout(data, p, decoder.byteorder);
    }

    /** The body of the entry loop: a pointer goes to the back of the queue,
        anything else is rendered into the dictionary under "Exif|tagname" */
    method StoreEntry(tags: map<string, string>, e: Entry, decoder: ExifDecoder, ghost apply: EntryStep)
      returns (r: Result<()>)
      requires AppliesEntries(apply, tags, decoder.byteorder)
      modifies this
      ensures var spec := apply(old(IfdState(meta, subifdQueue)), e);
              (r.Ok? <==> spec.Ok?) &&
              (r.Ok? ==> IfdState(meta, subifdQueue) == spec.value) &&
              (r.Err? ==> spec.error == r.error)
    {
      assert apply(IfdState(meta, subifdQueue), e) == ApplyEntry(tags, IfdState(meta, subifdQueue), e, decoder.byteorder);
      if IsPointerTag(e.tag) {
        subifdQueue := subifdQueue + [decoder.DecodeBytes(e.tagData)];
        return Ok(());
      }
      var dictKey := "Exif|" + TagName(tags, e.tag);
      var tagValue := ExifDataToString(e.tagData, e.dataType, decoder);
      if tagValue.Err? {
        return Err(tagValue.error);
      }
      meta := meta[dictKey := MetaValue(tagValue.value, OptText(e.tag), OptField(e.dataType), OptField(e.count))];
      r := Ok(());
    }

    /** The entry loop of `read_ifd`: n entries from start; returns the
        cursor after the last one */
    method ReadEntries(tags: map<string, string>, data: seq<Byte>, start: nat, n: nat, decoder: ExifDecoder,
                       ghost apply: EntryStep)
      returns (r: Result<nat>)
      requires AppliesEntries(apply, tags, decoder.byteorder)
      modifies this
      ensures var spec := FoldEntries(apply, old(IfdState(meta, subifdQueue)), Entries(data, start, decoder.byteorder, n), 0);
              (r.Ok? <==> spec.Ok?) &&
              (r.Ok? ==> IfdState(meta, subifdQueue) == spec.value && r.value == Advance(data, start, 12 * n)) &&
              (r.Err? ==> spec.error == r.error)
    {
      ghost var order := decoder.byteorder;
      ghost var es := Entries(data, start, order, n);
      ghost var spec := FoldEntries(apply, IfdState(meta, subifdQueue), es, 0);
      var p := start;
      var k := 0;
      while k < n
        invariant 0 <= k <= n
        invariant p == Advance(data, start, 12 * k)
        invariant decoder.byteorder == order
        invariant FoldEntries(apply, IfdState(meta, subifdQueue), es, k) == spec
      {
        var e;
        AdvanceTwice(data, start, 12 * k, 12);
        e, p := ReadEntry(data, p, decoder);
        var stored := StoreEntry(tags, e, decoder, apply);
        if stored.Err? {
          return Err(stored.error);
        }
        k := k + 1;
      }
      r := Ok(p);
    }

    /** `read_ifd(filehandle, byte_order, meta_dict, subifd_queue)` with the
        file positioned at pos; returns the next-IFD offset and the cursor */
    method ReadIfd(tags: map<string, string>, data: seq<Byte>, pos: nat, align: seq<Byte>, ghost read: IfdReader)
      returns (r: Result<(Option<nat>, nat)>)
      requires ReadsSegment(read, tags, data, align)
      modifies this
      ensures var spec := read(pos, old(IfdState(meta, subifdQueue)));
              (r.Ok? <==> spec.Ok?) &&
              (r.Ok? ==> IfdState(meta, subifdQueue) == spec.value.state &&
                         r.value == (spec.value.next, spec.value.pos)) &&
              (r.Err? ==> spec.error == r.error)
    {
      assert read(pos, IfdState(meta, subifdQueue)) == ReadIfdSpec(tags, data, pos, align, IfdState(meta, subifdQueue));
      var decoder := new ExifDecoder(Some(align));
      var directoryEntries := decoder.DecodeBytes(Read(data, pos, 2));
      if directoryEntries.None? {
        return Err(TypeError);
      }
      EntryApplierApplies(tags, decoder.byteorder);
      var p := ReadEntries(tags, data, Advance(data, pos, 2), directoryEntries.value, decoder,
                           EntryApplier(tags, decoder.byteorder));
      if p.Err? {
        return Err(p.error);
      }
      var next := decoder.DecodeBytes(Read(data, p.value, 4));
      r := Ok((next, Advance(data, p.value, 4)));
    }

    /** One `while offset_ifd > 0` loop of `read_app1_exif`: reads the chain
        of IFDs from offset into this reader's state; returns the fuel left
        and, as a ghost, the positions read appended to seen */
    method ReadChain(tags: map<string, string>, data: seq<Byte>, base: nat, align: seq<Byte>,
                     offset: Option<nat>, fuel: nat, ghost read: IfdReader, ghost seen: seq<nat>)
      returns (r: Result<nat>, ghost visited: seq<nat>)
      requires ReadsSegment(read, tags, data, align)
      modifies this
      ensures var spec := FollowChain(read, base, old(IfdState(meta, subifdQueue)), offset, fuel, seen);
              (r.Ok? <==> spec.Ok?) &&
              (r.Ok? ==> spec.value == Walk(IfdState(meta, subifdQueue), r.value, visited)) &&
              (r.Err? ==> spec.error == r.error)
    {
      ghost var chain := FollowChain(read, base, IfdState(meta, subifdQueue), offset, fuel, seen);
      var offsetIfd := offset;
      var f := fuel;
      visited := seen;
      while offsetIfd != Some(0)
        invariant FollowChain(read, base, IfdState(meta, subifdQueue), offsetIfd, f, visited) == chain
        decreases f
      {
        if offsetIfd.None? {
          return Err(TypeError), visited;
        }
        if f == 0 {
          return Err(OutOfFuel), visited;
        }
        ghost var st := IfdState(meta, subifdQueue);
        ghost var at := base + offsetIfd.value;
        var res := ReadIfd(tags, data, base + offsetIfd.value, align, read);
        FollowChainStep(read, base, st, offsetIfd, f, visited);
        if res.Err? {
          return Err(res.error), visited;
        }
        ghost var visited2: seq<nat> := visited + [at];
        assert read(at, st).value.state == IfdState(meta, subifdQueue) && read(at, st).value.next == res.value.0;
        visited := visited2;
        offsetIfd := res.value.0;
        f := f - 1;
      }
      r := Ok(f);
    }

    /** The `while len(subifd_queue) > 0` loop of `read_app1_exif`: pops the
        oldest offset and reads its chain, until the queue is empty */
    method DrainQueue(tags: map<string, string>, data: seq<Byte>, base: nat, align: seq<Byte>, fuel: nat,
                      ghost read: IfdReader, ghost seen: seq<nat>)
      returns (r: Result<()>)
      requires ReadsSegment(read, tags, data, align)
      modifies this
      ensures var spec := Drain(read, base, old(IfdState(meta, subifdQueue)), fuel, seen);
              (r.Ok? <==> spec.Ok?) &&
              (r.Ok? ==> spec.value.state == IfdState(meta, subifdQueue)) &&
              (r.Err? ==> spec.error == r.error)
    {
      ghost var spec := Drain(read, base, IfdState(meta, subifdQueue), fuel, seen);
      var f := fuel;
      ghost var visited := seen;
      while subifdQueue != []
        invariant Drain(read, base, IfdState(meta, subifdQueue), f, visited) == spec
        decreases f, |subifdQueue|
      {
        ghost var before := IfdState(meta, subifdQueue);
        var offsetIfd := subifdQueue[0];
        subifdQueue := subifdQueue[1..];
        ghost var inner := FollowChain(read, base, IfdState(meta, subifdQueue), offsetIfd, f, visited);
        assert Drain(read, base, before, f, visited) ==
               (if inner.Err? then Err(inner.error)
                else Drain(read, base, inner.value.state, inner.value.fuel, inner.value.visited));
        var left;
        left, visited := ReadChain(tags, data, base, align, offsetIfd, f, read, visited);
        if left.Err? {
          return Err(left.error);
        }
        f := left.value;
      }
      r := Ok(());
    }

    /** `read_app1_exif(imagefile, seg_offset, meta_dict)`, with at most fuel
        IFD reads */
    method ReadApp1Exif(tags: map<string, string>, data: seq<Byte>, segOffset: nat, fuel: nat)
      returns (r: Result<()>)
      modifies this
      ensures var spec := ReadApp1ExifSpec(tags, data, segOffset, old(meta), fuel);
              (r.Ok? <==> spec.Ok?) &&
              (r.Ok? ==> meta == spec.value.state.meta && subifdQueue == []) &&
              (r.Err? ==> spec.error == r.error)
    {
      ghost var spec := ReadApp1ExifSpec(tags, data, segOffset, meta, fuel);
      subifdQueue := [];
      var marker := VerifyMarker(data, segOffset, "APP1");
      var exif := VerifyExifHeader(data, Advance(data, marker.value, 2));
      if exif.Err? {
        return Err(exif.error);
      }
      var header := VerifyTiffHeader(data, exif.value);
      if header.Err? {
        return Err(header.error);
      }
      var base, align := header.value.base, header.value.alignment;
      ghost var read := SegmentReader(tags, data, align);
      SegmentReaderReads(tags, data, align);
      assert spec == WalkFrom(read, base, IfdState(meta, subifdQueue), header.value.ifd0, fuel);
      var f, seen := ReadChain(tags, data, base, align, header.value.ifd0, fuel, read, []);
      if f.Err? {
        return Err(f.error);
      }
      r := DrainQueue(tags, data, base, align, f.value, read, seen);
    }
  }
}
