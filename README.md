# A verified model of a JPEG/Exif metadata reader

The modelled program reads metadata out of JPEG files. It never writes. This
model replaces the open file with a byte sequence `data` and an explicit
cursor `pos`. Python's `read(n)` becomes `Bytes.Read`, which returns fewer
bytes at the end of the file. The cursor then stops at the end, as it does in
Python. A `seek` past the end is allowed. Python exceptions and `sys.exit()`
become an `Err` of `Bytes.Error`:

- `StructError` is a short `struct.unpack`.
- `TypeError` is `None > 0` or `range(None)`.
- `IndexError` and `ValueError` keep their Python meaning.
- `Exit(msg)` is `sys.exit()` after a diagnostic.
- `OutOfFuel` means a step bound ran out.

The modules follow the program:

- `Bytes` holds bytes, the cursor, `read` and slicing.
- `Text` holds `str()` of an int, the hex names of markers, and `str()` of a
  bytes value.
- `JpegData` is the marker table `seginfo` (ITU-T T.81, Annex B, Table B.1)
  and `exiftag` over an abstract tag table.
- `Decoder` is `ExifDecoder`, a class whose `byteorder` field
  `SetByteOrder` updates. It decodes unsigned 16- and 32-bit values, and
  everything is proved against `DecodeUint` and its inverse `EncodeUint`.
- `ExifValue` is `exifdata_tostring`, dispatching on the Exif datatype code
  (section 4.6.2 of Exif 2.3). Its ASCII branch is a loop.
- `Headers` holds the framing checks `verify_marker`, `verify_exifheader`,
  `verify_jfifheader` and `verify_tiffheader` (section 2 of TIFF 6.0, "Image
  File Header"), plus `read_app0_jfif`.
- `Ifd` is `read_ifd` as a function. Its entry loop is a fold over the 12-byte
  entries that updates the metadata dictionary and the sub-IFD queue.
- `ExifWalk` is the class `ExifReader`. It owns the dictionary and the
  deque, and its methods run `read_ifd`, the IFD0 chain and the queue drain
  of `read_app1_exif` (section 4.6.3 of Exif 2.3). Each method is proved equal
  to the function of the same step. The functions carry the FIFO and chain
  properties.
- `SegMap` is `segment_map`: a loop over the markers from offset 2. It is
  proved equal to the offsets function `ScanOffsets`.
- `JpegSegments` is `segment_read` and `segment_list` of jpegsegments.py.
  Each is a method proved equal to a function. It also compares them with
  `segment_map` on unknown markers.
- `XmpNs` is `xmpns_tagtype` and the key of an XMP property.

## Model

| member | source | states |
|---|---|---|
| Bytes.Advance | exiferino.py:362-364 | the cursor after `read(n)` moves forward by at most n, and by n exactly unless it reaches the end of the data |
| Bytes.Read | exiferino.py:362-364 | `read(n)` returns the bytes at the cursor, n of them exactly when n is 0 or they all fit, otherwise the rest of the data |
| Bytes.AdvanceTwice | exiferino.py:370-372 | two reads in a row move the cursor as one read of the combined length |
| Bytes.ReadTwice | exiferino.py:370-372 | two reads in a row return what one read of the combined length returns |
| Bytes.Slice | exiferino.py:373-377 | a Python slice clips both bounds to the length, and is the plain subsequence when it fits |
| Bytes.Latin1 | exiferino.py:417-418 | a bytes literal has one byte per character, and each byte is the code of its character |
| Decoder.OrderOf | exiferino.py:559-562 | little-endian exactly for "II"; "MM" and every invalid alignment select big-endian |
| Decoder.DecodeUint | exiferino.py:564-575 | a value exactly for 0, 2 or 4 bytes; 0 for no bytes; below 2^16 for two bytes and below 2^32 for four |
| Decoder.EncodeUint | exiferino.py:570-573 | the inverse of decoding: width bytes in the given order |
| Decoder.DecodeEncode | exiferino.py:570-573 | decoding the encoding of a value gives the value back |
| Decoder.EncodeDecode | exiferino.py:570-573 | encoding a decoded value gives the same 2 or 4 bytes back |
| Decoder.DecodeUintFormulas | exiferino.py:570-573 | the values of '<H', '>H', '<I' and '>I': b0 + 256*b1 under II, 256*b0 + b1 otherwise, and the same for 4 bytes |
| Decoder.LittleIsReversedBig | exiferino.py:570-573 | little-endian decoding is big-endian decoding of the reversed bytes |
| Decoder.ExifDecoder.constructor | exiferino.py:537-540 | little-endian when no alignment is given, otherwise the order the alignment selects |
| Decoder.ExifDecoder.DecodeBytes | exiferino.py:564-575 | `decode_bytes` decodes in the decoder's current order; what it gives is stated in `DecodeUint` and the lemmas after it |
| Decoder.ExifDecoder.SetByteOrder | exiferino.py:559-562 | the new order is little-endian exactly when the alignment is "II" |
| Text.NatToString | exiferino.py:111 | `str(n)` is at least one decimal digit, with no leading zero |
| Text.DecimalRoundTrip | jpegdata.py:20 | parsing `str(n)` gives n back |
| Text.NatToStringInjective | jpegdata.py:20 | distinct numbers have distinct decimal text |
| Text.HexName | jpegdata.py:83 | the name of the bytes is two lower-case hex digits per byte |
| Text.HexRoundTrip | jpegdata.py:83 | the bytes can be read back from their hex name |
| Text.HexNameInjective | jpegdata.py:83 | distinct byte strings have distinct hex names |
| Text.ReprQuote | exiferino.py:87-89 | `str()` of a bytes value quotes with ", exactly when the bytes hold a single quote and no double quote, and with ' otherwise; so a chosen double quote never needs escaping |
| Text.BytesReprRoundTrip | exiferino.py:87-89 | `str(b)` is b, a quote, the body and the same quote, and the bytes can be read back from the body |
| JpegData.SegInfo | jpegdata.py:27-84 | `seginfo`: the table entry of a known marker, otherwise the hex name with '?' and no data; its properties are in the lemmas below |
| JpegData.SegInfoTable | jpegdata.py:111-116 | the module's own expectations: ff01, APP0, APP1, APP13 and SOS have the listed name, has_data and has_meta |
| JpegData.HasMetaIffApp | jpegdata.py:44-77 | has_meta holds exactly for the markers ffe0 to ffef (APP0 to APP15) |
| JpegData.NoDataIffNoPayload | jpegdata.py:44-77 | among table markers, has_data is false exactly for the 11 two-byte markers that exiferino.py lists; an unknown marker has no data and is not among them |
| JpegData.UnknownNameRecoversMarker | jpegdata.py:79-84 | an unknown marker's name is its hex name plus '?', and the marker can be read back from it |
| JpegData.CodeOfKnownName | jpegdata.py:44-80 | a table name gives back its marker code, and no table name ends in '?' |
| JpegData.SegInfoNameInjective | jpegdata.py:27-84 | no two byte strings get the same segment name, known or unknown |
| JpegData.NamedMarkers | jpegdata.py:44-77 | the names "APP1", "SOS" and "EOI" each belong to one marker only: ffe1, ffda and ffd9 |
| JpegData.ExifTag | jpegdata.py:15-24 | `exiftag`: the table's name for `str(tagno)`, otherwise that text followed by '?'; its properties are in `ExifTagLookup` |
| JpegData.ExifTagLookup | jpegdata.py:15-24 | an int tag and its decimal text give the same name: the table entry if there is one, otherwise the digits and '?', from which the number can be read back |
| ExifValue.RenderValue | exiferino.py:32-91 | it fails exactly for BYTE not one byte long, for SBYTE, and for UNDEFINED with no bytes; ASCII gives one character per byte; a datatype that failed to decode shows `str(bytes)` |
| ExifValue.AsciiToString | exiferino.py:48-53 | the loop gives one character per byte, each equal to the byte with its 8th bit cleared |
| ExifValue.ExifDataToString | exiferino.py:32-91 | the method's result is the rendering for the decoder's current byte order |
| ExifValue.RenderIntegers | exiferino.py:54-86 | SHORT shows the decoded first 2 bytes and LONG the first 4; SSHORT, SLONG and SRATIONAL show the same as their unsigned counterparts |
| ExifValue.RenderRational | exiferino.py:60-65 | RATIONAL and SRATIONAL show numerator '/' denominator, decoded from bytes 0-3 and 4-7, and both are readable back from the text |
| ExifValue.RenderRationalFromField | exiferino.py:60-65 | a RATIONAL read from the 4-byte entry field has an empty denominator slice, so it shows "n/0" |
| ExifValue.RenderShortExample | exiferino.py:54-56 | bytes 01 00 as SHORT show "1" under II and "256" under MM |
| ExifValue.RenderAscii | exiferino.py:48-53 | ASCII keeps every byte's position, every character is below 0x80, and a 7-bit byte shows as itself |
| ExifValue.RenderUnknown | exiferino.py:87-89 | an unknown datatype shows `str()` of the bytes, and the bytes can be read back from it |
| Headers.VerifyMarker | exiferino.py:443-478 | an unknown marker type always fails, SOI fails unless the two bytes are ffd8, and every other type moves the cursor as `read(2)` does, whatever it reads |
| Headers.VerifyExifHeader | exiferino.py:407-420 | passes exactly when the next six bytes are "Exif\0\0" and then moves the cursor past them |
| Headers.VerifyJfifHeader | exiferino.py:423-440 | passes exactly when the next five bytes are "JFIF\0" or "JFXX\0", returns them and moves past them |
| Headers.VerifyTiffHeader | exiferino.py:481-503 | passes exactly when 42 decodes in the alignment's order; returns the position of the alignment bytes as the base, the alignment, and the decoded IFD0 offset 8 bytes on |
| Headers.TiffSampleBytes | exiferino.py:496-500 | a header that passes stores 42 as 2a 00 after "II" and as 00 2a otherwise |
| Headers.ReadApp0Jfif | exiferino.py:94-114 | `read_app0_jfif` on the dictionary as a value; its outcome is stated in `ReadApp0JfifResult` |
| Headers.ReadApp0JfifResult | exiferino.py:94-114 | succeeds exactly when the JFIF identifier sits 4 bytes into the segment and both thumbnail bytes exist; writes the three JFIF keys from bytes 4-8, 16 and 17, and leaves every other key alone |
| Ifd.EntryLayout | exiferino.py:268-271 | the four reads of an entry consume 12 bytes and, inside the data, the tag, datatype, count and value sit at offsets 0, 2, 4 and 8 |
| Ifd.Entries | exiferino.py:266-271 | the loop reads exactly as many entries as the count says |
| Ifd.EntryRecord | exiferino.py:279-282 | a record is the rendered value, `str(tag)`, the datatype and the count, and fails exactly when rendering fails |
| Ifd.IfdCount | exiferino.py:265 | the entry count is a 16-bit value |
| Ifd.ApplyEntriesQueue | exiferino.py:272-275 | the entry loop only appends to the queue: the decoded pointers of the entries, in entry order |
| Ifd.ApplyEntriesFails | exiferino.py:276-282 | the entry loop fails exactly when some entry that is not a pointer cannot be rendered |
| Ifd.ApplyEntriesUntouched | exiferino.py:276-282 | a key that no non-pointer entry writes keeps its presence and its value |
| Ifd.ApplyEntriesLastWrite | exiferino.py:276-282 | last write wins: a written key holds the record of the last entry that writes it |
| Ifd.ReadIfdWith | exiferino.py:246-285 | `read_ifd` with the entry loop as a parameter; `ReadIfdConsumes` states what it consumes and returns |
| Ifd.ReadIfdSpec | exiferino.py:246-285 | `read_ifd` with its own entry loop; `ReadIfdQueue` and `ReadIfdFails` state its queue and its failures |
| Ifd.ReadIfdConsumes | exiferino.py:265-285 | `read_ifd` consumes 2 + 12n + 4 bytes for n entries and returns the decoded 4 bytes after the last entry as the next offset, whatever the state |
| Ifd.ReadIfdQueue | exiferino.py:272-275 | `read_ifd` appends the pointers of its entries to the back of the queue and changes nothing already queued |
| Ifd.ReadIfdFails | exiferino.py:265-282 | `read_ifd` fails exactly when the count does not decode or some non-pointer entry cannot be rendered |
| ExifWalk.FollowChain | exiferino.py:136-140 | each IFD read in the chain costs one unit of fuel and is recorded as visited; with no read the state is unchanged |
| ExifWalk.Drain | exiferino.py:142-148 | a completed drain leaves the queue empty and only extends the visited list |
| ExifWalk.FollowChainStep | exiferino.py:137-140 | one pass reads the IFD at base + offset and continues from the offset it returns |
| ExifWalk.ExifFramingOk | exiferino.py:129-133 | the framing passes exactly when "Exif\0\0" sits 4 bytes into the segment and a valid TIFF header follows 10 bytes in |
| ExifWalk.IsChainUnique | exiferino.py:136-140 | there is at most one chain of IFD positions from an offset |
| ExifWalk.FollowChainVisits | exiferino.py:136-140 | a completed chain reads exactly the IFDs of the stored chain from its offset to offset 0, in order |
| ExifWalk.FollowChainQueue | exiferino.py:136-140 | following a chain only appends to the queue |
| ExifWalk.DrainFifo | exiferino.py:142-148 | first in, first out: the queued offsets are followed in queue order, each down its whole chain, before anything they add |
| ExifWalk.WalkFromOrder | exiferino.py:136-148 | the IFD0 chain is read first and completely, and at the end the queue is empty |
| ExifWalk.ReadApp1ExifSpec | exiferino.py:117-148 | `read_app1_exif` as a value: the framing, then the walk from IFD0; `ReadApp1ExifOrder` states its order |
| ExifWalk.ReadApp1ExifOrder | exiferino.py:117-148 | a successful read has a valid TIFF header 10 bytes in; its IFD0 chain, from the base of that header, comes first among the visited IFDs; the queue ends empty |
| ExifWalk.ExifReader.constructor | exiferino.py:127 | the reader starts with the given dictionary and an empty queue |
| ExifWalk.ExifReader.ReadEntry | exiferino.py:268-271 | the four reads return the entry at the cursor and move it 12 bytes |
| ExifWalk.ExifReader.StoreEntry | exiferino.py:272-282 | the loop body appends a pointer to the queue or writes the record, as one step of the entry fold |
| ExifWalk.ExifReader.ReadEntries | exiferino.py:266-282 | the entry loop leaves the state of the fold over the entries and the cursor 12n bytes on |
| ExifWalk.ExifReader.ReadIfd | exiferino.py:246-285 | `read_ifd` leaves the state `Ifd.ReadIfdSpec` gives, and returns its next offset and cursor |
| ExifWalk.ExifReader.ReadChain | exiferino.py:136-140 | the `while offset_ifd > 0` loop leaves the state of `FollowChain` and returns the fuel left |
| ExifWalk.ExifReader.DrainQueue | exiferino.py:143-148 | the queue loop leaves the state of `Drain`, with an empty queue |
| ExifWalk.ExifReader.ReadApp1Exif | exiferino.py:117-148 | `read_app1_exif` leaves the dictionary `ReadApp1ExifSpec` gives and an empty queue, or fails with its error |
| SegMap.MarkFacts | exiferino.py:366-392 | the marker read is the two bytes at the cursor; its name is SOS or EOI exactly when the scan stops; it is in the hard-coded list exactly when it has no length |
| SegMap.NextMarker | exiferino.py:390-402 | the next marker lies at least 2 bytes on |
| SegMap.ScanOffsets | exiferino.py:359-402 | every visited marker lies inside the data at or after the start, and the first is the start |
| SegMap.ScanStep | exiferino.py:361-402 | the scan stops after SOS, EOI or a cut length field, and otherwise goes on from the next marker |
| SegMap.Named | exiferino.py:368-385 | one record per visited marker |
| SegMap.NameSegment | exiferino.py:366-385 | the name recorded: an APP1 is classified by the bytes after its length, and any other marker keeps its table name |
| SegMap.SkipSegment | exiferino.py:390-402 | the skip goes 2 bytes on for a listed marker, 2 + length otherwise, and nowhere when the length is cut short |
| SegMap.SegmentMap | exiferino.py:343-404 | `segment_map` returns the name and offset of each marker the scan visits from offset 2 |
| SegMap.ScanShape | exiferino.py:361-402 | offsets strictly increase, no record but the last is SOS or EOI, and each is followed by the marker its length points to |
| SegMap.ScanEnd | exiferino.py:361-402 | the scan is empty exactly when no marker fits at the start, and it ends on SOS or EOI unless a marker or length field is cut short |
| SegMap.App1Kind | exiferino.py:373-380 | the name of an APP1 segment by its probe; `App1KindCases` states each case |
| SegMap.MarkName | exiferino.py:366-385 | the name recorded for the marker at an offset; `MarkNameApp1` and `MarkFacts` state it |
| SegMap.App1KindCases | exiferino.py:373-380 | an APP1 is Exif exactly when the probe starts with "Exif\0\0", XMP or XMPext after their identifiers, and unknown exactly when none matches |
| SegMap.ProbeBytes | exiferino.py:370-372 | the probe is the bytes straight after the length field |
| SegMap.MapRecords | exiferino.py:358-404 | each record names the marker at its offset; offsets strictly increase; only the last may be SOS or EOI; each is followed by the marker its length points to |
| SegMap.NextMarkerCases | exiferino.py:390-402 | a listed marker moves 2 bytes, any other 2 + the big-endian length, and a length below 2 moves back into the length field |
| SegMap.MarkNameApp1 | exiferino.py:368-380 | an APP1 segment is named APP1-Exif exactly when "Exif\0\0" sits 4 bytes into it, and after the XMP identifiers otherwise |
| SegMap.ExampleOffsets | exiferino.py:359-402 | in the file SOI, an empty APP0, SOS, the scan visits offsets 2 and 8 |
| SegMap.SegmentMapExample | exiferino.py:343-404 | that file maps to [("APP0", 2), ("SOS", 8)], without SOI |
| JpegSegments.UnpackUShortBE | jpegsegments.py:91 | the big-endian value of two bytes, below 2^16, from which the bytes are recovered |
| JpegSegments.ReadSized | jpegsegments.py:95 | `read(n)` fails exactly for n below -1, reads n bytes for n >= 0, and reads the rest of the file for -1 |
| JpegSegments.SegmentAt | jpegsegments.py:35-101 | the record's offset is the cursor, its marker is the 2 bytes there, and the next segment lies at least 2 bytes on |
| JpegSegments.SegmentRead | jpegsegments.py:35-101 | the method filling the record field by field gives the record of `SegmentAt` |
| JpegSegments.SegmentFields | jpegsegments.py:51-61 | segtype, has_data and has_meta are copied from the marker's table entry; there is no next segment exactly for a stop; a payload implies has_meta |
| JpegSegments.SegmentStops | jpegsegments.py:79-80 | the record of SOS or EOI has no payload and no next segment, and only they have none |
| JpegSegments.SegmentNoData | jpegsegments.py:84-86 | a marker without data has no payload and its next segment is 2 bytes on |
| JpegSegments.SegmentUnknown | jpegsegments.py:84-86 | an unknown marker counts as having no data, so its next segment is 2 bytes on |
| JpegSegments.SegmentWithData | jpegsegments.py:90-99 | a segment with data fails exactly when its length field is cut short; without metadata its next segment is 2 + length on |
| JpegSegments.SegmentMetaData | jpegsegments.py:94-95 | a metadata segment keeps length - 2 bytes as payload; length 1 reads the rest of the file; length 0 fails with ValueError |
| JpegSegments.SegmentPayload | jpegsegments.py:94-99 | when the segment fits, the payload is exactly the bytes after the length field up to its end, and the next segment follows it |
| JpegSegments.SegmentErrors | jpegsegments.py:90-95 | a read fails exactly when a length field is cut short or a metadata length is 0, and only with StructError or ValueError |
| JpegSegments.UnknownMarkerDisagreement | jpegsegments.py:84-86 | on an unknown marker, `segment_read` moves 2 bytes while `segment_map` moves 2 + length; they agree exactly when the length is 0 |
| JpegSegments.ScannersAgree | jpegsegments.py:79-99 | on a known marker whose segment fits, both scanners place the next marker at the same offset |
| JpegSegments.SegmentsFrom | jpegsegments.py:11-32 | `segment_list` from an offset with a bound on the records; `SegmentsShape` and `SegmentsPastEnd` state its shape and its non-termination |
| JpegSegments.SegmentList | jpegsegments.py:11-32 | the `while True` loop gives the list of `SegmentsFrom` from offset 0 |
| JpegSegments.SegmentsShape | jpegsegments.py:21-30 | a completed list starts at the start, each record is the read at its offset, each later offset is the previous next segment, and only the last record is SOS or EOI |
| JpegSegments.SegmentListStartsAtSoi | jpegsegments.py:21-30 | for a file starting with ffd8, the first record is SOI at offset 0 with its next segment at 2 |
| JpegSegments.SegmentsPastEnd | jpegsegments.py:23-30 | from a cursor where no marker fits, the loop never stops |
| JpegSegments.SegmentListTruncated | jpegsegments.py:23-30 | the file ffd8 alone never reaches a stop, whatever the bound |
| JpegSegments.SegmentsToEnd | jpegsegments.py:23-30 | the list that stops at the end of the data; the lemmas after it relate it to `SegmentsFrom` |
| JpegSegments.SegmentsToEndAgrees | jpegsegments.py:23-30 | the list that stops at the end of the data equals `segment_list` wherever that finishes |
| JpegSegments.SegmentsToEndShape | jpegsegments.py:23-30 | the list that stops at the end of the data always finishes; it is empty exactly when no marker fits; it is chained like `segment_list`; it ends on a stop or at the end of the data |
| JpegSegments.SegmentsToEndComplete | jpegsegments.py:23-30 | when that list ends on SOS or EOI, `segment_list` finishes with the same list |
| JpegSegments.SegmentListExample | jpegsegments.py:11-32 | the file SOI, APP0 with payload 00 00, SOS lists SOI, APP0 and SOS with their offsets, payload and next segments |
| JpegSegments.ExampleSoi | jpegsegments.py:84-86 | the SOI record of that file |
| JpegSegments.ExampleApp0 | jpegsegments.py:90-99 | the APP0 record of that file, with its payload |
| JpegSegments.ExampleSos | jpegsegments.py:79-80 | the SOS record of that file |
| XmpNs.XmpNsTagType | exiferino.py:506-528 | `xmpns_tagtype` as its chain of tests; `XmpNsTable`, `XmpNsRenames` and `XmpNsSharedName` state its meaning |
| XmpNs.XmpNsTable | exiferino.py:506-528 | the chain of tests is a lookup in the table of seven namespaces, with the namespace itself as the default |
| XmpNs.XmpNsRenames | exiferino.py:506-528 | a namespace is renamed exactly when it is in the table; no category it returns is a namespace of the table; applying it twice changes nothing more |
| XmpNs.XmpNsSharedName | exiferino.py:506-528 | a short name identifies its namespace, except that xap and xap/mm share "XMP-xap" |
| XmpNs.XmpKey | exiferino.py:197 | the key of an XMP property: its category, '\|' and its local name; its properties are in `XmpKeyInjective` and `XmpKeySeparator` |
| XmpNs.XmpKeyInjective | exiferino.py:197 | when neither category contains '\|', equal keys come from the same category and the same local name |
| XmpNs.XmpKeySeparator | exiferino.py:197 | the seven categories contain no '\|', so their keys never collide; a namespace containing '\|' can produce the same key as another property |

## Left out

- `readmeta`, the dispatcher over the segment map, is not modelled. It only opens the file and calls the readers above by segment name.
- `read_app1_xmp` is modelled only by `xmpns_tagtype` and the key it builds. Its UTF-8 decoding, regular expression and XML parsing are foreign library behaviour.
- `read_app1_xmpext`, `read_app12` and `read_app13` are left out. They only write fixed placeholder records.
- `readmeta_print`, `testimages` and the `__main__` blocks are left out. They do formatting, directory listing and printing.
- Every `print` is left out. A diagnostic followed by `sys.exit()` is `Err(Exit(msg))`. An APPn mismatch in `verify_marker` only prints, so the model lets it pass.
- The `filename` branch of `set_byteorder` is left out because it opens a file. The warning printed for an invalid alignment is left out too.
- `EXIF_TAGS` is a parameter `tags: map<string, string>`, because the table is loaded from a JSON file.
- Decoding never overflows. `struct.unpack` of 2 or 4 bytes is unsigned, so no integer width is involved. The signed types SSHORT, SLONG and SRATIONAL take the unsigned path, as in the source.
- Datatypes 1, 6 and 7 are not modelled only as strings:
  - BYTE on anything but one byte is `Err(StructError)`.
  - SBYTE always fails: `Err(IndexError)` on no bytes, otherwise `Err(TypeError)`.
  - UNDEFINED shows the first byte as an int, or is `Err(IndexError)` on no bytes.
- ExifWalk.ExifReader.ReadApp1Exif: the walk is bounded by `fuel` IFD reads. The source has no guard against IFD offsets that form a cycle, so it need not end, and an exhausted bound is `Err(OutOfFuel)`.
- JpegSegments.SegmentList: the loop is bounded by `fuel` records, because the source loop need not end (see Findings). An exhausted bound is `Err(OutOfFuel)`.
- ExifWalk.ExifReader.ReadIfd: after an error the contract says nothing about the dictionary. Records written before the exception are not described. The source stops there anyway.
- The loop bodies of `segment_map` and `read_ifd` are helper methods with their own contracts: `NameSegment`, `SkipSegment`, `ReadEntry` and `StoreEntry`.
- `segment_map` seeks to offset 2 before it reads (exiferino.py:359, "first segment starts right after the SOI"), so SOI is never recorded, as `SegMap.SegmentMapExample` shows.

## Findings

| source | as written | input that shows it | evidently intended | confidence | as-written member | corrected member |
|---|---|---|---|---|---|---|
| jpegsegments.py:23-30 | `segment_list` loops until a record has no next segment, which only SOS and EOI give. Past the end of the file the empty marker reads as an unknown `?` segment without data whose next segment is 2 bytes on, so the loop never ends | the two-byte file `ff d8`, or any file whose scan reaches a position with fewer than two bytes left without meeting SOS or EOI | stop at the end of the data with the records read so far | not executed | JpegSegments.SegmentListTruncated | JpegSegments.SegmentsToEnd |
