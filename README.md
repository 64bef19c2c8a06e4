# vclip metadata core, modelled in Dafny

vclip stages drone and camera photos, grades them with colour LUTs and publishes a gallery.
Its core is a metadata decoder with no dependencies, together with the pure naming logic
around it. Both are modelled here over in-memory byte sequences:

- **TIFF/IFD parsing of an Exif block** (`Tiff`). The parser checks the 8-byte header and
  picks the byte order from `II`/`MM`. It reads 16- and 32-bit fields and walks the
  12-byte records of an image file directory. Values of type BYTE, ASCII, SHORT, LONG,
  RATIONAL and UNDEFINED are decoded inline or at an offset. A record that fails to decode
  is dropped, and the next-directory pointer is read. This follows TIFF Revision 6.0,
  Section 2.
- **Field interpreters** (`ExifFields`). These read orientation (tag 0x0112), camera model
  (0x0110) and GPS, which goes through the GPS directory pointer 0x8825 and GPS tags 1 to 4.
  Degrees, minutes and seconds are converted in exact rational arithmetic. This follows
  Exif 2.3, sections 4.6.3 and 4.6.6.
- **The JPEG APP1/Exif locator** (`JpegExif`). It walks the marker segments of ITU-T T.81
  Annex B up to Start of Scan.
- **Dimension readers** (`Models`):
  - a JPEG frame-header scanner running over a byte buffer with a read cursor, which
    follows Python file semantics (`Models.Reader`);
  - the PNG IHDR reader;
  - the dispatch on the file suffix;
  - the photo asset's orientation-aware dimensions, its vertical test and its camera-model
    lookup.
- **Naming helpers**:
  - LUT slugs, filter-path escaping, processed and gallery file names, the gallery scale
    filter and the gallery directory (`Grade`);
  - the gallery file-name parser and the manifest's split by orientation (`Gallery`);
  - the command line's case-insensitive lookup (`Cli`).
- **Shared modules**: `Wrappers` (Option, Result, the error cases), `Binary` (bytes and
  big- or little-endian integers), `Ascii` (text operations), `Paths` (file-name stem and
  suffix) and `Text` (replacing, counting, finding `__`).

Every Python exception is an `Err` of `Wrappers.Result`. `Option` stands for `None`. A
Python dict that the code fills in a loop is a Dafny `map`. A dict that the code iterates
is a sequence of pairs with distinct keys.

Loops in the source are Dafny methods, each proved equal to a specification function:
- `Tiff.ReadIfd` and `Tiff.ReadEntries` (the record loop);
- `Tiff.DecodeRationals`;
- `JpegExif.FindExifSegment`;
- `ExifFields.RationalTripletToDeg`;
- `Models.ReadJpegDimensions`, `Models.ReadPngDimensions`.

The lemmas then state the source's promises about those functions.

Where the code and its documentation differ, the model follows the code. For example, a
GPS pointer at or past the end of the Exif block makes `gps()` raise, not report "no GPS":
`_read_ifd` rejects the offset, and `ExifFields.Gps` returns `Err` there.

## Model

| member | source | states |
|---|---|---|
| Binary.Slice | src/pipeline/exif.py:257-260 | Python slicing: clamped to the sequence, empty when the end is not past the start |
| Binary.BeInt | src/pipeline/exif.py:36-48 | an n-byte big-endian integer is below 256^n |
| Binary.LeInt | src/pipeline/exif.py:36-48 | an n-byte little-endian integer is below 256^n |
| Binary.BeIntBelow32 | src/pipeline/models.py:119-120 | a field of at most four bytes read big-endian is below 2^32 |
| Binary.BeIntCons | src/pipeline/models.py:98 | a leading byte contributes its value times 256^(remaining length) |
| Binary.LeIsReversedBe | src/pipeline/exif.py:24-48 | reading little-endian equals reading the reversed bytes big-endian |
| Binary.LeIntZeroPadded | src/pipeline/exif.py:101-105 | appending zero bytes does not change a little-endian integer |
| Binary.LeIntZeros | src/pipeline/exif.py:101-105 | zero bytes read as 0 |
| Binary.BeInt2 | src/pipeline/exif.py:36-41 | two bytes read big-endian are 256*b0 + b1 |
| Binary.BeShortIsBeInt | src/pipeline/models.py:103-104 | a slice of at most two bytes reads as its big-endian value, 0 for no bytes |
| Binary.LeInt2 | src/pipeline/exif.py:36-41 | two bytes read little-endian are b0 + 256*b1 |
| Binary.BeInt4 | src/pipeline/exif.py:43-48 | four bytes read big-endian are the usual weighted sum |
| Binary.LeInt4 | src/pipeline/exif.py:43-48 | four bytes read little-endian are the usual weighted sum |
| Ascii.Decode | src/pipeline/exif.py:174 | ASCII decoding with replacement: one character per byte, bytes from 0x80 up become U+FFFD |
| Ascii.Lower | src/pipeline/models.py:70 | same length, each character lower-cased |
| Ascii.Upper | src/pipeline/exif.py:203 | same length, each character upper-cased |
| Ascii.Title | src/pipeline/gallery.py:60 | str.title: same length and letters up to case, other characters unchanged, a letter upper-case exactly when it starts a word |
| Ascii.TitleIdempotent | src/pipeline/gallery.py:60 | title-casing twice is title-casing once |
| Ascii.LeadingIn | src/pipeline/exif.py:174 | the length of the longest prefix drawn from the strip set |
| Ascii.TrailingIn | src/pipeline/exif.py:174 | the length of the longest suffix drawn from the strip set |
| Ascii.Strip | src/pipeline/exif.py:174 | the stripped text is empty or starts and ends outside the strip set |
| Ascii.StripCuts | src/pipeline/grade.py:116 | strip removes only a prefix and a suffix made of stripped characters |
| Ascii.StripEmpty | src/pipeline/exif.py:182 | the stripped text is empty exactly when every character is stripped |
| Paths.LastIndexOf | src/pipeline/gallery.py:55 | the index of the last occurrence of a character, or -1 when there is none |
| Paths.Suffix | src/pipeline/models.py:70 | pathlib suffix: empty, or a dot followed by at least one dot-free character, shorter than the name |
| Paths.Stem | src/pipeline/gallery.py:55 | the name itself when there is no suffix, otherwise non-empty |
| Paths.StemSuffix | src/pipeline/gallery.py:55 | stem followed by suffix gives back the name |
| Paths.SuffixOfJoined | src/pipeline/grade.py:47 | a non-empty stem joined with a dot extension splits back into both |
| Paths.LastDotOfJoined | src/pipeline/grade.py:47 | in stem + extension, the last dot is the extension's |
| Text.ReplaceChar | src/pipeline/gallery.py:60 | str.replace of one character: no effect when it is absent; gone when the replacement lacks it; with a one-character replacement, each occurrence becomes it and every other character stays in place |
| Text.ReplaceCharAppend | src/pipeline/grade.py:122-123 | replacing in a concatenation is replacing in each part |
| Text.Count | src/pipeline/grade.py:120-124 | the occurrence count is at most the length, and 0 exactly when the character is absent |
| Text.FindDouble | src/pipeline/gallery.py:56-57 | str.find("__"): -1 exactly when there is no "__", otherwise the first index where "__" starts |
| Text.FindDoubleJoined | src/pipeline/gallery.py:56-57 | the first "__" of a + "__" + b is the joining one, for any b, when a has none and does not end in '_' |
| Tiff.NewParser | src/pipeline/exif.py:24-34 | succeeds exactly for at least 8 bytes starting II or MM; II selects little-endian; the two failures are told apart |
| Tiff.EndianInt | src/pipeline/exif.py:36-48 | a 2- or 4-byte field fits in 16 or 32 bits |
| Tiff.EndianIntValue | src/pipeline/exif.py:36-48 | a field is read little-endian for II and big-endian for MM |
| Tiff.ReadUInt | src/pipeline/exif.py:36-48 | a read succeeds exactly when the field lies inside the blob, else OffsetOutOfRange; the value fits the width |
| Tiff.U16 | src/pipeline/exif.py:36-41 | _u16 succeeds exactly when offset+2 <= len, and the value is below 2^16 |
| Tiff.U32 | src/pipeline/exif.py:43-48 | _u32 succeeds exactly when offset+4 <= len, and the value is below 2^32 |
| Tiff.FieldByteOrder | src/pipeline/exif.py:24-48 | a field read little-endian equals the byte-reversed field read big-endian |
| Tiff.WordAt | src/pipeline/exif.py:101-105 | a 32-bit word of a byte sequence, zero-padded at the end |
| Tiff.U32FromBytes | src/pipeline/exif.py:101-105 | _u32_from_bytes yields a 32-bit value |
| Tiff.U32FromBytesPadded | src/pipeline/exif.py:101-105 | _u32_from_bytes reads the first four bytes, padded with zeros on the right, in the parser's order |
| Tiff.U32FromSlice | src/pipeline/exif.py:117-124 | applied to a four-byte slice, _u32_from_bytes is the padded word at its start |
| Tiff.U32FromShortLittle | src/pipeline/exif.py:101-105 | little-endian, fewer than four bytes read as their plain value |
| Tiff.DecodeShorts | src/pipeline/exif.py:107-110 | one 16-bit value per two bytes, each read in the parser's order |
| Tiff.DecodeLongs | src/pipeline/exif.py:112-115 | one 32-bit value per four bytes, each read in the parser's order |
| Tiff.DecodeRationals | src/pipeline/exif.py:117-124 | the loop yields exactly `count` (numerator, denominator) pairs, pair i from bytes 8i..8i+8 |
| Tiff.SliceWord | src/pipeline/exif.py:119-122 | one 32-bit read of the loop through a clamped slice |
| Tiff.RationalsSnoc | src/pipeline/exif.py:118-123 | one more loop pass appends the next pair |
| Tiff.BeforeNul | src/pipeline/exif.py:91-92 | the bytes before the first NUL: a NUL-free prefix, followed by NUL or the end |
| Tiff.TypeSize | src/pipeline/exif.py:7-14 | a size exactly for types 1, 2, 3, 4, 5 and 7: 1 for BYTE, ASCII and UNDEFINED, 2 for SHORT, 4 for LONG, 8 for RATIONAL |
| Tiff.TotalSize | src/pipeline/exif.py:79-82 | total = size * max(count, 1), at least max(count, 1) |
| Tiff.FieldData | src/pipeline/exif.py:82-89 | inline field when total <= 4; otherwise blob[off:off+total], failing exactly when it runs past the blob |
| Tiff.DecodeValue | src/pipeline/exif.py:78-99 | unsupported types fail; a supported type fails exactly when its data is out of range |
| Tiff.DecodedContent | src/pipeline/exif.py:91-99 | ASCII is the text before the first NUL; SHORT, LONG and RATIONAL give exactly `count` items from the data; BYTE and UNDEFINED give max(count,1) raw bytes |
| Tiff.Records | src/pipeline/exif.py:57-68 | the record outcomes, one per index below the count |
| Tiff.CollectSnoc | src/pipeline/exif.py:57-69 | one more record updates the directory map by that record alone |
| Tiff.CollectEmptyTail | src/pipeline/exif.py:59-60 | records after the break add nothing |
| Tiff.CollectMembership | src/pipeline/exif.py:57-69 | a tag is in the map exactly when some decoded record has it |
| Tiff.CollectLastWins | src/pipeline/exif.py:69 | a later duplicate tag overwrites an earlier one |
| Tiff.RecordsSnoc | src/pipeline/exif.py:57-69 | one more index appends its record outcome |
| Tiff.EntriesNext | src/pipeline/exif.py:57-69 | the map after i+1 records is the map after i, updated by record i |
| Tiff.EntriesPastEnd | src/pipeline/exif.py:59-60 | records whose 12 bytes do not fit are never read: the walk stops there |
| Tiff.EntriesMembership | src/pipeline/exif.py:57-69 | a tag is present exactly when a record below the count lies in the blob, decodes, and carries it |
| Tiff.EntriesLastWins | src/pipeline/exif.py:57-69 | the value kept for a tag is the last record's that carries it |
| Tiff.NextPointer | src/pipeline/exif.py:71-75 | the next-directory pointer is None when it is truncated or zero, otherwise the 32-bit value read |
| Tiff.IfdAt | src/pipeline/exif.py:50-76 | _read_ifd fails exactly when offset+2 > len; otherwise the entries of the declared records and the next pointer after them |
| Tiff.ReadIfd | src/pipeline/exif.py:50-76 | the loop computes the directory specified by IfdAt |
| Tiff.ReadEntries | src/pipeline/exif.py:57-69 | the record loop builds exactly the entry map of the first count records |
| Tiff.ReadRecord | src/pipeline/exif.py:61-68 | one record read as the specification's entry |
| JpegExif.ExifRound | src/pipeline/exif.py:244-263 | each round that goes on strictly increases the offset |
| JpegExif.ExifScan | src/pipeline/exif.py:244-264 | a payload found from an offset fits, with its marker, length and Exif header, in what remains after that offset |
| JpegExif.ExifSegment | src/pipeline/exif.py:236-242 | None unless the input has at least 4 bytes and starts FF D8 |
| JpegExif.VisitsForward | src/pipeline/exif.py:244-263 | the offsets the walk passes through never lie before its start |
| JpegExif.VisitsSameScan | src/pipeline/exif.py:244-263 | every offset the walk passes through leads to the same outcome |
| JpegExif.VisitedBefore | src/pipeline/exif.py:244-263 | a visited offset before another visited one is a round that goes on |
| JpegExif.RoundGoesOn | src/pipeline/exif.py:250-262 | a round that goes on is neither at Start of Scan nor at an APP1 segment with the Exif header |
| JpegExif.ExifApp1Round | src/pipeline/exif.py:255-262 | an APP1 segment inside the input that starts with Exif\0\0 yields what follows the header |
| JpegExif.ExifScanFound | src/pipeline/exif.py:244-264 | a result is the payload of an Exif APP1 segment at an offset the walk passes through |
| JpegExif.ExifScanFirst | src/pipeline/exif.py:244-264 | a result is the payload of the first Exif APP1 segment the walk reaches, with no Start of Scan before it |
| JpegExif.ExifScanFinds | src/pipeline/exif.py:244-264 | conversely, an Exif APP1 segment at a visited offset is what the walk returns |
| JpegExif.ExifSegmentSound | src/pipeline/exif.py:236-264 | any result is a contiguous slice of the input, preceded by the Exif header |
| JpegExif.ExifScanStopsAtSos | src/pipeline/exif.py:250-251 | a Start of Scan marker ends the search with None |
| JpegExif.ExifScanStopsAtOverlongApp1 | src/pipeline/exif.py:255-259 | an APP1 segment running past the end ends the search with None |
| JpegExif.FindExifSegment | src/pipeline/exif.py:236-264 | the while loop returns what the specification function does |
| JpegExif.WalkRound | src/pipeline/exif.py:245-263 | one round of the while loop, as the specification's round |
| ExifFields.Ifd0 | src/pipeline/exif.py:126-129 | fails exactly when the first-directory offset is unreadable or its count is; else that directory's entries |
| ExifFields.AsBytes | src/pipeline/exif.py:178 | bytes(tuple) keeps each value below 256 |
| ExifFields.AsText | src/pipeline/exif.py:173-184 | camera-model text from str, from bytes decoded, from a tuple of byte values; None exactly when bytes() of the tuple fails |
| ExifFields.NumbersAsText | src/pipeline/exif.py:177-180 | a tuple of integers converts exactly when each is below 256 |
| ExifFields.Degrees | src/pipeline/exif.py:201-202 | n0/d0 + (n1/d1)/60 + (n2/d2)/3600 is never negative |
| ExifFields.RationalTripletToDeg | src/pipeline/exif.py:188-205 | the loop computes the specification's conversion |
| ExifFields.TripletToDeg | src/pipeline/exif.py:188-205 | None for an unreadable reference, for fewer than three items and for a zero denominator among the first three; a failure exactly for three or more items that are not (numerator, denominator) pairs; otherwise the degrees of the first three rationals, negated for S or W |
| ExifFields.TripletValue | src/pipeline/exif.py:188-205 | a returned coordinate is the sexagesimal value of the first three rationals, all with non-zero denominators, negated exactly for S or W |
| ExifFields.TripletIgnoresTail | src/pipeline/exif.py:198 | rationals beyond the third are ignored |
| ExifFields.TripletOfWholeNumbers | src/pipeline/exif.py:202-205 | whole degrees, minutes and seconds give d + m/60 + s/3600, negated for S or W |
| ExifFields.GpsPointer | src/pipeline/exif.py:133-141 | a SHORT or LONG tuple gives its first element; text or bytes give None; an empty tuple or rationals fail |
| ExifFields.Gps | src/pipeline/exif.py:131-155 | every outcome: IFD0 or pointer failure, and a pointer past the blob, fail; no pointer tag and a text or bytes pointer give None; a missing GPS tag gives None; a failing conversion fails; a conversion giving None gives None; otherwise both coordinates |
| ExifFields.GpsComplete | src/pipeline/exif.py:143-155 | conversely, a GPS directory at the pointer with all four tags and convertible coordinates gives that position |
| ExifFields.GpsSound | src/pipeline/exif.py:143-155 | a returned position comes from the GPS directory at the pointer, whose four tags are truthy and whose coordinates convert |
| ExifFields.Orientation | src/pipeline/exif.py:157-167 | fails exactly when IFD0 fails; returns the non-zero first element of the tag's tuple or bytes, or None, with no range check |
| ExifFields.CameraModel | src/pipeline/exif.py:169-185 | fails exactly when IFD0 fails; a result is the stripped text of the tag, non-empty and without surrounding whitespace |
| ExifFields.CameraModelPresent | src/pipeline/exif.py:169-185 | a convertible model text with a non-whitespace character gives a result |
| ExifFields.ExtractGps | src/pipeline/exif.py:208-215 | None without an Exif segment; otherwise the parser's failure or its gps() |
| ExifFields.ExtractOrientation | src/pipeline/exif.py:218-224 | None without an Exif segment; with one, the parser's failure or its orientation(); any orientation is non-zero |
| ExifFields.ExtractCameraModel | src/pipeline/exif.py:227-233 | None without an Exif segment; with one, the parser's failure or its camera_model(); any model is non-empty and stripped |
| Models.Reader.constructor | src/pipeline/models.py:79 | a fresh reader is at position 0 over the file's bytes |
| Models.Reader.Read | src/pipeline/models.py:83 | read(n): fails for n < -1 without moving; read(-1) reads to the end; otherwise a short read at the end of file; the cursor advances by what was read |
| Models.Reader.SeekRelative | src/pipeline/models.py:106 | a relative seek to a negative position fails without moving; otherwise the cursor moves by delta, past the end included |
| Models.JpegStep | src/pipeline/models.py:83-106 | a round that goes on reads at least one byte and moves the cursor forward |
| Models.SegmentStep | src/pipeline/models.py:95-106 | a skipped segment leaves the cursor at least past its marker |
| Models.JpegScan | src/pipeline/models.py:82-107 | both dimensions it returns are 16-bit values |
| Models.JpegDimensions | src/pipeline/models.py:80-81 | input not starting FF D8 fails with "not a JPEG file" |
| Models.ScanVisitsForward | src/pipeline/models.py:82-106 | the positions the scan starts a round at never lie before its start |
| Models.ScanVisitsSameScan | src/pipeline/models.py:82-107 | every position the scan starts a round at leads to the same outcome |
| Models.ScanVisitedBefore | src/pipeline/models.py:82-106 | a visited position before another visited one is a round that goes on and holds no frame marker |
| Models.ScanStopsAt | src/pipeline/models.py:82-107 | the outcome is decided by the round at one visited position |
| Models.JpegScanFirst | src/pipeline/models.py:82-107 | a result comes from the first frame marker the scan reaches, whose whole segment is present, with width from payload[3:5] and height from payload[1:3] |
| Models.JpegScanFinds | src/pipeline/models.py:82-107 | conversely, a complete frame segment at a visited position gives the result |
| Models.StandaloneSkipped | src/pipeline/models.py:91-94 | D8, D9 and D0 to D7 are passed over as two bytes, with no length read |
| Models.FirstSofDecides | src/pipeline/models.py:99-105 | at a frame-header marker the scan succeeds exactly when the declared length is at least 2 and the payload fits, with that header's fields |
| Models.SofHeaderFields | src/pipeline/models.py:103-104 | height is BE16 of payload bytes 1..3, width BE16 of bytes 3..5 |
| Models.NonFrameMarkersSkipped | src/pipeline/models.py:99-106 | C4, C8, CC and SOS are skipped by their length, never read as a frame header |
| Models.ScanRound | src/pipeline/models.py:83-106 | one pass of the while loop on the reader matches the specification's round and leaves the cursor at its next position |
| Models.ReadSegment | src/pipeline/models.py:95-106 | the length, frame-header and seek part of one pass |
| Models.ReadJpegDimensions | src/pipeline/models.py:78-107 | the cursor-driven reader returns the specification's dimensions or failure |
| Models.PngDimensions | src/pipeline/models.py:110-121 | input without the PNG signature fails with "not a PNG file"; width and height are 32-bit values |
| Models.PngHeader | src/pipeline/models.py:110-121 | succeeds exactly with the signature, IHDR and length 13; then width and height are BE32 at bytes 16 and 20 |
| Models.ReadPngDimensions | src/pipeline/models.py:110-121 | the sequential reads return the specification's result |
| Models.ReadDimensions | src/pipeline/models.py:69-75 | .jpg/.jpeg (any case) go to the JPEG reader, .png to the PNG reader, anything else fails |
| Models.PhotoAsset.Dimensions | src/pipeline/models.py:28-41 | None exactly when reading fails; width and height swap exactly for orientation 5 to 8; an orientation failure means no swap |
| Models.FriendlyName | src/pipeline/models.py:65 | FC9313 shows as "DJI Mini 5 Pro"; any other model shows as it is |
| Models.PhotoAsset.IsVertical | src/pipeline/models.py:43-48 | an unreadable size is not vertical; otherwise, against the stored size, height >= width, or width >= height when turned a quarter |
| Models.PhotoAsset.DeviceSummary | src/pipeline/models.py:58-66 | (friendly, raw) exactly when a non-empty model was extracted; friendly is "DJI Mini 5 Pro" for FC9313, else raw |
| Models.PhotoAsset.DeviceModel | src/pipeline/models.py:50-52 | the raw model of the summary |
| Models.PhotoAsset.DeviceName | src/pipeline/models.py:54-56 | the friendly name of the summary |
| Grade.KeptAppend | src/pipeline/grade.py:116 | the kept [a-z0-9] characters of a concatenation |
| Grade.KeptNone | src/pipeline/grade.py:116 | a separator run keeps nothing |
| Grade.KeptEmpty | src/pipeline/grade.py:116 | slug text keeping nothing is all underscores |
| Grade.SeparatorRun | src/pipeline/grade.py:116 | the maximal leading run that the regular expression matches |
| Grade.Collapse | src/pipeline/grade.py:116 | re.sub never lengthens the text |
| Grade.CollapseShape | src/pipeline/grade.py:116 | re.sub leaves [a-z0-9] and single underscores only, starting with '_' exactly when the text starts with a separator |
| Grade.SeparatorRunUnique | src/pipeline/grade.py:116 | the leading separator run is the one maximal run of characters outside [a-z0-9] |
| Grade.CollapseRun | src/pipeline/grade.py:116 | a whole separator run, followed by the end or an [a-z0-9] character, becomes exactly one underscore |
| Grade.CollapseJoin | src/pipeline/grade.py:116 | a text ending in an [a-z0-9] character collapses independently of what follows it |
| Grade.CollapseKeeps | src/pipeline/grade.py:116 | re.sub keeps the [a-z0-9] characters in order |
| Grade.Slugify | src/pipeline/grade.py:115-117 | the slug is never empty |
| Grade.SlugifyShape | src/pipeline/grade.py:116 | a slug uses only [a-z0-9_], neither starts nor ends with '_', and has no "__" |
| Grade.SlugifyKeeps | src/pipeline/grade.py:115-117 | a name whose lower-case form has no [a-z0-9] gives "lut"; otherwise the slug has exactly those characters in order |
| Grade.StripUnderscores | src/pipeline/grade.py:116 | strip("_") on collapsed text keeps its shape and characters, and empties it exactly when none are kept |
| Grade.MiddleShape | src/pipeline/grade.py:116 | the text between stripped ends keeps shape and characters |
| Grade.KeptOfMiddle | src/pipeline/grade.py:116 | cutting underscore ends keeps all [a-z0-9] characters |
| Grade.KeptSplit | src/pipeline/grade.py:116 | kept characters split at any index |
| Grade.EscapeFilterPath | src/pipeline/grade.py:120-124 | the output is as long as the input plus its backslashes plus its quotes |
| Grade.EscapeIsCharwise | src/pipeline/grade.py:122-123 | doubling backslashes and then escaping quotes is escaping each character on its own |
| Grade.EscapeEachLength | src/pipeline/grade.py:122-123 | each backslash and each quote adds one character |
| Grade.UnescapeEach | src/pipeline/grade.py:122-123 | unescaping undoes the per-character escaping |
| Grade.UnescapeEscape | src/pipeline/grade.py:120-124 | the escaped path unescapes to the path |
| Grade.EscapeInjective | src/pipeline/grade.py:120-124 | two paths with the same escape are equal |
| Grade.DigitChar | src/pipeline/grade.py:98-105 | a decimal digit is '0'..'9' |
| Grade.NatToString | src/pipeline/grade.py:98-105 | the decimal form of a cap is non-empty digits, with a leading zero only for 0 |
| Grade.IntToString | src/pipeline/grade.py:98-105 | the decimal form starts with '-' exactly for a negative number |
| Grade.NatToStringRoundTrip | src/pipeline/grade.py:98-105 | the decimal digits parse back to the number |
| Grade.IntToStringRoundTrip | src/pipeline/grade.py:98-105 | the signed decimal form parses back to the number |
| Grade.ProcessedFilter | src/pipeline/grade.py:91-92 | lut3d=file='...' around the escaped path, whose unescaping is the path |
| Grade.ScaleFilter | src/pipeline/grade.py:96-107 | the head for the orientation, then the cap in decimal, which parses back to the cap |
| Grade.Chain | src/pipeline/grade.py:108 | the first filter, a comma, then the second |
| Grade.Grader.GalleryFilter | src/pipeline/grade.py:94-108 | the processed filter, a comma, then the scale for the asset's orientation |
| Grade.Grader.Scale | src/pipeline/grade.py:96-107 | a vertical scale caps the height (ih) at the vertical cap; any other caps the width (iw) at the landscape cap |
| Grade.Grader.GalleryDirFor | src/pipeline/grade.py:110-112 | "vertical" exactly for vertical assets, "landscape" exactly for the others |
| Grade.GalleryDirByShape | src/pipeline/grade.py:110-112 | an unreadable size goes to landscape; otherwise vertical exactly when height >= width, squares included |
| Grade.ProcessedSuffix | src/pipeline/grade.py:41 | the lower-cased source suffix, or ".jpg" when there is none |
| Grade.ProcessedName | src/pipeline/grade.py:40-42 | stem + "__" + slug, then the processed suffix |
| Grade.GalleryName | src/pipeline/grade.py:47 | its stem is source stem + "__" + slug and its suffix is always ".jpg" |
| Grade.NamesAgree | src/pipeline/grade.py:40-47 | processed and gallery names differ only in their suffix |
| Gallery.LutLabel | src/pipeline/gallery.py:60 | the label has no underscore |
| Gallery.LutLabelChars | src/pipeline/gallery.py:60 | the label is as long as the LUT part; each underscore becomes a space and every other character is kept up to case |
| Gallery.NoDoubleBefore | src/pipeline/gallery.py:56-57 | the source part before the first "__" contains no "__" |
| Gallery.ParseName | src/pipeline/gallery.py:54-61 | no "__": (stem, "Default"); otherwise source before the first "__" and the label of the rest; the source never has "__" |
| Gallery.DefaultLabel | src/pipeline/gallery.py:59-60 | "default" becomes "Default" |
| Gallery.ParseGalleryName | src/pipeline/gallery.py:54-61 | a gallery name made when grading a photo parses back to its stem and the label of its slug |
| Gallery.WithOrientation | src/pipeline/gallery.py:24-25 | the filter keeps exactly the entries of that orientation |
| Gallery.WithOrientationAppend | src/pipeline/gallery.py:24-25 | the filter preserves order |
| Gallery.SplitCount | src/pipeline/gallery.py:24-25 | two different orientations split the entries having either |
| Gallery.BuildManifest | src/pipeline/gallery.py:20-26 | landscape and vertical lists hold exactly the entries of their orientation and together count those of either |
| Gallery.ManifestDisjoint | src/pipeline/gallery.py:24-25 | no entry is in both lists |
| Gallery.ManifestAppend | src/pipeline/gallery.py:24-25 | each list is an order-preserving filter of the entries |
| Cli.Lookup | src/cli.py:142-143 | mapping[key] is missing exactly when no key equals it |
| Cli.FirstCaseless | src/cli.py:144-147 | no result exactly when no key lower-cases to the lowered key |
| Cli.ResolveCaseInsensitive | src/cli.py:141-148 | None exactly when no key equals the given key ignoring case |
| Cli.ResolveExact | src/cli.py:142-143 | a key present as given resolves to its own value |
| Cli.LookupAt | src/cli.py:142-143 | a present key is found at its index |
| Cli.ResolveCaseless | src/cli.py:144-147 | otherwise the first key in order that matches ignoring case decides |
| Cli.FirstCaselessAt | src/cli.py:144-147 | the first caseless match is found at its index |
| Cli.ResolveFromMapping | src/cli.py:141-148 | any result is one of the mapping's values |
| Cli.LookupFrom | src/cli.py:142-143 | an exact hit is a value of the mapping |
| Cli.FirstCaselessFrom | src/cli.py:144-147 | a caseless hit is a value of the mapping |

## Left out

- File I/O (`path.read_bytes`, `open`, the file cursor). A file is its bytes, and `Models.Reader` stands for the file object. Failures of the operating system are not modelled.
- Floating point. `num / den` and the degree sum are exact reals. The `.6f` formatting in `src/cli.py` is not modelled.
- Unicode. Text operations are ASCII only. Each byte from 0x80 up decodes to U+FFFD.
- Directory joins. Paths are modelled by their final component. The directories under `processed/` and `gallery/` (the config module's path joins) are left out. So is the `str(path)` of a full LUT path: `Grade.EscapeFilterPath` takes the path text.
- `Grader.apply` and `_run_ffmpeg`. They create directories, check for existing files and run ffmpeg. Only the names and filters they compute are modelled.
- `LutLibrary` (a glob cache with filesystem state), ingest.py (a directory listing) and config.py.
- `write_manifest` and `_collect_entries` (JSON, `datetime.utcnow`, directory glob). `Gallery.BuildManifest` takes the collected entries and leaves out the time stamp.
- Command-line parsing and printing in `src/cli.py`; `src/main.c`, the plugin stubs and the web slideshow. None of them compute anything this model uses.
- In `_find_exif_segment`, the check `offset + 2 > size` is omitted from `JpegExif.ExifRound`: the loop guard `offset + 4 <= size` rules it out.
- Python exception types. Each raise is an `Err` carrying an error case, not a message.
- Grade.Grader.Scale: only its head and cap are stated; the rest of the ffmpeg expression is fixed text.
