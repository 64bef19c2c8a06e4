/** Image dimensions and device information of a staged photo: a JPEG frame-header scan,
    a PNG IHDR read, the orientation-aware width/height, and the camera-model lookup. */
module Models {
  import opened Wrappers
  import opened Binary
  import Ascii
  import Paths
  import ExifFields

  /** Camera model codes with a friendlier device name. */
  const ModelMap: map<string, string> := map["FC9313" := "DJI Mini 5 Pro"]

  const SoiMarker: seq<byte> := [0xFF, 0xD8]

  /** The Start-Of-Frame markers of ITU-T T.81 Table B.1: C0 to CF except DHT (C4), JPG
      (C8) and DAC (CC). */
  predicate IsFrameMarker(m: byte)
  {
    0xC0 <= m <= 0xCF && m != 0xC4 && m != 0xC8 && m != 0xCC
  }

  /** The PNG signature: 0x89 "PNG" CR LF SUB LF. */
  const PngSignature: seq<byte> := [0x89, 0x50, 0x4E, 0x47, 0x0D, 0x0A, 0x1A, 0x0A]
  const Ihdr: seq<byte> := [0x49, 0x48, 0x44, 0x52]

  /** An open binary file: its contents and a cursor, which may lie past the end. */
  class Reader {
    const data: seq<byte>
    var pos: nat

    constructor (data: seq<byte>)
      ensures this.data == data && pos == 0
    {
      this.data := data;
      pos := 0;
    }

    /** read(n): n == -1 reads to the end, a shorter read happens only at the end, and a
        length below -1 is refused. The cursor moves by what was read. */
    method Read(n: int) returns (r: Result<seq<byte>>)
      modifies this
      ensures n < -1 ==> r == Err(NegativeReadLength) && pos == old(pos)
      ensures n >= -1 ==> r.Ok? && r.value == Slice(data, old(pos), if n == -1 then |data| else old(pos) + n)
      ensures n >= -1 ==> pos == old(pos) + |r.value|
    {
      if n < -1 {
        return Err(NegativeReadLength);
      }
      var end := if n == -1 then |data| else pos + n;
      var chunk := Slice(data, pos, end);
      pos := pos + |chunk|;
      return Ok(chunk);
    }

    /** seek(delta, 1): any position at or after the start, even past the end. */
    method SeekRelative(delta: int) returns (r: Result<nat>)
      modifies this
      ensures old(pos) + delta < 0 ==> r == Err(InvalidSeek) && pos == old(pos)
      ensures old(pos) + delta >= 0 ==> r == Ok(old(pos) + delta) && pos == old(pos) + delta
    {
      if pos + delta < 0 {
        return Err(InvalidSeek);
      }
      pos := pos + delta;
      return Ok(pos);
    }
  }

  predicate IsStandalone(m: byte)
  {
    m == 0xD8 || m == 0xD9 || 0xD0 <= m <= 0xD7
  }

  /** One round of the frame-header scan: move on to a later cursor position, or stop
      with an outcome. */
  datatype Step = Skip(next: nat) | Stop(outcome: Result<(nat, nat)>)

  /** The round that starts at cursor position pos: a byte other than 0xFF is passed over,
      a standalone marker has no length, and any other marker heads a segment. */
  function JpegStep(data: seq<byte>, pos: nat): (s: Step)
    ensures s.Skip? ==> pos < |data| && pos < s.next
  {
    if pos >= |data| then Stop(Err(DimensionsNotFound))
    else if data[pos] != 0xFF then Skip(pos + 1)
    else if pos + 1 >= |data| then Stop(Err(DimensionsNotFound))
    else if IsStandalone(data[pos + 1]) then Skip(pos + 2)
    else SegmentStep(data, pos, data[pos + 1])
  }

  /** The rest of a round whose marker m, at pos, carries a length: a frame marker decides
      the outcome, and any other marker, SOS included, is passed over by its length. */
  function SegmentStep(data: seq<byte>, pos: nat, m: byte): (s: Step)
    requires pos + 2 <= |data|
    ensures s.Skip? ==> pos + 2 <= s.next
  {
    if pos + 4 > |data| then Stop(Err(DimensionsNotFound))
    else
      var segmentLength := Be16(data[pos + 2..pos + 4]);
      if IsFrameMarker(m) then
        // read(-2) is refused, and read(-1) never returns -1 bytes
        if segmentLength == 0 then Stop(Err(NegativeReadLength))
        else if segmentLength == 1 then Stop(Err(DimensionsNotFound))
        else if pos + 2 + segmentLength > |data| then Stop(Err(DimensionsNotFound))
        else
          var payload := data[pos + 4..pos + 2 + segmentLength];
          Stop(Ok((BeShort(Slice(payload, 3, 5)), BeShort(Slice(payload, 1, 3)))))
      else Skip(pos + 2 + segmentLength)
  }

  /** The rest of the scan from cursor position pos; both dimensions are 16-bit fields. */
  function JpegScan(data: seq<byte>, pos: nat): (r: Result<(nat, nat)>)
    ensures r.Ok? ==> r.value.0 < 0x10000 && r.value.1 < 0x10000
    decreases |data| - pos
  {
    match JpegStep(data, pos)
    case Skip(next) => JpegScan(data, next)
    case Stop(outcome) => outcome
  }

  /** _read_jpeg_dimensions on the file contents, as (width, height). */
  function JpegDimensions(data: seq<byte>): (r: Result<(nat, nat)>)
    ensures (|data| < 2 || data[..2] != SoiMarker) ==> r == Err(NotJpeg)
  {
    if Slice(data, 0, 2) != SoiMarker then Err(NotJpeg) else JpegScan(data, 2)
  }

  /** A frame marker at k whose whole segment is inside the data, with width w and height
      h read from the clamped slices [3:5] and [1:3] of its payload. */
  ghost predicate SofAt(data: seq<byte>, k: nat, w: nat, h: nat)
  {
    && k + 4 <= |data| && data[k] == 0xFF && IsFrameMarker(data[k + 1])
    && var segmentLength := Be16(data[k + 2..k + 4]);
    && 2 <= segmentLength && k + 2 + segmentLength <= |data|
    && var payload := data[k + 4..k + 2 + segmentLength];
    && w == BeShort(Slice(payload, 3, 5)) && h == BeShort(Slice(payload, 1, 3))
  }

  /** The cursor positions the scan from pos starts a round at: pos itself, and every
      position reached from the next position of a round that goes on. */
  ghost predicate ScanVisits(data: seq<byte>, pos: nat, k: nat)
    decreases |data| - pos
  {
    || pos == k
    || (JpegStep(data, pos).Skip? && ScanVisits(data, JpegStep(data, pos).next, k))
  }

  /** A frame marker opens a segment at k. */
  ghost predicate FrameMarkerAt(data: seq<byte>, k: nat)
  {
    k + 2 <= |data| && data[k] == 0xFF && IsFrameMarker(data[k + 1])
  }

  /** The scan only moves forward. */
  lemma {:induction false} ScanVisitsForward(data: seq<byte>, pos: nat, k: nat)
    requires ScanVisits(data, pos, k)
    ensures pos <= k
    decreases |data| - pos
  {
    if pos != k {
      ScanVisitsForward(data, JpegStep(data, pos).next, k);
    }
  }

  /** Every position the scan starts a round at carries the scan's outcome. */
  lemma {:induction false} ScanVisitsSameScan(data: seq<byte>, pos: nat, k: nat)
    requires ScanVisits(data, pos, k)
    ensures JpegScan(data, pos) == JpegScan(data, k)
    decreases |data| - pos
  {
    if pos != k {
      ScanVisitsSameScan(data, JpegStep(data, pos).next, k);
    }
  }

  /** A visited position before another visited position is a round that goes on, so no
      frame marker is there. */
  lemma {:induction false} ScanVisitedBefore(data: seq<byte>, pos: nat, j: nat, k: nat)
    requires ScanVisits(data, pos, j) && ScanVisits(data, pos, k) && j < k
    ensures JpegStep(data, j).Skip? && !FrameMarkerAt(data, j)
    decreases |data| - pos
  {
    if pos != j {
      var next := JpegStep(data, pos).next;
      if pos == k {
        ScanVisitsForward(data, next, j);
        assert false;
      }
      ScanVisitedBefore(data, next, j, k);
    }
  }

  /** The visited position whose round ends the scan. */
  lemma {:induction false} ScanStopsAt(data: seq<byte>, pos: nat) returns (k: nat)
    ensures ScanVisits(data, pos, k) && JpegStep(data, k).Stop? && JpegScan(data, pos) == JpegStep(data, k).outcome
    decreases |data| - pos
  {
    match JpegStep(data, pos)
    case Skip(next) =>
      k := ScanStopsAt(data, next);
    case Stop(_) =>
      k := pos;
  }

  /** Dimensions come from the first frame marker the scan reaches: the scan visits a
      complete frame segment at some k, giving its fields, and no position it visits
      before k holds a frame marker. */
  lemma JpegScanFirst(data: seq<byte>, pos: nat)
    requires JpegScan(data, pos).Ok?
    ensures exists k :: ScanVisits(data, pos, k) && SofAt(data, k, JpegScan(data, pos).value.0, JpegScan(data, pos).value.1)
              && forall j :: pos <= j < k && ScanVisits(data, pos, j) ==> !FrameMarkerAt(data, j)
  {
    var k := ScanStopsAt(data, pos);
    forall j | pos <= j < k && ScanVisits(data, pos, j)
      ensures !FrameMarkerAt(data, j)
    {
      ScanVisitedBefore(data, pos, j, k);
    }
  }

  /** Conversely, a complete frame segment at a visited position gives the scan's result. */
  lemma JpegScanFinds(data: seq<byte>, pos: nat, k: nat, w: nat, h: nat)
    requires ScanVisits(data, pos, k) && SofAt(data, k, w, h)
    ensures JpegScan(data, pos) == Ok((w, h))
  {
    ScanVisitsSameScan(data, pos, k);
  }

  /** Start-Of-Image, End-Of-Image and the restart markers carry no length: the scan
      passes over the two marker bytes alone. */
  lemma StandaloneSkipped(data: seq<byte>, pos: nat)
    requires pos + 1 < |data| && data[pos] == 0xFF && IsStandalone(data[pos + 1])
    ensures JpegScan(data, pos) == JpegScan(data, pos + 2)
  {
  }

  /** The first frame marker reached decides: it gives dimensions exactly when its whole
      segment is present, and the scan never looks for a later one. */
  lemma FirstSofDecides(data: seq<byte>, pos: nat)
    requires pos + 4 <= |data| && data[pos] == 0xFF && IsFrameMarker(data[pos + 1])
    ensures var segmentLength := Be16(data[pos + 2..pos + 4]);
            JpegScan(data, pos).Ok? <==> 2 <= segmentLength && pos + 2 + segmentLength <= |data|
    ensures JpegScan(data, pos).Ok? ==> SofAt(data, pos, JpegScan(data, pos).value.0, JpegScan(data, pos).value.1)
  {
  }

  /** With a complete frame header (length at least 7) the height and width are the two
      big-endian 16-bit fields after the sample precision, as in T.81 B.2.2. */
  lemma SofHeaderFields(data: seq<byte>, k: nat, w: nat, h: nat)
    requires SofAt(data, k, w, h) && Be16(data[k + 2..k + 4]) >= 7
    ensures h == 256 * (data[k + 5] as int) + data[k + 6] as int
    ensures w == 256 * (data[k + 7] as int) + data[k + 8] as int
  {
    var segmentLength := Be16(data[k + 2..k + 4]);
    PayloadField(data, k + 4, k + 2 + segmentLength, 1);
    PayloadField(data, k + 4, k + 2 + segmentLength, 3);
  }

  /** Two bytes at offset i of the slice data[a..b] are the two bytes at a + i of data. */
  lemma PayloadField(data: seq<byte>, a: nat, b: nat, i: nat)
    requires a + i + 2 <= b <= |data|
    ensures Slice(data[a..b], i, i + 2) == [data[a + i], data[a + i + 1]]
  {
    var payload := data[a..b];
    assert payload[i] == data[a + i] && payload[i + 1] == data[a + i + 1];
    assert Slice(payload, i, i + 2) == payload[i..i + 2];
  }

  /** DHT (C4), JPG (C8), DAC (CC) and SOS (DA) are skipped by their length like any other
      segment: none of them is a frame and the scan does not stop at the scan data. */
  lemma NonFrameMarkersSkipped(data: seq<byte>, pos: nat)
    requires pos + 4 <= |data| && data[pos] == 0xFF && (data[pos + 1] == 0xC4 || data[pos + 1] == 0xC8 || data[pos + 1] == 0xCC || data[pos + 1] == 0xDA)
    ensures JpegScan(data, pos) == JpegScan(data, pos + 2 + Be16(data[pos + 2..pos + 4]))
  {
  }

  /** One round of the frame-header scan on the open file: reads a byte and, after 0xFF,
      the marker; a standalone marker ends the round, any other is read as a segment. */
  method ScanRound(fh: Reader) returns (s: Step)
    modifies fh
    ensures s == JpegStep(fh.data, old(fh.pos))
    ensures s.Skip? ==> fh.pos == s.next
  {
    ghost var start := fh.pos;
    var markerStart := fh.Read(1);
    if markerStart.value == [] {
      return Stop(Err(DimensionsNotFound));
    }
    if markerStart.value != [0xFF] {
      return Skip(fh.pos);
    }
    var marker := fh.Read(1);
    if marker.value == [] {
      return Stop(Err(DimensionsNotFound));
    }
    var m := marker.value[0];
    assert fh.data[start] == 0xFF && fh.data[start + 1] == m;
    if m == 0xD8 || m == 0xD9 {
      return Skip(fh.pos);
    }
    if 0xD0 <= m <= 0xD7 {
      return Skip(fh.pos);
    }
    s := ReadSegment(fh, start, m);
  }

  /** The segment part of a round, with the cursor just after the marker m that starts at
      `start`: reads the length, then the frame header or past the segment. */
  method ReadSegment(fh: Reader, ghost start: nat, m: byte) returns (s: Step)
    requires fh.pos == start + 2 <= |fh.data|
    modifies fh
    ensures s == SegmentStep(fh.data, start, m)
    ensures s.Skip? ==> fh.pos == s.next
  {
    var lengthBytes := fh.Read(2);
    if |lengthBytes.value| != 2 {
      return Stop(Err(DimensionsNotFound));
    }
    var segmentLength := Be16(lengthBytes.value);
    assert lengthBytes.value == fh.data[start + 2..start + 4];
    if IsFrameMarker(m) {
      var payload := fh.Read(segmentLength as int - 2);
      if payload.Err? {
        return Stop(Err(payload.error));
      }
      if |payload.value| != segmentLength as int - 2 {
        return Stop(Err(DimensionsNotFound));
      }
      assert payload.value == fh.data[start + 4..start + 2 + segmentLength];
      var height := BeShort(Slice(payload.value, 1, 3));
      var width := BeShort(Slice(payload.value, 3, 5));
      return Stop(Ok((width, height)));
    }
    var moved := fh.SeekRelative(segmentLength as int - 2);
    return Skip(fh.pos);
  }

  /** _read_jpeg_dimensions: checks the Start-Of-Image marker, then runs rounds until one
      stops. */
  method ReadJpegDimensions(data: seq<byte>) returns (r: Result<(nat, nat)>)
    ensures r == JpegDimensions(data)
  {
    var fh := new Reader(data);
    var soi := fh.Read(2);
    if soi.value != SoiMarker {
      return Err(NotJpeg);
    }
    while true
      invariant fh.data == data && fh.pos >= 2
      invariant JpegScan(data, fh.pos) == JpegScan(data, 2)
      decreases |data| - fh.pos
    {
      var s := ScanRound(fh);
      if s.Stop? {
        return s.outcome;
      }
    }
  }

  /** _read_png_dimensions on the file contents, as (width, height). */
  function PngDimensions(data: seq<byte>): (r: Result<(nat, nat)>)
    ensures (|data| < 8 || data[..8] != PngSignature) ==> r == Err(NotPng)
    ensures r.Ok? ==> r.value.0 < 0x1_0000_0000 && r.value.1 < 0x1_0000_0000
  {
    if Slice(data, 0, 8) != PngSignature then Err(NotPng)
    else if Slice(data, 12, 16) != Ihdr || BeInt(Slice(data, 8, 12)) != 13 then Err(InvalidPngHeader)
    else
      BeIntBelow32(Slice(data, 16, 20));
      BeIntBelow32(Slice(data, 20, 24));
      Ok((BeInt(Slice(data, 16, 20)), BeInt(Slice(data, 20, 24))))
  }

  /** The PNG reader accepts exactly a signature followed by a 13-byte IHDR chunk header;
      a whole IHDR gives the big-endian width and height that follow the chunk type. */
  lemma PngHeader(data: seq<byte>)
    ensures PngDimensions(data).Ok? <==>
              |data| >= 16 && data[..8] == PngSignature && data[12..16] == Ihdr && BeInt(data[8..12]) == 13
    ensures PngDimensions(data).Ok? && |data| >= 24 ==>
              PngDimensions(data).value == (BeInt(data[16..20]), BeInt(data[20..24]))
  {
    if |data| < 16 {
      assert |Slice(data, 12, 16)| < 4;
    }
  }

  /** The PNG reader as the four sequential reads it makes. */
  method ReadPngDimensions(data: seq<byte>) returns (r: Result<(nat, nat)>)
    ensures r == PngDimensions(data)
  {
    var fh := new Reader(data);
    var sig := fh.Read(8);
    assert sig.value == Slice(data, 0, 8);
    if sig.value != PngSignature {
      return Err(NotPng);
    }
    assert fh.pos == 8;
    var lengthField := fh.Read(4);
    var length := BeInt(lengthField.value);
    var chunkType := fh.Read(4);
    assert lengthField.value == Slice(data, 8, 12) && chunkType.value == Slice(data, 12, 16);
    if chunkType.value != Ihdr || length != 13 {
      return Err(InvalidPngHeader);
    }
    assert fh.pos == 16;
    var widthField := fh.Read(4);
    var heightField := fh.Read(4);
    assert widthField.value == Slice(data, 16, 20) && heightField.value == Slice(data, 20, 24);
    return Ok((BeInt(widthField.value), BeInt(heightField.value)));
  }

  /** _read_dimensions: chooses the reader by the lower-cased suffix of the file name. */
  function ReadDimensions(name: string, data: seq<byte>): (r: Result<(nat, nat)>)
    ensures var suffix := Ascii.Lower(Paths.Suffix(name));
            && (suffix == ".jpg" || suffix == ".jpeg" ==> r == JpegDimensions(data))
            && (suffix == ".png" ==> r == PngDimensions(data))
            && (suffix != ".jpg" && suffix != ".jpeg" && suffix != ".png" ==> r == Err(UnsupportedFormat))
  {
    var suffix := Ascii.Lower(Paths.Suffix(name));
    if suffix == ".jpg" || suffix == ".jpeg" then JpegDimensions(data)
    else if suffix == ".png" then PngDimensions(data)
    else Err(UnsupportedFormat)
  }

  /** The device name shown for a raw camera model: the one known code is renamed and
      every other model is shown as it is. */
  function FriendlyName(raw: string): (r: string)
    ensures r == (if raw == "FC9313" then "DJI Mini 5 Pro" else raw)
  {
    if raw in ModelMap then ModelMap[raw] else raw
  }

  /** A source photo: the final component of its path and the file's contents. */
  datatype PhotoAsset = PhotoAsset(name: string, content: seq<byte>)
  {
    /** The stored picture is turned a quarter (Exif orientations 5 to 8); an orientation
        that cannot be read counts as not turned. */
    predicate QuarterTurned()
    {
      var orientation := ExifFields.ExtractOrientation(content);
      orientation.Ok? && orientation.value.Some? && 5 <= orientation.value.value <= 8
    }

    /** dimensions: the stored size, with width and height exchanged for a quarter turn. */
    function Dimensions(): (r: Option<(nat, nat)>)
      ensures r.None? <==> ReadDimensions(name, content).Err?
      ensures r.Some? && !QuarterTurned() ==> r.value == ReadDimensions(name, content).value
      ensures r.Some? && QuarterTurned() ==>
                r.value.0 == ReadDimensions(name, content).value.1 && r.value.1 == ReadDimensions(name, content).value.0
    {
      var dims := ReadDimensions(name, content);
      if dims.Err? then None
      else if QuarterTurned() then Some((dims.value.1, dims.value.0))
      else Some(dims.value)
    }

    /** is_vertical: height at least width once a quarter turn is undone, a square being
        both; an unreadable size is not vertical. */
    function IsVertical(): (r: bool)
      ensures ReadDimensions(name, content).Err? ==> !r
      ensures ReadDimensions(name, content).Ok? ==>
                var stored := ReadDimensions(name, content).value;
                (r <==> if QuarterTurned() then stored.0 >= stored.1 else stored.1 >= stored.0)
    {
      var dims := Dimensions();
      dims.Some? && dims.value.1 >= dims.value.0
    }

    /** device_summary: (friendly name, raw model) for a nonempty camera model; nothing
        when extraction fails or finds no model. */
    function DeviceSummary(): (r: Option<(string, string)>)
      ensures r.Some? <==> ExifFields.ExtractCameraModel(content).Ok? && ExifFields.ExtractCameraModel(content).value.Some?
      ensures r.Some? ==> r.value.1 == ExifFields.ExtractCameraModel(content).value.value && r.value.1 != []
      ensures r.Some? ==> r.value.0 == (if r.value.1 == "FC9313" then "DJI Mini 5 Pro" else r.value.1)
    {
      var raw := ExifFields.ExtractCameraModel(content);
      if raw.Err? || raw.value.None? || raw.value.value == [] then None
      else Some((FriendlyName(raw.value.value), raw.value.value))
    }

    /** device_model: the raw half of the summary. */
    function DeviceModel(): (r: Option<string>)
      ensures r.Some? <==> DeviceSummary().Some?
      ensures r.Some? ==> r.value == ExifFields.ExtractCameraModel(content).value.value
    {
      var info := DeviceSummary();
      if info.Some? then Some(info.value.1) else None
    }

    /** device_name: the friendly half of the summary. */
    function DeviceName(): (r: Option<string>)
      ensures r.Some? <==> DeviceSummary().Some?
      ensures r.Some? ==> r.value == FriendlyName(ExifFields.ExtractCameraModel(content).value.value)
    {
      var info := DeviceSummary();
      if info.Some? then Some(info.value.0) else None
    }
  }
}
