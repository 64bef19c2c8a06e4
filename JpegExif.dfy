/** Locating the Exif payload in a JPEG stream: a walk over the marker segments of
    ITU-T T.81 Annex B that returns the payload of the first APP1 segment starting with
    "Exif\0\0", and gives up at Start-Of-Scan or at a segment that runs past the end. */
module JpegExif {
  import opened Wrappers
  import opened Binary

  const SoiMarker: seq<byte> := [0xFF, 0xD8]
  const MarkerPrefix: byte := 0xFF
  const App1: byte := 0xE1
  const StartOfScan: byte := 0xDA

  /** "Exif" followed by two NUL bytes. */
  const ExifHeader: seq<byte> := [0x45, 0x78, 0x69, 0x66, 0x00, 0x00]

  predicate StartsWith(s: seq<byte>, prefix: seq<byte>)
  {
    |prefix| <= |s| && s[..|prefix|] == prefix
  }

  /** One round of the walk: go on from a later offset, or end with an outcome. */
  datatype Round = Next(offset: nat) | Done(payload: Option<seq<byte>>)

  /** The round at offset, four bytes of which are in the blob. A byte other than 0xFF is
      skipped; after a marker the 16-bit big-endian segment length is read and the walk
      jumps by it. There are no standalone markers here: every marker but SOS carries a
      length. */
  function ExifRound(blob: seq<byte>, offset: nat): (r: Round)
    requires offset + 4 <= |blob|
    ensures r.Next? ==> offset < r.offset
  {
    if blob[offset] != MarkerPrefix then Next(offset + 1)
    else
      var marker := blob[offset + 1];
      var o := offset + 2;
      if marker == StartOfScan then Done(None)
      else
        var segmentLength := Be16(blob[o..o + 2]);
        if marker == App1 && o + segmentLength > |blob| then Done(None)
        else if marker == App1 && StartsWith(Slice(blob, o + 2, o + segmentLength), ExifHeader) then
          Done(Some(Slice(blob, o + 2, o + segmentLength)[6..]))
        else Next(o + segmentLength)
  }

  /** The rest of the walk from offset: rounds while four bytes remain. A payload is found
      in what remains of the blob after the marker and its Exif header. */
  function ExifScan(blob: seq<byte>, offset: nat): (r: Option<seq<byte>>)
    ensures r.Some? ==> offset + 10 + |r.value| <= |blob|
    decreases |blob| - offset
  {
    if offset + 4 > |blob| then None
    else
      match ExifRound(blob, offset)
      case Next(next) => ExifScan(blob, next)
      case Done(payload) => payload
  }

  /** The Exif payload of a JPEG stream, if any; nothing unless the stream has at least
      four bytes and starts with the Start-Of-Image marker. */
  function ExifSegment(blob: seq<byte>): (r: Option<seq<byte>>)
    ensures |blob| < 4 || blob[..2] != SoiMarker ==> r == None
  {
    if |blob| < 4 || blob[..2] != SoiMarker then None else ExifScan(blob, 2)
  }

  /** The offsets the walk from offset passes through: offset itself, and every offset
      reached from the next offset of a round that goes on. */
  ghost predicate Visits(blob: seq<byte>, offset: nat, k: nat)
    decreases |blob| - offset
  {
    || offset == k
    || (offset + 4 <= |blob| && ExifRound(blob, offset).Next? && Visits(blob, ExifRound(blob, offset).offset, k))
  }

  /** Marker m (after its 0xFF prefix) is at k. */
  ghost predicate MarkerAt(blob: seq<byte>, k: nat, m: byte)
  {
    k + 2 <= |blob| && blob[k] == MarkerPrefix && blob[k + 1] == m
  }

  /** An APP1 segment opens at k, lies inside the blob and starts with the Exif header. */
  ghost predicate ExifApp1At(blob: seq<byte>, k: nat)
  {
    && k + 4 <= |blob| && MarkerAt(blob, k, App1)
    && var segmentLength := Be16(blob[k + 2..k + 4]);
    && 8 <= segmentLength && k + 2 + segmentLength <= |blob|
    && blob[k + 4..k + 10] == ExifHeader
  }

  /** payload is the rest, after the Exif header, of the Exif APP1 segment at k. */
  ghost predicate ExifPayloadAt(blob: seq<byte>, k: nat, payload: seq<byte>)
  {
    ExifApp1At(blob, k) && payload == blob[k + 10..k + 2 + Be16(blob[k + 2..k + 4])]
  }

  /** The walk only moves forward. */
  lemma {:induction false} VisitsForward(blob: seq<byte>, offset: nat, k: nat)
    requires Visits(blob, offset, k)
    ensures offset <= k
    decreases |blob| - offset
  {
    if offset != k {
      VisitsForward(blob, ExifRound(blob, offset).offset, k);
    }
  }

  /** Every offset the walk passes through carries the walk's outcome. */
  lemma {:induction false} VisitsSameScan(blob: seq<byte>, offset: nat, k: nat)
    requires Visits(blob, offset, k)
    ensures ExifScan(blob, offset) == ExifScan(blob, k)
    decreases |blob| - offset
  {
    if offset != k {
      VisitsSameScan(blob, ExifRound(blob, offset).offset, k);
    }
  }

  /** A visited offset before another visited offset is a round that goes on. */
  lemma {:induction false} VisitedBefore(blob: seq<byte>, offset: nat, j: nat, k: nat)
    requires Visits(blob, offset, j) && Visits(blob, offset, k) && j < k
    ensures j + 4 <= |blob| && ExifRound(blob, j).Next?
    decreases |blob| - offset
  {
    if offset != j {
      var next := ExifRound(blob, offset).offset;
      if offset == k {
        VisitsForward(blob, next, j);
        assert false;
      }
      VisitedBefore(blob, next, j, k);
    }
  }

  /** A round that goes on is neither at Start-Of-Scan nor at an Exif APP1 segment. */
  lemma RoundGoesOn(blob: seq<byte>, j: nat)
    requires j + 4 <= |blob| && ExifRound(blob, j).Next?
    ensures !MarkerAt(blob, j, StartOfScan) && !ExifApp1At(blob, j)
  {
    if ExifApp1At(blob, j) {
      ExifApp1Round(blob, j);
    }
  }

  /** The round at an Exif APP1 segment returns its payload. */
  lemma ExifApp1Round(blob: seq<byte>, k: nat)
    requires ExifApp1At(blob, k)
    ensures ExifRound(blob, k) == Done(Some(blob[k + 10..k + 2 + Be16(blob[k + 2..k + 4])]))
  {
    var o := k + 2;
    var segmentLength := Be16(blob[o..o + 2]);
    var segment := Slice(blob, o + 2, o + segmentLength);
    assert segment == blob[k + 4..k + 2 + segmentLength];
    assert segment[..6] == blob[k + 4..k + 10];
    assert segment[6..] == blob[k + 10..k + 2 + segmentLength];
  }

  /** Whatever the walk returns is the payload of an Exif APP1 segment it visits, and no
      offset it visits before that one is Start-Of-Scan or another Exif APP1 segment: the
      payload is that of the first Exif APP1 segment before the first SOS. */
  lemma ExifScanFirst(blob: seq<byte>, offset: nat)
    requires ExifScan(blob, offset).Some?
    ensures exists k :: Visits(blob, offset, k) && ExifPayloadAt(blob, k, ExifScan(blob, offset).value)
              && forall j :: offset <= j < k && Visits(blob, offset, j) ==>
                   !MarkerAt(blob, j, StartOfScan) && !ExifApp1At(blob, j)
  {
    var k := ExifScanFound(blob, offset);
    forall j | offset <= j < k && Visits(blob, offset, j)
      ensures !MarkerAt(blob, j, StartOfScan) && !ExifApp1At(blob, j)
    {
      VisitedBefore(blob, offset, j, k);
      RoundGoesOn(blob, j);
    }
  }

  /** The visited offset at which the walk found its payload. */
  lemma {:induction false} ExifScanFound(blob: seq<byte>, offset: nat) returns (k: nat)
    requires ExifScan(blob, offset).Some?
    ensures Visits(blob, offset, k) && ExifPayloadAt(blob, k, ExifScan(blob, offset).value)
    decreases |blob| - offset
  {
    match ExifRound(blob, offset)
    case Next(next) =>
      k := ExifScanFound(blob, next);
    case Done(payload) =>
      var o := offset + 2;
      var segmentLength := Be16(blob[o..o + 2]);
      assert Slice(blob, o + 2, o + segmentLength) == blob[o + 2..o + segmentLength];
      k := offset;
  }

  /** Conversely, an Exif APP1 segment the walk visits gives the walk's result. */
  lemma ExifScanFinds(blob: seq<byte>, offset: nat, k: nat)
    requires Visits(blob, offset, k) && ExifApp1At(blob, k)
    ensures ExifScan(blob, offset) == Some(blob[k + 10..k + 2 + Be16(blob[k + 2..k + 4])])
  {
    VisitsSameScan(blob, offset, k);
    ExifApp1Round(blob, k);
  }

  /** The payload found in a stream is a slice of it that directly follows an Exif header. */
  lemma ExifSegmentSound(blob: seq<byte>)
    requires ExifSegment(blob).Some?
    ensures exists i, j :: 10 <= i <= j <= |blob| && ExifSegment(blob).value == blob[i..j] && blob[i - 6..i] == ExifHeader
  {
    var k := ExifScanFound(blob, 2);
    var segmentLength := Be16(blob[k + 2..k + 4]);
    assert blob[k + 4..k + 10] == ExifHeader;
    assert ExifSegment(blob).value == blob[k + 10..k + 2 + segmentLength];
  }

  /** The walk gives up at Start-Of-Scan. */
  lemma ExifScanStopsAtSos(blob: seq<byte>, offset: nat)
    requires offset + 4 <= |blob| && blob[offset] == MarkerPrefix && blob[offset + 1] == StartOfScan
    ensures ExifScan(blob, offset) == None
  {
  }

  /** An APP1 segment whose declared length runs past the end ends the walk with nothing. */
  lemma ExifScanStopsAtOverlongApp1(blob: seq<byte>, offset: nat)
    requires offset + 4 <= |blob| && blob[offset] == MarkerPrefix && blob[offset + 1] == App1
    requires offset + 2 + Be16(blob[offset + 2..offset + 4]) > |blob|
    ensures ExifScan(blob, offset) == None
  {
  }

  /** _find_exif_segment: the marker walk as a loop over an offset that grows every round. */
  method FindExifSegment(blob: seq<byte>) returns (r: Option<seq<byte>>)
    ensures r == ExifSegment(blob)
  {
    var size := |blob|;
    if size < 4 || blob[0..2] != SoiMarker {
      return None;
    }
    var offset: nat := 2;
    while offset + 4 <= size
      invariant ExifScan(blob, offset) == ExifScan(blob, 2)
      decreases size - offset
    {
      var round := WalkRound(blob, offset);
      match round
      case Next(next) =>
        offset := next;
      case Done(payload) =>
        return payload;
    }
    return None;
  }

  /** The body of the walk's loop at an offset with four bytes left. */
  method WalkRound(blob: seq<byte>, offset: nat) returns (r: Round)
    requires offset + 4 <= |blob|
    ensures r == ExifRound(blob, offset)
  {
    if blob[offset] != MarkerPrefix {
      return Next(offset + 1);
    }
    var marker := blob[offset + 1];
    var o := offset + 2;
    if marker == StartOfScan {
      return Done(None);
    }
    // The loop condition already leaves room for the two length bytes.
    assert o + 2 <= |blob|;
    var segmentLength := Be16(blob[o..o + 2]);
    if marker == App1 {
      var start := o + 2;
      var end := start + segmentLength - 2;
      if end > |blob| {
        return Done(None);
      }
      var segment := Slice(blob, start, end);
      if StartsWith(segment, ExifHeader) {
        return Done(Some(segment[6..]));
      }
    }
    return Next(o + segmentLength);
  }
}
