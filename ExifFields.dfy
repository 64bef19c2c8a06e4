/** The three facts read from a photo's Exif directory: the GPS position, the orientation
    and the camera model, and the file-level extractors that first locate the payload. */
module ExifFields {
  import opened Wrappers
  import opened Binary
  import opened Tiff
  import Ascii
  import JpegExif

  const TagGpsLatitudeRef: nat := 0x0001
  const TagGpsLatitude: nat := 0x0002
  const TagGpsLongitudeRef: nat := 0x0003
  const TagGpsLongitude: nat := 0x0004
  const TagModel: nat := 0x0110
  const TagOrientation: nat := 0x0112
  const TagGpsInfo: nat := 0x8825

  /** A position in signed decimal degrees (south and west negative), kept exact. */
  datatype GpsData = GpsData(latitude: real, longitude: real)

  /** ifd0: the entries of the first directory, whose offset is the 32-bit word at 4. */
  function Ifd0(p: Parser): (r: Result<map<nat, Value>>)
    ensures r.Ok? <==> U32(p, 4).Ok? && U32(p, 4).value + 2 <= |p.blob|
    ensures r.Ok? ==> r.value == IfdAt(p, U32(p, 4).value).value.entries
  {
    var first :- U32(p, 4);
    var ifd :- IfdAt(p, first);
    Ok(ifd.entries)
  }

  /** How many items list(v) has. */
  function ItemCount(v: Value): nat
  {
    match v
    case Text(s) => |s|
    case Shorts(s) => |s|
    case Longs(s) => |s|
    case Rationals(s) => |s|
    case Bytes(s) => |s|
  }

  /** Python truthiness of a decoded value: it is not empty. */
  predicate Truthy(v: Value)
  {
    ItemCount(v) > 0
  }

  /** A tag is present with a truthy value. */
  predicate Present(m: map<nat, Value>, tag: nat)
  {
    tag in m && Truthy(m[tag])
  }

  /** bytes(numbers) for numbers that all fit in a byte. */
  function AsBytes(s: seq<nat>): (r: seq<byte>)
    requires forall i :: 0 <= i < |s| ==> s[i] < 256
    ensures |r| == |s| && forall i :: 0 <= i < |s| ==> r[i] == s[i]
  {
    seq(|s|, i requires 0 <= i < |s| => s[i] as byte)
  }

  /** A value read as text: a string as it is, anything else through bytes(value) decoded
      as ASCII with replacement; None where bytes(value) would raise, which is for a number
      above 255 or a tuple item that is itself a tuple. */
  function AsText(v: Value): (r: Option<string>)
    ensures v.Text? ==> r == Some(v.text)
    ensures v.Bytes? ==> r == Some(Ascii.Decode(v.bytes))
    ensures r.Some? ==> |r.value| == ItemCount(v)
    ensures r.None? <==> ((v.Rationals? && v.rationals != [])
                           || (v.Shorts? && exists i :: 0 <= i < |v.shorts| && v.shorts[i] >= 256)
                           || (v.Longs? && exists i :: 0 <= i < |v.longs| && v.longs[i] >= 256))
  {
    match v
    case Text(s) => Some(s)
    case Bytes(b) => Some(Ascii.Decode(b))
    case Shorts(s) => NumbersAsText(s)
    case Longs(s) => NumbersAsText(s)
    case Rationals(rs) => if rs == [] then Some("") else None
  }

  function NumbersAsText(s: seq<nat>): (r: Option<string>)
    ensures r.Some? <==> forall i :: 0 <= i < |s| ==> s[i] < 256
    ensures r.Some? ==> |r.value| == |s|
  {
    if forall i :: 0 <= i < |s| ==> s[i] < 256 then Some(Ascii.Decode(AsBytes(s))) else None
  }

  /** The value of one rational. */
  function Ratio(q: (nat, nat)): real
    requires q.1 != 0
  {
    q.0 as real / q.1 as real
  }

  /** Degrees, minutes and seconds combined into degrees. */
  function Degrees(rs: seq<(nat, nat)>): (d: real)
    requires |rs| >= 3 && rs[0].1 != 0 && rs[1].1 != 0 && rs[2].1 != 0
    ensures d >= 0.0
  {
    Ratio(rs[0]) + Ratio(rs[1]) / 60.0 + Ratio(rs[2]) / 3600.0
  }

  /** The hemisphere reference names the southern or western half. */
  predicate IsSouthOrWest(reference: string)
  {
    Ascii.Upper(reference) == "S" || Ascii.Upper(reference) == "W"
  }

  /** _rational_triplet_to_deg: None when the reference cannot be read as text, when
      there are fewer than three items, or when one of the first three denominators is
      zero; a failure when the items are not (numerator, denominator) pairs; otherwise
      the degrees of the first three rationals, negated for south and west. */
  function TripletToDeg(values: Value, reference: Value): (r: Result<Option<real>>)
    ensures AsText(reference).None? ==> r == Ok(None)
    ensures r.Err? <==> AsText(reference).Some? && ItemCount(values) >= 3 && !values.Rationals?
    ensures values.Rationals? && |values.rationals| < 3 ==> r == Ok(None)
    ensures values.Rationals? && |values.rationals| >= 3
            && (values.rationals[0].1 == 0 || values.rationals[1].1 == 0 || values.rationals[2].1 == 0)
            ==> r == Ok(None)
    ensures AsText(reference).Some? && values.Rationals? && |values.rationals| >= 3
            && values.rationals[0].1 != 0 && values.rationals[1].1 != 0 && values.rationals[2].1 != 0
            ==> r == Ok(Some(if IsSouthOrWest(AsText(reference).value) then -Degrees(values.rationals) else Degrees(values.rationals)))
  {
    var refText := AsText(reference);
    if refText.None? then Ok(None)
    else if ItemCount(values) < 3 then Ok(None)
    else if !values.Rationals? then Err(UnpackFailed)
    else
      var rs := values.rationals;
      if rs[0].1 == 0 || rs[1].1 == 0 || rs[2].1 == 0 then Ok(None)
      else
        var deg := Degrees(rs);
        Ok(Some(if IsSouthOrWest(refText.value) then -deg else deg))
  }

  /** The triplet conversion as a loop over the first three rationals. */
  method RationalTripletToDeg(values: Value, reference: Value) returns (r: Result<Option<real>>)
    ensures r == TripletToDeg(values, reference)
  {
    var refText := AsText(reference);
    if refText.None? {
      return Ok(None);
    }
    if ItemCount(values) < 3 {
      return Ok(None);
    }
    if !values.Rationals? {
      return Err(UnpackFailed);
    }
    var rationals := values.rationals;
    var parts: seq<real> := [];
    for i := 0 to 3
      invariant |parts| == i
      invariant forall k :: 0 <= k < i ==> rationals[k].1 != 0 && parts[k] == Ratio(rationals[k])
    {
      var (num, den) := rationals[i];
      if den == 0 {
        return Ok(None);
      }
      parts := parts + [num as real / den as real];
    }
    var deg := parts[0] + parts[1] / 60.0 + parts[2] / 3600.0;
    if IsSouthOrWest(refText.value) {
      deg := -deg;
    }
    return Ok(Some(deg));
  }

  /** A converted coordinate is made of the first three rationals: its magnitude is their
      degrees, and it is negative only in the southern or western half and positive only
      outside it. */
  lemma TripletValue(values: Value, reference: Value, d: real)
    requires TripletToDeg(values, reference) == Ok(Some(d))
    ensures values.Rationals? && |values.rationals| >= 3
    ensures var rs := values.rationals;
              rs[0].1 != 0 && rs[1].1 != 0 && rs[2].1 != 0 && (d == Degrees(rs) || d == -Degrees(rs))
    ensures AsText(reference).Some?
    ensures d < 0.0 ==> IsSouthOrWest(AsText(reference).value)
    ensures d > 0.0 ==> !IsSouthOrWest(AsText(reference).value)
  {
  }

  /** Items after the third never matter. */
  lemma TripletIgnoresTail(rs: seq<(nat, nat)>, reference: Value)
    requires |rs| >= 3
    ensures TripletToDeg(Rationals(rs), reference) == TripletToDeg(Rationals(rs[..3]), reference)
  {
  }

  /** Whole degrees, minutes and seconds written as rationals over one convert back to
      the degrees they encode. */
  lemma TripletOfWholeNumbers(d: nat, m: nat, s: nat, reference: string)
    ensures var deg := d as real + m as real / 60.0 + s as real / 3600.0;
            TripletToDeg(Rationals([(d, 1), (m, 1), (s, 1)]), Text(reference))
            == Ok(Some(if IsSouthOrWest(reference) then -deg else deg))
  {
    var rs := [(d, 1), (m, 1), (s, 1)];
    assert Ratio(rs[0]) == d as real && Ratio(rs[1]) == m as real && Ratio(rs[2]) == s as real;
    assert Degrees(rs) == d as real + m as real / 60.0 + s as real / 3600.0;
    assert AsText(Text(reference)) == Some(reference);
  }

  /** The GPS directory offset named by the GPSInfo entry: its first item when it is a
      tuple of numbers; nothing for text or bytes; a failure for an empty tuple and for a
      tuple of rationals, whose first item is not a number. */
  function GpsPointer(v: Value): (r: Result<Option<nat>>)
    ensures r.Ok? && r.value.Some? <==> (v.Shorts? && v.shorts != []) || (v.Longs? && v.longs != [])
    ensures v.Shorts? && v.shorts != [] ==> r == Ok(Some(v.shorts[0]))
    ensures v.Longs? && v.longs != [] ==> r == Ok(Some(v.longs[0]))
    ensures r.Ok? && r.value.None? <==> v.Text? || v.Bytes?
  {
    match v
    case Text(_) => Ok(None)
    case Bytes(_) => Ok(None)
    case Shorts(s) => if s == [] then Err(NotIndexable) else Ok(Some(s[0]))
    case Longs(s) => if s == [] then Err(NotIndexable) else Ok(Some(s[0]))
    case Rationals(_) => Err(NotIndexable)
  }

  /** gps: follows the GPSInfo pointer of the first directory and converts the latitude
      and longitude found there. Both conversions run (and may fail) before either result
      is looked at. */
  function Gps(p: Parser): (r: Result<Option<GpsData>>)
    ensures Ifd0(p).Err? ==> r.Err?
    ensures Ifd0(p).Ok? && TagGpsInfo !in Ifd0(p).value ==> r == Ok(None)
    ensures Ifd0(p).Ok? && TagGpsInfo in Ifd0(p).value ==>
              var pointer := GpsPointer(Ifd0(p).value[TagGpsInfo]);
              && (pointer.Err? ==> r.Err?)
              && (pointer == Ok(None) ==> r == Ok(None))
              && (pointer.Ok? && pointer.value.Some? && pointer.value.value + 2 > |p.blob| ==> r.Err?)
    ensures Ifd0(p).Ok? && TagGpsInfo in Ifd0(p).value ==>
              var pointer := GpsPointer(Ifd0(p).value[TagGpsInfo]);
              pointer.Ok? && pointer.value.Some? && IfdAt(p, pointer.value.value).Ok? ==>
                var g := IfdAt(p, pointer.value.value).value.entries;
                var complete := Present(g, TagGpsLatitudeRef) && Present(g, TagGpsLatitude)
                                && Present(g, TagGpsLongitudeRef) && Present(g, TagGpsLongitude);
                && (!complete ==> r == Ok(None))
                && (complete ==>
                      var latitude := TripletToDeg(g[TagGpsLatitude], g[TagGpsLatitudeRef]);
                      var longitude := TripletToDeg(g[TagGpsLongitude], g[TagGpsLongitudeRef]);
                      && (latitude.Err? || longitude.Err? ==> r.Err?)
                      && (latitude.Ok? && longitude.Ok? && (latitude.value.None? || longitude.value.None?) ==> r == Ok(None))
                      && (latitude.Ok? && longitude.Ok? && latitude.value.Some? && longitude.value.Some? ==>
                            r == Ok(Some(GpsData(latitude.value.value, longitude.value.value)))))
  {
    var m :- Ifd0(p);
    if TagGpsInfo !in m then Ok(None)
    else
      var pointer :- GpsPointer(m[TagGpsInfo]);
      if pointer.None? then Ok(None)
      else
        var gpsIfd :- IfdAt(p, pointer.value);
        var g := gpsIfd.entries;
        if !(Present(g, TagGpsLatitudeRef) && Present(g, TagGpsLatitude)
             && Present(g, TagGpsLongitudeRef) && Present(g, TagGpsLongitude)) then Ok(None)
        else
          var latitude :- TripletToDeg(g[TagGpsLatitude], g[TagGpsLatitudeRef]);
          var longitude :- TripletToDeg(g[TagGpsLongitude], g[TagGpsLongitudeRef]);
          if latitude.None? || longitude.None? then Ok(None)
          else Ok(Some(GpsData(latitude.value, longitude.value)))
  }

  /** The directory at offset holds all four GPS tags, and they convert to gps. */
  ghost predicate GpsDirectoryAt(p: Parser, offset: nat, gps: GpsData)
  {
    && IfdAt(p, offset).Ok?
    && var g := IfdAt(p, offset).value.entries;
    && Present(g, TagGpsLatitudeRef) && Present(g, TagGpsLatitude)
    && Present(g, TagGpsLongitudeRef) && Present(g, TagGpsLongitude)
    && TripletToDeg(g[TagGpsLatitude], g[TagGpsLatitudeRef]) == Ok(Some(gps.latitude))
    && TripletToDeg(g[TagGpsLongitude], g[TagGpsLongitudeRef]) == Ok(Some(gps.longitude))
  }

  /** A position is only ever reported from the directory the GPSInfo entry points to. */
  lemma GpsSound(p: Parser, gps: GpsData)
    requires Gps(p) == Ok(Some(gps))
    ensures Ifd0(p).Ok? && TagGpsInfo in Ifd0(p).value
    ensures exists offset :: GpsPointer(Ifd0(p).value[TagGpsInfo]) == Ok(Some(offset)) && GpsDirectoryAt(p, offset, gps)
  {
    var m := Ifd0(p).value;
    var pointer := GpsPointer(m[TagGpsInfo]);
    assert pointer.Ok? && pointer.value.Some?;
    var offset := pointer.value.value;
    assert IfdAt(p, offset).Ok?;
    var g := IfdAt(p, offset).value.entries;
    assert Present(g, TagGpsLatitudeRef) && Present(g, TagGpsLatitude)
           && Present(g, TagGpsLongitudeRef) && Present(g, TagGpsLongitude);
    assert GpsDirectoryAt(p, offset, gps);
  }

  /** Conversely, a GPS directory at the pointer with all four tags converting gives that
      position. */
  lemma GpsComplete(p: Parser, offset: nat, gps: GpsData)
    requires Ifd0(p).Ok? && TagGpsInfo in Ifd0(p).value
    requires GpsPointer(Ifd0(p).value[TagGpsInfo]) == Ok(Some(offset))
    requires GpsDirectoryAt(p, offset, gps)
    ensures Gps(p) == Ok(Some(gps))
  {
  }

  /** The first item of a tuple of numbers or of a byte string, if there is one. */
  function FirstNumber(v: Value): Option<nat>
  {
    match v
    case Shorts(s) => if s == [] then None else Some(s[0])
    case Longs(s) => if s == [] then None else Some(s[0])
    case Bytes(b) => if b == [] then None else Some(b[0])
    case Text(_) => None
    case Rationals(_) => None
  }

  /** orientation: the first number of the Orientation entry when it is not zero. Text,
      rationals, empty values and zero give nothing; the value is not checked against 1-8. */
  function Orientation(p: Parser): (r: Result<Option<nat>>)
    ensures r.Ok? <==> Ifd0(p).Ok?
    ensures r.Ok? && r.value.Some? ==>
              r.value.value != 0 && TagOrientation in Ifd0(p).value
              && FirstNumber(Ifd0(p).value[TagOrientation]) == Some(r.value.value)
    ensures (r.Ok? && TagOrientation in Ifd0(p).value && FirstNumber(Ifd0(p).value[TagOrientation]).Some?
             && FirstNumber(Ifd0(p).value[TagOrientation]).value != 0) ==> r.value.Some?
  {
    var m :- Ifd0(p);
    if TagOrientation !in m then Ok(None)
    else
      var first := FirstNumber(m[TagOrientation]);
      if first.Some? && first.value != 0 then Ok(first) else Ok(None)
  }

  /** camera_model: the Model entry as text with surrounding whitespace stripped; nothing
      when it is absent, cannot be read as text, or is blank. */
  function CameraModel(p: Parser): (r: Result<Option<string>>)
    ensures r.Ok? <==> Ifd0(p).Ok?
    ensures r.Ok? && r.value.Some? ==>
              && TagModel in Ifd0(p).value && AsText(Ifd0(p).value[TagModel]).Some?
              && r.value.value == Ascii.Strip(AsText(Ifd0(p).value[TagModel]).value, Ascii.Whitespace)
              && r.value.value != []
              && r.value.value[0] !in Ascii.Whitespace && r.value.value[|r.value.value| - 1] !in Ascii.Whitespace
  {
    var m :- Ifd0(p);
    if TagModel !in m then Ok(None)
    else
      var text := AsText(m[TagModel]);
      if text.None? then Ok(None)
      else
        var model := Ascii.Strip(text.value, Ascii.Whitespace);
        if model == [] then Ok(None) else Ok(Some(model))
  }

  /** A Model entry with a character that is not whitespace always yields a model. */
  lemma CameraModelPresent(p: Parser)
    requires Ifd0(p).Ok? && TagModel in Ifd0(p).value && AsText(Ifd0(p).value[TagModel]).Some?
    requires var text := AsText(Ifd0(p).value[TagModel]).value;
             exists k :: 0 <= k < |text| && text[k] !in Ascii.Whitespace
    ensures CameraModel(p).Ok? && CameraModel(p).value.Some?
  {
    Ascii.StripEmpty(AsText(Ifd0(p).value[TagModel]).value, Ascii.Whitespace);
  }

  /** extract_gps: nothing without an Exif payload; a payload that is not a TIFF header fails. */
  function ExtractGps(data: seq<byte>): (r: Result<Option<GpsData>>)
    ensures JpegExif.ExifSegment(data).None? ==> r == Ok(None)
    ensures JpegExif.ExifSegment(data).Some? ==>
              r == (match NewParser(JpegExif.ExifSegment(data).value)
                    case Err(e) => Err(e)
                    case Ok(p) => Gps(p))
  {
    var segment := JpegExif.ExifSegment(data);
    if segment.None? then Ok(None)
    else
      var p :- NewParser(segment.value);
      Gps(p)
  }

  /** extract_orientation: nothing without an Exif payload; a payload that is not a TIFF
      header fails. */
  function ExtractOrientation(data: seq<byte>): (r: Result<Option<nat>>)
    ensures JpegExif.ExifSegment(data).None? ==> r == Ok(None)
    ensures JpegExif.ExifSegment(data).Some? ==>
              r == (match NewParser(JpegExif.ExifSegment(data).value)
                    case Err(e) => Err(e)
                    case Ok(p) => Orientation(p))
    ensures r.Ok? && r.value.Some? ==> r.value.value != 0
  {
    var segment := JpegExif.ExifSegment(data);
    if segment.None? then Ok(None)
    else
      var p :- NewParser(segment.value);
      Orientation(p)
  }

  /** extract_camera_model: nothing without an Exif payload; a payload that is not a TIFF
      header fails. */
  function ExtractCameraModel(data: seq<byte>): (r: Result<Option<string>>)
    ensures JpegExif.ExifSegment(data).None? ==> r == Ok(None)
    ensures JpegExif.ExifSegment(data).Some? ==>
              r == (match NewParser(JpegExif.ExifSegment(data).value)
                    case Err(e) => Err(e)
                    case Ok(p) => CameraModel(p))
    ensures r.Ok? && r.value.Some? ==>
              r.value.value != []
              && r.value.value[0] !in Ascii.Whitespace && r.value.value[|r.value.value| - 1] !in Ascii.Whitespace
  {
    var segment := JpegExif.ExifSegment(data);
    if segment.None? then Ok(None)
    else
      var p :- NewParser(segment.value);
      CameraModel(p)
  }
}
