/** The gallery side: reading the source photo and the LUT label back from a gallery file
    name, and splitting the gallery entries of the manifest by orientation. */
module Gallery {
  import opened Text
  import Ascii
  import Paths
  import Grade

  /** One picture of the gallery. */
  datatype GalleryEntry = GalleryEntry(orientation: string, path: string, source: string, lut: string)

  /** The label shown for a LUT: underscores turned into spaces, then title-cased. */
  function LutLabel(raw: string): (r: string)
    ensures '_' !in r
  {
    var spaced := ReplaceChar(raw, '_', " ");
    var r := Ascii.Title(spaced);
    assert forall k :: 0 <= k < |r| ==> r[k] != '_' by {
      forall k | 0 <= k < |r|
        ensures r[k] != '_'
      {
        assert spaced[k] != '_';
      }
    }
    r
  }

  /** Each underscore of the LUT part is a space in its label, and every other character
      is kept up to case. */
  lemma LutLabelChars(raw: string)
    ensures var r := LutLabel(raw);
            && |r| == |raw|
            && forall i :: 0 <= i < |raw| ==>
                 if raw[i] == '_' then r[i] == ' ' else Ascii.LowerChar(r[i]) == Ascii.LowerChar(raw[i])
  {
  }

  /** _parse_name: the stem of the file name split at its first "__" into source and LUT,
      the LUT being "default" when there is no "__"; the LUT part becomes its label. */
  function ParseName(filename: string): (r: (string, string))
    ensures var stem := Paths.Stem(filename);
            && (!HasDouble(stem) ==> r == (stem, "Default"))
            && (HasDouble(stem) ==> r.0 == stem[..FindDouble(stem)] && r.1 == LutLabel(stem[FindDouble(stem) + 2..]))
    ensures !HasDouble(r.0)
    ensures '_' !in r.1
  {
    if !HasDouble(Paths.Stem(filename)) then
      DefaultLabel();
      (Paths.Stem(filename), LutLabel("default"))
    else
      NoDoubleBefore(Paths.Stem(filename));
      (Paths.Stem(filename)[..FindDouble(Paths.Stem(filename))], LutLabel(Paths.Stem(filename)[FindDouble(Paths.Stem(filename)) + 2..]))
  }

  /** The text before the first "__" has none. */
  lemma NoDoubleBefore(stem: string)
    requires HasDouble(stem)
    ensures !HasDouble(stem[..FindDouble(stem)])
  {
    var source := stem[..FindDouble(stem)];
    forall k | 0 <= k < |source|
      ensures !DoubleAt(source, k)
    {
      assert !DoubleAt(stem, k);
    }
  }

  /** With no "__" the LUT is "default", labelled "Default". */
  lemma DefaultLabel()
    ensures LutLabel("default") == "Default"
  {
    var s: string := "default";
    assert '_' !in s;
    var r := Ascii.Title(s);
    assert |r| == 7;
    assert r[0] == 'D';
    assert r[1] == 'e' && r[2] == 'f' && r[3] == 'a';
    assert r[4] == 'u' && r[5] == 'l' && r[6] == 't';
    assert r == "Default";
    assert ReplaceChar(s, '_', " ") == s;
    assert LutLabel(s) == r;
  }

  /** A gallery name made when grading a photo reads back as its source stem and the label of its
      slug, when the stem has no "__" and does not end in an underscore. */
  lemma ParseGalleryName(assetName: string, lutName: string)
    requires !HasDouble(Paths.Stem(assetName))
    requires Paths.Stem(assetName) == [] || Paths.Stem(assetName)[|Paths.Stem(assetName)| - 1] != '_'
    ensures ParseName(Grade.GalleryName(assetName, lutName)) == (Paths.Stem(assetName), LutLabel(Grade.Slugify(lutName)))
  {
    var stem, slug := Paths.Stem(assetName), Grade.Slugify(lutName);
    var full := stem + "__" + slug;
    assert Paths.Stem(Grade.GalleryName(assetName, lutName)) == full;
    FindDoubleJoined(stem, slug);
    assert DoubleAt(full, |stem|);
    assert full[..|stem|] == stem && full[|stem| + 2..] == slug;
  }

  /** The entries with orientation o, in their order. */
  function WithOrientation(entries: seq<GalleryEntry>, o: string): (r: seq<GalleryEntry>)
    ensures |r| <= |entries|
    ensures forall e :: e in r <==> e in entries && e.orientation == o
  {
    if entries == [] then []
    else (if entries[0].orientation == o then [entries[0]] else []) + WithOrientation(entries[1..], o)
  }

  /** Filtering a concatenation filters each part: the filter keeps the order. */
  lemma {:induction false} WithOrientationAppend(a: seq<GalleryEntry>, b: seq<GalleryEntry>, o: string)
    ensures WithOrientation(a + b, o) == WithOrientation(a, o) + WithOrientation(b, o)
  {
    if a == [] {
      assert a + b == b;
    } else {
      var ab := a + b;
      assert ab[0] == a[0] && ab[1..] == a[1..] + b;
      WithOrientationAppend(a[1..], b, o);
    }
  }

  /** How many entries have orientation o1 or o2. */
  function CountEither(entries: seq<GalleryEntry>, o1: string, o2: string): nat
  {
    if entries == [] then 0
    else (if entries[0].orientation == o1 || entries[0].orientation == o2 then 1 else 0) + CountEither(entries[1..], o1, o2)
  }

  /** Two different orientations split the entries having one of them. */
  lemma {:induction false} SplitCount(entries: seq<GalleryEntry>, o1: string, o2: string)
    requires o1 != o2
    ensures |WithOrientation(entries, o1)| + |WithOrientation(entries, o2)| == CountEither(entries, o1, o2)
  {
    if entries != [] {
      SplitCount(entries[1..], o1, o2);
    }
  }

  /** The manifest without its time stamp: the landscape and the vertical entries. */
  datatype Manifest = Manifest(landscape: seq<GalleryEntry>, vertical: seq<GalleryEntry>)

  /** build_manifest over the collected entries. */
  function BuildManifest(entries: seq<GalleryEntry>): (m: Manifest)
    ensures forall e :: e in m.landscape <==> e in entries && e.orientation == "landscape"
    ensures forall e :: e in m.vertical <==> e in entries && e.orientation == "vertical"
    ensures |m.landscape| + |m.vertical| == CountEither(entries, "landscape", "vertical")
  {
    SplitCount(entries, "landscape", "vertical");
    Manifest(WithOrientation(entries, "landscape"), WithOrientation(entries, "vertical"))
  }

  /** No entry is listed under both orientations. */
  lemma ManifestDisjoint(entries: seq<GalleryEntry>)
    ensures forall e :: e in BuildManifest(entries).landscape ==> e !in BuildManifest(entries).vertical
  {
  }

  /** The manifest of more entries lists the new ones after the old in each orientation. */
  lemma ManifestAppend(a: seq<GalleryEntry>, b: seq<GalleryEntry>)
    ensures BuildManifest(a + b).landscape == BuildManifest(a).landscape + BuildManifest(b).landscape
    ensures BuildManifest(a + b).vertical == BuildManifest(a).vertical + BuildManifest(b).vertical
  {
    WithOrientationAppend(a, b, "landscape");
    WithOrientationAppend(a, b, "vertical");
  }
}
