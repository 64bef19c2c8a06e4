/** The pure part of grading a photo with a LUT: the slug made from the LUT's name, the
    output file names, the escaped LUT path inside the ffmpeg filter, the width or height cap
    of the gallery copy, and the gallery sub-directory chosen by orientation. */
module Grade {
  import opened Text
  import Ascii
  import Paths
  import Models

  /** A character _slugify keeps: [a-z0-9]. */
  predicate IsSlugChar(c: char)
  {
    'a' <= c <= 'z' || '0' <= c <= '9'
  }

  /** The [a-z0-9] characters of s, in order. */
  function Kept(s: string): string
  {
    if s == [] then [] else KeptChar(s[0]) + Kept(s[1..])
  }

  /** A character kept by itself, or nothing. */
  function KeptChar(c: char): string
  {
    if IsSlugChar(c) then [c] else []
  }

  lemma {:induction false} KeptAppend(a: string, b: string)
    ensures Kept(a + b) == Kept(a) + Kept(b)
    decreases |a|
  {
    if a == [] {
      assert a + b == b;
      assert Kept(a) == [];
    } else {
      KeptCons(a, b);
      KeptAppend(a[1..], b);
    }
  }

  lemma KeptCons(a: string, b: string)
    requires a != []
    ensures Kept(a + b) == KeptChar(a[0]) + Kept(a[1..] + b)
  {
    var ab := a + b;
    assert ab[0] == a[0] && ab[1..] == a[1..] + b;
  }


  /** A text with no [a-z0-9] character keeps nothing. */
  lemma {:induction false} KeptNone(s: string)
    requires forall k :: 0 <= k < |s| ==> !IsSlugChar(s[k])
    ensures Kept(s) == []
  {
    if s != [] {
      KeptNone(s[1..]);
    }
  }

  /** A text of [a-z0-9] characters and underscores that keeps nothing is all underscores. */
  lemma {:induction false} KeptEmpty(s: string)
    requires forall k :: 0 <= k < |s| ==> IsSlugChar(s[k]) || s[k] == '_'
    requires Kept(s) == []
    ensures forall k :: 0 <= k < |s| ==> s[k] == '_'
  {
    if s != [] {
      KeptEmpty(s[1..]);
    }
  }

  /** The length of the leading run of characters outside [a-z0-9]. */
  function SeparatorRun(s: string): (k: nat)
    ensures k <= |s|
    ensures forall i :: 0 <= i < k ==> !IsSlugChar(s[i])
    ensures k < |s| ==> IsSlugChar(s[k])
    ensures s != [] && IsSlugChar(s[|s| - 1]) ==> k < |s|
  {
    if s != [] && !IsSlugChar(s[0]) then 1 + SeparatorRun(s[1..]) else 0
  }

  /** re.sub(r"[^a-z0-9]+", "_", s): every maximal run of characters outside [a-z0-9]
      becomes one underscore. */
  function Collapse(s: string): (r: string)
    ensures |r| <= |s|
    decreases |s|
  {
    if s == [] then []
    else if IsSlugChar(s[0]) then [s[0]] + Collapse(s[1..])
    else "_" + Collapse(s[SeparatorRun(s)..])
  }

  /** The collapsed text is made of [a-z0-9] and underscores, starts with an underscore
      exactly when s starts with a separator, and never has two underscores in a row. */
  lemma {:induction false} CollapseShape(s: string)
    ensures var r := Collapse(s);
            && (r == [] <==> s == [])
            && (forall k :: 0 <= k < |r| ==> IsSlugChar(r[k]) || r[k] == '_')
            && (r != [] ==> (r[0] == '_' <==> !IsSlugChar(s[0])))
            && !HasDouble(r)
    decreases |s|
  {
    if s != [] {
      var r := Collapse(s);
      var rest := if IsSlugChar(s[0]) then s[1..] else s[SeparatorRun(s)..];
      CollapseShape(rest);
      var t := Collapse(rest);
      assert r == [r[0]] + t;
      forall i | 0 <= i < |r|
        ensures !DoubleAt(r, i)
      {
        if 0 < i {
          assert !DoubleAt(t, i - 1);
        }
      }
    }
  }

  /** The leading separator run is the only length with the properties SeparatorRun
      states. */
  lemma SeparatorRunUnique(s: string, k: nat)
    requires k <= |s| && (forall i :: 0 <= i < k ==> !IsSlugChar(s[i])) && (k < |s| ==> IsSlugChar(s[k]))
    ensures SeparatorRun(s) == k
  {
  }

  /** A whole run of separators, followed by the end or by an [a-z0-9] character, becomes
      exactly one underscore. */
  lemma CollapseRun(x: string, y: string)
    requires |x| > 0 && forall i :: 0 <= i < |x| ==> !IsSlugChar(x[i])
    requires y == [] || IsSlugChar(y[0])
    ensures Collapse(x + y) == "_" + Collapse(y)
  {
    var s := x + y;
    SeparatorRunUnique(s, |x|);
    assert s[|x|..] == y;
  }

  /** A text ending in an [a-z0-9] character collapses on its own: what follows it
      collapses separately. */
  lemma {:induction false} CollapseJoin(a: string, y: string)
    requires |a| > 0 && IsSlugChar(a[|a| - 1])
    ensures Collapse(a + y) == Collapse(a) + Collapse(y)
    decreases |a|
  {
    if IsSlugChar(a[0]) {
      if |a| == 1 {
        JoinSlugHead(a, y);
      } else {
        CollapseJoin(a[1..], y);
        JoinSlugHead(a, y);
      }
    } else {
      var k := SeparatorRun(a);
      CollapseJoin(a[k..], y);
      JoinSeparatorHead(a, y);
    }
  }

  /** The step of CollapseJoin for a text starting with an [a-z0-9] character. */
  lemma JoinSlugHead(a: string, y: string)
    requires |a| > 0 && IsSlugChar(a[0]) && IsSlugChar(a[|a| - 1])
    requires |a| > 1 ==> Collapse(a[1..] + y) == Collapse(a[1..]) + Collapse(y)
    ensures Collapse(a + y) == Collapse(a) + Collapse(y)
  {
    var s := a + y;
    assert s[0] == a[0] && s[1..] == a[1..] + y;
    if |a| == 1 {
      assert a[1..] == [];
    }
    Regroup([a[0]], Collapse(a[1..]), Collapse(y));
  }

  /** The step of CollapseJoin for a text starting with a separator. */
  lemma JoinSeparatorHead(a: string, y: string)
    requires |a| > 0 && !IsSlugChar(a[0]) && IsSlugChar(a[|a| - 1])
    requires Collapse(a[SeparatorRun(a)..] + y) == Collapse(a[SeparatorRun(a)..]) + Collapse(y)
    ensures Collapse(a + y) == Collapse(a) + Collapse(y)
  {
    var k := SeparatorRun(a);
    var run, rest := a[..k], a[k..];
    SplitAt(a, y, k);
    assert rest[0] == a[k] && (rest + y)[0] == a[k];
    CollapseRun(run, rest);
    CollapseRun(run, rest + y);
    Regroup("_", Collapse(rest), Collapse(y));
  }

  /** A text and its continuation, cut at k into two parts. */
  lemma SplitAt(a: string, y: string, k: nat)
    requires k <= |a|
    ensures a == a[..k] + a[k..] && a + y == a[..k] + (a[k..] + y)
  {
    assert a == a[..k] + a[k..];
  }

  /** Concatenation regroups. */
  lemma Regroup(a: string, b: string, c: string)
    ensures a + (b + c) == (a + b) + c
  {
  }

  /** Collapsing keeps the [a-z0-9] characters and their order. */
  lemma {:induction false} CollapseKeeps(s: string)
    ensures Kept(Collapse(s)) == Kept(s)
    decreases |s|
  {
    if s != [] {
      if IsSlugChar(s[0]) {
        CollapseKeeps(s[1..]);
        KeptAppend([s[0]], Collapse(s[1..]));
        assert Kept([s[0]]) == [s[0]] + Kept([]);
      } else {
        var k := SeparatorRun(s);
        CollapseKeeps(s[k..]);
        KeptAppend("_", Collapse(s[k..]));
        assert Kept("_") == [];
        assert s == s[..k] + s[k..];
        KeptAppend(s[..k], s[k..]);
        KeptNone(s[..k]);
      }
    }
  }

  /** The slug before the fallback: the lower-cased name collapsed and stripped of '_'. */
  function SlugBody(name: string): string
  {
    Ascii.Strip(Collapse(Ascii.Lower(name)), {'_'})
  }

  /** _slugify: the slug of a LUT name, "lut" when nothing is left of it. */
  function Slugify(name: string): (r: string)
    ensures r != []
  {
    var slug := SlugBody(name);
    if slug == [] then "lut" else slug
  }

  /** A slug is made of [a-z0-9] and underscores, neither starts nor ends with an underscore,
      and has no two underscores in a row. */
  lemma SlugifyShape(name: string)
    ensures var r := Slugify(name);
            && (forall k :: 0 <= k < |r| ==> IsSlugChar(r[k]) || r[k] == '_')
            && r[0] != '_' && r[|r| - 1] != '_'
            && !HasDouble(r)
  {
    var t := Collapse(Ascii.Lower(name));
    CollapseShape(Ascii.Lower(name));
    StripUnderscores(t);
  }

  /** The [a-z0-9] characters of a slug are those of the lower-cased name, in order; a name
      without any gives "lut". */
  lemma SlugifyKeeps(name: string)
    ensures Kept(Ascii.Lower(name)) == [] ==> Slugify(name) == "lut"
    ensures Kept(Ascii.Lower(name)) != [] ==> Kept(Slugify(name)) == Kept(Ascii.Lower(name))
  {
    var lower := Ascii.Lower(name);
    var t := Collapse(lower);
    CollapseShape(lower);
    CollapseKeeps(lower);
    StripUnderscores(t);
  }

  /** Stripping underscores from collapsed text keeps its [a-z0-9] characters and its shape,
      and leaves nothing exactly when there was no [a-z0-9] character. */
  lemma StripUnderscores(t: string)
    requires forall k :: 0 <= k < |t| ==> IsSlugChar(t[k]) || t[k] == '_'
    requires !HasDouble(t)
    ensures var r := Ascii.Strip(t, {'_'});
            && (forall k :: 0 <= k < |r| ==> IsSlugChar(r[k]) || r[k] == '_')
            && !HasDouble(r)
            && Kept(r) == Kept(t)
            && (r == [] <==> Kept(t) == [])
  {
    var r := Ascii.Strip(t, {'_'});
    Ascii.StripCuts(t, {'_'});
    var i, j :| 0 <= i <= j <= |t| && r == t[i..j]
                && (forall k :: 0 <= k < i ==> t[k] in {'_'}) && (forall k :: j <= k < |t| ==> t[k] in {'_'});
    MiddleShape(t, i, j);
  }

  /** What is left between two runs of underscores of collapsed text: made of the same
      characters, without "__", with the same [a-z0-9] characters, and empty when there are
      none, provided it does not start with an underscore. */
  lemma MiddleShape(t: string, i: nat, j: nat)
    requires i <= j <= |t|
    requires forall k :: 0 <= k < |t| ==> IsSlugChar(t[k]) || t[k] == '_'
    requires !HasDouble(t)
    requires forall k :: 0 <= k < i ==> t[k] == '_'
    requires forall k :: j <= k < |t| ==> t[k] == '_'
    requires i == j || t[i] != '_'
    ensures var r := t[i..j];
            && (forall k :: 0 <= k < |r| ==> IsSlugChar(r[k]) || r[k] == '_')
            && !HasDouble(r)
            && Kept(r) == Kept(t)
            && (r == [] <==> Kept(t) == [])
  {
    var r := t[i..j];
    forall k | 0 <= k < |r|
      ensures !DoubleAt(r, k)
    {
      assert !DoubleAt(t, i + k);
    }
    KeptOfMiddle(t, i, j);
    if r != [] && Kept(t) == [] {
      KeptEmpty(r);
    }
  }

  /** Cutting off two ends without [a-z0-9] characters keeps all of them. */
  lemma KeptOfMiddle(t: string, i: nat, j: nat)
    requires i <= j <= |t|
    requires forall k :: 0 <= k < i ==> t[k] == '_'
    requires forall k :: j <= k < |t| ==> t[k] == '_'
    ensures Kept(t[i..j]) == Kept(t)
  {
    KeptSplit(t, j);
    KeptSplit(t[..j], i);
    PrefixSlices(t, i, j);
    KeptNone(t[..i]);
    KeptNone(t[j..]);
  }

  lemma KeptSplit(t: string, i: nat)
    requires i <= |t|
    ensures Kept(t) == Kept(t[..i]) + Kept(t[i..])
  {
    Rejoin(t, i);
    KeptAppend(t[..i], t[i..]);
  }

  lemma PrefixSlices(t: string, i: nat, j: nat)
    requires i <= j <= |t|
    ensures t[..j][..i] == t[..i] && t[..j][i..] == t[i..j]
  {
  }

  lemma Rejoin(t: string, i: nat)
    requires i <= |t|
    ensures t[..i] + t[i..] == t
  {
  }

  /** A backslash is doubled and a quote gets a backslash in front. */
  function EscapeChar(c: char): string
  {
    if c == '\\' then "\\\\" else if c == '\'' then "\\'" else [c]
  }

  /** Escaping character by character. */
  function EscapeEach(s: string): string
  {
    if s == [] then [] else EscapeChar(s[0]) + EscapeEach(s[1..])
  }

  /** _escape_filter_path: backslashes doubled first, then quotes prefixed by a backslash. */
  function EscapeFilterPath(path: string): (r: string)
    ensures |r| == |path| + Count(path, '\\') + Count(path, '\'')
  {
    EscapeIsCharwise(path);
    EscapeEachLength(path);
    ReplaceChar(ReplaceChar(path, '\\', "\\\\"), '\'', "\\'")
  }

  /** The two replacements together escape each character on its own. */
  lemma {:induction false} EscapeIsCharwise(s: string)
    ensures ReplaceChar(ReplaceChar(s, '\\', "\\\\"), '\'', "\\'") == EscapeEach(s)
  {
    if s != [] {
      var head := Piece(s[0], '\\', "\\\\");
      var tail := ReplaceChar(s[1..], '\\', "\\\\");
      ReplaceCharAppend(head, tail, '\'', "\\'");
      EscapeIsCharwise(s[1..]);
      if s[0] == '\\' {
        assert ReplaceChar(head, '\'', "\\'") == "\\\\";
      } else {
        assert ReplaceChar(head, '\'', "\\'") == Piece(s[0], '\'', "\\'");
      }
    }
  }

  lemma {:induction false} EscapeEachLength(s: string)
    ensures |EscapeEach(s)| == |s| + Count(s, '\\') + Count(s, '\'')
  {
    if s != [] {
      EscapeEachLength(s[1..]);
    }
  }

  /** Undoing the escape: a backslash makes the next character literal. */
  function Unescape(r: string): string
    decreases |r|
  {
    if r == [] then []
    else if r[0] == '\\' && |r| >= 2 then [r[1]] + Unescape(r[2..])
    else [r[0]] + Unescape(r[1..])
  }

  lemma {:induction false} UnescapeEach(s: string)
    ensures Unescape(EscapeEach(s)) == s
  {
    if s != [] {
      var e := EscapeEach(s);
      UnescapeEach(s[1..]);
      if s[0] == '\\' || s[0] == '\'' {
        assert e[0] == '\\' && e[1] == s[0] && e[2..] == EscapeEach(s[1..]);
      } else {
        assert e[0] == s[0] && e[1..] == EscapeEach(s[1..]);
      }
    }
  }

  /** The escaped path gives back the path. */
  lemma UnescapeEscape(path: string)
    ensures Unescape(EscapeFilterPath(path)) == path
  {
    EscapeIsCharwise(path);
    UnescapeEach(path);
  }

  /** Different paths are escaped differently. */
  lemma EscapeInjective(a: string, b: string)
    requires EscapeFilterPath(a) == EscapeFilterPath(b)
    ensures a == b
  {
    UnescapeEscape(a);
    UnescapeEscape(b);
  }

  /** The decimal digit d. */
  function DigitChar(d: nat): (c: char)
    requires d < 10
    ensures '0' <= c <= '9'
  {
    ('0' as int + d) as char
  }

  predicate IsDigit(c: char)
  {
    '0' <= c <= '9'
  }

  /** str(n) for a natural number: its decimal digits without leading zeros. */
  function NatToString(n: nat): (r: string)
    ensures r != [] && forall k :: 0 <= k < |r| ==> IsDigit(r[k])
    ensures r[0] == '0' ==> n == 0
  {
    if n < 10 then [DigitChar(n)] else NatToString(n / 10) + [DigitChar(n % 10)]
  }

  /** str(i): a minus sign in front of a negative number. */
  function IntToString(i: int): (r: string)
    ensures r != [] && (r[0] == '-' <==> i < 0)
  {
    if i < 0 then "-" + NatToString(-i) else NatToString(i)
  }

  /** The value of a string of decimal digits. */
  function ParseNat(s: string): nat
    requires forall k :: 0 <= k < |s| ==> IsDigit(s[k])
  {
    if s == [] then 0
    else
      assert IsDigit(s[|s| - 1]);
      10 * ParseNat(s[..|s| - 1]) + (s[|s| - 1] as int - '0' as int)
  }

  /** The value of a string of decimal digits with an optional leading minus sign. */
  function ParseInt(s: string): int
    requires forall k :: 0 <= k < |s| ==> IsDigit(s[k]) || (k == 0 && s[k] == '-')
  {
    if s != [] && s[0] == '-' then -(ParseNat(s[1..]) as int) else ParseNat(s)
  }

  lemma {:induction false} NatToStringRoundTrip(n: nat)
    ensures ParseNat(NatToString(n)) == n
  {
    if n >= 10 {
      var s := NatToString(n);
      NatToStringRoundTrip(n / 10);
      assert s[..|s| - 1] == NatToString(n / 10);
    }
  }

  /** The decimal text of an integer gives back the integer. */
  lemma IntToStringRoundTrip(i: int)
    ensures var s := IntToString(i);
            (forall k :: 0 <= k < |s| ==> IsDigit(s[k]) || (k == 0 && s[k] == '-')) && ParseInt(s) == i
  {
    if i < 0 {
      NatToStringRoundTrip(-i);
      assert IntToString(i)[1..] == NatToString(-i);
    } else {
      NatToStringRoundTrip(i);
    }
  }

  /** The base filter: lut3d with the escaped path between single quotes. */
  function ProcessedFilter(lutPath: string): (r: string)
    ensures 13 <= |r| && r[..12] == "lut3d=file='" && r[|r| - 1] == '\''
    ensures Unescape(r[12..|r| - 1]) == lutPath
  {
    var escaped := EscapeFilterPath(lutPath);
    var r := "lut3d=file='" + escaped + "'";
    assert r[12..|r| - 1] == escaped;
    UnescapeEscape(lutPath);
    r
  }

  /** The text of a scale filter before the cap. */
  function ScaleHead(vertical: bool): string
  {
    if vertical then "scale=-1:'if(gt(ih," else "scale='if(gt(iw,"
  }

  /** The scale filter of a gallery copy: for a vertical picture the height is capped at cap
      and the width follows; otherwise the width is capped and the height follows. The
      cap reads back from the decimal text right after the head of the filter. */
  function ScaleFilter(vertical: bool, cap: int): (r: string)
    ensures var head, c := ScaleHead(vertical), IntToString(cap);
            && |head| + |c| <= |r| && r[..|head|] == head && r[|head|..|head| + |c|] == c
            && ParseInt(r[|head|..|head| + |c|]) == cap
  {
    ThreeParts(ScaleHead(vertical), IntToString(cap), ScaleTail(vertical, cap));
    IntToStringRoundTrip(cap);
    ScaleHead(vertical) + IntToString(cap) + ScaleTail(vertical, cap)
  }

  /** The text of a scale filter after the cap. */
  function ScaleTail(vertical: bool, cap: int): string
  {
    ")," + IntToString(cap) + (if vertical then ",ih)':flags=lanczos" else ",iw)':-1:flags=lanczos")
  }

  /** The middle of three joined texts is found between the ends of the first two. */
  lemma ThreeParts(a: string, b: string, c: string)
    ensures (a + b + c)[..|a|] == a && (a + b + c)[|a|..|a| + |b|] == b
  {
    var s := a + b + c;
    assert s[..|a|] == a;
    assert s[|a|..|a| + |b|] == b;
  }

  /** A filter chain of two filters: the first, a comma, the second. */
  function Chain(first: string, second: string): (r: string)
    ensures |first| < |r| && r[..|first|] == first && r[|first|] == ',' && r[|first| + 1..] == second
  {
    var r := first + "," + second;
    assert r[..|first|] == first && r[|first| + 1..] == second;
    r
  }

  /** The default cap on the long side of a gallery copy, in pixels. */
  const DefaultCap: int := 2560

  /** The settings of a Grader that the names and filters depend on. */
  datatype Grader = Grader(galleryLandscapeWidth: int, galleryVerticalHeight: int)
  {
    /** The scale of a gallery copy: for a vertical picture the height is capped at
        galleryVerticalHeight, for any other the width at galleryLandscapeWidth. */
    function Scale(vertical: bool): (r: string)
      ensures var cap := if vertical then galleryVerticalHeight else galleryLandscapeWidth;
              var head, c := ScaleHead(vertical), IntToString(cap);
              && |head| + |c| <= |r| && r[..|head|] == head && r[|head|..|head| + |c|] == c
              && ParseInt(r[|head|..|head| + |c|]) == cap
    {
      if vertical then ScaleFilter(true, galleryVerticalHeight) else ScaleFilter(false, galleryLandscapeWidth)
    }

    /** _build_gallery_filter: the LUT applied as for the processed copy, then the scale for
        the asset's orientation. */
    function GalleryFilter(asset: Models.PhotoAsset, lutPath: string): (r: string)
      ensures var base := ProcessedFilter(lutPath);
              |base| < |r| && r[..|base|] == base && r[|base|] == ',' && r[|base| + 1..] == Scale(asset.IsVertical())
    {
      Chain(ProcessedFilter(lutPath), Scale(asset.IsVertical()))
    }

    /** _gallery_dir_for: the gallery sub-directory, "vertical" or "landscape". */
    function GalleryDirFor(asset: Models.PhotoAsset): (r: string)
      ensures r == "vertical" <==> asset.IsVertical()
      ensures r == "landscape" <==> !asset.IsVertical()
    {
      if asset.IsVertical() then "vertical" else "landscape"
    }
  }

  /** A Grader made with the default caps. */
  const DefaultGrader: Grader := Grader(DefaultCap, DefaultCap)

  /** A photo whose size cannot be read, or one wider than high, goes to the landscape
      directory; a square one to the vertical directory. */
  lemma GalleryDirByShape(g: Grader, asset: Models.PhotoAsset)
    ensures asset.Dimensions().None? ==> g.GalleryDirFor(asset) == "landscape"
    ensures asset.Dimensions().Some? ==>
              (g.GalleryDirFor(asset) == "vertical" <==> asset.Dimensions().value.1 >= asset.Dimensions().value.0)
  {
  }

  /** The suffix of the processed copy: the source's lower-cased, or ".jpg" when it has none. */
  function ProcessedSuffix(assetName: string): (r: string)
    ensures Paths.HasSuffix(assetName) ==> r == Ascii.Lower(Paths.Suffix(assetName))
    ensures !Paths.HasSuffix(assetName) ==> r == ".jpg"
  {
    var suffix := Ascii.Lower(Paths.Suffix(assetName));
    if suffix != [] then suffix else ".jpg"
  }

  /** The processed file name: source stem, "__", slug, and the processed suffix. */
  function ProcessedName(assetName: string, lutName: string): (r: string)
    ensures var prefix := Paths.Stem(assetName) + "__" + Slugify(lutName);
            |prefix| < |r| && r[..|prefix|] == prefix && r[|prefix|..] == ProcessedSuffix(assetName)
  {
    var prefix := Paths.Stem(assetName) + "__" + Slugify(lutName);
    var r := prefix + ProcessedSuffix(assetName);
    assert r[..|prefix|] == prefix && r[|prefix|..] == ProcessedSuffix(assetName);
    r
  }

  /** The gallery file name: source stem, "__", slug, and always ".jpg". */
  function GalleryName(assetName: string, lutName: string): (r: string)
    ensures Paths.Stem(r) == Paths.Stem(assetName) + "__" + Slugify(lutName)
    ensures Paths.Suffix(r) == ".jpg"
  {
    var prefix := Paths.Stem(assetName) + "__" + Slugify(lutName);
    Paths.SuffixOfJoined(prefix, ".jpg");
    prefix + ".jpg"
  }

  /** A source with an extension keeps it, lower-cased, in the processed name; then the
      processed and gallery names agree up to the suffix. */
  lemma NamesAgree(assetName: string, lutName: string)
    ensures var p, g := ProcessedName(assetName, lutName), GalleryName(assetName, lutName);
            p[..|p| - |ProcessedSuffix(assetName)|] == g[..|g| - 4]
  {
    var prefix := Paths.Stem(assetName) + "__" + Slugify(lutName);
    var g := GalleryName(assetName, lutName);
    assert g == prefix + ".jpg";
    assert g[..|g| - 4] == prefix;
  }
}
