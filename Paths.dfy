/** The final path component split the way pathlib splits it: the suffix starts at the
    last dot, provided that dot is neither the first nor the last character. */
module Paths {

  /** The index of the last occurrence of c in s, or -1 (str.rfind). */
  function LastIndexOf(s: string, c: char): (r: int)
    ensures -1 <= r < |s|
    ensures r >= 0 ==> s[r] == c && forall k :: r < k < |s| ==> s[k] != c
    ensures r == -1 ==> forall k :: 0 <= k < |s| ==> s[k] != c
  {
    if s == [] then -1
    else if s[|s| - 1] == c then |s| - 1
    else LastIndexOf(s[..|s| - 1], c)
  }

  /** The name has an extension: its last dot is neither the first nor the last character. */
  predicate HasSuffix(name: string)
  {
    var i := LastIndexOf(name, '.');
    0 < i < |name| - 1
  }

  /** PurePath.suffix: the final ".ext", or empty. */
  function Suffix(name: string): (r: string)
    ensures r == [] <==> !HasSuffix(name)
    ensures r != [] ==> 2 <= |r| && r[0] == '.' && forall k :: 1 <= k < |r| ==> r[k] != '.'
    ensures r != [] ==> |r| < |name|
  {
    var i := LastIndexOf(name, '.');
    if 0 < i < |name| - 1 then name[i..] else ""
  }

  /** PurePath.stem: the name without its suffix. */
  function Stem(name: string): (r: string)
    ensures HasSuffix(name) ==> r != []
    ensures !HasSuffix(name) ==> r == name
  {
    var i := LastIndexOf(name, '.');
    if 0 < i < |name| - 1 then name[..i] else name
  }

  /** Stem and suffix together are the whole name. */
  lemma StemSuffix(name: string)
    ensures Stem(name) + Suffix(name) == name
  {
    var i := LastIndexOf(name, '.');
    if 0 < i < |name| - 1 {
      assert name[..i] + name[i..] == name;
    }
  }

  /** Putting an extension (a dot and at least one character, no further dot) after a
      nonempty stem gives back that stem and that extension. */
  lemma {:induction false} SuffixOfJoined(stem: string, ext: string)
    requires stem != [] && 2 <= |ext| && ext[0] == '.' && forall k :: 1 <= k < |ext| ==> ext[k] != '.'
    ensures Stem(stem + ext) == stem && Suffix(stem + ext) == ext
  {
    var name := stem + ext;
    LastDotOfJoined(stem, ext);
    assert name[..|stem|] == stem && name[|stem|..] == ext;
  }

  lemma {:induction false} LastDotOfJoined(stem: string, ext: string)
    requires 1 <= |ext| && ext[0] == '.' && forall k :: 1 <= k < |ext| ==> ext[k] != '.'
    ensures LastIndexOf(stem + ext, '.') == |stem|
  {
    var name := stem + ext;
    var i := LastIndexOf(name, '.');
    assert name[|stem|] == '.';
    assert forall k :: |stem| < k < |name| ==> name[k] == ext[k - |stem|];
  }
}
