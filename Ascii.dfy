/** The text operations the decoder uses, restricted to ASCII: decoding bytes with
    replacement, case mapping, and stripping a set of characters from both ends. */
module Ascii {
  import opened Binary

  /** What bytes.decode("ascii", errors="replace") yields for a byte at or above 0x80. */
  const ReplacementChar: char := '\U{FFFD}'

  /** The characters Python's str.strip() removes, restricted to what ASCII decoding can produce. */
  const Whitespace: set<char> :=
    {'\t', '\n', '\U{B}', '\U{C}', '\r', '\U{1C}', '\U{1D}', '\U{1E}', '\U{1F}', ' '}

  function DecodeByte(b: byte): char
  {
    if b < 128 then b as char else ReplacementChar
  }

  /** bytes.decode("ascii", errors="replace"): one character per byte, never a failure. */
  function Decode(bs: seq<byte>): (s: string)
    ensures |s| == |bs|
    ensures forall i :: 0 <= i < |bs| ==> (bs[i] < 128 ==> s[i] as int == bs[i]) && (bs[i] >= 128 ==> s[i] == ReplacementChar)
  {
    seq(|bs|, i requires 0 <= i < |bs| => DecodeByte(bs[i]))
  }

  predicate IsUpper(c: char) { 'A' <= c <= 'Z' }

  predicate IsLower(c: char) { 'a' <= c <= 'z' }

  /** Cased in the sense of str.title(): a letter. */
  predicate IsCased(c: char) { IsUpper(c) || IsLower(c) }

  function LowerChar(c: char): char
  {
    if IsUpper(c) then (c as int + 32) as char else c
  }

  function UpperChar(c: char): char
  {
    if IsLower(c) then (c as int - 32) as char else c
  }

  function Lower(s: string): (r: string)
    ensures |r| == |s| && forall i :: 0 <= i < |s| ==> r[i] == LowerChar(s[i])
  {
    seq(|s|, i requires 0 <= i < |s| => LowerChar(s[i]))
  }

  function Upper(s: string): (r: string)
    ensures |r| == |s| && forall i :: 0 <= i < |s| ==> r[i] == UpperChar(s[i])
  {
    seq(|s|, i requires 0 <= i < |s| => UpperChar(s[i]))
  }

  /** str.title(): a letter is upper-cased where it starts a run of letters and lower-cased
      inside one; every other character is kept. */
  function Title(s: string): (r: string)
    ensures |r| == |s|
    ensures forall i :: 0 <= i < |s| ==> (IsCased(r[i]) <==> IsCased(s[i])) && LowerChar(r[i]) == LowerChar(s[i])
    ensures forall i :: 0 <= i < |s| && !IsCased(s[i]) ==> r[i] == s[i]
    ensures forall i :: 0 <= i < |s| && IsCased(s[i]) ==> (IsUpper(r[i]) <==> (i == 0 || !IsCased(s[i - 1])))
  {
    seq(|s|, i requires 0 <= i < |s| => if i > 0 && IsCased(s[i - 1]) then LowerChar(s[i]) else UpperChar(s[i]))
  }

  /** Title-casing twice is title-casing once. */
  lemma TitleIdempotent(s: string)
    ensures Title(Title(s)) == Title(s)
  {
    var t := Title(s);
    assert forall i :: 0 <= i < |s| ==> Title(t)[i] == t[i];
  }

  /** How many leading characters of s lie in cs. */
  function LeadingIn(s: string, cs: set<char>): (k: nat)
    ensures k <= |s|
    ensures forall i :: 0 <= i < k ==> s[i] in cs
    ensures k < |s| ==> s[k] !in cs
  {
    if s != [] && s[0] in cs then 1 + LeadingIn(s[1..], cs) else 0
  }

  /** How many trailing characters of s lie in cs. */
  function TrailingIn(s: string, cs: set<char>): (k: nat)
    ensures k <= |s|
    ensures forall i :: |s| - k <= i < |s| ==> s[i] in cs
    ensures k < |s| ==> s[|s| - 1 - k] !in cs
  {
    if s != [] && s[|s| - 1] in cs then 1 + TrailingIn(s[..|s| - 1], cs) else 0
  }

  /** str.strip(cs): drops the longest prefix and then the longest suffix made of characters of cs. */
  function Strip(s: string, cs: set<char>): (r: string)
    ensures |r| <= |s|
    ensures r == [] || (r[0] !in cs && r[|r| - 1] !in cs)
  {
    var i := LeadingIn(s, cs);
    var rest := s[i..];
    s[i..|s| - TrailingIn(rest, cs)]
  }

  /** The stripped string is a contiguous middle part of s, and everything cut off on either
      side is in cs. */
  lemma StripCuts(s: string, cs: set<char>)
    ensures exists i, j :: 0 <= i <= j <= |s| && Strip(s, cs) == s[i..j]
              && (forall k :: 0 <= k < i ==> s[k] in cs) && (forall k :: j <= k < |s| ==> s[k] in cs)
  {
    var i := LeadingIn(s, cs);
    var rest := s[i..];
    var j := |s| - TrailingIn(rest, cs);
    assert Strip(s, cs) == s[i..j];
    assert forall k :: j <= k < |s| ==> s[k] == rest[k - i];
    assert forall k :: j <= k < |s| ==> s[k] in cs;
  }

  /** Stripping leaves nothing exactly when every character of s is in cs. */
  lemma StripEmpty(s: string, cs: set<char>)
    ensures Strip(s, cs) == [] <==> forall k :: 0 <= k < |s| ==> s[k] in cs
  {
    var r := Strip(s, cs);
    StripCuts(s, cs);
    var i, j :| 0 <= i <= j <= |s| && r == s[i..j]
              && (forall k :: 0 <= k < i ==> s[k] in cs) && (forall k :: j <= k < |s| ==> s[k] in cs);
    if r == [] {
      assert i == j;
    } else {
      assert r[0] == s[i] && s[i] !in cs;
    }
  }
}
