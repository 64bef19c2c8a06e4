/** String operations shared by the naming helpers: replacing one character by a string,
    counting a character, and finding the first double underscore. */
module Text {

  /** str.replace with a one-character pattern: every occurrence of c becomes rep, scanning
      left to right. A one-character rep takes the place of each c, and every other
      character stays where it is. */
  function ReplaceChar(s: string, c: char, rep: string): (r: string)
    ensures c !in s ==> r == s
    ensures c !in rep ==> c !in r
    ensures |rep| == 1 ==> |r| == |s| && forall i :: 0 <= i < |s| ==> r[i] == (if s[i] == c then rep[0] else s[i])
  {
    if s == [] then []
    else
      var rest := ReplaceChar(s[1..], c, rep);
      assert |rep| == 1 ==> forall i :: 1 <= i < |s| ==> (Piece(s[0], c, rep) + rest)[i] == rest[i - 1];
      Piece(s[0], c, rep) + rest
  }

  /** What one character becomes. */
  function Piece(x: char, c: char, rep: string): string
  {
    if x == c then rep else [x]
  }

  /** Replacing in a concatenation is replacing in each part. */
  lemma {:induction false} ReplaceCharAppend(a: string, b: string, c: char, rep: string)
    ensures ReplaceChar(a + b, c, rep) == ReplaceChar(a, c, rep) + ReplaceChar(b, c, rep)
  {
    if a == [] {
      assert a + b == b;
    } else {
      var x := Piece(a[0], c, rep);
      var ab := a + b;
      assert ab[0] == a[0] && ab[1..] == a[1..] + b;
      ReplaceCharAppend(a[1..], b, c, rep);
      assert ReplaceChar(ab, c, rep) == x + (ReplaceChar(a[1..], c, rep) + ReplaceChar(b, c, rep));
    }
  }

  /** The number of occurrences of c in s. */
  function Count(s: string, c: char): (n: nat)
    ensures n <= |s|
    ensures n == 0 <==> c !in s
  {
    if s == [] then 0 else (if s[0] == c then 1 else 0) + Count(s[1..], c)
  }

  /** Two underscores start at index i of s. */
  predicate DoubleAt(s: string, i: int)
  {
    0 <= i && i + 1 < |s| && s[i] == '_' && s[i + 1] == '_'
  }

  /** "__" in s. */
  predicate HasDouble(s: string)
  {
    exists i :: 0 <= i < |s| && DoubleAt(s, i)
  }

  /** s.find("__"): the first index at which two underscores start, or -1. */
  function FindDouble(s: string): (r: int)
    ensures r == -1 <==> !HasDouble(s)
    ensures r != -1 ==> DoubleAt(s, r) && forall i :: 0 <= i < r ==> !DoubleAt(s, i)
  {
    if |s| < 2 then
      assert forall i :: !DoubleAt(s, i);
      -1
    else if s[0] == '_' && s[1] == '_' then
      assert DoubleAt(s, 0);
      0
    else
      var k := FindDouble(s[1..]);
      assert !DoubleAt(s, 0);
      assert forall i :: 1 <= i < |s| ==> (DoubleAt(s, i) <==> DoubleAt(s[1..], i - 1));
      if k == -1 then -1
      else
        assert DoubleAt(s, k + 1);
        k + 1
  }

  /** A text without "__" and not ending in '_', then "__", then any text: the first "__"
      is the one put in between. */
  lemma FindDoubleJoined(a: string, b: string)
    requires !HasDouble(a) && (a == [] || a[|a| - 1] != '_')
    ensures FindDouble(a + "__" + b) == |a|
  {
    var s := a + "__" + b;
    assert DoubleAt(s, |a|);
    forall i | 0 <= i < |a|
      ensures !DoubleAt(s, i)
    {
      if i + 1 < |a| {
        assert !DoubleAt(a, i);
      } else {
        assert s[i] == a[|a| - 1];
      }
    }
  }
}
