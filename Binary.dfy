/** Bytes, fixed-width integers in either byte order, and Python slice semantics. */
module Binary {

  type byte = b: int | 0 <= b < 256

  function Min(a: int, b: int): int { if a <= b then a else b }

  function Max(a: int, b: int): int { if a >= b then a else b }

  function Pow256(n: nat): (r: nat)
    ensures r >= 1
  {
    if n == 0 then 1 else 256 * Pow256(n - 1)
  }

  /** The unsigned integer whose big-endian encoding is s (Python int.from_bytes(s, "big")). */
  function BeInt(s: seq<byte>): (r: nat)
    ensures r < Pow256(|s|)
  {
    if s == [] then 0 else BeInt(s[..|s| - 1]) * 256 + s[|s| - 1]
  }

  /** The unsigned integer whose little-endian encoding is s. */
  function LeInt(s: seq<byte>): (r: nat)
    ensures r < Pow256(|s|)
  {
    if s == [] then 0 else s[0] + 256 * LeInt(s[1..])
  }

  function Reverse<T>(s: seq<T>): (r: seq<T>)
    ensures |r| == |s|
    ensures forall i :: 0 <= i < |s| ==> r[i] == s[|s| - 1 - i]
  {
    if s == [] then [] else Reverse(s[1..]) + [s[0]]
  }

  function Zeros(n: nat): (r: seq<byte>)
    ensures |r| == n && forall i :: 0 <= i < n ==> r[i] == 0
  {
    if n == 0 then [] else Zeros(n - 1) + [0]
  }

  /** Python's s[i:j] for non-negative bounds: clamped to the sequence, empty when j <= i. */
  function Slice<T>(s: seq<T>, i: nat, j: nat): (r: seq<T>)
    ensures |r| <= |s| && |r| <= Max(0, j - i)
    ensures i <= j <= |s| ==> r == s[i..j]
    ensures j <= i || |s| <= i ==> r == []
    ensures i <= |s| <= j ==> r == s[i..]
  {
    var a := Min(i, |s|);
    var b := Min(j, |s|);
    if b <= a then [] else s[a..b]
  }

  /** A field of at most four bytes holds an unsigned 32-bit value. */
  lemma BeIntBelow32(s: seq<byte>)
    requires |s| <= 4
    ensures BeInt(s) < 0x1_0000_0000
  {
    assert Pow256(|s|) <= Pow256(4);
  }

  /** Prepending a byte to a big-endian encoding adds its weight at the top. */
  lemma {:induction false} BeIntCons(b: byte, s: seq<byte>)
    ensures BeInt([b] + s) == b * Pow256(|s|) + BeInt(s)
  {
    if s == [] {
      assert ([b] + s)[..0] == [];
    } else {
      var t := [b] + s;
      var init := s[..|s| - 1];
      assert t[..|t| - 1] == [b] + init;
      BeIntCons(b, init);
      assert BeInt(t) == (b * Pow256(|init|) + BeInt(init)) * 256 + s[|s| - 1];
      assert BeInt(s) == BeInt(init) * 256 + s[|s| - 1];
      assert b * Pow256(|s|) == (b * Pow256(|init|)) * 256;
    }
  }

  /** Reading little-endian is reading the byte-reversed field big-endian. */
  lemma {:induction false} LeIsReversedBe(s: seq<byte>)
    ensures LeInt(s) == BeInt(Reverse(s))
  {
    if s != [] {
      LeIsReversedBe(s[1..]);
      var r := Reverse(s);
      assert r == Reverse(s[1..]) + [s[0]];
      assert r[..|r| - 1] == Reverse(s[1..]);
    }
  }

  /** Trailing zero bytes do not change a little-endian value. */
  lemma {:induction false} LeIntZeroPadded(s: seq<byte>, n: nat)
    ensures LeInt(s + Zeros(n)) == LeInt(s)
  {
    if s == [] {
      assert s + Zeros(n) == Zeros(n);
      LeIntZeros(n);
    } else {
      assert (s + Zeros(n))[1..] == s[1..] + Zeros(n);
      LeIntZeroPadded(s[1..], n);
    }
  }

  lemma {:induction false} LeIntZeros(n: nat)
    ensures LeInt(Zeros(n)) == 0
  {
    if n > 0 {
      var z := Zeros(n);
      assert z[1..] == Zeros(n - 1) by {
        assert forall i :: 0 <= i < n - 1 ==> z[1..][i] == 0;
      }
      LeIntZeros(n - 1);
    }
  }

  /** Fixed-width fields written out: a big-endian and a little-endian 16-bit and
      32-bit unsigned integer. */
  function Be16(s: seq<byte>): nat
    requires |s| == 2
  {
    256 * (s[0] as int) + s[1] as int
  }

  function Le16(s: seq<byte>): nat
    requires |s| == 2
  {
    s[0] as int + 256 * (s[1] as int)
  }

  function Be32(s: seq<byte>): nat
    requires |s| == 4
  {
    16777216 * (s[0] as int) + 65536 * (s[1] as int) + 256 * (s[2] as int) + s[3] as int
  }

  function Le32(s: seq<byte>): nat
    requires |s| == 4
  {
    s[0] as int + 256 * (s[1] as int) + 65536 * (s[2] as int) + 16777216 * (s[3] as int)
  }

  /** int.from_bytes(s, "big") of a slice of at most two bytes, as a clamped s[i:i+2] gives. */
  function BeShort(s: seq<byte>): nat
    requires |s| <= 2
  {
    if |s| == 2 then Be16(s) else if |s| == 1 then s[0] as int else 0
  }

  /** The written-out fields agree with the general conversions. */
  lemma BeInt2(s: seq<byte>)
    requires |s| == 2
    ensures BeInt(s) == Be16(s)
  {
    assert BeInt(s[..1]) == s[0] by {
      assert s[..1][..0] == [];
    }
  }

  lemma BeShortIsBeInt(s: seq<byte>)
    requires |s| <= 2
    ensures BeInt(s) == BeShort(s)
  {
    if |s| == 2 {
      BeInt2(s);
    } else if |s| == 1 {
      assert s[..0] == [];
    }
  }

  lemma LeInt2(s: seq<byte>)
    requires |s| == 2
    ensures LeInt(s) == Le16(s)
  {
    assert LeInt(s[1..]) == s[1] by {
      assert s[1..][1..] == [];
    }
  }

  lemma BeInt4(s: seq<byte>)
    requires |s| == 4
    ensures BeInt(s) == Be32(s)
  {
    assert s[..3][..2] == s[..2];
    BeInt2(s[..2]);
    assert BeInt(s[..3]) == BeInt(s[..2]) * 256 + s[2];
  }

  lemma LeInt4(s: seq<byte>)
    requires |s| == 4
    ensures LeInt(s) == Le32(s)
  {
    assert s[1..][1..] == s[2..];
    LeInt2(s[2..]);
    assert LeInt(s[1..]) == s[1] + 256 * LeInt(s[2..]);
  }
}
