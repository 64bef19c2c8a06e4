/** The TIFF decoder at the heart of the Exif reader (TIFF Revision 6.0, section 2):
    the 8-byte header with its byte-order mark, 16- and 32-bit reads in that order,
    Image File Directories of 12-byte entries, and the six field types it supports. */
module Tiff {
  import opened Wrappers
  import opened Binary
  import Ascii

  datatype Endian = Little | Big

  /** The parser's state: the blob and the byte order its header selected. Both are set
      once, when the parser is made, and never change. */
  datatype Parser = Parser(blob: seq<byte>, endian: Endian)

  /** A decoded field value. */
  datatype Value =
    | Text(text: string)
    | Shorts(shorts: seq<nat>)
    | Longs(longs: seq<nat>)
    | Rationals(rationals: seq<(nat, nat)>)
    | Bytes(bytes: seq<byte>)

  /** A decoded directory: its entries by tag, and the offset of the next directory. */
  datatype Ifd = Ifd(entries: map<nat, Value>, next: Option<nat>)

  const TypeByte: nat := 1
  const TypeAscii: nat := 2
  const TypeShort: nat := 3
  const TypeLong: nat := 4
  const TypeRational: nat := 5
  const TypeUndefined: nat := 7

  /** Bytes per item of each supported field type; None for any other type. */
  function TypeSize(typ: nat): (r: Option<nat>)
    ensures r.Some? <==> typ in {TypeByte, TypeAscii, TypeShort, TypeLong, TypeRational, TypeUndefined}
    ensures r == Some(1) <==> typ == TypeByte || typ == TypeAscii || typ == TypeUndefined
    ensures r == Some(2) <==> typ == TypeShort
    ensures r == Some(4) <==> typ == TypeLong
    ensures r == Some(8) <==> typ == TypeRational
  {
    if typ == TypeByte || typ == TypeAscii || typ == TypeUndefined then Some(1)
    else if typ == TypeShort then Some(2)
    else if typ == TypeLong then Some(4)
    else if typ == TypeRational then Some(8)
    else None
  }

  predicate Supported(typ: nat)
  {
    TypeSize(typ).Some?
  }

  const LittleMark: seq<byte> := [0x49, 0x49]  // "II"
  const BigMark: seq<byte> := [0x4D, 0x4D]     // "MM"

  /** Makes a parser: the blob must hold the 8-byte header, and "II" selects
      little-endian, "MM" big-endian. */
  function NewParser(blob: seq<byte>): (r: Result<Parser>)
    ensures r.Ok? <==> |blob| >= 8 && (blob[..2] == LittleMark || blob[..2] == BigMark)
    ensures r.Ok? ==> r.value.blob == blob
    ensures r.Ok? ==> (r.value.endian == Little <==> blob[..2] == LittleMark)
    ensures |blob| < 8 ==> r == Err(InvalidExifSegment)
    ensures |blob| >= 8 && r.Err? ==> r == Err(UnknownEndianness)
  {
    if |blob| < 8 then Err(InvalidExifSegment)
    else if blob[..2] == LittleMark then Ok(Parser(blob, Little))
    else if blob[..2] == BigMark then Ok(Parser(blob, Big))
    else Err(UnknownEndianness)
  }

  /** A 16-bit or 32-bit unsigned field in byte order e (struct's "H" and "I" codes). */
  function EndianInt(e: Endian, s: seq<byte>): (r: nat)
    requires |s| == 2 || |s| == 4
    ensures r < if |s| == 2 then 0x1_0000 else 0x1_0000_0000
  {
    if |s| == 2 then (if e == Little then Le16(s) else Be16(s))
    else if e == Little then Le32(s) else Be32(s)
  }

  /** The field is the little- or big-endian number its bytes encode, below 256^width. */
  lemma EndianIntValue(e: Endian, s: seq<byte>)
    requires |s| == 2 || |s| == 4
    ensures EndianInt(e, s) == if e == Little then LeInt(s) else BeInt(s)
    ensures EndianInt(e, s) < Pow256(|s|)
  {
    if |s| == 2 {
      BeInt2(s);
      LeInt2(s);
      assert Pow256(2) == 65536 by {
        assert Pow256(1) == 256;
      }
    } else {
      BeInt4(s);
      LeInt4(s);
      assert Pow256(4) == 0x1_0000_0000 by {
        assert Pow256(1) == 256;
        assert Pow256(2) == 65536;
        assert Pow256(3) == 16777216;
      }
    }
  }

  /** An unsigned integer of `width` bytes at `offset`, in the parser's byte order. */
  function ReadUInt(p: Parser, offset: nat, width: nat): (r: Result<nat>)
    requires width == 2 || width == 4
    ensures r.Ok? <==> offset + width <= |p.blob|
    ensures r.Err? ==> r.error == OffsetOutOfRange
    ensures r.Ok? ==> r.value < if width == 2 then 0x1_0000 else 0x1_0000_0000
  {
    if offset + width > |p.blob| then Err(OffsetOutOfRange)
    else Ok(EndianInt(p.endian, p.blob[offset..offset + width]))
  }

  function U16(p: Parser, offset: nat): (r: Result<nat>)
    ensures r.Ok? <==> offset + 2 <= |p.blob|
    ensures r.Ok? ==> r.value < 0x1_0000
  {
    ReadUInt(p, offset, 2)
  }

  function U32(p: Parser, offset: nat): (r: Result<nat>)
    ensures r.Ok? <==> offset + 4 <= |p.blob|
    ensures r.Ok? ==> r.value < 0x1_0000_0000
  {
    ReadUInt(p, offset, 4)
  }

  /** A field read little-endian equals the byte-reversed field read big-endian: two blobs
      that differ only in the byte order of one field agree on that field. */
  lemma FieldByteOrder(a: seq<byte>, b: seq<byte>, offset: nat, width: nat)
    requires width == 2 || width == 4
    requires |a| == |b| && offset + width <= |a|
    requires b[offset..offset + width] == Reverse(a[offset..offset + width])
    ensures ReadUInt(Parser(a, Little), offset, width) == ReadUInt(Parser(b, Big), offset, width)
  {
    LeIsReversedBe(a[offset..offset + width]);
    EndianIntValue(Little, a[offset..offset + width]);
    EndianIntValue(Big, b[offset..offset + width]);
  }

  /** Byte k of d, or the zero byte that padding supplies past its end. */
  function PaddedByte(d: seq<byte>, k: nat): byte
  {
    if k < |d| then d[k] else 0
  }

  /** The 32-bit word in byte order e that starts at offset k of d zero-padded at the end. */
  function WordAt(e: Endian, d: seq<byte>, k: nat): (r: nat)
    ensures r < 0x1_0000_0000
  {
    var b0, b1, b2, b3 := PaddedByte(d, k), PaddedByte(d, k + 1), PaddedByte(d, k + 2), PaddedByte(d, k + 3);
    if e == Little then b0 + 256 * b1 + 65536 * b2 + 16777216 * b3
    else 16777216 * b0 + 65536 * b1 + 256 * b2 + b3
  }

  /** _u32_from_bytes: the first four bytes of raw as a 32-bit word, zero-padded at the end
      when fewer than four are given. */
  function U32FromBytes(e: Endian, raw: seq<byte>): (r: nat)
    ensures r < 0x1_0000_0000
  {
    WordAt(e, raw, 0)
  }

  /** The word is the one struct decodes from raw[:4] followed by 4 - len(raw) zero bytes;
      in particular a field of four or more bytes is read from its first four. */
  lemma U32FromBytesPadded(e: Endian, raw: seq<byte>)
    ensures var padded := if |raw| >= 4 then raw[..4] else raw + Zeros(4 - |raw|);
            U32FromBytes(e, raw) == EndianInt(e, padded)
  {
    var padded := if |raw| >= 4 then raw[..4] else raw + Zeros(4 - |raw|);
    forall k | 0 <= k < 4
      ensures PaddedByte(padded, k) == PaddedByte(raw, k)
    {
      if |raw| < 4 && k >= |raw| {
        assert padded[k] == Zeros(4 - |raw|)[k - |raw|];
      }
    }
    WordOfFour(e, padded);
  }

  /** On exactly four bytes the word is the field EndianInt reads. */
  lemma WordOfFour(e: Endian, s: seq<byte>)
    requires |s| == 4
    ensures WordAt(e, s, 0) == EndianInt(e, s)
  {
  }

  /** Padding a slice of d and reading its word is reading the word of d at the slice's start. */
  lemma U32FromSlice(e: Endian, d: seq<byte>, k: nat)
    ensures U32FromBytes(e, Slice(d, k, k + 4)) == WordAt(e, d, k)
  {
    var s := Slice(d, k, k + 4);
    assert forall j :: 0 <= j < 4 ==> PaddedByte(s, j) == PaddedByte(d, k + j);
  }

  /** In little-endian order the zero padding is at the high end, so a short field keeps its value. */
  lemma U32FromShortLittle(raw: seq<byte>)
    requires |raw| < 4
    ensures U32FromBytes(Little, raw) == LeInt(raw)
  {
    U32FromBytesPadded(Little, raw);
    LeIntZeroPadded(raw, 4 - |raw|);
    EndianIntValue(Little, raw + Zeros(4 - |raw|));
  }

  /** The 16-bit items of d in byte order e. */
  function DecodeShorts(e: Endian, d: seq<byte>): (r: seq<nat>)
    requires |d| % 2 == 0
    ensures |r| == |d| / 2
    ensures forall i :: 0 <= i < |r| ==> r[i] == EndianInt(e, d[2 * i..2 * i + 2])
    decreases |d|
  {
    if d == [] then []
    else
      var rest := DecodeShorts(e, d[2..]);
      assert forall i :: 1 <= i < |rest| + 1 ==> d[2 * i..2 * i + 2] == d[2..][2 * (i - 1)..2 * (i - 1) + 2];
      [EndianInt(e, d[..2])] + rest
  }

  /** The 32-bit items of d in byte order e. */
  function DecodeLongs(e: Endian, d: seq<byte>): (r: seq<nat>)
    requires |d| % 4 == 0
    ensures |r| == |d| / 4
    ensures forall i :: 0 <= i < |r| ==> r[i] == EndianInt(e, d[4 * i..4 * i + 4])
    decreases |d|
  {
    if d == [] then []
    else
      var rest := DecodeLongs(e, d[4..]);
      assert forall i :: 1 <= i < |rest| + 1 ==> d[4 * i..4 * i + 4] == d[4..][4 * (i - 1)..4 * (i - 1) + 4];
      [EndianInt(e, d[..4])] + rest
  }

  /** The i-th (numerator, denominator) pair of a RATIONAL value: the words at 8 * i and
      8 * i + 4. */
  function RationalAt(e: Endian, data: seq<byte>, i: nat): (nat, nat)
  {
    (WordAt(e, data, 8 * i), WordAt(e, data, 8 * i + 4))
  }

  /** The first `count` pairs of a RATIONAL value. */
  function RationalsOf(e: Endian, data: seq<byte>, count: nat): seq<(nat, nat)>
  {
    seq(count, i requires 0 <= i < count => RationalAt(e, data, i))
  }

  /** _decode_rationals: appends one pair per item, reading both halves at 8-byte strides. */
  method DecodeRationals(e: Endian, data: seq<byte>, count: nat) returns (rs: seq<(nat, nat)>)
    ensures rs == RationalsOf(e, data, count)
  {
    rs := [];
    for idx := 0 to count
      invariant rs == RationalsOf(e, data, idx)
    {
      var start := 8 * idx;
      var num := SliceWord(e, data, start);
      var den := SliceWord(e, data, start + 4);
      RationalsSnoc(e, data, idx);
      rs := rs + [(num, den)];
    }
  }

  /** _u32_from_bytes(data[start:start + 4]): the padded word at start. */
  method SliceWord(e: Endian, data: seq<byte>, start: nat) returns (w: nat)
    ensures w == WordAt(e, data, start)
  {
    w := U32FromBytes(e, Slice(data, start, start + 4));
    U32FromSlice(e, data, start);
  }

  lemma RationalsSnoc(e: Endian, data: seq<byte>, n: nat)
    ensures RationalsOf(e, data, n + 1) == RationalsOf(e, data, n) + [RationalAt(e, data, n)]
  {
    var a := RationalsOf(e, data, n + 1);
    var b := RationalsOf(e, data, n) + [RationalAt(e, data, n)];
    assert |a| == |b|;
    forall i | 0 <= i < n + 1
      ensures a[i] == b[i]
    {
      if i < n {
        assert b[i] == RationalsOf(e, data, n)[i];
      }
    }
  }

  /** data.partition(b"\x00")[0]: the bytes before the first NUL. */
  function BeforeNul(d: seq<byte>): (r: seq<byte>)
    ensures |r| <= |d| && r == d[..|r|]
    ensures forall i :: 0 <= i < |r| ==> r[i] != 0
    ensures |r| < |d| ==> d[|r|] == 0
  {
    if d == [] || d[0] == 0 then [] else [d[0]] + BeforeNul(d[1..])
  }

  /** The item size times max(count, 1), the multiplication written out per size. */
  function TotalSize(typ: nat, count: nat): (r: nat)
    requires Supported(typ)
    ensures r == TypeSize(typ).value * Max(count, 1)
    ensures r >= Max(count, 1)
  {
    var n := Max(count, 1);
    match TypeSize(typ).value
    case 1 => n
    case 2 => 2 * n
    case 4 => 4 * n
    case _ => 8 * n
  }

  /** The bytes a value is decoded from: the inline field when the value fits in four
      bytes, otherwise the range the field points to, which must lie inside the blob. */
  function FieldData(p: Parser, typ: nat, count: nat, raw: seq<byte>): (r: Result<seq<byte>>)
    requires Supported(typ) && |raw| == 4
    ensures r.Ok? ==> |r.value| == TotalSize(typ, count)
    ensures TotalSize(typ, count) <= 4 ==> r == Ok(raw[..TotalSize(typ, count)])
    ensures TotalSize(typ, count) > 4 ==>
              var off := U32FromBytes(p.endian, raw);
              && (r.Ok? <==> off + TotalSize(typ, count) <= |p.blob|)
              && (r.Ok? ==> r.value == p.blob[off..off + TotalSize(typ, count)])
              && (r.Err? ==> r.error == ValueOffsetOutOfRange)
  {
    var total := TotalSize(typ, count);
    if total <= 4 then Ok(raw[..total])
    else
      var valueOffset := U32FromBytes(p.endian, raw);
      if valueOffset + total > |p.blob| then Err(ValueOffsetOutOfRange)
      else Ok(p.blob[valueOffset..valueOffset + total])
  }

  /** The shape a successfully decoded value of a type and count has. */
  ghost predicate WellShaped(typ: nat, count: nat, v: Value)
  {
    if typ == TypeAscii then v.Text?
    else if typ == TypeShort then v.Shorts? && |v.shorts| == count && forall i :: 0 <= i < count ==> v.shorts[i] < 0x1_0000
    else if typ == TypeLong then v.Longs? && |v.longs| == count && forall i :: 0 <= i < count ==> v.longs[i] < 0x1_0000_0000
    else if typ == TypeRational then v.Rationals? && |v.rationals| == count
    else v.Bytes? && |v.bytes| == Max(count, 1)
  }

  /** _decode_value: unknown types fail; otherwise the value's bytes are located and decoded
      by type. ASCII stops at the first NUL, SHORT and LONG give exactly `count` integers,
      RATIONAL `count` pairs, BYTE and UNDEFINED the raw bytes. */
  function DecodeValue(p: Parser, typ: nat, count: nat, raw: seq<byte>): (r: Result<Value>)
    requires |raw| == 4
    ensures !Supported(typ) ==> r == Err(UnsupportedType)
    ensures Supported(typ) ==> (r.Ok? <==> FieldData(p, typ, count, raw).Ok?)
  {
    if !Supported(typ) then Err(UnsupportedType)
    else
      var data :- FieldData(p, typ, count, raw);
      if typ == TypeAscii then Ok(Text(Ascii.Decode(BeforeNul(data))))
      else if typ == TypeShort then
        var shorts := DecodeShorts(p.endian, Slice(data, 0, 2 * count));
        Ok(Shorts(shorts))
      else if typ == TypeLong then
        var longs := DecodeLongs(p.endian, Slice(data, 0, 4 * count));
        Ok(Longs(longs))
      else if typ == TypeRational then Ok(Rationals(RationalsOf(p.endian, data, count)))
      else Ok(Bytes(data))
  }

  /** What a decoded value holds, item by item, in terms of the bytes it was decoded from. */
  lemma DecodedContent(p: Parser, typ: nat, count: nat, raw: seq<byte>)
    requires |raw| == 4 && DecodeValue(p, typ, count, raw).Ok?
    ensures Supported(typ) && FieldData(p, typ, count, raw).Ok?
    ensures WellShaped(typ, count, DecodeValue(p, typ, count, raw).value)
    ensures var v, data := DecodeValue(p, typ, count, raw).value, FieldData(p, typ, count, raw).value;
      && (typ == TypeAscii ==> v.text == Ascii.Decode(BeforeNul(data)))
      && (typ == TypeShort ==> forall i :: 0 <= i < count ==> v.shorts[i] == EndianInt(p.endian, data[2 * i..2 * i + 2]))
      && (typ == TypeLong ==> forall i :: 0 <= i < count ==> v.longs[i] == EndianInt(p.endian, data[4 * i..4 * i + 4]))
      && (typ == TypeRational ==> forall i :: 0 <= i < count ==> v.rationals[i] == RationalAt(p.endian, data, i))
      && (typ == TypeByte || typ == TypeUndefined ==> v.bytes == data)
  {
    var data := FieldData(p, typ, count, raw).value;
    if typ == TypeShort {
      assert forall i :: 0 <= i < count ==> data[2 * i..2 * i + 2] == Slice(data, 0, 2 * count)[2 * i..2 * i + 2];
    } else if typ == TypeLong {
      assert forall i :: 0 <= i < count ==> data[4 * i..4 * i + 4] == Slice(data, 0, 4 * count)[4 * i..4 * i + 4];
    }
  }

  /** Decodes the 12-byte entry at entryOffset: tag, type, count and the 4-byte value field. */
  function EntryAt(p: Parser, entryOffset: nat): (r: Result<(nat, Value)>)
    requires entryOffset + 12 <= |p.blob|
  {
    var tag := U16(p, entryOffset).value;
    var typ := U16(p, entryOffset + 2).value;
    var itemCount := U32(p, entryOffset + 4).value;
    var v :- DecodeValue(p, typ, itemCount, p.blob[entryOffset + 8..entryOffset + 12]);
    Ok((tag, v))
  }

  /** Record i of a directory whose records start at base, when it lies inside the blob
      and decodes. */
  function RecordAt(p: Parser, base: nat, i: nat): Option<(nat, Value)>
  {
    var entryOffset := base + 12 * i;
    if entryOffset + 12 > |p.blob| then None
    else
      match EntryAt(p, entryOffset)
      case Ok(e) => Some(e)
      case Err(_) => None
  }

  /** The first n record slots of a directory. */
  function Records(p: Parser, base: nat, n: nat): (rs: seq<Option<(nat, Value)>>)
    ensures |rs| == n && forall i :: 0 <= i < n ==> rs[i] == RecordAt(p, base, i)
  {
    seq(n, i requires 0 <= i < n => RecordAt(p, base, i))
  }

  /** Stores a decoded record under its tag, replacing an earlier value. */
  function Store(m: map<nat, Value>, record: Option<(nat, Value)>): map<nat, Value>
  {
    if record.Some? then m[record.value.0 := record.value.1] else m
  }

  /** The entry map built from record slots in order. */
  function Collect(rs: seq<Option<(nat, Value)>>): map<nat, Value>
  {
    if rs == [] then map[] else Store(Collect(rs[..|rs| - 1]), rs[|rs| - 1])
  }

  /** The entries of the first n records at base: records that lie outside the blob or fail
      to decode are left out, and a later record overwrites an earlier one with the same tag. */
  function EntriesUpTo(p: Parser, base: nat, n: nat): map<nat, Value>
  {
    Collect(Records(p, base, n))
  }

  lemma CollectSnoc(rs: seq<Option<(nat, Value)>>, record: Option<(nat, Value)>)
    ensures Collect(rs + [record]) == Store(Collect(rs), record)
  {
    assert (rs + [record])[..|rs|] == rs;
  }

  /** Empty slots at the end leave the map as it was. */
  lemma {:induction false} CollectEmptyTail(rs: seq<Option<(nat, Value)>>, k: nat)
    requires k <= |rs| && forall j :: k <= j < |rs| ==> rs[j].None?
    ensures Collect(rs) == Collect(rs[..k])
    decreases |rs|
  {
    if |rs| > k {
      var init := rs[..|rs| - 1];
      assert rs[|rs| - 1].None?;
      assert Collect(rs) == Collect(init);
      CollectEmptyTail(init, k);
      assert init[..k] == rs[..k];
    } else {
      assert rs[..k] == rs;
    }
  }

  /** A tag is in the map exactly when some slot holds a record with that tag. */
  lemma {:induction false} CollectMembership(rs: seq<Option<(nat, Value)>>, tag: nat)
    ensures tag in Collect(rs) <==> exists i :: 0 <= i < |rs| && rs[i].Some? && rs[i].value.0 == tag
    decreases |rs|
  {
    if rs != [] {
      var init := rs[..|rs| - 1];
      CollectMembership(init, tag);
      if tag in Collect(rs) && !(rs[|rs| - 1].Some? && rs[|rs| - 1].value.0 == tag) {
        var i :| 0 <= i < |init| && init[i].Some? && init[i].value.0 == tag;
        assert rs[i] == init[i];
      }
      if exists i :: 0 <= i < |rs| && rs[i].Some? && rs[i].value.0 == tag {
        var i :| 0 <= i < |rs| && rs[i].Some? && rs[i].value.0 == tag;
        if i < |init| {
          assert init[i] == rs[i];
        }
      }
    }
  }

  /** The value kept for a tag is the one of the last slot holding that tag. */
  lemma {:induction false} CollectLastWins(rs: seq<Option<(nat, Value)>>, tag: nat, i: nat)
    requires i < |rs| && rs[i].Some? && rs[i].value.0 == tag
    requires forall j :: i < j < |rs| ==> !(rs[j].Some? && rs[j].value.0 == tag)
    ensures tag in Collect(rs) && Collect(rs)[tag] == rs[i].value.1
    decreases |rs|
  {
    if i < |rs| - 1 {
      var init := rs[..|rs| - 1];
      CollectLastWins(init, tag, i);
    }
  }

  lemma RecordsSnoc(p: Parser, base: nat, n: nat)
    ensures Records(p, base, n + 1) == Records(p, base, n) + [RecordAt(p, base, n)]
  {
    var a := Records(p, base, n + 1);
    var b := Records(p, base, n) + [RecordAt(p, base, n)];
    assert |a| == |b|;
    forall i | 0 <= i < n + 1
      ensures a[i] == b[i]
    {
      if i < n {
        assert b[i] == Records(p, base, n)[i];
      }
    }
  }

  /** One more record slot stores its record, if any. */
  lemma EntriesNext(p: Parser, base: nat, n: nat)
    ensures EntriesUpTo(p, base, n + 1) == Store(EntriesUpTo(p, base, n), RecordAt(p, base, n))
  {
    RecordsSnoc(p, base, n);
    CollectSnoc(Records(p, base, n), RecordAt(p, base, n));
  }

  /** Once a record runs past the blob, so do all later ones: the entries stop growing. */
  lemma EntriesPastEnd(p: Parser, base: nat, i: nat, n: nat)
    requires i <= n && base + 12 * i + 12 > |p.blob|
    ensures EntriesUpTo(p, base, n) == EntriesUpTo(p, base, i)
  {
    var rs := Records(p, base, n);
    forall j | i <= j < n
      ensures rs[j].None?
    {
      assert base + 12 * j >= base + 12 * i;
    }
    CollectEmptyTail(rs, i);
    assert rs[..i] == Records(p, base, i);
  }

  /** Record i lies in the blob, decodes, and carries tag. */
  ghost predicate Defines(p: Parser, base: nat, i: nat, tag: nat)
  {
    RecordAt(p, base, i).Some? && RecordAt(p, base, i).value.0 == tag
  }

  /** A tag is present exactly when some record below n defines it. */
  lemma EntriesMembership(p: Parser, base: nat, n: nat, tag: nat)
    ensures tag in EntriesUpTo(p, base, n) <==> exists i :: 0 <= i < n && Defines(p, base, i, tag)
  {
    var rs := Records(p, base, n);
    CollectMembership(rs, tag);
    if exists i :: 0 <= i < n && Defines(p, base, i, tag) {
      var i :| 0 <= i < n && Defines(p, base, i, tag);
      assert rs[i].Some? && rs[i].value.0 == tag;
    }
    if tag in EntriesUpTo(p, base, n) {
      var i :| 0 <= i < |rs| && rs[i].Some? && rs[i].value.0 == tag;
      assert Defines(p, base, i, tag);
    }
  }

  /** The value kept for a tag is the one of the last record that defines it; every decoded
      record survives unless a later record defines the same tag. */
  lemma EntriesLastWins(p: Parser, base: nat, n: nat, tag: nat, i: nat)
    requires i < n && Defines(p, base, i, tag)
    requires forall j :: i < j < n ==> !Defines(p, base, j, tag)
    ensures tag in EntriesUpTo(p, base, n)
    ensures EntriesUpTo(p, base, n)[tag] == RecordAt(p, base, i).value.1
  {
    var rs := Records(p, base, n);
    forall j | i < j < n
      ensures !(rs[j].Some? && rs[j].value.0 == tag)
    {
      assert !Defines(p, base, j, tag);
    }
    CollectLastWins(rs, tag, i);
  }

  /** The next-directory pointer after the records: absent when it does not fit or is zero. */
  function NextPointer(p: Parser, pos: nat): (r: Option<nat>)
    ensures r.Some? <==> pos + 4 <= |p.blob| && U32(p, pos) != Ok(0)
    ensures r.Some? ==> r.value != 0 && U32(p, pos) == Ok(r.value)
  {
    if pos + 4 <= |p.blob| then
      var ptr := U32(p, pos).value;
      if ptr != 0 then Some(ptr) else None
    else None
  }

  function RecordCount(p: Parser, offset: nat): nat
    requires offset + 2 <= |p.blob|
  {
    U16(p, offset).value
  }

  /** The directory at offset; it fails exactly when its 16-bit record count does not fit. */
  function IfdAt(p: Parser, offset: nat): (r: Result<Ifd>)
    ensures r.Err? <==> offset + 2 > |p.blob|
    ensures r.Ok? ==> r.value.entries == EntriesUpTo(p, offset + 2, RecordCount(p, offset))
    ensures r.Ok? ==> r.value.next == NextPointer(p, offset + 2 + 12 * RecordCount(p, offset))
  {
    if offset >= |p.blob| then Err(IfdOffsetOutOfRange)
    else if offset + 2 > |p.blob| then Err(OffsetOutOfRange)
    else
      Ok(Ifd(EntriesUpTo(p, offset + 2, RecordCount(p, offset)), NextPointer(p, offset + 2 + 12 * RecordCount(p, offset))))
  }

  /** _read_ifd: the record count, the entries, then the next-directory pointer. */
  method ReadIfd(p: Parser, offset: nat) returns (r: Result<Ifd>)
    ensures r == IfdAt(p, offset)
  {
    if offset >= |p.blob| {
      return Err(IfdOffsetOutOfRange);
    }
    var c := U16(p, offset);
    if c.Err? {
      return Err(c.error);
    }
    var count := c.value;
    var base := offset + 2;
    var entries := ReadEntries(p, base, count);
    var nextOffsetPos := base + 12 * count;
    var next: Option<nat> := None;
    if nextOffsetPos + 4 <= |p.blob| {
      var ptr := U32(p, nextOffsetPos).value;
      next := if ptr != 0 then Some(ptr) else None;
    }
    assert next == NextPointer(p, nextOffsetPos);
    assert count == RecordCount(p, offset);
    r := Ok(Ifd(entries, next));
  }

  /** The entry loop of _read_ifd: fills the map record by record, skipping records that
      fail to decode and stopping at the first record that runs past the blob. */
  method ReadEntries(p: Parser, base: nat, count: nat) returns (entries: map<nat, Value>)
    ensures entries == EntriesUpTo(p, base, count)
  {
    entries := map[];
    for idx := 0 to count
      invariant entries == EntriesUpTo(p, base, idx)
    {
      var entryOffset := base + 12 * idx;
      if entryOffset + 12 > |p.blob| {
        EntriesPastEnd(p, base, idx, count);
        break;
      }
      var record := ReadRecord(p, entryOffset);
      EntriesNext(p, base, idx);
      if record.Err? {
        continue;
      }
      entries := entries[record.value.0 := record.value.1];
    }
  }

  /** One 12-byte record of _read_ifd: its tag, type and count fields, and the value they
      describe. */
  method ReadRecord(p: Parser, entryOffset: nat) returns (r: Result<(nat, Value)>)
    requires entryOffset + 12 <= |p.blob|
    ensures r == EntryAt(p, entryOffset)
  {
    var tag := U16(p, entryOffset).value;
    var typ := U16(p, entryOffset + 2).value;
    var itemCount := U32(p, entryOffset + 4).value;
    var rawValue := p.blob[entryOffset + 8..entryOffset + 12];
    var decoded := DecodeValue(p, typ, itemCount, rawValue);
    if decoded.Err? {
      return Err(decoded.error);
    }
    return Ok((tag, decoded.value));
  }
}
