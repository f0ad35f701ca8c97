/** The Class Definition table: assigns a class, a small number, to each
    glyph. Format 1 lists the classes of a run of consecutive glyphs starting
    at `startGlyph`; format 2 lists glyph ranges, each with one class. Glyphs
    not mentioned, and every glyph of a table with any other format, are in
    class 0. */
module ClassDef {
  import opened BigEndian
  import opened Blob
  import opened GlyphRanges

  /** The Null ClassDef: format 0, every glyph in class 0. */
  const NullClassDef: Ptr := NullOf(Zeros(2))

  /** The format word. */
  function Format(p: Ptr): U16
    requires Fits(p, 2)
  {
    Read16(p, 0)
  }

  /** Format 1: the first glyph with a listed class. */
  function StartGlyph(p: Ptr): U16
    requires Fits(p, 6)
  {
    Read16(p, 2)
  }

  /** Format 1: the number of listed classes. */
  function GlyphCount(p: Ptr): U16
    requires Fits(p, 6)
  {
    Read16(p, 4)
  }

  /** Format 2: the number of range records. */
  function RangeCount(p: Ptr): U16
    requires Fits(p, 4)
  {
    Read16(p, 2)
  }

  /** The header a format needs before its array can be located. */
  predicate HeaderFits(p: Ptr)
  {
    && Fits(p, 2)
    && (Format(p) == 1 ==> Fits(p, 6))
    && (Format(p) == 2 ==> Fits(p, 4))
  }

  /** `ClassDef::get_size`: the fixed part of the format plus its array, or
      just the format word for an unknown format. */
  function Size(p: Ptr): nat
    requires HeaderFits(p)
  {
    if Format(p) == 1 then 6 + 2 * GlyphCount(p)
    else if Format(p) == 2 then 4 + 6 * RangeCount(p)
    else 2
  }

  /** The whole table lies in its memory. */
  predicate Readable(p: Ptr)
  {
    HeaderFits(p) && Fits(p, Size(p))
  }

  /*
   * The table as a value.
   */

  datatype ClassTable =
    | ClassArray(startGlyph: U16, classes: seq<U16>)
    | ClassRanges(ranges: seq<GlyphRange>)
    | OtherFormat(format: U16)

  /** The class array of a format 1 table. */
  function Classes(p: Ptr): (cs: seq<U16>)
    requires Readable(p) && Format(p) == 1
    ensures |cs| == GlyphCount(p)
  {
    seq(GlyphCount(p), j requires 0 <= j < GlyphCount(p) => Read16(p, 6 + 2 * j))
  }

  /** The range records of a format 2 table. */
  function Ranges(p: Ptr): (rs: seq<GlyphRange>)
    requires Readable(p) && Format(p) == 2
    ensures |rs| == RangeCount(p)
  {
    RangesIn(p.mem, p.at + 4, RangeCount(p))
  }

  /** The table a readable view holds. */
  function Decode(p: Ptr): ClassTable
    requires Readable(p)
  {
    if Format(p) == 1 then ClassArray(StartGlyph(p), Classes(p))
    else if Format(p) == 2 then ClassRanges(Ranges(p))
    else OtherFormat(Format(p))
  }

  /** Tables that have an encoding. */
  predicate Encodable(c: ClassTable)
  {
    match c
    case ClassArray(_, cs) => |cs| < 0x1_0000
    case ClassRanges(rs) => |rs| < 0x1_0000
    case OtherFormat(f) => f != 1 && f != 2
  }

  /** The words of a table's encoding. */
  function Words(c: ClassTable): seq<U16>
    requires Encodable(c)
  {
    match c
    case ClassArray(start, cs) => [1, start, |cs|] + cs
    case ClassRanges(rs) => [2 as U16, |rs| as U16] + RangeWords(rs)
    case OtherFormat(f) => [f]
  }

  /** The bytes of a table. */
  function Encode(c: ClassTable): seq<Byte>
    requires Encodable(c)
  {
    U16sBytes(Words(c))
  }

  /** Decoding an encoded class array gives it back. */
  lemma DecodeEncodeArray(start: U16, cs: seq<U16>)
    requires |cs| < 0x1_0000
    ensures Readable(Ptr(Encode(ClassArray(start, cs)), 0))
    ensures Decode(Ptr(Encode(ClassArray(start, cs)), 0)) == ClassArray(start, cs)
  {
    var ws: seq<U16> := [1, start, |cs|] + cs;
    var p := Ptr(U16sBytes(ws), 0);
    ReadWord(ws, 0, 0);
    ReadWord(ws, 0, 1);
    ReadWord(ws, 0, 2);
    assert Readable(p);
    var decoded := Classes(p);
    forall j | 0 <= j < |cs|
      ensures decoded[j] == cs[j]
    {
      ReadWord(ws, 0, j + 3);
      assert decoded[j] == Read16(p, 2 * (j + 3));
    }
    assert decoded == cs;
  }

  /** Decoding encoded ranges gives them back. */
  lemma DecodeEncodeRanges(rs: seq<GlyphRange>)
    requires |rs| < 0x1_0000
    ensures Readable(Ptr(Encode(ClassRanges(rs)), 0))
    ensures Decode(Ptr(Encode(ClassRanges(rs)), 0)) == ClassRanges(rs)
  {
    var ws: seq<U16> := [2 as U16, |rs| as U16] + RangeWords(rs);
    var p := Ptr(U16sBytes(ws), 0);
    ReadWord(ws, 0, 0);
    ReadWord(ws, 0, 1);
    assert Readable(p);
    EncodedRanges(rs);
  }

  /** Decoding an encoded table gives the table back. */
  lemma DecodeEncode(c: ClassTable)
    requires Encodable(c)
    ensures Readable(Ptr(Encode(c), 0))
    ensures Decode(Ptr(Encode(c), 0)) == c
  {
    match c
    case ClassArray(start, cs) => DecodeEncodeArray(start, cs);
    case ClassRanges(rs) => DecodeEncodeRanges(rs);
    case OtherFormat(f) => ReadWord(Words(c), 0, 0);
  }

  /*
   * The meaning of a table.
   */

  /** `k` is the first range holding the glyph with a class above 0. */
  predicate FirstPositive(rs: seq<GlyphRange>, glyph: int, k: int)
  {
    && 0 <= k < |rs| && Contains(rs[k], glyph) && rs[k].value > 0
    && forall j :: 0 <= j < k ==> !(Contains(rs[j], glyph) && rs[j].value > 0)
  }

  /** `v` is the class of the glyph: the listed class for a glyph in the run
      of format 1; the class of the first range holding the glyph with a
      class above 0 in format 2; 0 for every other glyph and every other
      format. */
  predicate IsClass(c: ClassTable, glyph: int, v: nat)
  {
    match c
    case ClassArray(start, cs) =>
      if start <= glyph < start + |cs| then v == cs[glyph - start] else v == 0
    case ClassRanges(rs) =>
      || (exists k :: 0 <= k < |rs| && FirstPositive(rs, glyph, k) && v == rs[k].value)
      || (v == 0 && forall k :: 0 <= k < |rs| && Contains(rs[k], glyph) ==> rs[k].value == 0)
    case OtherFormat(_) => v == 0
  }

  /** A table gives each glyph exactly one class. */
  lemma ClassUnique(c: ClassTable, glyph: int, v: nat, w: nat)
    requires IsClass(c, glyph, v) && IsClass(c, glyph, w)
    ensures v == w
  {
    match c
    case ClassArray(_, _) =>
    case ClassRanges(rs) =>
      if k :| 0 <= k < |rs| && FirstPositive(rs, glyph, k) && v == rs[k].value {
        var m :| 0 <= m < |rs| && FirstPositive(rs, glyph, m) && w == rs[m].value;
      } else {
        assert v == 0;
      }
    case OtherFormat(_) =>
  }

  /*
   * Lookup.
   */

  /** `ClassDefFormat1::get_class` in the older source: the two-sided test
      `glyph >= startGlyph && glyph - startGlyph < glyphCount`. */
  function Format1ClassOld(p: Ptr, glyph: U32): (v: U16)
    requires Readable(p) && Format(p) == 1
    ensures IsClass(Decode(p), glyph, v)
  {
    if glyph >= StartGlyph(p) && glyph - StartGlyph(p) < GlyphCount(p) then
      Read16(p, 6 + 2 * (glyph - StartGlyph(p)))
    else 0
  }

  /** `ClassDefFormat1::get_class` in the newer source: the one-sided test
      `(unsigned int) (glyph - startGlyph) < len`, where the subtraction
      wraps modulo 2^32. */
  function Format1Class(p: Ptr, glyph: U32): (v: U16)
    requires Readable(p) && Format(p) == 1
    ensures IsClass(Decode(p), glyph, v)
  {
    var d := (glyph - StartGlyph(p)) % 0x1_0000_0000;
    if d < GlyphCount(p) then Read16(p, 6 + 2 * d) else 0
  }

  /** The wrapping one-sided test of the newer source accepts exactly the
      glyphs the older two-sided test accepts, so both versions agree on
      every 32-bit glyph id. */
  lemma Format1Versions(p: Ptr, glyph: U32)
    requires Readable(p) && Format(p) == 1
    ensures Format1Class(p, glyph) == Format1ClassOld(p, glyph)
    ensures ((glyph - StartGlyph(p)) % 0x1_0000_0000 < GlyphCount(p))
            <==> (glyph >= StartGlyph(p) && glyph - StartGlyph(p) < GlyphCount(p))
  {
    if glyph < StartGlyph(p) {
      assert (glyph - StartGlyph(p)) % 0x1_0000_0000 == glyph - StartGlyph(p) + 0x1_0000_0000;
    }
  }

  /** `ClassRangeRecord::get_class`: the range's class for a glyph inside it,
      otherwise 0. */
  function RangeClass(r: Ptr, glyph: U32): (v: U16)
    requires Fits(r, 6)
    ensures Contains(RangeAt(r), glyph) ==> v == RangeAt(r).value
    ensures !Contains(RangeAt(r), glyph) ==> v == 0
  {
    if glyph >= Read16(r, 0) && glyph <= Read16(r, 2) then Read16(r, 4) else 0
  }

  /** Both Null range records, the newer `"\000\001"` and the older `"\001"`,
      put every glyph in class 0. */
  lemma NullRangesClassZero(glyph: U32)
    ensures RangeClass(NullRange, glyph) == 0
    ensures RangeClass(NullRangeOld, glyph) == 0
  {
    NullRangesHoldNoGlyph(glyph);
  }

  /** The loop of `ClassDefFormat2::get_class` from range `i` on: the first
      range reporting a class above 0 decides. */
  function ScanRanges(p: Ptr, glyph: U32, i: nat): (v: U16)
    requires Readable(p) && Format(p) == 2 && i <= RangeCount(p)
    decreases RangeCount(p) - i
    ensures v == 0 <==> forall k :: i <= k < RangeCount(p) && Contains(Ranges(p)[k], glyph) ==> Ranges(p)[k].value == 0
    ensures v > 0 ==> exists k :: i <= k < RangeCount(p) && Contains(Ranges(p)[k], glyph) && Ranges(p)[k].value == v
                         && forall j :: i <= j < k ==> !(Contains(Ranges(p)[j], glyph) && Ranges(p)[j].value > 0)
  {
    if i == RangeCount(p) then 0
    else
      var r := Ptr(p.mem, p.at + 4 + 6 * i);
      assert Ranges(p)[i] == RangeAt(r);
      var c := RangeClass(r, glyph);
      if c > 0 then c else ScanRanges(p, glyph, i + 1)
  }

  /** `ClassDefFormat2::get_class`. */
  function Format2Class(p: Ptr, glyph: U32): (v: U16)
    requires Readable(p) && Format(p) == 2
    ensures IsClass(Decode(p), glyph, v)
  {
    var v := ScanRanges(p, glyph, 0);
    assert v > 0 ==> exists k :: 0 <= k < RangeCount(p) && FirstPositive(Ranges(p), glyph, k) && v == Ranges(p)[k].value;
    v
  }

  /** `ClassDef::get_class`: dispatch on the format; an unknown format puts
      every glyph in class 0. */
  function GetClass(p: Ptr, glyph: U32): (v: U16)
    requires Readable(p)
    ensures IsClass(Decode(p), glyph, v)
  {
    if Format(p) == 1 then Format1Class(p, glyph)
    else if Format(p) == 2 then Format2Class(p, glyph)
    else 0
  }

  /** The class `GetClass` reports is the table's class of the glyph, and
      no other value is. */
  lemma GetClassIsTheClass(p: Ptr, glyph: U32, v: nat)
    requires Readable(p)
    ensures GetClass(p, glyph) == v <==> IsClass(Decode(p), glyph, v)
  {
    if IsClass(Decode(p), glyph, v) {
      ClassUnique(Decode(p), glyph, v, GetClass(p, glyph));
    }
  }

  /** A glyph of class above 0 lies in a listed entry holding that class
      (format 1's run or one of format 2's ranges); a glyph in no entry is
      in class 0. */
  lemma ClassComesFromAnEntry(p: Ptr, glyph: U32)
    requires Readable(p)
    ensures GetClass(p, glyph) > 0 ==>
              (Format(p) == 1 && StartGlyph(p) <= glyph < StartGlyph(p) + GlyphCount(p)
                 && Classes(p)[glyph - StartGlyph(p)] == GetClass(p, glyph))
              || (Format(p) == 2 && exists k :: 0 <= k < RangeCount(p) && Contains(Ranges(p)[k], glyph)
                                                && Ranges(p)[k].value == GetClass(p, glyph))
    ensures (Format(p) == 2 && forall k :: 0 <= k < RangeCount(p) ==> !Contains(Ranges(p)[k], glyph))
            ==> GetClass(p, glyph) == 0
  {
    if GetClass(p, glyph) > 0 && Format(p) == 2 {
      var k :| 0 <= k < |Ranges(p)| && FirstPositive(Ranges(p), glyph, k) && GetClass(p, glyph) == Ranges(p)[k].value;
    }
  }

  /** The Null ClassDef puts every glyph in class 0. */
  lemma NullClassDefIsClassZero(glyph: U32)
    ensures Readable(NullClassDef) && GetClass(NullClassDef, glyph) == 0
  {
    assert Format(NullClassDef) == 0;
  }

  /*
   * Sanitizing.
   */

  /** `ClassDef::sanitize`: the format word must lie in range; format 1 then
      checks its six-byte header and its class array, format 2 its range
      array; any other format passes. */
  function Sanitize(r: Range, p: Ptr): (ok: bool)
    requires Within(r, p)
    ensures ok ==> r.start <= p.at && Readable(p) && p.at + Size(p) <= r.end
  {
    && MemOk(r, p, 0, 2)
    && (if Read16(p, 0) == 1 then MemOk(r, p, 0, 6) && ArrayOk(r, p, 4, 2)
        else if Read16(p, 0) == 2 then ArrayOk(r, p, 2, 6)
        else true)
  }

  /** The view `p` with its memory cut off at the end of the range. */
  function Truncated(r: Range, p: Ptr): Ptr
    requires Within(r, p)
  {
    Ptr(p.mem[..r.end], p.at)
  }

  /** Sanitizing passes exactly when the table starts inside the range and
      the whole of it can be read from the range's bytes alone. */
  lemma SanitizeIffReadableInRange(r: Range, p: Ptr)
    requires Within(r, p)
    ensures Sanitize(r, p) <==> r.start <= p.at && Readable(Truncated(r, p))
  {
    var t := Truncated(r, p);
    if Fits(t, 2) {
      assert Read16(t, 0) == Read16(p, 0);
      if Fits(t, 4) { assert Read16(t, 2) == Read16(p, 2); }
      if Fits(t, 6) { assert Read16(t, 4) == Read16(p, 4); }
    }
  }

  /** A sanitized table can be read in full, so every class lookup in it
      stays in the buffer. */
  lemma SanitizedIsReadable(r: Range, p: Ptr)
    requires Within(r, p) && Sanitize(r, p)
    ensures Readable(p)
  {
    SanitizeIffReadableInRange(r, p);
    var t := Truncated(r, p);
    assert Read16(t, 0) == Read16(p, 0);
    if Format(p) == 1 { assert Read16(t, 4) == Read16(p, 4); }
    if Format(p) == 2 { assert Read16(t, 2) == Read16(p, 2); }
  }

  /** `get_size` of an encoded table is exactly the number of its bytes. */
  lemma EncodedSize(c: ClassTable)
    requires Encodable(c)
    ensures Readable(Ptr(Encode(c), 0)) && Size(Ptr(Encode(c), 0)) == |Encode(c)|
  {
    DecodeEncode(c);
  }

  /** An encoded table sanitizes in a range that holds exactly its bytes. */
  lemma EncodedSanitizes(c: ClassTable)
    requires Encodable(c)
    ensures Sanitize(Range(0, |Encode(c)|), Ptr(Encode(c), 0))
  {
    var p := Ptr(Encode(c), 0);
    DecodeEncode(c);
    SanitizeIffReadableInRange(Range(0, |p.mem|), p);
    assert Truncated(Range(0, |p.mem|), p) == p;
  }
}
