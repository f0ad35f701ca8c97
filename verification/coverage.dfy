/** The Coverage table: the set of glyphs a lookup applies to, and the
    coverage index of each. Format 1 lists glyph ids; format 2 lists glyph
    ranges, each with the coverage index of its first glyph. Any other format
    covers nothing. */
module Coverage {
  import opened BigEndian
  import opened Blob
  import opened GlyphRanges

  /** The Null Coverage: format 0, covering nothing. */
  const NullCoverage: Ptr := NullOf(Zeros(2))

  /** The format word. */
  function Format(p: Ptr): U16
    requires Fits(p, 2)
  {
    Read16(p, 0)
  }

  /** glyphCount (format 1) or rangeCount (format 2). */
  function Count(p: Ptr): U16
    requires Fits(p, 4)
  {
    Read16(p, 2)
  }

  /** `Coverage::get_size`: the header plus the format's array, or just the
      format word for an unknown format. */
  function Size(p: Ptr): nat
    requires Fits(p, 2) && (Format(p) == 1 || Format(p) == 2 ==> Fits(p, 4))
  {
    if Format(p) == 1 then 4 + 2 * Count(p)
    else if Format(p) == 2 then 4 + 6 * Count(p)
    else 2
  }

  /** The whole table lies in its memory. */
  predicate Readable(p: Ptr)
  {
    && Fits(p, 2)
    && (Format(p) == 1 || Format(p) == 2 ==> Fits(p, 4))
    && Fits(p, Size(p))
  }

  /*
   * The table as a value.
   */

  datatype CoverageTable =
    | GlyphList(glyphs: seq<U16>)
    | RangeList(ranges: seq<GlyphRange>)
    | OtherFormat(format: U16)

  /** The glyph array of a format 1 table. */
  function Glyphs(p: Ptr): (gs: seq<U16>)
    requires Readable(p) && Format(p) == 1
    ensures |gs| == Count(p)
  {
    seq(Count(p), j requires 0 <= j < Count(p) => Read16(p, 4 + 2 * j))
  }

  /** The range records of a format 2 table. */
  function Ranges(p: Ptr): (rs: seq<GlyphRange>)
    requires Readable(p) && Format(p) == 2
    ensures |rs| == Count(p)
  {
    RangesIn(p.mem, p.at + 4, Count(p))
  }

  /** The table a readable view holds. */
  function Decode(p: Ptr): CoverageTable
    requires Readable(p)
  {
    if Format(p) == 1 then GlyphList(Glyphs(p))
    else if Format(p) == 2 then RangeList(Ranges(p))
    else OtherFormat(Format(p))
  }

  /** Tables that have an encoding: counts fit a USHORT, and an "other"
      format is not 1 or 2. */
  predicate Encodable(c: CoverageTable)
  {
    match c
    case GlyphList(gs) => |gs| < 0x1_0000
    case RangeList(rs) => |rs| < 0x1_0000
    case OtherFormat(f) => f != 1 && f != 2
  }

  /** The words of a table's encoding. */
  function Words(c: CoverageTable): seq<U16>
    requires Encodable(c)
  {
    match c
    case GlyphList(gs) => [1 as U16, |gs| as U16] + gs
    case RangeList(rs) => [2 as U16, |rs| as U16] + RangeWords(rs)
    case OtherFormat(f) => [f]
  }

  /** The bytes of a table. */
  function Encode(c: CoverageTable): seq<Byte>
    requires Encodable(c)
  {
    U16sBytes(Words(c))
  }

  /** The header words of an encoded table. */
  lemma EncodedHeader(c: CoverageTable)
    requires Encodable(c)
    ensures Fits(Ptr(Encode(c), 0), 2) && Format(Ptr(Encode(c), 0)) == Words(c)[0]
    ensures !c.OtherFormat? ==> Fits(Ptr(Encode(c), 0), 4) && Count(Ptr(Encode(c), 0)) == Words(c)[1]
  {
    var ws := Words(c);
    WordOfBytes(ws, 0);
    if !c.OtherFormat? { WordOfBytes(ws, 1); }
  }

  /** Decoding an encoded glyph list gives the list back. */
  lemma DecodeEncodeGlyphs(gs: seq<U16>)
    requires |gs| < 0x1_0000
    ensures Readable(Ptr(Encode(GlyphList(gs)), 0))
    ensures Decode(Ptr(Encode(GlyphList(gs)), 0)) == GlyphList(gs)
  {
    var ws: seq<U16> := [1 as U16, |gs| as U16] + gs;
    var p := Ptr(U16sBytes(ws), 0);
    ReadWord(ws, 0, 0);
    ReadWord(ws, 0, 1);
    assert Readable(p);
    var decoded := Glyphs(p);
    forall j | 0 <= j < |gs|
      ensures decoded[j] == gs[j]
    {
      ReadWord(ws, 0, j + 2);
      assert decoded[j] == Read16(p, 2 * (j + 2));
    }
    assert decoded == gs;
  }

  /** Decoding encoded ranges gives the ranges back. */
  lemma DecodeEncodeRanges(rs: seq<GlyphRange>)
    requires |rs| < 0x1_0000
    ensures Readable(Ptr(Encode(RangeList(rs)), 0))
    ensures Decode(Ptr(Encode(RangeList(rs)), 0)) == RangeList(rs)
  {
    var ws: seq<U16> := [2 as U16, |rs| as U16] + RangeWords(rs);
    var p := Ptr(U16sBytes(ws), 0);
    ReadWord(ws, 0, 0);
    ReadWord(ws, 0, 1);
    assert Readable(p);
    EncodedRanges(rs);
  }

  /** Decoding an encoded table gives the table back. */
  lemma DecodeEncode(c: CoverageTable)
    requires Encodable(c)
    ensures Readable(Ptr(Encode(c), 0))
    ensures Decode(Ptr(Encode(c), 0)) == c
  {
    EncodedHeader(c);
    match c
    case GlyphList(gs) => DecodeEncodeGlyphs(gs);
    case RangeList(rs) => DecodeEncodeRanges(rs);
    case OtherFormat(f) =>
  }

  /*
   * The meaning of a table.
   */

  /** The table covers the glyph. */
  predicate Covers(c: CoverageTable, glyph: int)
  {
    match c
    case GlyphList(gs) => exists j :: 0 <= j < |gs| && gs[j] == glyph
    case RangeList(rs) => exists k :: 0 <= k < |rs| && Contains(rs[k], glyph)
    case OtherFormat(_) => false
  }

  /** `v` is the coverage index of the glyph: its first position in the glyph
      list, or its distance from the start of the first range holding it plus
      that range's start index. */
  predicate IsCoverageIndex(c: CoverageTable, glyph: int, v: nat)
  {
    match c
    case GlyphList(gs) =>
      v < |gs| && gs[v] == glyph && forall j :: 0 <= j < v ==> gs[j] != glyph
    case RangeList(rs) =>
      exists k :: 0 <= k < |rs| && FirstContaining(rs, glyph, k) && v == rs[k].value + (glyph - rs[k].start)
    case OtherFormat(_) => false
  }

  /*
   * Lookup.
   */

  /** The linear scan of `CoverageFormat1::get_coverage` from position `i`. */
  function ScanGlyphs(p: Ptr, gid: U16, i: nat): (r: Option<nat>)
    requires Readable(p) && Format(p) == 1 && i <= Count(p)
    decreases Count(p) - i
    ensures r.Some? ==> i <= r.value < Count(p) && Glyphs(p)[r.value] == gid
    ensures r.Some? ==> forall j :: i <= j < r.value ==> Glyphs(p)[j] != gid
    ensures r.None? <==> forall j :: i <= j < Count(p) ==> Glyphs(p)[j] != gid
  {
    if i == Count(p) then None
    else if Read16(p, 4 + 2 * i) == gid then Some(i)
    else ScanGlyphs(p, gid, i + 1)
  }

  /** `CoverageFormat1::get_coverage`: glyph ids above 0xFFFF are not covered;
      otherwise the first position holding the glyph, if any. */
  function Format1Coverage(p: Ptr, glyph: U32): (r: Option<nat>)
    requires Readable(p) && Format(p) == 1
    ensures r.None? <==> !Covers(Decode(p), glyph)
    ensures r.Some? ==> IsCoverageIndex(Decode(p), glyph, r.value)
  {
    if glyph > 0xFFFF then None else ScanGlyphs(p, glyph, 0)
  }

  /** `CoverageRangeRecord::get_coverage`: for a glyph inside the range, the
      range's start index plus the glyph's distance from the range start. */
  function RangeCoverage(r: Ptr, glyph: U32): (c: Option<nat>)
    requires Fits(r, 6)
    ensures c.Some? <==> Contains(RangeAt(r), glyph)
    ensures c.Some? ==> c.value == RangeAt(r).value + (glyph - RangeAt(r).start)
  {
    if glyph >= Read16(r, 0) && glyph <= Read16(r, 2) then Some(Read16(r, 4) + (glyph - Read16(r, 0)))
    else None
  }

  /** Neither Null range record covers any glyph. */
  lemma NullRangesCoverNothing(glyph: U32)
    ensures RangeCoverage(NullRange, glyph) == None
    ensures RangeCoverage(NullRangeOld, glyph) == None
  {
    NullRangesHoldNoGlyph(glyph);
  }

  /** The linear scan of `CoverageFormat2::get_coverage` from range `i`: the
      first range reporting a coverage index decides. */
  function ScanRanges(p: Ptr, glyph: U32, i: nat): (r: Option<nat>)
    requires Readable(p) && Format(p) == 2 && i <= Count(p)
    decreases Count(p) - i
    ensures r.None? <==> forall k :: i <= k < Count(p) ==> !Contains(Ranges(p)[k], glyph)
    ensures r.Some? ==> exists k :: i <= k < Count(p) && Contains(Ranges(p)[k], glyph)
                           && (forall j :: i <= j < k ==> !Contains(Ranges(p)[j], glyph))
                           && r.value == Ranges(p)[k].value + (glyph - Ranges(p)[k].start)
  {
    if i == Count(p) then None
    else
      var c := RangeCoverage(Ptr(p.mem, p.at + 4 + 6 * i), glyph);
      if c.Some? then
        assert Ranges(p)[i] == RangeAt(Ptr(p.mem, p.at + 4 + 6 * i));
        c
      else ScanRanges(p, glyph, i + 1)
  }

  /** `CoverageFormat2::get_coverage`. */
  function Format2Coverage(p: Ptr, glyph: U32): (r: Option<nat>)
    requires Readable(p) && Format(p) == 2
    ensures r.None? <==> !Covers(Decode(p), glyph)
    ensures r.Some? ==> IsCoverageIndex(Decode(p), glyph, r.value)
  {
    var r := ScanRanges(p, glyph, 0);
    assert r.Some? ==> exists k :: FirstContaining(Ranges(p), glyph, k)
                                   && r.value == Ranges(p)[k].value + (glyph - Ranges(p)[k].start);
    r
  }

  /** `Coverage::get_coverage`: dispatch on the format; an unknown format
      covers nothing. The result is absent exactly when the table does not
      cover the glyph, and is otherwise its coverage index. */
  function GetCoverage(p: Ptr, glyph: U32): (r: Option<nat>)
    requires Readable(p)
    ensures r.None? <==> !Covers(Decode(p), glyph)
    ensures r.Some? ==> IsCoverageIndex(Decode(p), glyph, r.value)
  {
    if Format(p) == 1 then Format1Coverage(p, glyph)
    else if Format(p) == 2 then Format2Coverage(p, glyph)
    else None
  }

  /** The coverage index is a function of the table and the glyph. */
  lemma CoverageIndexUnique(c: CoverageTable, glyph: int, v: nat, w: nat)
    requires IsCoverageIndex(c, glyph, v) && IsCoverageIndex(c, glyph, w)
    ensures v == w
  {
    match c
    case GlyphList(gs) =>
    case RangeList(rs) =>
      var k :| 0 <= k < |rs| && FirstContaining(rs, glyph, k) && v == rs[k].value + (glyph - rs[k].start);
      var m :| 0 <= m < |rs| && FirstContaining(rs, glyph, m) && w == rs[m].value + (glyph - rs[m].start);

  }

  /** The Null Coverage covers no glyph. */
  lemma NullCoverageCoversNothing(glyph: U32)
    ensures Readable(NullCoverage) && GetCoverage(NullCoverage, glyph) == None
  {
    assert Format(NullCoverage) == 0;
  }

  /** Strictly increasing glyph ids, as format 1 lists them. */
  predicate Increasing(gs: seq<U16>)
  {
    forall i, j :: 0 <= i < j < |gs| ==> gs[i] < gs[j]
  }

  /** In a sorted glyph list, the coverage index of a glyph is the one
      position holding it: the linear scan finds the same position a binary
      search would. */
  lemma SortedListIndex(p: Ptr, glyph: U32, i: nat)
    requires Readable(p) && Format(p) == 1 && Increasing(Glyphs(p))
    ensures GetCoverage(p, glyph) == Some(i) <==> i < Count(p) && Glyphs(p)[i] == glyph
  {
    var gs := Glyphs(p);
    if i < Count(p) && gs[i] == glyph {
      assert Covers(Decode(p), glyph);
    }
  }

  /** Ranges that share no glyph. */
  ghost predicate Disjoint(rs: seq<GlyphRange>)
  {
    forall i, j, glyph :: 0 <= i < j < |rs| && Contains(rs[i], glyph) ==> !Contains(rs[j], glyph)
  }

  /** With disjoint ranges, a glyph inside range `k` gets range `k`'s start
      index plus its distance from the range's start. */
  lemma DisjointRangesIndex(p: Ptr, glyph: U32, k: nat)
    requires Readable(p) && Format(p) == 2 && Disjoint(Ranges(p))
    requires k < Count(p) && Contains(Ranges(p)[k], glyph)
    ensures GetCoverage(p, glyph) == Some(Ranges(p)[k].value + (glyph - Ranges(p)[k].start))
  {
    var rs := Ranges(p);
    assert FirstContaining(rs, glyph, k);
    assert Covers(Decode(p), glyph);
    CoverageIndexUnique(Decode(p), glyph, GetCoverage(p, glyph).value, rs[k].value + (glyph - rs[k].start));
  }

  /*
   * Sanitizing.
   */

  /** `Coverage::sanitize`: the format word must lie in range; formats 1 and 2
      then check their array; any other format passes. */
  function Sanitize(r: Range, p: Ptr): (ok: bool)
    requires Within(r, p)
    ensures ok ==> r.start <= p.at && Readable(p) && p.at + Size(p) <= r.end
  {
    && MemOk(r, p, 0, 2)
    && (if Read16(p, 0) == 1 then ArrayOk(r, p, 2, 2)
        else if Read16(p, 0) == 2 then ArrayOk(r, p, 2, 6)
        else true)
  }

  /** The view `p` with its memory cut off at the end of the range. */
  function Truncated(r: Range, p: Ptr): Ptr
    requires Within(r, p)
  {
    Ptr(p.mem[..r.end], p.at)
  }

  /** Sanitizing passes exactly when the table starts inside the range and
      the whole of it can be read from the range's bytes alone; in particular
      cutting the buffer short of the table's end makes it fail. */
  lemma SanitizeIffReadableInRange(r: Range, p: Ptr)
    requires Within(r, p)
    ensures Sanitize(r, p) <==> r.start <= p.at && Readable(Truncated(r, p))
  {
    var t := Truncated(r, p);
    if Fits(t, 2) {
      assert Read16(t, 0) == Read16(p, 0);
      if Fits(t, 4) { assert Read16(t, 2) == Read16(p, 2); }
    }
  }

  /** A sanitized table can be read in full, so every lookup in it stays in
      the buffer. */
  lemma SanitizedIsReadable(r: Range, p: Ptr)
    requires Within(r, p) && Sanitize(r, p)
    ensures Readable(p)
  {
    SanitizeIffReadableInRange(r, p);
    var t := Truncated(r, p);
    assert Read16(t, 0) == Read16(p, 0);
    if Format(p) == 1 || Format(p) == 2 { assert Read16(t, 2) == Read16(p, 2); }
  }

  /** `get_size` of an encoded table is exactly the number of its bytes. */
  lemma EncodedSize(c: CoverageTable)
    requires Encodable(c)
    ensures Readable(Ptr(Encode(c), 0)) && Size(Ptr(Encode(c), 0)) == |Encode(c)|
  {
    DecodeEncode(c);
    EncodedHeader(c);
  }

  /** An encoded table sanitizes in a range that holds exactly its bytes. */
  lemma EncodedSanitizes(c: CoverageTable)
    requires Encodable(c)
    ensures Sanitize(Range(0, |Encode(c)|), Ptr(Encode(c), 0))
  {
    var p := Ptr(Encode(c), 0);
    DecodeEncode(c);
    SanitizeIffReadableInRange(Range(0, |p.mem|), p);
    assert Truncated(Range(0, |p.mem|), p) == p;
  }
}
