/** Range records, the six-byte (start, end, value) entries shared by format 2
    of both the Coverage table (value = startCoverageIndex) and the ClassDef
    table (value = classValue). */
module GlyphRanges {
  import opened BigEndian
  import opened Blob

  /** Glyphs `start..end` (both inclusive) and the value attached to them. */
  datatype GlyphRange = GlyphRange(start: U16, end: U16, value: U16)

  /** The range record a view points at. */
  function RangeAt(r: Ptr): GlyphRange
    requires Fits(r, 6)
  {
    GlyphRange(Read16(r, 0), Read16(r, 2), Read16(r, 4))
  }

  /** The glyph lies in the range. */
  predicate Contains(g: GlyphRange, glyph: int)
  {
    g.start <= glyph <= g.end
  }

  /** `k` is the first range of `rs` containing `glyph`. */
  predicate FirstContaining(rs: seq<GlyphRange>, glyph: int, k: int)
  {
    0 <= k < |rs| && Contains(rs[k], glyph) && forall j :: 0 <= j < k ==> !Contains(rs[j], glyph)
  }

  /** The Null range record of the newer source, `"\000\001"`: start 1, end 0. */
  const NullRange: Ptr := NullOf([0, 1, 0, 0, 0, 0])

  /** The Null range record of the older source, `"\001"`: start 256, end 0. */
  const NullRangeOld: Ptr := NullOf([1, 0, 0, 0, 0, 0])

  /** The older Null range record reads as start 256, end 0 and value 0. */
  lemma NullRangeOldFields()
    ensures Fits(NullRangeOld, 6) && RangeAt(NullRangeOld) == GlyphRange(0x100, 0, 0)
  {
  }

  /** Both Null range records start after they end, so they hold no glyph. */
  lemma NullRangesHoldNoGlyph(glyph: int)
    ensures !Contains(RangeAt(NullRange), glyph)
    ensures !Contains(RangeAt(NullRangeOld), glyph)
  {
    assert RangeAt(NullRange).start == 1 && RangeAt(NullRange).end == 0;
    NullRangeOldFields();
  }

  /** The USHORT words of a run of range records: start, end, value for each. */
  function RangeWords(rs: seq<GlyphRange>): (ws: seq<U16>)
    ensures |ws| == 3 * |rs|
    ensures forall k :: 0 <= k < |rs| ==>
              ws[3 * k] == rs[k].start && ws[3 * k + 1] == rs[k].end && ws[3 * k + 2] == rs[k].value
  {
    if rs == [] then []
    else
      var rest := RangeWords(rs[1..]);
      var ws := [rs[0].start, rs[0].end, rs[0].value] + rest;
      forall k | 1 <= k < |rs|
        ensures ws[3 * k] == rs[k].start && ws[3 * k + 1] == rs[k].end && ws[3 * k + 2] == rs[k].value
      {
        assert rs[1..][k - 1] == rs[k];
        assert ws[3 * k] == rest[3 * (k - 1)];
      }
      ws
  }

  /** In the bytes of `ws`, the range record whose first word is word `w0`
      holds the three words from `w0` on. */
  lemma RangeAtWords(ws: seq<U16>, w0: nat)
    requires w0 + 3 <= |ws|
    ensures Fits(Ptr(U16sBytes(ws), 2 * w0), 6)
    ensures RangeAt(Ptr(U16sBytes(ws), 2 * w0)) == GlyphRange(ws[w0], ws[w0 + 1], ws[w0 + 2])
  {
    var p := Ptr(U16sBytes(ws), 2 * w0);
    ReadWord(ws, w0, 0);
    ReadWord(ws, w0, 1);
    ReadWord(ws, w0, 2);
    assert Read16(p, 0) == ws[w0] && Read16(p, 2) == ws[w0 + 1] && Read16(p, 4) == ws[w0 + 2];
  }

  /** In the bytes of a format 2 table (format word, count word, then the
      records), record `k` starts at byte `4 + 6 * k` and reads back `rs[k]`. */
  lemma EncodedRange(rs: seq<GlyphRange>, k: nat, at: nat)
    requires |rs| < 0x1_0000 && k < |rs| && at == 4 + 6 * k
    ensures var b := U16sBytes([2 as U16, |rs| as U16] + RangeWords(rs));
            Fits(Ptr(b, at), 6) && RangeAt(Ptr(b, at)) == rs[k]
  {
    var ws: seq<U16> := [2 as U16, |rs| as U16] + RangeWords(rs);
    RangeTableWords(rs, k);
    RangeInWords(ws, 2 + 3 * k, at, rs[k]);
  }

  /** Record `k` of a format 2 table occupies words `2 + 3 * k ..`. */
  lemma RangeTableWords(rs: seq<GlyphRange>, k: nat)
    requires |rs| < 0x1_0000 && k < |rs|
    ensures var ws := [2 as U16, |rs| as U16] + RangeWords(rs);
            && 2 + 3 * k + 3 <= |ws|
            && ws[2 + 3 * k] == rs[k].start && ws[2 + 3 * k + 1] == rs[k].end && ws[2 + 3 * k + 2] == rs[k].value
  {
    var rw := RangeWords(rs);
    var ws := [2 as U16, |rs| as U16] + rw;
    assert ws[2 + 3 * k] == rw[3 * k];
    assert ws[2 + 3 * k + 1] == rw[3 * k + 1];
    assert ws[2 + 3 * k + 2] == rw[3 * k + 2];
  }

  /** Words `w0 .. w0 + 2` holding the fields of `g` read back as `g`. */
  lemma RangeInWords(ws: seq<U16>, w0: nat, at: nat, g: GlyphRange)
    requires w0 + 3 <= |ws| && at == 2 * w0
    requires ws[w0] == g.start && ws[w0 + 1] == g.end && ws[w0 + 2] == g.value
    ensures Fits(Ptr(U16sBytes(ws), at), 6) && RangeAt(Ptr(U16sBytes(ws), at)) == g
  {
    RangeAtWords(ws, w0);
  }

  /** The `n` range records stored from byte `at` on. */
  function RangesIn(mem: seq<Byte>, at: nat, n: nat): (rs: seq<GlyphRange>)
    requires at + 6 * n <= |mem|
    ensures |rs| == n
  {
    seq(n, k requires 0 <= k < n => RangeAt(Ptr(mem, at + 6 * k)))
  }

  /** The records of a format 2 table read back as the ranges it was built
      from. */
  lemma EncodedRanges(rs: seq<GlyphRange>)
    requires |rs| < 0x1_0000
    ensures var b := U16sBytes([2 as U16, |rs| as U16] + RangeWords(rs));
            4 + 6 * |rs| <= |b| && RangesIn(b, 4, |rs|) == rs
  {
    var b := U16sBytes([2 as U16, |rs| as U16] + RangeWords(rs));
    var decoded := RangesIn(b, 4, |rs|);
    forall k | 0 <= k < |rs|
      ensures decoded[k] == rs[k]
    {
      EncodedRange(rs, k, 4 + 6 * k);
    }
  }
}
