/** The Lookup table: a lookup type, a flag word, and offsets to the
    subtables. Layout: lookupType at 0, lookupFlag at 2, subTableCount at 4,
    USHORT subtable offsets from 6 on; in the newer source a
    markFilteringSet USHORT follows the offsets when the flag asks for it. */
module Lookup {
  import opened BigEndian
  import opened Blob
  import opened Containers
  import opened Arith

  /** The Null Lookup: six zero bytes. */
  const NullLookup: Ptr := NullOf(Zeros(6))

  /** The Null LookupSubTable: a zero format word. */
  const NullSubTable: Ptr := NullOf(Zeros(2))

  /** `get_type`: `lookupType`. */
  function LookupType(p: Ptr): U16
    requires Fits(p, 6)
  {
    Read16(p, 0)
  }

  /** `lookupFlag`, as stored. */
  function LookupFlag(p: Ptr): U16
    requires Fits(p, 6)
  {
    Read16(p, 2)
  }

  /** `get_subtable_count`: `subTableCount`. */
  function SubTableCount(p: Ptr): U16
    requires Fits(p, 6)
  {
    Read16(p, 4)
  }

  /*
   * The bits of the flag word (`LookupFlag`). `flag & b` for a single bit
   * `b == 2^k` is non-zero exactly when `(flag / 2^k) % 2 == 1`.
   */

  /** `is_right_to_left`: bit 0x0001. */
  predicate RightToLeft(flag: U16)
  {
    flag % 2 == 1
  }

  /** `ignore_base_glyphs`: bit 0x0002. */
  predicate IgnoreBaseGlyphs(flag: U16)
  {
    (flag / 2) % 2 == 1
  }

  /** `ignore_ligatures`: bit 0x0004. */
  predicate IgnoreLigatures(flag: U16)
  {
    (flag / 4) % 2 == 1
  }

  /** `ignore_marks`: bit 0x0008. */
  predicate IgnoreMarks(flag: U16)
  {
    (flag / 8) % 2 == 1
  }

  /** `UseMarkFilteringSet` of the newer source: bit 0x0010. */
  predicate UseMarkFilteringSet(flag: U16)
  {
    (flag / 0x10) % 2 == 1
  }

  /** `flag & Reserved` in the older source, where Reserved is 0x00F0. */
  function ReservedOld(flag: U16): U16
  {
    ((flag / 0x10) % 0x10) * 0x10
  }

  /** `flag & Reserved` in the newer source, where Reserved is 0x00E0. */
  function Reserved(flag: U16): U16
  {
    ((flag / 0x20) % 8) * 0x20
  }

  /** `get_mark_attachment_type`: `flag & 0xFF00`. */
  function MarkAttachmentType(flag: U16): U16
  {
    (flag / 0x100) * 0x100
  }

  /** 1 for a set bit, 0 for a clear one. */
  function BitValue(b: bool): nat
  {
    if b then 1 else 0
  }

  /** The flag word is exactly the sum of its parts: the four single-bit
      flags, the reserved bits, and the mark attachment type. The older
      reserved nibble 0x00F0 is the newer UseMarkFilteringSet bit plus the
      newer reserved bits 0x00E0. */
  lemma FlagParts(flag: U16)
    ensures flag == BitValue(RightToLeft(flag)) + 2 * BitValue(IgnoreBaseGlyphs(flag))
                    + 4 * BitValue(IgnoreLigatures(flag)) + 8 * BitValue(IgnoreMarks(flag))
                    + ReservedOld(flag) + MarkAttachmentType(flag)
    ensures ReservedOld(flag) == 0x10 * BitValue(UseMarkFilteringSet(flag)) + Reserved(flag)
  {
    var h1 := flag / 2;
    var h2 := h1 / 2;
    var h3 := h2 / 2;
    var h4 := h3 / 2;
    var h5 := h4 / 2;
    var h8 := h5 / 8;
    DivDiv(flag, 2, 2);
    DivDiv(flag, 4, 2);
    DivDiv(flag, 8, 2);
    DivDiv(flag, 16, 2);
    DivDiv(flag, 32, 8);
    assert h4 == 16 * h8 + (2 * (h5 % 8) + h4 % 2);
    DivUnique(h4, 16, h8, 2 * (h5 % 8) + h4 % 2);
  }

  /** The header and the subtable offsets lie in memory: all that the older
      accessors, and `get_subtable` in both sources, read. */
  predicate OffsetsReadable(p: Ptr)
  {
    Fits(p, 6) && Fits(p, 6 + 2 * SubTableCount(p))
  }

  /** In addition, when the flag announces it, the markFilteringSet word of
      the newer source lies in memory. */
  predicate Readable(p: Ptr)
  {
    && OffsetsReadable(p)
    && (UseMarkFilteringSet(LookupFlag(p)) ==> Fits(p, 6 + 2 * SubTableCount(p) + 2))
  }

  /** `get_subtable(i)`: the subtable slot `i` points at, Null past the end
      or for a zero offset. Slot offsets count from the start of the
      Lookup. */
  function SubTableAt(p: Ptr, i: nat): (s: Ptr)
    requires OffsetsReadable(p)
    ensures i < SubTableCount(p) ==> Fits(p, 6 + 2 * i + 2) && s == Resolve(p, Read16(p, 6 + 2 * i), NullSubTable)
    ensures i >= SubTableCount(p) ==> s == NullSubTable
  {
    OffsetItem(p, SubTableCount(p), 6, i, NullSubTable)
  }

  /** `get_flag` in the older source: the flag word alone. */
  function GetFlagOld(p: Ptr): (flag: U16)
    requires OffsetsReadable(p)
    ensures Readable(p) ==> flag == GetFlag(p) % 0x1_0000
  {
    LookupFlag(p)
  }

  /** The markFilteringSet word: the USHORT right after the subtable offset
      array, that is after the count word and `2 * count` bytes. */
  function MarkFilteringSet(p: Ptr): U16
    requires Readable(p) && UseMarkFilteringSet(LookupFlag(p))
  {
    Read16(p, 6 + 2 * SubTableCount(p))
  }

  /** `get_flag` in the newer source: the flag word in the low 16 bits and,
      when UseMarkFilteringSet is set, the markFilteringSet index in the high
      16 bits (`flag += markFilteringSet << 16`); the sum never exceeds 32
      bits. */
  function GetFlag(p: Ptr): (flag: U32)
    requires Readable(p)
    ensures flag % 0x1_0000 == LookupFlag(p)
    ensures flag / 0x1_0000 == (if UseMarkFilteringSet(LookupFlag(p)) then MarkFilteringSet(p) else 0)
  {
    var flag := LookupFlag(p);
    if UseMarkFilteringSet(flag) then flag + Read16(p, 6 + 2 * SubTableCount(p)) * 0x1_0000 else flag
  }

  /** The newer `get_flag` extends the older one: the low 16 bits are the
      older result, and without UseMarkFilteringSet the two are equal. */
  lemma GetFlagVersions(p: Ptr)
    requires Readable(p)
    ensures GetFlag(p) % 0x1_0000 == GetFlagOld(p)
    ensures !UseMarkFilteringSet(LookupFlag(p)) ==> GetFlag(p) == GetFlagOld(p)
  {
  }

  /*
   * A lookup as a value.
   */

  /** The type, the flag, the subtable offsets, and the mark filtering set
      (stored only when the flag asks for it). */
  datatype LookupValue = LookupValue(lookupType: U16, flag: U16, subTables: seq<U16>, markFilteringSet: U16)

  /** The USHORT words of the table of `v`. */
  function Words(v: LookupValue): (ws: seq<U16>)
    requires |v.subTables| < 0x1_0000
    ensures |ws| == 3 + |v.subTables| + (if UseMarkFilteringSet(v.flag) then 1 else 0)
  {
    [v.lookupType, v.flag, |v.subTables| as U16] + v.subTables
      + (if UseMarkFilteringSet(v.flag) then [v.markFilteringSet] else [])
  }

  /** The table of a value reads back its type, its flag, every subtable,
      and the combined `get_flag` result: the flag in the low half and the
      mark filtering set in the high half exactly when the flag asks for
      it. */
  lemma LookupRoundTrip(v: LookupValue, i: nat)
    requires |v.subTables| < 0x1_0000
    ensures var p := Ptr(U16sBytes(Words(v)), 0);
            && Readable(p)
            && LookupType(p) == v.lookupType && LookupFlag(p) == v.flag && SubTableCount(p) == |v.subTables|
            && GetFlag(p) == v.flag + (if UseMarkFilteringSet(v.flag) then v.markFilteringSet * 0x1_0000 else 0)
            && (i < |v.subTables| ==> SubTableAt(p, i) == Resolve(p, v.subTables[i], NullSubTable))
            && (i >= |v.subTables| ==> SubTableAt(p, i) == NullSubTable)
  {
    var ws := Words(v);
    var n := |v.subTables|;
    ReadWord(ws, 0, 0);
    ReadWord(ws, 0, 1);
    ReadWord(ws, 0, 2);
    if UseMarkFilteringSet(v.flag) {
      ReadWord(ws, 0, 3 + n);
    }
    if i < n {
      ReadWord(ws, 0, 3 + i);
    }
  }
}
