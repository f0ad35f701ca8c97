/** One face of a font file: the OffsetTable (the sfnt header) and its table
    directory. Layout: sfnt_version tag at 0, numTables at 4, three binary
    search fields at 6..12, then `numTables` sixteen-byte TableDirectory
    entries. An entry holds a tag at 0, a checksum at 4, and the ULONG
    offset (8) and length (12) of the table, the offset counted from the
    start of the font file. */
module OffsetTable {
  import opened BigEndian
  import opened Blob
  import opened Containers

  /** The Null TableDirectory entry and the Null OffsetTable: zeros. */
  const NullTableDirectory: Ptr := NullOf(Zeros(16))
  const NullOffsetTable: Ptr := NullOf(Zeros(12))

  /*
   * TableDirectory entries.
   */

  /** `get_tag`. */
  function TableTag(e: Ptr): Tag
    requires Fits(e, 16)
  {
    ReadTag(e, 0)
  }

  /** `get_checksum`. */
  function TableCheckSum(e: Ptr): U32
    requires Fits(e, 16)
  {
    Read32(e, 4)
  }

  /** `get_offset`: from the start of the font file. */
  function TableOffset(e: Ptr): U32
    requires Fits(e, 16)
  {
    Read32(e, 8)
  }

  /** `get_length`. */
  function TableLength(e: Ptr): U32
    requires Fits(e, 16)
  {
    Read32(e, 12)
  }

  /** `TableDirectory::sanitize(base)`: the entry itself, its tag, and the
      table's bytes `[base + offset, base + offset + length)` pass the memory
      check. */
  predicate EntryOk(r: Range, e: Ptr, base: Ptr)
    requires Within(r, e)
  {
    MemOk(r, e, 0, 16) && MemOk(r, e, 0, 4) && MemOk(r, base, TableOffset(e), TableLength(e))
  }

  /** A checked entry lies in the sanitized range, and so does the table it
      describes; the separate check of the tag adds nothing to the check of
      the whole entry. */
  lemma EntryOkMeans(r: Range, e: Ptr, base: Ptr)
    requires Within(r, e)
    ensures EntryOk(r, e, base) <==>
              && r.start <= e.at && e.at + 16 <= r.end
              && r.start <= base.at + TableOffset(e) && base.at + TableOffset(e) + TableLength(e) <= r.end
  {
  }

  /*
   * The OffsetTable.
   */

  /** `sfnt_version`. */
  function SfntVersion(p: Ptr): Tag
    requires Fits(p, 12)
  {
    ReadTag(p, 0)
  }

  /** `get_table_count`: `numTables`. */
  function NumTables(p: Ptr): U16
    requires Fits(p, 12)
  {
    Read16(p, 4)
  }

  /** The header and the whole table directory lie in memory. */
  predicate Readable(p: Ptr)
  {
    Fits(p, 12) && Fits(p, 12 + 16 * NumTables(p))
  }

  /** `get_table(i)`: entry `i`, the Null entry past the end. */
  function Entry(p: Ptr, i: nat): (e: Ptr)
    requires Readable(p)
    ensures Fits(e, 16)
    ensures i < NumTables(p) ==> e == Ptr(p.mem, p.at + 12 + 16 * i)
    ensures i >= NumTables(p) ==> e == NullTableDirectory
  {
    if i < NumTables(p) then ItemInArray(p, NumTables(p), 12, 16, i, NullTableDirectory); Item(p, NumTables(p), 12, 16, i, NullTableDirectory)
    else Item(p, NumTables(p), 12, 16, i, NullTableDirectory)
  }

  /** `get_table_tag(i)`. */
  function EntryTag(p: Ptr, i: nat): Tag
    requires Readable(p)
  {
    TableTag(Entry(p, i))
  }

  /** `get_table_tag` as a function of the index. */
  function EntryTags(p: Ptr): nat -> Tag
    requires Readable(p)
  {
    (i: nat) => EntryTag(p, i)
  }

  /** `get_table` as a function of the index. */
  function Entries(p: Ptr): nat -> Ptr
    requires Readable(p)
  {
    (i: nat) => Entry(p, i)
  }

  /** `find_table_index(tag)`. */
  function FindTable(p: Ptr, t: Tag): (bool, nat)
    requires Readable(p)
  {
    FindTag(NumTables(p), EntryTags(p), t)
  }

  /** `get_table_by_tag(tag)`. */
  function TableByTag(p: Ptr, t: Tag): Ptr
    requires Readable(p)
  {
    ByTag(NumTables(p), EntryTags(p), Entries(p), t, NullTableDirectory)
  }

  /** A table tag is found exactly when some entry carries it; then the
      first such entry is reported and returned; else `NO_INDEX` is reported
      and the Null entry is returned. */
  lemma FindTableFacts(p: Ptr, t: Tag)
    requires Readable(p)
    ensures var (found, i) := FindTable(p, t);
            && (found <==> exists j :: 0 <= j < NumTables(p) && EntryTag(p, j) == t)
            && (found ==> i < NumTables(p) && EntryTag(p, i) == t && TableByTag(p, t) == Entry(p, i))
            && (found ==> forall j :: 0 <= j < i ==> EntryTag(p, j) != t)
            && (!found ==> i == NO_INDEX && TableByTag(p, t) == NullTableDirectory)
  {
    ByTagFacts(NumTables(p), EntryTags(p), Entries(p), t, NullTableDirectory);
    assert forall j: nat :: EntryTags(p)(j) == EntryTag(p, j);
    var r := FindTable(p, t);
    if r.0 {
      assert EntryTag(p, r.1) == t;
    }
  }

  /** `get_face_count` of an OffsetTable: a bare face is one face. */
  function FaceCount(p: Ptr): nat
  {
    1
  }

  /** `OffsetTable::sanitize(base)`, declaratively: the twelve-byte header,
      then the `16 * numTables` bytes of the directory, then every entry
      checked against `base`. */
  function Sanitized(r: Range, p: Ptr, base: Ptr): (ok: bool)
    requires Within(r, p)
    ensures ok ==> Readable(p) && r.start <= p.at && p.at + 12 + 16 * NumTables(p) <= r.end
  {
    && MemOk(r, p, 0, 12)
    && MemOk(r, p, 12, 16 * NumTables(p))
    && forall i :: 0 <= i < NumTables(p) ==> EntryOk(r, Entry(p, i), base)
  }

  /** `OffsetTable::sanitize(base)` as the source runs it: the header and
      directory check, then the entries in order, stopping at the first that
      fails. */
  method Sanitize(r: Range, p: Ptr, base: Ptr) returns (ok: bool)
    requires Within(r, p)
    ensures ok == Sanitized(r, p, base)
  {
    if !(MemOk(r, p, 0, 12) && MemOk(r, p, 12, 16 * NumTables(p))) {
      return false;
    }
    var count := NumTables(p);
    var i := 0;
    while i < count
      invariant 0 <= i <= count
      invariant forall j :: 0 <= j < i ==> EntryOk(r, Entry(p, j), base)
    {
      if !EntryOk(r, Entry(p, i), base) {
        return false;
      }
      i := i + 1;
    }
    return true;
  }

  /** The check of an entry depends only on the bytes of the range. */
  lemma EntryOkLocal(r: Range, m1: seq<Byte>, m2: seq<Byte>, e: nat, base: nat)
    requires Agree(r, m1, m2)
    ensures EntryOk(r, Ptr(m1, e), Ptr(m1, base)) == EntryOk(r, Ptr(m2, e), Ptr(m2, base))
  {
    if MemOk(r, Ptr(m1, e), 0, 16) {
      ReadsLocal(r, m1, m2, e, 8);
      ReadsLocal(r, m1, m2, e, 12);
    }
  }

  /** The verdict depends only on the bytes of the sanitized range: two
      memories that agree on it give the same verdict for the same
      positions. */
  lemma SanitizedLocal(r: Range, m1: seq<Byte>, m2: seq<Byte>, at: nat, base: nat)
    requires Agree(r, m1, m2)
    ensures Sanitized(r, Ptr(m1, at), Ptr(m1, base)) == Sanitized(r, Ptr(m2, at), Ptr(m2, base))
  {
    var p1, p2 := Ptr(m1, at), Ptr(m2, at);
    if MemOk(r, p1, 0, 12) {
      ReadsLocal(r, m1, m2, at, 4);
      var n: nat := NumTables(p1);
      assert NumTables(p2) == n;
      if MemOk(r, p1, 12, 16 * n) {
        MemOkFits(r, p1, 12, 16 * n);
        MemOkFits(r, p2, 12, 16 * n);
        forall i | 0 <= i < n
          ensures EntryOk(r, Entry(p1, i), Ptr(m1, base)) == EntryOk(r, Entry(p2, i), Ptr(m2, base))
        {
          assert Entry(p1, i) == Ptr(m1, at + 12 + 16 * i);
          assert Entry(p2, i) == Ptr(m2, at + 12 + 16 * i);
          EntryOkLocal(r, m1, m2, at + 12 + 16 * i, base);
        }
      }
    }
  }

  /** A sanitized face is readable, and every entry and every table it
      describes lies inside the sanitized range. */
  lemma SanitizedFaceIsInRange(r: Range, p: Ptr, base: Ptr, i: nat)
    requires Within(r, p) && Sanitized(r, p, base)
    ensures Readable(p)
    ensures i < NumTables(p) ==>
              var e := Entry(p, i);
              && r.start <= e.at && e.at + 16 <= r.end
              && r.start <= base.at + TableOffset(e) && base.at + TableOffset(e) + TableLength(e) <= r.end
  {
    if i < NumTables(p) {
      EntryOkMeans(r, Entry(p, i), base);
    }
  }

  /*
   * A face as a value.
   */

  /** One directory entry. */
  datatype TableEntry = TableEntry(tag: Tag, checkSum: U32, offset: U32, length: U32)

  /** The entry `t` is stored at byte `k` of `b`. */
  predicate EntryStored(b: seq<Byte>, k: nat, t: TableEntry)
  {
    && k + 16 <= |b|
    && TagAt(b, k) == t.tag && U32At(b, k + 4) == t.checkSum
    && U32At(b, k + 8) == t.offset && U32At(b, k + 12) == t.length
  }

  /** An entry stored in `b` is stored in any memory holding `b`. */
  lemma EntryStoredIn(mem: seq<Byte>, at: nat, b: seq<Byte>, k: nat, t: TableEntry)
    requires at + |b| <= |mem| && mem[at..at + |b|] == b && EntryStored(b, k, t)
    ensures EntryStored(mem, at + k, t)
  {
    TagIn(mem, at, b, k);
    U32In(mem, at, b, k + 4);
    U32In(mem, at, b, k + 8);
    U32In(mem, at, b, k + 12);
  }

  /** The sixteen bytes of an entry. */
  function EntryBytes(t: TableEntry): (b: seq<Byte>)
    ensures |b| == 16 && EntryStored(b, 0, t)
  {
    var tb, cb, ob, lb := TagBytes(t.tag), U32Bytes(t.checkSum), U32Bytes(t.offset), U32Bytes(t.length);
    var b := tb + cb + ob + lb;
    assert b[0..4] == tb && b[4..8] == cb && b[8..12] == ob && b[12..16] == lb;
    assert TagAt(b, 0) == t.tag by {
      assert TagBytes(TagAt(b, 0)) == tb;
    }
    U32In(b, 4, cb, 0);
    U32In(b, 8, ob, 0);
    U32In(b, 12, lb, 0);
    b
  }

  /** Entries one after another. */
  function EncodeEntries(es: seq<TableEntry>): (b: seq<Byte>)
    ensures |b| == 16 * |es|
  {
    if es == [] then [] else EntryBytes(es[0]) + EncodeEntries(es[1..])
  }

  /** Entry `i` of the encoded entries is stored at byte `16 * i`. */
  lemma {:induction false} EntryOfEntries(es: seq<TableEntry>, i: nat)
    requires i < |es|
    ensures EntryStored(EncodeEntries(es), 16 * i, es[i])
  {
    var head, rest := EntryBytes(es[0]), EncodeEntries(es[1..]);
    var b := EncodeEntries(es);
    assert b == head + rest;
    if i == 0 {
      assert b[..16] == head;
      EntryStoredIn(b, 0, head, 0, es[0]);
    } else {
      EntryOfEntries(es[1..], i - 1);
      assert es[1..][i - 1] == es[i];
      assert b[16..16 + |rest|] == rest;
      EntryStoredIn(b, 16, rest, 16 * (i - 1), es[i]);
    }
  }

  /** The fields of an entry view over stored bytes are the stored ones. */
  lemma EntryFieldsStored(e: Ptr, t: TableEntry)
    requires EntryStored(e.mem, e.at, t)
    ensures Fits(e, 16)
    ensures TableTag(e) == t.tag && TableCheckSum(e) == t.checkSum
    ensures TableOffset(e) == t.offset && TableLength(e) == t.length
  {
  }

  /** An sfnt version and the directory entries. */
  datatype FaceValue = FaceValue(sfntVersion: Tag, tables: seq<TableEntry>)

  /** The bytes of a face: the header (with zero binary search fields, which
      nothing here reads) and the directory. */
  function EncodeFace(v: FaceValue): (b: seq<Byte>)
    requires |v.tables| < 0x1_0000
    ensures |b| == 12 + 16 * |v.tables|
    ensures b[12..] == EncodeEntries(v.tables)
  {
    var b := TagBytes(v.sfntVersion) + U16Bytes(|v.tables|) + Zeros(6) + EncodeEntries(v.tables);
    assert b[12..] == EncodeEntries(v.tables);
    b
  }

  /** The header of an encoded face. */
  lemma EncodedFaceHeader(v: FaceValue)
    requires |v.tables| < 0x1_0000
    ensures var p := Ptr(EncodeFace(v), 0);
            && Readable(p) && SfntVersion(p) == v.sfntVersion && NumTables(p) == |v.tables|
  {
    var b := EncodeFace(v);
    assert b[0..4] == TagBytes(v.sfntVersion);
    assert TagBytes(TagAt(b, 0)) == TagBytes(v.sfntVersion);
    U16In(b, 4, U16Bytes(|v.tables|), 0);
  }

  /** Entry `i` of an encoded face reads back as stored. */
  lemma EncodedFaceEntry(v: FaceValue, i: nat)
    requires |v.tables| < 0x1_0000 && i < |v.tables|
    ensures var p := Ptr(EncodeFace(v), 0);
            && Readable(p)
            && i < NumTables(p)
            && EntryTag(p, i) == v.tables[i].tag
            && TableCheckSum(Entry(p, i)) == v.tables[i].checkSum
            && TableOffset(Entry(p, i)) == v.tables[i].offset
            && TableLength(Entry(p, i)) == v.tables[i].length
  {
    var b := EncodeFace(v);
    EncodedFaceHeader(v);
    DirectoryEntryStored(b, v.tables, i);
    var e := Entry(Ptr(b, 0), i);
    assert e == Ptr(b, 12 + 16 * i);
    EntryFieldsStored(e, v.tables[i]);
  }

  /** A directory stored after a twelve-byte header holds entry `i` at byte
      `12 + 16 * i`. */
  lemma DirectoryEntryStored(b: seq<Byte>, es: seq<TableEntry>, i: nat)
    requires |b| == 12 + 16 * |es| && b[12..] == EncodeEntries(es) && i < |es|
    ensures EntryStored(b, 12 + 16 * i, es[i])
  {
    var d := EncodeEntries(es);
    assert 12 + |d| == |b|;
    assert b[12..12 + |d|] == d;
    EntryOfEntries(es, i);
    EntryStoredIn(b, 12, d, 16 * i, es[i]);
  }

  /** Entry `i` of an encoded face passes the check exactly when its table
      ends inside the buffer. */
  lemma EncodedEntryOkIff(v: FaceValue, i: nat)
    requires |v.tables| < 0x1_0000 && i < |v.tables|
    ensures var b := EncodeFace(v);
            var p := Ptr(b, 0);
            && Readable(p) && i < NumTables(p)
            && (EntryOk(Range(0, |b|), Entry(p, i), p) <==> v.tables[i].offset + v.tables[i].length <= |b|)
  {
    EncodedFaceEntry(v, i);
  }

  /** A face buffer passes the check, with the buffer start as the file
      start, exactly when every table it lists ends inside the buffer. */
  lemma EncodedFaceSanitizeIff(v: FaceValue)
    requires |v.tables| < 0x1_0000
    ensures var b := EncodeFace(v);
            var p := Ptr(b, 0);
            Sanitized(Range(0, |b|), p, p) <==>
              forall i :: 0 <= i < |v.tables| ==> v.tables[i].offset + v.tables[i].length <= |b|
  {
    var b := EncodeFace(v);
    var p := Ptr(b, 0);
    var r := Range(0, |b|);
    EncodedFaceHeader(v);
    assert MemOk(r, p, 0, 12) && MemOk(r, p, 12, 16 * NumTables(p));
    forall i | 0 <= i < |v.tables|
      ensures EntryOk(r, Entry(p, i), p) <==> v.tables[i].offset + v.tables[i].length <= |b|
    {
      EncodedEntryOkIff(v, i);
    }
  }
}
