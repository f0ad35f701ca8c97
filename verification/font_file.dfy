/** The font file: a bare sfnt face (TrueType or CFF flavoured) or a
    TrueType Collection of faces, told apart by the four-byte tag at its
    start. A collection header holds the tag 'ttcf' at 0, a version at 4
    (major USHORT, minor USHORT), numFonts at 8 and numFonts ULONG offsets
    to the faces from 12 on, counted from the start of the file. */
module FontFile {
  import opened BigEndian
  import opened Blob
  import opened Containers
  import OffsetTable

  /** `TrueTypeTag`: 0x00010000. */
  const TrueTypeTag: Tag := Tag(0, 1, 0, 0)

  /** `CFFTag`: 'OTTO'. */
  const CFFTag: Tag := TagOfChars('O', 'T', 'T', 'O')

  /** `TTCTag`: 'ttcf'. */
  const TTCTag: Tag := TagOfChars('t', 't', 'c', 'f')

  /** The Null face. */
  const NullFace: Ptr := OffsetTable.NullOffsetTable

  /** `get_tag`: the tag the file starts with. */
  function FileTag(p: Ptr): Tag
    requires Fits(p, 4)
  {
    ReadTag(p, 0)
  }

  /** The tags of a bare face. */
  predicate IsSfnt(t: Tag)
  {
    t == TrueTypeTag || t == CFFTag
  }

  /*
   * The collection header.
   */

  /** The major version of a collection header. */
  function TTCMajor(p: Ptr): U16
    requires Fits(p, 8)
  {
    Read16(p, 4)
  }

  /** The version check made when the header is fetched: the major version
      must lie in [1, 2], or the Null header is used instead. */
  predicate MajorOk(p: Ptr)
    requires Fits(p, 8)
  {
    1 <= TTCMajor(p) <= 2
  }

  /** `numFonts`. */
  function NumFonts(p: Ptr): U32
    requires Fits(p, 12)
  {
    Read32(p, 8)
  }

  /** The collection header and its offset array lie in memory. */
  predicate TTCReadable(p: Ptr)
  {
    Fits(p, 12) && Fits(p, 12 + 4 * NumFonts(p))
  }

  /** `TTCHeader::get_face(i)` and the older `TTCHeader::operator[]`: the
      face slot `i` points at, Null past the end or for a zero offset. */
  function TTCFace(p: Ptr, i: nat): Ptr
    requires TTCReadable(p)
  {
    LongOffsetItem(p, NumFonts(p), 12, i, NullFace)
  }

  /*
   * Faces, newer source.
   */

  /** What the newer accessors read: the tag, and for a collection the
      version and, when the version is accepted, the offset array. */
  predicate Readable(p: Ptr)
  {
    && Fits(p, 4)
    && (FileTag(p) == TTCTag ==> Fits(p, 8) && (MajorOk(p) ==> TTCReadable(p)))
  }

  /** `get_face_count`: one for a bare face, `numFonts` for a collection
      with an accepted version, none otherwise. */
  function FaceCount(p: Ptr): (n: nat)
    requires Readable(p)
    ensures IsSfnt(FileTag(p)) ==> n == 1
    ensures FileTag(p) == TTCTag ==> n == if MajorOk(p) then NumFonts(p) else 0
    ensures !IsSfnt(FileTag(p)) && FileTag(p) != TTCTag ==> n == 0
  {
    var t := FileTag(p);
    if IsSfnt(t) then OffsetTable.FaceCount(p)
    else if t == TTCTag then (if MajorOk(p) then NumFonts(p) else 0)
    else 0
  }

  /** `get_face(i)`: a bare face is returned whatever the index (a dfont
      container holds several bare faces, each opened with its own index);
      for a collection, every index below the count selects its slot and
      every other index the Null face. */
  function GetFace(p: Ptr, i: nat): (f: Ptr)
    requires Readable(p)
    ensures IsSfnt(FileTag(p)) ==> f == p
    ensures !IsSfnt(FileTag(p)) && i < FaceCount(p) ==> f == Resolve(p, Read32(p, 12 + 4 * i), NullFace)
    ensures !IsSfnt(FileTag(p)) && i >= FaceCount(p) ==> f == NullFace
  {
    var t := FileTag(p);
    if IsSfnt(t) then p
    else if t == TTCTag then (if MajorOk(p) then TTCFace(p, i) else NullFace)
    else NullFace
  }

  /** `get_table_data(table)`, the same in both sources: no data for a zero
      offset, otherwise the bytes `offset` after the start of the file. */
  function GetTableData(p: Ptr, e: Ptr): (d: Option<Ptr>)
    requires Fits(e, 16)
    ensures d.None? <==> OffsetTable.TableOffset(e) == 0
    ensures d.Some? ==> d.value.mem == p.mem && d.value.at == p.at + OffsetTable.TableOffset(e)
  {
    var off := OffsetTable.TableOffset(e);
    if off == 0 then None else Some(Ptr(p.mem, p.at + off))
  }

  /*
   * Faces, older source.
   */

  /** What the older accessors read: the tag, and for a collection the
      offset array (the version is not checked). */
  predicate ReadableOld(p: Ptr)
  {
    Fits(p, 4) && (FileTag(p) == TTCTag ==> TTCReadable(p))
  }

  /** The older `get_len`: one for a bare face, `numFonts` for a collection
      whatever its version, none otherwise. */
  function FaceCountOld(p: Ptr): (n: nat)
    requires ReadableOld(p)
  {
    var t := FileTag(p);
    if IsSfnt(t) then 1 else if t == TTCTag then NumFonts(p) else 0
  }

  /** The older `operator[](i)`: the Null face for every index at or past
      the count, so a bare face answers index 0 only. */
  function GetFaceOld(p: Ptr, i: nat): (f: Ptr)
    requires ReadableOld(p)
    ensures IsSfnt(FileTag(p)) ==> f == if i == 0 then p else NullFace
    ensures FileTag(p) == TTCTag && i < NumFonts(p) ==> f == Resolve(p, Read32(p, 12 + 4 * i), NullFace)
    ensures !IsSfnt(FileTag(p)) && i >= FaceCountOld(p) ==> f == NullFace
  {
    if i >= FaceCountOld(p) then NullFace
    else if FileTag(p) == TTCTag then TTCFace(p, i)
    else p
  }

  /** The two sources agree on every face below the older count, except for
      a collection whose version the newer source rejects: it then has no
      faces. They differ past the count of a bare face, where the older
      source answers Null and the newer one the face itself. */
  lemma GetFaceVersions(p: Ptr, i: nat)
    requires Readable(p) && ReadableOld(p)
    ensures i >= FaceCountOld(p) ==> GetFaceOld(p, i) == NullFace
    ensures IsSfnt(FileTag(p)) ==> GetFace(p, i) == p && FaceCount(p) == FaceCountOld(p) == 1
    ensures !(FileTag(p) == TTCTag && !MajorOk(p)) ==>
              FaceCount(p) == FaceCountOld(p) && (i < FaceCountOld(p) ==> GetFace(p, i) == GetFaceOld(p, i))
    ensures FileTag(p) == TTCTag && !MajorOk(p) ==> FaceCount(p) == 0 && GetFace(p, i) == NullFace
    ensures !IsSfnt(FileTag(p)) && i >= FaceCountOld(p) ==> GetFace(p, i) == NullFace
  {
  }

  /*
   * Sanitizing.
   */

  /** The `OffsetTo<OffsetTable>` check of one collection slot: a zero offset
      passes; any other must lead to a face that passes its own check with
      the start of the file as its base. */
  predicate FaceOk(r: Range, p: Ptr, off: nat)
    requires Within(r, p)
  {
    off == 0 || OffsetTable.Sanitized(r, Ptr(p.mem, p.at + off), p)
  }

  /** The check of the collection's offset array: the count, the array, and
      every slot. */
  predicate OffsetsOk(r: Range, p: Ptr)
    requires Within(r, p)
  {
    && MemOk(r, p, 8, 4)
    && MemOk(r, p, 12, 4 * NumFonts(p))
    && forall i :: 0 <= i < NumFonts(p) ==> FaceOk(r, p, Read32(p, 12 + 4 * i))
  }

  /** `TTCHeader::sanitize`: the version; a collection with a version outside
      [1, 2] passes unchecked, any other must pass the offset array check. */
  function TTCSanitized(r: Range, p: Ptr): (ok: bool)
    requires Within(r, p)
    ensures ok ==> Fits(p, 8) && (MajorOk(p) ==> TTCReadable(p))
  {
    MemOk(r, p, 4, 4) && (!MajorOk(p) || OffsetsOk(r, p))
  }

  /** `OpenTypeFontFile::sanitize` as written: it looks at the tag before
      any memory check, so it reads four bytes at the start of the file even
      when they lie outside the blob. A bare face is checked with the file
      start as its base; an unknown tag passes. */
  function SanitizeAsWritten(r: Range, p: Ptr): (ok: bool)
    requires Within(r, p) && Fits(p, 4)
    ensures ok ==> Readable(p) && (IsSfnt(FileTag(p)) ==> OffsetTable.Readable(p))
  {
    var t := FileTag(p);
    if IsSfnt(t) then OffsetTable.Sanitized(r, p, p)
    else if t == TTCTag then TTCSanitized(r, p)
    else true
  }

  /** `OpenTypeFontFile::sanitize` corrected: the tag's own bytes are checked
      first. */
  function Sanitize(r: Range, p: Ptr): (ok: bool)
    requires Within(r, p)
    ensures ok ==> r.start <= p.at && Readable(p) && (IsSfnt(FileTag(p)) ==> OffsetTable.Readable(p))
  {
    MemOk(r, p, 0, 4) && SanitizeAsWritten(r, p)
  }

  /** The corrected check refuses a blob too short to hold a tag and
      otherwise agrees with the check as written. */
  lemma SanitizeRefinesAsWritten(r: Range, p: Ptr)
    requires Within(r, p)
    ensures Sanitize(r, p) ==> Fits(p, 4) && SanitizeAsWritten(r, p)
    ensures MemOk(r, p, 0, 4) ==> (Sanitize(r, p) <==> SanitizeAsWritten(r, p))
    ensures !MemOk(r, p, 0, 4) ==> !Sanitize(r, p)
  {
  }

  /** As written, an empty blob whose following memory happens to hold an
      unknown tag passes, although the file has no tag at all. */
  lemma AsWrittenAcceptsMissingTag()
    ensures var p, r := Ptr([0, 0, 0, 0], 0), Range(0, 0);
            && Within(r, p) && Fits(p, 4)
            && !MemOk(r, p, 0, 4)
            && SanitizeAsWritten(r, p)
            && !Sanitize(r, p)
  {
  }

  /** As written, the verdict on the same (empty) blob depends on the bytes
      after it: a TrueType tag there fails the face check, a zero tag
      passes. */
  lemma AsWrittenReadsOutsideBlob()
    ensures var r, m1, m2 := Range(0, 0), [0, 1, 0, 0], [0, 0, 0, 0];
            && Agree(r, m1, m2)
            && !SanitizeAsWritten(r, Ptr(m1, 0))
            && SanitizeAsWritten(r, Ptr(m2, 0))
  {
    var r, m1 := Range(0, 0), [0, 1, 0, 0];
    assert FileTag(Ptr(m1, 0)) == TrueTypeTag;
    assert !MemOk(r, Ptr(m1, 0), 0, 12);
  }

  /** A collection slot's check depends only on the bytes of the range. */
  lemma FaceOkLocal(r: Range, m1: seq<Byte>, m2: seq<Byte>, at: nat, off: nat)
    requires Agree(r, m1, m2)
    ensures FaceOk(r, Ptr(m1, at), off) == FaceOk(r, Ptr(m2, at), off)
  {
    OffsetTable.SanitizedLocal(r, m1, m2, at + off, at);
  }

  /** The collection check depends only on the bytes of the range. */
  lemma TTCSanitizedLocal(r: Range, m1: seq<Byte>, m2: seq<Byte>, at: nat)
    requires Agree(r, m1, m2)
    ensures TTCSanitized(r, Ptr(m1, at)) == TTCSanitized(r, Ptr(m2, at))
  {
    var p1, p2 := Ptr(m1, at), Ptr(m2, at);
    if MemOk(r, p1, 4, 4) {
      ReadsLocal(r, m1, m2, at, 4);
      if MemOk(r, p1, 8, 4) {
        ReadsLocal(r, m1, m2, at, 8);
        var n: nat := NumFonts(p1);
        if MemOk(r, p1, 12, 4 * n) {
          forall i | 0 <= i < n
            ensures FaceOk(r, p1, Read32(p1, 12 + 4 * i)) == FaceOk(r, p2, Read32(p2, 12 + 4 * i))
          {
            ReadsLocal(r, m1, m2, at, 12 + 4 * i);
            FaceOkLocal(r, m1, m2, at, Read32(p1, 12 + 4 * i));
          }
        }
      }
    }
  }

  /** The corrected check depends only on the bytes of the blob: two
      memories that agree on the range give the same verdict. */
  lemma SanitizeLocal(r: Range, m1: seq<Byte>, m2: seq<Byte>, at: nat)
    requires Agree(r, m1, m2)
    ensures Sanitize(r, Ptr(m1, at)) == Sanitize(r, Ptr(m2, at))
  {
    if MemOk(r, Ptr(m1, at), 0, 4) {
      ReadsLocal(r, m1, m2, at, 0);
      OffsetTable.SanitizedLocal(r, m1, m2, at, at);
      TTCSanitizedLocal(r, m1, m2, at);
    }
  }

  /** Every face a checked file hands out is the Null face or a face that
      passed its own check, in the same buffer, with the file start as the
      base of its tables. */
  lemma SanitizedFaces(r: Range, p: Ptr, i: nat)
    requires Within(r, p) && Sanitize(r, p)
    ensures Readable(p)
    ensures var f := GetFace(p, i);
            f == NullFace || (f.mem == p.mem && OffsetTable.Sanitized(r, f, p))
  {
    if FileTag(p) == TTCTag && MajorOk(p) && i < NumFonts(p) {
      assert FaceOk(r, p, Read32(p, 12 + 4 * i));
    }
  }

  /** In a checked file, every table listed by a face it hands out either
      has no data or lies wholly inside the blob. */
  lemma SanitizedTableData(r: Range, p: Ptr, i: nat, j: nat)
    requires Within(r, p) && Sanitize(r, p)
    ensures Readable(p)
    ensures var f := GetFace(p, i);
            f != NullFace ==>
              && OffsetTable.Readable(f)
              && (j < OffsetTable.NumTables(f) ==>
                    var e := OffsetTable.Entry(f, j);
                    var d := GetTableData(p, e);
                    d.Some? ==> r.start <= d.value.at && d.value.at + OffsetTable.TableLength(e) <= r.end)
  {
    SanitizedFaces(r, p, i);
    var f := GetFace(p, i);
    if f != NullFace {
      OffsetTable.SanitizedFaceIsInRange(r, f, p, j);
    }
  }

  /*
   * Files as values.
   */

  /** A bare face stored as a file reads back as one face, the file itself
      for every index, and passes the check exactly when every table it
      lists ends inside the file. */
  lemma SfntRoundTrip(v: OffsetTable.FaceValue, i: nat)
    requires |v.tables| < 0x1_0000 && IsSfnt(v.sfntVersion)
    ensures var b := OffsetTable.EncodeFace(v);
            var p := Ptr(b, 0);
            && Readable(p) && FileTag(p) == v.sfntVersion
            && FaceCount(p) == 1 && GetFace(p, i) == p
            && (Sanitize(Range(0, |b|), p) <==>
                  forall k :: 0 <= k < |v.tables| ==> v.tables[k].offset + v.tables[k].length <= |b|)
  {
    OffsetTable.EncodedFaceHeader(v);
    OffsetTable.EncodedFaceSanitizeIff(v);
  }

  /** An encoded bare face stored as a file hands out each listed table's
      data: none for a zero offset, otherwise the bytes `offset` after the
      start of the file. */
  lemma EncodedTableData(v: OffsetTable.FaceValue, k: nat)
    requires |v.tables| < 0x1_0000 && k < |v.tables|
    ensures var b := OffsetTable.EncodeFace(v);
            var p := Ptr(b, 0);
            && OffsetTable.Readable(p) && k < OffsetTable.NumTables(p)
            && GetTableData(p, OffsetTable.Entry(p, k))
                 == if v.tables[k].offset == 0 then None else Some(Ptr(b, v.tables[k].offset))
  {
    OffsetTable.EncodedFaceEntry(v, k);
  }

  /** A collection header as a value: the version and the face offsets. */
  datatype CollectionValue = CollectionValue(major: U16, minor: U16, offsets: seq<U32>)

  /** The bytes of a collection header. */
  function EncodeCollection(v: CollectionValue): (b: seq<Byte>)
    requires |v.offsets| < 0x1_0000_0000
    ensures |b| == 12 + 4 * |v.offsets|
    ensures b[12..] == U32sBytes(v.offsets)
  {
    var b := TagBytes(TTCTag) + U16Bytes(v.major) + U16Bytes(v.minor) + U32Bytes(|v.offsets|) + U32sBytes(v.offsets);
    assert b[12..] == U32sBytes(v.offsets);
    b
  }

  /** The header fields of an encoded collection. */
  lemma EncodedCollectionHeader(v: CollectionValue)
    requires |v.offsets| < 0x1_0000_0000
    ensures var p := Ptr(EncodeCollection(v), 0);
            && Fits(p, 12) && FileTag(p) == TTCTag && TTCMajor(p) == v.major && NumFonts(p) == |v.offsets|
  {
    var b := EncodeCollection(v);
    assert b[0..4] == TagBytes(TTCTag);
    assert TagBytes(TagAt(b, 0)) == TagBytes(TTCTag);
    U16In(b, 4, U16Bytes(v.major), 0);
    U32In(b, 8, U32Bytes(|v.offsets|), 0);
  }

  /** An encoded collection reads back its faces: every offset in both
      sources, provided the newer source accepts the version; with a version
      outside [1, 2] the newer source sees no faces. */
  lemma CollectionRoundTrip(v: CollectionValue, i: nat)
    requires |v.offsets| < 0x1_0000_0000
    ensures var p := Ptr(EncodeCollection(v), 0);
            && Readable(p) && ReadableOld(p)
            && FaceCountOld(p) == |v.offsets|
            && FaceCount(p) == (if 1 <= v.major <= 2 then |v.offsets| else 0)
            && (i < |v.offsets| ==> GetFaceOld(p, i) == Resolve(p, v.offsets[i], NullFace))
            && (i < |v.offsets| && 1 <= v.major <= 2 ==> GetFace(p, i) == Resolve(p, v.offsets[i], NullFace))
  {
    var b := EncodeCollection(v);
    EncodedCollectionHeader(v);
    if i < |v.offsets| {
      U32In(b, 12, U32sBytes(v.offsets), 4 * i);
    }
  }

  /** A font file as a value: a bare face, a collection header, or a file
      starting with some other tag. */
  datatype FileValue =
    | BareFace(face: OffsetTable.FaceValue)
    | CollectionFile(header: CollectionValue)
    | OtherFile(tag: Tag, rest: seq<Byte>)

  /** Values that have an encoding. */
  predicate FileEncodable(v: FileValue)
  {
    match v
    case BareFace(face) => |face.tables| < 0x1_0000 && IsSfnt(face.sfntVersion)
    case CollectionFile(h) => |h.offsets| < 0x1_0000_0000
    case OtherFile(t, _) => !IsSfnt(t) && t != TTCTag
  }

  /** The bytes of a file. */
  function EncodeFile(v: FileValue): seq<Byte>
    requires FileEncodable(v)
  {
    match v
    case BareFace(face) => OffsetTable.EncodeFace(face)
    case CollectionFile(h) => EncodeCollection(h)
    case OtherFile(t, rest) => TagBytes(t) + rest
  }

  /** The number of faces a file value holds for the newer source: one bare
      face; the offsets of a collection whose version it accepts; none
      otherwise. */
  function FacesHeld(v: FileValue): nat
  {
    match v
    case BareFace(_) => 1
    case CollectionFile(h) => if 1 <= h.major <= 2 then |h.offsets| else 0
    case OtherFile(_, _) => 0
  }

  /** `get_face_count` of a stored file is the number of faces its value
      holds, and `get_face` hands out exactly those: the file itself for a
      bare face, the stored offset's face for a collection, and the Null
      face past the count of a collection or for an unknown tag. */
  lemma FaceCountRoundTrip(v: FileValue, i: nat)
    requires FileEncodable(v)
    ensures var p := Ptr(EncodeFile(v), 0);
            && Readable(p)
            && FaceCount(p) == FacesHeld(v)
            && (v.BareFace? ==> GetFace(p, i) == p)
            && (v.CollectionFile? && i < FacesHeld(v) ==> GetFace(p, i) == Resolve(p, v.header.offsets[i], NullFace))
            && (!v.BareFace? && i >= FacesHeld(v) ==> GetFace(p, i) == NullFace)
  {
    match v
    case BareFace(face) => SfntRoundTrip(face, i);
    case CollectionFile(h) => CollectionRoundTrip(h, i);
    case OtherFile(t, rest) =>
      var b := EncodeFile(v);
      assert b[0..4] == TagBytes(t);
      assert TagBytes(TagAt(b, 0)) == TagBytes(t);
  }
}
