/** The generic containers every table is built from: inline arrays, arrays
    of offsets, arrays of (Tag, Offset) records, index arrays, and the linear
    tag search over any of them. Indexing past the end, or through a zero
    offset, yields the element type's Null instance instead of failing. */
module Containers {
  import opened BigEndian
  import opened Blob
  import opened Arith

  /** Inline array indexing (`DEFINE_INDEX_OPERATOR`, `ArrayOf<T>::operator[]`):
      element `i` of `count` elements of `size` bytes starting at byte
      `first`, or the Null instance when `i >= count`. */
  function Item(p: Ptr, count: nat, first: nat, size: nat, i: nat, nil: Ptr): Ptr
  {
    if i >= count then nil else Ptr(p.mem, p.at + first + size * i)
  }

  /** Every element an in-bounds inline array hands out lies inside the array,
      hence inside its memory. */
  lemma ItemInArray(p: Ptr, count: nat, first: nat, size: nat, i: nat, nil: Ptr)
    requires Fits(p, first + size * count)
    requires i < count
    ensures Item(p, count, first, size, i, nil).mem == p.mem
    ensures Item(p, count, first, size, i, nil).at + size <= p.at + first + size * count
    ensures Fits(Item(p, count, first, size, i, nil), size)
  {
    MulMono(size, i + 1, count);
    assert size * (i + 1) == size * i + size;
  }

  /** Offset-array indexing (`DEFINE_OFFSET_INDEX_OPERATOR`,
      `OffsetListOf<T>::operator[]`): slot `i` of `count` USHORT offsets at
      `first`, resolved against the holding structure, or Null past the end
      or for a zero offset. */
  function OffsetItem(p: Ptr, count: nat, first: nat, i: nat, nil: Ptr): Ptr
    requires Fits(p, first + 2 * count)
  {
    if i >= count then nil else Resolve(p, Read16(p, first + 2 * i), nil)
  }

  /** The same for an array of ULONG offsets (`LongOffsetLongArrayOf<T>`). */
  function LongOffsetItem(p: Ptr, count: nat, first: nat, i: nat, nil: Ptr): Ptr
    requires Fits(p, first + 4 * count)
  {
    if i >= count then nil else Resolve(p, Read32(p, first + 4 * i), nil)
  }

  /** Record indexing (`DEFINE_RECORD_ACCESSOR`, `RecordListOf<T>::operator[]`):
      record `i` of `count` six-byte (Tag, Offset) records at `first`; its
      offset is resolved against the structure holding the records. */
  function RecordItem(p: Ptr, count: nat, first: nat, i: nat, nil: Ptr): Ptr
    requires Fits(p, first + 6 * count)
  {
    if i >= count then nil else Resolve(p, Read16(p, first + 6 * i + 4), nil)
  }

  /** The tag of record `i` (`get_tag`), or the Null tag past the end. */
  function RecordTag(p: Ptr, count: nat, first: nat, i: nat): Tag
    requires Fits(p, first + 6 * count)
  {
    if i >= count then NullTag else ReadTag(p, first + 6 * i)
  }

  /** The Null tag: four spaces. */
  const NullTag: Tag := Tag(0x20, 0x20, 0x20, 0x20)

  /** Element `i` of a USHORT index array in the older accessor
      (`DEFINE_INDEX_ARRAY_INTERFACE`): `NO_INDEX` past the end. */
  function IndexItemOld(p: Ptr, count: nat, first: nat, i: nat): (r: U16)
    requires Fits(p, first + 2 * count)
  {
    if i >= count then NO_INDEX else Read16(p, first + 2 * i)
  }

  /** Element `i` of an `ArrayOf<USHORT>` in the newer accessor: the Null
      USHORT, 0, past the end. */
  function IndexItem(p: Ptr, count: nat, first: nat, i: nat): (r: U16)
    requires Fits(p, first + 2 * count)
  {
    if i >= count then 0 else Read16(p, first + 2 * i)
  }

  /** The two index accessors agree on every index inside the array; past the
      end the older one reports `NO_INDEX` and the newer one 0. */
  lemma IndexItemVersions(p: Ptr, count: nat, first: nat, i: nat)
    requires Fits(p, first + 2 * count)
    ensures i < count ==> IndexItemOld(p, count, first, i) == IndexItem(p, count, first, i)
    ensures i >= count ==> IndexItemOld(p, count, first, i) == NO_INDEX && IndexItem(p, count, first, i) == 0
  {
  }

  /*
   * Tag search (`DEFINE_TAG_FIND_INTERFACE`).
   */

  /** `find_X_index(tag)`: scans `tagAt(0)`, ..., `tagAt(count - 1)` in order.
      On a hit it reports `true` and the first index holding `t`; otherwise it
      reports `false` and `NO_INDEX`. */
  function FindTag(count: nat, tagAt: nat -> Tag, t: Tag): (r: (bool, nat))
    ensures r.0 ==> r.1 < count && tagAt(r.1) == t
    ensures r.0 ==> forall j :: 0 <= j < r.1 ==> tagAt(j) != t
    ensures !r.0 ==> r.1 == NO_INDEX
    ensures !r.0 <==> forall j :: 0 <= j < count ==> tagAt(j) != t
  {
    FindTagFrom(count, tagAt, t, 0)
  }

  /** The scan from index `i` on. */
  function FindTagFrom(count: nat, tagAt: nat -> Tag, t: Tag, i: nat): (r: (bool, nat))
    requires i <= count
    decreases count - i
    ensures r.0 ==> i <= r.1 < count && tagAt(r.1) == t
    ensures r.0 ==> forall j :: i <= j < r.1 ==> tagAt(j) != t
    ensures !r.0 ==> r.1 == NO_INDEX
    ensures !r.0 <==> forall j :: i <= j < count ==> tagAt(j) != t
  {
    if i == count then (false, NO_INDEX)
    else if tagAt(i) == t then (true, i)
    else FindTagFrom(count, tagAt, t, i + 1)
  }

  /** `get_X_by_tag(tag)`: the element at the index found, or Null. */
  function ByTag(count: nat, tagAt: nat -> Tag, get: nat -> Ptr, t: Tag, nil: Ptr): Ptr
  {
    var (found, i) := FindTag(count, tagAt, t);
    if found then get(i) else nil
  }

  /** Looking an element up by tag: when some index holds the tag, the scan
      reports the first one and `by_tag` returns the element there; when
      none does, the scan reports `NO_INDEX` and `by_tag` returns Null. */
  lemma ByTagFacts(count: nat, tagAt: nat -> Tag, get: nat -> Ptr, t: Tag, nil: Ptr)
    ensures var (found, i) := FindTag(count, tagAt, t);
            && (found <==> exists j :: 0 <= j < count && tagAt(j) == t)
            && (found ==> ByTag(count, tagAt, get, t, nil) == get(i))
            && (!found ==> i == NO_INDEX && ByTag(count, tagAt, get, t, nil) == nil)
  {
    var r := FindTag(count, tagAt, t);
    if r.0 {
      assert tagAt(r.1) == t;
    }
  }

  /*
   * Record lists as values, for stating round trips.
   */

  /** One (Tag, Offset) record. */
  datatype Record = Record(tag: Tag, offset: U16)

  /** The six bytes of a record: the tag, then the offset. */
  function RecordBytes(r: Record): (b: seq<Byte>)
    ensures |b| == 6 && TagAt(b, 0) == r.tag && U16At(b, 4) == r.offset
  {
    var b := TagBytes(r.tag) + U16Bytes(r.offset);
    assert b[4..6] == U16Bytes(r.offset);
    b
  }

  /** Records one after another: record `i` starts at byte `6 * i`. */
  function EncodeRecords(recs: seq<Record>): (b: seq<Byte>)
    ensures |b| == 6 * |recs|
    ensures forall i :: 0 <= i < |recs| ==> TagAt(b, 6 * i) == recs[i].tag && U16At(b, 6 * i + 4) == recs[i].offset
  {
    if recs == [] then []
    else
      var head, rest := RecordBytes(recs[0]), EncodeRecords(recs[1..]);
      var b := head + rest;
      forall i | 1 <= i < |recs|
        ensures TagAt(b, 6 * i) == recs[i].tag && U16At(b, 6 * i + 4) == recs[i].offset
      {
        assert recs[1..][i - 1] == recs[i];
        TagIn(b, 6, rest, 6 * (i - 1));
        U16In(b, 6, rest, 6 * (i - 1) + 4);
      }
      b
  }

  /** A `RecordListOf<T>` holding `recs`: the USHORT count, then the records. */
  function EncodeRecordList(recs: seq<Record>): (b: seq<Byte>)
    requires |recs| < 0x1_0000
    ensures |b| == 2 + 6 * |recs| && U16At(b, 0) == |recs|
    ensures forall i :: 0 <= i < |recs| ==>
              TagAt(b, 2 + 6 * i) == recs[i].tag && U16At(b, 2 + 6 * i + 4) == recs[i].offset
  {
    var rest := EncodeRecords(recs);
    var b := U16Bytes(|recs|) + rest;
    forall i | 0 <= i < |recs|
      ensures TagAt(b, 2 + 6 * i) == recs[i].tag && U16At(b, 2 + 6 * i + 4) == recs[i].offset
    {
      TagIn(b, 2, rest, 6 * i);
      U16In(b, 2, rest, 6 * i + 4);
    }
    b
  }

  /** A record list stored at byte `at` of a larger memory reads back its
      count, and each record's tag and offset. */
  lemma RecordListIn(mem: seq<Byte>, at: nat, recs: seq<Record>, i: nat)
    requires |recs| < 0x1_0000
    requires at + 2 + 6 * |recs| <= |mem| && mem[at..at + 2 + 6 * |recs|] == EncodeRecordList(recs)
    ensures Fits(Ptr(mem, at), 2 + 6 * |recs|) && Read16(Ptr(mem, at), 0) == |recs|
    ensures i < |recs| ==> RecordTag(Ptr(mem, at), |recs|, 2, i) == recs[i].tag
    ensures i < |recs| ==> Read16(Ptr(mem, at), 2 + 6 * i + 4) == recs[i].offset
  {
    var p := Ptr(mem, at);
    var b := EncodeRecordList(recs);
    U16In(mem, at, b, 0);
    assert Read16(p, 0) == U16At(b, 0);
    if i < |recs| {
      var k := 2 + 6 * i;
      assert TagAt(b, k) == recs[i].tag && U16At(b, k + 4) == recs[i].offset;
      ReadTagAt(mem, at, k);
      ReadAt(mem, at, k + 4);
      TagIn(mem, at, b, k);
      U16In(mem, at, b, k + 4);
    }
  }

  /** The bytes of an offset list: the USHORT count, then the USHORT
      offsets. */
  function EncodeOffsetList(offs: seq<U16>): (b: seq<Byte>)
    requires |offs| < 0x1_0000
    ensures |b| == 2 + 2 * |offs| && U16At(b, 0) == |offs|
    ensures forall i :: 0 <= i < |offs| ==> U16At(b, 2 + 2 * i) == offs[i]
  {
    var ws := [|offs| as U16] + offs;
    var b := U16sBytes(ws);
    WordOfBytes(ws, 0);
    forall i | 0 <= i < |offs|
      ensures U16At(b, 2 + 2 * i) == offs[i]
    {
      WordOfBytes(ws, i + 1);
    }
    b
  }

  /** An offset list stored at byte `at` of a larger memory reads back its
      count and each offset resolved against the list. */
  lemma OffsetListIn(mem: seq<Byte>, at: nat, offs: seq<U16>, i: nat, nil: Ptr)
    requires |offs| < 0x1_0000
    requires at + 2 + 2 * |offs| <= |mem| && mem[at..at + 2 + 2 * |offs|] == EncodeOffsetList(offs)
    ensures Fits(Ptr(mem, at), 2 + 2 * |offs|) && Read16(Ptr(mem, at), 0) == |offs|
    ensures i < |offs| ==> OffsetItem(Ptr(mem, at), |offs|, 2, i, nil) == Resolve(Ptr(mem, at), offs[i], nil)
  {
    var b := EncodeOffsetList(offs);
    U16In(mem, at, b, 0);
    if i < |offs| {
      U16In(mem, at, b, 2 + 2 * i);
    }
  }

  /** Reading an encoded record list back gives its count, each record's tag,
      and each record's offset resolved against the list (Null for a zero
      offset, and past the end). */
  lemma RecordListRoundTrip(recs: seq<Record>, i: nat, nil: Ptr)
    requires |recs| < 0x1_0000
    ensures var p := Ptr(EncodeRecordList(recs), 0);
            && Read16(p, 0) == |recs|
            && (i < |recs| ==> RecordTag(p, |recs|, 2, i) == recs[i].tag)
            && (i < |recs| ==> RecordItem(p, |recs|, 2, i, nil) == Resolve(p, recs[i].offset, nil))
            && (i >= |recs| ==> RecordItem(p, |recs|, 2, i, nil) == nil)
  {
    var b := EncodeRecordList(recs);
    RecordListIn(b, 0, recs, i);
  }

  /** A list of script or feature records tagged `aalt`, `liga`, `kern` (in
      that order, whatever their offsets): `liga` is found at index 1, and
      `zzzz` is not found. */
  lemma FindTagExample(recs: seq<Record>)
    requires |recs| == 3
    requires recs[0].tag == TagOfChars('a', 'a', 'l', 't')
    requires recs[1].tag == TagOfChars('l', 'i', 'g', 'a')
    requires recs[2].tag == TagOfChars('k', 'e', 'r', 'n')
    ensures var p := Ptr(EncodeRecordList(recs), 0);
            && FindTag(3, (i: nat) => RecordTag(p, 3, 2, i), TagOfChars('l', 'i', 'g', 'a')) == (true, 1)
            && FindTag(3, (i: nat) => RecordTag(p, 3, 2, i), TagOfChars('z', 'z', 'z', 'z')) == (false, NO_INDEX)
  {
    var p := Ptr(EncodeRecordList(recs), 0);
    var tagAt := (i: nat) => RecordTag(p, 3, 2, i);
    RecordListRoundTrip(recs, 0, p);
    RecordListRoundTrip(recs, 1, p);
    RecordListRoundTrip(recs, 2, p);
    assert tagAt(0) == recs[0].tag && tagAt(1) == recs[1].tag && tagAt(2) == recs[2].tag;
    var liga := FindTag(3, tagAt, TagOfChars('l', 'i', 'g', 'a'));
    assert liga.0;
    assert liga.1 == 1;
  }
}
