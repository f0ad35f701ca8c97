/** The Script table: an optional default language system and tagged
    records of the other language systems. Layout: defaultLangSys offset at
    0, langSysCount at 2, six-byte (Tag, Offset) records from 4 on; offsets
    count from the start of the Script. The two sources differ only in the
    tag they report past the end of the records. */
module Script {
  import opened BigEndian
  import opened Blob
  import opened Containers
  import opened LangSys

  /** The Null Script: four zero bytes, no default and no records. */
  const NullScript: Ptr := NullOf(Zeros(4))

  /** The `defaultLangSys` offset. */
  function DefaultOffset(p: Ptr): U16
    requires Fits(p, 4)
  {
    Read16(p, 0)
  }

  /** `get_lang_sys_count`: `langSysCount`. */
  function LangSysCount(p: Ptr): U16
    requires Fits(p, 4)
  {
    Read16(p, 2)
  }

  /** The header and the records lie in memory. */
  predicate Readable(p: Ptr)
  {
    Fits(p, 4) && Fits(p, 4 + 6 * LangSysCount(p))
  }

  /** `has_default_lang_sys`. */
  predicate HasDefaultLangSys(p: Ptr)
    requires Fits(p, 4)
  {
    DefaultOffset(p) != 0
  }

  /** `get_default_lang_sys`: the table the default offset points at, or the
      Null LangSys for a zero offset. */
  function DefaultLangSys(p: Ptr): (l: Ptr)
    requires Fits(p, 4)
    ensures HasDefaultLangSys(p) ==> l == Ptr(p.mem, p.at + DefaultOffset(p))
    ensures !HasDefaultLangSys(p) ==> l == NullLangSys
  {
    Resolve(p, DefaultOffset(p), NullLangSys)
  }

  /** The tag of the Null LangSysRecord: its bytes are zeros. */
  const NullRecordTag: Tag := Tag(0, 0, 0, 0)

  /** `get_lang_sys_tag(i)` in the older source (`DEFINE_RECORD_ARRAY`): the
      tag of record `i`, the Null tag (four spaces) past the end. */
  function LangSysTagOld(p: Ptr, i: nat): (t: Tag)
    requires Readable(p)
    ensures i < LangSysCount(p) ==> Fits(p, 4 + 6 * i + 4) && t == ReadTag(p, 4 + 6 * i)
    ensures i >= LangSysCount(p) ==> t == NullTag
  {
    RecordTag(p, LangSysCount(p), 4, i)
  }

  /** `get_lang_sys_tag(i)` in the newer source, `langSys[i].tag`: past the
      end `langSys[i]` is the Null LangSysRecord, whose tag is zero bytes. */
  function LangSysTag(p: Ptr, i: nat): (t: Tag)
    requires Readable(p)
    ensures i < LangSysCount(p) ==> Fits(p, 4 + 6 * i + 4) && t == ReadTag(p, 4 + 6 * i)
    ensures i >= LangSysCount(p) ==> t == NullRecordTag
  {
    if i >= LangSysCount(p) then NullRecordTag else ReadTag(p, 4 + 6 * i)
  }

  /** The two tag accessors agree on every record; past the end they
      differ: the older one reports four spaces, the newer one zero bytes. */
  lemma LangSysTagVersions(p: Ptr, i: nat)
    requires Readable(p)
    ensures i < LangSysCount(p) ==> LangSysTagOld(p, i) == LangSysTag(p, i)
    ensures i >= LangSysCount(p) ==> LangSysTagOld(p, i) != LangSysTag(p, i)
  {
  }

  /** `get_lang_sys(i)`: the default language system for `NO_INDEX`,
      otherwise the table record `i` points at (Null past the end or for a
      zero offset). The record's offset counts from the start of the
      Script. */
  function LangSysAt(p: Ptr, i: nat): (l: Ptr)
    requires Readable(p)
    ensures i == NO_INDEX ==> l == DefaultLangSys(p)
    ensures i != NO_INDEX && i < LangSysCount(p) ==>
              Fits(p, 4 + 6 * i + 6) && l == Resolve(p, Read16(p, 4 + 6 * i + 4), NullLangSys)
    ensures i != NO_INDEX && i >= LangSysCount(p) ==> l == NullLangSys
  {
    if i == NO_INDEX then DefaultLangSys(p) else RecordItem(p, LangSysCount(p), 4, i, NullLangSys)
  }

  /** `get_lang_sys_tag` as a function of the index. */
  function LangSysTags(p: Ptr): nat -> Tag
    requires Readable(p)
  {
    (i: nat) => LangSysTag(p, i)
  }

  /** `get_lang_sys` as a function of the index. */
  function LangSysTables(p: Ptr): nat -> Ptr
    requires Readable(p)
  {
    (i: nat) => LangSysAt(p, i)
  }

  /** `find_lang_sys_index(tag)`. */
  function FindLangSys(p: Ptr, t: Tag): (bool, nat)
    requires Readable(p)
  {
    FindTag(LangSysCount(p), LangSysTags(p), t)
  }

  /** `get_lang_sys_by_tag(tag)`. */
  function LangSysByTag(p: Ptr, t: Tag): Ptr
    requires Readable(p)
  {
    ByTag(LangSysCount(p), LangSysTags(p), LangSysTables(p), t, NullLangSys)
  }

  /** `NO_INDEX` selects the default language system, and, since a USHORT
      count never exceeds 0xFFFF, it is never the index of a record: every
      record index selects its record. */
  lemma NoIndexSelectsDefault(p: Ptr, i: nat)
    requires Readable(p)
    ensures LangSysAt(p, NO_INDEX) == DefaultLangSys(p)
    ensures i < LangSysCount(p) ==> LangSysAt(p, i) == Resolve(p, Read16(p, 4 + 6 * i + 4), NullLangSys)
  {
  }

  /** The lookup of a tag: when some record carries it, `find` reports the
      first such record and `by_tag` returns that record's table; when none
      does, `find` reports `NO_INDEX`, so passing its index on to
      `get_lang_sys` yields the default language system, while `by_tag`
      yields the Null LangSys. */
  lemma FindLangSysFacts(p: Ptr, t: Tag)
    requires Readable(p)
    ensures var (found, i) := FindLangSys(p, t);
            && (found <==> exists j :: 0 <= j < LangSysCount(p) && LangSysTag(p, j) == t)
            && (found ==> i < LangSysCount(p) && LangSysTag(p, i) == t && LangSysByTag(p, t) == LangSysAt(p, i))
            && (found ==> forall j :: 0 <= j < i ==> LangSysTag(p, j) != t)
            && (!found ==> LangSysAt(p, i) == DefaultLangSys(p) && LangSysByTag(p, t) == NullLangSys)
  {
    ByTagFacts(LangSysCount(p), LangSysTags(p), LangSysTables(p), t, NullLangSys);
    assert forall j: nat :: LangSysTags(p)(j) == LangSysTag(p, j);
    var r := FindLangSys(p, t);
    if r.0 {
      assert LangSysTag(p, r.1) == t;
    }
  }

  /*
   * A script as a value.
   */

  /** The default offset and the language-system records. */
  datatype ScriptValue = ScriptValue(defaultOffset: U16, records: seq<Record>)

  /** A value has a table when its records can be counted in a USHORT. */
  predicate Encodable(v: ScriptValue)
  {
    |v.records| < 0x1_0000
  }

  /** The bytes of the table of `v`. */
  function Encode(v: ScriptValue): (b: seq<Byte>)
    requires Encodable(v)
    ensures |b| == 4 + 6 * |v.records|
    ensures b[0..0 + |U16Bytes(v.defaultOffset)|] == U16Bytes(v.defaultOffset)
    ensures b[2..2 + 2 + 6 * |v.records|] == EncodeRecordList(v.records)
  {
    var b := U16Bytes(v.defaultOffset) + EncodeRecordList(v.records);
    assert b[0..2] == U16Bytes(v.defaultOffset);
    assert b[2..2 + 2 + 6 * |v.records|] == EncodeRecordList(v.records);
    b
  }

  /** The table of a value reads back its default, its count, and every
      record's tag and table. */
  lemma ScriptRoundTrip(v: ScriptValue, i: nat)
    requires Encodable(v)
    ensures var p := Ptr(Encode(v), 0);
            && Readable(p)
            && (HasDefaultLangSys(p) <==> v.defaultOffset != 0)
            && DefaultLangSys(p) == Resolve(p, v.defaultOffset, NullLangSys)
            && LangSysCount(p) == |v.records|
            && (i < |v.records| ==> LangSysTagOld(p, i) == v.records[i].tag)
            && (i < |v.records| ==> LangSysAt(p, i) == Resolve(p, v.records[i].offset, NullLangSys))
  {
    var b := Encode(v);
    var n := |v.records|;
    var p, list := Ptr(b, 0), Ptr(b, 2);
    U16In(b, 0, U16Bytes(v.defaultOffset), 0);
    RecordListIn(b, 2, v.records, i);
    assert LangSysCount(p) == Read16(list, 0) == n;
    if i < n {
      assert LangSysTagOld(p, i) == RecordTag(list, n, 2, i);
      assert Read16(p, 4 + 6 * i + 4) == Read16(list, 2 + 6 * i + 4);
    }
  }
}
