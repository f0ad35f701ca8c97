/** The header shared by the GSUB and GPOS tables and the three lists it
    points at. Layout of the header: a Fixed version at 0, then the offsets
    of the ScriptList (4), the FeatureList (6) and the LookupList (8), each
    counted from the start of the header; a zero offset stands for an empty
    list. ScriptList and FeatureList are a USHORT count followed by six-byte
    (Tag, Offset) records; LookupList is a USHORT count followed by USHORT
    offsets; offsets in a list count from the start of the list. */
module GsubGpos {
  import opened BigEndian
  import opened Blob
  import opened Containers
  import opened Script
  import opened Feature
  import opened Lookup

  /** `GSUBGPOS::GSUBTag`. */
  const GSUBTag: Tag := TagOfChars('G', 'S', 'U', 'B')

  /** `GSUBGPOS::GPOSTag`. */
  const GPOSTag: Tag := TagOfChars('G', 'P', 'O', 'S')

  /** The Null ScriptList, FeatureList and LookupList: a zero count. */
  const NullScriptList: Ptr := NullOf(Zeros(2))
  const NullFeatureList: Ptr := NullOf(Zeros(2))
  const NullLookupList: Ptr := NullOf(Zeros(2))

  /** The count word of a list and its `count` entries of `size` bytes lie
      in memory. */
  predicate ListReadable(l: Ptr, size: nat)
  {
    Fits(l, 2) && Fits(l, 2 + size * Read16(l, 0))
  }

  /** The table version. */
  function Version(p: Ptr): Fixed
    requires Fits(p, 10)
  {
    FixedAt(p.mem, p.at)
  }

  /** `get_script_list` (`DEFINE_LIST_ARRAY`): Null for a zero offset. */
  function ScriptList(p: Ptr): Ptr
    requires Fits(p, 10)
  {
    Resolve(p, Read16(p, 4), NullScriptList)
  }

  /** `get_feature_list`. */
  function FeatureList(p: Ptr): Ptr
    requires Fits(p, 10)
  {
    Resolve(p, Read16(p, 6), NullFeatureList)
  }

  /** `get_lookup_list`. */
  function LookupList(p: Ptr): Ptr
    requires Fits(p, 10)
  {
    Resolve(p, Read16(p, 8), NullLookupList)
  }

  /** The header and the three lists lie in memory. */
  predicate Readable(p: Ptr)
  {
    && Fits(p, 10)
    && ListReadable(ScriptList(p), 6)
    && ListReadable(FeatureList(p), 6)
    && ListReadable(LookupList(p), 2)
  }

  /*
   * Scripts.
   */

  /** `get_script_count`. */
  function ScriptCount(p: Ptr): U16
    requires Readable(p)
  {
    Read16(ScriptList(p), 0)
  }

  /** `get_script_tag(i)`: the Null tag past the end. */
  function ScriptTag(p: Ptr, i: nat): Tag
    requires Readable(p)
  {
    RecordTag(ScriptList(p), ScriptCount(p), 2, i)
  }

  /** `get_script(i)`: Null past the end or for a zero offset; a record's
      offset counts from the start of the ScriptList. */
  function ScriptAt(p: Ptr, i: nat): (s: Ptr)
    requires Readable(p)
    ensures i < ScriptCount(p) ==>
              Fits(ScriptList(p), 2 + 6 * i + 6) && s == Resolve(ScriptList(p), Read16(ScriptList(p), 2 + 6 * i + 4), NullScript)
    ensures i >= ScriptCount(p) ==> s == NullScript
  {
    RecordItem(ScriptList(p), ScriptCount(p), 2, i, NullScript)
  }

  /** `get_script_tag` as a function of the index. */
  function ScriptTags(p: Ptr): nat -> Tag
    requires Readable(p)
  {
    (i: nat) => ScriptTag(p, i)
  }

  /** `get_script` as a function of the index. */
  function ScriptTables(p: Ptr): nat -> Ptr
    requires Readable(p)
  {
    (i: nat) => ScriptAt(p, i)
  }

  /** `find_script_index(tag)`. */
  function FindScript(p: Ptr, t: Tag): (bool, nat)
    requires Readable(p)
  {
    FindTag(ScriptCount(p), ScriptTags(p), t)
  }

  /** `get_script_by_tag(tag)`. */
  function ScriptByTag(p: Ptr, t: Tag): Ptr
    requires Readable(p)
  {
    ByTag(ScriptCount(p), ScriptTags(p), ScriptTables(p), t, NullScript)
  }

  /** A script tag is found exactly when some record carries it; then the
      first such record is reported and `by_tag` returns its Script; else
      `NO_INDEX` is reported and `by_tag` returns the Null Script. */
  lemma FindScriptFacts(p: Ptr, t: Tag)
    requires Readable(p)
    ensures var (found, i) := FindScript(p, t);
            && (found <==> exists j :: 0 <= j < ScriptCount(p) && ScriptTag(p, j) == t)
            && (found ==> i < ScriptCount(p) && ScriptTag(p, i) == t && ScriptByTag(p, t) == ScriptAt(p, i))
            && (found ==> forall j :: 0 <= j < i ==> ScriptTag(p, j) != t)
            && (!found ==> i == NO_INDEX && ScriptByTag(p, t) == NullScript)
  {
    ByTagFacts(ScriptCount(p), ScriptTags(p), ScriptTables(p), t, NullScript);
    assert forall j: nat :: ScriptTags(p)(j) == ScriptTag(p, j);
    var r := FindScript(p, t);
    if r.0 {
      assert ScriptTag(p, r.1) == t;
    }
  }

  /*
   * Features.
   */

  /** `get_feature_count`. */
  function FeatureCount(p: Ptr): U16
    requires Readable(p)
  {
    Read16(FeatureList(p), 0)
  }

  /** `get_feature_tag(i)`: the Null tag past the end. */
  function FeatureTag(p: Ptr, i: nat): Tag
    requires Readable(p)
  {
    RecordTag(FeatureList(p), FeatureCount(p), 2, i)
  }

  /** `get_feature(i)`: Null past the end or for a zero offset; a record's
      offset counts from the start of the FeatureList. */
  function FeatureAt(p: Ptr, i: nat): (f: Ptr)
    requires Readable(p)
    ensures i < FeatureCount(p) ==>
              Fits(FeatureList(p), 2 + 6 * i + 6) && f == Resolve(FeatureList(p), Read16(FeatureList(p), 2 + 6 * i + 4), NullFeature)
    ensures i >= FeatureCount(p) ==> f == NullFeature
  {
    RecordItem(FeatureList(p), FeatureCount(p), 2, i, NullFeature)
  }

  /** `get_feature_tag` as a function of the index. */
  function FeatureTags(p: Ptr): nat -> Tag
    requires Readable(p)
  {
    (i: nat) => FeatureTag(p, i)
  }

  /** `get_feature` as a function of the index. */
  function FeatureTables(p: Ptr): nat -> Ptr
    requires Readable(p)
  {
    (i: nat) => FeatureAt(p, i)
  }

  /** `find_feature_index(tag)`. */
  function FindFeature(p: Ptr, t: Tag): (bool, nat)
    requires Readable(p)
  {
    FindTag(FeatureCount(p), FeatureTags(p), t)
  }

  /** `get_feature_by_tag(tag)`. */
  function FeatureByTag(p: Ptr, t: Tag): Ptr
    requires Readable(p)
  {
    ByTag(FeatureCount(p), FeatureTags(p), FeatureTables(p), t, NullFeature)
  }

  /** A feature tag is found exactly when some record carries it; then the
      first such record is reported and `by_tag` returns its Feature; else
      `NO_INDEX` is reported and `by_tag` returns the Null Feature. */
  lemma FindFeatureFacts(p: Ptr, t: Tag)
    requires Readable(p)
    ensures var (found, i) := FindFeature(p, t);
            && (found <==> exists j :: 0 <= j < FeatureCount(p) && FeatureTag(p, j) == t)
            && (found ==> i < FeatureCount(p) && FeatureTag(p, i) == t && FeatureByTag(p, t) == FeatureAt(p, i))
            && (found ==> forall j :: 0 <= j < i ==> FeatureTag(p, j) != t)
            && (!found ==> i == NO_INDEX && FeatureByTag(p, t) == NullFeature)
  {
    ByTagFacts(FeatureCount(p), FeatureTags(p), FeatureTables(p), t, NullFeature);
    assert forall j: nat :: FeatureTags(p)(j) == FeatureTag(p, j);
    var r := FindFeature(p, t);
    if r.0 {
      assert FeatureTag(p, r.1) == t;
    }
  }

  /*
   * Lookups.
   */

  /** `get_lookup_count`. */
  function LookupCount(p: Ptr): U16
    requires Readable(p)
  {
    Read16(LookupList(p), 0)
  }

  /** `get_lookup(i)`: Null past the end or for a zero offset; an offset
      counts from the start of the LookupList. */
  function LookupAt(p: Ptr, i: nat): (l: Ptr)
    requires Readable(p)
    ensures i < LookupCount(p) ==>
              Fits(LookupList(p), 2 + 2 * i + 2) && l == Resolve(LookupList(p), Read16(LookupList(p), 2 + 2 * i), NullLookup)
    ensures i >= LookupCount(p) ==> l == NullLookup
  {
    OffsetItem(LookupList(p), LookupCount(p), 2, i, NullLookup)
  }

  /** A zero list offset gives an empty list: no element, every index Null,
      every tag search failing with `NO_INDEX`. */
  lemma MissingListsAreEmpty(p: Ptr, i: nat, t: Tag)
    requires Readable(p)
    ensures Read16(p, 4) == 0 ==> ScriptCount(p) == 0 && ScriptAt(p, i) == NullScript && FindScript(p, t) == (false, NO_INDEX)
    ensures Read16(p, 6) == 0 ==> FeatureCount(p) == 0 && FeatureAt(p, i) == NullFeature && FindFeature(p, t) == (false, NO_INDEX)
    ensures Read16(p, 8) == 0 ==> LookupCount(p) == 0 && LookupAt(p, i) == NullLookup
  {
  }

  /*
   * A header with its lists, as a value.
   */

  /** The script records, the feature records and the lookup offsets. */
  datatype LayoutValue = LayoutValue(scripts: seq<Record>, features: seq<Record>, lookups: seq<U16>)

  /** Byte offsets of the three lists when they follow the header in order. */
  function ScriptListAt(v: LayoutValue): nat
  {
    10
  }

  function FeatureListAt(v: LayoutValue): nat
  {
    ScriptListAt(v) + 2 + 6 * |v.scripts|
  }

  function LookupListAt(v: LayoutValue): nat
  {
    FeatureListAt(v) + 2 + 6 * |v.features|
  }

  /** A value has a table: every list offset fits a USHORT, and so does
      every count. */
  predicate Encodable(v: LayoutValue)
  {
    LookupListAt(v) < 0x1_0000 && |v.lookups| < 0x1_0000
  }

  /** The header words: version 1.0 and the three list offsets. */
  function HeaderWords(v: LayoutValue): seq<U16>
    requires Encodable(v)
  {
    [1, 0, ScriptListAt(v), FeatureListAt(v), LookupListAt(v)]
  }

  /** The bytes: the header, then the ScriptList, the FeatureList and the
      LookupList back to back. */
  function Encode(v: LayoutValue): (b: seq<Byte>)
    requires Encodable(v)
    ensures |b| == LookupListAt(v) + 2 + 2 * |v.lookups|
    ensures b[..10] == U16sBytes(HeaderWords(v))
    ensures b[ScriptListAt(v)..FeatureListAt(v)] == EncodeRecordList(v.scripts)
    ensures b[FeatureListAt(v)..LookupListAt(v)] == EncodeRecordList(v.features)
    ensures b[LookupListAt(v)..] == EncodeOffsetList(v.lookups)
  {
    var h, s, f, l := U16sBytes(HeaderWords(v)), EncodeRecordList(v.scripts),
                      EncodeRecordList(v.features), EncodeOffsetList(v.lookups);
    var b := h + s + f + l;
    assert b[..10] == h;
    assert b[ScriptListAt(v)..FeatureListAt(v)] == s;
    assert b[FeatureListAt(v)..LookupListAt(v)] == f;
    assert b[LookupListAt(v)..] == l;
    b
  }

  /** The header of an encoded table: version 1.0 and the list views. */
  lemma EncodedHeader(v: LayoutValue)
    requires Encodable(v)
    ensures var p := Ptr(Encode(v), 0);
            && Fits(p, 10)
            && Version(p) == Fixed(1, 0)
            && ScriptList(p) == Ptr(p.mem, ScriptListAt(v))
            && FeatureList(p) == Ptr(p.mem, FeatureListAt(v))
            && LookupList(p) == Ptr(p.mem, LookupListAt(v))
  {
    var b := Encode(v);
    var ws := HeaderWords(v);
    assert |U16sBytes(ws)| == 10;
    assert b[0..0 + |U16sBytes(ws)|] == b[..10];
    WordsIn(b, 0, ws, 0);
    WordsIn(b, 0, ws, 1);
    WordsIn(b, 0, ws, 2);
    WordsIn(b, 0, ws, 3);
    WordsIn(b, 0, ws, 4);
  }

  /** An encoded table reads back every script: the count, the tags, and
      each record's Script resolved against the ScriptList. */
  lemma ScriptsRoundTrip(v: LayoutValue, i: nat)
    requires Encodable(v)
    ensures var p := Ptr(Encode(v), 0);
            && Fits(p, 10) && ListReadable(ScriptList(p), 6)
            && Read16(ScriptList(p), 0) == |v.scripts|
            && (i < |v.scripts| ==> RecordTag(ScriptList(p), |v.scripts|, 2, i) == v.scripts[i].tag)
            && (i < |v.scripts| ==>
                  RecordItem(ScriptList(p), |v.scripts|, 2, i, NullScript) == Resolve(ScriptList(p), v.scripts[i].offset, NullScript))
  {
    EncodedHeader(v);
    RecordListIn(Encode(v), ScriptListAt(v), v.scripts, i);
  }

  /** The same for the features. */
  lemma FeaturesRoundTrip(v: LayoutValue, i: nat)
    requires Encodable(v)
    ensures var p := Ptr(Encode(v), 0);
            && Fits(p, 10) && ListReadable(FeatureList(p), 6)
            && Read16(FeatureList(p), 0) == |v.features|
            && (i < |v.features| ==> RecordTag(FeatureList(p), |v.features|, 2, i) == v.features[i].tag)
            && (i < |v.features| ==>
                  RecordItem(FeatureList(p), |v.features|, 2, i, NullFeature) == Resolve(FeatureList(p), v.features[i].offset, NullFeature))
  {
    EncodedHeader(v);
    RecordListIn(Encode(v), FeatureListAt(v), v.features, i);
  }

  /** The same for the lookups. */
  lemma LookupsRoundTrip(v: LayoutValue, i: nat)
    requires Encodable(v)
    ensures var p := Ptr(Encode(v), 0);
            && Fits(p, 10) && ListReadable(LookupList(p), 2)
            && Read16(LookupList(p), 0) == |v.lookups|
            && (i < |v.lookups| ==>
                  OffsetItem(LookupList(p), |v.lookups|, 2, i, NullLookup) == Resolve(LookupList(p), v.lookups[i], NullLookup))
  {
    var b := Encode(v);
    EncodedHeader(v);
    var at := LookupListAt(v);
    var n := |v.lookups|;
    assert at + 2 + 2 * n == |b|;
    assert b[at..at + 2 + 2 * n] == b[at..];
    assert LookupList(Ptr(b, 0)) == Ptr(b, at);
    OffsetListIn(b, at, v.lookups, i, NullLookup);
  }

  /** An encoded table is readable and reads back every script, feature and
      lookup through the header's accessors. */
  lemma LayoutRoundTrip(v: LayoutValue, i: nat)
    requires Encodable(v)
    ensures var p := Ptr(Encode(v), 0);
            && Readable(p)
            && Version(p) == Fixed(1, 0)
            && ScriptCount(p) == |v.scripts| && FeatureCount(p) == |v.features| && LookupCount(p) == |v.lookups|
            && (i < |v.scripts| ==> ScriptTag(p, i) == v.scripts[i].tag)
            && (i < |v.scripts| ==> ScriptAt(p, i) == Resolve(ScriptList(p), v.scripts[i].offset, NullScript))
            && (i < |v.features| ==> FeatureTag(p, i) == v.features[i].tag)
            && (i < |v.features| ==> FeatureAt(p, i) == Resolve(FeatureList(p), v.features[i].offset, NullFeature))
            && (i < |v.lookups| ==> LookupAt(p, i) == Resolve(LookupList(p), v.lookups[i], NullLookup))
  {
    EncodedHeader(v);
    ScriptsRoundTrip(v, i);
    FeaturesRoundTrip(v, i);
    LookupsRoundTrip(v, i);
  }
}
