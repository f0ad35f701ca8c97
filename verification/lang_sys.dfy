/** The LangSys table: the features one language system of a script uses,
    as indices into the FeatureList, plus at most one required feature.
    Layout: lookupOrder (reserved offset) at 0, reqFeatureIndex at 2,
    featureCount at 4, the USHORT feature indices from 6 on. */
module LangSys {
  import opened BigEndian
  import opened Blob
  import opened Containers

  /** The Null LangSys: the bytes `"\0\0\xFF\xFF"` padded with zeros to the
      six-byte header, so it has no required feature and no features. */
  const NullLangSys: Ptr := NullOf([0, 0, 0xFF, 0xFF, 0, 0])

  /** The `reqFeatureIndex` value that means "no required feature". */
  const NoRequiredFeature: U16 := 0xFFFF

  /** `reqFeatureIndex`, as stored. */
  function ReqFeatureIndex(p: Ptr): U16
    requires Fits(p, 6)
  {
    Read16(p, 2)
  }

  /** `get_feature_count`: `featureCount`. */
  function FeatureCount(p: Ptr): U16
    requires Fits(p, 6)
  {
    Read16(p, 4)
  }

  /** The header and the feature index array lie in memory. */
  predicate Readable(p: Ptr)
  {
    Fits(p, 6) && Fits(p, 6 + 2 * FeatureCount(p))
  }

  /** `has_required_feature`. */
  predicate HasRequiredFeature(p: Ptr)
    requires Fits(p, 6)
  {
    ReqFeatureIndex(p) != NoRequiredFeature
  }

  /** `get_required_feature_index`: `NO_INDEX` when there is none, else the
      stored index. */
  function RequiredFeatureIndex(p: Ptr): (i: nat)
    requires Fits(p, 6)
    ensures i == NO_INDEX <==> !HasRequiredFeature(p)
    ensures HasRequiredFeature(p) ==> i == ReqFeatureIndex(p)
  {
    if ReqFeatureIndex(p) == NoRequiredFeature then NO_INDEX else ReqFeatureIndex(p)
  }

  /** Because `NO_INDEX` is the very value 0xFFFF that marks a missing
      required feature, `get_required_feature_index` always returns the
      stored field unchanged. */
  lemma RequiredFeatureIndexIsStored(p: Ptr)
    requires Fits(p, 6)
    ensures RequiredFeatureIndex(p) == ReqFeatureIndex(p)
  {
  }

  /** `get_feature_index(i)` in the older source (`DEFINE_INDEX_ARRAY_INTERFACE`):
      `NO_INDEX` past the end. */
  function FeatureIndexOld(p: Ptr, i: nat): (r: U16)
    requires Readable(p)
    ensures i < FeatureCount(p) ==> Fits(p, 6 + 2 * i + 2) && r == Read16(p, 6 + 2 * i)
    ensures i >= FeatureCount(p) ==> r == NO_INDEX
  {
    IndexItemOld(p, FeatureCount(p), 6, i)
  }

  /** `get_feature_index(i)` in the newer source (`featureIndex[i]` of an
      `ArrayOf<USHORT>`): the Null USHORT, 0, past the end. */
  function FeatureIndex(p: Ptr, i: nat): (r: U16)
    requires Readable(p)
    ensures i < FeatureCount(p) ==> r == FeatureIndexOld(p, i)
    ensures i >= FeatureCount(p) ==> r == 0
  {
    IndexItem(p, FeatureCount(p), 6, i)
  }

  /** The Null LangSys is readable and has neither a required feature nor
      any feature. */
  lemma NullLangSysIsEmpty(i: nat)
    ensures Readable(NullLangSys)
    ensures !HasRequiredFeature(NullLangSys) && RequiredFeatureIndex(NullLangSys) == NO_INDEX
    ensures FeatureCount(NullLangSys) == 0
    ensures FeatureIndexOld(NullLangSys, i) == NO_INDEX && FeatureIndex(NullLangSys, i) == 0
  {
  }

  /*
   * A language system as a value.
   */

  /** The required feature, if any, and the other feature indices in order. */
  datatype LangSysValue = LangSysValue(required: Option<U16>, features: seq<U16>)

  /** A value has a table: its required index is not the "none" marker and
      its features can be counted in a USHORT. */
  predicate Encodable(v: LangSysValue)
  {
    v.required != Some(NoRequiredFeature) && |v.features| < 0x1_0000
  }

  /** The USHORT words of the table of `v` (with a zero `lookupOrder`). */
  function Words(v: LangSysValue): (ws: seq<U16>)
    requires Encodable(v)
    ensures |ws| == 3 + |v.features|
  {
    [0 as U16, if v.required.Some? then v.required.value else NoRequiredFeature, |v.features| as U16] + v.features
  }

  /** The bytes of the table of `v`. */
  function Encode(v: LangSysValue): seq<Byte>
    requires Encodable(v)
  {
    U16sBytes(Words(v))
  }

  /** The value a table holds, read with the newer accessors. */
  function Decode(p: Ptr): LangSysValue
    requires Readable(p)
  {
    LangSysValue(if HasRequiredFeature(p) then Some(ReqFeatureIndex(p)) else None,
                 seq(FeatureCount(p), i requires 0 <= i < FeatureCount(p) => FeatureIndex(p, i)))
  }

  /** Reading the table of a value gives the value back: the required
      feature, the count and every index; past the end the older accessor
      reports `NO_INDEX` and the newer one 0. */
  lemma DecodeEncode(v: LangSysValue, i: nat)
    requires Encodable(v)
    ensures var p := Ptr(Encode(v), 0);
            && Readable(p)
            && Decode(p) == v
            && RequiredFeatureIndex(p) == (if v.required.Some? then v.required.value else NO_INDEX)
            && (i < |v.features| ==> FeatureIndexOld(p, i) == v.features[i])
            && (i >= |v.features| ==> FeatureIndexOld(p, i) == NO_INDEX)
  {
    var ws := Words(v);
    var p := Ptr(Encode(v), 0);
    ReadWord(ws, 0, 1);
    ReadWord(ws, 0, 2);
    assert Readable(p);
    forall k | 0 <= k < |v.features|
      ensures FeatureIndex(p, k) == v.features[k] && FeatureIndexOld(p, k) == v.features[k]
    {
      ReadWord(ws, 0, 3 + k);
    }
    var decoded := Decode(p);
    assert decoded.features == v.features;
  }
}
