/** The Feature table: the lookups a feature applies, as indices into the
    LookupList. Layout: featureParams offset at 0, lookupCount at 2, the
    USHORT lookup indices from 4 on. */
module Feature {
  import opened BigEndian
  import opened Blob
  import opened Containers

  /** The Null Feature: four zero bytes, no lookups. */
  const NullFeature: Ptr := NullOf(Zeros(4))

  /** `get_lookup_count`: `lookupCount`. */
  function LookupCount(p: Ptr): U16
    requires Fits(p, 4)
  {
    Read16(p, 2)
  }

  /** The header and the lookup index array lie in memory. */
  predicate Readable(p: Ptr)
  {
    Fits(p, 4) && Fits(p, 4 + 2 * LookupCount(p))
  }

  /** `get_lookup_index(i)` in the older source: `NO_INDEX` past the end. */
  function LookupIndexOld(p: Ptr, i: nat): (r: U16)
    requires Readable(p)
    ensures i < LookupCount(p) ==> Fits(p, 4 + 2 * i + 2) && r == Read16(p, 4 + 2 * i)
    ensures i >= LookupCount(p) ==> r == NO_INDEX
  {
    IndexItemOld(p, LookupCount(p), 4, i)
  }

  /** `get_lookup_index(i)` in the newer source: 0 past the end. */
  function LookupIndex(p: Ptr, i: nat): (r: U16)
    requires Readable(p)
    ensures i < LookupCount(p) ==> r == LookupIndexOld(p, i)
    ensures i >= LookupCount(p) ==> r == 0
  {
    IndexItem(p, LookupCount(p), 4, i)
  }

  /** A feature as a value: the parameters offset and the lookup indices. */
  datatype FeatureValue = FeatureValue(params: U16, lookups: seq<U16>)

  /** The USHORT words of the table of `v`. */
  function Words(v: FeatureValue): (ws: seq<U16>)
    requires |v.lookups| < 0x1_0000
    ensures |ws| == 2 + |v.lookups|
  {
    [v.params, |v.lookups| as U16] + v.lookups
  }

  /** The table of a value reads back the count and every lookup index, in
      both versions; past the end the older accessor reports `NO_INDEX` and
      the newer one 0. */
  lemma FeatureRoundTrip(v: FeatureValue, i: nat)
    requires |v.lookups| < 0x1_0000
    ensures var p := Ptr(U16sBytes(Words(v)), 0);
            && Readable(p)
            && LookupCount(p) == |v.lookups|
            && (i < |v.lookups| ==> LookupIndexOld(p, i) == v.lookups[i] && LookupIndex(p, i) == v.lookups[i])
            && (i >= |v.lookups| ==> LookupIndexOld(p, i) == NO_INDEX && LookupIndex(p, i) == 0)
  {
    var ws := Words(v);
    ReadWord(ws, 0, 1);
    if i < |v.lookups| {
      ReadWord(ws, 0, 2 + i);
    }
  }
}
