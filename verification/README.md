# OpenType table reading in pango, modelled in Dafny

This project models the read-only OpenType interpreter in pango's
`opentype` directory. The interpreter reads big-endian records out of an
untrusted font buffer and follows the relative offsets between them. It
has two versions of the same structures. The older one uses macros
(`hb-ot-layout-open-private.h`) and the newer one uses templates
(`hb-ot-layout-common-private.hh`, `hb-open-file-private.hh`). Where the
two differ, both are modelled and a lemma relates them.

A structure is a view `Ptr(mem, at)` into an immutable byte sequence.
`Fits(p, n)` says that `n` bytes from the view lie in memory, and
`Read16`, `Read32` and `ReadTag` read big-endian values at an offset.
A Null instance is a constant view into its own default bytes. An offset
resolves to a view into the same buffer, or to the Null view when the
offset is zero. The sanitizer works on a blob `Range(start, end)`, and
`MemOk` is its memory check: a byte span lies inside the blob.

The modules follow the program's structure:

- `BigEndian`: bytes, `USHORT`, `ULONG`, `SHORT`, `Tag` and `Fixed`.
- `Blob`: views, reads, offset resolution and the sanitizer's memory check.
- `Containers`: inline arrays, offset arrays, index arrays, tag+offset record arrays, and the linear tag search with `NO_INDEX`.
- `LangSys`, `Script`, `Feature`, `Lookup` and `GsubGpos`: the layout graph.
- `GlyphRanges`, `Coverage` and `ClassDef`: the two-format glyph tables.
- `Device`: packed delta decoding and the table size.
- `OffsetTable` and `FontFile`: the sfnt face, the TrueType Collection header, and their sanitizers.

Each table has a value datatype and an encoder. A round-trip lemma shows
that the accessors read back every field of the value: the decoder's
partner is the encoder. Each lookup is related to a declarative
definition by an if-and-only-if lemma. These are `IsCoverageIndex`,
`IsClass`, `FindTag`'s quantified contract, and `Sanitized` for the
sanitizer loop.

## Model

| member | source | states |
|---|---|---|
| BigEndian.TagValueMatchesBytes | pango/opentype/hb-ot-layout-open-private.h:312-319 | a tag's 32-bit value equals `v` exactly when the tag's four bytes are the big-endian bytes of `v`, so integer and byte-wise tag equality agree |
| BigEndian.TagOf | pango/opentype/hb-ot-layout-open-private.h:314 | building a tag from a 32-bit value gives a tag whose value is that number |
| BigEndian.TagAt | pango/opentype/hb-ot-layout-open-private.h:312-319 | the tag read at a position holds exactly the four bytes stored there |
| BigEndian.FixedValue | pango/opentype/hb-ot-layout-open-private.h:278 | the 32-bit value of a 16.16 number has the integer part as its high half and the fraction as its low half |
| BigEndian.FixedOfValue | pango/opentype/hb-ot-layout-open-private.h:277-278 | assigning the int32 value of a Fixed back to a Fixed gives the same integer and fraction parts |
| BigEndian.FixedOf | pango/opentype/hb-ot-layout-open-private.h:277 | assigning any int32 and converting back returns that int32 |
| BigEndian.S16Of | pango/opentype/hb-ot-layout-open-private.h:277 | the signed reading of a 16-bit word is congruent to it modulo 2^16 and is negative exactly when the top bit is set |
| Containers.ItemInArray | pango/opentype/hb-ot-layout-open-private.h:81-85 | an in-range item of an inline array lies inside the array's bytes in the same buffer |
| Containers.IndexItemVersions | pango/opentype/hb-ot-layout-open-private.h:125-132 | an index array read in range gives the same value in both versions; past the end the older one gives `NO_INDEX` and the newer one the Null USHORT 0 |
| Containers.FindTag | pango/opentype/hb-ot-layout-open-private.h:168-179 | the search reports found with the first index whose tag matches, or not found with `NO_INDEX` exactly when no tag matches |
| Containers.ByTagFacts | pango/opentype/hb-ot-layout-open-private.h:180-186 | `get_X_by_tag` returns the item at the found index when some tag matches, and the Null instance when none does |
| Containers.RecordListRoundTrip | pango/opentype/hb-ot-layout-common-private.hh:55-68 | an encoded record list reads back its count and every tag; an in-range record resolves its offset, and a record past the end gives the Null instance |
| Containers.OffsetListIn | pango/opentype/hb-ot-layout-common-private.hh:205-213 | an encoded offset list stored anywhere in memory reads back its count and resolves each slot's offset from the list start |
| Containers.FindTagExample | pango/opentype/hb-ot-layout-open-private.h:168-179 | searching 'aalt', 'liga', 'kern' for 'liga' finds index 1; searching for a missing tag gives `NO_INDEX` |
| LangSys.RequiredFeatureIndex | pango/opentype/hb-ot-layout-common-private.hh:87-93 | the required feature index is `NO_INDEX` exactly when there is no required feature, and otherwise the stored index |
| LangSys.FeatureIndexOld | pango/opentype/hb-ot-layout-open-private.h:125-129 | the older `get_feature_index(i)` (the interface LangSys declares at line 519) reads the USHORT at byte `6 + 2i` for an index inside the array and gives `NO_INDEX` past the end |
| LangSys.FeatureIndex | pango/opentype/hb-ot-layout-common-private.hh:84 | the newer `get_feature_index(i)` equals the older one inside the array and gives the Null USHORT 0 past the end |
| LangSys.NullLangSysIsEmpty | pango/opentype/hb-ot-layout-common-private.hh:103 | the Null LangSys has no required feature and no feature indices, in both versions' conventions |
| LangSys.DecodeEncode | pango/opentype/hb-ot-layout-open-private.h:517-546 | an encoded LangSys decodes back to its value, reports its required feature or `NO_INDEX`, and reads back every feature index |
| Script.DefaultLangSys | pango/opentype/hb-ot-layout-common-private.hh:119-120 | the default LangSys is the one at the stored offset when that offset is non-zero, and the Null LangSys otherwise |
| Script.LangSysAt | pango/opentype/hb-ot-layout-common-private.hh:108-112 | `get_lang_sys(NO_INDEX)` is the default LangSys; record `i` resolves the offset at byte `6i + 8` from the start of the Script; any other index gives the Null LangSys |
| Script.LangSysTagOld | pango/opentype/hb-ot-layout-open-private.h:561-563 | the older `get_lang_sys_tag(i)` is the tag at byte `4 + 6i` for a record inside the array and the four-space Null tag past the end |
| Script.LangSysTag | pango/opentype/hb-ot-layout-common-private.hh:114 | the newer `get_lang_sys_tag(i)` is the tag at byte `4 + 6i` for a record inside the array and, past the end, the tag of the Null record, four zero bytes |
| Script.LangSysTagVersions | pango/opentype/hb-ot-layout-common-private.hh:114 | the older and newer `get_lang_sys_tag` agree on every record and differ on every index past the end |
| Script.NoIndexSelectsDefault | pango/opentype/hb-ot-layout-common-private.hh:108-112 | asking for `NO_INDEX` gives the default LangSys; an in-range index resolves its record's offset |
| Script.FindLangSysFacts | pango/opentype/hb-ot-layout-common-private.hh:116-117 | the LangSys search finds the first matching tag; when none matches, its `NO_INDEX` result selects the default LangSys and the by-tag access gives Null |
| Script.ScriptRoundTrip | pango/opentype/hb-ot-layout-open-private.h:549-588 | an encoded Script reads back its default offset, its record count, and every record's tag and LangSys |
| Feature.FeatureRoundTrip | pango/opentype/hb-ot-layout-common-private.hh:136-149 | an encoded Feature reads back its lookup count and every lookup index in both versions; past the end the versions give `NO_INDEX` and 0 |
| Feature.LookupIndexOld | pango/opentype/hb-ot-layout-open-private.h:125-129 | the older `get_lookup_index(i)` (the interface Feature declares at line 608) reads the USHORT at byte `4 + 2i` inside the array and gives `NO_INDEX` past the end |
| Feature.LookupIndex | pango/opentype/hb-ot-layout-common-private.hh:138 | the newer `get_lookup_index(i)` equals the older one inside the array and gives the Null USHORT 0 past the end |
| Lookup.FlagParts | pango/opentype/hb-ot-layout-common-private.hh:156-166 | the flag word is the sum of its four single-bit flags, the reserved bits and the mark attachment type; the older reserved nibble 0x00F0 is the newer UseMarkFilteringSet bit plus the newer reserved bits 0x00E0 |
| Lookup.SubTableAt | pango/opentype/hb-ot-layout-common-private.hh:179 | `get_subtable(i)` resolves the USHORT offset at byte `6 + 2i` from the start of the Lookup, and gives the Null subtable past the end; it needs only the header and the offset array |
| Lookup.GetFlagOld | pango/opentype/hb-ot-layout-open-private.h:677 | the older `get_flag` needs only the header and the offset array, and on a table the newer accessors can read it is the low 16 bits of the newer `get_flag` |
| Lookup.GetFlag | pango/opentype/hb-ot-layout-common-private.hh:183-193 | the low 16 bits are the stored flag; the high 16 bits are the word right after the subtable offset array when UseMarkFilteringSet is set, and zero otherwise |
| Lookup.GetFlagVersions | pango/opentype/hb-ot-layout-open-private.h:677 | the newer `get_flag` agrees with the older one in the low 16 bits, and entirely when UseMarkFilteringSet is clear |
| Lookup.LookupRoundTrip | pango/opentype/hb-ot-layout-common-private.hh:177-202 | an encoded Lookup reads back its type, flag, subtable count and subtables, and its combined flag carries the mark filtering set exactly when the flag asks for it |
| GsubGpos.FindScriptFacts | pango/opentype/hb-ot-layout-open-private.h:968-977 | finding a script by tag gives the first matching script, or `NO_INDEX` and the Null Script when no tag matches |
| GsubGpos.FindFeatureFacts | pango/opentype/hb-ot-layout-open-private.h:969-978 | finding a feature by tag gives the first matching feature, or `NO_INDEX` and the Null Feature when no tag matches |
| GsubGpos.ScriptAt | pango/opentype/hb-ot-layout-open-private.h:145-148 | `get_script(i)` resolves record `i`'s offset from the start of the ScriptList, and gives the Null Script past the end |
| GsubGpos.FeatureAt | pango/opentype/hb-ot-layout-open-private.h:145-148 | `get_feature(i)` resolves record `i`'s offset from the start of the FeatureList, and gives the Null Feature past the end |
| GsubGpos.LookupAt | pango/opentype/hb-ot-layout-open-private.h:145-148 | `get_lookup(i)` resolves offset `i` from the start of the LookupList, and gives the Null Lookup past the end |
| GsubGpos.MissingListsAreEmpty | pango/opentype/hb-ot-layout-open-private.h:139-151 | a zero list offset gives an empty Null list, so every access through it gives Null and no search finds anything |
| GsubGpos.LayoutRoundTrip | pango/opentype/hb-ot-layout-open-private.h:961-990 | an encoded GSUB/GPOS header with its three lists reads back the version, every count, every tag and every script, feature and lookup reference |
| GlyphRanges.NullRangesHoldNoGlyph | pango/opentype/hb-ot-layout-common-private.hh:275 | the newer Null range record has start 1 and end 0, the older one start 256 and end 0, so neither contains a glyph |
| GlyphRanges.NullRangeOldFields | pango/opentype/hb-ot-layout-open-private.h:756 | the older Null range record, `"\001"` padded with zeros, reads as start 256, end 0 and value 0 |
| Coverage.Format1Coverage | pango/opentype/hb-ot-layout-common-private.hh:228-240 | format 1 finds a glyph exactly when it is covered, and then returns its coverage index; a glyph above 0xFFFF is never covered; the older lookup (hb-ot-layout-open-private.h, lines 720-730) is the same, with -1 for not covered |
| Coverage.RangeCoverage | pango/opentype/hb-ot-layout-common-private.hh:258-263 | a range record gives an index exactly when it contains the glyph, and the index is `startCoverageIndex + (glyph - start)` |
| Coverage.Format2Coverage | pango/opentype/hb-ot-layout-common-private.hh:282-293 | format 2 finds a glyph exactly when some range contains it, and returns the first such range's index plus the glyph's distance from its start; the older lookup (lines 766-774 of the older header) is the same |
| Coverage.GetCoverage | pango/opentype/hb-ot-layout-common-private.hh:312-319 | the result is the coverage index of the decoded table, or not covered exactly when the glyph is not covered; unknown formats cover nothing, as in the older dispatch (lines 796-802 of the older header) |
| Coverage.NullRangesCoverNothing | pango/opentype/hb-ot-layout-open-private.h:756 | the older and newer Null range records give not covered for every glyph |
| Coverage.CoverageIndexUnique | pango/opentype/hb-ot-layout-common-private.hh:282-293 | a glyph has at most one coverage index, since the first match decides |
| Coverage.NullCoverageCoversNothing | pango/opentype/hb-ot-layout-open-private.h:811 | the Null Coverage is readable and covers no glyph |
| Coverage.SortedListIndex | pango/opentype/hb-ot-layout-common-private.hh:228-240 | for a glyph list in strictly increasing order, the result is `i` exactly when entry `i` is the glyph |
| Coverage.DisjointRangesIndex | pango/opentype/hb-ot-layout-common-private.hh:282-293 | for pairwise disjoint ranges, a glyph in range `k` gets that range's index plus the glyph's offset in it |
| Coverage.DecodeEncode | pango/opentype/hb-ot-layout-open-private.h:712-810 | encoding any coverage table and reading it back gives the same table |
| Coverage.EncodedSize | pango/opentype/hb-ot-layout-open-private.h:788-794 | `get_size` of an encoded table is exactly its byte length, for both formats and for an unknown format |
| Coverage.Sanitize | pango/opentype/hb-ot-layout-common-private.hh:321-328 | a table that passes lies in the blob from its start to `get_size` bytes further and can be read in full |
| Coverage.SanitizeIffReadableInRange | pango/opentype/hb-ot-layout-common-private.hh:321-328 | sanitize passes exactly when the format word and the chosen format's array lie in the blob; unknown formats pass after the format word |
| Coverage.SanitizedIsReadable | pango/opentype/hb-ot-layout-common-private.hh:242-244 | a table that passes sanitize can be read by every accessor |
| Coverage.EncodedSanitizes | pango/opentype/hb-ot-layout-common-private.hh:295-297 | an encoded table passes sanitize on a blob of exactly its bytes |
| ClassDef.Format1Class | pango/opentype/hb-ot-layout-common-private.hh:349-354 | the unsigned-wrap test gives the glyph's class in the decoded table: the array entry when the glyph lies in the array's span, 0 otherwise |
| ClassDef.Format1ClassOld | pango/opentype/hb-ot-layout-open-private.h:825-829 | the older two-sided test gives the glyph's class in the decoded table |
| ClassDef.Format1Versions | pango/opentype/hb-ot-layout-common-private.hh:351 | the 32-bit unsigned-wrap test holds exactly when the older two-sided test holds, so both versions return the same class |
| ClassDef.RangeClass | pango/opentype/hb-ot-layout-common-private.hh:372-377 | a range record gives its class for a glyph it contains and 0 for any other |
| ClassDef.NullRangesClassZero | pango/opentype/hb-ot-layout-common-private.hh:388 | the older and newer Null range records give class 0 for every glyph |
| ClassDef.ScanRanges | pango/opentype/hb-ot-layout-common-private.hh:395-406 | the scan gives 0 exactly when no containing range has a positive class, and otherwise the class of the first containing range whose class is positive |
| ClassDef.Format2Class | pango/opentype/hb-ot-layout-open-private.h:865-873 | format 2 gives the glyph's class in the decoded table |
| ClassDef.GetClass | pango/opentype/hb-ot-layout-common-private.hh:423-430 | the result is the glyph's class in the decoded table; unknown formats give 0 |
| ClassDef.GetClassIsTheClass | pango/opentype/hb-ot-layout-open-private.h:894-900 | `get_class` returns `v` exactly when `v` is the glyph's class in the decoded table |
| ClassDef.ClassComesFromAnEntry | pango/opentype/hb-ot-layout-common-private.hh:395-406 | a non-zero class is stored in the array or in a range containing the glyph; a glyph outside every range has class 0 |
| ClassDef.ClassUnique | pango/opentype/hb-ot-layout-common-private.hh:395-406 | a glyph has one class |
| ClassDef.NullClassDefIsClassZero | pango/opentype/hb-ot-layout-open-private.h:909 | the Null ClassDef is readable and gives class 0 for every glyph |
| ClassDef.DecodeEncode | pango/opentype/hb-ot-layout-open-private.h:817-908 | encoding any class table and reading it back gives the same table |
| ClassDef.EncodedSize | pango/opentype/hb-ot-layout-open-private.h:886-892 | `get_size` of an encoded table is exactly its byte length, for both formats and for an unknown format |
| ClassDef.Sanitize | pango/opentype/hb-ot-layout-common-private.hh:432-439 | a table that passes lies in the blob from its start to `get_size` bytes further and can be read in full |
| ClassDef.SanitizeIffReadableInRange | pango/opentype/hb-ot-layout-common-private.hh:432-439 | sanitize passes exactly when the format word and the chosen format's header and array lie in the blob; unknown formats pass after the format word |
| ClassDef.SanitizedIsReadable | pango/opentype/hb-ot-layout-common-private.hh:356-358 | a table that passes sanitize can be read by every accessor |
| ClassDef.EncodedSanitizes | pango/opentype/hb-ot-layout-common-private.hh:408-410 | an encoded table passes sanitize on a blob of exactly its bytes |
| Device.EncodedSize | pango/opentype/hb-ot-layout-open-private.h:918-927 | `get_size` of an encoded table is exactly its byte length: the six-byte header plus one word per started group of `16 / 2^f` corrections |
| Device.WordWithinSize | pango/opentype/hb-ot-layout-open-private.h:929-935 | for every size in `[startSize, endSize]`, the word `get_delta` reads lies inside `get_size` bytes |
| Device.GetDelta | pango/opentype/hb-ot-layout-common-private.hh:457-478 | the delta is 0 outside the size range or for an unknown format; otherwise it is the stored `2^f`-bit field sign-extended, so it lies in `[-2^(2^f-1), 2^(2^f-1))` |
| Device.GetDeltaOld | pango/opentype/hb-ot-layout-open-private.h:929-947 | the older `get_delta` on a signed size gives the same 0 cases and the same sign-extended field |
| Device.GetDeltaVersions | pango/opentype/hb-ot-layout-open-private.h:929-947 | the older version at any signed size equals the newer one at that size converted to unsigned |
| Device.SignExtend | pango/opentype/hb-ot-layout-common-private.hh:472-475 | sign extension keeps a field below half the modulus and subtracts the modulus from one at or above it |
| Device.SignExtendField | pango/opentype/hb-ot-layout-common-private.hh:472-475 | storing a delta that fits the field width and sign-extending it gives the delta back |
| Device.MaskedField | pango/opentype/hb-ot-layout-common-private.hh:468-472 | shifting the word and masking with `0xFFFF >> (16 - 2^f)` gives field `j` counted from the most significant end |
| Device.PackDigit | pango/opentype/hb-ot-layout-common-private.hh:469-472 | in a word packed from fields most significant first, field `j` reads back from its shift |
| Device.GetDeltaEncoded | pango/opentype/hb-ot-layout-common-private.hh:457-478 | a Device table encoded from deltas that fit the format gives back delta `i` at size `startSize + i` |
| OffsetTable.EntryOkMeans | pango/opentype/hb-open-file-private.hh:50-53 | a table entry passes exactly when its 16 bytes and the byte span `[base + offset, base + offset + length)` lie in the blob |
| OffsetTable.Entry | pango/opentype/hb-ot-layout-open-private.h:81-85 | an in-range directory entry is the 16 bytes at `12 + 16i`; any other gives the Null entry |
| OffsetTable.FindTableFacts | pango/opentype/hb-open-file-private.hh:70-71 | finding a table by tag gives the first matching entry, or `NO_INDEX` and the Null entry when no tag matches |
| OffsetTable.Sanitize | pango/opentype/hb-open-file-private.hh:79-86 | the loop's verdict is the declarative check: the header and directory lie in the blob and every entry passes |
| OffsetTable.Sanitized | pango/opentype/hb-open-file-private.hh:79-86 | a face that passes has its twelve-byte header and its whole table directory inside the blob |
| OffsetTable.SanitizedLocal | pango/opentype/hb-open-file-private.hh:79-86 | the verdict depends only on the bytes inside the blob |
| OffsetTable.SanitizedFaceIsInRange | pango/opentype/hb-open-file-private.hh:79-86 | after a face passes, every entry and every table's byte span lie in the blob |
| OffsetTable.EncodedFaceEntry | pango/opentype/hb-ot-layout-open-private.h:375-415 | an encoded face reads back every entry's tag, checksum, offset and length |
| OffsetTable.EncodedFaceSanitizeIff | pango/opentype/hb-open-file-private.hh:79-86 | an encoded face passes on a blob of exactly its bytes exactly when every table's span ends inside it |
| FontFile.FaceCountRoundTrip | pango/opentype/hb-open-file-private.hh:147-165 | a file stored from a value has exactly the faces the value holds: one for a bare face, the offsets of a collection whose major version is 1 or 2 and none for any other version, none for an unknown tag; `get_face` hands out the file itself, each stored offset's face, or the Null face past the count |
| FontFile.GetFace | pango/opentype/hb-open-file-private.hh:155-165 | a bare face is the file itself whatever the index; a collection resolves slot `i` below the count and gives the Null face otherwise |
| FontFile.EncodedTableData | pango/opentype/hb-open-file-private.hh:168-172 | for an encoded bare face, the data of each listed table is absent exactly when its stored offset is zero and otherwise starts that many bytes after the start of the file |
| FontFile.GetFaceVersions | pango/opentype/hb-ot-layout-open-private.h:477-491 | the older and newer face accessors agree except that the newer one refuses a collection whose major version is outside [1, 2] and ignores the index for a bare face |
| FontFile.GetFaceOld | pango/opentype/hb-ot-layout-open-private.h:485-491 | the older `operator[]` gives a bare face for index 0 only, a collection's slot `i` resolved from the ULONG at byte `12 + 4i` below `numFonts`, and the Null face past the count |
| FontFile.TTCSanitized | pango/opentype/hb-open-file-private.hh:115-122 | a collection header that passes has its version in the blob and, when the version is accepted, its whole offset array |
| FontFile.SanitizeAsWritten | pango/opentype/hb-open-file-private.hh:174-180 | as written, a file that passes can be read by the newer face accessors, and a bare face also has its table directory in memory |
| FontFile.Sanitize | pango/opentype/hb-open-file-private.hh:174-180 | with the tag checked first, a file that passes starts inside the blob, can be read by the newer face accessors, and a bare face has its table directory in memory |
| FontFile.SanitizeRefinesAsWritten | pango/opentype/hb-open-file-private.hh:174-180 | the corrected check refuses a blob too short for a tag and otherwise gives the same verdict as the code as written |
| FontFile.AsWrittenReadsOutsideBlob | pango/opentype/hb-open-file-private.hh:174-180 | as written, the verdict on an empty blob depends on the bytes after it |
| FontFile.AsWrittenAcceptsMissingTag | pango/opentype/hb-open-file-private.hh:174-180 | as written, an empty blob passes although it holds no tag |
| FontFile.SanitizeLocal | pango/opentype/hb-open-file-private.hh:174-180 | the corrected check's verdict depends only on the bytes inside the blob |
| FontFile.SanitizedFaces | pango/opentype/hb-open-file-private.hh:115-122 | after a file passes, every face it yields is Null or a face that passed its own check with the file start as base |
| FontFile.SanitizedTableData | pango/opentype/hb-open-file-private.hh:168-172 | after a file passes, every table's data reached through a face lies in the blob |
| FontFile.SfntRoundTrip | pango/opentype/hb-open-file-private.hh:72 | an encoded bare face has one face, itself, and passes exactly when every table's span ends inside the file |
| FontFile.CollectionRoundTrip | pango/opentype/hb-open-file-private.hh:108-113 | an encoded collection yields each stored face offset in both versions; the newer one only when the major version is 1 or 2 |

## Left out

- `CheckSum::CalcTableChecksum` is a standalone utility. No lookup or sanitize path uses it.
- The `double` conversions of `Fixed` and `F2DOT14` are floating point. As written, they also convert the object's address rather than its value.
- Offset neutering and every other write to the buffer are left out. The model is read-only.
- The `get_for_data` NULL check, the non-const `char*` overloads, unaligned access, and pointer overflow in `this + offset` are left out. A view's position is an unbounded `nat`.
- `ArrayOf`, `OffsetTo`, `LongOffsetLongArrayOf`, `Null()` and the `SANITIZE_*` macros are defined in headers that are not part of this model. The model gives them the semantics their names and uses imply:
  - an array is a count word followed by items;
  - `SANITIZE_MEM` is containment of the byte span in the blob;
  - sanitizing an array checks its count word and then its items' bytes.
- `STATIC_DEFINE_GET_FOR_DATA_CHECK_MAJOR_VERSION` is not part of this model. The model reads it as a check of the USHORT major version at byte 4 that substitutes the Null header when the version is outside [1, 2].
- Null instances whose Null data these headers do not define are taken as zero bytes of their size; in particular the Null record the newer `Script` returns past its last LangSysRecord has a zero tag. The data the headers do define is used as given: the LangSys "\0\0\xFF\xFF", the range records, and the four-space Tag.
- The signedness of `char` in `Tag` is left out. Tag bytes are values 0 to 255.
- Every lookup is the linear scan the code uses. Binary search is only a TODO in the source.
- The encoders write searchRange, entrySelector and rangeShift as zeros. Nothing in the modelled code reads those fields.
- The GSUB/GPOS version check and the contents of lookup subtables, and so rule application, are not in the modelled code.
- LONGDATETIME, FWORD, UFWORD and the GSUB/GPOS tags are declared but never used by the modelled operations.
- Integer arithmetic is unbounded. The delta fits `int`, and the unsigned subtraction in the newer ClassDef format 1 test, the one wrap-around that changes a result, is written out modulo 2^32.
- Lookup.GetFlag: the newer `get_flag` shifts `markFilteringSet << 16` as a signed `int`. For a markFilteringSet of 0x8000 or more this overflows `int`, which C leaves undefined. The model assumes the two's-complement result, whose sum with the flag gives the unsigned 32-bit value `GetFlag` computes.

## Findings

| source | as written | input that shows it | evidently intended | confidence | as-written member | corrected member |
|---|---|---|---|---|---|---|
| pango/opentype/hb-open-file-private.hh:174-180 | `OpenTypeFontFile::sanitize` switches on the four-byte tag before any memory check, so it reads the tag even when the blob is shorter than four bytes | an empty blob `Range(0, 0)` followed by bytes `00 00 00 00` passes, and the same empty blob followed by `00 01 00 00` fails | check the tag's four bytes against the blob first and refuse a blob too short to hold them | not executed | FontFile.AsWrittenReadsOutsideBlob | FontFile.SanitizeLocal |
