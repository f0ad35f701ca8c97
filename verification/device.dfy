/** The Device table: small pixel corrections for a run of font sizes
    (`startSize..endSize`, in pixels per em). Each correction is a signed
    field of 2, 4 or 8 bits (delta formats 1, 2 and 3), packed most
    significant field first into 16-bit words. */
module Device {
  import opened BigEndian
  import opened Blob
  import opened Arith

  /** Fields per word, `1 << (4 - f)`: 8, 4 or 2. */
  function FieldsPerWord(f: int): (n: nat)
    requires 1 <= f <= 3
    ensures n == Pow2(4 - f)
  {
    Pow2Values();
    if f == 1 then 8 else if f == 2 then 4 else 2
  }

  /** Bits per field, `1 << f`: 2, 4 or 8. */
  function FieldBits(f: int): (w: nat)
    requires 1 <= f <= 3
    ensures w == Pow2(f) && FieldsPerWord(f) * w == 16
  {
    Pow2Values();
    if f == 1 then 2 else if f == 2 then 4 else 8
  }

  /** The bit layout of a format: field `j` of a word sits `w * (n - 1 - j)`
      bits up, the shift `16 - ((j + 1) << f)` of the sources; `0xFFFF >> (16 -
      (1 << f))` is the mask of the low `w` bits; half the field range is
      `2^(w - 1)`. */
  lemma FieldLayout(f: int, j: nat)
    requires 1 <= f <= 3 && j < FieldsPerWord(f)
    ensures (j + 1) * FieldBits(f) <= 16
    ensures 16 - (j + 1) * FieldBits(f) == FieldBits(f) * (FieldsPerWord(f) - 1 - j)
    ensures 0xFFFF / Pow2(16 - FieldBits(f)) + 1 == Pow2(FieldBits(f))
    ensures Pow2(FieldBits(f)) == 2 * Pow2(FieldBits(f) - 1)
  {
    Pow2Values();
  }

  /** The number of values of a field, `2^w`, is even. */
  lemma EvenModulus(f: int)
    requires 1 <= f <= 3
    ensures Pow2(FieldBits(f)) % 2 == 0
  {
    Pow2Values();
  }

  /** The smallest size corrected. */
  function StartSize(p: Ptr): U16
    requires Fits(p, 6)
  {
    Read16(p, 0)
  }

  /** The largest size corrected. */
  function EndSize(p: Ptr): U16
    requires Fits(p, 6)
  {
    Read16(p, 2)
  }

  /** The delta format, 1, 2 or 3 for a table holding corrections. */
  function DeltaFormat(p: Ptr): U16
    requires Fits(p, 6)
  {
    Read16(p, 4)
  }

  /** The number of sizes corrected, `endSize - startSize + 1`, or 0 when the
      end lies before the start. */
  function SizeCount(p: Ptr): nat
    requires Fits(p, 6)
  {
    if EndSize(p) - StartSize(p) + 1 < 0 then 0 else EndSize(p) - StartSize(p) + 1
  }

  /** `Device::get_size`: the six-byte header plus `ceil(count / n)` words,
      where `n` is the number of fields per word of the format; just the
      header for any other format. */
  function Size(p: Ptr): (size: nat)
    requires Fits(p, 6)
    ensures 1 <= DeltaFormat(p) <= 3 ==>
              size == 6 + 2 * ((SizeCount(p) + FieldsPerWord(DeltaFormat(p)) - 1) / FieldsPerWord(DeltaFormat(p)))
    ensures !(1 <= DeltaFormat(p) <= 3) ==> size == 6
  {
    var count := SizeCount(p);
    match DeltaFormat(p)
    case 1 => 6 + 2 * ((count + 7) / 8)
    case 2 => 6 + 2 * ((count + 3) / 4)
    case 3 => 6 + 2 * ((count + 1) / 2)
    case _ => 6
  }

  /** The whole table lies in its memory. */
  predicate Readable(p: Ptr)
  {
    Fits(p, 6) && Fits(p, Size(p))
  }

  /** The table has corrections and the size is one of those it corrects. */
  predicate InRange(p: Ptr, ppem: int)
    requires Fits(p, 6)
  {
    1 <= DeltaFormat(p) <= 3 && StartSize(p) <= ppem <= EndSize(p)
  }

  /** For every corrected size, the word holding its field, number
      `s >> (4 - f)` of the delta array, lies inside `get_size` bytes. */
  lemma WordWithinSize(p: Ptr, ppem: int)
    requires Fits(p, 6) && InRange(p, ppem)
    ensures 6 + 2 * ((ppem - StartSize(p)) / FieldsPerWord(DeltaFormat(p))) + 2 <= Size(p)
  {
    var s := ppem - StartSize(p);
    var count := SizeCount(p);
    assert s < count;
    match DeltaFormat(p)
    case 1 => assert s / 8 + 1 <= (count + 7) / 8;
    case 2 => assert s / 4 + 1 <= (count + 3) / 4;
    case 3 => assert s / 2 + 1 <= (count + 1) / 2;
  }

  /** `if (delta >= ((mask + 1) >> 1)) delta -= mask + 1`: the value of a
      field read as two's complement modulo `m`. */
  function SignExtend(field: int, m: int): (v: int)
    requires 0 <= field < m && m % 2 == 0
    ensures -(m / 2) <= v < m / 2
    ensures (v < 0 <==> field >= m / 2) && (v - field == 0 || v - field == -m)
  {
    if field >= m / 2 then field - m else field
  }

  /** The word of the delta array holding the field of correction number
      `s` (counted from `startSize`): word `s >> (4 - f)`. */
  function WordOf(p: Ptr, s: nat): U16
    requires Readable(p) && 1 <= DeltaFormat(p) <= 3 && StartSize(p) + s <= EndSize(p)
  {
    WordWithinSize(p, StartSize(p) + s);
    Read16(p, 6 + 2 * (s / FieldsPerWord(DeltaFormat(p))))
  }

  /** Field `j` of a word, counted from the most significant end: shifted
      down past the fields after it, low `w` bits kept. */
  function FieldIn(word: U16, f: int, j: nat): (field: int)
    requires 1 <= f <= 3 && j < FieldsPerWord(f)
    ensures 0 <= field < Pow2(FieldBits(f))
  {
    FieldLayout(f, j);
    (word / Pow2(16 - (j + 1) * FieldBits(f))) % Pow2(FieldBits(f))
  }

  /** The field of correction number `s`: field `s & (n - 1)` of its word. */
  function Field(p: Ptr, s: nat): (field: int)
    requires Readable(p) && 1 <= DeltaFormat(p) <= 3 && StartSize(p) + s <= EndSize(p)
    ensures 0 <= field < Pow2(FieldBits(DeltaFormat(p)))
  {
    FieldIn(WordOf(p, s), DeltaFormat(p), s % FieldsPerWord(DeltaFormat(p)))
  }

  /** The correction a table stores for a size it covers: the size's field
      read as a signed `w`-bit number. */
  function StoredDelta(p: Ptr, ppem: int): int
    requires Readable(p) && InRange(p, ppem)
  {
    EvenModulus(DeltaFormat(p));
    SignExtend(Field(p, ppem - StartSize(p)), Pow2(FieldBits(DeltaFormat(p))))
  }

  /** The sources' extraction, `(word >> shift) & mask` with `mask = 0xFFFF
      >> (16 - w)`, keeps field `j`; so does the older one, which first
      truncates `word >> shift` to 16 bits. */
  lemma MaskedField(word: U16, f: int, j: nat)
    requires 1 <= f <= 3 && j < FieldsPerWord(f)
    ensures (j + 1) * FieldBits(f) <= 16
    ensures var bits := word / Pow2(16 - (j + 1) * FieldBits(f));
            var mask := 0xFFFF / Pow2(16 - FieldBits(f));
            && mask + 1 == Pow2(FieldBits(f)) && mask + 1 >= 2 && (mask + 1) % 2 == 0
            && bits % (mask + 1) == FieldIn(word, f, j)
            && (bits % 0x1_0000) % (mask + 1) == FieldIn(word, f, j)
  {
    FieldLayout(f, j);
    var sh: nat := 16 - (j + 1) * FieldBits(f);
    var bits := word / Pow2(sh);
    var mask := 0xFFFF / Pow2(16 - FieldBits(f));
    DivLe(word, Pow2(sh));
    assert bits % 0x1_0000 == bits;
    assert mask + 1 == Pow2(FieldBits(f)) == 2 * Pow2(FieldBits(f) - 1);
    assert bits % (mask + 1) == FieldIn(word, f, j);
  }

  /** The half range of a field: `2^(w - 1)`. */
  lemma HalfRange(f: int)
    requires 1 <= f <= 3
    ensures Pow2(FieldBits(f)) / 2 == Pow2(FieldBits(f) - 1)
  {
    FieldLayout(f, 0);
  }

  /** `Device::get_delta` in the newer source: 0 for a format other than 1, 2
      and 3, and for a size outside `startSize..endSize`; otherwise field
      `s & (n - 1)` of word `s >> (4 - f)` (`s` the size minus `startSize`,
      fields counted from the most significant end), sign-extended. */
  function GetDelta(p: Ptr, ppem: U32): (delta: int)
    requires Readable(p)
    ensures !InRange(p, ppem) ==> delta == 0
    ensures InRange(p, ppem) ==>
              && -Pow2(FieldBits(DeltaFormat(p)) - 1) <= delta < Pow2(FieldBits(DeltaFormat(p)) - 1)
              && delta == StoredDelta(p, ppem)
  {
    var f := DeltaFormat(p);
    if f < 1 || f > 3 then 0
    else if ppem < StartSize(p) || ppem > EndSize(p) then 0
    else
      var s := ppem - StartSize(p);
      var j := s % FieldsPerWord(f);
      var word := WordOf(p, s);
      MaskedField(word, f, j);
      var bits := word / Pow2(16 - (j + 1) * FieldBits(f));
      var mask := 0xFFFF / Pow2(16 - FieldBits(f));
      HalfRange(f);
      SignExtend(bits % (mask + 1), mask + 1)
  }

  /** `Device::get_delta` in the older source: the size test comes before the
      format test, the size is a signed `int`, and `bits` is truncated to 16
      bits. */
  function GetDeltaOld(p: Ptr, ppem: I32): (delta: int)
    requires Readable(p)
    ensures !InRange(p, ppem) ==> delta == 0
    ensures InRange(p, ppem) ==>
              delta == StoredDelta(p, ppem)
  {
    if ppem >= StartSize(p) && ppem <= EndSize(p) && DeltaFormat(p) >= 1 && DeltaFormat(p) <= 3 then
      var f := DeltaFormat(p);
      var s := ppem - StartSize(p);
      var j := s % FieldsPerWord(f);
      var word := WordOf(p, s);
      MaskedField(word, f, j);
      var bits := (word / Pow2(16 - (j + 1) * FieldBits(f))) % 0x1_0000;
      var mask := 0xFFFF / Pow2(16 - FieldBits(f));
      SignExtend(bits % (mask + 1), mask + 1)
    else 0
  }

  /** Both versions give the same correction for every size: a negative
      `int` size of the older source becomes a 32-bit unsigned size above
      every `endSize` in the newer one, and truncating `bits` to 16 bits
      changes nothing because the word it is shifted from has 16 bits. */
  lemma GetDeltaVersions(p: Ptr, ppem: I32)
    requires Readable(p)
    ensures GetDeltaOld(p, ppem) == GetDelta(p, ppem % 0x1_0000_0000)
  {
    if ppem < 0 {
      assert ppem % 0x1_0000_0000 == ppem + 0x1_0000_0000;
    } else {
      assert ppem % 0x1_0000_0000 == ppem;
    }
  }

  /*
   * Packing corrections: the inverse of `get_delta`.
   */

  /** The number `fs[0] fs[1] ... fs[|fs| - 1]` written in base `2^w`, most
      significant digit first. */
  function Pack(fs: seq<int>, w: nat): int
  {
    if fs == [] then 0 else Pack(fs[..|fs| - 1], w) * Pow2(w) + fs[|fs| - 1]
  }

  /** Every digit is a `w`-bit field. */
  predicate Digits(fs: seq<int>, w: nat)
  {
    forall i :: 0 <= i < |fs| ==> 0 <= fs[i] < Pow2(w)
  }

  /** A packed number has at most `w * |fs|` bits. */
  lemma {:induction false} PackBound(fs: seq<int>, w: nat)
    requires Digits(fs, w)
    ensures 0 <= Pack(fs, w) < Pow2(w * |fs|)
  {
    if fs != [] {
      var init := fs[..|fs| - 1];
      var P, W := Pow2(w * |init|), Pow2(w);
      assert Digits(init, w);
      PackBound(init, w);
      DigitAppendBound(Pack(init, w), P, W, fs[|fs| - 1]);
      MulSucc(w, |init|);
      Pow2Add(w * |init|, w);
    }
  }

  /** The last digit of a packed number is its remainder modulo `2^w`, and
      the digits before it are its quotient. */
  lemma PackSplit(fs: seq<int>, w: nat)
    requires Digits(fs, w) && fs != []
    ensures Digits(fs[..|fs| - 1], w)
    ensures 0 <= Pack(fs, w)
    ensures Pack(fs, w) / Pow2(w) == Pack(fs[..|fs| - 1], w)
    ensures Pack(fs, w) % Pow2(w) == fs[|fs| - 1]
  {
    var init := fs[..|fs| - 1];
    assert Digits(init, w);
    PackBound(init, w);
    DigitAppendBound(Pack(init, w), Pow2(w * |init|), Pow2(w), fs[|fs| - 1]);
    DivUnique(Pack(fs, w), Pow2(w), Pack(init, w), fs[|fs| - 1]);
  }

  /** Digit `j` of a packed number is read back by shifting right past the
      digits after it and keeping the low `w` bits. */
  lemma {:induction false} PackDigit(fs: seq<int>, w: nat, j: nat, shift: nat)
    requires Digits(fs, w) && j < |fs| && shift == w * (|fs| - 1 - j)
    ensures (Pack(fs, w) / Pow2(shift)) % Pow2(w) == fs[j]
  {
    var init := fs[..|fs| - 1];
    PackSplit(fs, w);
    if j == |fs| - 1 {
      assert shift == 0;
    } else {
      var x: nat := Pack(fs, w);
      var k: nat := |init| - 1 - j;
      var e: nat := w * k by { MulMono(w, 0, k); }
      assert shift == e + w by { MulSucc(w, k); }
      Pow2Add(w, e);
      ShiftStep(x, Pack(init, w), Pow2(w), Pow2(e), Pow2(shift));
      PackDigit(init, w, j, e);
      assert init[j] == fs[j];
    }
  }

  /** Shifting right by `W * E` is shifting by `W`, then by `E`. */
  lemma ShiftStep(x: nat, xi: int, W: int, E: int, D: int)
    requires W > 0 && E > 0 && D == W * E && x / W == xi
    ensures x / D == xi / E
  {
    DivDiv(x, W, E);
  }

  /** A Device table as a value: the corrected sizes, the format, and one
      correction per size. */
  datatype DeviceTable = DeviceTable(startSize: U16, endSize: U16, format: U16, deltas: seq<int>)

  /** Tables that have an encoding: a format with fields, a non-empty run of
      sizes, one correction per size, each fitting a signed field. */
  predicate Encodable(d: DeviceTable)
  {
    && 1 <= d.format <= 3
    && d.startSize <= d.endSize
    && |d.deltas| == d.endSize - d.startSize + 1
    && forall i :: 0 <= i < |d.deltas| ==>
         -Pow2(FieldBits(d.format) - 1) <= d.deltas[i] < Pow2(FieldBits(d.format) - 1)
  }

  /** The `w`-bit field storing correction `i`, or a zero field past the end. */
  function FieldOf(deltas: seq<int>, w: nat, i: nat): (field: int)
    ensures 0 <= field < Pow2(w)
  {
    if i < |deltas| then deltas[i] % Pow2(w) else 0
  }

  /** The fields of word `k`: corrections `k * n .. k * n + n - 1`. */
  function WordFields(deltas: seq<int>, f: int, k: nat): (fs: seq<int>)
    requires 1 <= f <= 3
    ensures |fs| == FieldsPerWord(f) && Digits(fs, FieldBits(f))
    ensures forall j :: 0 <= j < |fs| ==> fs[j] == FieldOf(deltas, FieldBits(f), k * FieldsPerWord(f) + j)
  {
    var n := FieldsPerWord(f);
    var w := FieldBits(f);
    var fs := seq(n, j requires 0 <= j < n => FieldOf(deltas, w, k * n + j));
    assert forall j :: 0 <= j < n ==> fs[j] == FieldOf(deltas, w, k * n + j);
    fs
  }

  /** Word `k` of the delta array. */
  function DeltaWord(deltas: seq<int>, f: int, k: nat): (word: U16)
    requires 1 <= f <= 3
  {
    var fs := WordFields(deltas, f, k);
    PackBound(fs, FieldBits(f));
    Pow2Values();
    Pack(fs, FieldBits(f))
  }

  /** The number of delta words, `ceil(count / n)`. */
  function WordCount(count: nat, f: int): nat
    requires 1 <= f <= 3
  {
    (count + FieldsPerWord(f) - 1) / FieldsPerWord(f)
  }

  /** The words of an encoded table: the header, then the packed words. */
  function Words(d: DeviceTable): (ws: seq<U16>)
    requires Encodable(d)
    ensures |ws| == 3 + WordCount(|d.deltas|, d.format)
    ensures ws[..3] == [d.startSize, d.endSize, d.format]
    ensures forall k :: 0 <= k < WordCount(|d.deltas|, d.format) ==> ws[3 + k] == DeltaWord(d.deltas, d.format, k)
  {
    [d.startSize, d.endSize, d.format]
      + seq(WordCount(|d.deltas|, d.format), k requires 0 <= k => DeltaWord(d.deltas, d.format, k))
  }

  /** The bytes of a table. */
  function Encode(d: DeviceTable): seq<Byte>
    requires Encodable(d)
  {
    U16sBytes(Words(d))
  }

  /** The header of an encoded table, and its readability. */
  lemma EncodedHeader(d: DeviceTable)
    requires Encodable(d)
    ensures var p := Ptr(Encode(d), 0);
            && Readable(p)
            && StartSize(p) == d.startSize && EndSize(p) == d.endSize && DeltaFormat(p) == d.format
  {
    var ws := Words(d);
    assert ws[0] == d.startSize && ws[1] == d.endSize && ws[2] == d.format by {
      assert ws[..3][0] == ws[0] && ws[..3][1] == ws[1] && ws[..3][2] == ws[2];
    }
    ReadWord(ws, 0, 0);
    ReadWord(ws, 0, 1);
    ReadWord(ws, 0, 2);
  }

  /** `get_size` of an encoded table is exactly the number of its bytes:
      the header and one word per started group of fields. */
  lemma EncodedSize(d: DeviceTable)
    requires Encodable(d)
    ensures Readable(Ptr(Encode(d), 0)) && Size(Ptr(Encode(d), 0)) == |Encode(d)|
  {
    EncodedHeader(d);
  }

  /** A correction in range survives being stored as a field. */
  lemma SignExtendField(delta: int, m: int)
    requires m >= 2 && m % 2 == 0 && -(m / 2) <= delta < m / 2
    ensures 0 <= delta % m < m && SignExtend(delta % m, m) == delta
  {
    if delta < 0 {
      DivUnique(delta, m, -1, delta + m);
    } else {
      DivUnique(delta, m, 0, delta);
    }
  }

  /** Word `k` of the delta array of an encoded table is the packed word `k`. */
  lemma EncodedWord(d: DeviceTable, k: nat)
    requires Encodable(d) && k < WordCount(|d.deltas|, d.format)
    ensures Fits(Ptr(Encode(d), 0), 6 + 2 * k + 2)
    ensures Read16(Ptr(Encode(d), 0), 6 + 2 * k) == Pack(WordFields(d.deltas, d.format, k), FieldBits(d.format))
  {
    var ws := Words(d);
    ReadWord(ws, 0, 3 + k);
  }

  /** When the word holding field `s` packs the digits `fs`, the field is
      digit `s % n` of them. */
  lemma FieldOfPackedWord(p: Ptr, s: nat, fs: seq<int>)
    requires Readable(p) && 1 <= DeltaFormat(p) <= 3 && StartSize(p) + s <= EndSize(p)
    requires |fs| == FieldsPerWord(DeltaFormat(p)) && Digits(fs, FieldBits(DeltaFormat(p)))
    requires Fits(p, 6 + 2 * (s / |fs|) + 2)
    requires Read16(p, 6 + 2 * (s / |fs|)) == Pack(fs, FieldBits(DeltaFormat(p)))
    ensures Field(p, s) == fs[s % |fs|]
  {
    var f := DeltaFormat(p);
    var n, w := FieldsPerWord(f), FieldBits(f);
    var j := s % n;
    FieldLayout(f, j);
    PackDigit(fs, w, j, 16 - (j + 1) * w);
  }

  /** The field of correction `i` in an encoded table is the correction
      reduced to `w` bits. */
  lemma EncodedField(d: DeviceTable, i: nat)
    requires Encodable(d) && i < |d.deltas|
    ensures var p := Ptr(Encode(d), 0);
            && Readable(p) && DeltaFormat(p) == d.format && StartSize(p) + i <= EndSize(p)
            && Field(p, i) == d.deltas[i] % Pow2(FieldBits(d.format))
  {
    EncodedHeader(d);
    var p := Ptr(Encode(d), 0);
    var f := d.format;
    var n := FieldsPerWord(f);
    var k, j := i / n, i % n;
    WordIndex(i, |d.deltas|, f);
    EncodedWord(d, k);
    var fs := WordFields(d.deltas, f, k);
    FieldOfPackedWord(p, i, fs);
    assert fs[j] == FieldOf(d.deltas, FieldBits(f), i);
  }

  /** Correction `i` of `count` sits in word `i / n`, one of the words of
      the table, at field `i % n`. */
  lemma WordIndex(i: nat, count: nat, f: int)
    requires 1 <= f <= 3 && i < count
    ensures (i / FieldsPerWord(f)) * FieldsPerWord(f) + i % FieldsPerWord(f) == i
    ensures i / FieldsPerWord(f) < WordCount(count, f)
  {
    match f
    case 1 => assert i / 8 < (count + 7) / 8;
    case 2 => assert i / 4 < (count + 3) / 4;
    case 3 => assert i / 2 < (count + 1) / 2;
  }

  /** An encoded table is readable and reports, for every size it covers,
      exactly the correction it was built with. */
  lemma GetDeltaEncoded(d: DeviceTable, i: nat)
    requires Encodable(d) && i < |d.deltas|
    ensures Readable(Ptr(Encode(d), 0))
    ensures GetDelta(Ptr(Encode(d), 0), d.startSize + i) == d.deltas[i]
  {
    var p := Ptr(Encode(d), 0);
    var m := Pow2(FieldBits(d.format));
    EncodedHeader(d);
    EncodedField(d, i);
    HalfRange(d.format);
    FieldLayout(d.format, 0);
    SignExtendField(d.deltas[i], m);
    assert InRange(p, d.startSize + i);
    assert GetDelta(p, d.startSize + i) == SignExtend(Field(p, i), m);
  }
}
