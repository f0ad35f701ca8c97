/** Scalar data types of the OpenType font file. Every multi-byte field is
    stored most-significant byte first ("Motorola" order); this module is the
    one place where that order is decoded and encoded. */
module BigEndian {

  /** One octet of the font buffer. */
  type Byte = b: int | 0 <= b < 0x100
  /** USHORT, GlyphID and 16-bit Offset. */
  type U16 = v: int | 0 <= v < 0x1_0000
  /** ULONG and 32-bit offsets; also `hb_codepoint_t` and `unsigned int`. */
  type U32 = v: int | 0 <= v < 0x1_0000_0000
  /** SHORT. */
  type I16 = v: int | -0x8000 <= v < 0x8000
  /** LONG and `int32_t`. */
  type I32 = v: int | -0x8000_0000 <= v < 0x8000_0000

  /** The USHORT stored at `pos`: high byte first, then low byte. */
  function U16At(mem: seq<Byte>, pos: nat): U16
    requires pos + 2 <= |mem|
  {
    (mem[pos] as int) * 0x100 + mem[pos + 1]
  }

  /** The high and low bytes of a stored USHORT are the bytes it was read from. */
  lemma U16AtParts(mem: seq<Byte>, pos: nat)
    requires pos + 2 <= |mem|
    ensures U16At(mem, pos) / 0x100 == mem[pos] && U16At(mem, pos) % 0x100 == mem[pos + 1]
  {
  }

  /** The ULONG stored at `pos`: the high USHORT, then the low one. */
  function U32At(mem: seq<Byte>, pos: nat): U32
    requires pos + 4 <= |mem|
  {
    (U16At(mem, pos) as int) * 0x1_0000 + U16At(mem, pos + 2)
  }

  /** The two bytes that store `v`. */
  function U16Bytes(v: U16): (b: seq<Byte>)
    ensures |b| == 2 && U16At(b, 0) == v
  {
    [v / 0x100, v % 0x100]
  }

  /** The four bytes that store `v`. */
  function U32Bytes(v: U32): (b: seq<Byte>)
    ensures |b| == 4 && U32At(b, 0) == v
  {
    var b := U16Bytes(v / 0x1_0000) + U16Bytes(v % 0x1_0000);
    assert U16At(b, 0) == v / 0x1_0000 && U16At(b, 2) == v % 0x1_0000;
    b
  }

  /** The bytes storing the USHORTs `ws` one after another. */
  function U16sBytes(ws: seq<U16>): (b: seq<Byte>)
    ensures |b| == 2 * |ws|
  {
    if ws == [] then [] else U16Bytes(ws[0]) + U16sBytes(ws[1..])
  }

  /** Word `j` of `ws` is read back at byte `2 * j` of their bytes. */
  lemma {:induction false} WordOfBytes(ws: seq<U16>, j: nat)
    requires j < |ws|
    ensures 2 * j + 2 <= |U16sBytes(ws)| && U16At(U16sBytes(ws), 2 * j) == ws[j]
  {
    var b, rest := U16sBytes(ws), U16sBytes(ws[1..]);
    assert b == U16Bytes(ws[0]) + rest;
    if j > 0 {
      WordOfBytes(ws[1..], j - 1);
      assert b[2 * j] == rest[2 * (j - 1)] && b[2 * j + 1] == rest[2 * (j - 1) + 1];
      assert ws[1..][j - 1] == ws[j];
    }
  }

  /** The bytes storing the ULONGs `xs` one after another: value `k` is read
      back at byte `4 * k`. */
  function U32sBytes(xs: seq<U32>): (b: seq<Byte>)
    ensures |b| == 4 * |xs|
    ensures forall k :: 0 <= k < |xs| ==> U32At(b, 4 * k) == xs[k]
  {
    if xs == [] then []
    else
      var head, rest := U32Bytes(xs[0]), U32sBytes(xs[1..]);
      var b := head + rest;
      assert b[..4] == head && b[4..] == rest;
      U32In(b, 0, head, 0);
      forall k | 1 <= k < |xs|
        ensures U32At(b, 4 * k) == xs[k]
      {
        assert xs[1..][k - 1] == xs[k];
        U32In(b, 4, rest, 4 * (k - 1));
      }
      b
  }

  /** Decoding and re-encoding a USHORT gives back the bytes it was read from. */
  lemma U16BytesOfRead(mem: seq<Byte>, pos: nat)
    requires pos + 2 <= |mem|
    ensures U16Bytes(U16At(mem, pos)) == mem[pos..pos + 2]
  {
  }

  /** A USHORT stored in `b`, where `b` sits at `at` in a larger memory. */
  lemma U16In(mem: seq<Byte>, at: nat, b: seq<Byte>, k: nat)
    requires at + |b| <= |mem| && mem[at..at + |b|] == b && k + 2 <= |b|
    ensures U16At(mem, at + k) == U16At(b, k)
  {
    assert mem[at + k] == b[k] && mem[at + k + 1] == b[k + 1];
  }

  /** A ULONG stored in `b`, where `b` sits at `at` in a larger memory. */
  lemma U32In(mem: seq<Byte>, at: nat, b: seq<Byte>, k: nat)
    requires at + |b| <= |mem| && mem[at..at + |b|] == b && k + 4 <= |b|
    ensures U32At(mem, at + k) == U32At(b, k)
  {
    U16In(mem, at, b, k);
    U16In(mem, at, b, k + 2);
  }

  /** The SHORT whose two's-complement bit pattern is `u`. */
  function S16Of(u: U16): (s: I16)
    ensures s % 0x1_0000 == u
    ensures s >= 0 <==> u < 0x8000
  {
    if u < 0x8000 then u else u - 0x1_0000
  }

  /** A SHORT read from the buffer. */
  function S16At(mem: seq<Byte>, pos: nat): I16
    requires pos + 2 <= |mem|
  {
    S16Of(U16At(mem, pos))
  }

  /*
   * Tag: four bytes identifying a table, script, language system or feature.
   */

  /** A tag holds its four bytes; equality of tags is equality of bytes. */
  datatype Tag = Tag(c0: Byte, c1: Byte, c2: Byte, c3: Byte)

  /** The four bytes of a tag, in order. */
  function TagBytes(t: Tag): (b: seq<Byte>)
    ensures |b| == 4
  {
    [t.c0, t.c1, t.c2, t.c3]
  }

  /** The tag stored at `pos`. */
  function TagAt(mem: seq<Byte>, pos: nat): (t: Tag)
    requires pos + 4 <= |mem|
    ensures TagBytes(t) == mem[pos..pos + 4]
  {
    Tag(mem[pos], mem[pos + 1], mem[pos + 2], mem[pos + 3])
  }

  /** A tag stored in `b`, where `b` sits at `at` in a larger memory. */
  lemma TagIn(mem: seq<Byte>, at: nat, b: seq<Byte>, k: nat)
    requires at + |b| <= |mem| && mem[at..at + |b|] == b && k + 4 <= |b|
    ensures TagAt(mem, at + k) == TagAt(b, k)
  {
    assert mem[at + k] == b[k] && mem[at + k + 1] == b[k + 1];
    assert mem[at + k + 2] == b[k + 2] && mem[at + k + 3] == b[k + 3];
  }

  /** `Tag::operator uint32_t`: the shifted sum of the bytes. The bytes are
      taken as unsigned values (see README on `char`). */
  function TagValue(t: Tag): (v: U32)
    ensures v == U32At(TagBytes(t), 0)
  {
    (t.c0 as int) * 0x100_0000 + (t.c1 as int) * 0x1_0000 + (t.c2 as int) * 0x100 + t.c3
  }

  /** `Tag(uint32_t)`: stores the value big-endian into the four bytes. */
  function TagOf(v: U32): (t: Tag)
    ensures TagValue(t) == v
  {
    var b := U32Bytes(v);
    Tag(b[0], b[1], b[2], b[3])
  }

  /** `Tag == uint32_t` compares the numeric value; it holds exactly when the
      tag's bytes are those of the number, so the numeric and the byte-wise
      comparisons agree. */
  lemma TagValueMatchesBytes(t: Tag, v: U32)
    ensures TagValue(t) == v <==> t == TagOf(v)
  {
    if TagValue(t) == v {
      var s := TagOf(v);
      assert TagValue(s) == TagValue(t);
      var hi, lo := TagValue(t) / 0x1_0000, TagValue(t) % 0x1_0000;
      assert U16At(TagBytes(t), 0) == hi == U16At(TagBytes(s), 0);
      assert U16At(TagBytes(t), 2) == lo == U16At(TagBytes(s), 2);
      assert t.c0 == hi / 0x100 == s.c0;
      assert t.c1 == hi % 0x100 == s.c1;
      assert t.c2 == lo / 0x100 == s.c2;
      assert t.c3 == lo % 0x100 == s.c3;
    }
  }

  /** A tag written with four characters, as the sources' `HB_TAG('a','b','c','d')`. */
  function TagOfChars(a: char, b: char, c: char, d: char): Tag
    requires a as int < 0x100 && b as int < 0x100 && c as int < 0x100 && d as int < 0x100
  {
    Tag(a as int, b as int, c as int, d as int)
  }

  /*
   * Fixed: a signed 16.16 number stored as a SHORT integer part and a
   * USHORT fraction.
   */

  datatype Fixed = Fixed(intPart: I16, fracPart: U16)

  /** `Fixed::operator int32_t`: integer part shifted up by 16, plus the fraction. */
  function FixedValue(x: Fixed): (v: I32)
    ensures v / 0x1_0000 == x.intPart && v % 0x1_0000 == x.fracPart
  {
    (x.intPart as int) * 0x1_0000 + x.fracPart
  }

  /** `Fixed::operator = (int32_t)`: `v >> 16` (an arithmetic shift, that is a
      floor division) as the integer part and `(uint16_t) v` as the fraction.
      Converting back yields `v` again. */
  function FixedOf(v: I32): (x: Fixed)
    ensures FixedValue(x) == v
  {
    Fixed(v / 0x1_0000, v % 0x1_0000)
  }

  /** Every stored Fixed is the image of its own value. */
  lemma FixedOfValue(x: Fixed)
    ensures FixedOf(FixedValue(x)) == x
  {
  }

  /** The Fixed stored at `pos`. */
  function FixedAt(mem: seq<Byte>, pos: nat): Fixed
    requires pos + 4 <= |mem|
  {
    Fixed(S16At(mem, pos), U16At(mem, pos + 2))
  }

  /** `Fixed_Version::major`: the integer part. */
  function MajorVersion(x: Fixed): I16
  {
    x.intPart
  }
}
