/** Views into an immutable font buffer, offset resolution, Null instances,
    and the memory-range check the sanitizer is built from. */
module Blob {
  import opened BigEndian

  /** Absence of a value, as in a NULL pointer or a NOT_COVERED result. */
  datatype Option<+T> = None | Some(value: T)

  /** `NO_INDEX`: the index reported when a tag is not found, and the index
      that selects a script's default language system. */
  const NO_INDEX: nat := 0xFFFF

  /** A typed view of a structure: the memory holding it and the position at
      which the structure starts. Views of font data share the font buffer;
      the Null instance of a type is a view of a constant byte string at
      position 0, as the C statics `Null##Type##Data` are. */
  datatype Ptr = Ptr(mem: seq<Byte>, at: nat)

  /** The first `n` bytes of the structure lie in its memory. */
  predicate Fits(p: Ptr, n: nat)
  {
    p.at + n <= |p.mem|
  }

  /** The USHORT field at byte `off` of the structure. */
  function Read16(p: Ptr, off: nat): U16
    requires Fits(p, off + 2)
  {
    U16At(p.mem, p.at + off)
  }

  /** The ULONG field at byte `off` of the structure. */
  function Read32(p: Ptr, off: nat): U32
    requires Fits(p, off + 4)
  {
    U32At(p.mem, p.at + off)
  }

  /** The Tag field at byte `off` of the structure. */
  function ReadTag(p: Ptr, off: nat): Tag
    requires Fits(p, off + 4)
  {
    TagAt(p.mem, p.at + off)
  }

  /** In the bytes storing the USHORTs `ws`, a view starting at word `w0`
      reads word `w0 + j` at byte `2 * j`. */
  lemma ReadWord(ws: seq<U16>, w0: nat, j: nat)
    requires w0 + j < |ws|
    ensures 2 * w0 + 2 * j + 2 <= |U16sBytes(ws)|
    ensures Fits(Ptr(U16sBytes(ws), 2 * w0), 2 * j + 2)
    ensures Read16(Ptr(U16sBytes(ws), 2 * w0), 2 * j) == ws[w0 + j]
  {
    var b := U16sBytes(ws);
    assert 2 * w0 + 2 * j == 2 * (w0 + j);
    WordOfBytes(ws, w0 + j);
  }

  /** A view at `at` of a memory holding the bytes of `ws` from `at` on reads
      word `j` at byte `2 * j`. */
  lemma WordsIn(mem: seq<Byte>, at: nat, ws: seq<U16>, j: nat)
    requires at + |U16sBytes(ws)| <= |mem| && mem[at..at + |U16sBytes(ws)|] == U16sBytes(ws)
    requires j < |ws|
    ensures Fits(Ptr(mem, at), 2 * j + 2) && Read16(Ptr(mem, at), 2 * j) == ws[j]
  {
    var b := U16sBytes(ws);
    WordOfBytes(ws, j);
    assert 2 * j + 2 <= |b| && U16At(b, 2 * j) == ws[j];
    U16In(mem, at, b, 2 * j);
    ReadAt(mem, at, 2 * j);
    assert Read16(Ptr(mem, at), 2 * j) == U16At(b, 2 * j);
  }

  /** `Read16` is `U16At` at the view's position. */
  lemma ReadAt(mem: seq<Byte>, at: nat, off: nat)
    requires at + off + 2 <= |mem|
    ensures Fits(Ptr(mem, at), off + 2) && Read16(Ptr(mem, at), off) == U16At(mem, at + off)
  {
  }

  /** `ReadTag` is `TagAt` at the view's position. */
  lemma ReadTagAt(mem: seq<Byte>, at: nat, off: nat)
    requires at + off + 4 <= |mem|
    ensures Fits(Ptr(mem, at), off + 4) && ReadTag(Ptr(mem, at), off) == TagAt(mem, at + off)
  {
  }

  /** `n` zero bytes: the Null data of every type whose source gives none. */
  function Zeros(n: nat): (z: seq<Byte>)
    ensures |z| == n
    ensures forall i :: 0 <= i < n ==> z[i] == 0
  {
    seq(n, i => 0)
  }

  /** The Null instance whose bytes are `data`. */
  function NullOf(data: seq<Byte>): Ptr
  {
    Ptr(data, 0)
  }

  /** `base + offset` for an `OffsetTo<T>`: the structure `offset` bytes after
      `base` in the same memory, or the Null instance when the offset is 0. */
  function Resolve(base: Ptr, offset: nat, nil: Ptr): Ptr
  {
    if offset == 0 then nil else Ptr(base.mem, base.at + offset)
  }

  /** Following an offset never leaves the buffer the base lies in, and only
      the zero offset yields the Null instance. */
  lemma ResolveFacts(base: Ptr, offset: nat, nil: Ptr)
    requires nil.mem != base.mem
    ensures Resolve(base, offset, nil) == nil <==> offset == 0
    ensures offset != 0 ==> Resolve(base, offset, nil).mem == base.mem
  {
  }

  /*
   * The sanitizer's memory check.
   */

  /** The byte range `[start, end)` of the blob being sanitized. */
  datatype Range = Range(start: nat, end: nat)

  /** The range lies inside the memory `p` views. */
  predicate Within(r: Range, p: Ptr)
  {
    r.start <= r.end <= |p.mem|
  }

  /** `SANITIZE_MEM(p + off, len)`: the bytes `[p + off, p + off + len)` lie in
      the sanitized range. */
  predicate MemOk(r: Range, p: Ptr, off: nat, len: nat)
  {
    r.start <= p.at + off && p.at + off + len <= r.end
  }

  /** A passing memory check makes the checked bytes readable. */
  lemma MemOkFits(r: Range, p: Ptr, off: nat, len: nat)
    requires Within(r, p) && MemOk(r, p, off, len)
    ensures Fits(p, off + len)
  {
  }

  /** Two memories hold the same bytes throughout the range. */
  predicate Agree(r: Range, m1: seq<Byte>, m2: seq<Byte>)
  {
    && r.start <= r.end <= |m1| && r.end <= |m2|
    && forall k :: r.start <= k < r.end ==> m1[k] == m2[k]
  }

  /** A field whose bytes pass the memory check reads the same in two
      memories that agree on the range. */
  lemma ReadsLocal(r: Range, m1: seq<Byte>, m2: seq<Byte>, at: nat, off: nat)
    requires Agree(r, m1, m2)
    ensures MemOk(r, Ptr(m1, at), off, 2) ==> Read16(Ptr(m1, at), off) == Read16(Ptr(m2, at), off)
    ensures MemOk(r, Ptr(m1, at), off, 4) ==> Read32(Ptr(m1, at), off) == Read32(Ptr(m2, at), off)
    ensures MemOk(r, Ptr(m1, at), off, 4) ==> ReadTag(Ptr(m1, at), off) == ReadTag(Ptr(m2, at), off)
  {
    var k := at + off;
    if MemOk(r, Ptr(m1, at), off, 2) {
      assert m1[k] == m2[k] && m1[k + 1] == m2[k + 1];
    }
    if MemOk(r, Ptr(m1, at), off, 4) {
      assert m1[k] == m2[k] && m1[k + 1] == m2[k + 1];
      assert m1[k + 2] == m2[k + 2] && m1[k + 3] == m2[k + 3];
    }
  }

  /** `ArrayOf<T>::sanitize` for an array whose USHORT count is at `off`: the
      count word, then `count` elements of `size` bytes, lie in range. */
  predicate ArrayOk(r: Range, p: Ptr, off: nat, size: nat)
    requires Within(r, p)
  {
    MemOk(r, p, off, 2) && MemOk(r, p, off + 2, size * Read16(p, off))
  }

  /** A checked array is readable in full. */
  lemma ArrayOkFits(r: Range, p: Ptr, off: nat, size: nat)
    requires Within(r, p) && ArrayOk(r, p, off, size)
    ensures Fits(p, off + 2 + size * Read16(p, off))
  {
  }
}
