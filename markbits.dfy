/**
 * Pointer mark-bit helpers and counted pointers of the C++ hash sets.
 *
 * A pointer is a machine word (64 bits wide here; the counted-pointer
 * variant packs a 32-bit pointer next to a 32-bit counter into one 64-bit
 * word). Buckets are at least 4-byte aligned, so bit 0 of a bucket pointer
 * is free to carry the "frozen" mark.
 */
module MarkBits {

  type Word = bv64

  /** IS_MARKED: the low bit of the word (non-zero means marked). */
  function IsMarked(x: Word): (m: Word)
    ensures m == 0 || m == 1
    ensures m == 0 <==> x % 2 == 0
  {
    x & 1
  }

  /** REF_MARKED: the word with its low bit set; every other bit is kept. */
  function RefMarked(x: Word): (y: Word)
    ensures IsMarked(y) == 1
    ensures y >> 1 == x >> 1
  {
    x | 1
  }

  /** REF_UNMARKED: the word masked with ~1, so its low bit is cleared and every other bit is kept. */
  function RefUnmarked(x: Word): (y: Word)
    ensures IsMarked(y) == 0
    ensures y >> 1 == x >> 1
  {
    x & 0xFFFF_FFFF_FFFF_FFFE
  }

  /** Marking then unmarking returns an aligned pointer unchanged. */
  lemma UnmarkMarked(x: Word)
    requires IsMarked(x) == 0
    ensures RefUnmarked(RefMarked(x)) == x
  {
  }

  /** Marking is idempotent. */
  lemma MarkIdempotent(x: Word)
    ensures RefMarked(RefMarked(x)) == RefMarked(x)
  {
  }

  /** Unmarking is idempotent. */
  lemma UnmarkIdempotent(x: Word)
    ensures RefUnmarked(RefUnmarked(x)) == RefUnmarked(x)
  {
  }

  /** Marking an already marked word, or unmarking an unmarked one, changes nothing. */
  lemma MarkNoop(x: Word)
    ensures x & 1 == 1 ==> RefMarked(x) == x
    ensures x & 1 == 0 ==> RefUnmarked(x) == x
  {
  }

  /**
   * cptr_t<T>: a pointer and a 32-bit modification counter sharing one
   * 64-bit word (`all`). The pointer half is a 32-bit address; the hash
   * set's constructor asserts that pointers are 32 bits wide.
   */
  datatype CPtr = CPtr(ptr: bv32, ctr: bv32)

  /** MAKE_CPTR(w, p, c): a counted pointer whose fields are exactly p and c. */
  function MakeCPtr(p: bv32, c: bv32): (w: CPtr)
    ensures w.ptr == p && w.ctr == c
  {
    CPtr(p, c)
  }

  /** The `all` view of the union: the pointer in the low half, the counter in the high half (little-endian x86). */
  function All(w: CPtr): (a: Word)
    ensures a & 0xFFFF_FFFF == w.ptr as Word
    ensures a >> 32 == w.ctr as Word
  {
    (w.ctr as Word << 32) | (w.ptr as Word)
  }

  /** Reading the fields back out of the `all` word. */
  function FromAll(a: Word): (w: CPtr)
    ensures w.ptr as Word == a & 0xFFFF_FFFF
    ensures w.ctr as Word == a >> 32
  {
    CPtr((a & 0xFFFF_FFFF) as bv32, (a >> 32) as bv32)
  }

  /** Storing through `all` and reading the fields back is lossless, and so is the converse. */
  lemma AllRoundTrip(w: CPtr, a: Word)
    ensures FromAll(All(w)) == w
    ensures All(FromAll(a)) == a
  {
  }

  /** The counter step every bucket replacement uses: one more, wrapping at 2^32. */
  function NextCtr(c: bv32): (d: bv32)
    ensures d != c
    ensures c != 0xFFFF_FFFF ==> c < d && d - 1 == c
    ensures c == 0xFFFF_FFFF ==> d == 0
  {
    c + 1
  }

  /**
   * A replacement installed with the next counter is a different word from
   * the one it replaces, whatever pointer it carries: a compare-and-set
   * expecting the old word fails even when the pointer has been recycled.
   */
  lemma NextWordDiffers(w: CPtr, p: bv32)
    ensures All(MakeCPtr(p, NextCtr(w.ctr))) != All(w)
  {
    var v := MakeCPtr(p, NextCtr(w.ctr));
    AllRoundTrip(v, All(w));
    AllRoundTrip(w, All(v));
  }
}
