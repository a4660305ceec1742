/**
 * The count word of an entity's binary form (Entity::SerializeToBinary).
 * The number of serializable components and the number of serializable
 * children are size_t values, so 64-bit words here; the word written is
 * components | children << 16, computed in 64 bits and stored as a u32.  A
 * reader of the earlier scene format splits that u32 into a low and a high
 * 16-bit half; for counts above 0xFFFF the halves no longer give the counts
 * back, which the writer reports as an error and writes anyway.
 */
module EntityFormat {
  /** The bits a u32 keeps of a 64-bit word. */
  const WORD_MASK: bv64 := 0xFFFF_FFFF
  /** The bits of one 16-bit half. */
  const HALF_MASK: bv64 := 0xFFFF

  /** The u32 count word for the given counts, held in the low 32 bits of a 64-bit word. */
  function PackCounts(components: bv64, children: bv64): (w: bv64)
    ensures w <= WORD_MASK
    ensures components <= HALF_MASK && children <= HALF_MASK ==> w & HALF_MASK == components && w >> 16 == children
  {
    (components | (children << 16)) & WORD_MASK
  }

  /** The counts the earlier format reads back from a u32 count word: its low and its high half. */
  function UnpackCounts(w: bv64): (r: (bv64, bv64))
    requires w <= WORD_MASK
    ensures r.0 <= HALF_MASK && r.1 <= HALF_MASK
    ensures PackCounts(r.0, r.1) == w
  {
    (w & HALF_MASK, w >> 16)
  }

  /** Counts of at most 0xFFFF each come back as written. */
  lemma PackRoundTrip(components: bv64, children: bv64)
    requires components <= HALF_MASK && children <= HALF_MASK
    ensures UnpackCounts(PackCounts(components, children)) == (components, children)
  {
  }

  /** 0x10000 components and no children are written as no components and one child. */
  lemma PackCollision()
    ensures PackCounts(0x1_0000, 0) == PackCounts(0, 1)
    ensures UnpackCounts(PackCounts(0x1_0000, 0)) == (0, 1)
  {
  }
}
