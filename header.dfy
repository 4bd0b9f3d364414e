/** The 32-bit record header: child index in the high 16 bits, payload length
    in the low 16 bits. A header word of 0 marks a free slot. */
module Header {
  import opened Memory

  const HALF_RANGE: int := 0x1_0000

  /** The producer's `(child_index << 16) | (msg_len & 0xFFFF)` stored as a
      uint32: the shift truncated to 32 bits keeps the low 16 bits of the
      index, and the two halves occupy disjoint bits, so `|` is `+`. */
  function Pack(childIndex: nat, msgLen: nat): (w: Word)
    ensures w == 0 <==> childIndex % HALF_RANGE == 0 && msgLen % HALF_RANGE == 0
  {
    (childIndex % HALF_RANGE) * HALF_RANGE + msgLen % HALF_RANGE
  }

  /** The consumer's `(header_val >> 16) & 0xFFFF`. */
  function TagOf(w: Word): (tag: nat)
    ensures tag < HALF_RANGE
  {
    w / HALF_RANGE % HALF_RANGE
  }

  /** The consumer's `header_val & 0xFFFF`, also the producer's
      `old_header & 0xFFFF` when it skips an occupied slot. */
  function LengthOf(w: Word): (len: nat)
    ensures len < HALF_RANGE
  {
    w % HALF_RANGE
  }

  /** Decoding a packed header gives back the index and length, each reduced
      to 16 bits. */
  lemma UnpackPack(childIndex: nat, msgLen: nat)
    ensures TagOf(Pack(childIndex, msgLen)) == childIndex % HALF_RANGE
    ensures LengthOf(Pack(childIndex, msgLen)) == msgLen % HALF_RANGE
    ensures msgLen < HALF_RANGE ==> LengthOf(Pack(childIndex, msgLen)) == msgLen
  {
    var hi, lo := childIndex % HALF_RANGE, msgLen % HALF_RANGE;
    DivModUnique(Pack(childIndex, msgLen), hi, lo);
  }

  /** The round trip for the values the log uses: both below 2^16. */
  lemma HeaderRoundTrip(childIndex: nat, msgLen: nat)
    requires childIndex < HALF_RANGE && msgLen < HALF_RANGE
    ensures TagOf(Pack(childIndex, msgLen)) == childIndex
    ensures LengthOf(Pack(childIndex, msgLen)) == msgLen
  {
    UnpackPack(childIndex, msgLen);
  }

  /** Every header word is the packing of its own tag and length. */
  lemma PackUnpack(w: Word)
    ensures Pack(TagOf(w), LengthOf(w)) == w
  {
    var hi := w / HALF_RANGE;
    assert w == hi * HALF_RANGE + w % HALF_RANGE;
    assert hi < HALF_RANGE;
  }

  lemma DivModUnique(w: int, hi: nat, lo: nat)
    requires lo < HALF_RANGE && w == hi * HALF_RANGE + lo
    ensures w / HALF_RANGE == hi && w % HALF_RANGE == lo
  {
  }
}
