/** The shared page as the log test sees it: a 4096-byte region of bytes,
    addressed by offsets from its (page-aligned) base, read and written one
    byte or one little-endian 32-bit word at a time. */
module Memory {

  const PGSIZE: nat := 4096
  /** sizeof(struct msg_header): two uint16 fields. */
  const HEADER_SIZE: nat := 4

  const BYTE_RANGE: int := 0x100
  const WORD_RANGE: int := 0x1_0000_0000
  const U64_RANGE: int := 0x1_0000_0000_0000_0000

  type Byte = b: int | 0 <= b < BYTE_RANGE
  type Word = w: int | 0 <= w < WORD_RANGE
  type U64 = a: int | 0 <= a < U64_RANGE

  /** align_addr: `(addr + 3) & ~3` on uint64. The sum wraps modulo 2^64, and
      clearing the two low bits of an unsigned value x is x - x % 4. */
  function AlignAddr(addr: U64): (r: U64)
    ensures r % 4 == 0
    ensures addr + 3 < U64_RANGE ==> addr <= r < addr + 4
    ensures addr % 4 == 0 ==> r == addr
    ensures addr + 3 >= U64_RANGE ==> r == 0
  {
    var sum := (addr + 3) % U64_RANGE;
    sum - sum % 4
  }

  /** The model addresses the page by offsets from its base, which stay far
      below 2^64; on an offset, align_addr rounds up to a multiple of 4. */
  function AlignOffset(off: nat): (r: nat)
    ensures r % 4 == 0 && off <= r < off + 4
    ensures off % 4 == 0 ==> r == off
  {
    off + 3 - (off + 3) % 4
  }

  /** The source aligns absolute addresses; for a 4-aligned base and no
      wrap-around, aligning the address is aligning the offset. */
  lemma AlignAddrShift(base: U64, off: nat)
    requires base % 4 == 0 && base + off + 3 < U64_RANGE
    ensures AlignAddr(base + off) == base + AlignOffset(off)
  {
    var q := base / 4;
    assert base == 4 * q;
    assert (base + off + 3) % 4 == (off + 3) % 4 by {
      assert base + off + 3 == 4 * q + (off + 3);
    }
  }

  /** A little-endian uint32 load of bytes [off, off+4). */
  function LoadWord(s: seq<Byte>, off: nat): (w: Word)
    requires off + HEADER_SIZE <= |s|
    ensures w == 0 <==> s[off] == 0 && s[off + 1] == 0 && s[off + 2] == 0 && s[off + 3] == 0
  {
    s[off] as int + 0x100 * s[off + 1] as int + 0x1_0000 * s[off + 2] as int + 0x100_0000 * s[off + 3] as int
  }

  /** The four bytes of a little-endian uint32, lowest first. */
  function WordBytes(w: Word): (b: seq<Byte>)
    ensures |b| == HEADER_SIZE
    ensures w == 0 <==> b == [0, 0, 0, 0]
  {
    [w % 0x100, w / 0x100 % 0x100, w / 0x1_0000 % 0x100, w / 0x100_0000]
  }

  /** The first `n` bytes of `data` written one by one from offset `off`, as
      a copy loop does after `n` iterations. */
  function StorePrefix(s: seq<Byte>, off: nat, data: seq<Byte>, n: nat): (r: seq<Byte>)
    requires n <= |data| && off + |data| <= |s|
    ensures |r| == |s|
  {
    if n == 0 then s else StorePrefix(s, off, data, n - 1)[off + n - 1 := data[n - 1]]
  }

  /** Writes the bytes `data` at offset `off`. */
  function StoreBytes(s: seq<Byte>, off: nat, data: seq<Byte>): (r: seq<Byte>)
    requires off + |data| <= |s|
    ensures |r| == |s|
  {
    StorePrefix(s, off, data, |data|)
  }

  /** After `n` bytes of the copy, those bytes hold `data` and every other
      byte is as it was. */
  lemma {:induction false} StorePrefixAt(s: seq<Byte>, off: nat, data: seq<Byte>, n: nat, k: nat)
    requires n <= |data| && off + |data| <= |s| && k < |s|
    ensures StorePrefix(s, off, data, n)[k] == if off <= k < off + n then data[k - off] else s[k]
  {
    if n > 0 {
      StorePrefixAt(s, off, data, n - 1, k);
    }
  }

  /** StoreBytes writes `data` at `off` and leaves every other byte. */
  lemma StoreBytesAt(s: seq<Byte>, off: nat, data: seq<Byte>, k: nat)
    requires off + |data| <= |s| && k < |s|
    ensures StoreBytes(s, off, data)[k] == if off <= k < off + |data| then data[k - off] else s[k]
  {
    StorePrefixAt(s, off, data, |data|, k);
  }

  /** A little-endian uint32 store at offset `off`. */
  function StoreWord(s: seq<Byte>, off: nat, w: Word): (r: seq<Byte>)
    requires off + HEADER_SIZE <= |s|
    ensures |r| == |s|
  {
    var b := WordBytes(w);
    s[off := b[0]][off + 1 := b[1]][off + 2 := b[2]][off + 3 := b[3]]
  }

  /** Loading a word just stored gives it back. */
  lemma LoadStoreWord(s: seq<Byte>, off: nat, w: Word)
    requires off + HEADER_SIZE <= |s|
    ensures LoadWord(StoreWord(s, off, w), off) == w
  {
    var r := StoreWord(s, off, w);
    var b := WordBytes(w);
    assert r[off] == b[0] && r[off + 1] == b[1] && r[off + 2] == b[2] && r[off + 3] == b[3];
    var q1 := w / 0x100;
    var q2 := q1 / 0x100;
    var q3 := q2 / 0x100;
    assert w == w % 0x100 + 0x100 * q1;
    assert q1 == q1 % 0x100 + 0x100 * q2;
    assert q2 == q2 % 0x100 + 0x100 * q3;
    assert w / 0x1_0000 == q2;
    assert w / 0x100_0000 == q3;
  }

  /** The `n` bytes of `s` from offset `a`, one at a time. */
  function Bytes(s: seq<Byte>, a: nat, n: nat): (r: seq<Byte>)
    requires a + n <= |s|
    ensures |r| == n
    decreases n
  {
    if n == 0 then [] else [s[a]] + Bytes(s, a + 1, n - 1)
  }

  /** Byte `j` of Bytes is byte `a + j` of `s`. */
  lemma {:induction false} BytesAt(s: seq<Byte>, a: nat, n: nat, j: nat)
    requires a + n <= |s| && j < n
    ensures Bytes(s, a, n)[j] == s[a + j]
    decreases n
  {
    if j > 0 {
      BytesAt(s, a + 1, n - 1, j - 1);
    }
  }

  /** Bytes is the slice `s[a..a + n]`. */
  lemma BytesSlice(s: seq<Byte>, a: nat, n: nat)
    requires a + n <= |s|
    ensures Bytes(s, a, n) == s[a..a + n]
  {
    forall j | 0 <= j < n ensures Bytes(s, a, n)[j] == s[a..a + n][j] {
      BytesAt(s, a, n, j);
    }
  }

  /** Bytes reads only the bytes it returns. */
  lemma BytesFrame(s: seq<Byte>, t: seq<Byte>, a: nat, n: nat)
    requires a + n <= |s| && a + n <= |t|
    requires forall k :: a <= k < a + n ==> s[k] == t[k]
    ensures Bytes(s, a, n) == Bytes(t, a, n)
  {
    forall j | 0 <= j < n ensures Bytes(s, a, n)[j] == Bytes(t, a, n)[j] {
      BytesAt(s, a, n, j);
      BytesAt(t, a, n, j);
    }
  }

  /** A store of the zero word: its four bytes set to 0. */
  function ClearWord(s: seq<Byte>, off: nat): (r: seq<Byte>)
    requires off + HEADER_SIZE <= |s|
  {
    s[off := 0][off + 1 := 0][off + 2 := 0][off + 3 := 0]
  }

  /** Clearing a word is storing the zero word, and it reads back as 0. */
  lemma StoreZeroWord(s: seq<Byte>, off: nat)
    requires off + HEADER_SIZE <= |s|
    ensures StoreWord(s, off, 0) == ClearWord(s, off)
    ensures LoadWord(ClearWord(s, off), off) == 0
  {
    assert WordBytes(0) == [0, 0, 0, 0];
  }

  /** Every byte from `off` to the end of the region is 0. */
  ghost predicate ZeroFrom(s: seq<Byte>, off: nat)
  {
    forall k :: off <= k < |s| ==> s[k] == 0
  }

  /** The number of non-zero bytes among the first `n`. */
  function NonZeroBelow(s: seq<Byte>, n: nat): (c: nat)
    requires n <= |s|
    ensures c <= n
  {
    if n == 0 then 0 else NonZeroBelow(s, n - 1) + if s[n - 1] != 0 then 1 else 0
  }

  /** The number of non-zero bytes; it bounds how often the consumer can clear
      a non-zero header. */
  function NonZeroCount(s: seq<Byte>): (n: nat)
    ensures n <= |s|
  {
    NonZeroBelow(s, |s|)
  }

  /** `r` is `s` with some bytes, possibly none, overwritten by 0. */
  ghost predicate Lowers(s: seq<Byte>, r: seq<Byte>)
  {
    |r| == |s| && forall k :: 0 <= k < |s| ==> r[k] == s[k] || r[k] == 0
  }

  /** Clearing a word sets its four bytes to 0 and leaves every other byte. */
  lemma ClearWordAt(s: seq<Byte>, off: nat, k: nat)
    requires off + HEADER_SIZE <= |s| && k < |s|
    ensures |ClearWord(s, off)| == |s|
    ensures ClearWord(s, off)[k] == if off <= k < off + HEADER_SIZE then 0 else s[k]
  {
  }

  /** Clearing a word lowers the buffer. */
  lemma ClearWordLowers(s: seq<Byte>, off: nat)
    requires off + HEADER_SIZE <= |s|
    ensures Lowers(s, ClearWord(s, off))
  {
  }

  /** Clearing a word never adds a non-zero byte, and removes one when the
      word was not already 0. */
  lemma ClearWordCount(s: seq<Byte>, off: nat)
    requires off + HEADER_SIZE <= |s|
    ensures NonZeroCount(ClearWord(s, off)) <= NonZeroCount(s)
    ensures LoadWord(s, off) != 0 ==> NonZeroCount(ClearWord(s, off)) < NonZeroCount(s)
  {
    var r := ClearWord(s, off);
    ClearWordLowers(s, off);
    assert r[off] == 0 && r[off + 1] == 0 && r[off + 2] == 0 && r[off + 3] == 0;
    var k := if s[off] != 0 then off else if s[off + 1] != 0 then off + 1
      else if s[off + 2] != 0 then off + 2 else off + 3;
    NonZeroBelowClears(s, r, |s|, k);
  }

  /** Clearing bytes never adds to the count of the first `n`; clearing a
      non-zero byte `k` among them lowers it. */
  lemma {:induction false} NonZeroBelowClears(s: seq<Byte>, r: seq<Byte>, n: nat, k: nat)
    requires Lowers(s, r) && n <= |s| && k < |s|
    ensures NonZeroBelow(r, n) <= NonZeroBelow(s, n)
    ensures k < n && s[k] != 0 && r[k] == 0 ==> NonZeroBelow(r, n) < NonZeroBelow(s, n)
  {
    if n > 0 {
      NonZeroBelowClears(s, r, n - 1, k);
      assert r[n - 1] == s[n - 1] || r[n - 1] == 0;
    }
  }
}
