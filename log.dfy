/** Producer and consumer together, on a log that only producers have
    written to: the consumer reads back, in order, exactly the records the
    producers claimed. */
module Log {
  import opened Memory
  import opened Header
  import opened Producer
  import opened Consumer
  import opened Messages

  /** The records laid end to end from `off`, up to the first zero header or
      the first record whose payload would run past the end of the page. */
  function Chain(s: seq<Byte>, off: nat): seq<Entry>
    requires |s| == PGSIZE
    decreases PGSIZE - off
  {
    if off >= PGSIZE || off + HEADER_SIZE >= PGSIZE then []
    else
      var w := LoadWord(s, off);
      if w == 0 then []
      else
        var len := LengthOf(w);
        if off + HEADER_SIZE + len > PGSIZE then []
        else [Entry(TagOf(w), Bytes(s, off + HEADER_SIZE, len))] + Chain(s, AlignOffset(off + HEADER_SIZE + len))
  }

  /** `s` and `t` hold the same bytes from `off` to the end of the page. */
  ghost predicate SameFrom(s: seq<Byte>, t: seq<Byte>, off: nat)
  {
    |s| == |t| && forall k :: off <= k < |s| ==> s[k] == t[k]
  }

  /** The unfolding of Chain at a record whose fields are known. */
  lemma ChainCons(s: seq<Byte>, off: nat, w: Word, len: nat, next: nat)
    requires |s| == PGSIZE && off + HEADER_SIZE < PGSIZE && w == LoadWord(s, off) && w != 0
    requires len == LengthOf(w) && off + HEADER_SIZE + len <= PGSIZE
    requires next == AlignOffset(off + HEADER_SIZE + len)
    ensures Chain(s, off) == [Entry(TagOf(w), Bytes(s, off + HEADER_SIZE, len))] + Chain(s, next)
  {
  }

  /** The chain from `off` depends only on the bytes from `off` on. */
  lemma {:induction false} ChainFrame(s: seq<Byte>, t: seq<Byte>, off: nat)
    requires |s| == PGSIZE && SameFrom(s, t, off)
    ensures Chain(s, off) == Chain(t, off)
    decreases PGSIZE - off
  {
    if off < PGSIZE && off + HEADER_SIZE < PGSIZE {
      var w := LoadWord(s, off);
      assert LoadWord(t, off) == w;
      if w != 0 && off + HEADER_SIZE + LengthOf(w) <= PGSIZE {
        var len := LengthOf(w);
        var next := AlignOffset(off + HEADER_SIZE + len);
        BytesFrame(s, t, off + HEADER_SIZE, len);
        ChainFrame(s, t, next);
        ChainCons(s, off, w, len, next);
        ChainCons(t, off, w, len, next);
      }
    }
  }

  /** So does whether the log is packed from `off`. */
  lemma {:induction false} PackedFrame(s: seq<Byte>, t: seq<Byte>, off: nat)
    requires |s| == PGSIZE && SameFrom(s, t, off) && Packed(s, off)
    ensures Packed(t, off)
    decreases PGSIZE - off
  {
    if off < PGSIZE && off + HEADER_SIZE <= PGSIZE {
      var w := LoadWord(s, off);
      assert LoadWord(t, off) == w;
      if w != 0 {
        PackedFrame(s, t, AlignOffset(off + HEADER_SIZE + LengthOf(w)));
      }
    }
  }

  /** Clearing a header leaves the bytes behind it. */
  lemma ClearWordSameFrom(s: seq<Byte>, off: nat, from: nat)
    requires off + HEADER_SIZE <= from && off + HEADER_SIZE <= |s|
    ensures SameFrom(s, ClearWord(s, off), from)
  {
    forall k | from <= k < |s| ensures s[k] == ClearWord(s, off)[k] {
      ClearWordAt(s, off, k);
    }
  }

  /** A zero tail holds no chain. */
  lemma ZeroChain(s: seq<Byte>, off: nat)
    requires |s| == PGSIZE && ZeroFrom(s, off)
    ensures Chain(s, off) == []
  {
    if off < PGSIZE && off + HEADER_SIZE < PGSIZE {
      assert s[off] == 0 && s[off + 1] == 0 && s[off + 2] == 0 && s[off + 3] == 0;
    }
  }

  /** On a packed log a consumer pass reads exactly the chain: stepping over
      empty words finds nothing in the zero tail, and clearing a header does
      not disturb the records behind it. */
  lemma {:induction false} ScanPassReadsChain(s: seq<Byte>, off: nat)
    requires |s| == PGSIZE && Packed(s, off)
    ensures ScanPass(s, off).read == Chain(s, off)
    decreases PGSIZE - off
  {
    if off < PGSIZE && off + HEADER_SIZE < PGSIZE {
      var w := LoadWord(s, off);
      if w == 0 {
        ZeroTailScan(s, off);
      } else if off + HEADER_SIZE + LengthOf(w) <= PGSIZE {
        var len := LengthOf(w);
        var next := AlignOffset(off + HEADER_SIZE + len);
        ClearWordSameFrom(s, off, next);
        PackedFrame(s, ClearWord(s, off), next);
        ScanPassReadsChain(ClearWord(s, off), next);
        ChainFrame(s, ClearWord(s, off), next);
        ReadChainStep(s, off, w, len, next);
      }
    }
  }

  /** The step of ScanPassReadsChain that reads the record at `off`. */
  lemma ReadChainStep(s: seq<Byte>, off: nat, w: Word, len: nat, next: nat)
    requires |s| == PGSIZE && off + HEADER_SIZE < PGSIZE && w == LoadWord(s, off) && w != 0
    requires len == LengthOf(w) && off + HEADER_SIZE + len <= PGSIZE
    requires next == AlignOffset(off + HEADER_SIZE + len)
    requires ScanPass(ClearWord(s, off), next).read == Chain(s, next)
    ensures ScanPass(s, off).read == Chain(s, off)
  {
    ScanPassTake(s, off, w, len);
    ChainCons(s, off, w, len, next);
  }

  /** A claim on a packed log appends its record to the chain, tagged with
      the child index reduced to 16 bits. */
  lemma {:induction false} ClaimExtendsChain(s: seq<Byte>, off: nat, childIndex: nat, msg: seq<Byte>)
    requires |s| == PGSIZE && Packed(s, off) && |msg| > 0
    requires ClaimScan(s, off, |msg|).Claimed?
    ensures Chain(WriteRecord(s, ClaimScan(s, off, |msg|).off, childIndex, msg), off)
              == Chain(s, off) + [Entry(childIndex % HALF_RANGE, msg)]
    decreases PGSIZE - off
  {
    var w := LoadWord(s, off);
    if w == 0 {
      NewRecordChain(s, off, childIndex, msg);
    } else {
      var next := AlignOffset(off + HEADER_SIZE + LengthOf(w));
      ClaimScanSkip(s, off, w, next, |msg|);
      ClaimExtendsChain(s, next, childIndex, msg);
      ChainBehind(s, off, w, next, ClaimScan(s, next, |msg|).off, childIndex, msg);
    }
  }

  /** A record claimed on a zero tail is the whole chain from there. */
  lemma NewRecordChain(s: seq<Byte>, off: nat, childIndex: nat, msg: seq<Byte>)
    requires |s| == PGSIZE && ZeroFrom(s, off) && 0 < |msg| && off + HEADER_SIZE + |msg| < PGSIZE
    ensures Chain(WriteRecord(s, off, childIndex, msg), off) == [Entry(childIndex % HALF_RANGE, msg)]
  {
    var r := WriteRecord(s, off, childIndex, msg);
    var h := Pack(childIndex, |msg|);
    RecordHeader(s, off, childIndex, msg);
    UnpackPack(childIndex, |msg|);
    WriteRecordContents(s, off, childIndex, msg);
    BytesSlice(r, off + HEADER_SIZE, |msg|);
    RecordTailZero(s, off, childIndex, msg);
    ZeroChain(r, AlignOffset(off + HEADER_SIZE + |msg|));
    ChainCons(r, off, h, |msg|, AlignOffset(off + HEADER_SIZE + |msg|));
  }

  /** A record at `c` behind the record at `off` leaves that record as it
      was, so the chain from `off` gains what the chain from `next` gains. */
  lemma ChainBehind(s: seq<Byte>, off: nat, w: Word, next: nat, c: nat, childIndex: nat, msg: seq<Byte>)
    requires |s| == PGSIZE && off + HEADER_SIZE < PGSIZE && w == LoadWord(s, off) && w != 0
    requires next == AlignOffset(off + HEADER_SIZE + LengthOf(w)) && next <= c && c + HEADER_SIZE + |msg| < PGSIZE
    requires Chain(WriteRecord(s, c, childIndex, msg), next) == Chain(s, next) + [Entry(childIndex % HALF_RANGE, msg)]
    ensures Chain(WriteRecord(s, c, childIndex, msg), off) == Chain(s, off) + [Entry(childIndex % HALF_RANGE, msg)]
  {
    var r := WriteRecord(s, c, childIndex, msg);
    var len := LengthOf(w);
    RecordKeepsEarlier(s, off, len, c, childIndex, msg);
    ChainCons(s, off, w, len, next);
    ChainCons(r, off, w, len, next);
  }

  /** A record written at `c` leaves the header and payload of a record that
      ends at or before `c`. */
  lemma RecordKeepsEarlier(s: seq<Byte>, off: nat, len: nat, c: nat, childIndex: nat, msg: seq<Byte>)
    requires off + HEADER_SIZE + len <= c && c + HEADER_SIZE + |msg| <= |s|
    ensures LoadWord(WriteRecord(s, c, childIndex, msg), off) == LoadWord(s, off)
    ensures Bytes(WriteRecord(s, c, childIndex, msg), off + HEADER_SIZE, len) == Bytes(s, off + HEADER_SIZE, len)
  {
    WriteRecordContents(s, c, childIndex, msg);
    WriteRecordKeepsWord(s, off, c, childIndex, msg);
    BytesFrame(s, WriteRecord(s, c, childIndex, msg), off + HEADER_SIZE, len);
  }

  /** The round trip of the log: after a claim on a packed log, a consumer
      pass reads the records it would have read before, then the new
      message, tagged with its child's index. */
  lemma ClaimThenRead(s: seq<Byte>, childIndex: nat, msg: seq<Byte>)
    requires |s| == PGSIZE && Packed(s, 0) && |msg| > 0
    requires ClaimScan(s, 0, |msg|).Claimed?
    ensures ScanPass(WriteRecord(s, ClaimScan(s, 0, |msg|).off, childIndex, msg), 0).read
              == ScanPass(s, 0).read + [Entry(childIndex % HALF_RANGE, msg)]
  {
    var r := WriteRecord(s, ClaimScan(s, 0, |msg|).off, childIndex, msg);
    ClaimKeepsPacked(s, 0, childIndex, msg);
    ScanPassReadsChain(s, 0);
    ScanPassReadsChain(r, 0);
    ClaimExtendsChain(s, 0, childIndex, msg);
  }

  /** The records a child run appends to the log, in the order it claims
      them: one per message whose claim succeeds, tagged with the child's
      index reduced to 16 bits; a dropped message adds none, and a message
      that does not fit ends the list. */
  function ChildRunEntries(s: seq<Byte>, childIndex: nat, msgs: seq<seq<Byte>>): (es: seq<Entry>)
    requires |s| == PGSIZE
    ensures |es| == ChildRun(s, childIndex, msgs).count
    ensures forall j :: 0 <= j < |es| ==> es[j].childIndex == childIndex % HALF_RANGE && es[j].payload in msgs
    decreases |msgs|
  {
    if msgs == [] then []
    else
      var msg := msgs[0];
      SubsetTail(msgs);
      match ClaimScan(s, 0, |msg|)
      case NoRoom => []
      case PassedEnd => ChildRunEntries(s, childIndex, msgs[1..])
      case Claimed(c) =>
        [Entry(childIndex % HALF_RANGE, msg)] + ChildRunEntries(WriteRecord(s, c, childIndex, msg), childIndex, msgs[1..])
  }

  lemma SubsetTail(msgs: seq<seq<Byte>>)
    requires msgs != []
    ensures forall m :: m in msgs[1..] ==> m in msgs
  {
  }

  /** A child run on a packed log: a consumer pass afterwards reads what it
      would have read before, then exactly the records the run claimed, in
      claim order. */
  lemma {:induction false} ChildRunReadBack(s: seq<Byte>, childIndex: nat, msgs: seq<seq<Byte>>)
    requires |s| == PGSIZE && Packed(s, 0)
    requires forall m :: m in msgs ==> |m| > 0
    ensures |ChildRun(s, childIndex, msgs).mem| == PGSIZE
    ensures ScanPass(ChildRun(s, childIndex, msgs).mem, 0).read
              == ScanPass(s, 0).read + ChildRunEntries(s, childIndex, msgs)
    decreases |msgs|
  {
    ChildRunCount(s, childIndex, msgs);
    if msgs != [] {
      var msg := msgs[0];
      assert msg in msgs;
      SubsetTail(msgs);
      match ClaimScan(s, 0, |msg|)
      case NoRoom =>
      case PassedEnd =>
        ChildRunReadBack(s, childIndex, msgs[1..]);
      case Claimed(c) =>
        var r := WriteRecord(s, c, childIndex, msg);
        ClaimKeepsPacked(s, 0, childIndex, msg);
        ClaimThenRead(s, childIndex, msg);
        ChildRunReadBack(r, childIndex, msgs[1..]);
        ReadBackCons(ScanPass(s, 0).read, Entry(childIndex % HALF_RANGE, msg),
                     ChildRunEntries(r, childIndex, msgs[1..]));
    }
  }

  lemma ReadBackCons(before: seq<Entry>, e: Entry, rest: seq<Entry>)
    ensures (before + [e]) + rest == before + ([e] + rest)
  {
  }

  /** Every message child_process builds is non-empty: at least "Child ". */
  lemma ChildMessagesNonEmpty(childIndex: nat)
    ensures forall m :: m in ChildMessages(childIndex) ==> |m| > 0
  {
    forall m | m in ChildMessages(childIndex) ensures |m| > 0 {
      var i :| 0 <= i < |ChildMessages(childIndex)| && ChildMessages(childIndex)[i] == m;
      MessageBound(childIndex, i);
      if Digit(childIndex) != 0 {
        MessageShape(childIndex, i);
      }
    }
  }

  /** A whole child_process run on a packed log, in particular on the zeroed
      page: every message it counts is there for the consumer to read, in
      the order it was claimed and tagged with the child's index. */
  lemma ChildProcessReadBack(s: seq<Byte>, childIndex: nat)
    requires |s| == PGSIZE && Packed(s, 0)
    ensures |ChildRun(s, childIndex, ChildMessages(childIndex)).mem| == PGSIZE
    ensures ScanPass(ChildRun(s, childIndex, ChildMessages(childIndex)).mem, 0).read
              == ScanPass(s, 0).read + ChildRunEntries(s, childIndex, ChildMessages(childIndex))
  {
    ChildMessagesNonEmpty(childIndex);
    ChildRunReadBack(s, childIndex, ChildMessages(childIndex));
  }

  /** Once the consumer has cleared the record at offset 0, a later pass
      reads nothing at all until a producer claims offset 0 again: it steps
      into the old payload, whose "Ch" reads as a length beyond the page. */
  lemma ConsumedFrontHidesRest(s: seq<Byte>, childIndex: nat, msg: seq<Byte>)
    requires |s| == PGSIZE && |PREFIX| <= |msg| && HEADER_SIZE + |msg| < PGSIZE && msg[..|PREFIX|] == PREFIX
    ensures ScanPass(ClearWord(WriteRecord(s, 0, childIndex, msg), 0), 0).read == []
  {
    var r := WriteRecord(s, 0, childIndex, msg);
    var c := ClearWord(r, 0);
    WriteRecordContents(s, 0, childIndex, msg);
    assert r[4] == msg[0] == 'C' as int && r[5] == msg[1] == 'h' as int;
    ClearWordAt(r, 0, 4);
    ClearWordAt(r, 0, 5);
    StoreZeroWord(r, 0);
    StalePayloadStopsPass(c, 0);
  }
}
