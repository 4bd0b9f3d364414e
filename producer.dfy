/** The producer side of the log (child_process): for each message, scan the
    chain of slots from offset 0, claim the first free header word by
    compare-and-swap, then copy the payload behind it. Concurrency is read
    sequentially: each compare-and-swap is one atomic step on the buffer. */
module Producer {
  import opened Memory
  import opened Header
  import opened Messages

  /** How the claim loop for one message ends. */
  datatype Claim =
    | Claimed(off: nat)  // the header word at `off` was 0 and now holds this record
    | NoRoom             // `off + 4 + msg_len >= buffer_end`: goto child_exit
    | PassedEnd          // a skip moved the cursor to the end: the message is dropped

  /** The outcome of one child's whole run: the buffer and msg_count. */
  datatype ChildState = ChildState(mem: seq<Byte>, count: nat)

  const BASE_MESSAGES: nat := 10
  /** Child 0 writes 50 extra messages so that the buffer overflows. */
  const EXTRA_MESSAGES: nat := 50

  function MessageCount(childIndex: nat): nat
  {
    BASE_MESSAGES + if childIndex == 0 then EXTRA_MESSAGES else 0
  }

  /** The claim loop read sequentially, from candidate offset `off`: the
      compare-and-swap succeeds exactly when the word holds 0, and a failed
      one returns the occupant's header, whose length gives the next
      candidate. */
  function ClaimScan(s: seq<Byte>, off: nat, msgLen: nat): (r: Claim)
    requires |s| == PGSIZE
    ensures r.Claimed? ==> off <= r.off && r.off + HEADER_SIZE + msgLen < PGSIZE
    ensures r.Claimed? ==> LoadWord(s, r.off) == 0
    ensures r.Claimed? && off % 4 == 0 ==> r.off % 4 == 0
    decreases PGSIZE - off
  {
    if off >= PGSIZE then PassedEnd
    else if off + HEADER_SIZE + msgLen >= PGSIZE then NoRoom
    else
      var w := LoadWord(s, off);
      if w == 0 then Claimed(off)
      else ClaimScan(s, AlignOffset(off + HEADER_SIZE + LengthOf(w)), msgLen)
  }

  /** The number of iterations of the claim loop from `off`. */
  function ClaimSteps(s: seq<Byte>, off: nat, msgLen: nat): nat
    requires |s| == PGSIZE
    decreases PGSIZE - off
  {
    if off >= PGSIZE then 0
    else if off + HEADER_SIZE + msgLen >= PGSIZE then 1
    else
      var w := LoadWord(s, off);
      if w == 0 then 1
      else 1 + ClaimSteps(s, AlignOffset(off + HEADER_SIZE + LengthOf(w)), msgLen)
  }

  /** Every failed claim moves the cursor 4 bytes or more and keeps it
      aligned, so the loop for one message runs at most PGSIZE/4 times. */
  lemma {:induction false} ClaimStepsBound(s: seq<Byte>, off: nat, msgLen: nat)
    requires |s| == PGSIZE && off % 4 == 0
    ensures 4 * ClaimSteps(s, off, msgLen) <= if off < PGSIZE then PGSIZE - off else 0
    decreases PGSIZE - off
  {
    if off < PGSIZE && off + HEADER_SIZE + msgLen < PGSIZE {
      var w := LoadWord(s, off);
      if w != 0 {
        ClaimStepsBound(s, AlignOffset(off + HEADER_SIZE + LengthOf(w)), msgLen);
      }
    }
  }

  /** A message that does not fit still does not fit when it is longer. */
  lemma {:induction false} NoRoomMonotone(s: seq<Byte>, off: nat, msgLen: nat, longer: nat)
    requires |s| == PGSIZE && msgLen <= longer
    requires ClaimScan(s, off, msgLen) == NoRoom
    ensures ClaimScan(s, off, longer) == NoRoom
    decreases PGSIZE - off
  {
    if off + HEADER_SIZE + longer < PGSIZE {
      var w := LoadWord(s, off);
      NoRoomMonotone(s, AlignOffset(off + HEADER_SIZE + LengthOf(w)), msgLen, longer);
    }
  }

  /** The buffer after a claimed record: the packed header at `off`, the
      payload right behind it. */
  function WriteRecord(s: seq<Byte>, off: nat, childIndex: nat, msg: seq<Byte>): seq<Byte>
    requires off + HEADER_SIZE + |msg| <= |s|
  {
    StoreBytes(StoreWord(s, off, Pack(childIndex, |msg|)), off + HEADER_SIZE, msg)
  }

  /** What a claimed record holds, and that nothing outside it changes. */
  lemma WriteRecordContents(s: seq<Byte>, off: nat, childIndex: nat, msg: seq<Byte>)
    requires off + HEADER_SIZE + |msg| <= |s|
    ensures |WriteRecord(s, off, childIndex, msg)| == |s|
    ensures LoadWord(WriteRecord(s, off, childIndex, msg), off) == Pack(childIndex, |msg|)
    ensures WriteRecord(s, off, childIndex, msg)[off + HEADER_SIZE..off + HEADER_SIZE + |msg|] == msg
    ensures forall k :: 0 <= k < |s| && !(off <= k < off + HEADER_SIZE + |msg|) ==>
      WriteRecord(s, off, childIndex, msg)[k] == s[k]
  {
    var h := StoreWord(s, off, Pack(childIndex, |msg|));
    var r := WriteRecord(s, off, childIndex, msg);
    LoadStoreWord(s, off, Pack(childIndex, |msg|));
    forall k | 0 <= k < |s|
      ensures r[k] == if off + HEADER_SIZE <= k < off + HEADER_SIZE + |msg| then msg[k - off - HEADER_SIZE] else h[k]
    {
      StoreBytesAt(h, off + HEADER_SIZE, msg, k);
    }
    assert r[off..off + HEADER_SIZE] == h[off..off + HEADER_SIZE];
    assert r[off + HEADER_SIZE..off + HEADER_SIZE + |msg|] == msg;
  }

  /** The chain of slots from `off` as a single producer leaves it: records
      laid end to end at aligned offsets, then nothing but zero bytes. */
  ghost predicate Packed(s: seq<Byte>, off: nat)
    requires |s| == PGSIZE
    decreases PGSIZE - off
  {
    if off >= PGSIZE then true
    else if off + HEADER_SIZE > PGSIZE then ZeroFrom(s, off)
    else
      var w := LoadWord(s, off);
      if w == 0 then ZeroFrom(s, off)
      else Packed(s, AlignOffset(off + HEADER_SIZE + LengthOf(w)))
  }

  /** An all-zero tail, in particular the zeroed buffer main starts with, is
      a packed log. */
  lemma ZeroFromPacked(s: seq<Byte>, off: nat)
    requires |s| == PGSIZE && ZeroFrom(s, off)
    ensures Packed(s, off)
  {
  }

  /** A record written over a zero tail leaves the log packed from there. */
  lemma RecordOnZeroTailPacked(s: seq<Byte>, off: nat, childIndex: nat, msg: seq<Byte>)
    requires |s| == PGSIZE && ZeroFrom(s, off) && off + HEADER_SIZE + |msg| < PGSIZE
    ensures Packed(WriteRecord(s, off, childIndex, msg), off)
  {
    var r := WriteRecord(s, off, childIndex, msg);
    var h := Pack(childIndex, |msg|);
    RecordHeader(s, off, childIndex, msg);
    if h == 0 {
      EmptyRecordZero(s, off, childIndex, msg);
      ZeroFromPacked(r, off);
    } else {
      var next := AlignOffset(off + HEADER_SIZE + |msg|);
      RecordTailZero(s, off, childIndex, msg);
      ZeroFromPacked(r, next);
      PackedStep(r, off, h, next);
    }
  }

  /** The header a record writes, and the length read back from it. */
  lemma RecordHeader(s: seq<Byte>, off: nat, childIndex: nat, msg: seq<Byte>)
    requires |s| == PGSIZE && off + HEADER_SIZE + |msg| < PGSIZE
    ensures |WriteRecord(s, off, childIndex, msg)| == PGSIZE
    ensures LoadWord(WriteRecord(s, off, childIndex, msg), off) == Pack(childIndex, |msg|)
    ensures LengthOf(Pack(childIndex, |msg|)) == |msg|
  {
    WriteRecordContents(s, off, childIndex, msg);
    UnpackPack(childIndex, |msg|);
  }

  /** A record with a zero header (an empty message of an index that is 0
      modulo 2^16) writes nothing but zeros. */
  lemma EmptyRecordZero(s: seq<Byte>, off: nat, childIndex: nat, msg: seq<Byte>)
    requires |s| == PGSIZE && ZeroFrom(s, off) && off + HEADER_SIZE + |msg| < PGSIZE
    requires Pack(childIndex, |msg|) == 0
    ensures ZeroFrom(WriteRecord(s, off, childIndex, msg), off)
  {
    UnpackPack(childIndex, |msg|);
    assert WriteRecord(s, off, childIndex, msg) == StoreWord(s, off, 0);
  }

  /** Behind a record written over a zero tail, the tail is still zero. */
  lemma RecordTailZero(s: seq<Byte>, off: nat, childIndex: nat, msg: seq<Byte>)
    requires |s| == PGSIZE && ZeroFrom(s, off) && off + HEADER_SIZE + |msg| < PGSIZE
    ensures ZeroFrom(WriteRecord(s, off, childIndex, msg), AlignOffset(off + HEADER_SIZE + |msg|))
  {
    var r := WriteRecord(s, off, childIndex, msg);
    WriteRecordContents(s, off, childIndex, msg);
    forall k | AlignOffset(off + HEADER_SIZE + |msg|) <= k < PGSIZE ensures r[k] == 0 {
      assert !(off <= k < off + HEADER_SIZE + |msg|);
    }
  }

  /** On a packed log a claim lands in the zero tail, so the header and the
      payload it writes overwrite no byte of another record; and the log
      stays packed. */
  lemma {:induction false} ClaimKeepsPacked(s: seq<Byte>, off: nat, childIndex: nat, msg: seq<Byte>)
    requires |s| == PGSIZE && Packed(s, off)
    requires ClaimScan(s, off, |msg|).Claimed?
    ensures ZeroFrom(s, ClaimScan(s, off, |msg|).off)
    ensures Packed(WriteRecord(s, ClaimScan(s, off, |msg|).off, childIndex, msg), off)
    decreases PGSIZE - off
  {
    var w := LoadWord(s, off);
    if w == 0 {
      RecordOnZeroTailPacked(s, off, childIndex, msg);
    } else {
      var next := AlignOffset(off + HEADER_SIZE + LengthOf(w));
      ClaimScanSkip(s, off, w, next, |msg|);
      ClaimKeepsPacked(s, next, childIndex, msg);
      RecordBehindPacked(s, off, w, next, ClaimScan(s, next, |msg|).off, childIndex, msg);
    }
  }

  /** A failed claim at `off` moves the scan behind the occupant's record. */
  lemma ClaimScanSkip(s: seq<Byte>, off: nat, w: Word, next: nat, msgLen: nat)
    requires |s| == PGSIZE && off + HEADER_SIZE + msgLen < PGSIZE && w == LoadWord(s, off) && w != 0
    requires next == AlignOffset(off + HEADER_SIZE + LengthOf(w))
    ensures ClaimScan(s, off, msgLen) == ClaimScan(s, next, msgLen)
  {
  }

  /** A record at `c` behind the occupied slot at `off` keeps the log packed
      from `off` when it keeps it packed from the slot's successor `next`. */
  lemma RecordBehindPacked(s: seq<Byte>, off: nat, w: Word, next: nat, c: nat, childIndex: nat, msg: seq<Byte>)
    requires |s| == PGSIZE && off + HEADER_SIZE <= PGSIZE && w == LoadWord(s, off) && w != 0
    requires next == AlignOffset(off + HEADER_SIZE + LengthOf(w)) && next <= c && c + HEADER_SIZE + |msg| <= PGSIZE
    requires Packed(WriteRecord(s, c, childIndex, msg), next)
    ensures Packed(WriteRecord(s, c, childIndex, msg), off)
  {
    WriteRecordKeepsWord(s, off, c, childIndex, msg);
    PackedStep(WriteRecord(s, c, childIndex, msg), off, w, next);
  }

  /** A log is packed from a non-zero header when it is packed from behind
      that header's record. */
  lemma PackedStep(s: seq<Byte>, off: nat, w: Word, next: nat)
    requires |s| == PGSIZE && off + HEADER_SIZE <= PGSIZE && w == LoadWord(s, off) && w != 0
    requires next == AlignOffset(off + HEADER_SIZE + LengthOf(w)) && Packed(s, next)
    ensures Packed(s, off)
  {
  }

  /** A record leaves the header words in front of it as they were. */
  lemma WriteRecordKeepsWord(s: seq<Byte>, off: nat, c: nat, childIndex: nat, msg: seq<Byte>)
    requires off + HEADER_SIZE <= c && c + HEADER_SIZE + |msg| <= |s|
    ensures LoadWord(WriteRecord(s, c, childIndex, msg), off) == LoadWord(s, off)
  {
    var r := WriteRecord(s, c, childIndex, msg);
    WriteRecordContents(s, c, childIndex, msg);
    assert r[off] == s[off] && r[off + 1] == s[off + 1] && r[off + 2] == s[off + 2] && r[off + 3] == s[off + 3];
  }

  /** The scan takes the first zero word it meets without looking further:
      once the consumer has cleared a header, a longer message claimed there
      overwrites a record that is still live behind it. */
  lemma ClaimOverwritesLiveHeader(s: seq<Byte>, childIndex: nat, msg: seq<Byte>)
    requires |s| == PGSIZE && LoadWord(s, 0) == 0 && LoadWord(s, 24) != 0
    requires 24 <= |msg| <= 92
    ensures ClaimScan(s, 0, |msg|) == Claimed(0)
    ensures LoadWord(WriteRecord(s, 0, childIndex, msg), 24) == LoadWord(msg, 20)
  {
    var r := WriteRecord(s, 0, childIndex, msg);
    WriteRecordContents(s, 0, childIndex, msg);
    assert r[24] == msg[20] && r[25] == msg[21] && r[26] == msg[22] && r[27] == msg[23];
  }

  /** __sync_val_compare_and_swap on the header word at `off`: returns the
      word it found and stores `desired` only when that was `expected`. */
  method CompareAndSwap(buffer: array<Byte>, off: nat, expected: Word, desired: Word) returns (prior: Word)
    requires buffer.Length == PGSIZE && off % 4 == 0 && off + HEADER_SIZE <= PGSIZE
    modifies buffer
    ensures prior == LoadWord(old(buffer[..]), off)
    ensures buffer[..] == if prior == expected then StoreWord(old(buffer[..]), off, desired) else old(buffer[..])
  {
    prior := LoadWord(buffer[..], off);
    if prior == expected {
      var b := WordBytes(desired);
      buffer[off], buffer[off + 1], buffer[off + 2], buffer[off + 3] := b[0], b[1], b[2], b[3];
    }
  }

  /** The payload copy `for (j = 0; j < msg_len; j++) msg_ptr[j] = message[j];`. */
  method CopyPayload(buffer: array<Byte>, off: nat, msg: seq<Byte>)
    requires off + |msg| <= buffer.Length
    modifies buffer
    ensures buffer[..] == StoreBytes(old(buffer[..]), off, msg)
  {
    var j := 0;
    while j < |msg|
      invariant 0 <= j <= |msg|
      invariant buffer[..] == StorePrefix(old(buffer[..]), off, msg, j)
    {
      buffer[off + j] := msg[j];
      j := j + 1;
    }
  }

  /** The claim loop and payload copy of child_process for one message
      (the inner `while`; `goto child_exit` is the NoRoom outcome). */
  method WriteMessage(buffer: array<Byte>, childIndex: nat, msg: seq<Byte>) returns (outcome: Claim)
    requires buffer.Length == PGSIZE
    modifies buffer
    ensures outcome == ClaimScan(old(buffer[..]), 0, |msg|)
    ensures buffer[..] == if outcome.Claimed? then WriteRecord(old(buffer[..]), outcome.off, childIndex, msg)
                          else old(buffer[..])
  {
    ghost var s := buffer[..];
    var current: nat := 0;
    while current < PGSIZE
      invariant current % 4 == 0
      invariant buffer[..] == s
      invariant ClaimScan(s, current, |msg|) == ClaimScan(s, 0, |msg|)
      decreases PGSIZE - current
    {
      if current + HEADER_SIZE + |msg| >= PGSIZE {
        return NoRoom;
      }
      var prior := CompareAndSwap(buffer, current, 0, Pack(childIndex, |msg|));
      if prior == 0 {
        CopyPayload(buffer, current + HEADER_SIZE, msg);
        return Claimed(current);
      }
      var occupiedLength := LengthOf(prior);
      current := AlignOffset(current + HEADER_SIZE + occupiedLength);
    }
    return PassedEnd;
  }

  /** The messages child `childIndex` builds, in order. */
  function ChildMessages(childIndex: nat): (msgs: seq<seq<Byte>>)
    ensures |msgs| == MessageCount(childIndex)
    ensures forall i :: 0 <= i < |msgs| ==> msgs[i] == Message(childIndex, i)
  {
    seq(MessageCount(childIndex), i requires 0 <= i => Message(childIndex, i))
  }

  function AddCount(st: ChildState, k: nat): ChildState
  {
    ChildState(st.mem, st.count + k)
  }

  /** The rest of child_process for the messages `msgs` still to write: a
      message that does not fit ends the run (goto child_exit), one whose
      scan runs off the end is skipped; the count is msg_count. */
  function ChildRun(s: seq<Byte>, childIndex: nat, msgs: seq<seq<Byte>>): ChildState
    requires |s| == PGSIZE
    decreases |msgs|
  {
    if msgs == [] then ChildState(s, 0)
    else
      var msg := msgs[0];
      match ClaimScan(s, 0, |msg|)
      case NoRoom => ChildState(s, 0)
      case PassedEnd => ChildRun(s, childIndex, msgs[1..])
      case Claimed(c) => AddCount(ChildRun(WriteRecord(s, c, childIndex, msg), childIndex, msgs[1..]), 1)
  }

  /** msg_count never exceeds the number of messages, and is below it when
      the run was cut short by a message that did not fit. */
  lemma {:induction false} ChildRunCount(s: seq<Byte>, childIndex: nat, msgs: seq<seq<Byte>>)
    requires |s| == PGSIZE
    ensures |ChildRun(s, childIndex, msgs).mem| == PGSIZE
    ensures ChildRun(s, childIndex, msgs).count <= |msgs|
    ensures msgs != [] && ClaimScan(s, 0, |msgs[0]|) == NoRoom ==> ChildRun(s, childIndex, msgs) == ChildState(s, 0)
    decreases |msgs|
  {
    if msgs != [] {
      var msg := msgs[0];
      match ClaimScan(s, 0, |msg|)
      case NoRoom =>
      case PassedEnd => ChildRunCount(s, childIndex, msgs[1..]);
      case Claimed(c) => ChildRunCount(WriteRecord(s, c, childIndex, msg), childIndex, msgs[1..]);
    }
  }

  /** A child writing its messages one after another into a packed log never
      overlaps a record already there, and leaves the log packed. */
  lemma {:induction false} ChildRunKeepsPacked(s: seq<Byte>, childIndex: nat, msgs: seq<seq<Byte>>)
    requires |s| == PGSIZE && Packed(s, 0)
    ensures |ChildRun(s, childIndex, msgs).mem| == PGSIZE
    ensures Packed(ChildRun(s, childIndex, msgs).mem, 0)
    decreases |msgs|
  {
    ChildRunCount(s, childIndex, msgs);
    if msgs != [] {
      var msg := msgs[0];
      match ClaimScan(s, 0, |msg|)
      case NoRoom =>
      case PassedEnd => ChildRunKeepsPacked(s, childIndex, msgs[1..]);
      case Claimed(c) =>
        ClaimKeepsPacked(s, 0, childIndex, msg);
        ChildRunKeepsPacked(WriteRecord(s, c, childIndex, msg), childIndex, msgs[1..]);
    }
  }

  /** The loop step of RunChild, on the ghost state: message `msg`, the first
      of `rest`, was written to `s` with `outcome`, leaving `s'` and `count'`. */
  lemma RunAdvance(goal: ChildState, s: seq<Byte>, childIndex: nat, rest: seq<seq<Byte>>, count: nat,
                   msg: seq<Byte>, outcome: Claim, s': seq<Byte>, count': nat, rest': seq<seq<Byte>>)
    requires |s| == PGSIZE && rest != [] && msg == rest[0] && rest' == rest[1..]
    requires goal == AddCount(ChildRun(s, childIndex, rest), count)
    requires outcome == ClaimScan(s, 0, |msg|) && !outcome.NoRoom?
    requires s' == if outcome.Claimed? then WriteRecord(s, outcome.off, childIndex, msg) else s
    requires count' == if outcome.Claimed? then count + 1 else count
    ensures |s'| == PGSIZE && goal == AddCount(ChildRun(s', childIndex, rest'), count')
  {
    if outcome.Claimed? {
      WriteRecordContents(s, outcome.off, childIndex, msg);
    }
  }

  /** child_process up to its exit: builds each message in the 128-byte
      `message` array and writes it; returns msg_count. */
  method RunChild(buffer: array<Byte>, childIndex: nat) returns (msgCount: nat)
    requires buffer.Length == PGSIZE
    modifies buffer
    ensures ChildState(buffer[..], msgCount) == ChildRun(old(buffer[..]), childIndex, ChildMessages(childIndex))
  {
    ghost var msgs := ChildMessages(childIndex);
    ghost var goal := ChildRun(buffer[..], childIndex, msgs);
    var message := new Byte[MESSAGE_SIZE];
    msgCount := 0;
    var i := 0;
    while i < MessageCount(childIndex)
      invariant fresh(message) && message.Length == MESSAGE_SIZE
      invariant i <= |msgs|
      invariant goal == AddCount(ChildRun(buffer[..], childIndex, msgs[i..]), msgCount)
      decreases MessageCount(childIndex) - i
    {
      ghost var s, rest, count := buffer[..], msgs[i..], msgCount;
      var msgLen := BuildMessage(childIndex, i, message);
      var msg := message[..msgLen];
      var outcome := WriteMessage(buffer, childIndex, msg);
      if outcome.NoRoom? {
        assert ChildRun(s, childIndex, rest) == ChildState(s, 0);
        assert buffer[..] == s;
        break;
      }
      if outcome.Claimed? {
        msgCount := msgCount + 1;
      }
      i := i + 1;
      assert msgs[i..] == rest[1..];
      RunAdvance(goal, s, childIndex, rest, count, msg, outcome, buffer[..], msgCount, msgs[i..]);
    }
  }
}
