/** The consumer side of the log (parent_read_messages): repeated passes
    from offset 0 that read every record whose payload fits, clear its header
    to 0 and move on; the run ends after MAX_EMPTY_SCANS passes in a row that
    read nothing. */
module Consumer {
  import opened Memory
  import opened Header

  const MAX_EMPTY_SCANS: nat := 100

  /** A record as the parent prints it: the child index and the payload. */
  datatype Entry = Entry(childIndex: nat, payload: seq<Byte>)

  /** The buffer after some passes and the records they read, in order. */
  datatype Pass = Pass(mem: seq<Byte>, read: seq<Entry>)

  /** One pass of the inner loop from offset `off`. A header is read only if
      `off + 4 < buffer_end`; a non-zero one is consumed only if its payload
      ends at or before `buffer_end`; an empty word advances by 4. The
      cleared header is zeroed before the rest of the pass, so a later
      offset sees the buffer as it is after the clear. */
  function ScanPass(s: seq<Byte>, off: nat): (p: Pass)
    requires |s| == PGSIZE
    ensures |p.mem| == PGSIZE
    decreases PGSIZE - off
  {
    if off >= PGSIZE || off + HEADER_SIZE >= PGSIZE then Pass(s, [])
    else
      var w := LoadWord(s, off);
      if w == 0 then ScanPass(s, AlignOffset(off + HEADER_SIZE))
      else
        var len := LengthOf(w);
        if off + HEADER_SIZE + len > PGSIZE then Pass(s, [])
        else
          Prefixed([Entry(TagOf(w), Bytes(s, off + HEADER_SIZE, len))],
                   ScanPass(ClearWord(s, off), AlignOffset(off + HEADER_SIZE + len)))
  }

  /** A pass only ever lowers bytes to 0. */
  lemma ScanPassLowers(s: seq<Byte>, off: nat)
    requires |s| == PGSIZE
    ensures Lowers(s, ScanPass(s, off).mem)
  {
    forall k | 0 <= k < PGSIZE ensures ScanPass(s, off).mem[k] == s[k] || ScanPass(s, off).mem[k] == 0 {
      ScanPassLowersAt(s, off, k);
    }
  }

  /** ScanPassLowers for the byte at `k`. */
  lemma {:induction false} ScanPassLowersAt(s: seq<Byte>, off: nat, k: nat)
    requires |s| == PGSIZE && k < PGSIZE
    ensures ScanPass(s, off).mem[k] == s[k] || ScanPass(s, off).mem[k] == 0
    decreases PGSIZE - off
  {
    if off < PGSIZE && off + HEADER_SIZE < PGSIZE {
      var w := LoadWord(s, off);
      if w == 0 {
        ScanPassSkip(s, off);
        ScanPassLowersAt(s, AlignOffset(off + HEADER_SIZE), k);
      } else if off + HEADER_SIZE + LengthOf(w) <= PGSIZE {
        ScanPassLowersAt(ClearWord(s, off), AlignOffset(off + HEADER_SIZE + LengthOf(w)), k);
        LowersAtTake(s, off, w, LengthOf(w), k);
      }
    }
  }

  /** The step of ScanPassLowersAt that reads the record at `off`. */
  lemma LowersAtTake(s: seq<Byte>, off: nat, w: Word, len: nat, k: nat)
    requires |s| == PGSIZE && k < PGSIZE && off + HEADER_SIZE < PGSIZE && w == LoadWord(s, off) && w != 0
    requires len == LengthOf(w) && off + HEADER_SIZE + len <= PGSIZE
    requires var m := ScanPass(ClearWord(s, off), AlignOffset(off + HEADER_SIZE + len)).mem;
      m[k] == ClearWord(s, off)[k] || m[k] == 0
    ensures ScanPass(s, off).mem[k] == s[k] || ScanPass(s, off).mem[k] == 0
  {
    ScanPassTake(s, off, w, len);
    ClearWordAt(s, off, k);
  }

  /** Each record a pass reads costs at least one non-zero byte: the number
      of records read plus the non-zero bytes left never exceeds the
      non-zero bytes before. */
  lemma {:induction false} ScanPassCount(s: seq<Byte>, off: nat)
    requires |s| == PGSIZE
    ensures NonZeroCount(ScanPass(s, off).mem) + |ScanPass(s, off).read| <= NonZeroCount(s)
    decreases PGSIZE - off
  {
    if off < PGSIZE && off + HEADER_SIZE < PGSIZE {
      var w := LoadWord(s, off);
      if w == 0 {
        ScanPassCount(s, AlignOffset(off + HEADER_SIZE));
      } else if off + HEADER_SIZE + LengthOf(w) <= PGSIZE {
        var len := LengthOf(w);
        var cleared := ClearWord(s, off);
        var rest := ScanPass(cleared, AlignOffset(off + HEADER_SIZE + len));
        ScanPassTake(s, off, w, len);
        ScanPassCount(cleared, AlignOffset(off + HEADER_SIZE + len));
        ClearWordCount(s, off);
        CountStep(ScanPass(s, off), rest, Entry(TagOf(w), Bytes(s, off + HEADER_SIZE, len)),
                  NonZeroCount(cleared), NonZeroCount(s));
      }
    }
  }

  lemma CountStep(p: Pass, rest: Pass, e: Entry, cleared: nat, before: nat)
    requires p.mem == rest.mem && p.read == [e] + rest.read
    requires NonZeroCount(rest.mem) + |rest.read| <= cleared < before
    ensures NonZeroCount(p.mem) + |p.read| <= before
  {
  }

  /** A pass that reads nothing changes nothing. */
  lemma {:induction false} ScanPassNothing(s: seq<Byte>, off: nat)
    requires |s| == PGSIZE
    ensures ScanPass(s, off).read == [] ==> ScanPass(s, off).mem == s
    decreases PGSIZE - off
  {
    if off < PGSIZE && off + HEADER_SIZE < PGSIZE && LoadWord(s, off) == 0 {
      ScanPassNothing(s, AlignOffset(off + HEADER_SIZE));
    }
  }

  /** Every record has a 16-bit child index, and its header and payload fit
      in the page behind offset `from`. */
  ghost predicate EntriesFit(read: seq<Entry>, from: nat)
  {
    forall i :: 0 <= i < |read| ==>
      read[i].childIndex < HALF_RANGE && from + HEADER_SIZE + |read[i].payload| <= PGSIZE
  }

  lemma EntriesFitCons(e: Entry, rest: seq<Entry>, from: nat, later: nat)
    requires e.childIndex < HALF_RANGE && from + HEADER_SIZE + |e.payload| <= PGSIZE
    requires from <= later && EntriesFit(rest, later)
    ensures EntriesFit([e] + rest, from)
  {
  }

  lemma EntriesFitEarlier(read: seq<Entry>, from: nat, later: nat)
    requires from <= later && EntriesFit(read, later)
    ensures EntriesFit(read, from)
  {
  }

  /** Every record a pass from `off` reads has a 16-bit child index, and its
      header and payload lie in the page at or behind `off`: the pass reads a
      payload only when `o + 4 + len <= end` at an offset `o >= off`. */
  lemma {:induction false} ScanPassEntries(s: seq<Byte>, off: nat)
    requires |s| == PGSIZE
    ensures EntriesFit(ScanPass(s, off).read, off)
    decreases PGSIZE - off
  {
    if off < PGSIZE && off + HEADER_SIZE < PGSIZE {
      var w := LoadWord(s, off);
      if w == 0 {
        ScanPassSkip(s, off);
        ScanPassEntries(s, AlignOffset(off + HEADER_SIZE));
        EntriesFitEarlier(ScanPass(s, off).read, off, AlignOffset(off + HEADER_SIZE));
      } else if off + HEADER_SIZE + LengthOf(w) <= PGSIZE {
        ScanPassEntries(ClearWord(s, off), AlignOffset(off + HEADER_SIZE + LengthOf(w)));
        EntriesTake(s, off, w, LengthOf(w));
      }
    }
  }

  /** The step of ScanPassEntries that reads the record at `off`. */
  lemma EntriesTake(s: seq<Byte>, off: nat, w: Word, len: nat)
    requires |s| == PGSIZE && off + HEADER_SIZE < PGSIZE && w == LoadWord(s, off) && w != 0
    requires len == LengthOf(w) && off + HEADER_SIZE + len <= PGSIZE
    requires EntriesFit(ScanPass(ClearWord(s, off), AlignOffset(off + HEADER_SIZE + len)).read,
                        AlignOffset(off + HEADER_SIZE + len))
    ensures EntriesFit(ScanPass(s, off).read, off)
  {
    var rest := ScanPass(ClearWord(s, off), AlignOffset(off + HEADER_SIZE + len));
    ScanPassTake(s, off, w, len);
    EntriesFitCons(Entry(TagOf(w), Bytes(s, off + HEADER_SIZE, len)), rest.read, off,
                   AlignOffset(off + HEADER_SIZE + len));
  }

  /** `o` holds a header that the pass consumes: a non-zero word that passes
      both the header test and the payload test. */
  ghost predicate Consumable(s: seq<Byte>, o: nat)
    requires |s| == PGSIZE
  {
    o + HEADER_SIZE < PGSIZE && LoadWord(s, o) != 0 && o + HEADER_SIZE + LengthOf(LoadWord(s, o)) <= PGSIZE
  }

  /** The converse of ScanPassTake: a pass changes a byte only inside a
      header it consumed, one with `o + 4 < end` and `o + 4 + len <= end`. */
  lemma {:induction false} ScanPassClearsOnly(s: seq<Byte>, off: nat, k: nat)
    requires |s| == PGSIZE && k < PGSIZE && ScanPass(s, off).mem[k] != s[k]
    ensures exists o :: off <= o <= k < o + HEADER_SIZE && Consumable(s, o)
    decreases PGSIZE - off
  {
    if off < PGSIZE && off + HEADER_SIZE < PGSIZE {
      var w := LoadWord(s, off);
      if w == 0 {
        ScanPassSkip(s, off);
        ScanPassClearsOnly(s, AlignOffset(off + HEADER_SIZE), k);
      } else if off + HEADER_SIZE + LengthOf(w) <= PGSIZE {
        if off <= k < off + HEADER_SIZE {
          assert Consumable(s, off);
        } else {
          var len := LengthOf(w);
          var next := AlignOffset(off + HEADER_SIZE + len);
          ClearsOnlyStep(s, off, w, len, next, k);
          ScanPassClearsOnly(ClearWord(s, off), next, k);
          var o :| next <= o <= k < o + HEADER_SIZE && Consumable(ClearWord(s, off), o);
          ClearsOnlyBehind(s, off, o);
          assert Consumable(s, o);
        }
      }
    }
  }

  /** The take step of ScanPassClearsOnly for a byte outside the header at
      `off`: the byte changed in the rest of the pass. */
  lemma ClearsOnlyStep(s: seq<Byte>, off: nat, w: Word, len: nat, next: nat, k: nat)
    requires |s| == PGSIZE && k < PGSIZE && off + HEADER_SIZE < PGSIZE && w == LoadWord(s, off) && w != 0
    requires len == LengthOf(w) && off + HEADER_SIZE + len <= PGSIZE && next == AlignOffset(off + HEADER_SIZE + len)
    requires !(off <= k < off + HEADER_SIZE) && ScanPass(s, off).mem[k] != s[k]
    ensures ScanPass(ClearWord(s, off), next).mem[k] != ClearWord(s, off)[k]
  {
    ScanPassTake(s, off, w, len);
    ClearWordAt(s, off, k);
  }

  /** A header behind the one cleared at `off` reads as it did before. */
  lemma ClearsOnlyBehind(s: seq<Byte>, off: nat, o: nat)
    requires |s| == PGSIZE && off + HEADER_SIZE <= o && o + HEADER_SIZE <= PGSIZE
    ensures LoadWord(ClearWord(s, off), o) == LoadWord(s, o)
  {
    ClearWordAt(s, off, o);
    ClearWordAt(s, off, o + 1);
    ClearWordAt(s, off, o + 2);
    ClearWordAt(s, off, o + 3);
  }

  /** `p` with the records `read` in front of its own. */
  function Prefixed(read: seq<Entry>, p: Pass): Pass
  {
    Pass(p.mem, read + p.read)
  }

  lemma PrefixedNothing(p: Pass)
    ensures Prefixed([], p) == p
  {
    assert [] + p.read == p.read;
  }

  lemma PrefixedTwice(a: seq<Entry>, b: seq<Entry>, p: Pass)
    ensures Prefixed(a, Prefixed(b, p)) == Prefixed(a + b, p)
  {
    assert a + (b + p.read) == (a + b) + p.read;
  }

  /** A pass steps over an empty word. */
  lemma ScanPassSkip(s: seq<Byte>, off: nat)
    requires |s| == PGSIZE && off + HEADER_SIZE < PGSIZE && LoadWord(s, off) == 0
    ensures ScanPass(s, off) == ScanPass(s, AlignOffset(off + HEADER_SIZE))
  {
  }

  /** A pass reads a record whose payload fits, then goes on behind it with
      the header cleared. */
  lemma ScanPassTake(s: seq<Byte>, off: nat, w: Word, len: nat)
    requires |s| == PGSIZE && off + HEADER_SIZE < PGSIZE && w == LoadWord(s, off) && w != 0
    requires len == LengthOf(w) && off + HEADER_SIZE + len <= PGSIZE
    ensures var rest := ScanPass(ClearWord(s, off), AlignOffset(off + HEADER_SIZE + len));
      ScanPass(s, off).mem == rest.mem &&
      ScanPass(s, off).read == [Entry(TagOf(w), Bytes(s, off + HEADER_SIZE, len))] + rest.read
  {
  }

  /** The whole run of parent_read_messages from a count of `emptyScans`
      empty passes. A pass that reads something clears a non-zero header,
      so the number of non-zero bytes bounds the productive passes. */
  function Drain(s: seq<Byte>, emptyScans: nat): (p: Pass)
    requires |s| == PGSIZE
    ensures |p.mem| == PGSIZE
    decreases NonZeroCount(s), MAX_EMPTY_SCANS - emptyScans
  {
    if emptyScans >= MAX_EMPTY_SCANS then Pass(s, [])
    else
      var pass := ScanPass(s, 0);
      ScanPassCount(s, 0);
      ScanPassNothing(s, 0);
      if pass.read == [] then Drain(pass.mem, emptyScans + 1)
      else
        Prefixed(pass.read, Drain(pass.mem, 0))
  }

  /** One pass of the outer loop. */
  lemma DrainStep(s: seq<Byte>, emptyScans: nat)
    requires |s| == PGSIZE && emptyScans < MAX_EMPTY_SCANS
    ensures var pass := ScanPass(s, 0);
      Drain(s, emptyScans) ==
        if pass.read == [] then Drain(pass.mem, emptyScans + 1) else Prefixed(pass.read, Drain(pass.mem, 0))
  {
  }

  /** The parent stops only after a pass that read nothing, so the buffer it
      leaves holds nothing another pass would read. */
  lemma {:induction false} DrainQuiescent(s: seq<Byte>, emptyScans: nat)
    requires |s| == PGSIZE && emptyScans < MAX_EMPTY_SCANS
    ensures ScanPass(Drain(s, emptyScans).mem, 0).read == []
    decreases NonZeroCount(s)
  {
    if ScanPass(s, 0).read == [] {
      DrainIdle(s, emptyScans);
    } else {
      DrainBusy(s, emptyScans);
      DrainQuiescent(ScanPass(s, 0).mem, 0);
    }
  }

  /** A pass that reads something restarts the count of empty passes and
      leaves fewer non-zero bytes. */
  lemma DrainBusy(s: seq<Byte>, emptyScans: nat)
    requires |s| == PGSIZE && emptyScans < MAX_EMPTY_SCANS && ScanPass(s, 0).read != []
    ensures Drain(s, emptyScans) == Prefixed(ScanPass(s, 0).read, Drain(ScanPass(s, 0).mem, 0))
    ensures NonZeroCount(ScanPass(s, 0).mem) < NonZeroCount(s)
  {
    ScanPassCount(s, 0);
    DrainStep(s, emptyScans);
  }

  /** Each record the run reads cleared a non-zero header: total_messages
      plus the non-zero bytes left never exceeds the non-zero bytes the
      buffer started with. */
  lemma {:induction false} DrainCount(s: seq<Byte>, emptyScans: nat)
    requires |s| == PGSIZE
    ensures NonZeroCount(Drain(s, emptyScans).mem) + |Drain(s, emptyScans).read| <= NonZeroCount(s)
    decreases NonZeroCount(s), MAX_EMPTY_SCANS - emptyScans
  {
    if emptyScans < MAX_EMPTY_SCANS {
      DrainStep(s, emptyScans);
      var pass := ScanPass(s, 0);
      ScanPassCount(s, 0);
      ScanPassNothing(s, 0);
      if pass.read == [] {
        DrainCount(pass.mem, emptyScans + 1);
      } else {
        DrainCount(pass.mem, 0);
        assert Drain(s, emptyScans).read == pass.read + Drain(pass.mem, 0).read;
      }
    }
  }

  /** Once a pass reads nothing the buffer is unchanged, and so is every
      later pass: the remaining passes up to the limit are all empty. */
  lemma {:induction false} DrainIdle(s: seq<Byte>, emptyScans: nat)
    requires |s| == PGSIZE && ScanPass(s, 0).read == []
    ensures Drain(s, emptyScans) == Pass(s, [])
    decreases MAX_EMPTY_SCANS - emptyScans
  {
    if emptyScans < MAX_EMPTY_SCANS {
      ScanPassNothing(s, 0);
      DrainIdle(s, emptyScans + 1);
    }
  }

  /** A zero tail holds no record: a pass over it reads nothing. */
  lemma {:induction false} ZeroTailScan(s: seq<Byte>, off: nat)
    requires |s| == PGSIZE && ZeroFrom(s, off)
    ensures ScanPass(s, off).read == []
    decreases PGSIZE - off
  {
    if off < PGSIZE && off + HEADER_SIZE < PGSIZE {
      ZeroTailScan(s, AlignOffset(off + HEADER_SIZE));
    }
  }

  /** A cleared header is not a gap the pass steps over: the pass moves 4
      bytes on, into the consumed payload, and reads its first word as a
      header. When that word's second byte is 16 or more (as for any two
      printable ASCII bytes) the length runs past the page, and the pass
      stops there, whatever lies behind. */
  lemma StalePayloadStopsPass(s: seq<Byte>, off: nat)
    requires |s| == PGSIZE && off % 4 == 0 && off + 2 * HEADER_SIZE < PGSIZE
    requires LoadWord(s, off) == 0 && s[off + HEADER_SIZE] != 0 && s[off + HEADER_SIZE + 1] >= 16
    ensures ScanPass(s, off) == Pass(s, [])
  {
    var a := off + HEADER_SIZE;
    assert a % 4 == 0;
    assert AlignOffset(a) == a;
    ScanPassSkip(s, off);
    var w := LoadWord(s, a);
    LengthOfLoad(s, a);
    assert LengthOf(w) >= 0x1000;
    ScanPassStopsAt(s, a, w);
  }

  /** The length field of a loaded header is its two low bytes. */
  lemma LengthOfLoad(s: seq<Byte>, a: nat)
    requires a + HEADER_SIZE <= |s|
    ensures LengthOf(LoadWord(s, a)) == s[a] as int + 0x100 * s[a + 1] as int
  {
    DivModUnique(LoadWord(s, a), s[a + 2] as int + 0x100 * s[a + 3] as int, s[a] as int + 0x100 * s[a + 1] as int);
  }

  /** A pass stops at a non-zero header whose payload would run past the page. */
  lemma ScanPassStopsAt(s: seq<Byte>, a: nat, w: Word)
    requires |s| == PGSIZE && a + HEADER_SIZE <= PGSIZE && w == LoadWord(s, a) && w != 0
    requires a + HEADER_SIZE + LengthOf(w) > PGSIZE
    ensures ScanPass(s, a) == Pass(s, [])
  {
  }

  /** `*header_ptr = 0`: a plain store of a zero word. */
  method ClearHeader(buffer: array<Byte>, off: nat)
    requires off + HEADER_SIZE <= buffer.Length
    modifies buffer
    ensures buffer[..] == ClearWord(old(buffer[..]), off)
  {
    buffer[off] := 0;
    buffer[off + 1] := 0;
    buffer[off + 2] := 0;
    buffer[off + 3] := 0;
  }

  /** The loop step of ReadPass that reads a record, on the ghost state:
      `w` is the header at `off` and `len` its length. */
  lemma PassAdvance(goal: Pass, read: seq<Entry>, h: seq<Byte>, off: nat, w: Word, len: nat)
    requires |h| == PGSIZE && off + HEADER_SIZE < PGSIZE && w == LoadWord(h, off) && w != 0
    requires len == LengthOf(w) && off + HEADER_SIZE + len <= PGSIZE
    requires goal == Prefixed(read, ScanPass(h, off))
    ensures goal == Prefixed(read + [Entry(TagOf(w), Bytes(h, off + HEADER_SIZE, len))],
                             ScanPass(ClearWord(h, off), AlignOffset(off + HEADER_SIZE + len)))
  {
    var e := Entry(TagOf(w), Bytes(h, off + HEADER_SIZE, len));
    ScanPassTake(h, off, w, len);
    PrefixedTwice(read, [e], ScanPass(ClearWord(h, off), AlignOffset(off + HEADER_SIZE + len)));
  }

  /** One pass of the inner loop of parent_read_messages: returns the
      records it read (the source prints them) and messages_this_scan. */
  method ReadPass(buffer: array<Byte>) returns (read: seq<Entry>, messagesThisScan: nat)
    requires buffer.Length == PGSIZE
    modifies buffer
    ensures Pass(buffer[..], read) == ScanPass(old(buffer[..]), 0)
    ensures messagesThisScan == |read|
  {
    ghost var goal := ScanPass(buffer[..], 0);
    var current: nat := 0;
    read, messagesThisScan := [], 0;
    PrefixedNothing(goal);
    while current < PGSIZE
      invariant current % 4 == 0
      invariant messagesThisScan == |read|
      invariant goal == Prefixed(read, ScanPass(buffer[..], current))
      decreases PGSIZE - current
    {
      if current + HEADER_SIZE >= PGSIZE {
        break;
      }
      var headerVal := LoadWord(buffer[..], current);
      if headerVal == 0 {
        ScanPassSkip(buffer[..], current);
        current := AlignOffset(current + HEADER_SIZE);
        continue;
      }
      var childIndex, msgLength := TagOf(headerVal), LengthOf(headerVal);
      if current + HEADER_SIZE + msgLength > PGSIZE {
        break;
      }
      ghost var h := buffer[..];
      var payload := Bytes(buffer[..], current + HEADER_SIZE, msgLength);
      PassAdvance(goal, read, h, current, headerVal, msgLength);
      ClearHeader(buffer, current);
      read := read + [Entry(childIndex, payload)];
      messagesThisScan := messagesThisScan + 1;
      current := AlignOffset(current + HEADER_SIZE + msgLength);
    }
  }

  /** The outer loop step of ReadMessages, on the ghost state: the pass from
      `h` left `mem` and read `read`, and `next` is the new empty_scans. */
  lemma DrainAdvance(goal: Pass, log: seq<Entry>, h: seq<Byte>, emptyScans: nat,
                     mem: seq<Byte>, read: seq<Entry>, next: nat)
    requires |h| == PGSIZE && emptyScans < MAX_EMPTY_SCANS
    requires goal == Prefixed(log, Drain(h, emptyScans))
    requires mem == ScanPass(h, 0).mem && read == ScanPass(h, 0).read
    requires next == if |read| == 0 then emptyScans + 1 else 0
    ensures |mem| == PGSIZE && goal == Prefixed(log + read, Drain(mem, next))
    ensures |read| == 0 ==> mem == h
    ensures |read| != 0 ==> NonZeroCount(mem) < NonZeroCount(h)
  {
    ScanPassCount(h, 0);
    ScanPassNothing(h, 0);
    DrainStep(h, emptyScans);
    PrefixedTwice(log, read, Drain(mem, next));
  }

  /** parent_read_messages: passes until MAX_EMPTY_SCANS in a row read
      nothing; returns total_messages and the records read, in order. */
  method ReadMessages(buffer: array<Byte>) returns (totalMessages: nat, log: seq<Entry>)
    requires buffer.Length == PGSIZE
    modifies buffer
    ensures Pass(buffer[..], log) == Drain(old(buffer[..]), 0)
    ensures totalMessages == |log|
  {
    ghost var goal := Drain(buffer[..], 0);
    totalMessages, log := 0, [];
    var emptyScans := 0;
    PrefixedNothing(goal);
    while emptyScans < MAX_EMPTY_SCANS
      invariant totalMessages == |log|
      invariant goal == Prefixed(log, Drain(buffer[..], emptyScans))
      decreases NonZeroCount(buffer[..]), MAX_EMPTY_SCANS - emptyScans
    {
      ghost var h, e, before := buffer[..], emptyScans, log;
      var read, messagesThisScan := ReadPass(buffer);
      totalMessages := totalMessages + messagesThisScan;
      log := log + read;
      if messagesThisScan == 0 {
        emptyScans := emptyScans + 1;
      } else {
        emptyScans := 0;
      }
      DrainAdvance(goal, before, h, e, buffer[..], read, emptyScans);
    }
  }
}
