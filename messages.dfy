/** The messages a child builds: three shapes chosen by `i % 3`, each
    assembled byte by byte in a stack buffer `temp` and then copied into the
    128-byte `message` array with copy_string. */
module Messages {
  import opened Memory
  import opened CStrings

  const MESSAGE_SIZE: nat := 128
  const SHORT_TEMP_SIZE: nat := 64
  const MEDIUM_TEMP_SIZE: nat := 80
  const LONG_TEMP_SIZE: nat := 120

  /** The bytes of an ASCII string literal, without its terminating NUL; a
      literal holds no NUL of its own before that terminator. */
  function Ascii(s: string): (b: seq<Byte>)
    requires forall c :: c in s ==> 0 < c as int < BYTE_RANGE
    ensures |b| == |s| && forall i :: 0 <= i < |s| ==> b[i] == s[i] as int
    ensures 0 !in b
  {
    assert forall i :: 0 <= i < |s| ==> s[i] in s;
    seq(|s|, i requires 0 <= i < |s| => s[i] as int)
  }

  const PREFIX: seq<Byte> := Ascii("Child ")
  const SHORT_MIDDLE: seq<Byte> := Ascii(": Short msg ")
  const MEDIUM_MIDDLE: seq<Byte> := Ascii(": Medium length message ")
  const MEDIUM_SUFFIX: seq<Byte> := Ascii(" with more text")
  const LONG_MIDDLE: seq<Byte> := Ascii(": Very long message number ")
  /** The long suffix, written as three literals, each short enough for the
      verifier to read byte by byte. */
  const LONG_SUFFIX: seq<Byte> := LONG_SUFFIX_HEAD + LONG_SUFFIX_MIDDLE + LONG_SUFFIX_TAIL
  const LONG_SUFFIX_HEAD: seq<Byte> := Ascii(" with lots of extra text")
  const LONG_SUFFIX_MIDDLE: seq<Byte> := Ascii(" to test variable")
  const LONG_SUFFIX_TAIL: seq<Byte> := Ascii(" length handling")

  /** `'0' + x` stored into a char: the sum truncated to its low 8 bits. */
  function Digit(x: int): (d: Byte)
    ensures 0 <= x < 10 ==> d == '0' as int + x
  {
    ('0' as int + x) % BYTE_RANGE
  }

  /** What the builder writes into `temp` before the terminating NUL. */
  function Text(childIndex: nat, i: nat): seq<Byte>
  {
    var index, seqNo := Digit(childIndex), Digit(i % 10);
    if i % 3 == 0 then PREFIX + [index] + SHORT_MIDDLE + [seqNo]
    else if i % 3 == 1 then PREFIX + [index] + MEDIUM_MIDDLE + [seqNo] + MEDIUM_SUFFIX
    else PREFIX + [index] + LONG_MIDDLE + [seqNo] + LONG_SUFFIX
  }

  /** The message copy_string leaves in `message`: the text up to its first
      NUL (only the index byte can be one, when `'0' + child_index` wraps to 0). */
  function Message(childIndex: nat, i: nat): seq<Byte>
  {
    CString(Text(childIndex, i))
  }

  /** The size of `temp` in the branch that `i % 3` selects. */
  function TempSize(i: nat): nat
  {
    if i % 3 == 0 then SHORT_TEMP_SIZE else if i % 3 == 1 then MEDIUM_TEMP_SIZE else LONG_TEMP_SIZE
  }

  /** The length of the text in each branch: 20, 47 or 92 bytes, and the text
      with its NUL fits its `temp` array, which fits `message`. */
  lemma TextLength(childIndex: nat, i: nat)
    ensures |Text(childIndex, i)| == (if i % 3 == 0 then 20 else if i % 3 == 1 then 47 else 92)
    ensures |Text(childIndex, i)| < TempSize(i) <= MESSAGE_SIZE
  {
  }

  /** Only the child-index byte of a text can be NUL. */
  lemma TextNulFree(childIndex: nat, i: nat)
    requires Digit(childIndex) != 0
    ensures 0 !in Text(childIndex, i)
  {
    assert Digit(i % 10) != 0;
  }

  /** Each message begins "Child " and the index digit, and its length is
      fixed by `i % 3` alone; it is never longer than 92 bytes. */
  lemma MessageShape(childIndex: nat, i: nat)
    requires Digit(childIndex) != 0
    ensures Message(childIndex, i) == Text(childIndex, i)
    ensures |Message(childIndex, i)| == (if i % 3 == 0 then 20 else if i % 3 == 1 then 47 else 92)
    ensures Message(childIndex, i)[..6] == Ascii("Child ")
    ensures Message(childIndex, i)[6] == Digit(childIndex)
  {
    TextNulFree(childIndex, i);
    TextLength(childIndex, i);
    var t := Text(childIndex, i);
    assert t[..6] == PREFIX;
  }

  /** Whatever the index, the message is the text or a prefix of it that ends
      right after "Child ". */
  lemma MessageBound(childIndex: nat, i: nat)
    ensures |Message(childIndex, i)| <= |Text(childIndex, i)| < TempSize(i)
    ensures Digit(childIndex) != 0 || |Message(childIndex, i)| == |PREFIX|
  {
    TextLength(childIndex, i);
    var t := Text(childIndex, i);
    if Digit(childIndex) == 0 {
      assert 0 !in PREFIX;
      assert t[|PREFIX|] == 0;
      assert 0 in t;
      assert FirstNul(t) == |PREFIX|;
    }
  }

  /** `while (*lit) *p++ = *lit++;`: copies the literal's bytes (its
      terminating NUL ends the loop) to `temp` from position `p` on. */
  method AppendLiteral(temp: array<Byte>, p: nat, lit: seq<Byte>) returns (q: nat)
    requires p + |lit| <= temp.Length
    modifies temp
    ensures q == p + |lit|
    ensures temp[..q] == old(temp[..p]) + lit
    ensures forall k :: q <= k < temp.Length ==> temp[k] == old(temp[k])
  {
    q := p;
    var k := 0;
    while k < |lit|
      invariant 0 <= k <= |lit| && q == p + k
      invariant temp[..q] == old(temp[..p]) + lit[..k]
      invariant forall j :: q <= j < temp.Length ==> temp[j] == old(temp[j])
    {
      temp[q] := lit[k];
      q := q + 1;
      k := k + 1;
    }
  }

  /** `*p++ = b;` */
  method AppendByte(temp: array<Byte>, p: nat, b: Byte) returns (q: nat)
    requires p < temp.Length
    modifies temp
    ensures q == p + 1
    ensures temp[..q] == old(temp[..p]) + [b]
    ensures forall k :: q <= k < temp.Length ==> temp[k] == old(temp[k])
  {
    temp[p] := b;
    q := p + 1;
  }

  /** The branches of child_process that format message `i` of child
      `childIndex` into `temp`, before its terminating NUL; returns the
      position of that NUL. */
  method FormatText(childIndex: nat, i: nat, temp: array<Byte>) returns (p: nat)
    requires temp.Length == TempSize(i)
    modifies temp
    ensures p < temp.Length && temp[..p] == Text(childIndex, i)
  {
    TextLength(childIndex, i);
    var index, seqNo := Digit(childIndex), Digit(i % 10);
    p := AppendLiteral(temp, 0, PREFIX);
    p := AppendByte(temp, p, index);
    assert temp[..p] == PREFIX + [index];
    if i % 3 == 0 {
      p := AppendLiteral(temp, p, SHORT_MIDDLE);
      p := AppendByte(temp, p, seqNo);
      assert temp[..p] == PREFIX + [index] + SHORT_MIDDLE + [seqNo];
    } else if i % 3 == 1 {
      p := AppendLiteral(temp, p, MEDIUM_MIDDLE);
      p := AppendByte(temp, p, seqNo);
      p := AppendLiteral(temp, p, MEDIUM_SUFFIX);
      assert temp[..p] == PREFIX + [index] + MEDIUM_MIDDLE + [seqNo] + MEDIUM_SUFFIX;
    } else {
      p := AppendLiteral(temp, p, LONG_MIDDLE);
      p := AppendByte(temp, p, seqNo);
      p := AppendLiteral(temp, p, LONG_SUFFIX);
      assert temp[..p] == PREFIX + [index] + LONG_MIDDLE + [seqNo] + LONG_SUFFIX;
    }
  }

  /** The body of child_process's loop up to copy_string: formats message
      `i` in a `temp` array, NUL-terminates it and copies it into `message`;
      returns msg_len. */
  method BuildMessage(childIndex: nat, i: nat, message: array<Byte>) returns (msgLen: nat)
    requires message.Length == MESSAGE_SIZE
    modifies message
    ensures msgLen == |Message(childIndex, i)| && message[..msgLen] == Message(childIndex, i)
  {
    var temp := new Byte[TempSize(i)];
    var p := FormatText(childIndex, i, temp);
    ghost var text := temp[..p];
    temp[p] := 0;
    assert temp[..][..p] == text;
    FirstNulOfTerminated(temp[..], text);
    MessageBound(childIndex, i);
    msgLen := CopyString(message, temp);
  }
}
