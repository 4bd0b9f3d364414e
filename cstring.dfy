/** NUL-terminated byte strings and copy_string. */
module CStrings {
  import opened Memory

  /** The index of the first NUL byte, the length of the C string `s` holds. */
  function FirstNul(s: seq<Byte>): (n: nat)
    requires 0 in s
    ensures n < |s| && s[n] == 0
    ensures forall k :: 0 <= k < n ==> s[k] != 0
  {
    if s[0] == 0 then 0 else 1 + FirstNul(s[1..])
  }

  /** The bytes a C string function sees in `s`: everything before the first
      NUL, or all of `s` when it has none. */
  function CString(s: seq<Byte>): (r: seq<Byte>)
    ensures 0 !in r
    ensures |r| <= |s| && r == s[..|r|]
    ensures |r| < |s| ==> s[|r|] == 0
  {
    if 0 in s then s[..FirstNul(s)] else s
  }

  /** The first NUL is the only index that holds 0 with no 0 before it. */
  lemma FirstNulUnique(s: seq<Byte>, m: nat)
    requires m < |s| && s[m] == 0 && forall k :: 0 <= k < m ==> s[k] != 0
    ensures FirstNul(s) == m
  {
  }

  /** A buffer `t` holding `text` followed by a NUL holds, as a C string,
      exactly the C string of `text`. */
  lemma FirstNulOfTerminated(t: seq<Byte>, text: seq<Byte>)
    requires |text| < |t| && t[..|text|] == text && t[|text|] == 0
    ensures 0 in t
    ensures FirstNul(t) == |CString(text)| && t[..FirstNul(t)] == CString(text)
  {
    assert forall k :: 0 <= k < |text| ==> t[k] == text[k];
    var m := |CString(text)|;
    assert t[m] == 0;
    FirstNulUnique(t, m);
    assert t[..m] == text[..m];
  }

  /** copy_string: copies bytes of `src` into `dest` up to the first NUL,
      writes the terminator, and returns the number of bytes copied. The source
      requires `src` to hold a NUL and `dest` to have room for it. */
  method CopyString(dest: array<Byte>, src: array<Byte>) returns (len: nat)
    requires 0 in src[..]
    requires FirstNul(src[..]) < dest.Length
    modifies dest
    ensures len == FirstNul(old(src[..]))
    ensures dest[..len] == old(src[..len]) && dest[len] == 0
    ensures forall k :: len < k < dest.Length ==> dest[k] == old(dest[k])
  {
    ghost var s := src[..];
    ghost var n := FirstNul(s);
    len := 0;
    while src[len] != 0
      invariant 0 <= len <= n
      invariant src[..] == s
      invariant dest[..len] == s[..len]
      invariant forall k :: len <= k < dest.Length ==> dest[k] == old(dest[k])
      decreases n - len
    {
      dest[len] := src[len];
      len := len + 1;
    }
    dest[len] := 0;
  }
}
