/**
 * stringDuplicator of dry-code/dup.c: a heap buffer holding the string
 * repeated a given number of times, filled by a pointer that walks forward
 * one copy at a time and is rewound to the start afterwards.
 */
module Dup {

  /** A char pointer: NULL, or an offset into a heap buffer. */
  datatype CharPtr = Null | Ptr(buf: array<char>, offset: nat)

  const NUL: char := '\0'

  /** s repeated n times. */
  function Repeat(s: string, n: nat): (r: string)
    ensures |r| == |s| * n
  {
    if n == 0 then [] else Repeat(s, n - 1) + s
  }

  /** Repeating a times and then b times is repeating a + b times. */
  lemma {:induction false} RepeatAdd(s: string, a: nat, b: nat)
    ensures Repeat(s, a + b) == Repeat(s, a) + Repeat(s, b)
  {
    if b > 0 {
      RepeatAdd(s, a, b - 1);
      assert Repeat(s, a + b) == Repeat(s, a + b - 1) + s;
    }
  }

  /** Character r of copy j of the repetition is character r of s. */
  lemma {:induction false} RepeatAt(s: string, n: nat, j: nat, r: nat)
    requires j < n && r < |s|
    ensures j * |s| + r < |Repeat(s, n)|
    ensures Repeat(s, n)[j * |s| + r] == s[r]
  {
    CopyFits(|s|, j, n);
    var prev := Repeat(s, n - 1);
    if j < n - 1 {
      RepeatAt(s, n - 1, j, r);
    } else {
      assert j * |s| == |prev|;
    }
  }

  /** Copy i of len characters ends within len * times characters. */
  lemma CopyFits(len: nat, i: nat, times: nat)
    requires i < times
    ensures len * i + len <= len * times
  {
    assert len * (i + 1) == len * i + len;
    assert len * times == len * (i + 1) + len * (times - i - 1);
  }

  /** strcpy: s (the characters before its terminator, so |s| is strlen(s))
      and its terminating NUL are written at buf[at..]. Everything
      else in the buffer is left as it was. */
  method StrCpy(buf: array<char>, at: nat, s: string)
    requires NUL !in s
    requires at + |s| < buf.Length
    modifies buf
    ensures buf[..at] == old(buf[..at])
    ensures buf[at..at + |s|] == s
    ensures buf[at + |s|] == NUL
    ensures buf[at + |s| + 1..] == old(buf[at + |s| + 1..])
  {
    var i := 0;
    while i < |s|
      invariant 0 <= i <= |s|
      invariant buf[..at] == old(buf[..at])
      invariant buf[at..at + i] == s[..i]
      invariant buf[at + i..] == old(buf[at + i..])
    {
      buf[at + i] := s[i];
      i := i + 1;
    }
    buf[at + |s|] := NUL;
  }

  /** stringDuplicator: times > 0 (asserted by the source; a NULL s is ruled
      out by the type, and s holds the characters before the terminator, so
      |s| is strlen(s)). The buffer has room for len * times characters and
      the terminator; on allocation failure the result is NULL. Otherwise the
      result points at the start of a fresh buffer holding s repeated times
      times, terminated by NUL. */
  method StringDuplicator(s: string, times: int) returns (p: CharPtr)
    requires NUL !in s
    requires times > 0
    ensures p.Ptr? ==> fresh(p.buf) && p.offset == 0 && p.buf.Length == |s| * times + 1
    ensures p.Ptr? ==> p.buf[..|s| * times] == Repeat(s, times) && p.buf[|s| * times] == NUL
  {
    var len := |s|;
    var ok: bool := *;
    if !ok {
      return Null;
    }
    var buf := new char[len * times + 1];
    var out: nat := 0;
    var i := 0;
    while i < times
      invariant 0 <= i <= times
      invariant out == len * i
      invariant buf[..out] == Repeat(s, i)
      invariant i > 0 ==> buf[out] == NUL
    {
      CopyFits(len, i, times);
      StrCpy(buf, out, s);
      assert buf[..out + len] == buf[..out] + buf[out..out + len];
      out := out + len;
      i := i + 1;
      assert out == len * i by {
        assert len * i == len * (i - 1) + len;
      }
    }
    out := out - len * times;
    p := Ptr(buf, out);
  }
}
