/**
 * strxfrm of src/lib/libc/string/strxfrm.c: the C-locale transformation, which is the
 * identity, so the function copies at most n characters of s2 into s1 and returns the
 * length of s2. A C string is a sequence holding a NUL; its characters are those before
 * the first NUL.
 */
module Strxfrm {
  const NUL: char := '\0'

  /** The length of the C string s: the index of its first NUL. */
  function StrLen(s: seq<char>): (k: nat)
    requires NUL in s
    ensures k < |s| && s[k] == NUL
    ensures forall j :: 0 <= j < k ==> s[j] != NUL
  {
    if s[0] == NUL then 0 else StrLen(s[1..]) + 1
  }

  function Min(a: nat, b: nat): nat
  {
    if a < b then a else b
  }

  /** The array s1 after strxfrm(s1, s2, n), given what it held before (dst). */
  function Transformed(dst: seq<char>, src: seq<char>, n: nat): seq<char>
    requires NUL in src && Min(n, StrLen(src)) <= |dst|
  {
    src[..Min(n, StrLen(src))] + dst[Min(n, StrLen(src))..]
  }

  /**
   * strxfrm: copies characters of s2 into s1 until n are copied or s2's NUL is reached,
   * then counts on to the NUL. s1 must have room for the characters copied.
   */
  method Strxfrm(s1: array<char>, s2: seq<char>, n: nat) returns (res: nat)
    requires NUL in s2 && Min(n, StrLen(s2)) <= s1.Length
    modifies s1
    ensures res == StrLen(s2)
    ensures s1[..] == Transformed(old(s1[..]), s2, n)
  {
    ghost var before := s1[..];
    res := 0;
    var i := 0;
    var left := n;
    while left > 0 && s2[i] != NUL
      invariant i == res && i + left == n && i <= Min(n, StrLen(s2))
      invariant forall k :: 0 <= k < i ==> s1[k] == s2[k]
      invariant forall k :: i <= k < s1.Length ==> s1[k] == before[k]
    {
      s1[i] := s2[i];
      i := i + 1;
      res := res + 1;
      left := left - 1;
    }
    assert i == Min(n, StrLen(s2));
    assert s1[..] == Transformed(before, s2, n);
    while s2[i] != NUL
      invariant i == res && i <= StrLen(s2)
      decreases StrLen(s2) - i
    {
      i := i + 1;
      res := res + 1;
    }
  }

  /**
   * What the transformation promises: the result has s1's length, its first min(n, len)
   * characters are those of s2 and the rest are s1's own; in particular nothing is written
   * past the n-th character, and no terminator is written.
   */
  lemma TransformedCopies(dst: seq<char>, src: seq<char>, n: nat)
    requires NUL in src && Min(n, StrLen(src)) <= |dst|
    ensures |Transformed(dst, src, n)| == |dst|
    ensures forall k :: 0 <= k < Min(n, StrLen(src)) ==> Transformed(dst, src, n)[k] == src[k]
    ensures forall k :: Min(n, StrLen(src)) <= k < |dst| ==> Transformed(dst, src, n)[k] == dst[k]
    ensures forall k :: n <= k < |dst| ==> Transformed(dst, src, n)[k] == dst[k]
  {
  }

  /** With n == 0 nothing is written. */
  lemma TransformedNothing(dst: seq<char>, src: seq<char>)
    requires NUL in src
    ensures Transformed(dst, src, 0) == dst
  {
  }

  /**
   * When the result is below n the whole string s2 (without its NUL) is in s1, and the
   * character after it is s1's own.
   */
  lemma TransformedShort(dst: seq<char>, src: seq<char>, n: nat)
    requires NUL in src && StrLen(src) < n && StrLen(src) <= |dst|
    ensures Transformed(dst, src, n)[..StrLen(src)] == src[..StrLen(src)]
    ensures StrLen(src) < |dst| ==> Transformed(dst, src, n)[StrLen(src)] == dst[StrLen(src)]
  {
  }
}
