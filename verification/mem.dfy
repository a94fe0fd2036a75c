/** Bytes and the raw memory copy that every component of core.h relies on. */
module Mem {

  /** One C `char` as stored in a buffer. Every value the library writes is in 0..255. */
  newtype Byte = b: int | 0 <= b < 256

  /** A C string's content: the bytes before its terminating NUL. */
  predicate NoNul(s: seq<Byte>)
  {
    forall i :: 0 <= i < |s| ==> s[i] != 0
  }

  /** `memcpy(dst, src, n)`: the first `n` elements of `dst` become those of `src`, the rest of
      `dst` is untouched. The two buffers must not overlap. */
  method CopyPrefix<T>(src: array<T>, dst: array<T>, n: nat)
    requires src != dst
    requires n <= src.Length && n <= dst.Length
    modifies dst
    ensures dst[..n] == src[..n]
    ensures dst[n..] == old(dst[n..])
  {
    var i := 0;
    while i < n
      invariant 0 <= i <= n
      invariant dst[..i] == src[..i]
      invariant dst[n..] == old(dst[n..])
    {
      dst[i] := src[i];
      i := i + 1;
    }
  }

  /** `strcpy(dst, s)` for a C string whose content is `s`: the content and its NUL are written
      at the start of `dst`, the rest of `dst` is untouched. */
  method StrCopy(dst: array<Byte>, s: seq<Byte>)
    requires NoNul(s) && |s| < dst.Length
    modifies dst
    ensures dst[..|s| + 1] == s + [0]
    ensures dst[|s| + 1..] == old(dst[|s| + 1..])
  {
    var i := 0;
    while i < |s|
      invariant 0 <= i <= |s|
      invariant dst[..i] == s[..i]
      invariant dst[|s| + 1..] == old(dst[|s| + 1..])
    {
      dst[i] := s[i];
      i := i + 1;
    }
    dst[|s|] := 0;
  }
}
