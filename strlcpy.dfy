/**
 * klibc's `strlcpy(dst, src, size)`: copy the C string `src` into the
 * `size`-byte buffer `dst`, truncating if needed, always terminating `dst`
 * when `size > 0`, and returning the full length of `src` so that a caller
 * can tell truncation by `result >= size`.
 *
 * Buffers are `array<char>`; the pointer cursors `p` and `q` of the C code
 * are offsets into `src` and `dst`. `size_t` is modelled by `nat`: every
 * count here is bounded by a buffer length, so it cannot wrap.
 */
module BoundedCopy {
  import opened CString

  /** Number of bytes of a C string, the bytes before its first NUL. */
  function CLength(s: string): nat
    requires NUL in s
  {
    IndexOf(s, NUL)
  }

  /**
   * How many bytes of a source of length `len` land in a buffer of `size`
   * bytes: all of them if they fit with the terminator, else `size - 1`,
   * and none when there is no room at all.
   */
  function Copied(len: nat, size: nat): (n: nat)
    ensures n <= len
    ensures size == 0 ==> n == 0
    ensures size > 0 ==> n < size
    ensures size > 0 ==> n == len || n + 1 == size
  {
    if size == 0 then 0 else if len < size - 1 then len else size - 1
  }

  /**
   * The contents of the destination buffer after the call, given its
   * contents `d` before and the source buffer `s`.
   */
  function AfterCopy(d: string, s: string, size: nat): string
    requires NUL in s
    requires size <= |d|
  {
    if size == 0 then d
    else
      var n := Copied(CLength(s), size);
      s[..n] + [NUL] + d[n + 1..]
  }

  /**
   * What the destination holds after the call: nothing changes when
   * `size == 0`; otherwise the first `n` source bytes, a NUL at `n`, and the
   * old bytes after it, in particular every byte from `size` on.
   */
  lemma AfterCopyContents(d: string, s: string, size: nat)
    requires NUL in s
    requires size <= |d|
    ensures var r, n := AfterCopy(d, s, size), Copied(CLength(s), size);
      && |r| == |d|
      && (size == 0 ==> r == d)
      && (size > 0 ==>
            && (forall i :: 0 <= i < n ==> r[i] == s[i])
            && r[n] == NUL
            && (forall i :: n < i < |d| ==> r[i] == d[i]))
      && (forall i :: size <= i < |d| ==> r[i] == d[i])
  {
  }

  /**
   * When `size > 0` the destination holds a C string: exactly the first
   * `Copied` bytes of the source, so its own length is that count.
   */
  lemma AfterCopyIsCString(d: string, s: string, size: nat)
    requires NUL in s
    requires 0 < size <= |d|
    ensures var r, n := AfterCopy(d, s, size), Copied(CLength(s), size);
      NUL in r && CLength(r) == n && r[..n] == s[..n]
  {
    var r, n := AfterCopy(d, s, size), Copied(CLength(s), size);
    AfterCopyContents(d, s, size);
    forall j | 0 <= j < n ensures r[j] != NUL {
      assert r[j] == s[j];
    }
    IndexOfUnique(r, NUL, n);
  }

  /**
   * Truncation is detected by comparing the result with `size`: for a
   * buffer with room, fewer bytes than the source holds were copied exactly
   * when the result is at least `size`; and the buffer holds the whole
   * string, terminated, exactly when the result is below `size`.
   */
  lemma TruncationIsVisible(len: nat, size: nat)
    ensures size > 0 ==> (Copied(len, size) < len <==> len >= size)
    ensures len < size <==> (size > 0 && Copied(len, size) == len)
  {
  }

  /**
   * Neither the result nor the new destination depends on any source byte
   * after the first NUL: two sources that agree up to and including it give
   * the same outcome.
   */
  lemma DependsOnlyOnString(d: string, s: string, t: string, size: nat)
    requires NUL in s
    requires size <= |d|
    requires CLength(s) < |t| && t[..CLength(s) + 1] == s[..CLength(s) + 1]
    ensures NUL in t && CLength(t) == CLength(s)
    ensures AfterCopy(d, t, size) == AfterCopy(d, s, size)
  {
    IndexOfLooksNoFurther(s, t, NUL);
    var n := Copied(CLength(s), size);
    if size > 0 {
      assert t[..n] == t[..CLength(s) + 1][..n] == s[..CLength(s) + 1][..n] == s[..n];
    }
  }

  /**
   * The copy loop. It reads `src` one byte at a time up to and including
   * the first NUL (the loop invariant keeps every read offset `p` at most
   * the string's length), copies while there is room for the terminator,
   * counts every byte, and finally stores the terminator if `size > 0`.
   */
  method Strlcpy(dst: array<char>, src: array<char>, size: nat) returns (bytes: nat)
    requires dst != src
    requires size <= dst.Length
    requires NUL in src[..]
    modifies dst
    ensures unchanged(src)
    ensures bytes == CLength(src[..])
    ensures dst[..] == AfterCopy(old(dst[..]), src[..], size)
  {
    ghost var len := CLength(src[..]);
    bytes := 0;
    var q: nat := 0;
    var p: nat := 0;
    var ch := src[p];
    p := p + 1;
    while ch != NUL
      invariant p == bytes + 1 && bytes <= len
      invariant ch == src[bytes]
      invariant q == Copied(bytes, size)
      invariant forall i :: 0 <= i < q ==> dst[i] == src[i]
      invariant forall i :: q <= i < dst.Length ==> dst[i] == old(dst[i])
      decreases len - bytes
    {
      if bytes + 1 < size {
        dst[q] := ch;
        q := q + 1;
      }
      bytes := bytes + 1;
      ch := src[p];
      p := p + 1;
    }
    assert bytes == len;
    if size != 0 {
      dst[q] := NUL;
    }
    ghost var r := AfterCopy(old(dst[..]), src[..], size);
    AfterCopyContents(old(dst[..]), src[..], size);
    forall i | 0 <= i < dst.Length ensures dst[i] == r[i] {
    }
    assert dst[..] == r;
  }
}
