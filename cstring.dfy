/**
 * C strings as Dafny sequences of characters.
 *
 * A C string is a buffer whose contents end at its first NUL byte. The only
 * primitive the rest of the model needs is "index of the first occurrence of
 * a character": for NUL that is `strlen`, for any other character it is the
 * offset `strchr` returns a pointer to.
 */
module CString {

  const NUL: char := '\0'

  /** Offset of the first `c` in `s`, the position `strchr(s, c)` points at. */
  function IndexOf(s: string, c: char): (k: nat)
    requires c in s
    ensures k < |s| && s[k] == c
    ensures forall j :: 0 <= j < k ==> s[j] != c
  {
    if s[0] == c then 0
    else
      assert c in s[1..] by {
        var i :| 0 <= i < |s| && s[i] == c;
        assert s[1..][i - 1] == c;
      }
      1 + IndexOf(s[1..], c)
  }

  /** The first `c` is the only position before which no `c` occurs. */
  lemma IndexOfUnique(s: string, c: char, k: nat)
    requires k < |s| && s[k] == c
    requires forall j :: 0 <= j < k ==> s[j] != c
    ensures IndexOf(s, c) == k
  {
  }

  /**
   * Where the first `c` lies depends only on the characters up to and
   * including it: a scan never looks further.
   */
  lemma IndexOfLooksNoFurther(s: string, t: string, c: char)
    requires c in s
    requires IndexOf(s, c) < |t| && t[..IndexOf(s, c) + 1] == s[..IndexOf(s, c) + 1]
    ensures c in t && IndexOf(t, c) == IndexOf(s, c)
  {
    var k := IndexOf(s, c);
    assert t[k] == t[..k + 1][k] == s[..k + 1][k] == s[k];
    forall j | 0 <= j < k ensures t[j] != c {
      assert t[j] == t[..k + 1][j] == s[..k + 1][j] == s[j];
    }
    IndexOfUnique(t, c, k);
  }
}
