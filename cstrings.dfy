/**
 * C strings and the bounded copy-out of q_remove_head / q_remove_tail
 * (`strncpy(sp, value, bufsize); sp[bufsize - 1] = '\0';`).
 */
module CStrings {

  /** The characters of a C string, i.e. everything before its terminating NUL. */
  type CStr = s: string | '\0' !in s

  function Min(a: int, b: int): int {
    if a <= b then a else b
  }

  /** What strncpy(dst, src, n) leaves in dst[0..n): src, then NUL padding. */
  function NCopy(src: CStr, n: nat): (r: seq<char>)
    ensures |r| == n
  {
    seq(n, i requires 0 <= i < n => if i < |src| then src[i] else '\0')
  }

  /** The first bufsize bytes of the caller's buffer after the bounded copy. */
  function BoundedCopy(src: CStr, bufsize: nat): (r: seq<char>)
    requires bufsize >= 1
    ensures |r| == bufsize
  {
    NCopy(src, bufsize)[bufsize - 1 := '\0']
  }

  /** The C string stored at the start of a buffer: the bytes before the first NUL. */
  function StringAt(buf: seq<char>): (r: CStr)
    ensures |r| <= |buf|
  {
    if buf == [] || buf[0] == '\0' then [] else [buf[0]] + StringAt(buf[1..])
  }

  /**
   * The buffer holds the first min(|src|, bufsize - 1) characters of src
   * followed by a terminator, so reading it back as a C string yields
   * exactly that prefix: the copy never overflows and is always terminated.
   */
  lemma BoundedCopyReadsBack(src: CStr, bufsize: nat)
    requires bufsize >= 1
    ensures var m := Min(|src|, bufsize - 1);
            BoundedCopy(src, bufsize)[..m] == src[..m] &&
            BoundedCopy(src, bufsize)[m] == '\0' &&
            StringAt(BoundedCopy(src, bufsize)) == src[..m]
  {
    var m := Min(|src|, bufsize - 1);
    var b := BoundedCopy(src, bufsize);
    assert b[..m] == src[..m];
    assert b[m] == '\0';
    StringAtPrefix(b, src[..m]);
  }

  /** A buffer that starts with the characters of p and then a NUL holds the C string p. */
  lemma {:induction false} StringAtPrefix(buf: seq<char>, p: CStr)
    requires |p| < |buf| && buf[..|p|] == p && buf[|p|] == '\0'
    ensures StringAt(buf) == p
  {
    if p != [] {
      assert buf[0] == p[0];
      assert buf[1..][..|p| - 1] == p[1..];
      StringAtPrefix(buf[1..], p[1..]);
    }
  }

  /** strncpy(dst, src, n): copy src and pad with NULs up to n bytes. */
  method StrNCopy(dst: array<char>, src: CStr, n: nat)
    requires n <= dst.Length
    modifies dst
    ensures dst[..n] == NCopy(src, n)
    ensures dst[n..] == old(dst[n..])
  {
    var i := 0;
    while i < n && i < |src|
      invariant 0 <= i <= n && i <= |src|
      invariant forall j :: 0 <= j < i ==> dst[j] == src[j]
      invariant dst[n..] == old(dst[n..])
    {
      dst[i] := src[i];
      i := i + 1;
    }
    while i < n
      invariant 0 <= i <= n
      invariant forall j :: 0 <= j < i ==> dst[j] == if j < |src| then src[j] else '\0'
      invariant dst[n..] == old(dst[n..])
    {
      dst[i] := '\0';
      i := i + 1;
    }
  }
}
