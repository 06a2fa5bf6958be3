/** The usual optional value: None where the C code sees a NULL result. */
module Wrappers {

  datatype Option<+T> = None | Some(value: T)
}

/** Bytes as C's `unsigned char`, and the C-string view of a byte buffer. */
module Bytes {

  newtype byte = x: int | 0 <= x < 0x100

  const Nul: byte := 0

  /** What `printf("%s", s)` writes for a buffer `s`: every byte before the
      first NUL, or all of `s` when it holds none. */
  function CString(s: seq<byte>): (r: seq<byte>)
    ensures |r| <= |s| && r == s[..|r|]
    ensures Nul !in r
    ensures |r| < |s| ==> s[|r|] == Nul
  {
    if s == [] || s[0] == Nul then [] else [s[0]] + CString(s[1..])
  }

  /** A buffer holding `a`, then a NUL, then anything prints as `a` cut at its first NUL. */
  lemma {:induction false} CStringTerminated(a: seq<byte>, rest: seq<byte>)
    ensures CString(a + [Nul] + rest) == CString(a)
  {
    if a == [] {
    } else if a[0] == Nul {
    } else {
      assert (a + [Nul] + rest)[1..] == a[1..] + [Nul] + rest;
      CStringTerminated(a[1..], rest);
    }
  }

  /** A buffer without NUL prints in full. */
  lemma CStringNoNul(a: seq<byte>)
    requires Nul !in a
    ensures CString(a) == a
  {
  }
}
