/** `replace(haystack, needle, position)` of the native helper library:
    overwrite part of a byte string without changing its length. */
module Native {
  import opened Bytes

  /** How many bytes of a needle of `needleLength` bytes are written at
      index `offset` of a haystack of `haystackLength` bytes: the whole
      needle if it fits, otherwise only the part before the haystack's end. */
  function WindowLength(haystackLength: nat, needleLength: nat, offset: nat): (len: nat)
    requires offset <= haystackLength
    ensures len <= needleLength && offset + len <= haystackLength
    ensures len == needleLength || offset + len == haystackLength
  {
    if offset + needleLength > haystackLength then haystackLength - offset else needleLength
  }

  /** The string `replace` returns, for a 0-based `offset`: the haystack
      with the fitting window of the needle laid over it from `offset` on. */
  function Overwrite(haystack: seq<byte>, needle: seq<byte>, offset: nat): (r: seq<byte>)
    requires offset <= |haystack|
    ensures |r| == |haystack|
    ensures forall i :: 0 <= i < offset ==> r[i] == haystack[i]
    ensures forall i :: 0 <= i < WindowLength(|haystack|, |needle|, offset) ==> r[offset + i] == needle[i]
    ensures forall i :: offset + WindowLength(|haystack|, |needle|, offset) <= i < |haystack| ==> r[i] == haystack[i]
  {
    var len := WindowLength(|haystack|, |needle|, offset);
    haystack[..offset] + needle[..len] + haystack[offset + len..]
  }

  /** `nativeL_replace`: copy the haystack together with its terminating NUL
      into a fresh buffer, clamp the needle's length, copy that many needle
      bytes to the 1-based `position`, and return as many bytes as the
      haystack had. */
  method Replace(haystack: seq<byte>, needle: seq<byte>, position: int) returns (r: seq<byte>)
    requires 1 <= position <= |haystack| + 1
    ensures r == Overwrite(haystack, needle, position - 1)
  {
    var haystackLength := |haystack|;
    var newHaystack := new byte[haystackLength + 1];
    var source := haystack + [Nul];
    for k := 0 to haystackLength + 1
      invariant forall i :: 0 <= i < k ==> newHaystack[i] == source[i]
    {
      newHaystack[k] := source[k];
    }
    var length := |needle|;
    var offset := position - 1;
    if offset + length > haystackLength {
      length := haystackLength - offset;
    }
    if length > 0 {
      for j := 0 to length
        invariant forall i :: 0 <= i < offset ==> newHaystack[i] == haystack[i]
        invariant forall i :: 0 <= i < j ==> newHaystack[offset + i] == needle[i]
        invariant forall i :: offset + j <= i < haystackLength ==> newHaystack[i] == haystack[i]
      {
        newHaystack[offset + j] := needle[j];
      }
    }
    assert length == WindowLength(haystackLength, |needle|, offset);
    r := newHaystack[..haystackLength];
    OverwriteDetermined(haystack, needle, offset, r);
  }

  /** The index-wise description of `Overwrite` determines its result. */
  lemma OverwriteDetermined(haystack: seq<byte>, needle: seq<byte>, offset: nat, r: seq<byte>)
    requires offset <= |haystack| && |r| == |haystack|
    requires forall i :: 0 <= i < offset ==> r[i] == haystack[i]
    requires forall i :: 0 <= i < WindowLength(|haystack|, |needle|, offset) ==> r[offset + i] == needle[i]
    requires forall i :: offset + WindowLength(|haystack|, |needle|, offset) <= i < |haystack| ==> r[i] == haystack[i]
    ensures r == Overwrite(haystack, needle, offset)
  {
    var len := WindowLength(|haystack|, |needle|, offset);
    var expected := Overwrite(haystack, needle, offset);
    forall i | 0 <= i < |r|
      ensures r[i] == expected[i]
    {
      if offset <= i < offset + len {
        assert r[offset + (i - offset)] == needle[i - offset];
      }
    }
  }

  /** An empty needle, or a position just past the end, leaves the string as it was. */
  lemma OverwriteNothing(haystack: seq<byte>, needle: seq<byte>, offset: nat)
    requires offset <= |haystack|
    requires needle == [] || offset == |haystack|
    ensures Overwrite(haystack, needle, offset) == haystack
  {
  }

  /** The result equals the haystack exactly when the window written already
      held the needle's bytes. */
  lemma OverwriteUnchangedIff(haystack: seq<byte>, needle: seq<byte>, offset: nat)
    requires offset <= |haystack|
    ensures var len := WindowLength(|haystack|, |needle|, offset);
      Overwrite(haystack, needle, offset) == haystack <==> needle[..len] == haystack[offset..offset + len]
  {
  }

  /** Writing back the bytes that were overwritten restores the haystack. */
  lemma OverwriteRestore(haystack: seq<byte>, needle: seq<byte>, offset: nat)
    requires offset <= |haystack|
    ensures var len := WindowLength(|haystack|, |needle|, offset);
      Overwrite(Overwrite(haystack, needle, offset), haystack[offset..offset + len], offset) == haystack
  {
    var len := WindowLength(|haystack|, |needle|, offset);
    var r := Overwrite(haystack, needle, offset);
    assert WindowLength(|r|, len, offset) == len;
  }

  /** Writing the same needle twice at the same place is the same as once. */
  lemma OverwriteIdempotent(haystack: seq<byte>, needle: seq<byte>, offset: nat)
    requires offset <= |haystack|
    ensures var r := Overwrite(haystack, needle, offset);
      Overwrite(r, needle, offset) == r
  {
  }

  /** `replace("abcd", "XYZ", 3)`, by `Replace`'s postcondition the overwrite
      at offset 3 - 1: it keeps "ab" and writes only "XY". */
  lemma OverwriteTruncatesExample()
    ensures Overwrite([0x61, 0x62, 0x63, 0x64], [0x58, 0x59, 0x5A], 3 - 1) == [0x61, 0x62, 0x58, 0x59]
  {
  }
}
