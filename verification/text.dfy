/**
 Byte strings. The service hands every piece of text (book titles, user
 emails, request ids, store keys, error messages) to the key-value store and
 to the HTTP layer as bytes, so the model uses bytes throughout: a title or an
 email stands for the UTF-8 form of the string the client sent.
 */
module Text {

  /** One octet. */
  type byte = x: int | 0 <= x < 256

  type Bytes = seq<byte>

  /** True iff every character of `s` is 7-bit ASCII. */
  predicate IsAscii(s: string) {
    forall i :: 0 <= i < |s| ==> s[i] as int < 128
  }

  /** The bytes of an ASCII string literal (its UTF-8 form). */
  function Ascii(s: string): (r: Bytes)
    requires IsAscii(s)
    ensures |r| == |s|
    ensures forall i :: 0 <= i < |s| ==> r[i] == s[i] as int
  {
    seq(|s|, i requires 0 <= i < |s| && IsAscii(s) => s[i] as int)
  }

  /** True iff `part` occurs in `s` starting at offset `i`. */
  predicate OccursAt(s: Bytes, part: Bytes, i: int) {
    0 <= i <= |s| - |part| && s[i..i + |part|] == part
  }

  /** True iff `part` occurs contiguously somewhere in `s`. */
  ghost predicate Contains(s: Bytes, part: Bytes) {
    exists i :: OccursAt(s, part, i)
  }

  /** Whatever surrounds it, a byte string occurs in the concatenation. */
  lemma ContainsMiddle(pre: Bytes, part: Bytes, post: Bytes)
    ensures Contains(pre + part + post, part)
  {
    var s := pre + part + post;
    assert s[|pre|..|pre| + |part|] == part;
    assert OccursAt(s, part, |pre|);
  }
}
