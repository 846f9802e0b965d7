/**
 Bytes and C strings.  A `bytes` value is the contents of a C buffer; a
 `cstring` is what a `char *` denotes: the bytes in front of its first NUL.
 */
module CBytes {
  type byte = b: int | 0 <= b < 256
  type bytes = seq<byte>

  predicate NulFree(s: bytes) { 0 !in s }

  type cstring = s: bytes | NulFree(s)

  datatype Option<+T> = None | Some(value: T)

  const NUL: byte := 0
  const TAB: byte := 9
  const NEWLINE: byte := 10
  const SPACE: byte := 32
  const QUOTE: byte := 34
  const BACKSLASH: byte := 92

  /** The C string found in a buffer: everything before the first NUL. */
  function CString(s: bytes): (r: cstring)
    ensures r <= s
    ensures |r| < |s| ==> s[|r|] == NUL
    ensures NulFree(s) ==> r == s
  {
    if s == [] || s[0] == NUL then [] else [s[0]] + CString(s[1..])
  }

  /** `c` holds the bytes `s` at position `off`. */
  predicate Has(c: bytes, off: nat, s: bytes) {
    off + |s| <= |c| && c[off..off + |s|] == s
  }

  lemma HasConcat(c: bytes, off: nat, s: bytes, t: bytes)
    ensures Has(c, off, s + t) <==> Has(c, off, s) && Has(c, off + |s|, t)
  {
    if Has(c, off, s + t) {
      var w := c[off..off + |s + t|];
      assert c[off..off + |s|] == w[..|s|] == s;
      assert c[off + |s|..off + |s| + |t|] == w[|s|..] == t;
    }
    if Has(c, off, s) && Has(c, off + |s|, t) {
      assert c[off..off + |s + t|] == c[off..off + |s|] + c[off + |s|..off + |s| + |t|];
    }
  }

  lemma HasByte(c: bytes, off: nat, s: bytes, i: nat)
    requires Has(c, off, s) && i < |s|
    ensures off + i < |c| && c[off + i] == s[i]
  {
    assert c[off..off + |s|][i] == c[off + i];
  }
}
