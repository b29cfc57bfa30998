/** Go strings are byte sequences: `len`, indexing and slicing count bytes.
    This module gives the byte type, ASCII literals, the white-space trim of
    `strings.TrimSpace` and the byte-prefix truncation `s[:limit]`. */
module Bytes {

  type byte = bv8
  type Bytes = seq<byte>

  predicate IsAscii(s: string) {
    forall i | 0 <= i < |s| :: s[i] as int < 128
  }

  /** The bytes of an ASCII literal. */
  function Ascii(s: string): (r: Bytes)
    requires IsAscii(s)
    ensures |r| == |s|
    ensures forall i | 0 <= i < |s| :: r[i] == s[i] as int as byte
  {
    seq(|s|, i requires 0 <= i < |s| => s[i] as int as byte)
  }

  predicate HasPrefix(s: Bytes, prefix: Bytes) {
    |prefix| <= |s| && s[..|prefix|] == prefix
  }

  /** The ASCII white-space bytes that `unicode.IsSpace` accepts:
      tab, line feed, vertical tab, form feed, carriage return and space. */
  predicate IsSpace(b: byte) {
    b == 0x09 || b == 0x0A || b == 0x0B || b == 0x0C || b == 0x0D || b == 0x20
  }

  predicate AllSpace(s: Bytes) {
    forall i | 0 <= i < |s| :: IsSpace(s[i])
  }

  predicate IsDigit(b: byte) {
    0x30 <= b <= 0x39
  }

  /** The first index at or after `i` that holds no white space, or |s|. */
  function SkipSpace(s: Bytes, i: nat): (n: nat)
    requires i <= |s|
    ensures i <= n <= |s|
    ensures forall k | i <= k < n :: IsSpace(s[k])
    ensures n < |s| ==> !IsSpace(s[n])
    decreases |s| - i
  {
    if i < |s| && IsSpace(s[i]) then SkipSpace(s, i + 1) else i
  }

  /** The end of `s[..j]` once its trailing white space is dropped, never
      going below `lo`. */
  function SkipSpaceBack(s: Bytes, lo: nat, j: nat): (n: nat)
    requires lo <= j <= |s|
    ensures lo <= n <= j
    ensures forall k | n <= k < j :: IsSpace(s[k])
    ensures n > lo ==> !IsSpace(s[n - 1])
  {
    if j > lo && IsSpace(s[j - 1]) then SkipSpaceBack(s, lo, j - 1) else j
  }

  /** Where the trimmed text starts. */
  function TrimStart(s: Bytes): nat {
    SkipSpace(s, 0)
  }

  /** Where the trimmed text ends. */
  function TrimEnd(s: Bytes): nat {
    SkipSpaceBack(s, TrimStart(s), |s|)
  }

  /** `strings.TrimSpace` on ASCII white space: the slice of `s` left after
      dropping its leading and trailing white space. What is dropped is all
      white space, what is kept neither starts nor ends with white space,
      and it is empty exactly when `s` is all white space. */
  function TrimSpace(s: Bytes): (r: Bytes)
    ensures TrimStart(s) <= TrimEnd(s) <= |s| && r == s[TrimStart(s)..TrimEnd(s)]
    ensures forall k | 0 <= k < |s| && !(TrimStart(s) <= k < TrimEnd(s)) :: IsSpace(s[k])
    ensures |r| > 0 ==> !IsSpace(r[0]) && !IsSpace(r[|r| - 1])
    ensures r == [] <==> AllSpace(s)
  {
    var lo := TrimStart(s);
    var hi := TrimEnd(s);
    assert lo < |s| ==> lo < hi;
    s[lo..hi]
  }

  /** Go's `if len(s) > limit { s = s[:limit] }`: the prefix of `s` of
      length min(|s|, limit). A negative limit would make the slice panic. */
  function Truncate(s: Bytes, limit: int): (r: Bytes)
    requires limit >= 0
    ensures |r| <= limit && HasPrefix(s, r)
    ensures |s| <= limit ==> r == s
    ensures |s| > limit ==> |r| == limit
  {
    if |s| > limit then s[..limit] else s
  }

  /** Truncating twice to the same limit changes nothing more. */
  lemma TruncateIdempotent(s: Bytes, limit: int)
    requires limit >= 0
    ensures Truncate(Truncate(s, limit), limit) == Truncate(s, limit)
  {
  }

  /** Truncating to `a` and then to `b` is truncating to the smaller of the
      two: a send-time re-truncation of stored content only shortens it
      when the limit has decreased since creation. */
  lemma TruncateTwice(s: Bytes, a: int, b: int)
    requires a >= 0 && b >= 0
    ensures Truncate(Truncate(s, a), b) == Truncate(s, if a <= b then a else b)
  {
  }
}
