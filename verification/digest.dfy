/**
  Hexadecimal digests as the node uses them. A SHA-1 `hexdigest()` is a
  string of lower-case hex digits; the ring reads it as an integer with
  `int(digest, 16)`, while the join protocol compares two digests as
  strings. The lemma below shows the two orders agree on digests of equal
  length, so the string comparison is the numeric one.
 */
module Digest {
  import opened Text

  predicate IsHexDigit(c: char) {
    ('0' <= c <= '9') || ('a' <= c <= 'f')
  }

  predicate IsHexDigest(s: string) {
    forall i :: 0 <= i < |s| ==> IsHexDigit(s[i])
  }

  function HexDigitValue(c: char): (d: nat)
    requires IsHexDigit(c)
    ensures d < 16
  {
    if c <= '9' then c as int - '0' as int else c as int - 'a' as int + 10
  }

  function Pow16(n: nat): (p: nat)
    ensures p >= 1
  {
    if n == 0 then 1 else 16 * Pow16(n - 1)
  }

  /** `int(s, 16)`, read left to right; an `n`-digit digest is below
      `16^n`. */
  function HexValue(s: string): (v: nat)
    requires IsHexDigest(s)
    ensures v < Pow16(|s|)
    decreases |s|
  {
    if |s| == 0 then 0 else HexValue(s[..|s| - 1]) * 16 + HexDigitValue(s[|s| - 1])
  }

  /** The character order on hex digits is their numeric order. */
  lemma HexDigitOrder(c: char, e: char)
    requires IsHexDigit(c) && IsHexDigit(e)
    ensures c < e <==> HexDigitValue(c) < HexDigitValue(e)
  {
  }

  /** Comparing two strings of equal length is comparing all but their last
      characters, and on a tie the last characters. */
  lemma {:induction false} LexLessByLast(a: string, b: string)
    requires |a| == |b| > 0
    ensures LexLess(a, b) <==>
              || LexLess(a[..|a| - 1], b[..|b| - 1])
              || (a[..|a| - 1] == b[..|b| - 1] && a[|a| - 1] < b[|b| - 1])
    decreases |a|
  {
    var ia, ib := a[..|a| - 1], b[..|b| - 1];
    if |a| == 1 {
      assert ia == [] && ib == [];
    } else if a[0] == b[0] {
      LexLessByLast(a[1..], b[1..]);
      assert a[1..][..|a| - 2] == ia[1..];
      assert b[1..][..|b| - 2] == ib[1..];
      assert ia == [a[0]] + ia[1..] && ib == [b[0]] + ib[1..];
    } else {
      assert ia[0] == a[0] && ib[0] == b[0];
    }
  }

  /** On equal-length digests Python's string `<` is the numeric `<` of
      `int(digest, 16)`. */
  lemma {:induction false} LexLessIsNumericLess(a: string, b: string)
    requires IsHexDigest(a) && IsHexDigest(b)
    requires |a| == |b|
    ensures LexLess(a, b) <==> HexValue(a) < HexValue(b)
    decreases |a|
  {
    if |a| > 0 {
      var ia, ib := a[..|a| - 1], b[..|b| - 1];
      LexLessByLast(a, b);
      LexLessIsNumericLess(ia, ib);
      LexLessIsNumericLess(ib, ia);
      LexLessTrichotomy(ia, ib);
      HexDigitOrder(a[|a| - 1], b[|b| - 1]);
    }
  }
}
