/** The decimal rendering JavaScript uses when a non-negative integer is
    concatenated to a string (`root + idCounter`). */
module Decimal {

  function DigitChar(d: nat): (c: char)
    requires d < 10
    ensures '0' <= c <= '9'
  {
    ('0' as int + d) as char
  }

  /** Decimal digits of `n`, most significant first, no leading zeros. */
  function NatToString(n: nat): (s: string)
    ensures |s| > 0
    ensures forall i :: 0 <= i < |s| ==> '0' <= s[i] <= '9'
    ensures n >= 10 <==> |s| > 1
    decreases n
  {
    if n < 10 then [DigitChar(n)] else NatToString(n / 10) + [DigitChar(n % 10)]
  }

  /** Distinct counters give distinct strings. */
  lemma {:induction false} NatToStringInjective(a: nat, b: nat)
    requires NatToString(a) == NatToString(b)
    ensures a == b
    decreases a
  {
    var s := NatToString(a);
    if a >= 10 {
      assert b >= 10;
      assert NatToString(a)[|s| - 1] == DigitChar(a % 10);
      assert NatToString(b)[|s| - 1] == DigitChar(b % 10);
      assert a % 10 == b % 10;
      assert NatToString(a / 10) == s[..|s| - 1] == NatToString(b / 10);
      NatToStringInjective(a / 10, b / 10);
    } else {
      assert b < 10;
      assert s[0] == DigitChar(a) && s[0] == DigitChar(b);
    }
  }

  /** Prefixing the same string keeps the rendering injective: the candidate
      ids `root + 1`, `root + 2`, ... are pairwise distinct. */
  lemma PrefixedInjective(root: string, a: nat, b: nat)
    requires root + NatToString(a) == root + NatToString(b)
    ensures a == b
  {
    assert NatToString(a) == (root + NatToString(a))[|root|..];
    assert NatToString(b) == (root + NatToString(b))[|root|..];
    NatToStringInjective(a, b);
  }
}
