/** Decimal rendering of an unsigned counter, as `std::ostringstream <<`
    prints the string-encryption pass's `m_counter`. */
module Decimal {

  predicate IsDigit(c: char) {
    '0' <= c <= '9'
  }

  function DigitChar(d: nat): (c: char)
    requires d < 10
    ensures IsDigit(c)
    ensures DigitValue(c) == d
  {
    ('0' as int + d) as char
  }

  function DigitValue(c: char): nat
    requires IsDigit(c)
  {
    c as int - '0' as int
  }

  predicate AllDigits(s: string) {
    forall k :: 0 <= k < |s| ==> IsDigit(s[k])
  }

  /** Shortest decimal numeral of `n`, most significant digit first. */
  function NatToString(n: nat): (s: string)
    ensures 1 <= |s|
    ensures AllDigits(s)
    ensures 1 < |s| ==> s[0] != '0'
    ensures s[0] == '0' <==> n == 0
  {
    if n < 10 then [DigitChar(n)]
    else NatToString(n / 10) + [DigitChar(n % 10)]
  }

  /** Reads a numeral back. */
  function ParseDigits(s: string): nat
    requires AllDigits(s)
  {
    if |s| == 0 then 0
    else 10 * ParseDigits(s[..|s| - 1]) + DigitValue(s[|s| - 1])
  }

  /** Reading the printed counter gives the counter back. */
  lemma {:induction false} ParsePrinted(n: nat)
    ensures ParseDigits(NatToString(n)) == n
  {
    var s := NatToString(n);
    if n >= 10 {
      ParsePrinted(n / 10);
      assert s[..|s| - 1] == NatToString(n / 10);
    }
  }

  /** A numeral without a leading zero, as `<<` prints a number. */
  predicate Canonical(s: string) {
    1 <= |s| && AllDigits(s) && (1 < |s| ==> s[0] != '0')
  }

  /** A numeral is worth at least its leading digit. */
  lemma {:induction false} ParseAtLeastLead(s: string)
    requires 1 <= |s| && AllDigits(s)
    ensures ParseDigits(s) >= DigitValue(s[0])
    decreases |s|
  {
    if |s| > 1 {
      ParseAtLeastLead(s[..|s| - 1]);
    }
  }

  /** The printed counter is the only canonical numeral of its value: the
      name `.ollvmstr<k>` is fixed, character by character, by `k`. */
  lemma {:induction false} PrintedIsCanonical(s: string, n: nat)
    requires Canonical(s) && ParseDigits(s) == n
    ensures s == NatToString(n)
    decreases |s|
  {
    var last := s[|s| - 1];
    assert DigitChar(DigitValue(last)) == last;
    if |s| > 1 {
      var front := s[..|s| - 1];
      ParseAtLeastLead(front);
      assert front[0] == s[0];
      PrintedIsCanonical(front, n / 10);
      assert s == front + [last];
    }
  }

  /** Distinct counter values print differently. */
  lemma PrintedInjective(a: nat, b: nat)
    ensures NatToString(a) == NatToString(b) <==> a == b
  {
    if NatToString(a) == NatToString(b) {
      ParsePrinted(a);
      ParsePrinted(b);
    }
  }

  /** Two names built from the same prefix and different counters differ. */
  lemma PrefixedInjective(prefix: string, a: nat, b: nat)
    ensures prefix + NatToString(a) == prefix + NatToString(b) <==> a == b
  {
    if prefix + NatToString(a) == prefix + NatToString(b) {
      assert NatToString(a) == (prefix + NatToString(a))[|prefix|..];
      assert NatToString(b) == (prefix + NatToString(b))[|prefix|..];
      PrintedInjective(a, b);
    }
  }
}
