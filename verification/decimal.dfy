/** Decimal digit strings: how JavaScript renders a non-negative integer
    (`${n}`, `String(n)`) and how `parseInt` reads a run of digits back. */
module Decimal {

  predicate IsDigit(c: char)
  {
    '0' <= c <= '9'
  }

  predicate AllDigits(s: string)
  {
    forall i :: 0 <= i < |s| ==> IsDigit(s[i])
  }

  function DigitValue(c: char): nat
    requires IsDigit(c)
  {
    c as int - '0' as int
  }

  function DigitChar(d: nat): (c: char)
    requires d < 10
    ensures IsDigit(c) && DigitValue(c) == d
  {
    ('0' as int + d) as char
  }

  /** The value `parseInt` gives a string of decimal digits (leading zeros allowed). */
  function DecimalValue(s: string): nat
    requires AllDigits(s)
  {
    if s == [] then 0 else DecimalValue(s[..|s| - 1]) * 10 + DigitValue(s[|s| - 1])
  }

  /** The canonical decimal form of `n`: digits only, never empty, no leading zero. */
  function NatToString(n: nat): (r: string)
    ensures AllDigits(r) && 1 <= |r|
    ensures |r| > 1 ==> r[0] != '0'
    ensures n < 10 <==> |r| == 1
  {
    if n < 10 then [DigitChar(n)] else NatToString(n / 10) + [DigitChar(n % 10)]
  }

  /** Reading back the rendering of `n` gives `n`. */
  lemma {:induction false} DecimalRoundTrip(n: nat)
    ensures DecimalValue(NatToString(n)) == n
  {
    if n >= 10 {
      var s := NatToString(n);
      assert s[..|s| - 1] == NatToString(n / 10);
      DecimalRoundTrip(n / 10);
    }
  }

  /** Different numbers render differently. */
  lemma NatToStringInjective(a: nat, b: nat)
    requires NatToString(a) == NatToString(b)
    ensures a == b
  {
    DecimalRoundTrip(a);
    DecimalRoundTrip(b);
  }

  /** A leading zero does not change the value (`parseInt("007") == 7`). */
  lemma {:induction false} LeadingZeroIgnored(s: string)
    requires AllDigits(s)
    ensures AllDigits(['0'] + s) && DecimalValue(['0'] + s) == DecimalValue(s)
  {
    if s != [] {
      var init := s[..|s| - 1];
      assert (['0'] + s)[..|s|] == ['0'] + init;
      LeadingZeroIgnored(init);
    }
  }

  predicate AllZeros(s: string)
  {
    forall i :: 0 <= i < |s| ==> s[i] == '0'
  }

  /** Any run of leading zeros is ignored. */
  lemma {:induction false} LeadingZerosIgnored(z: string, s: string)
    requires AllZeros(z) && AllDigits(s)
    ensures AllDigits(z + s) && DecimalValue(z + s) == DecimalValue(s)
  {
    if z == [] {
      assert z + s == s;
    } else {
      LeadingZerosIgnored(z[1..], s);
      assert z + s == ['0'] + (z[1..] + s);
      LeadingZeroIgnored(z[1..] + s);
    }
  }

  function Zeros(n: nat): (z: string)
    ensures |z| == n && AllZeros(z)
  {
    seq(n, _ => '0')
  }

  /** `s` padded on the left with zeros to at least `width` characters (luxon's `yyyy`, `MM`, `dd`). */
  function PadLeft(s: string, width: nat): (r: string)
    ensures |r| == if |s| < width then width else |s|
    ensures EndsWithAfterZeros(r, s)
  {
    var z := Zeros(if |s| < width then width - |s| else 0);
    assert (z + s)[..|z|] == z;
    assert (z + s)[|z|..] == s;
    z + s
  }

  /** `r` is `s` with some zeros in front. */
  ghost predicate EndsWithAfterZeros(r: string, s: string)
  {
    |s| <= |r| && AllZeros(r[..|r| - |s|]) && r[|r| - |s|..] == s
  }

  lemma PaddedValue(s: string, width: nat)
    requires AllDigits(s)
    ensures AllDigits(PadLeft(s, width)) && DecimalValue(PadLeft(s, width)) == DecimalValue(s)
  {
    var r := PadLeft(s, width);
    var z := r[..|r| - |s|];
    assert r == z + s;
    LeadingZerosIgnored(z, s);
  }

  /** Leading digits of `s`: the length of the longest prefix made of digits. */
  function DigitRunLength(s: string): (k: nat)
    ensures k <= |s| && AllDigits(s[..k])
    ensures k < |s| ==> !IsDigit(s[k])
  {
    if s != [] && IsDigit(s[0]) then 1 + DigitRunLength(s[1..]) else 0
  }

  lemma {:induction false} DigitRunOfDigits(s: string)
    requires AllDigits(s)
    ensures DigitRunLength(s) == |s|
  {
    if s != [] {
      DigitRunOfDigits(s[1..]);
    }
  }

  lemma {:induction false} DigitRunStopsAtNonDigit(a: string, q: string)
    requires q == [] || !IsDigit(q[0])
    ensures DigitRunLength(a + q) == DigitRunLength(a)
  {
    if a == [] {
      assert a + q == q;
    } else {
      assert (a + q)[0] == a[0];
      assert (a + q)[1..] == a[1..] + q;
      DigitRunStopsAtNonDigit(a[1..], q);
    }
  }

  /** Numbers below 100 render with at most two digits. */
  lemma ShortNumber(n: nat)
    requires n < 100
    ensures |NatToString(n)| <= 2
  {
  }
}
