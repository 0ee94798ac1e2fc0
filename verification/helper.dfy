/** The string helpers of `Helper` (src/helper.ts): pulling the single issue
    reference `#<digits>` out of a Toggl description, and rendering a
    changed value as `old --> new`. */
module Helper {
  import opened Wrappers
  import opened Seqs
  import opened Decimal

  // ---------------------------------------------------------------------------
  // Occurrences of the pattern `#[0-9]+`
  // ---------------------------------------------------------------------------

  /** An occurrence of `#[0-9]+` starts at position `i`: a `#` followed by a digit. */
  predicate IsHashtagAt(s: string, i: int)
  {
    0 <= i && i + 1 < |s| && s[i] == '#' && IsDigit(s[i + 1])
  }

  /** The number written by the occurrence starting at `i`: all the digits after the `#`. */
  function HashtagValueAt(s: string, i: int): nat
    requires IsHashtagAt(s, i)
  {
    var rest := s[i + 1..];
    DecimalValue(rest[..DigitRunLength(rest)])
  }

  /** How many positions start an occurrence (counted position by position). */
  function HashtagCount(s: string): nat
  {
    if |s| < 2 then 0 else (if IsHashtagAt(s, 0) then 1 else 0) + HashtagCount(s[1..])
  }

  /** The values of all matches of the global regular expression `/#[0-9]+/g`, left to
      right: each match takes the `#` and the longest run of digits after it, and the
      search resumes after the match. */
  function Hashtags(s: string): seq<nat>
    decreases |s|
  {
    if |s| < 2 then []
    else if IsHashtagAt(s, 0) then
      var digits := s[1..];
      var k := DigitRunLength(digits);
      [DecimalValue(digits[..k])] + Hashtags(digits[k..])
    else Hashtags(s[1..])
  }

  /** `extractSingleHashtagNumber`: the issue number when the text holds exactly one
      `#<digits>` match, nothing when it holds none or several. */
  function ExtractSingleHashtagNumber(value: string): (r: Option<nat>)
    ensures r.Some? <==> HashtagCount(value) == 1
  {
    HashtagsCounted(value);
    Single(Hashtags(value))
  }

  // ---------------------------------------------------------------------------
  // The scan agrees with the position-by-position view
  // ---------------------------------------------------------------------------

  lemma ShiftedHashtag(s: string, k: nat, i: int)
    requires k <= |s| && 0 <= i
    ensures IsHashtagAt(s[k..], i) <==> IsHashtagAt(s, i + k)
    ensures IsHashtagAt(s[k..], i) ==> HashtagValueAt(s[k..], i) == HashtagValueAt(s, i + k)
  {
    if IsHashtagAt(s[k..], i) {
      assert s[k..][i + 1..] == s[i + k + 1..];
    }
  }

  /** Digits never start an occurrence, so skipping a run of digits keeps the count. */
  lemma {:induction false} DigitsCarryNoHashtag(t: string, k: nat)
    requires k <= |t| && AllDigits(t[..k])
    ensures HashtagCount(t) == HashtagCount(t[k..])
  {
    if k > 0 && |t| >= 2 {
      assert t[0] == t[..k][0];
      assert t[1..][..k - 1] == t[1..k];
      DigitsCarryNoHashtag(t[1..], k - 1);
      assert t[1..][k - 1..] == t[k..];
    }
  }

  /** The regular-expression scan finds as many matches as there are occurrence starts. */
  lemma {:induction false} HashtagsCounted(s: string)
    ensures |Hashtags(s)| == HashtagCount(s)
    decreases |s|
  {
    if |s| >= 2 {
      if IsHashtagAt(s, 0) {
        var k := DigitRunLength(s[1..]);
        DigitsCarryNoHashtag(s[1..], k);
        HashtagsCounted(s[1..][k..]);
      } else {
        HashtagsCounted(s[1..]);
      }
    }
  }

  /** Occurrences in `s[1..]` are the occurrences of `s` after its first position. */
  lemma ShiftedHashtags(s: string)
    requires 1 <= |s|
    ensures forall i | 1 <= i :: IsHashtagAt(s, i) == IsHashtagAt(s[1..], i - 1)
    ensures forall j | 0 <= j :: IsHashtagAt(s[1..], j) == IsHashtagAt(s, j + 1)
  {
    forall i | 1 <= i ensures IsHashtagAt(s, i) == IsHashtagAt(s[1..], i - 1) {
      ShiftedHashtag(s, 1, i - 1);
    }
    forall j | 0 <= j ensures IsHashtagAt(s[1..], j) == IsHashtagAt(s, j + 1) {
      ShiftedHashtag(s, 1, j);
    }
  }

  /** A count of zero means no position starts an occurrence. */
  lemma {:induction false} NoHashtagIff(s: string)
    ensures HashtagCount(s) == 0 <==> forall i :: !IsHashtagAt(s, i)
  {
    if |s| >= 2 {
      NoHashtagIff(s[1..]);
      ShiftedHashtags(s);
    }
  }

  /** Exactly one occurrence, and it starts at `i`. */
  ghost predicate OnlyHashtagAt(s: string, i: int)
  {
    IsHashtagAt(s, i) && forall j :: IsHashtagAt(s, j) ==> j == i
  }

  /** A count of one means exactly one position starts an occurrence. */
  lemma {:induction false} OneHashtagIff(s: string)
    ensures HashtagCount(s) == 1 <==> exists i :: OnlyHashtagAt(s, i)
  {
    if |s| >= 2 {
      var t := s[1..];
      OneHashtagIff(t);
      NoHashtagIff(t);
      ShiftedHashtags(s);
      if IsHashtagAt(s, 0) {
        if HashtagCount(s) == 1 {
          assert OnlyHashtagAt(s, 0);
        }
      } else {
        if HashtagCount(s) == 1 {
          var i :| OnlyHashtagAt(t, i);
          assert OnlyHashtagAt(s, i + 1);
        }
        if exists i :: OnlyHashtagAt(s, i) {
          var i :| OnlyHashtagAt(s, i);
          assert OnlyHashtagAt(t, i - 1);
        }
      }
    }
  }

  /** With a single occurrence, the scan returns exactly that occurrence's number. */
  lemma {:induction false} SingleHashtagValue(s: string, i: int)
    requires OnlyHashtagAt(s, i)
    ensures Hashtags(s) == [HashtagValueAt(s, i)]
    decreases |s|
  {
    OneHashtagIff(s);
    var t := s[1..];
    if IsHashtagAt(s, 0) {
      var k := DigitRunLength(t);
      DigitsCarryNoHashtag(t, k);
      HashtagsCounted(t[k..]);
    } else {
      ShiftedHashtags(s);
      ShiftedHashtag(s, 1, i - 1);
      assert OnlyHashtagAt(t, i - 1);
      SingleHashtagValue(t, i - 1);
    }
  }

  // ---------------------------------------------------------------------------
  // What extractSingleHashtagNumber promises
  // ---------------------------------------------------------------------------

  /** The result is `Some(n)` exactly when the text holds one occurrence of `#<digits>`
      and `n` is the decimal value of that occurrence's digits. */
  lemma ExtractSomeIff(s: string, n: nat)
    ensures ExtractSingleHashtagNumber(s) == Some(n) <==>
            exists i :: OnlyHashtagAt(s, i) && HashtagValueAt(s, i) == n
  {
    OneHashtagIff(s);
    HashtagsCounted(s);
    if exists i :: OnlyHashtagAt(s, i) {
      var i :| OnlyHashtagAt(s, i);
      SingleHashtagValue(s, i);
    }
  }

  /** Without any `#<digits>` the result is nothing (a bare `#` does not count). */
  lemma ExtractNoneWithoutHashtag(s: string)
    requires forall i :: !IsHashtagAt(s, i)
    ensures ExtractSingleHashtagNumber(s) == None
  {
    NoHashtagIff(s);
  }

  /** Two different occurrences make the result nothing: `"Fixes #1 and #2"` is refused. */
  lemma ExtractNoneWithTwoHashtags(s: string, i: int, j: int)
    requires IsHashtagAt(s, i) && IsHashtagAt(s, j) && i != j
    ensures ExtractSingleHashtagNumber(s) == None
  {
    OneHashtagIff(s);
  }

  predicate NoHash(s: string)
  {
    forall i :: 0 <= i < |s| ==> s[i] != '#'
  }

  predicate NoHashNorDigit(s: string)
  {
    forall i :: 0 <= i < |s| ==> s[i] != '#' && !IsDigit(s[i])
  }

  lemma {:induction false} HashtagsIgnorePrefix(p: string, s: string)
    requires NoHash(p)
    ensures Hashtags(p + s) == Hashtags(s)
  {
    if p == [] {
      assert p + s == s;
    } else if |p + s| >= 2 {
      assert (p + s)[1..] == p[1..] + s;
      HashtagsIgnorePrefix(p[1..], s);
    }
  }

  lemma ShortTextIgnoresSuffix(s: string, q: string)
    requires NoHashNorDigit(q) && |s| < 2
    ensures Hashtags(s + q) == []
  {
    HashtagsIgnorePrefix(q, []);
    assert q + [] == q;
    if s == [] {
      assert s + q == q;
    } else if |s + q| >= 2 {
      assert (s + q)[1..] == q;
    }
  }

  lemma HashtagIgnoresSuffix(s: string, q: string)
    requires NoHashNorDigit(q) && |s| >= 2 && IsHashtagAt(s, 0)
    ensures IsHashtagAt(s + q, 0)
    ensures var k := DigitRunLength(s[1..]);
            DigitRunLength((s + q)[1..]) == k &&
            (s + q)[1..][..k] == s[1..][..k] &&
            (s + q)[1..][k..] == s[1..][k..] + q
  {
    assert (s + q)[1..] == s[1..] + q;
    DigitRunStopsAtNonDigit(s[1..], q);
  }

  lemma {:induction false} HashtagsIgnoreSuffix(s: string, q: string)
    requires NoHashNorDigit(q)
    ensures Hashtags(s + q) == Hashtags(s)
    decreases |s|
  {
    if |s| < 2 {
      ShortTextIgnoresSuffix(s, q);
    } else if IsHashtagAt(s, 0) {
      HashtagIgnoresSuffix(s, q);
      var k := DigitRunLength(s[1..]);
      HashtagsIgnoreSuffix(s[1..][k..], q);
    } else {
      assert (s + q)[1..] == s[1..] + q;
      HashtagsIgnoreSuffix(s[1..], q);
    }
  }

  /** Surrounding the text with characters that are neither `#` nor digits leaves the
      result unchanged (text in front may even hold digits). Text inserted INSIDE an
      occurrence, between `#` and its digits, does change it. */
  lemma ExtractIgnoresSurroundingText(p: string, s: string, q: string)
    requires NoHash(p) && NoHashNorDigit(q)
    ensures ExtractSingleHashtagNumber(p + s + q) == ExtractSingleHashtagNumber(s)
  {
    assert p + s + q == p + (s + q);
    HashtagsIgnorePrefix(p, s + q);
    HashtagsIgnoreSuffix(s, q);
  }

  /** A reference on its own, `#<zeros><n>`, yields `n`. */
  lemma ExtractFromBareReference(zeros: string, n: nat)
    requires AllZeros(zeros)
    ensures ExtractSingleHashtagNumber(['#'] + (zeros + NatToString(n))) == Some(n)
  {
    var digits := zeros + NatToString(n);
    var s := ['#'] + digits;
    LeadingZerosIgnored(zeros, NatToString(n));
    DecimalRoundTrip(n);
    assert s[1..] == digits;
    DigitRunOfDigits(digits);
    assert digits[..|digits|] == digits;
    assert HashtagValueAt(s, 0) == n;
    assert OnlyHashtagAt(s, 0);
    ExtractSomeIff(s, n);
  }

  /** A description holding one reference `#<zeros><n>` in plain text yields `n`:
      `"Implement feature #42"` gives 42 and `#007` gives 7. */
  lemma ExtractFromReference(p: string, zeros: string, n: nat, q: string)
    requires NoHash(p) && NoHashNorDigit(q) && AllZeros(zeros)
    ensures ExtractSingleHashtagNumber(p + (['#'] + zeros + NatToString(n)) + q) == Some(n)
  {
    var s := ['#'] + (zeros + NatToString(n));
    ExtractFromBareReference(zeros, n);
    ExtractIgnoresSurroundingText(p, s, q);
    assert ['#'] + zeros + NatToString(n) == s;
  }

  // ---------------------------------------------------------------------------
  // combineWithArrowIfNotEqual
  // ---------------------------------------------------------------------------

  const Arrow: string := " --> "

  /** `combineWithArrowIfNotEqual` on the string forms of two values: the before value
      alone when they are the same, otherwise before and after joined by an arrow. */
  function CombineWithArrowIfNotEqual(before: string, after: string): (r: string)
    ensures r == before <==> before == after
    ensures StartsWith(r, before) && EndsWith(r, after)
    ensures before != after ==> r != after && |r| == |before| + |Arrow| + |after|
    ensures before != after ==> r[|before|..|before| + |Arrow|] == Arrow
  {
    if before == after then before else before + Arrow + after
  }

  /** Comparing a value with itself shows no change. */
  lemma CombineReflexive(x: string)
    ensures CombineWithArrowIfNotEqual(x, x) == x
  {
  }

  /** The arrow form can be split back into the before and the after value. */
  lemma CombineSplits(before: string, after: string)
    requires before != after
    ensures var r := CombineWithArrowIfNotEqual(before, after);
            r[..|before|] == before && r[|before| + |Arrow|..] == after
  {
  }
}
