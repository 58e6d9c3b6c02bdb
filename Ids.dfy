/** Generated memory ids: `str(count).zfill(16)`, and the string order that
    `get_memories` sorts ids by. */
module Ids {

  /** Width that generated ids are padded to. */
  const IdWidth: nat := 16

  function Pow10(k: nat): (p: nat)
    ensures p >= 1
  {
    if k == 0 then 1 else 10 * Pow10(k - 1)
  }

  predicate IsDigit(c: char) {
    '0' <= c <= '9'
  }

  predicate AllDigits(s: string) {
    forall i :: 0 <= i < |s| ==> IsDigit(s[i])
  }

  function DigitChar(d: nat): (c: char)
    requires d < 10
    ensures IsDigit(c)
  {
    (('0' as int) + d) as char
  }

  function DigitOf(c: char): (d: nat)
    requires IsDigit(c)
    ensures d < 10
  {
    (c as int) - ('0' as int)
  }

  /** Python's `str(n)` for a non-negative integer: its decimal digits,
      without a leading zero. */
  function DecimalString(n: nat): (s: string)
    ensures |s| >= 1 && AllDigits(s)
    ensures |s| > 1 ==> s[0] != '0'
  {
    if n < 10 then [DigitChar(n)] else DecimalString(n / 10) + [DigitChar(n % 10)]
  }

  /** The number a digit string denotes (`int(s)`), leading zeros allowed. */
  function DigitsValue(s: string): nat
    requires AllDigits(s)
  {
    if s == [] then 0 else 10 * DigitsValue(s[..|s| - 1]) + DigitOf(s[|s| - 1])
  }

  function Zeros(k: nat): (z: string)
    ensures |z| == k && AllDigits(z)
    ensures forall i :: 0 <= i < k ==> z[i] == '0'
  {
    seq(k, _ => '0')
  }

  /** `s.zfill(width)` for a string without a sign: `s` with '0's put in
      front of it up to `width` characters; a string already that long is
      returned as it is. */
  function ZFill(s: string, width: nat): (r: string)
    ensures |s| >= width ==> r == s
    ensures |s| < width ==> |r| == width && r[width - |s|..] == s
    ensures |s| < width ==> forall i :: 0 <= i < width - |s| ==> r[i] == '0'
  {
    if |s| < width then Zeros(width - |s|) + s else s
  }

  /** The id `create_memory` assigns when none is given: the collection's
      count before the insert, in decimal, padded to 16 characters. */
  function IdFor(count: nat): (id: string)
    ensures AllDigits(id) && |id| >= IdWidth
  {
    ZFill(DecimalString(count), IdWidth)
  }

  /** Python's `<` on strings: lexicographic by character code, a proper
      prefix coming first. */
  predicate LexLess(a: string, b: string): (r: bool)
    ensures |a| < |b| && a == b[..|a|] ==> r
    ensures |b| < |a| && b == a[..|b|] ==> !r
  {
    if a == [] then b != []
    else if b == [] then false
    else if a[0] != b[0] then a[0] < b[0]
    else LexLess(a[1..], b[1..])
  }

  lemma {:induction false} LexLessIrreflexive(a: string)
    ensures !LexLess(a, a)
  {
    if a != [] {
      LexLessIrreflexive(a[1..]);
    }
  }

  lemma {:induction false} LexLessTransitive(a: string, b: string, c: string)
    requires LexLess(a, b) && LexLess(b, c)
    ensures LexLess(a, c)
  {
    if a != [] && a[0] == b[0] && b[0] == c[0] {
      LexLessTransitive(a[1..], b[1..], c[1..]);
    }
  }

  lemma {:induction false} LexLessTotal(a: string, b: string)
    ensures a != b ==> LexLess(a, b) || LexLess(b, a)
  {
    if a != [] && b != [] && a[0] == b[0] {
      assert a == [a[0]] + a[1..] && b == [b[0]] + b[1..];
      LexLessTotal(a[1..], b[1..]);
    }
  }

  /** `str(n)` reads back as `n`. */
  lemma {:induction false} DecimalValue(n: nat)
    ensures DigitsValue(DecimalString(n)) == n
  {
    if n >= 10 {
      DecimalValue(n / 10);
      var s := DecimalString(n);
      assert s[..|s| - 1] == DecimalString(n / 10);
    }
  }

  /** A number below 10^k has at most k decimal digits. */
  lemma {:induction false} DecimalLength(n: nat, k: nat)
    requires 1 <= k && n < Pow10(k)
    ensures |DecimalString(n)| <= k
  {
    if n >= 10 {
      DecimalLength(n / 10, k - 1);
    }
  }

  lemma {:induction false} ZerosValue(k: nat)
    ensures DigitsValue(Zeros(k)) == 0
  {
    if k > 0 {
      assert Zeros(k)[..k - 1] == Zeros(k - 1);
      ZerosValue(k - 1);
    }
  }

  /** Leading zeros do not change the value of a digit string. */
  lemma {:induction false} LeadingZerosValue(k: nat, s: string)
    requires AllDigits(s)
    ensures AllDigits(Zeros(k) + s) && DigitsValue(Zeros(k) + s) == DigitsValue(s)
  {
    if s == [] {
      assert Zeros(k) + s == Zeros(k);
      ZerosValue(k);
    } else {
      var t := Zeros(k) + s;
      assert t[..|t| - 1] == Zeros(k) + s[..|s| - 1];
      LeadingZerosValue(k, s[..|s| - 1]);
    }
  }

  /** A digit string of length n denotes a number below 10^n. */
  lemma {:induction false} ValueBound(s: string)
    requires AllDigits(s)
    ensures DigitsValue(s) < Pow10(|s|)
  {
    if s != [] {
      ValueBound(s[..|s| - 1]);
    }
  }

  /** The value of a digit string, read from its first digit. */
  lemma {:induction false} ValueFromFront(s: string)
    requires AllDigits(s) && s != []
    ensures DigitsValue(s) == DigitOf(s[0]) * Pow10(|s| - 1) + DigitsValue(s[1..])
  {
    var n := |s|;
    if n > 1 {
      var init := s[..n - 1];
      ValueFromFront(init);
      assert init[1..] == s[1..][..n - 2];
      var d0, p := DigitOf(s[0]), Pow10(n - 2);
      calc {
        DigitsValue(s);
        10 * DigitsValue(init) + DigitOf(s[n - 1]);
        10 * (d0 * p + DigitsValue(init[1..])) + DigitOf(s[n - 1]);
        { assert 10 * (d0 * p) == d0 * (10 * p); }
        d0 * Pow10(n - 1) + (10 * DigitsValue(s[1..][..n - 2]) + DigitOf(s[1..][n - 2]));
      }
    }
  }

  /** On digit strings of equal length, string order is numeric order. */
  lemma {:induction false} LexLessValue(a: string, b: string)
    requires AllDigits(a) && AllDigits(b) && |a| == |b|
    requires LexLess(a, b)
    ensures DigitsValue(a) < DigitsValue(b)
  {
    assert a != [] && b != [];
    ValueFromFront(a);
    ValueFromFront(b);
    if a[0] == b[0] {
      LexLessValue(a[1..], b[1..]);
    } else {
      ValueBound(a[1..]);
      LeadingDigitDominates(DigitOf(a[0]), DigitOf(b[0]), Pow10(|a| - 1),
        DigitsValue(a[1..]), DigitsValue(b[1..]));
    }
  }

  lemma {:induction false} LeadingDigitDominates(da: nat, db: nat, p: nat, ra: nat, rb: nat)
    requires da < db && ra < p
    ensures da * p + ra < db * p + rb
  {
    if db > da + 1 {
      LeadingDigitDominates(da, db - 1, p, ra, rb);
    }
    assert db * p == (db - 1) * p + p;
  }

  /** A generated id is all digits and reads back as the count it was made
      from, so distinct counts give distinct ids. */
  lemma IdRoundTrip(count: nat)
    ensures AllDigits(IdFor(count)) && DigitsValue(IdFor(count)) == count
  {
    var s := DecimalString(count);
    DecimalValue(count);
    if |s| < IdWidth {
      assert IdFor(count) == Zeros(IdWidth - |s|) + s;
      LeadingZerosValue(IdWidth - |s|, s);
    }
  }

  /** Below 10^16 every generated id is exactly 16 characters long. */
  lemma IdLength(count: nat)
    requires count < Pow10(IdWidth)
    ensures |IdFor(count)| == IdWidth
  {
    DecimalLength(count, IdWidth);
  }

  /** From 10^16 on, nothing is padded: the id is `str(count)`, longer than
      16 characters. */
  lemma IdUnpadded(count: nat)
    requires count >= Pow10(IdWidth)
    ensures IdFor(count) == DecimalString(count) && |IdFor(count)| > IdWidth
  {
    var s := DecimalString(count);
    DecimalValue(count);
    ValueBound(s);
    if |s| <= IdWidth {
      Pow10Monotone(|s|, IdWidth);
    }
  }

  lemma {:induction false} Pow10Monotone(j: nat, k: nat)
    requires j <= k
    ensures Pow10(j) <= Pow10(k)
  {
    if j < k {
      Pow10Monotone(j, k - 1);
    }
  }

  /** Below 10^16, generated ids sort in string order exactly as their
      counts do. */
  lemma IdOrder(n: nat, m: nat)
    requires n < m < Pow10(IdWidth)
    ensures LexLess(IdFor(n), IdFor(m)) && !LexLess(IdFor(m), IdFor(n))
  {
    IdRoundTrip(n);
    IdRoundTrip(m);
    IdLength(n);
    IdLength(m);
    LexLessTotal(IdFor(n), IdFor(m));
    if LexLess(IdFor(m), IdFor(n)) {
      LexLessValue(IdFor(m), IdFor(n));
    }
  }
}
