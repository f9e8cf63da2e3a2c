/**
 * Decimal text and numbers in both directions: the digits that `%u`/`%ld`
 * read, and the zero-padded fields that `%0<w>u`/`%0<w>ld` write.
 */
module Decimal {

  predicate IsDigit(c: char) { '0' <= c <= '9' }

  predicate AllDigits(s: string) { forall i | 0 <= i < |s| :: IsDigit(s[i]) }

  function DigitValue(c: char): nat
    requires IsDigit(c)
  {
    (c as int) - ('0' as int)
  }

  function DigitChar(d: nat): (c: char)
    requires d < 10
    ensures IsDigit(c) && DigitValue(c) == d
  {
    (('0' as int) + d) as char
  }

  function Pow10(k: nat): (p: nat)
    ensures p >= 1
  {
    if k == 0 then 1 else 10 * Pow10(k - 1)
  }

  /** The number a string of digits spells, read most significant digit first. */
  function Value(ds: string): nat
    requires AllDigits(ds)
  {
    if ds == [] then 0 else Value(ds[..|ds| - 1]) * 10 + DigitValue(ds[|ds| - 1])
  }

  /** The shortest decimal spelling of `n` (`%u` with no width). */
  function Digits(n: nat): (ds: string)
    ensures 1 <= |ds| && AllDigits(ds)
  {
    if n < 10 then [DigitChar(n)] else Digits(n / 10) + [DigitChar(n % 10)]
  }

  function Zeros(k: nat): (z: string)
    ensures |z| == k && AllDigits(z)
  {
    if k == 0 then [] else Zeros(k - 1) + ['0']
  }

  /** `%0<width>u`: `n` in decimal, padded on the left with zeros to at least `width` characters. */
  function ZeroPad(n: nat, width: nat): (ds: string)
    ensures AllDigits(ds)
    ensures |ds| >= width
  {
    var d := Digits(n);
    if |d| < width then Zeros(width - |d|) + d else d
  }

  /** `%0<width>ld`: a minus sign for a negative value, and the magnitude zero-padded to fill the width. */
  function PadSigned(v: int, width: nat): (s: string)
    requires width >= 1
    ensures |s| >= width
  {
    if v < 0 then "-" + ZeroPad(-v, width - 1) else ZeroPad(v, width)
  }

  /** A signed number as `%ld` reads it: an optional sign followed by digits. */
  function SignedValue(s: string): int
  {
    if s != [] && (s[0] == '-' || s[0] == '+') && AllDigits(s[1..]) then
      (if s[0] == '-' then -(Value(s[1..]) as int) else Value(s[1..]))
    else if AllDigits(s) then Value(s)
    else 0
  }

  /** Reading back what `%u` writes gives the number that was written. */
  lemma {:induction false} ValueOfDigits(n: nat)
    ensures Value(Digits(n)) == n
  {
    if n >= 10 {
      var d := Digits(n);
      assert d[..|d| - 1] == Digits(n / 10);
      ValueOfDigits(n / 10);
    }
  }

  /** A number below 10^k needs at most k digits. */
  lemma {:induction false} DigitsLength(n: nat, k: nat)
    requires 1 <= k && n < Pow10(k)
    ensures |Digits(n)| <= k
  {
    if n >= 10 {
      DigitsLength(n / 10, k - 1);
    }
  }

  /** A string of digits spells a number below 10^length. */
  lemma {:induction false} ValueBound(ds: string)
    requires AllDigits(ds)
    ensures Value(ds) < Pow10(|ds|)
  {
    if ds != [] {
      ValueBound(ds[..|ds| - 1]);
    }
  }

  /** Leading zeros do not change the number a string of digits spells. */
  lemma {:induction false} ValueLeadingZeros(k: nat, ds: string)
    requires AllDigits(ds)
    ensures Value(Zeros(k) + ds) == Value(ds)
  {
    if ds == [] {
      assert Zeros(k) + ds == Zeros(k);
      ValueOfZeros(k);
    } else {
      var s := Zeros(k) + ds;
      assert s[..|s| - 1] == Zeros(k) + ds[..|ds| - 1];
      ValueLeadingZeros(k, ds[..|ds| - 1]);
    }
  }

  lemma {:induction false} ValueOfZeros(k: nat)
    ensures Value(Zeros(k)) == 0
  {
    if k > 0 {
      assert Zeros(k)[..k - 1] == Zeros(k - 1);
      ValueOfZeros(k - 1);
    }
  }

  /**
   * What `%0<width>u` writes reads back as the number written, and is exactly
   * `width` characters long whenever the number has at most `width` digits.
   */
  lemma ZeroPadRoundTrip(n: nat, width: nat)
    requires 1 <= width && n < Pow10(width)
    ensures |ZeroPad(n, width)| == width
    ensures Value(ZeroPad(n, width)) == n
  {
    var d := Digits(n);
    DigitsLength(n, width);
    ValueOfDigits(n);
    if |d| < width {
      var z := Zeros(width - |d|);
      ValueLeadingZeros(width - |d|, d);
      assert |z + d| == width && Value(z + d) == n;
    }
  }

  /** What `%0<width>ld` writes reads back as the number written, in exactly `width` characters when it fits. */
  lemma PadSignedRoundTrip(v: int, width: nat)
    requires 2 <= width && -(Pow10(width - 1) as int) < v < Pow10(width - 1)
    ensures |PadSigned(v, width)| == width
    ensures SignedValue(PadSigned(v, width)) == v
    ensures v < 0 ==> PadSigned(v, width)[0] == '-'
    ensures v >= 0 ==> AllDigits(PadSigned(v, width))
  {
    var p := PadSigned(v, width);
    if v < 0 {
      var z := ZeroPad(-v, width - 1);
      ZeroPadRoundTrip(-v, width - 1);
      assert p == "-" + z;
      assert p[0] == '-' && p[1..] == z;
    } else {
      var z := ZeroPad(v, width);
      assert Pow10(width - 1) <= Pow10(width);
      ZeroPadRoundTrip(v, width);
      assert p == z && p[0] != '-' && p[0] != '+';
    }
  }
}
