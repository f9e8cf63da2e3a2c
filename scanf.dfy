/**
 * The three `sscanf` conversions the feed reader's date pattern uses:
 * `%<w>s`, `%<w>u` and `%<w>ld`. Each one skips leading white space, reads at
 * most `w` characters, and either assigns a value and leaves the rest of the
 * input, or fails, which ends the whole `sscanf` call.
 */
module Scanf {
  import opened Decimal

  /** C's `isspace` in the "C" locale: space, tab, newline, vertical tab, form feed, carriage return. */
  predicate IsSpace(c: char) { c == ' ' || '\t' <= c <= '\r' }

  datatype Scanned<T> = NoMatch | Match(value: T, rest: string)

  /** The input after its leading white space. */
  function SkipSpace(s: string): (t: string)
    ensures |t| <= |s|
    ensures t == [] || !IsSpace(t[0])
  {
    if s != [] && IsSpace(s[0]) then SkipSpace(s[1..]) else s
  }

  /** How many of the first `width` characters are non-space, up to the first space. */
  function NonSpaceRun(s: string, width: nat): (k: nat)
    ensures k <= width && k <= |s|
    ensures forall i | 0 <= i < k :: !IsSpace(s[i])
    ensures k < width && k < |s| ==> IsSpace(s[k])
  {
    if width == 0 || s == [] || IsSpace(s[0]) then 0 else 1 + NonSpaceRun(s[1..], width - 1)
  }

  /** How many of the first `width` characters are digits, up to the first non-digit. */
  function DigitRun(s: string, width: nat): (k: nat)
    ensures k <= width && k <= |s|
    ensures AllDigits(s[..k])
    ensures k < width && k < |s| ==> !IsDigit(s[k])
  {
    if width == 0 || s == [] || !IsDigit(s[0]) then 0 else 1 + DigitRun(s[1..], width - 1)
  }

  /** `%<width>s`: after white space, one to `width` non-space characters; fails at the end of the input. */
  function ScanWord(s: string, width: nat): (r: Scanned<string>)
    requires width >= 1
    ensures r.Match? <==> SkipSpace(s) != []
    ensures r.Match? ==> 1 <= |r.value| <= width && SkipSpace(s) == r.value + r.rest
    ensures r.Match? ==> forall i | 0 <= i < |r.value| :: !IsSpace(r.value[i])
    ensures r.Match? ==> |r.value| == width || r.rest == [] || IsSpace(r.rest[0])
  {
    var t := SkipSpace(s);
    if t == [] then NoMatch
    else
      var k := NonSpaceRun(t, width);
      assert t == t[..k] + t[k..];
      Match(t[..k], t[k..])
  }

  /** At most `width` digits, at least one, read as the number they spell. */
  function ScanMagnitude(t: string, width: nat): (r: Scanned<nat>)
    requires width <= 9
    ensures r.Match? ==> r.value < 1_000_000_000 && |r.rest| < |t|
  {
    var k := DigitRun(t, width);
    if k == 0 then NoMatch
    else
      ValueBelowBillion(t[..k]);
      Match(Value(t[..k]), t[k..])
  }

  /**
   * The common part of `%<width>u` and `%<width>ld`: after white space, an
   * optional sign (which counts toward the width) and at least one digit.
   */
  function ScanInteger(s: string, width: nat): (r: Scanned<int>)
    requires 1 <= width <= 9
    ensures r.Match? ==> -1_000_000_000 < r.value < 1_000_000_000
    ensures r.Match? ==> |r.rest| < |s|
  {
    var t := SkipSpace(s);
    if t != [] && (t[0] == '+' || t[0] == '-') then
      match ScanMagnitude(t[1..], width - 1)
      case NoMatch => NoMatch
      case Match(v, rest) => Match(if t[0] == '-' then -(v as int) else v, rest)
    else
      match ScanMagnitude(t, width)
      case NoMatch => NoMatch
      case Match(v, rest) => Match(v, rest)
  }

  /** `%<width>u` into a 32-bit `guint`: a minus sign wraps the value modulo 2^32. */
  function ScanUnsigned(s: string, width: nat): (r: Scanned<nat>)
    requires 1 <= width <= 9
    ensures r.Match? ==> r.value < 0x1_0000_0000
    ensures r.Match? <==> ScanInteger(s, width).Match?
    ensures r.Match? ==> r.rest == ScanInteger(s, width).rest
    ensures r.Match? ==> r.value == ScanInteger(s, width).value % 0x1_0000_0000
  {
    match ScanInteger(s, width)
    case NoMatch => NoMatch
    case Match(v, rest) => Match(v % 0x1_0000_0000, rest)
  }

  lemma ValueBelowBillion(ds: string)
    requires AllDigits(ds) && |ds| <= 9
    ensures Value(ds) < 1_000_000_000
  {
    ValueBound(ds);
    PowMonotone(|ds|, 9);
    assert Pow10(9) == 10 * Pow10(8);
    assert Pow10(8) == 10 * 10 * 10 * Pow10(5);
    assert Pow10(5) == 10 * 10 * 10 * 10 * 10 * Pow10(0);
  }

  lemma {:induction false} PowMonotone(j: nat, k: nat)
    requires j <= k
    ensures Pow10(j) <= Pow10(k)
  {
    if j < k {
      PowMonotone(j, k - 1);
    }
  }

  /** A run of digits that fills the width, or is followed by something that is not a digit, is read whole. */
  lemma MagnitudeScan(t: string, ds: string, rest: string, width: nat)
    requires width <= 9
    requires t == ds + rest
    requires AllDigits(ds) && 1 <= |ds| <= width
    requires |ds| == width || rest == [] || !IsDigit(rest[0])
    ensures ScanMagnitude(t, width) == Match(Value(ds), rest)
  {
    DigitRunExact(t, ds, rest, width);
    assert t[..|ds|] == ds && t[|ds|..] == rest;
  }

  /**
   * A run of digits that fills the width, or is followed by something that is
   * not a digit, is read by `%<width>u`/`%<width>ld` as the number it spells.
   */
  lemma DigitsScan(s: string, ds: string, rest: string, width: nat)
    requires 1 <= width <= 9
    requires AllDigits(ds) && 1 <= |ds| <= width
    requires |ds| == width || rest == [] || !IsDigit(rest[0])
    requires SkipSpace(s) == ds + rest
    ensures ScanInteger(s, width) == Match(Value(ds), rest)
  {
    var t := SkipSpace(s);
    assert t[0] == ds[0] && IsDigit(ds[0]);
    MagnitudeScan(t, ds, rest, width);
  }

  /** ... and `%<width>u` reads it unchanged, since nine digits never reach 2^32. */
  lemma UnsignedDigitsScan(s: string, ds: string, rest: string, width: nat)
    requires 1 <= width <= 9
    requires AllDigits(ds) && 1 <= |ds| <= width
    requires |ds| == width || rest == [] || !IsDigit(rest[0])
    requires SkipSpace(s) == ds + rest
    ensures ScanUnsigned(s, width) == Match(Value(ds), rest)
  {
    DigitsScan(s, ds, rest, width);
    ValueBelowBillion(ds);
    var v: int := Value(ds);
    assert 0 <= v < 0x1_0000_0000;
    assert v % 0x1_0000_0000 == v;
  }

  /**
   * `%<width>u` accepts a minus sign and stores the negated number modulo
   * 2^32, so `-5` is stored as 4294967291.
   */
  lemma NegativeUnsignedScan(s: string, ds: string, rest: string, width: nat)
    requires 2 <= width <= 9
    requires AllDigits(ds) && |ds| == width - 1 && Value(ds) > 0
    requires SkipSpace(s) == ['-'] + (ds + rest)
    ensures ScanUnsigned(s, width) == Match(0x1_0000_0000 - Value(ds), rest)
  {
    SignedDigitsScan(s, '-', ds, rest, width);
    ValueBelowBillion(ds);
    var v: int := -(Value(ds) as int);
    assert v % 0x1_0000_0000 == 0x1_0000_0000 + v;
  }

  /** After a sign, `%<width>ld` reads the magnitude in the rest of the width and applies the sign. */
  lemma SignScan(s: string, width: nat, v: nat, rest: string)
    requires 2 <= width <= 9
    requires var t := SkipSpace(s);
             t != [] && (t[0] == '+' || t[0] == '-') && ScanMagnitude(t[1..], width - 1) == Match(v, rest)
    ensures ScanInteger(s, width) == Match(if SkipSpace(s)[0] == '-' then -(v as int) else v, rest)
  {
  }

  /** A sign followed by a run of digits that fills the rest of the width is read by `%<width>ld` with that sign. */
  lemma SignedDigitsScan(s: string, sign: char, ds: string, rest: string, width: nat)
    requires 2 <= width <= 9
    requires sign == '+' || sign == '-'
    requires AllDigits(ds) && |ds| == width - 1
    requires SkipSpace(s) == [sign] + (ds + rest)
    ensures ScanInteger(s, width) == Match(if sign == '-' then -(Value(ds) as int) else Value(ds), rest)
  {
    var t := SkipSpace(s);
    assert t[0] == sign && t[1..] == ds + rest;
    MagnitudeScan(t[1..], ds, rest, width - 1);
    SignScan(s, width, Value(ds), rest);
  }

  lemma {:induction false} DigitRunExact(t: string, ds: string, rest: string, width: nat)
    requires t == ds + rest
    requires AllDigits(ds) && |ds| <= width
    requires |ds| == width || rest == [] || !IsDigit(rest[0])
    ensures DigitRun(t, width) == |ds|
  {
    if ds != [] {
      assert t[1..] == ds[1..] + rest;
      DigitRunExact(t[1..], ds[1..], rest, width - 1);
    }
  }

  /** A word of exactly `width` non-space characters is read whole by `%<width>s`. */
  lemma WordScan(s: string, w: string, rest: string, width: nat)
    requires 1 <= width && |w| == width
    requires forall i | 0 <= i < |w| :: !IsSpace(w[i])
    requires SkipSpace(s) == w + rest
    ensures ScanWord(s, width) == Match(w, rest)
  {
    NonSpaceRunExact(w + rest, w, rest, width);
    assert (w + rest)[..|w|] == w && (w + rest)[|w|..] == rest;
  }

  lemma {:induction false} NonSpaceRunExact(t: string, w: string, rest: string, width: nat)
    requires t == w + rest
    requires |w| == width
    requires forall i | 0 <= i < |w| :: !IsSpace(w[i])
    ensures NonSpaceRun(t, width) == width
  {
    if w != [] {
      assert t[1..] == w[1..] + rest;
      NonSpaceRunExact(t[1..], w[1..], rest, width - 1);
    }
  }

  /** White space in front of the input is skipped together with the input's own. */
  lemma {:induction false} SkipLeadingSpace(ws: string, s: string)
    requires forall i | 0 <= i < |ws| :: IsSpace(ws[i])
    ensures SkipSpace(ws + s) == SkipSpace(s)
  {
    if ws == [] {
      assert ws + s == s;
    } else {
      assert (ws + s)[0] == ws[0] && (ws + s)[1..] == ws[1..] + s;
      SkipLeadingSpace(ws[1..], s);
    }
  }

  /** A single leading space is skipped. */
  lemma SkipOneSpace(s: string)
    requires s != [] && !IsSpace(s[0])
    ensures SkipSpace(" " + s) == s
  {
    assert (" " + s)[1..] == s;
  }
}
