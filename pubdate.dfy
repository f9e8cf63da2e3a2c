/**
 * The `pubDate` handling of `rss_got_feed`: the date fields it scans with
 * `"%3s, %2u %3s %4u %2u:%2u:%2u %5ld"`, the month-name lookup, the compact
 * `%04u%02u%02uT%02u%02u%02u%05ld` string handed to the host's time
 * conversion, and the fixed-unit fallback used when that conversion gives
 * no positive time.
 */
module PubDate {
  import opened Wrappers
  import opened Decimal
  import opened Scanf

  /**
   * The date locals of `rss_got_feed`. They are set once before the item
   * loop and then only overwritten by the fields a scan manages to read, so
   * a field that fails to scan keeps the value from an earlier item.
   * `monthText` is `month_string`; `month` is the 0-based month index.
   */
  datatype DateFields = DateFields(
    day: nat, monthText: string, month: nat, year: nat,
    hour: nat, minute: nat, second: nat, timezone: int)

  /** What the locals hold before the first scan that C leaves indeterminate: `month_string`'s first bytes and `timezone`. */
  datatype Uninitialised = Uninitialised(monthText: string, timezone: int)

  /** The date locals as the loop first sees them: numeric fields zero, the rest indeterminate. */
  function InitialFields(u: Uninitialised): (f: DateFields)
    ensures f.day == f.month == f.year == f.hour == f.minute == f.second == 0
    ensures f.monthText == u.monthText && f.timezone == u.timezone
  {
    DateFields(0, u.monthText, 0, 0, 0, 0, 0, u.timezone)
  }

  // ---------------------------------------------------------------------------
  // Month names
  // ---------------------------------------------------------------------------

  const MonthNames: seq<string> :=
    ["Jan", "Feb", "Mar", "Apr", "May", "Jun", "Jul", "Aug", "Sep", "Oct", "Nov", "Dec"]

  /** The chain of `g_str_equal` tests: the 0-based index of an English month abbreviation, if it is one. */
  function MonthIndex(text: string): (r: Option<nat>)
    ensures forall i | 0 <= i < |MonthNames| :: r == Some(i) <==> text == MonthNames[i]
    ensures r == None <==> text !in MonthNames
  {
    if text == "Jan" then Some(0)
    else if text == "Feb" then Some(1)
    else if text == "Mar" then Some(2)
    else if text == "Apr" then Some(3)
    else if text == "May" then Some(4)
    else if text == "Jun" then Some(5)
    else if text == "Jul" then Some(6)
    else if text == "Aug" then Some(7)
    else if text == "Sep" then Some(8)
    else if text == "Oct" then Some(9)
    else if text == "Nov" then Some(10)
    else if text == "Dec" then Some(11)
    else None
  }

  /** The month after the lookup: the abbreviation's index, or the previous month when the text is no abbreviation. */
  function LookupMonth(text: string, month: nat): (m: nat)
    ensures text in MonthNames ==> m < 12 && MonthNames[m] == text
    ensures text !in MonthNames ==> m == month
  {
    match MonthIndex(text)
    case Some(i) => i
    case None => month
  }

  // ---------------------------------------------------------------------------
  // Scanning a pubDate
  // ---------------------------------------------------------------------------

  /**
   * `sscanf(text, "%3s, %2u %3s %4u %2u:%2u:%2u %5ld", ...)` over the date
   * locals: the directives run left to right and the first one that fails
   * ends the scan, so only a leading run of fields is overwritten. The weekday
   * is read and dropped. The blanks of the pattern are not written out: each
   * conversion skips leading white space itself, which subsumes them.
   */
  function ScanPubDate(text: string, prev: DateFields): (r: DateFields)
    ensures r.month == prev.month
    ensures SkipSpace(text) == [] ==> r == prev
  {
    match ScanWord(text, 3)
    case NoMatch => prev
    case Match(_, rest) =>
      if rest != [] && rest[0] == ',' then ScanDay(rest[1..], prev) else prev
  }

  function ScanDay(s: string, f: DateFields): (r: DateFields)
    ensures r.month == f.month
  {
    match ScanUnsigned(s, 2)
    case NoMatch => f
    case Match(d, rest) => ScanMonthText(rest, f.(day := d))
  }

  function ScanMonthText(s: string, f: DateFields): (r: DateFields)
    ensures r.month == f.month
  {
    match ScanWord(s, 3)
    case NoMatch => f
    case Match(m, rest) => ScanYear(rest, f.(monthText := m))
  }

  function ScanYear(s: string, f: DateFields): (r: DateFields)
    ensures r.month == f.month
  {
    match ScanUnsigned(s, 4)
    case NoMatch => f
    case Match(y, rest) => ScanHour(rest, f.(year := y))
  }

  function ScanHour(s: string, f: DateFields): (r: DateFields)
    ensures r.month == f.month
  {
    match ScanUnsigned(s, 2)
    case NoMatch => f
    case Match(h, rest) =>
      if rest != [] && rest[0] == ':' then ScanMinute(rest[1..], f.(hour := h)) else f.(hour := h)
  }

  function ScanMinute(s: string, f: DateFields): (r: DateFields)
    ensures r.month == f.month
  {
    match ScanUnsigned(s, 2)
    case NoMatch => f
    case Match(m, rest) =>
      if rest != [] && rest[0] == ':' then ScanSecond(rest[1..], f.(minute := m)) else f.(minute := m)
  }

  function ScanSecond(s: string, f: DateFields): (r: DateFields)
    ensures r.month == f.month
  {
    match ScanUnsigned(s, 2)
    case NoMatch => f
    case Match(x, rest) => ScanZone(rest, f.(second := x))
  }

  function ScanZone(s: string, f: DateFields): (r: DateFields)
    ensures r.month == f.month
  {
    match ScanInteger(s, 5)
    case NoMatch => f
    case Match(z, _) => f.(timezone := z)
  }

  /** One item's date as the loop reads it: scan the text over the current fields, then look the month up. */
  function ReadDate(text: string, f: DateFields): (g: DateFields)
    ensures g == ScanPubDate(text, f).(month := g.month)
    ensures g.month == LookupMonth(g.monthText, f.month)
  {
    var s := ScanPubDate(text, f);
    s.(month := LookupMonth(s.monthText, s.month))
  }

  /**
   * After reading a date, the month index names the month text when that
   * text is an abbreviation; otherwise the month index is the one carried
   * in from before, whatever the text says.
   */
  lemma ReadDateMonth(text: string, f: DateFields)
    ensures var g := ReadDate(text, f);
            (g.monthText in MonthNames ==> g.month < 12 && MonthNames[g.month] == g.monthText) &&
            (g.monthText !in MonthNames ==> g.month == f.month)
  {
  }

  // ---------------------------------------------------------------------------
  // The RSS date form, for stating what the scan recovers
  // ---------------------------------------------------------------------------

  /**
   * The zone of a date: a signed `hhmm` offset, or a zone name such as `GMT`
   * or `EST` (the obsolete form of RFC 2822 section 4.3, which RSS 2.0 feeds
   * commonly use).
   */
  datatype Zone = Offset(hhmm: int) | Named(name: string)

  /**
   * A date in the RSS `pubDate` form, `Thu, 19 Jun 2008 15:51:25 -1100`.
   * The seconds are optional, as RFC 2822 section 3.3 allows.
   */
  datatype DateText = DateText(
    weekday: string, dayText: string, month: string, year: nat,
    hour: nat, minute: nat, second: Option<nat>, zone: Zone)

  predicate IsWord(w: string, width: nat)
  {
    |w| == width && forall i | 0 <= i < |w| :: !IsSpace(w[i])
  }

  /** A zone name starts with something that cannot start a number. */
  predicate IsZoneName(name: string)
  {
    name != [] && !IsSpace(name[0]) && !IsDigit(name[0]) && name[0] != '+' && name[0] != '-'
  }

  /**
   * The field ranges of RFC 2822 section 3.3: a day of one or two digits,
   * written with or without a leading zero (`7` or `07`), a 4-digit year,
   * 2-digit time fields, and a signed 4-digit offset or a zone name.
   */
  predicate WellFormed(p: DateText)
  {
    IsWord(p.weekday, 3) && IsWord(p.month, 3) &&
    AllDigits(p.dayText) && 1 <= |p.dayText| <= 2 && p.year < 10000 && p.hour < 100 && p.minute < 100 &&
    (p.second.Some? ==> p.second.value < 100) &&
    match p.zone
    case Offset(z) => -10000 < z < 10000
    case Named(name) => IsZoneName(name)
  }

  function OffsetText(zone: int): string
  {
    (if zone < 0 then "-" else "+") + ZeroPad(if zone < 0 then -zone else zone, 4)
  }

  function ZoneText(zone: Zone): string
  {
    match zone
    case Offset(z) => OffsetText(z)
    case Named(name) => name
  }

  function SecondsText(second: Option<nat>): string
  {
    match second
    case None => ""
    case Some(x) => ":" + ZeroPad(x, 2)
  }

  /** The date and time without the day of the week: `19 Jun 2008 15:51:25 -1100`. */
  function DateTimeText(p: DateText): string
  {
    p.dayText + (" " + (p.month + (" " + (ZeroPad(p.year, 4) + (" " +
    (ZeroPad(p.hour, 2) + (":" + (ZeroPad(p.minute, 2) +
    (SecondsText(p.second) + (" " + ZoneText(p.zone)))))))))))
  }

  /** The full `pubDate` text: the day of the week, a comma, and the date and time. */
  function PubDateText(p: DateText): string
  {
    p.weekday + ("," + (" " + DateTimeText(p)))
  }

  lemma SkipNone(s: string)
    requires s != [] && !IsSpace(s[0])
    ensures SkipSpace(s) == s
  {
  }

  lemma OffsetStage(zone: int, f: DateFields)
    requires -10000 < zone < 10000
    ensures ScanZone(" " + OffsetText(zone), f) == f.(timezone := zone)
  {
    var mag := if zone < 0 then -zone else zone;
    var sign := if zone < 0 then '-' else '+';
    assert Pow10(4) == 10000;
    ZeroPadRoundTrip(mag, 4);
    assert OffsetText(zone) == [sign] + (ZeroPad(mag, 4) + []);
    SkipOneSpace(OffsetText(zone));
    SignedDigitsScan(" " + OffsetText(zone), sign, ZeroPad(mag, 4), [], 5);
  }

  /** `%5ld` fails on a zone name, so the time zone keeps its value. */
  lemma NamedStage(name: string, f: DateFields)
    requires IsZoneName(name)
    ensures ScanZone(" " + name, f) == f
  {
    SkipOneSpace(name);
  }

  /** `%<width>u` reads a zero-padded field of exactly `width` digits. */
  lemma PaddedScan(n: nat, width: nat, rest: string)
    requires 1 <= width <= 4 && n < Pow10(width) && n < 10000
    ensures ScanUnsigned(ZeroPad(n, width) + rest, width) == Match(n, rest)
  {
    var ds := ZeroPad(n, width);
    ZeroPadRoundTrip(n, width);
    SkipNone(ds + rest);
    UnsignedDigitsScan(ds + rest, ds, rest, width);
  }

  /** ... and so it does after a space. */
  lemma SpacedPaddedScan(n: nat, width: nat, rest: string)
    requires 1 <= width <= 4 && n < Pow10(width) && n < 10000
    ensures ScanUnsigned(" " + (ZeroPad(n, width) + rest), width) == Match(n, rest)
  {
    var ds := ZeroPad(n, width);
    ZeroPadRoundTrip(n, width);
    SkipNone(ds + rest);
    SkipOneSpace(ds + rest);
    UnsignedDigitsScan(" " + (ds + rest), ds, rest, width);
  }

  lemma SecondStage(x: nat, rest: string, f: DateFields)
    requires x < 100
    ensures ScanSecond(ZeroPad(x, 2) + rest, f) == ScanZone(rest, f.(second := x))
  {
    assert Pow10(2) == 100;
    PaddedScan(x, 2, rest);
  }

  lemma MinuteStage(m: nat, rest: string, f: DateFields)
    requires m < 100 && rest != [] && rest[0] == ':'
    ensures ScanMinute(ZeroPad(m, 2) + rest, f) == ScanSecond(rest[1..], f.(minute := m))
  {
    assert Pow10(2) == 100;
    PaddedScan(m, 2, rest);
  }

  /** Without the `:` of the seconds the scan ends after the minute. */
  lemma LastMinuteStage(m: nat, rest: string, f: DateFields)
    requires m < 100 && rest != [] && rest[0] == ' '
    ensures ScanMinute(ZeroPad(m, 2) + rest, f) == f.(minute := m)
  {
    assert Pow10(2) == 100;
    PaddedScan(m, 2, rest);
  }

  lemma HourStage(h: nat, rest: string, f: DateFields)
    requires h < 100 && rest != [] && rest[0] == ':'
    ensures ScanHour(" " + (ZeroPad(h, 2) + rest), f) == ScanMinute(rest[1..], f.(hour := h))
  {
    assert Pow10(2) == 100;
    SpacedPaddedScan(h, 2, rest);
  }

  lemma YearStage(y: nat, rest: string, f: DateFields)
    requires y < 10000
    ensures ScanYear(" " + (ZeroPad(y, 4) + rest), f) == ScanHour(rest, f.(year := y))
  {
    assert Pow10(4) == 10000;
    SpacedPaddedScan(y, 4, rest);
  }

  lemma MonthTextStage(m: string, rest: string, f: DateFields)
    requires IsWord(m, 3)
    ensures ScanMonthText(" " + (m + rest), f) == ScanYear(rest, f.(monthText := m))
  {
    SkipNone(m + rest);
    SkipOneSpace(m + rest);
    WordScan(" " + (m + rest), m, rest, 3);
  }

  lemma DayStage(ds: string, rest: string, f: DateFields)
    requires AllDigits(ds) && 1 <= |ds| <= 2 && rest != [] && rest[0] == ' '
    ensures ScanDay(" " + (ds + rest), f) == ScanMonthText(rest, f.(day := Value(ds)))
  {
    ShortScan(ds, rest);
  }

  /** `%2u` reads one or two digits followed by a space, after one space. */
  lemma ShortScan(ds: string, rest: string)
    requires AllDigits(ds) && 1 <= |ds| <= 2 && rest != [] && rest[0] == ' '
    ensures ScanUnsigned(" " + (ds + rest), 2) == Match(Value(ds), rest)
  {
    SkipNone(ds + rest);
    SkipOneSpace(ds + rest);
    UnsignedDigitsScan(" " + (ds + rest), ds, rest, 2);
  }

  /** The seconds and the zone: both when both are there and numeric, only the seconds before a zone name, neither without seconds. */
  lemma SecondsAndZoneStage(m: nat, second: Option<nat>, zone: Zone, f: DateFields)
    requires m < 100 && (second.Some? ==> second.value < 100)
    requires match zone
             case Offset(z) => -10000 < z < 10000
             case Named(name) => IsZoneName(name)
    ensures ScanMinute(ZeroPad(m, 2) + (SecondsText(second) + (" " + ZoneText(zone))), f)
            == f.(minute := m,
                  second := if second.Some? then second.value else f.second,
                  timezone := if second.Some? && zone.Offset? then zone.hhmm else f.timezone)
  {
    var tz := " " + ZoneText(zone);
    match second
    case None =>
      assert SecondsText(second) + tz == tz;
      LastMinuteStage(m, tz, f);
    case Some(x) =>
      assert SecondsText(second) + tz == ":" + (ZeroPad(x, 2) + tz);
      SecondsStage(m, x, tz, f);
      ZoneFieldStage(zone, f.(minute := m, second := x));
  }

  lemma SecondsStage(m: nat, x: nat, tz: string, f: DateFields)
    requires m < 100 && x < 100
    ensures ScanMinute(ZeroPad(m, 2) + (":" + (ZeroPad(x, 2) + tz)), f) == ScanZone(tz, f.(minute := m, second := x))
  {
    var t := ":" + (ZeroPad(x, 2) + tz);
    assert t[1..] == ZeroPad(x, 2) + tz;
    MinuteStage(m, t, f);
    SecondStage(x, tz, f.(minute := m));
  }

  lemma ZoneFieldStage(zone: Zone, f: DateFields)
    requires match zone
             case Offset(z) => -10000 < z < 10000
             case Named(name) => IsZoneName(name)
    ensures ScanZone(" " + ZoneText(zone), f) == (if zone.Offset? then f.(timezone := zone.hhmm) else f)
  {
    match zone
    case Offset(z) => OffsetStage(z, f);
    case Named(name) => NamedStage(name, f);
  }

  /** Everything after the comma of a well-formed date scans into the day, month text, year, clock and zone. */
  lemma DateScan(p: DateText, f: DateFields)
    requires WellFormed(p)
    ensures ScanDay(" " + DateTimeText(p), f)
            == f.(day := Value(p.dayText), monthText := p.month, year := p.year, hour := p.hour, minute := p.minute,
                  second := if p.second.Some? then p.second.value else f.second,
                  timezone := if p.second.Some? && p.zone.Offset? then p.zone.hhmm else f.timezone)
  {
    var t2 := SecondsText(p.second) + (" " + ZoneText(p.zone));
    var t4 := ":" + (ZeroPad(p.minute, 2) + t2);
    var t6 := " " + (ZeroPad(p.hour, 2) + t4);
    var t8 := " " + (ZeroPad(p.year, 4) + t6);
    var t10 := " " + (p.month + t8);
    assert DateTimeText(p) == p.dayText + t10;
    var f1 := f.(day := Value(p.dayText));
    var f2 := f1.(monthText := p.month);
    var f3 := f2.(year := p.year);
    var f4 := f3.(hour := p.hour);
    DayStage(p.dayText, t10, f);
    MonthTextStage(p.month, t8, f1);
    YearStage(p.year, t6, f2);
    HourStage(p.hour, t4, f3);
    assert t4[1..] == ZeroPad(p.minute, 2) + t2;
    SecondsAndZoneStage(p.minute, p.second, p.zone, f4);
  }

  /**
   * Scanning a well-formed `pubDate` overwrites the day, month text, year,
   * hour and minute with the values written in it (the month as its
   * abbreviation; the lookup comes next). The seconds are overwritten only
   * when the date has them, and the time zone only when it is a numeric
   * offset after the seconds: a zone name such as `GMT`, or a time without
   * seconds, leaves those fields as the earlier items left them.
   */
  lemma {:induction false} ScanPubDateRoundTrip(p: DateText, prev: DateFields)
    requires WellFormed(p)
    ensures ScanPubDate(PubDateText(p), prev)
            == prev.(day := Value(p.dayText), monthText := p.month, year := p.year, hour := p.hour, minute := p.minute,
                     second := if p.second.Some? then p.second.value else prev.second,
                     timezone := if p.second.Some? && p.zone.Offset? then p.zone.hhmm else prev.timezone)
  {
    var rest := "," + (" " + DateTimeText(p));
    assert PubDateText(p) == p.weekday + rest;
    SkipNone(PubDateText(p));
    WordScan(PubDateText(p), p.weekday, rest, 3);
    assert rest[1..] == " " + DateTimeText(p);
    DateScan(p, prev);
  }

  /**
   * The RSS 2.0 example date `Sat, 07 Sep 2002 00:00:01 GMT`, whose day has a
   * leading zero and whose zone is a name: every field up to the seconds is
   * read, the day as 7, and the time zone keeps its earlier value.
   */
  lemma NamedZoneExample(prev: DateFields)
    ensures ScanPubDate(PubDateText(NamedZoneDate), prev)
            == prev.(day := 7, monthText := "Sep", year := 2002, hour := 0, minute := 0, second := 1)
  {
    NamedZoneWellFormed();
    ScanPubDateRoundTrip(NamedZoneDate, prev);
  }

  /** The example as a `DateText`. */
  const NamedZoneDate := DateText("Sat", "07", "Sep", 2002, 0, 0, Some(1), Named("GMT"))

  lemma NamedZoneWellFormed()
    ensures WellFormed(NamedZoneDate) && Value(NamedZoneDate.dayText) == 7
  {
    assert Value("07") == 7 by { assert "07"[..1] == "0"; assert "0"[..0] == []; }
  }


  /**
   * On the first item of a feed, a date with a zone name or without seconds
   * leaves `timezone` at its indeterminate initial value, which then goes
   * into the compact string of this item and of every later item that does
   * not overwrite it.
   */
  lemma FirstZoneUninitialised(p: DateText, u: Uninitialised)
    requires WellFormed(p) && (p.second.None? || p.zone.Named?)
    ensures ReadDate(PubDateText(p), InitialFields(u)).timezone == u.timezone
  {
    ScanPubDateRoundTrip(p, InitialFields(u));
  }

  /**
   * White space before the date, such as the line break that often opens an
   * element's text, changes nothing: `%3s` skips it.
   */
  lemma LeadingSpaceIgnored(ws: string, text: string, prev: DateFields)
    requires forall i | 0 <= i < |ws| :: IsSpace(ws[i])
    ensures ScanPubDate(ws + text, prev) == ScanPubDate(text, prev)
  {
    SkipLeadingSpace(ws, text);
  }

  /**
   * RFC 2822 makes the day of the week optional, but the pattern insists on
   * it: a date without it scans nothing, because `%3s` takes the day number
   * and the comma that should follow is missing.
   */
  lemma {:induction false} MissingWeekdayScansNothing(p: DateText, prev: DateFields)
    requires WellFormed(p)
    ensures ScanPubDate(DateTimeText(p), prev) == prev
  {
    var d := p.dayText;
    var rest := " " + (p.month + (" " + (ZeroPad(p.year, 4) + (" " +
                (ZeroPad(p.hour, 2) + (":" + (ZeroPad(p.minute, 2) +
                (SecondsText(p.second) + (" " + ZoneText(p.zone))))))))));
    assert DateTimeText(p) == d + rest;
    SkipNone(d + rest);
    WordPrefixScan(d + rest, d, rest, 3);
  }

  /** A word shorter than the width, followed by white space, is read whole by `%<width>s`. */
  lemma WordPrefixScan(s: string, w: string, rest: string, width: nat)
    requires 1 <= |w| <= width
    requires forall i | 0 <= i < |w| :: !IsSpace(w[i])
    requires |w| == width || (rest != [] && IsSpace(rest[0]))
    requires SkipSpace(s) == w + rest
    ensures ScanWord(s, width) == Match(w, rest)
  {
    NonSpaceRunPrefix(w + rest, w, rest, width);
    assert (w + rest)[..|w|] == w && (w + rest)[|w|..] == rest;
  }

  lemma {:induction false} NonSpaceRunPrefix(t: string, w: string, rest: string, width: nat)
    requires t == w + rest && |w| <= width
    requires forall i | 0 <= i < |w| :: !IsSpace(w[i])
    requires |w| == width || (rest != [] && IsSpace(rest[0]))
    ensures NonSpaceRun(t, width) == |w|
  {
    if w != [] {
      assert t[1..] == w[1..] + rest;
      NonSpaceRunPrefix(t[1..], w[1..], rest, width - 1);
    }
  }

  /**
   * A date text with nothing but white space scans no field, so the item
   * takes over every date field of the item before it; the lookup repeats
   * on the same month text and changes nothing either.
   */
  lemma BlankDateKeepsFields(text: string, d: string, f: DateFields)
    requires SkipSpace(text) == []
    ensures ReadDate(text, ReadDate(d, f)) == ReadDate(d, f)
  {
    ReadDateSettled(d, f);
    BlankDateOnSettled(text, ReadDate(d, f));
  }

  /** After a read, the month index is the one its month text looks up to. */
  lemma ReadDateSettled(text: string, f: DateFields)
    ensures var g := ReadDate(text, f);
            LookupMonth(g.monthText, g.month) == g.month
  {
  }

  /** A blank date changes no field whose month index its month text already looks up to. */
  lemma BlankDateOnSettled(text: string, g: DateFields)
    requires SkipSpace(text) == [] && LookupMonth(g.monthText, g.month) == g.month
    ensures ReadDate(text, g) == g
  {
  }

  // ---------------------------------------------------------------------------
  // Converting the fields to a time
  // ---------------------------------------------------------------------------

  /** `%04u%02u%02uT%02u%02u%02u%05ld` over year, the 0-based month, day, hour, minute, second and zone. */
  function CompactTime(f: DateFields): (s: string)
    ensures |s| >= 20
  {
    ZeroPad(f.year, 4) + ZeroPad(f.month, 2) + ZeroPad(f.day, 2) + "T" +
    ZeroPad(f.hour, 2) + ZeroPad(f.minute, 2) + ZeroPad(f.second, 2) + PadSigned(f.timezone, 5)
  }

  /** Where the pieces of a compact string of fixed-width pieces sit. */
  lemma CompactSlices(y: string, mo: string, d: string, h: string, mi: string, x: string, z: string)
    requires |y| == 4 && |mo| == 2 && |d| == 2 && |h| == 2 && |mi| == 2 && |x| == 2 && |z| == 5
    ensures var c := y + mo + d + "T" + h + mi + x + z;
      |c| == 20 && c[0..4] == y && c[4..6] == mo && c[6..8] == d && c[8] == 'T' &&
      c[9..11] == h && c[11..13] == mi && c[13..15] == x && c[15..20] == z
  {
    var c := y + mo + d + "T" + h + mi + x + z;
    assert c[0..4] == y by { assert forall i | 0 <= i < 4 :: c[i] == y[i]; }
    assert c[4..6] == mo by { assert forall i | 0 <= i < 2 :: c[4 + i] == mo[i]; }
    assert c[6..8] == d by { assert forall i | 0 <= i < 2 :: c[6 + i] == d[i]; }
    assert c[9..11] == h by { assert forall i | 0 <= i < 2 :: c[9 + i] == h[i]; }
    assert c[11..13] == mi by { assert forall i | 0 <= i < 2 :: c[11 + i] == mi[i]; }
    assert c[13..15] == x by { assert forall i | 0 <= i < 2 :: c[13 + i] == x[i]; }
    assert c[15..20] == z by { assert forall i | 0 <= i < 5 :: c[15 + i] == z[i]; }
  }

  /**
   * For fields that fit their widths the compact string has 20 characters
   * at fixed positions, and each position reads back as its field; in
   * particular characters 4-5 hold the 0-based month, so June is `05`.
   * The zone has a `-` for a negative offset but no `+` for a positive one:
   * `+1100` is written `01100`.
   */
  lemma CompactTimeLayout(f: DateFields)
    requires f.year < 10000 && f.month < 100 && f.day < 100
    requires f.hour < 100 && f.minute < 100 && f.second < 100
    requires -10000 < f.timezone < 10000
    ensures |CompactTime(f)| == 20
    ensures AllDigits(CompactTime(f)[0..4]) && Value(CompactTime(f)[0..4]) == f.year
    ensures AllDigits(CompactTime(f)[4..6]) && Value(CompactTime(f)[4..6]) == f.month
    ensures AllDigits(CompactTime(f)[6..8]) && Value(CompactTime(f)[6..8]) == f.day
    ensures CompactTime(f)[8] == 'T'
    ensures AllDigits(CompactTime(f)[9..11]) && Value(CompactTime(f)[9..11]) == f.hour
    ensures AllDigits(CompactTime(f)[11..13]) && Value(CompactTime(f)[11..13]) == f.minute
    ensures AllDigits(CompactTime(f)[13..15]) && Value(CompactTime(f)[13..15]) == f.second
    ensures SignedValue(CompactTime(f)[15..20]) == f.timezone
    ensures f.timezone < 0 ==> CompactTime(f)[15] == '-'
    ensures f.timezone >= 0 ==> AllDigits(CompactTime(f)[15..20])
  {
    assert Pow10(2) == 100;
    assert Pow10(4) == 10000;
    ZeroPadRoundTrip(f.year, 4);
    ZeroPadRoundTrip(f.month, 2);
    ZeroPadRoundTrip(f.day, 2);
    ZeroPadRoundTrip(f.hour, 2);
    ZeroPadRoundTrip(f.minute, 2);
    ZeroPadRoundTrip(f.second, 2);
    PadSignedRoundTrip(f.timezone, 5);
    CompactSlices(ZeroPad(f.year, 4), ZeroPad(f.month, 2), ZeroPad(f.day, 2),
                  ZeroPad(f.hour, 2), ZeroPad(f.minute, 2), ZeroPad(f.second, 2), PadSigned(f.timezone, 5));
  }

  /**
   * The fallback of `rss_got_feed`: fixed units of 60 s, 3600 s, one day,
   * a 30-day month and a 365-day year since 1970, with no leap years and no
   * time zone. The fields are `guint`, so the sum is taken modulo 2^32.
   */
  function FallbackTime(f: DateFields): (t: int)
    ensures 0 <= t < 0x1_0000_0000
  {
    (f.second + 60 * f.minute + 3600 * f.hour + 86400 * f.day
     + 2592000 * f.month + 31536000 * (f.year - 1970)) % 0x1_0000_0000
  }

  /**
   * For the dates an RSS feed carries (years 1970 to 2105, two-digit fields)
   * the 32-bit sum does not wrap, and the fallback is the plain fixed-unit
   * count of seconds since 1970.
   */
  lemma FallbackNoWrap(f: DateFields)
    requires 1970 <= f.year <= 2105 && f.month < 12
    requires f.day < 100 && f.hour < 100 && f.minute < 100 && f.second < 100
    ensures FallbackTime(f) == f.second + 60 * f.minute + 3600 * f.hour + 86400 * f.day
                               + 2592000 * f.month + 31536000 * (f.year - 1970)
  {
    var sum := f.second + 60 * f.minute + 3600 * f.hour + 86400 * f.day
               + 2592000 * f.month + 31536000 * (f.year - 1970);
    assert 0 <= sum < 0x1_0000_0000;
  }

  /** The fallback ignores the time zone. */
  lemma FallbackIgnoresZone(f: DateFields, zone: int)
    ensures FallbackTime(f.(timezone := zone)) == FallbackTime(f)
  {
  }

  /**
   * Before 1970 `year - 1970` wraps: the untouched initial fields (all zero)
   * give a time in 2042 rather than a negative one.
   */
  lemma FallbackOfZeroFields(u: Uninitialised)
    ensures FallbackTime(InitialFields(u)) == 2298589440
  {
  }

  /**
   * The time of an item: the host's conversion of the compact string when
   * that is positive, otherwise the fallback. Never negative.
   */
  function ItemTime(f: DateFields, toTime: string -> int): (t: int)
    ensures t >= 0
  {
    var converted := toTime(CompactTime(f));
    if converted <= 0 then FallbackTime(f) else converted
  }

  /**
   * A positive conversion is taken as it is; when the conversion gives no
   * positive time the item's time is the 32-bit fallback, and then a
   * different time zone changes nothing, as long as the conversion of the
   * other zone's string fails as well.
   */
  lemma ItemTimeFallback(f: DateFields, zone: int, toTime: string -> int)
    ensures toTime(CompactTime(f)) > 0 ==> ItemTime(f, toTime) == toTime(CompactTime(f))
    ensures toTime(CompactTime(f)) <= 0 ==> ItemTime(f, toTime) == FallbackTime(f) < 0x1_0000_0000
    ensures toTime(CompactTime(f)) <= 0 && toTime(CompactTime(f.(timezone := zone))) <= 0 ==>
              ItemTime(f.(timezone := zone), toTime) == ItemTime(f, toTime)
  {
  }
}
