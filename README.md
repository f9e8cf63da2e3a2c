# pidgin-rss feed callback, modelled in Dafny

This project models the feed-processing core of the pidgin-rss protocol
plugin (`librss.c`). The core has two parts:

- `rss_get_feeds` is the 60-second timer tick. It fetches the account's
  user name, which is the feed URL, only when that name is non-empty, and
  it always keeps the timer running.
- `rss_got_feed` is the fetch callback. It takes the decoded RSS document
  and walks the `<item>` children of `<channel>` in document order. For
  each item it scans the `pubDate` text with
  `"%3s, %2u %3s %4u %2u:%2u:%2u %5ld"` into date locals that carry over
  from item to item, and maps the month abbreviation to a 0-based index.
  It turns the fields into a time through the host's conversion of a
  compact `%04u%02u%02uT%02u%02u%02u%05ld` string, or through a fixed-unit
  fallback when that conversion gives no positive time. It mails every
  item newer than the stored `last_fetch` watermark and stops at the first
  dated item that is not newer. Finally it stores the newest time it saw,
  but only when that time is above the old watermark.

The modules follow that structure:

- `Wrappers`: `Option`.
- `Decimal`: digit strings and numbers in both directions. This covers
  what `%u` reads and what `%0<w>u` and `%0<w>ld` write.
- `Scanf`: the `%<w>s`, `%<w>u` and `%<w>ld` conversions, with white-space
  skipping, widths that count the sign, and `%u`'s modulo-2^32 wrap of a
  minus sign.
- `PubDate`: the date locals, the month chain, the scan of a `pubDate`,
  the compact string, the 32-bit fallback and the item time.
- `Feed`: the item loop as a pure function `Filter`, and a loop-free
  description of the same outcome (`Timeline`, `StopIndex`, `Dated`,
  `MaxTime`). The two are proved equal. `Deliver` is one whole call.
- `Librss`: the account object `RssAccount`. It holds the `last_fetch`
  setting, the notifications sent and the URLs fetched. `GotFeed` and its
  item loop `NotifyItems` are proved against `Deliver`, and `GetFeeds` is
  the URL guard.

Four behaviours of the code are easy to miss:

- A date field that fails to scan keeps the value from the previous dated
  item, because the locals are set once, before the loop (librss.c:45-46).
  It is not reset to zero.
- The mailed items are the dated items before the first stop. Undated
  items are passed over without stopping the loop, so the result is not a
  plain prefix of the item list.
- A date that does not scan does not by itself select the fallback. The
  fields keep earlier values, and the compact string built from them goes
  to the host's conversion as usual. The common RSS form with a zone name
  (`Sat, 07 Sep 2002 00:00:01 GMT`) is one such date: `%5ld` fails on
  `GMT`, so `timezone` keeps an earlier value, on the first item the
  uninitialised one. A time without seconds also keeps the seconds.
- The compact string writes a negative zone with `-` but a positive one
  with no sign at all (`%05ld` of 1100 is `01100`), so the host's
  conversion does not see it as a `+hhmm` offset.

## Model

| member | source | states |
|---|---|---|
| PubDate.InitialFields | librss.c:39-46 | the numeric date locals start at zero; the month text and the time zone start indeterminate, and are taken from a parameter |
| PubDate.MonthIndex | librss.c:85-96 | for every i < 12, the result is i exactly when the text is the i-th of "Jan".."Dec"; no index exactly when the text is none of them |
| PubDate.LookupMonth | librss.c:85-96 | an abbreviation gives its own index below 12; any other text leaves the previous month unchanged |
| PubDate.ReadDate | librss.c:84-96 | one item's date as the loop reads it: every field but the month index is what the scan leaves, and the month index is the scanned text looked up over the index carried in from the item before; ReadDateMonth and BlankDateKeepsFields state what that means for the next item |
| PubDate.ReadDateMonth | librss.c:84-96 | after one item's scan and lookup, the month index names the month text when that text is an abbreviation; otherwise it is the month carried in from before |
| Scanf.ScanWord | librss.c:84 | `%<w>s` matches exactly when something other than white space is left; it reads 1 to w non-space characters, the longest such run (it stops only at the width, the end of the input or white space), and the skipped input is word followed by rest |
| Scanf.ScanUnsigned | librss.c:84 | `%<w>u` matches exactly when the signed scan does, leaves the same rest, and stores the signed value taken modulo 2^32 |
| Scanf.NegativeUnsignedScan | librss.c:84 | `%<w>u` on a minus sign and digits stores 2^32 minus the number, so `-5` is stored as 4294967291 |
| Scanf.UnsignedDigitsScan | librss.c:84 | a run of digits that fills the width, or ends at a non-digit, is read by `%<w>u` as the number it spells, and the rest is left |
| Scanf.SignedDigitsScan | librss.c:84 | a sign followed by digits that fill the rest of the width is read by `%<w>ld` as that signed number |
| Scanf.WordScan | librss.c:84 | a non-space word of exactly the width is read whole by `%<w>s` |
| PubDate.ScanPubDate | librss.c:84 | the scan never touches the month index, and a blank date text changes no field |
| PubDate.ScanPubDateRoundTrip | librss.c:83-84 | scanning a well-formed date such as `Thu, 19 Jun 2008 15:51:25 -1100`, with a day of one or two digits, leading zero or not, overwrites day, month text, year, hour and minute with the values written in it, whatever the fields held before; the seconds only when the date has them, and the zone only when it is a numeric offset after the seconds, so a zone name such as `GMT` or a time without seconds leaves the rest as earlier items left them |
| PubDate.FirstZoneUninitialised | librss.c:41-84 | on the first item, a date with a zone name or without seconds leaves `timezone` at its uninitialised value |
| PubDate.MissingWeekdayScansNothing | librss.c:84 | a date without the day of the week (allowed by RFC 2822 section 3.3), whatever its day of one or two digits, scans no field at all, so all fields stay as they were |
| PubDate.LeadingSpaceIgnored | librss.c:83-84 | white space in front of the date text, as the XML may leave it, makes no difference to what is scanned |
| PubDate.NamedZoneExample | librss.c:84 | the RSS 2.0 example `Sat, 07 Sep 2002 00:00:01 GMT` reads day 7 (leading zero), `Sep`, 2002, 0, 0 and 1, and leaves the time zone as it was |
| PubDate.BlankDateKeepsFields | librss.c:45-96 | an item whose date is blank keeps exactly the date fields of the dated item before it |
| Decimal.ZeroPadRoundTrip | librss.c:100 | `%0<w>u` of a number below 10^w writes exactly w digits that read back as the number |
| Decimal.PadSignedRoundTrip | librss.c:100 | `%0<w>ld` of a number whose magnitude is below 10^(w-1) writes exactly w characters that read back as the number |
| PubDate.CompactTime | librss.c:100 | the minimum widths make the compact string at least 20 characters long; CompactTimeLayout states where each field sits and how it reads back |
| PubDate.CompactTimeLayout | librss.c:100 | for in-range fields the compact string is 20 characters long; each fixed slice is digits that read back as its field, with the 0-based month at positions 4-5, `T` at 8, and the zone at 15-19, starting with `-` when negative and all digits, with no `+`, otherwise |
| PubDate.FallbackTime | librss.c:104-109 | the fallback is a `guint` sum, so it always lies in [0, 2^32) |
| PubDate.FallbackNoWrap | librss.c:108 | for years 1970-2105 and two-digit fields the 32-bit sum does not wrap: it is the plain count with 30-day months and 365-day years |
| PubDate.FallbackIgnoresZone | librss.c:108 | the fallback does not depend on the time zone |
| PubDate.FallbackOfZeroFields | librss.c:104-109 | with the date fields still at their initial zeros, `year - 1970` wraps and the fallback is 2298589440 |
| PubDate.ItemTime | librss.c:99-109 | an item's time is never negative |
| PubDate.ItemTimeFallback | librss.c:101-109 | a positive conversion is used as it is; otherwise the time is the fallback, below 2^32; and then the time zone makes no difference when its conversion fails too |
| Feed.Mails | librss.c:124-142 | one notification per mailed item |
| Feed.MailsContents | librss.c:124-142 | the k-th notification carries the k-th item's title and link (each empty when missing), is sent from the channel title and is addressed to the account |
| Feed.Filter | librss.c:77-122 | the loop never lowers `newest_message` and mails at most as many items as there are |
| Feed.FilterAt | librss.c:79-122 | one turn of the loop: an undated item is skipped; a dated item's time raises `newest`, then the loop either stops or mails the item and goes on with the new fields |
| Feed.TimelineShape | librss.c:79-109 | exactly the dated items get a time, and no time is negative |
| Feed.StopIndex | librss.c:117-122 | the stop is the first dated item not above the watermark; every dated item before it is above the watermark |
| Feed.MaxTime | librss.c:111-115 | the newest time is at least the start value and every time seen, and it is either the start value or one of those times |
| Feed.FilterMatchesTimeline | librss.c:77-145 | the loop mails exactly the dated items before the first dated item at or below the watermark, in document order; its newest time is the largest time among the items looked at, the stopping one included |
| Feed.ShortCircuitExample | librss.c:117-122 | for any five items whose times are 50, 40, 30, 45, 20, the loop against watermark 35 mails exactly the first two, stops at 30 without mailing the newer 45, and ends with newest time 50 |
| Feed.UndatedItemsIgnored | librss.c:79-81 | items without `pubDate` change nothing: the loop gives the same result on the feed with them removed |
| Feed.BlankDateRepeatsTime | librss.c:79-109 | a dated item with a blank date gets exactly the time of the nearest dated item before it, however many undated items lie between them |
| Feed.FilterFirstItem | librss.c:111-122 | the newest time is at least the first dated item's time; when that item is not above the watermark nothing is mailed |
| Feed.Deliver | librss.c:48-153 | a missing body, a non-XML body or a document without a channel sends nothing and stores nothing; a stored watermark is always above the old one |
| Feed.DeliverMatchesTimeline | librss.c:69-153 | one call sends the mails of the dated items before the stop, from the channel title (empty when missing); it stores the largest time looked at, counting from 0, exactly when that time is above the stored watermark |
| Feed.DeliverIdempotent | librss.c:111-153 | a second call on the same document, with the watermark the first call left and the same initial values of the uninitialised locals, sends nothing and stores nothing |
| Librss.RssAccount.LastFetchTime | librss.c:51 | the stored watermark, or 0 when it was never written |
| Librss.RssAccount.GotFeed | librss.c:30-154 | the notifications sent and the `last_fetch` setting are exactly those `Deliver` describes; the setting is written only with a larger value, and nothing is fetched |
| Librss.RssAccount.NotifyItems | librss.c:72-145 | the loop over the items, with date locals carried from item to item, sends the mails of the items `Filter` lets through, in order, and returns its newest time |
| Librss.RssAccount.GetFeeds | librss.c:156-172 | the account's URL is fetched exactly when it is non-empty, and the timer is always kept |

## Left out

- XML decoding and UTF-8 salvage (`purple_utf8_salvage`, `xmlnode_*`, librss.c:53-79) are library calls. The model starts from the decoded `Document`, which is `NoBody`, `NoRoot`, `NoChannel`, or a channel with its optional title and its items.
- A NULL body and a zero-length body are both `NoBody`.
- Text of an element that has no data is modelled as the empty string. In C, `xmlnode_get_data_unescaped` returns NULL for such an element, and `sscanf` on a NULL `pubDate` is undefined.
- `purple_str_to_time` is the parameter `toTime`, a calendar- and zone-aware conversion not part of this model. Only its "positive or not" outcome steers the model.
- The indeterminate initial bytes of `month_string` and the uninitialised `timezone` are the parameter `Uninitialised`.
- `time_t` is an unbounded integer. The model does not capture the truncation of `newest_message` to `int` when `purple_account_set_int` stores it.
- Feed.DeliverIdempotent: holds only when both calls start from the same `Uninitialised` values. In C, `timezone` and `month_string` are indeterminate on every call, so a feed whose first dated item has a zone name can get a different time, and be mailed again, on the next poll. It also relies on the unbounded watermark above: a stored time of 2^31 or more, such as the 2298589440 of `FallbackOfZeroFields`, comes back negative from `purple_account_get_int`, and then the C plugin mails every item again on each poll.
- Scanf.ScanWord: counts characters, not bytes. C's `%3s` counts bytes of the UTF-8 text, so for a month such as `Mär` it reads `M` and the two bytes of `ä`, and `%4u` then fails on `r`, leaving the year and all later fields as they were. The model reads `Mär` whole and goes on to scan the year. Dates with only ASCII characters, which is what the `pubDate` format prescribes, behave the same in both.
- `sscanf` is modelled for the "C" locale only. With widths of at most 5, `strtoul` cannot overflow.
- The weekday that `%3s` reads is dropped, as the code never uses it.
- The network fetch (`purple_util_fetch_url`) is recorded as a URL in `fetches`, and its asynchronous callback is a separate call of `GotFeed`. Overlapping fetches are not modelled.
- `purple_notify_email` is modelled as an appended `Notification` record. The debug log calls are dropped.
- The timer, `rss_start`/`rss_stop`, the status types, the list icon, the account text table and the plugin registration (librss.c:174-369) are host glue without logic.
- A NULL user name and an empty one are both the empty string; both skip the fetch.
- Librss.RssAccount.GotFeed: the item loop is a separate method, `NotifyItems`, so that each proof stays small. The source runs it inline in `rss_got_feed`.
- Librss.RssAccount.NotifyItems: reading one item's date and time calls the functions `ReadDate` and `ItemTime` rather than inlining the `sscanf`, lookup and conversion statements.
