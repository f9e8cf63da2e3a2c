/**
 * What one call of `rss_got_feed` does with a decoded feed, as pure
 * functions: which items it mails, in which order, and which watermark
 * (`last_fetch`) it stores. `Filter` follows the item loop step by step;
 * `Timeline`, `StopIndex`, `Dated` and `MaxTime` describe the same outcome
 * without the loop, and `FilterMatchesTimeline` proves that both agree.
 */
module Feed {
  import opened Wrappers
  import opened PubDate

  /** An `<item>` of the channel: its `pubDate`, `link` and `title` children, each of which may be missing. */
  datatype Item = Item(pubDate: Option<string>, link: Option<string>, title: Option<string>)

  /**
   * The fetched body as the XML layer hands it over: no body at all (null
   * or zero length), text that is no XML document, a document without
   * `<channel>`, or a channel with its optional `<title>` and its `<item>`
   * children in document order.
   */
  datatype Document = NoBody | NoRoot | NoChannel | Channel(title: Option<string>, items: seq<Item>)

  /** One `purple_notify_email` call: subject, sender, recipient and URL. */
  datatype Notification = Notification(subject: string, from: string, to: string, url: string)

  /** The mail for one item: a missing title or link is sent as the empty string. */
  function Mail(item: Item, channelTitle: string, to: string): Notification
  {
    Notification(item.title.GetOr(""), channelTitle, to, item.link.GetOr(""))
  }

  /** One mail per item, in the items' order, each sent as from the channel and to the account. */
  function Mails(items: seq<Item>, channelTitle: string, to: string): (ns: seq<Notification>)
    ensures |ns| == |items|
  {
    if items == [] then []
    else Mails(items[..|items| - 1], channelTitle, to) + [Mail(items[|items| - 1], channelTitle, to)]
  }

  /**
   * The k-th mail is the k-th item's: its title as subject (empty when
   * missing), its link as URL (empty when missing), from the channel title
   * to the account.
   */
  lemma {:induction false} MailsContents(items: seq<Item>, channelTitle: string, to: string)
    ensures var ns := Mails(items, channelTitle, to);
            forall k | 0 <= k < |items| ::
              ns[k].subject == items[k].title.GetOr("") && ns[k].url == items[k].link.GetOr("") &&
              ns[k].from == channelTitle && ns[k].to == to
  {
    if items != [] {
      var init := items[..|items| - 1];
      MailsContents(init, channelTitle, to);
      var ns := Mails(items, channelTitle, to);
      assert ns == Mails(init, channelTitle, to) + [Mail(items[|items| - 1], channelTitle, to)];
      forall k | 0 <= k < |items|
        ensures ns[k].subject == items[k].title.GetOr("") && ns[k].url == items[k].link.GetOr("") &&
                ns[k].from == channelTitle && ns[k].to == to
      {
        if k < |items| - 1 {
          assert ns[k] == Mails(init, channelTitle, to)[k];
          assert items[k] == init[k];
        }
      }
    }
  }

  /** Mailing one more item appends its mail. */
  lemma MailsAppend(items: seq<Item>, item: Item, channelTitle: string, to: string)
    ensures Mails(items + [item], channelTitle, to) == Mails(items, channelTitle, to) + [Mail(item, channelTitle, to)]
  {
    assert (items + [item])[..|items|] == items;
  }

  // ---------------------------------------------------------------------------
  // The item loop
  // ---------------------------------------------------------------------------

  /** The items a pass mails and the newest time it saw. */
  datatype Pass = Pass(emitted: seq<Item>, newest: int)

  /**
   * The item loop of `rss_got_feed` from some point on, given the date
   * fields and `newest_message` carried in from the items before it. An item
   * without `pubDate` is passed over untouched. A dated item updates the date
   * fields and its time may raise `newest`; if that time is not above the
   * watermark `last` the loop ends there, otherwise the item is mailed.
   */
  function Filter(items: seq<Item>, f: DateFields, newest: int, last: int, toTime: string -> int): (r: Pass)
    ensures r.newest >= newest
    ensures |r.emitted| <= |items|
    decreases |items|
  {
    if items == [] then Pass([], newest)
    else
      match items[0].pubDate
      case None => Filter(items[1..], f, newest, last, toTime)
      case Some(text) =>
        var g := ReadDate(text, f);
        var t := ItemTime(g, toTime);
        var n := if t > newest then t else newest;
        if t <= last then Pass([], n)
        else
          var r := Filter(items[1..], g, n, last, toTime);
          Pass([items[0]] + r.emitted, r.newest)
  }

  /**
   * One turn of the loop at position `i`: an undated item is skipped; a
   * dated item's time raises `newest`, and the loop either stops there or
   * mails the item and goes on with the new fields.
   */
  lemma FilterAt(items: seq<Item>, i: nat, f: DateFields, n: int, last: int, toTime: string -> int)
    requires i < |items|
    ensures items[i].pubDate.None? ==>
              Filter(items[i..], f, n, last, toTime) == Filter(items[i + 1..], f, n, last, toTime)
    ensures items[i].pubDate.Some? ==>
              var g := ReadDate(items[i].pubDate.value, f);
              var t := ItemTime(g, toTime);
              var m := if t > n then t else n;
              var r := Filter(items[i + 1..], g, m, last, toTime);
              Filter(items[i..], f, n, last, toTime) == (if t <= last then Pass([], m) else Pass([items[i]] + r.emitted, r.newest))
  {
    var suffix := items[i..];
    assert suffix[0] == items[i] && suffix[1..] == items[i + 1..];
  }

  // ---------------------------------------------------------------------------
  // The same outcome without the loop
  // ---------------------------------------------------------------------------

  /**
   * The time of every item, `None` for an item without `pubDate`. Each dated
   * item's fields start from those of the dated item before it.
   */
  function Timeline(items: seq<Item>, f: DateFields, toTime: string -> int): (ts: seq<Option<int>>)
    ensures |ts| == |items|
  {
    if items == [] then []
    else
      match items[0].pubDate
      case None => [None] + Timeline(items[1..], f, toTime)
      case Some(text) =>
        var g := ReadDate(text, f);
        [Some(ItemTime(g, toTime))] + Timeline(items[1..], g, toTime)
  }

  /** Exactly the dated items have a time, and no time is negative. */
  lemma {:induction false} TimelineShape(items: seq<Item>, f: DateFields, toTime: string -> int)
    ensures var ts := Timeline(items, f, toTime);
            forall j | 0 <= j < |items| :: (ts[j].Some? <==> items[j].pubDate.Some?) && (ts[j].Some? ==> ts[j].value >= 0)
  {
    if items != [] {
      var g := if items[0].pubDate.Some? then ReadDate(items[0].pubDate.value, f) else f;
      var ts := Timeline(items, f, toTime);
      var ts' := Timeline(items[1..], g, toTime);
      TimelineShape(items[1..], g, toTime);
      assert ts[1..] == ts';
      forall j | 0 <= j < |items|
        ensures (ts[j].Some? <==> items[j].pubDate.Some?) && (ts[j].Some? ==> ts[j].value >= 0)
      {
        if j > 0 {
          assert ts[j] == ts'[j - 1] && items[j] == items[1..][j - 1];
        }
      }
    }
  }

  /** The position of the first dated item whose time is not above `last`, or the length when there is none. */
  function StopIndex(ts: seq<Option<int>>, last: int): (k: nat)
    ensures k <= |ts|
    ensures forall j | 0 <= j < k :: ts[j].Some? ==> ts[j].value > last
    ensures k < |ts| ==> ts[k].Some? && ts[k].value <= last
  {
    if ts == [] then 0
    else if ts[0].Some? && ts[0].value <= last then 0
    else 1 + StopIndex(ts[1..], last)
  }

  /** How many items are looked at: those before the stop and the item that stops the loop. */
  function Inspected(ts: seq<Option<int>>, last: int): (k: nat)
    ensures k <= |ts|
  {
    var k := StopIndex(ts, last);
    if k < |ts| then k + 1 else k
  }

  /** The items that have a time, in order. */
  function Dated(items: seq<Item>, ts: seq<Option<int>>): (ds: seq<Item>)
    requires |items| == |ts|
    ensures |ds| <= |items|
    ensures forall x | x in ds :: x in items
  {
    if items == [] then []
    else (if ts[0].Some? then [items[0]] else []) + Dated(items[1..], ts[1..])
  }

  /** The largest of `n` and the times in `ts`. */
  function MaxTime(ts: seq<Option<int>>, n: int): (m: int)
    ensures m >= n
    ensures forall j | 0 <= j < |ts| :: ts[j].Some? ==> m >= ts[j].value
    ensures m == n || Some(m) in ts
  {
    if ts == [] then n
    else MaxTime(ts[1..], if ts[0].Some? && ts[0].value > n then ts[0].value else n)
  }

  /** The conclusion of `FilterMatchesTimeline` for one feed suffix. */
  ghost predicate MatchesTimeline(items: seq<Item>, f: DateFields, n: int, last: int, toTime: string -> int)
  {
    var ts := Timeline(items, f, toTime);
    var k := StopIndex(ts, last);
    Filter(items, f, n, last, toTime) == Pass(Dated(items[..k], ts[..k]), MaxTime(ts[..Inspected(ts, last)], n))
  }

  /**
   * The loop mails exactly the dated items before the first dated item at
   * or below the watermark, in document order, and its `newest` is the
   * largest of the starting value and the times of all the items it looked
   * at, the stopping one included. Items after the stop are never looked at,
   * even when they are newer than the watermark.
   */
  lemma {:induction false} FilterMatchesTimeline(
    items: seq<Item>, f: DateFields, n: int, last: int, toTime: string -> int)
    ensures var ts := Timeline(items, f, toTime);
            var k := StopIndex(ts, last);
            Filter(items, f, n, last, toTime) == Pass(Dated(items[..k], ts[..k]), MaxTime(ts[..Inspected(ts, last)], n))
  {
    if items == [] {
    } else if items[0].pubDate.None? {
      FilterMatchesTimeline(items[1..], f, n, last, toTime);
      UndatedStep(items, f, n, last, toTime);
    } else {
      var g := ReadDate(items[0].pubDate.value, f);
      var t := ItemTime(g, toTime);
      if t <= last {
        StopStep(items, f, n, last, toTime);
      } else {
        FilterMatchesTimeline(items[1..], g, if t > n then t else n, last, toTime);
        MailStep(items, f, n, last, toTime);
      }
    }
  }

  /**
   * Times 50, 40, 30, 45, 20 against the watermark 35: the loop mails the
   * first two items, stops at 30, never looks at the newer 45 behind it, and
   * its newest time is 50.
   */
  lemma ShortCircuitExample(items: seq<Item>, f: DateFields, toTime: string -> int)
    requires Timeline(items, f, toTime) == [Some(50), Some(40), Some(30), Some(45), Some(20)]
    ensures Filter(items, f, 0, 35, toTime) == Pass(items[..2], 50)
  {
    FilterMatchesTimeline(items, f, 0, 35, toTime);
    ShortCircuitTimes(items, Timeline(items, f, toTime));
  }

  /** The loop-free description of the example above. */
  lemma ShortCircuitTimes(items: seq<Item>, ts: seq<Option<int>>)
    requires |items| == 5 && ts == [Some(50), Some(40), Some(30), Some(45), Some(20)]
    ensures StopIndex(ts, 35) == 2 && Inspected(ts, 35) == 3
    ensures Dated(items[..2], ts[..2]) == items[..2] && MaxTime(ts[..3], 0) == 50
  {
    assert ts[1..] == [Some(40), Some(30), Some(45), Some(20)];
    assert ts[1..][1..] == [Some(30), Some(45), Some(20)];
    assert StopIndex(ts[1..][1..], 35) == 0 && StopIndex(ts[1..], 35) == 1;
    var its := items[..2];
    assert ts[..2] == [Some(50), Some(40)] && ts[..2][1..] == [Some(40)] && |ts[..2][1..][1..]| == 0;
    assert its[1..] == [items[1]] && |its[1..][1..]| == 0;
    assert Dated(its[1..], ts[..2][1..]) == [items[1]];
    assert ts[..3] == [Some(50), Some(40), Some(30)];
    assert ts[..3][1..] == [Some(40), Some(30)] && ts[..3][1..][1..] == [Some(30)] && |ts[..3][1..][1..][1..]| == 0;
  }

  /** The date fields a dated item leaves for the items after it; an undated item leaves them as they were. */
  function FieldsAfter(item: Item, f: DateFields): DateFields
  {
    match item.pubDate
    case None => f
    case Some(text) => ReadDate(text, f)
  }

  lemma TimelineHead(items: seq<Item>, f: DateFields, toTime: string -> int)
    requires items != []
    ensures var ts := Timeline(items, f, toTime);
            ts[0] == (if items[0].pubDate.Some? then Some(ItemTime(FieldsAfter(items[0], f), toTime)) else None) &&
            ts[1..] == Timeline(items[1..], FieldsAfter(items[0], f), toTime)
  {
    var ts := Timeline(items, f, toTime);
    var ts' := Timeline(items[1..], FieldsAfter(items[0], f), toTime);
    if items[0].pubDate.Some? {
      assert ts == [Some(ItemTime(FieldsAfter(items[0], f), toTime))] + ts';
    } else {
      assert ts == [None] + ts';
    }
  }

  lemma StopHead(ts: seq<Option<int>>, last: int)
    requires ts != [] && !(ts[0].Some? && ts[0].value <= last)
    ensures StopIndex(ts, last) == 1 + StopIndex(ts[1..], last)
    ensures Inspected(ts, last) == 1 + Inspected(ts[1..], last)
  {
  }

  lemma DatedHead(items: seq<Item>, ts: seq<Option<int>>, k: nat)
    requires |items| == |ts| && k < |items|
    ensures Dated(items[..k + 1], ts[..k + 1])
            == (if ts[0].Some? then [items[0]] else []) + Dated(items[1..][..k], ts[1..][..k])
  {
    var its := items[..k + 1];
    var pts := ts[..k + 1];
    assert its[0] == items[0] && its[1..] == items[1..][..k];
    assert pts[0] == ts[0] && pts[1..] == ts[1..][..k];
  }

  lemma MaxTimeHead(ts: seq<Option<int>>, i: nat, n: int)
    requires 0 < i <= |ts|
    ensures MaxTime(ts[..i], n)
            == MaxTime(ts[1..][..i - 1], if ts[0].Some? && ts[0].value > n then ts[0].value else n)
  {
    var qts := ts[..i];
    assert qts[0] == ts[0] && qts[1..] == ts[1..][..i - 1];
  }

  /** The items mailed from a feed, given those mailed from the feed after its first item. */
  lemma DatedCons(items: seq<Item>, ts: seq<Option<int>>, last: int, e: seq<Item>)
    requires |items| == |ts| && items != []
    requires !(ts[0].Some? && ts[0].value <= last)
    requires var k' := StopIndex(ts[1..], last);
             e == Dated(items[1..][..k'], ts[1..][..k'])
    ensures var k := StopIndex(ts, last);
            (if ts[0].Some? then [items[0]] else []) + e == Dated(items[..k], ts[..k])
  {
    StopHead(ts, last);
    DatedHead(items, ts, StopIndex(ts[1..], last));
  }

  /** The newest time seen in a feed, given the newest time seen in the feed after its first item. */
  lemma MaxTimeCons(ts: seq<Option<int>>, last: int, n: int, m: int, newest: int)
    requires ts != []
    requires !(ts[0].Some? && ts[0].value <= last)
    requires m == (if ts[0].Some? && ts[0].value > n then ts[0].value else n)
    requires newest == MaxTime(ts[1..][..Inspected(ts[1..], last)], m)
    ensures newest == MaxTime(ts[..Inspected(ts, last)], n)
  {
    StopHead(ts, last);
    MaxTimeHead(ts, Inspected(ts[1..], last) + 1, n);
  }

  lemma UndatedStep(items: seq<Item>, f: DateFields, n: int, last: int, toTime: string -> int)
    requires items != [] && items[0].pubDate.None?
    requires MatchesTimeline(items[1..], f, n, last, toTime)
    ensures MatchesTimeline(items, f, n, last, toTime)
  {
    var ts := Timeline(items, f, toTime);
    TimelineHead(items, f, toTime);
    var r := Filter(items[1..], f, n, last, toTime);
    assert Filter(items, f, n, last, toTime) == r;
    DatedCons(items, ts, last, r.emitted);
    MaxTimeCons(ts, last, n, n, r.newest);
  }

  /** What the timeline description says about a feed whose first item stops the loop. */
  lemma TimelineStop(items: seq<Item>, ts: seq<Option<int>>, last: int, n: int)
    requires |items| == |ts| && items != []
    requires ts[0].Some? && ts[0].value <= last
    ensures StopIndex(ts, last) == 0 && Inspected(ts, last) == 1
    ensures Dated(items[..0], ts[..0]) == []
    ensures MaxTime(ts[..1], n) == (if ts[0].value > n then ts[0].value else n)
  {
    assert ts[..1] == [ts[0]];
    assert ts[..1][1..] == [];
  }

  lemma StopStep(items: seq<Item>, f: DateFields, n: int, last: int, toTime: string -> int)
    requires items != [] && items[0].pubDate.Some?
    requires ItemTime(ReadDate(items[0].pubDate.value, f), toTime) <= last
    ensures MatchesTimeline(items, f, n, last, toTime)
  {
    var t := ItemTime(ReadDate(items[0].pubDate.value, f), toTime);
    var ts := Timeline(items, f, toTime);
    TimelineHead(items, f, toTime);
    assert Filter(items, f, n, last, toTime) == Pass([], if t > n then t else n);
    TimelineStop(items, ts, last, n);
  }

  lemma MailStep(items: seq<Item>, f: DateFields, n: int, last: int, toTime: string -> int)
    requires items != [] && items[0].pubDate.Some?
    requires var t := ItemTime(ReadDate(items[0].pubDate.value, f), toTime);
             t > last &&
             MatchesTimeline(items[1..], ReadDate(items[0].pubDate.value, f), if t > n then t else n, last, toTime)
    ensures MatchesTimeline(items, f, n, last, toTime)
  {
    var g := ReadDate(items[0].pubDate.value, f);
    var t := ItemTime(g, toTime);
    var m := if t > n then t else n;
    var ts := Timeline(items, f, toTime);
    TimelineHead(items, f, toTime);
    var r := Filter(items[1..], g, m, last, toTime);
    assert Filter(items, f, n, last, toTime) == Pass([items[0]] + r.emitted, r.newest);
    DatedCons(items, ts, last, r.emitted);
    MaxTimeCons(ts, last, n, m, r.newest);
  }

  /** The items that have a `pubDate`, in order. */
  function WithDate(items: seq<Item>): (ds: seq<Item>)
    ensures |ds| <= |items|
    ensures forall j | 0 <= j < |ds| :: ds[j].pubDate.Some?
  {
    if items == [] then []
    else (if items[0].pubDate.Some? then [items[0]] else []) + WithDate(items[1..])
  }

  /**
   * Items without `pubDate` play no part at all: the loop mails the same
   * items and sees the same newest time as on the feed without them. They
   * neither reset the date fields nor stop the loop.
   */
  lemma {:induction false} UndatedItemsIgnored(
    items: seq<Item>, f: DateFields, n: int, last: int, toTime: string -> int)
    ensures Filter(items, f, n, last, toTime) == Filter(WithDate(items), f, n, last, toTime)
  {
    if items != [] {
      var rest := WithDate(items[1..]);
      var w := WithDate(items);
      if items[0].pubDate.None? {
        assert w == rest;
        UndatedItemsIgnored(items[1..], f, n, last, toTime);
      } else {
        assert w == [items[0]] + rest;
        assert w != [] && w[0] == items[0] && w[1..] == rest;
        var g := ReadDate(items[0].pubDate.value, f);
        var t := ItemTime(g, toTime);
        var m := if t > n then t else n;
        if t > last {
          UndatedItemsIgnored(items[1..], g, m, last, toTime);
          var r := Filter(items[1..], g, m, last, toTime);
          assert Filter(items, f, n, last, toTime) == Pass([items[0]] + r.emitted, r.newest);
          assert Filter(w, f, n, last, toTime) == Pass([items[0]] + r.emitted, r.newest);
        } else {
          assert Filter(items, f, n, last, toTime) == Pass([], m);
          assert Filter(w, f, n, last, toTime) == Pass([], m);
        }
      }
    }
  }

  /**
   * A dated item whose `pubDate` is blank scans no field, so it is given
   * exactly the time of the nearest dated item before it, however many
   * undated items lie between them; after a mailed item it is therefore
   * mailed as well.
   */
  lemma {:induction false} BlankDateRepeatsTime(
    items: seq<Item>, f: DateFields, toTime: string -> int, j: nat, k: nat)
    requires j < k < |items|
    requires items[j].pubDate.Some? && items[k].pubDate.Some?
    requires forall i | j < i < k :: items[i].pubDate.None?
    requires Scanf.SkipSpace(items[k].pubDate.value) == []
    ensures Timeline(items, f, toTime)[k] == Timeline(items, f, toTime)[j]
  {
    BlankAfterGap(items, f, toTime, j, k);
  }

  /**
   * Item `k` is dated with a blank date, every item after `j` and before `k`
   * is undated, and item `j` is dated when `j` is a position at all (`-1`
   * stands for the start of the feed).
   */
  ghost predicate BlankAfter(items: seq<Item>, j: int, k: nat)
  {
    -1 <= j < k < |items| && (j >= 0 ==> items[j].pubDate.Some?) &&
    (forall i | 0 <= i < |items| && j < i < k :: items[i].pubDate.None?) &&
    items[k].pubDate.Some? && Scanf.SkipSpace(items[k].pubDate.value) == []
  }

  /** Dropping the first item shifts both positions down by one ... */
  lemma ShiftBlankAfter(items: seq<Item>, j: nat, k: nat)
    requires BlankAfter(items, j, k) && j >= 1
    ensures BlankAfter(items[1..], j - 1, k - 1)
  {
    assert forall i | 0 <= i < |items[1..]| :: items[1..][i] == items[i + 1];
  }

  /** ... and the first item, dated or not, is then no longer needed. */
  lemma DropBlankAfter(items: seq<Item>, j: int, k: nat)
    requires BlankAfter(items, j, k) && j <= 0 && k >= 1
    ensures BlankAfter(items[1..], -1, k - 1)
  {
    assert forall i | 0 <= i < |items[1..]| :: items[1..][i] == items[i + 1];
  }

  lemma {:induction false} BlankAfterGap(items: seq<Item>, f: DateFields, toTime: string -> int, j: nat, k: nat)
    requires BlankAfter(items, j, k)
    ensures Timeline(items, f, toTime)[k] == Timeline(items, f, toTime)[j]
  {
    if j == 0 {
      BlankAfterFirst(items, f, toTime, k);
    } else {
      ShiftBlankAfter(items, j, k);
      BlankAfterGap(items[1..], FieldsAfter(items[0], f), toTime, j - 1, k - 1);
      TimelineShift(items, f, toTime, j, k);
    }
  }

  /** The time at a later position is the time one position earlier in the rest of the feed. */
  lemma TimelineAt(items: seq<Item>, f: DateFields, toTime: string -> int, i: nat)
    requires 0 < i < |items|
    ensures Timeline(items, f, toTime)[i] == Timeline(items[1..], FieldsAfter(items[0], f), toTime)[i - 1]
  {
    TimelineHead(items, f, toTime);
  }

  /** The first time is the first item's, read over the fields carried in. */
  lemma TimelineFirst(items: seq<Item>, f: DateFields, toTime: string -> int)
    requires items != [] && items[0].pubDate.Some?
    ensures Timeline(items, f, toTime)[0] == Some(ItemTime(FieldsAfter(items[0], f), toTime))
  {
    TimelineHead(items, f, toTime);
  }

  /** Two later positions with equal times in the rest of the feed have equal times in the feed. */
  lemma TimelineShift(items: seq<Item>, f: DateFields, toTime: string -> int, j: nat, k: nat)
    requires 0 < j < k < |items|
    requires var ts' := Timeline(items[1..], FieldsAfter(items[0], f), toTime); ts'[k - 1] == ts'[j - 1]
    ensures Timeline(items, f, toTime)[k] == Timeline(items, f, toTime)[j]
  {
    TimelineHead(items, f, toTime);
  }

  /** The case of `BlankAfterGap` where the dated item is the first one. */
  lemma BlankAfterFirst(items: seq<Item>, f: DateFields, toTime: string -> int, k: nat)
    requires BlankAfter(items, 0, k)
    ensures Timeline(items, f, toTime)[k] == Timeline(items, f, toTime)[0]
  {
    var g := FieldsAfter(items[0], f);
    TimelineFirst(items, f, toTime);
    ReadDateSettled(items[0].pubDate.value, f);
    DropBlankAfter(items, 0, k);
    UndatedThenBlank(items[1..], g, toTime, k - 1);
    TimelineAt(items, f, toTime, k);
  }

  /** After undated items only, a blank-dated item gets the time of the carried fields, if their month is settled. */
  lemma {:induction false} UndatedThenBlank(items: seq<Item>, g: DateFields, toTime: string -> int, m: nat)
    requires BlankAfter(items, -1, m) && LookupMonth(g.monthText, g.month) == g.month
    ensures Timeline(items, g, toTime)[m] == Some(ItemTime(g, toTime))
  {
    if m == 0 {
      TimelineHead(items, g, toTime);
      BlankDateOnSettled(items[0].pubDate.value, g);
    } else {
      DropBlankAfter(items, -1, m);
      UndatedThenBlank(items[1..], g, toTime, m - 1);
      TimelineAt(items, g, toTime, m);
    }
  }

  // ---------------------------------------------------------------------------
  // One call of the callback
  // ---------------------------------------------------------------------------

  /** The mails one call sends, and the watermark it stores if it stores one. */
  datatype Delivery = Delivery(mails: seq<Notification>, watermark: Option<int>)

  /**
   * One call of `rss_got_feed` on a decoded document, with stored watermark
   * `last`, account name `to`, host time conversion `toTime` and the
   * indeterminate initial date locals `u`.
   */
  function Deliver(doc: Document, last: int, to: string, toTime: string -> int, u: Uninitialised): (d: Delivery)
    ensures d.watermark.Some? ==> d.watermark.value > last
    ensures !doc.Channel? ==> d.mails == [] && d.watermark.None?
  {
    match doc
    case Channel(title, items) =>
      var r := Filter(items, InitialFields(u), 0, last, toTime);
      Delivery(Mails(r.emitted, title.GetOr(""), to), if r.newest > last then Some(r.newest) else None)
    case _ => Delivery([], None)
  }

  /**
   * The whole call without the loop: the mails are those of the dated items
   * before the stop, sent as from the channel title (empty when the channel
   * has none); a watermark is stored only when the largest time looked at
   * (or 0) exceeds the stored one, and it is that time.
   */
  lemma DeliverMatchesTimeline(
    title: Option<string>, items: seq<Item>, last: int, to: string, toTime: string -> int, u: Uninitialised)
    ensures var d := Deliver(Channel(title, items), last, to, toTime, u);
            var ts := Timeline(items, InitialFields(u), toTime);
            var k := StopIndex(ts, last);
            var newest := MaxTime(ts[..Inspected(ts, last)], 0);
            d.mails == Mails(Dated(items[..k], ts[..k]), title.GetOr(""), to) &&
            d.watermark == (if newest > last then Some(newest) else None)
  {
    FilterMatchesTimeline(items, InitialFields(u), 0, last, toTime);
  }

  /** The time of the first dated item, if any: the one item the loop always looks at. */
  function FirstTime(items: seq<Item>, f: DateFields, toTime: string -> int): (t: Option<int>)
    ensures t.Some? ==> t.value >= 0
  {
    if items == [] then None
    else
      match items[0].pubDate
      case None => FirstTime(items[1..], f, toTime)
      case Some(text) => Some(ItemTime(ReadDate(text, f), toTime))
  }

  /**
   * The newest time a pass keeps is at least the first dated item's time;
   * and when that item is not above the watermark, nothing is mailed and the
   * newest time is the larger of it and the starting value.
   */
  lemma {:induction false} FilterFirstItem(
    items: seq<Item>, f: DateFields, n: int, last: int, toTime: string -> int)
    ensures var r := Filter(items, f, n, last, toTime);
            var t := FirstTime(items, f, toTime);
            (t.Some? ==> r.newest >= t.value) &&
            ((t.None? || t.value <= last) ==>
               r.emitted == [] && r.newest == (if t.Some? && t.value > n then t.value else n))
  {
    if items != [] && items[0].pubDate.None? {
      FilterFirstItem(items[1..], f, n, last, toTime);
    }
  }

  /**
   * A second call on the same document, with the watermark the first call
   * left behind and the same initial locals, mails nothing and stores
   * nothing.
   */
  lemma DeliverIdempotent(doc: Document, last: int, to: string, toTime: string -> int, u: Uninitialised)
    ensures var d1 := Deliver(doc, last, to, toTime, u);
            var stored := if d1.watermark.Some? then d1.watermark.value else last;
            Deliver(doc, stored, to, toTime, u) == Delivery([], None)
  {
    if doc.Channel? {
      var f := InitialFields(u);
      var r1 := Filter(doc.items, f, 0, last, toTime);
      var stored := if r1.newest > last then r1.newest else last;
      FilterFirstItem(doc.items, f, 0, last, toTime);
      FilterFirstItem(doc.items, f, 0, stored, toTime);
    }
  }
}
