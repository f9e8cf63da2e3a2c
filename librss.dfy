/**
 * The RSS account as `librss.c` drives it: the periodic fetch of the feed
 * named by the account's user name (`rss_get_feeds`) and the callback that
 * turns the fetched feed into mail notifications and moves the `last_fetch`
 * watermark forward (`rss_got_feed`). The host's side effects are recorded
 * in the object: the notifications sent and the URLs fetched, in order.
 */
module Librss {
  import opened Wrappers
  import opened PubDate
  import opened Feed

  class RssAccount {
    /** The account's user name, which is the feed's URL; an unset name is the empty string. */
    const username: string
    /** The `last_fetch` account setting; `None` until it is first written. */
    var lastFetch: Option<int>
    /** Every `purple_notify_email` call so far, oldest first. */
    var notifications: seq<Notification>
    /** Every URL handed to `purple_util_fetch_url` so far, oldest first. */
    var fetches: seq<string>

    /** Only the account's own, non-empty URL is ever fetched. */
    ghost predicate Valid()
      reads this
    {
      forall k | 0 <= k < |fetches| :: fetches[k] == username && fetches[k] != ""
    }

    constructor(username: string, lastFetch: Option<int>)
      ensures this.username == username && this.lastFetch == lastFetch
      ensures notifications == [] && fetches == []
      ensures Valid()
    {
      this.username := username;
      this.lastFetch := lastFetch;
      notifications := [];
      fetches := [];
    }

    /** `purple_account_get_int(account, "last_fetch", 0)`. */
    function LastFetchTime(): (t: int)
      reads this
      ensures lastFetch.None? ==> t == 0
      ensures lastFetch.Some? ==> t == lastFetch.value
    {
      lastFetch.GetOr(0)
    }

    /**
     * `rss_got_feed` on a decoded document: nothing happens unless the
     * document has a channel; otherwise the item loop runs against the stored
     * watermark (0 when unset), and the newest time it saw is stored only when
     * it is above that watermark. It sends exactly the mails `Deliver`
     * describes, stores the watermark `Deliver` gives when there is one, and
     * never moves the watermark back.
     */
    method GotFeed(doc: Document, toTime: string -> int, u: Uninitialised)
      requires Valid()
      modifies this
      ensures Valid()
      ensures var d := Deliver(doc, old(LastFetchTime()), username, toTime, u);
              notifications == old(notifications) + d.mails &&
              lastFetch == (if d.watermark.Some? then d.watermark else old(lastFetch))
      ensures fetches == old(fetches)
      ensures LastFetchTime() >= old(LastFetchTime())
    {
      if !doc.Channel? {
        return;
      }
      var last := LastFetchTime();
      var newest := NotifyItems(doc.title.GetOr(""), doc.items, last, toTime, u);
      if newest > last {
        lastFetch := Some(newest);
      }
    }

    /**
     * The item loop of `rss_got_feed`, over date locals carried from item to
     * item: it sends the mails of the items `Filter` lets through, in order,
     * and returns the newest time it saw.
     */
    method NotifyItems(titleText: string, items: seq<Item>, last: int, toTime: string -> int, u: Uninitialised)
      returns (newest: int)
      modifies this`notifications
      ensures var r := Filter(items, InitialFields(u), 0, last, toTime);
              newest == r.newest && notifications == old(notifications) + Mails(r.emitted, titleText, username)
    {
      var fields := InitialFields(u);
      newest := 0;
      var i := 0;
      ghost var emitted: seq<Item> := [];
      while i < |items|
        invariant 0 <= i <= |items|
        invariant var r := Filter(items[i..], fields, newest, last, toTime);
                  Filter(items, InitialFields(u), 0, last, toTime) == Pass(emitted + r.emitted, r.newest)
        invariant notifications == old(notifications) + Mails(emitted, titleText, username)
      {
        var item := items[i];
        FilterAt(items, i, fields, newest, last, toTime);
        i := i + 1;
        if item.pubDate.None? {
          continue;
        }
        fields := ReadDate(item.pubDate.value, fields);
        var t := ItemTime(fields, toTime);
        if t > newest {
          newest := t;
        }
        if t <= last {
          assert emitted + [] == emitted;
          break;
        }
        var subject := item.title.GetOr("");
        var url := item.link.GetOr("");
        notifications := notifications + [Notification(subject, titleText, username, url)];
        MailsAppend(emitted, item, titleText, username);
        AppendAssociates(old(notifications), Mails(emitted, titleText, username), [Mail(item, titleText, username)]);
        AppendAssociates(emitted, [item], Filter(items[i..], fields, newest, last, toTime).emitted);
        emitted := emitted + [item];
      }
      assert Filter(items, InitialFields(u), 0, last, toTime) == Pass(emitted, newest);
    }

    /**
     * `rss_get_feeds`: fetch the feed when the account has a non-empty URL,
     * and always ask the timer to keep running.
     */
    method GetFeeds() returns (keepTimer: bool)
      requires Valid()
      modifies this
      ensures Valid()
      ensures keepTimer
      ensures fetches == old(fetches) + (if username != "" then [username] else [])
      ensures notifications == old(notifications) && lastFetch == old(lastFetch)
    {
      if username != "" {
        fetches := fetches + [username];
      }
      return true;
    }
  }

  lemma AppendAssociates<T>(a: seq<T>, b: seq<T>, c: seq<T>)
    ensures a + (b + c) == (a + b) + c
  {
  }
}
