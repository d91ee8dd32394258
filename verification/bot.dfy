/** The bot's pipeline over the three tables: ingesting a parsed feed into
    the articles table, the crawl cycle over the feeds that are due, the
    delivery loop that advances subscription watermarks, the subscribe,
    unsubscribe and test commands, and the replies chosen from their
    outcomes.

    Fetching, feed parsing, message sending and the rate limiter are
    oracles handed in as parameters: a fetch is a `FetchResult`, the rate
    gate and the send are answers indexed by the position of the
    notification being delivered. */
module Goose {
  import opened Common
  import opened FeedStore
  import opened ArticleStore
  import opened SubscriptionStore
  import opened CacheControl
  import opened Seqs

  // ---------------------------------------------------------------------
  // What the oracles hand back
  // ---------------------------------------------------------------------

  /** One parsed feed item: its title, its link (None when the link does
      not parse as a URL) and its published time (None when the feed gives
      none the parser understands). */
  datatype Item = Item(title: string, link: Option<string>, published: Option<Time>)

  /** The parser's verdict on a response body: the items, in the parser's
      order; not a feed at all; or some other parse failure. */
  datatype ParseOutcome = Parsed(items: seq<Item>) | NotDetected | Malformed

  /** A GET of a feed link: no response at all, or a response with its
      status code, its `Cache-Control` header values and its parsed body. */
  datatype FetchResult =
    | TransportFailure
    | Response(status: int, cacheControl: seq<string>, body: ParseOutcome)

  // ---------------------------------------------------------------------
  // Ingestion (refreshFeed)
  // ---------------------------------------------------------------------

  /** An item is offered to the articles table when it has a published
      time that is not before `since` and a link that parses. An item
      published exactly at `since` is offered again. */
  predicate Eligible(item: Item, since: Time) {
    && item.published.Some?
    && !(item.published.value < since)
    && item.link.Some?
  }

  /** The articles table after offering every item, in order, to the
      insert; refused inserts leave the table as it was. */
  function Ingest(t: ArticleTable, feedId: int, items: seq<Item>, since: Time): ArticleTable {
    if items == [] then t
    else
      var t0 := Ingest(t, feedId, items[..|items| - 1], since);
      var item := items[|items| - 1];
      if Eligible(item, since) then t0.Insert(feedId, item.title, item.link.value, item.published.value)
      else t0
  }

  /** Ingestion only appends: the old rows stay, in place. */
  lemma {:induction false} IngestAppends(t: ArticleTable, feedId: int, items: seq<Item>, since: Time)
    ensures var r := Ingest(t, feedId, items, since);
      && |t.rows| <= |r.rows|
      && r.rows[..|t.rows|] == t.rows
  {
    if items != [] {
      var init := items[..|items| - 1];
      var item := items[|items| - 1];
      IngestAppends(t, feedId, init, since);
      var t0 := Ingest(t, feedId, init, since);
      if Eligible(item, since) {
        var r := t0.Insert(feedId, item.title, item.link.value, item.published.value);
        assert r.rows[..|t.rows|] == t0.rows[..|t.rows|];
      }
    }
  }

  /** Ingestion keeps the table's ids and keys unique. */
  lemma {:induction false} IngestKeepsValid(t: ArticleTable, feedId: int, items: seq<Item>, since: Time)
    requires t.Valid()
    ensures Ingest(t, feedId, items, since).Valid()
  {
    if items != [] {
      var init := items[..|items| - 1];
      var item := items[|items| - 1];
      IngestKeepsValid(t, feedId, init, since);
      if Eligible(item, since) {
        ArticleInsertKeepsValid(Ingest(t, feedId, init, since), feedId, item.title, item.link.value, item.published.value);
      }
    }
  }

  /** Every row ingestion adds belongs to the feed and carries exactly the
      title, link and published time of an eligible item. */
  lemma {:induction false} IngestOnlyEligible(t: ArticleTable, feedId: int, items: seq<Item>, since: Time, k: int)
    requires var r := Ingest(t, feedId, items, since); |t.rows| <= k < |r.rows|
    ensures var a := Ingest(t, feedId, items, since).rows[k];
      && a.feedId == feedId
      && since <= a.published
      && exists i :: 0 <= i < |items| && Eligible(items[i], since) &&
           a == Article(a.id, feedId, items[i].title, items[i].link.value, items[i].published.value)
  {
    var init := items[..|items| - 1];
    var item := items[|items| - 1];
    var t0 := Ingest(t, feedId, init, since);
    if k < |t0.rows| {
      IngestOnlyEligible(t, feedId, init, since, k);
      var a := t0.rows[k];
      var i :| 0 <= i < |init| && Eligible(init[i], since) &&
        a == Article(a.id, feedId, init[i].title, init[i].link.value, init[i].published.value);
      assert items[i] == init[i];
    } else {
      assert Eligible(items[|items| - 1], since);
    }
  }

  /** Ingestion never loses a key already stored. */
  lemma {:induction false} IngestKeepsKeys(t: ArticleTable, feedId: int, items: seq<Item>, since: Time, f: int, link: string)
    requires HasKey(t.rows, f, link)
    ensures HasKey(Ingest(t, feedId, items, since).rows, f, link)
  {
    if items != [] {
      var init := items[..|items| - 1];
      IngestKeepsKeys(t, feedId, init, since, f, link);
      var t0 := Ingest(t, feedId, init, since);
      var i :| 0 <= i < |t0.rows| && SameKey(t0.rows[i], f, link);
      var item := items[|items| - 1];
      if Eligible(item, since) {
        assert t0.Insert(feedId, item.title, item.link.value, item.published.value).rows[i] == t0.rows[i];
      }
    }
  }

  /** After ingestion every eligible item is stored under the feed and its
      link, whether it was added now or was already there. */
  lemma {:induction false} IngestCovers(t: ArticleTable, feedId: int, items: seq<Item>, since: Time, i: int)
    requires 0 <= i < |items| && Eligible(items[i], since)
    ensures HasKey(Ingest(t, feedId, items, since).rows, feedId, items[i].link.value)
  {
    var init := items[..|items| - 1];
    var item := items[|items| - 1];
    var t0 := Ingest(t, feedId, init, since);
    if i < |init| {
      assert items[i] == init[i];
      IngestCovers(t, feedId, init, since, i);
      IngestKeepsKeys(t0, feedId, [item], since, feedId, items[i].link.value);
      assert [item][..0] == [];
      assert Ingest(t0, feedId, [item], since) == Ingest(t, feedId, items, since);
    } else {
      var r := t0.Insert(feedId, item.title, item.link.value, item.published.value);
      if !HasKey(t0.rows, feedId, item.link.value) {
        assert SameKey(r.rows[|t0.rows|], feedId, item.link.value);
      }
    }
  }

  /** When every eligible item is already stored, ingestion changes nothing. */
  lemma {:induction false} IngestNothingNew(t: ArticleTable, feedId: int, items: seq<Item>, since: Time)
    requires forall i :: 0 <= i < |items| && Eligible(items[i], since) ==> HasKey(t.rows, feedId, items[i].link.value)
    ensures Ingest(t, feedId, items, since) == t
  {
    if items != [] {
      var init := items[..|items| - 1];
      forall i | 0 <= i < |init| && Eligible(init[i], since)
        ensures HasKey(t.rows, feedId, init[i].link.value)
      {
        assert init[i] == items[i];
      }
      IngestNothingNew(t, feedId, init, since);
    }
  }

  /** Ingesting the same items twice is the same as ingesting them once:
      a feed crawled again without new items adds no article. */
  lemma IngestIdempotent(t: ArticleTable, feedId: int, items: seq<Item>, since: Time)
    ensures var r := Ingest(t, feedId, items, since); Ingest(r, feedId, items, since) == r
  {
    var r := Ingest(t, feedId, items, since);
    forall i | 0 <= i < |items| && Eligible(items[i], since)
      ensures HasKey(r.rows, feedId, items[i].link.value)
    {
      IngestCovers(t, feedId, items, since, i);
    }
    IngestNothingNew(r, feedId, items, since);
  }

  /** The order `sort.Sort(feedContents)` leaves the parsed items in:
      published times never decrease among the items that carry one. Items
      without a published time may sit anywhere, and equal times in any
      order. */
  predicate ItemsSorted(items: seq<Item>) {
    forall i, j :: 0 <= i < j < |items| && items[i].published.Some? && items[j].published.Some? ==>
      items[i].published.value <= items[j].published.value
  }

  /** What that order decides: when several eligible items share a link,
      the row ingestion adds under it carries the earliest published time
      among them. */
  lemma {:induction false} IngestStoresEarliest(t: ArticleTable, feedId: int, items: seq<Item>, since: Time, k: int, i: int)
    requires ItemsSorted(items)
    requires |t.rows| <= k < |Ingest(t, feedId, items, since).rows|
    requires 0 <= i < |items| && Eligible(items[i], since)
    requires items[i].link.value == Ingest(t, feedId, items, since).rows[k].link
    ensures Ingest(t, feedId, items, since).rows[k].published <= items[i].published.value
  {
    var init := items[..|items| - 1];
    var item := items[|items| - 1];
    var t0 := Ingest(t, feedId, init, since);
    assert ItemsSorted(init) by {
      forall x, y | 0 <= x < y < |init| && init[x].published.Some? && init[y].published.Some?
        ensures init[x].published.value <= init[y].published.value
      {
        assert init[x] == items[x] && init[y] == items[y];
      }
    }
    if i < |init| {
      assert items[i] == init[i];
      IngestCovers(t, feedId, init, since, i);
      assert k < |t0.rows|;
      IngestStoresEarliest(t, feedId, init, since, k, i);
    } else if k < |t0.rows| {
      IngestOnlyEligible(t, feedId, init, since, k);
      var x :| 0 <= x < |init| && Eligible(init[x], since) &&
        t0.rows[k] == Article(t0.rows[k].id, feedId, init[x].title, init[x].link.value, init[x].published.value);
      assert init[x] == items[x];
    }
  }

  // ---------------------------------------------------------------------
  // The crawl cycle (RefreshFeeds)
  // ---------------------------------------------------------------------

  /** The two tables the crawl cycle writes. */
  datatype Stores = Stores(feeds: FeedTable, articles: ArticleTable)

  /** One feed of the cycle. A failed fetch skips the feed. Otherwise the
      feed's not_until is rewritten from the response's `Cache-Control`
      values before the body is looked at (the status code is never
      looked at); a refused update, an unparseable body and a feed without
      any stored article each skip the rest; a feed with a latest article
      ingests the items published no earlier than that article. */
  function CrawlStep(st: Stores, f: Feed, now: Time, fetch: string -> FetchResult): Stores {
    match fetch(f.link)
    case TransportFailure => st
    case Response(_, cacheControl, body) =>
      var updated := f.(notUntil := NotUntil(cacheControl, now));
      if LinkTakenByOther(st.feeds.rows, updated.id, updated.link) then st
      else
        var feeds' := FeedTable(Replaced(st.feeds.rows, updated), st.feeds.nextId);
        if !body.Parsed? then Stores(feeds', st.articles)
        else
          match LatestOf(st.articles.rows, f.id)
          case Err(_) => Stores(feeds', st.articles)
          case Ok(latest) => Stores(feeds', Ingest(st.articles, f.id, body.items, latest.published))
  }

  /** The cycle over the listed feeds, in order. */
  function Crawl(st: Stores, ready: seq<Feed>, now: Time, fetch: string -> FetchResult): Stores {
    if ready == [] then st
    else CrawlStep(Crawl(st, ready[..|ready| - 1], now, fetch), ready[|ready| - 1], now, fetch)
  }

  /** What the cycle makes of one stored feed row: a listed feed whose
      fetch got a response carries the cool-down computed from that
      response; every other row stays as it was. */
  function Refreshed(f: Feed, ready: seq<Feed>, now: Time, fetch: string -> FetchResult): (r: Feed)
    ensures r.id == f.id && r.link == f.link
  {
    if f in ready && fetch(f.link).Response? then f.(notUntil := NotUntil(fetch(f.link).cacheControl, now))
    else f
  }

  /** Over listed feeds that are distinct rows of a valid table, the cycle
      rewrites exactly the not_until of the listed feeds that got a
      response, whatever their bodies held, and touches nothing else. */
  lemma {:induction false} CrawlSetsNotUntil(st: Stores, ready: seq<Feed>, now: Time, fetch: string -> FetchResult)
    requires st.feeds.Valid()
    requires forall f :: f in ready ==> f in st.feeds.rows
    requires forall i, j :: 0 <= i < j < |ready| ==> ready[i].id != ready[j].id
    ensures var r := Crawl(st, ready, now, fetch).feeds;
      && r.nextId == st.feeds.nextId
      && |r.rows| == |st.feeds.rows|
      && forall k :: 0 <= k < |r.rows| ==> r.rows[k] == Refreshed(st.feeds.rows[k], ready, now, fetch)
  {
    if ready != [] {
      var rows := st.feeds.rows;
      var init := ready[..|ready| - 1];
      var f := ready[|ready| - 1];
      assert forall g :: g in ready <==> g in init || g == f;
      CrawlSetsNotUntil(st, init, now, fetch);
      var st0 := Crawl(st, init, now, fetch);
      assert f in ready;
      var m :| 0 <= m < |rows| && rows[m] == f;
      forall j | 0 <= j < |init| ensures init[j] != f {
        assert ready[j].id != ready[|ready| - 1].id;
      }
      assert f !in init;
      match fetch(f.link)
      case TransportFailure =>
      case Response(_, cacheControl, body) =>
        var updated := f.(notUntil := NotUntil(cacheControl, now));
        assert !LinkTakenByOther(st0.feeds.rows, updated.id, updated.link) by {
          forall i | 0 <= i < |st0.feeds.rows| && i != m
            ensures st0.feeds.rows[i].link != f.link
          {
            assert Refreshed(rows[i], init, now, fetch).link == rows[i].link;
            if i < m {
              assert rows[i].link != rows[m].link;
            } else {
              assert rows[m].link != rows[i].link;
            }
          }
          assert st0.feeds.rows[m].id == f.id;
        }
        var r := Crawl(st, ready, now, fetch).feeds;
        forall k | 0 <= k < |r.rows| ensures r.rows[k] == Refreshed(rows[k], ready, now, fetch) {
          if k == m {
            assert rows[k] !in init;
          } else {
            assert rows[k].id != f.id by {
              if k < m {
                assert rows[k].id != rows[m].id;
              } else {
                assert rows[m].id != rows[k].id;
              }
            }
          }
        }
    }
  }

  /** The cycle only appends to the articles table and keeps it valid. */
  lemma {:induction false} CrawlAppendsArticles(st: Stores, ready: seq<Feed>, now: Time, fetch: string -> FetchResult)
    requires st.articles.Valid()
    ensures var r := Crawl(st, ready, now, fetch).articles;
      && r.Valid()
      && |st.articles.rows| <= |r.rows|
      && r.rows[..|st.articles.rows|] == st.articles.rows
  {
    if ready != [] {
      var init := ready[..|ready| - 1];
      var f := ready[|ready| - 1];
      CrawlAppendsArticles(st, init, now, fetch);
      var st0 := Crawl(st, init, now, fetch);
      var r := Crawl(st, ready, now, fetch).articles;
      if r != st0.articles {
        var latest := LatestOf(st0.articles.rows, f.id);
        IngestAppends(st0.articles, f.id, fetch(f.link).body.items, latest.value.published);
        IngestKeepsValid(st0.articles, f.id, fetch(f.link).body.items, latest.value.published);
        assert r.rows[..|st.articles.rows|] == r.rows[..|st0.articles.rows|][..|st.articles.rows|];
      }
    }
  }

  /** A feed with no stored article gains none from the cycle: ingestion
      needs a latest article to start from, so such a feed is skipped. */
  lemma {:induction false} CrawlSkipsFeedWithoutArticles(st: Stores, ready: seq<Feed>, now: Time, fetch: string -> FetchResult, feedId: int)
    requires forall a :: a in st.articles.rows ==> a.feedId != feedId
    ensures forall a :: a in Crawl(st, ready, now, fetch).articles.rows ==> a.feedId != feedId
  {
    if ready != [] {
      var init := ready[..|ready| - 1];
      var f := ready[|ready| - 1];
      CrawlSkipsFeedWithoutArticles(st, init, now, fetch, feedId);
      var st0 := Crawl(st, init, now, fetch);
      var r := Crawl(st, ready, now, fetch).articles;
      if r != st0.articles {
        var latest := LatestOf(st0.articles.rows, f.id);
        var items := fetch(f.link).body.items;
        assert f.id != feedId;
        forall a | a in r.rows ensures a.feedId != feedId {
          var k :| 0 <= k < |r.rows| && r.rows[k] == a;
          if k >= |st0.articles.rows| {
            IngestOnlyEligible(st0.articles, f.id, items, latest.value.published, k);
          } else {
            IngestAppends(st0.articles, f.id, items, latest.value.published);
            assert r.rows[..|st0.articles.rows|][k] == a;
          }
        }
      }
    }
  }

  /** `a` is a row the cycle may add for the listed feed `f` whose fetch
      answered `response`: the body parsed, the feed already had a latest
      article among `rows`, and `a` carries an item of the body that is
      eligible against that article's published time. */
  ghost predicate IngestedFrom(rows: seq<Article>, f: Feed, response: FetchResult, a: Article) {
    && response.Response? && response.body.Parsed?
    && LatestOf(rows, f.id).Ok?
    && a.feedId == f.id
    && LatestOf(rows, f.id).value.published <= a.published
    && exists i :: 0 <= i < |response.body.items| &&
         Eligible(response.body.items[i], LatestOf(rows, f.id).value.published) &&
         a == Article(a.id, f.id, response.body.items[i].title, response.body.items[i].link.value,
                      response.body.items[i].published.value)
  }

  /** Over listed feeds with distinct ids, every article the cycle adds was
      ingested for one of them, from its own parsed body, no earlier than
      the latest article the feed had before the cycle. */
  lemma {:induction false} CrawlAddsOnlyFromReady(st: Stores, ready: seq<Feed>, now: Time, fetch: string -> FetchResult, k: int)
    requires st.articles.Valid()
    requires forall x, y :: 0 <= x < y < |ready| ==> ready[x].id != ready[y].id
    requires |st.articles.rows| <= k < |Crawl(st, ready, now, fetch).articles.rows|
    ensures exists j :: 0 <= j < |ready| &&
                        IngestedFrom(st.articles.rows, ready[j], fetch(ready[j].link),
                                     Crawl(st, ready, now, fetch).articles.rows[k])
    decreases |ready|, 1
  {
    assert ready != [];
    var init := ready[..|ready| - 1];
    var f := ready[|ready| - 1];
    var st0 := Crawl(st, init, now, fetch);
    var r := Crawl(st, ready, now, fetch).articles;
    CrawlAppendsArticles(st, init, now, fetch);
    if k < |st0.articles.rows| {
      if r != st0.articles {
        var latest := LatestOf(st0.articles.rows, f.id).value;
        IngestAppends(st0.articles, f.id, fetch(f.link).body.items, latest.published);
        assert r.rows[k] == r.rows[..|st0.articles.rows|][k];
      }
      CrawlAddsOnlyFromReady(st, init, now, fetch, k);
      var j :| 0 <= j < |init| && IngestedFrom(st.articles.rows, init[j], fetch(init[j].link), st0.articles.rows[k]);
      assert ready[j] == init[j];
    } else {
      var items := fetch(f.link).body.items;
      var latest := LatestOf(st0.articles.rows, f.id).value;
      forall g | g in init ensures g.id != f.id {
        var x :| 0 <= x < |init| && init[x] == g;
        assert ready[x] == g;
      }
      CrawlKeepsLatestOfUnlisted(st, init, now, fetch, f.id);
      IngestOnlyEligible(st0.articles, f.id, items, latest.published, k);
      assert ready[|ready| - 1] == f;
    }
  }

  /** Within a cycle, a feed not yet reached keeps its latest article: the
      rows added so far belong to the feeds already processed. */
  lemma CrawlKeepsLatestOfUnlisted(st: Stores, ready: seq<Feed>, now: Time, fetch: string -> FetchResult, id: int)
    requires st.articles.Valid()
    requires forall x, y :: 0 <= x < y < |ready| ==> ready[x].id != ready[y].id
    requires forall f :: f in ready ==> f.id != id
    ensures LatestOf(Crawl(st, ready, now, fetch).articles.rows, id) == LatestOf(st.articles.rows, id)
    decreases |ready|, 2
  {
    var rows := st.articles.rows;
    var r := Crawl(st, ready, now, fetch).articles.rows;
    CrawlAppendsArticles(st, ready, now, fetch);
    var extra := r[|rows|..];
    assert r == rows + extra;
    forall k | |rows| <= k < |r| ensures r[k].feedId != id {
      CrawlAddsOnlyFromReady(st, ready, now, fetch, k);
      var j :| 0 <= j < |ready| && IngestedFrom(rows, ready[j], fetch(ready[j].link), r[k]);
      assert ready[j] in ready;
    }
    assert forall a :: a in extra ==> a.feedId != id;
    LatestOfOtherFeeds(rows, extra, id);
  }

  /** Partway through a cycle over distinct rows of a valid table, the
      update of any stored feed's not_until is never refused: the rows keep
      their ids and distinct links. */
  lemma CrawlNeverRefusesListed(st: Stores, ready: seq<Feed>, now: Time, fetch: string -> FetchResult, f: Feed)
    requires st.feeds.Valid()
    requires forall g :: g in ready ==> g in st.feeds.rows
    requires forall x, y :: 0 <= x < y < |ready| ==> ready[x].id != ready[y].id
    requires f in st.feeds.rows
    ensures !LinkTakenByOther(Crawl(st, ready, now, fetch).feeds.rows, f.id, f.link)
  {
    CrawlSetsNotUntil(st, ready, now, fetch);
    var rows := st.feeds.rows;
    var rows0 := Crawl(st, ready, now, fetch).feeds.rows;
    var m :| 0 <= m < |rows| && rows[m] == f;
    forall x, y | 0 <= x < y < |rows0| ensures rows0[x].link != rows0[y].link {
      assert rows0[x].link == rows[x].link && rows0[y].link == rows[y].link;
    }
    OwnLinkNotTaken(rows0, f, m);
  }

  /** Conversely, for a listed feed of a valid table whose fetch got a
      parsed body and that already had a latest article, every item
      eligible against that article's published time is stored under the
      feed once the cycle is over. */
  lemma {:induction false} CrawlCovers(st: Stores, ready: seq<Feed>, now: Time, fetch: string -> FetchResult, j: int, i: int)
    requires st.feeds.Valid() && st.articles.Valid()
    requires forall f :: f in ready ==> f in st.feeds.rows
    requires forall x, y :: 0 <= x < y < |ready| ==> ready[x].id != ready[y].id
    requires 0 <= j < |ready|
    requires fetch(ready[j].link).Response? && fetch(ready[j].link).body.Parsed?
    requires LatestOf(st.articles.rows, ready[j].id).Ok?
    requires 0 <= i < |fetch(ready[j].link).body.items|
    requires Eligible(fetch(ready[j].link).body.items[i], LatestOf(st.articles.rows, ready[j].id).value.published)
    ensures HasKey(Crawl(st, ready, now, fetch).articles.rows, ready[j].id, fetch(ready[j].link).body.items[i].link.value)
  {
    var init := ready[..|ready| - 1];
    var f := ready[|ready| - 1];
    var st0 := Crawl(st, init, now, fetch);
    var link := fetch(ready[j].link).body.items[i].link.value;
    if j < |init| {
      assert init[j] == ready[j];
      CrawlCovers(st, init, now, fetch, j, i);
      match fetch(f.link)
      case TransportFailure =>
      case Response(_, cacheControl, body) =>
        var updated := f.(notUntil := NotUntil(cacheControl, now));
        if !LinkTakenByOther(st0.feeds.rows, updated.id, updated.link) && body.Parsed? && LatestOf(st0.articles.rows, f.id).Ok? {
          IngestKeepsKeys(st0.articles, f.id, body.items, LatestOf(st0.articles.rows, f.id).value.published, ready[j].id, link);
        }
    } else {
      assert f in ready;
      CrawlNeverRefusesListed(st, init, now, fetch, f);
      forall g | g in init ensures g.id != f.id {
        var x :| 0 <= x < |init| && init[x] == g;
        assert ready[x] == g;
      }
      CrawlKeepsLatestOfUnlisted(st, init, now, fetch, f.id);
      IngestCovers(st0.articles, f.id, fetch(f.link).body.items, LatestOf(st.articles.rows, f.id).value.published, i);
    }
  }

  /** The cycle as the bot runs it, on the feeds ready at `now`: a feed not
      yet due keeps its row; a due feed keeps its id and link and takes the
      cool-down of its response when it got one. */
  lemma RefreshFeedsRows(feeds: FeedTable, articles: ArticleTable, now: Time, fetch: string -> FetchResult)
    requires feeds.Valid()
    ensures var r := Crawl(Stores(feeds, articles), Ready(feeds.rows, now), now, fetch).feeds;
      && |r.rows| == |feeds.rows|
      && r.nextId == feeds.nextId
      && forall k :: 0 <= k < |r.rows| ==>
           r.rows[k] == if feeds.rows[k].notUntil <= now && fetch(feeds.rows[k].link).Response?
                        then feeds.rows[k].(notUntil := NotUntil(fetch(feeds.rows[k].link).cacheControl, now))
                        else feeds.rows[k]
  {
    var p := (f: Feed) => f.notUntil <= now;
    var ready := Ready(feeds.rows, now);
    assert ready == Filter(feeds.rows, p);
    forall f | f in ready ensures f in feeds.rows && f.notUntil <= now {
      FilterMembers(feeds.rows, p, f);
    }
    FilterKeepsDistinct(feeds.rows, p);
    forall i, j | 0 <= i < j < |ready| ensures ready[i].id != ready[j].id {
      assert ready[i] == Filter(feeds.rows, p)[i] && ready[j] == Filter(feeds.rows, p)[j];
    }
    CrawlSetsNotUntil(Stores(feeds, articles), ready, now, fetch);
    forall k | 0 <= k < |feeds.rows| ensures feeds.rows[k] in ready <==> feeds.rows[k].notUntil <= now {
      FilterMembers(feeds.rows, p, feeds.rows[k]);
    }
  }

  // ---------------------------------------------------------------------
  // Delivery (Update)
  // ---------------------------------------------------------------------

  /** Where the delivery loop stands: the error that stopped it, if any,
      and the subscriptions table. */
  datatype Delivery = Delivery(err: Option<Error>, subs: SubscriptionTable)

  /** The delivery loop over the pending notifications, in order. The
      notification at position k first waits on the rate gate
      (`admitted(k)`); a refusal stops the loop with Canceled. Then it is
      sent (`delivered(k)`); only a successful send moves the watermark of
      its subscription to the notification's published time. */
  function Deliver(t: SubscriptionTable, nots: seq<Notification>, admitted: nat -> bool, delivered: nat -> bool): Delivery {
    if nots == [] then Delivery(None, t)
    else
      var k := |nots| - 1;
      var prev := Deliver(t, nots[..k], admitted, delivered);
      if prev.err.Some? then prev
      else if !admitted(k) then Delivery(Some(Canceled), prev.subs)
      else if !delivered(k) then prev
      else Delivery(None, SubscriptionTable(WithWatermark(prev.subs.rows, nots[k].subscriptionId, nots[k].pubDate), prev.subs.nextId))
  }

  /** Once the loop has stopped, later notifications change nothing. */
  lemma {:induction false} DeliverStops(t: SubscriptionTable, nots: seq<Notification>, admitted: nat -> bool, delivered: nat -> bool, i: nat)
    requires i <= |nots| && Deliver(t, nots[..i], admitted, delivered).err.Some?
    ensures Deliver(t, nots, admitted, delivered) == Deliver(t, nots[..i], admitted, delivered)
    decreases |nots| - i
  {
    if i < |nots| {
      var init := nots[..|nots| - 1];
      assert init[..i] == nots[..i];
      DeliverStops(t, init, admitted, delivered, i);
    } else {
      assert nots[..i] == nots;
    }
  }

  /** The loop fails exactly when the rate gate refuses some notification,
      and then with Canceled. */
  lemma {:induction false} DeliverFailsOnlyWhenRefused(t: SubscriptionTable, nots: seq<Notification>, admitted: nat -> bool, delivered: nat -> bool)
    ensures var d := Deliver(t, nots, admitted, delivered);
      && (d.err.Some? <==> exists k :: 0 <= k < |nots| && !admitted(k))
      && (d.err.Some? ==> d.err == Some(Canceled))
  {
    if nots != [] {
      var k := |nots| - 1;
      DeliverFailsOnlyWhenRefused(t, nots[..k], admitted, delivered);
    }
  }

  /** Delivery only ever rewrites watermarks: every row keeps its other
      fields and its place, and a watermark that moved holds the published
      time of a notification for that subscription that was admitted and
      sent. */
  lemma {:induction false} DeliverOnlyAdvancesSent(t: SubscriptionTable, nots: seq<Notification>, admitted: nat -> bool, delivered: nat -> bool)
    ensures var r := Deliver(t, nots, admitted, delivered).subs;
      && r.nextId == t.nextId
      && |r.rows| == |t.rows|
      && forall k :: 0 <= k < |t.rows| ==>
           && r.rows[k] == t.rows[k].(lastPubDate := r.rows[k].lastPubDate)
           && (|| r.rows[k].lastPubDate == t.rows[k].lastPubDate
               || exists j :: 0 <= j < |nots| && admitted(j) && delivered(j) &&
                    nots[j].subscriptionId == t.rows[k].id && r.rows[k].lastPubDate == nots[j].pubDate)
  {
    if nots != [] {
      var last := |nots| - 1;
      var init := nots[..last];
      DeliverOnlyAdvancesSent(t, init, admitted, delivered);
      var prev := Deliver(t, init, admitted, delivered);
      var r := Deliver(t, nots, admitted, delivered).subs;
      forall k | 0 <= k < |t.rows|
        ensures || r.rows[k].lastPubDate == t.rows[k].lastPubDate
                || exists j :: 0 <= j < |nots| && admitted(j) && delivered(j) &&
                     nots[j].subscriptionId == t.rows[k].id && r.rows[k].lastPubDate == nots[j].pubDate
      {
        if r.rows[k] == prev.subs.rows[k] {
          if r.rows[k].lastPubDate != t.rows[k].lastPubDate {
            var j :| 0 <= j < |init| && admitted(j) && delivered(j) &&
              init[j].subscriptionId == t.rows[k].id && prev.subs.rows[k].lastPubDate == init[j].pubDate;
            assert nots[j] == init[j];
          }
        } else {
          assert admitted(last) && delivered(last) && r.rows[k].lastPubDate == nots[last].pubDate;
        }
      }
    }
  }

  /** With the gate admitting every notification up to it, a subscription's
      watermark ends at the published time of the last notification for it
      that was sent. */
  lemma {:induction false} DeliverLastSent(t: SubscriptionTable, nots: seq<Notification>, admitted: nat -> bool, delivered: nat -> bool, k: int, j: int)
    requires 0 <= k < |t.rows| && 0 <= j < |nots|
    requires forall i :: 0 <= i <= j ==> admitted(i)
    requires delivered(j) && nots[j].subscriptionId == t.rows[k].id
    requires forall i :: j < i < |nots| && delivered(i) ==> nots[i].subscriptionId != t.rows[k].id
    ensures var r := Deliver(t, nots, admitted, delivered).subs.rows;
      k < |r| && r[k].lastPubDate == nots[j].pubDate
  {
    var last := |nots| - 1;
    var init := nots[..last];
    DeliverFailsOnlyWhenRefused(t, init, admitted, delivered);
    DeliverOnlyAdvancesSent(t, init, admitted, delivered);
    var prev := Deliver(t, init, admitted, delivered);
    assert prev.subs.rows[k].id == t.rows[k].id;
    if j < last {
      forall i | j < i < |init| && delivered(i) ensures init[i].subscriptionId != t.rows[k].id {
        assert init[i] == nots[i];
      }
      assert init[j] == nots[j];
      DeliverLastSent(t, init, admitted, delivered, k, j);
    }
  }

  /** A failed send is not retried once a later notification of the same
      subscription is sent: the watermark moves to the later one's
      published time, which the ascending order of the pending list puts
      no earlier than the failed one's. */
  lemma FailedSendNotRetried(t: SubscriptionTable, n0: Notification, n1: Notification, k: int,
                             admitted: nat -> bool, delivered: nat -> bool)
    requires 0 <= k < |t.rows| && n0.subscriptionId == t.rows[k].id && n1.subscriptionId == t.rows[k].id
    requires n0.pubDate <= n1.pubDate
    requires admitted(0) && admitted(1) && !delivered(0) && delivered(1)
    ensures var r := Deliver(t, [n0, n1], admitted, delivered).subs.rows;
      && k < |r|
      && r[k].lastPubDate == n1.pubDate
      && n0.pubDate <= r[k].lastPubDate
  {
    DeliverLastSent(t, [n0, n1], admitted, delivered, k, 1);
  }

  // ---------------------------------------------------------------------
  // Subscribe, test and the replies
  // ---------------------------------------------------------------------

  /** A fetch that subscribe accepts: a 2xx response whose body parsed as
      a feed. */
  predicate FetchedFeed(fetch: FetchResult) {
    fetch.Response? && 200 <= fetch.status < 300 && fetch.body.Parsed?
  }

  /** Subscribing the same link to the same collection a second time
      leaves the subscriptions table as the first time left it: the
      second insert is refused, and subscribe swallows the refusal. */
  lemma SubscribeAgainNoChange(t: SubscriptionTable, feedId: int, serverId: string, channelId: string,
                               name: string, first: Time, second: Time)
    ensures var once := t.Insert(feedId, serverId, channelId, name, first);
      once.Insert(feedId, serverId, channelId, name, second) == once
  {
    var once := t.Insert(feedId, serverId, channelId, name, first);
    if !HasName(t.rows, serverId, name) {
      assert SameName(once.rows[|t.rows|], serverId, name);
    }
  }

  /** The bot's `test`: the link of the latest article of the feed behind
      a server's collection. A collection that does not exist is NotFound;
      one whose feed has no article yet is EmptyFeed. */
  function Test(subs: seq<Subscription>, arts: seq<Article>, serverId: string, collection: string): (r: Result<string>)
    ensures r == Err(NotFound) <==> !HasName(subs, serverId, collection)
    ensures r == Err(EmptyFeed) <==>
      HasName(subs, serverId, collection) &&
      forall a :: a in arts ==> a.feedId != FindName(subs, serverId, collection).value.feedId
    ensures r.Ok? || r == Err(NotFound) || r == Err(EmptyFeed)
    ensures r.Ok? ==> exists a ::
      && a in arts
      && a.feedId == FindName(subs, serverId, collection).value.feedId
      && a.link == r.value
      && forall b :: b in arts && b.feedId == a.feedId ==> b.published <= a.published
  {
    match FindName(subs, serverId, collection)
    case Err(e) => Err(e)
    case Ok(sub) =>
      match LatestOf(arts, sub.feedId)
      case Err(e) => if e == NotFound then Err(EmptyFeed) else Err(e)
      case Ok(latest) => Ok(latest.link)
  }

  /** The answers the subscribe command can give. */
  datatype Reply =
    | Subscribed
    | AlreadySubscribed
    | NoFeedAtLink
    | AuthorizationRequired
    | ForbiddenResource
    | NothingAtLink
    | SiteHavingIssues
    | FetchBug
    | InternalError

  /** The answer to a subscribe outcome. Non-2xx statuses fall into five
      categories: 401, 403, 404, 500 and above, and every other code. */
  function SubscribeReply(err: Option<Error>): (r: Reply)
    ensures r == Subscribed <==> err == None
    ensures r == AlreadySubscribed <==> err == Some(AlreadyExists)
    ensures r == NoFeedAtLink <==> err == Some(NotRssFeed)
    ensures r == AuthorizationRequired <==> err == Some(HttpStatus(401))
    ensures r == ForbiddenResource <==> err == Some(HttpStatus(403))
    ensures r == NothingAtLink <==> err == Some(HttpStatus(404))
    ensures r == SiteHavingIssues <==> err.Some? && err.value.HttpStatus? && err.value.statusCode >= 500
    ensures r == FetchBug <==>
      err.Some? && err.value.HttpStatus? && err.value.statusCode < 500 &&
      err.value.statusCode != 401 && err.value.statusCode != 403 && err.value.statusCode != 404
    ensures r == InternalError <==>
      err.Some? && !err.value.HttpStatus? && err.value != AlreadyExists && err.value != NotRssFeed
  {
    match err
    case None => Subscribed
    case Some(AlreadyExists) => AlreadySubscribed
    case Some(NotRssFeed) => NoFeedAtLink
    case Some(HttpStatus(code)) =>
      if code == 401 then AuthorizationRequired
      else if code == 403 then ForbiddenResource
      else if code == 404 then NothingAtLink
      else if code >= 500 then SiteHavingIssues
      else FetchBug
    case Some(_) => InternalError
  }

  /** `strings.Contains(s, sub)`: `sub` occurs in `s` at some position. */
  predicate Contains(s: string, sub: string) {
    |sub| <= |s| && (s[..|sub|] == sub || Contains(s[1..], sub))
  }

  /** The link check of the subscribe command: the link must parse (the
      scheme is None when it does not) and its scheme must contain `http`
      anywhere. */
  predicate AcceptsLink(scheme: Option<string>) {
    scheme.Some? && Contains(scheme.value, "http")
  }

  /** `http` and `https` pass the link check, `ftp` and an unparseable link
      do not, and neither does any scheme shorter than four letters; but
      any scheme that merely contains `http` passes too. */
  lemma LinkCheckCases()
    ensures AcceptsLink(Some("http")) && AcceptsLink(Some("https"))
    ensures AcceptsLink(Some("git+http"))
    ensures !AcceptsLink(Some("ftp")) && !AcceptsLink(None)
  {
    assert "http"[..4] == "http";
    assert "https"[..4] == "http";
    var g := "git+http";
    assert g[1..][1..][1..][1..] == "http";
    assert Contains(g[1..][1..][1..][1..], "http");
    assert Contains(g[1..][1..][1..], "http");
    assert Contains(g[1..][1..], "http");
    assert Contains(g[1..], "http");
  }

  /** A scheme shorter than `http` never passes the link check. */
  lemma ShortSchemeRejected(scheme: string)
    requires |scheme| < 4
    ensures !AcceptsLink(Some(scheme))
  {
  }

  // ---------------------------------------------------------------------
  // Command options (optionsToMap)
  // ---------------------------------------------------------------------

  /** One option of an application command: its name and its value. */
  datatype CommandOption = CommandOption(name: string, value: string)

  /** The options keyed by name; a later option with a name replaces an
      earlier one. */
  function OptionsMap(opts: seq<CommandOption>): map<string, CommandOption> {
    if opts == [] then map[]
    else
      var last := opts[|opts| - 1];
      OptionsMap(opts[..|opts| - 1])[last.name := last]
  }

  /** The map's keys are exactly the option names. */
  lemma {:induction false} OptionsMapKeys(opts: seq<CommandOption>, name: string)
    ensures name in OptionsMap(opts) <==> exists i :: 0 <= i < |opts| && opts[i].name == name
  {
    if opts != [] {
      var init := opts[..|opts| - 1];
      OptionsMapKeys(init, name);
      if name in OptionsMap(opts) && name != opts[|opts| - 1].name {
        var i :| 0 <= i < |init| && init[i].name == name;
        assert opts[i].name == name;
      }
      if exists i :: 0 <= i < |opts| && opts[i].name == name {
        var i :| 0 <= i < |opts| && opts[i].name == name;
        if i < |init| {
          assert init[i].name == name;
        }
      }
    }
  }

  /** Each name maps to the last option carrying it. */
  lemma {:induction false} OptionsMapLastWins(opts: seq<CommandOption>, i: int)
    requires 0 <= i < |opts|
    requires forall j :: i < j < |opts| ==> opts[j].name != opts[i].name
    ensures opts[i].name in OptionsMap(opts) && OptionsMap(opts)[opts[i].name] == opts[i]
  {
    var init := opts[..|opts| - 1];
    if i < |init| {
      assert init[i] == opts[i];
      forall j | i < j < |init| ensures init[j].name != init[i].name {
        assert init[j] == opts[j];
      }
      OptionsMapLastWins(init, i);
    }
  }

  /** The bot's `optionsToMap`. */
  method OptionsToMap(opts: seq<CommandOption>) returns (options: map<string, CommandOption>)
    ensures options == OptionsMap(opts)
    ensures forall name :: name in options <==> exists i :: 0 <= i < |opts| && opts[i].name == name
  {
    options := map[];
    for i := 0 to |opts|
      invariant options == OptionsMap(opts[..i])
    {
      assert opts[..i + 1][..i] == opts[..i];
      options := options[opts[i].name := opts[i]];
    }
    assert opts[..|opts|] == opts;
    forall name ensures name in options <==> exists i :: 0 <= i < |opts| && opts[i].name == name {
      OptionsMapKeys(opts, name);
    }
  }

  // ---------------------------------------------------------------------
  // The bot
  // ---------------------------------------------------------------------

  class Bot {
    const feeds: Feeds
    const articles: Articles
    const subscriptions: Subscriptions

    ghost predicate Valid()
      reads this, feeds, articles, subscriptions
    {
      feeds.Valid() && articles.Valid() && subscriptions.Valid()
    }

    constructor (feeds: Feeds, articles: Articles, subscriptions: Subscriptions)
      requires feeds.Valid() && articles.Valid() && subscriptions.Valid()
      ensures Valid()
      ensures this.feeds == feeds && this.articles == articles && this.subscriptions == subscriptions
    {
      this.feeds := feeds;
      this.articles := articles;
      this.subscriptions := subscriptions;
    }

    /** The bot's `refreshFeed`: offers each item to the articles table,
        skipping items without a published time, items published before
        `since` and items whose link does not parse; a refused insert
        (the article is already stored) is skipped too. Never fails. The
        items arrive already in the order its sort leaves them in. */
    method RefreshFeed(feedId: int, items: seq<Item>, since: Time) returns (err: Option<Error>)
      requires Valid()
      requires ItemsSorted(items)
      modifies articles
      ensures Valid() && err == None
      ensures articles.table == Ingest(old(articles.table), feedId, items, since)
    {
      for i := 0 to |items|
        invariant articles.Valid()
        invariant articles.table == Ingest(old(articles.table), feedId, items[..i], since)
      {
        assert items[..i + 1][..i] == items[..i];
        var item := items[i];
        if item.published.None? {
          continue;
        }
        if item.published.value < since {
          continue;
        }
        if item.link.None? {
          continue;
        }
        var created := articles.Create(feedId, item.title, item.link.value, item.published.value);
        if created.Err? && created.error == AlreadyExists {
          continue;
        }
      }
      assert items[..|items|] == items;
      err := None;
    }

    /** The bot's `RefreshFeeds`: every feed ready at `now` is fetched and
        handled as `CrawlStep` says; any per-feed failure moves on to the
        next feed, and the cycle itself never fails. */
    method RefreshFeeds(now: Time, fetch: string -> FetchResult) returns (err: Option<Error>)
      requires Valid()
      requires forall link :: fetch(link).Response? && fetch(link).body.Parsed? ==> ItemsSorted(fetch(link).body.items)
      modifies feeds, articles
      ensures Valid() && err == None
      ensures Stores(feeds.table, articles.table) ==
        Crawl(Stores(old(feeds.table), old(articles.table)), Ready(old(feeds.table.rows), now), now, fetch)
    {
      var ready := feeds.ListReady(now);
      if |ready| == 0 {
        return None;
      }
      ghost var start := Stores(feeds.table, articles.table);
      for i := 0 to |ready|
        invariant Valid()
        invariant Stores(feeds.table, articles.table) == Crawl(start, ready[..i], now, fetch)
      {
        assert ready[..i + 1][..i] == ready[..i];
        var feed := ready[i];
        var response := fetch(feed.link);
        if response.TransportFailure? {
          continue;
        }
        var notUntil := CalculateNotUntil(response.cacheControl, now);
        feed := feed.(notUntil := notUntil);
        var updateErr := feeds.Update(feed);
        if updateErr.Some? {
          continue;
        }
        if !response.body.Parsed? {
          continue;
        }
        // The store's Latest fails only with NotFound, so the source's
        // branch that logs any other error and ingests from the zero time
        // cannot be taken here.
        var latest := articles.Latest(feed.id);
        if latest.Err? {
          continue;
        }
        var _ := RefreshFeed(feed.id, response.body.items, latest.value.published);
      }
      assert ready[..|ready|] == ready;
      err := None;
    }

    /** The bot's `Update`: takes the pending notifications and delivers
        them in order as `Deliver` says. With nothing pending it returns
        at once. */
    method Update(admitted: nat -> bool, delivered: nat -> bool) returns (err: Option<Error>)
      requires Valid()
      modifies subscriptions
      ensures Valid()
      ensures var d := Deliver(old(subscriptions.table), Pending(old(subscriptions.table.rows), articles.table.rows), admitted, delivered);
        err == d.err && subscriptions.table == d.subs
    {
      var nots := subscriptions.PendingNotifications(articles.table.rows);
      if |nots| == 0 {
        return None;
      }
      ghost var start := subscriptions.table;
      var i := 0;
      while i < |nots|
        invariant 0 <= i <= |nots|
        invariant subscriptions.Valid()
        invariant Deliver(start, nots[..i], admitted, delivered) == Delivery(None, subscriptions.table)
      {
        assert nots[..i + 1][..i] == nots[..i];
        if !admitted(i) {
          DeliverStops(start, nots, admitted, delivered, i + 1);
          return Some(Canceled);
        }
        var n := nots[i];
        if !delivered(i) {
          i := i + 1;
          continue;
        }
        // The store's watermark update cannot fail, so the source's
        // logged-and-skipped failure has no counterpart here.
        var _ := subscriptions.UpdateLastPubDate(n.subscriptionId, n.pubDate);
        i := i + 1;
      }
      assert nots[..i] == nots;
      err := None;
    }

    /** The bot's `subscribe`. A link already stored is not fetched again:
        only the subscription is created, with the watermark
        `subscribedAt`. A new link is fetched: no response, a non-2xx
        status or a body that is not a feed fails with nothing stored;
        otherwise the feed is stored with the cool-down of its response,
        its items are ingested from the zero time, and the subscription is
        created. A subscription already present for the server and
        collection is not an error. */
    method Subscribe(link: string, serverId: string, channelId: string, collection: string,
                     subscribedAt: Time, fetchedAt: Time, fetch: FetchResult) returns (err: Option<Error>)
      requires Valid()
      requires fetch.Response? && 200 <= fetch.status < 300 ==> !fetch.body.Malformed?
      requires fetch.Response? && fetch.body.Parsed? ==> ItemsSorted(fetch.body.items)
      modifies feeds, articles, subscriptions
      ensures Valid()
      ensures HasLink(old(feeds.table.rows), link) ==>
        && err == None
        && feeds.table == old(feeds.table)
        && articles.table == old(articles.table)
        && subscriptions.table ==
             old(subscriptions.table).Insert(FindLink(old(feeds.table.rows), link).value.id,
                                             serverId, channelId, collection, subscribedAt)
      ensures !HasLink(old(feeds.table.rows), link) && !FetchedFeed(fetch) ==>
        && err == Some(if fetch.TransportFailure? then Transport
                       else if fetch.status < 200 || fetch.status >= 300 then HttpStatus(fetch.status)
                       else NotRssFeed)
        && feeds.table == old(feeds.table)
        && articles.table == old(articles.table)
        && subscriptions.table == old(subscriptions.table)
      ensures !HasLink(old(feeds.table.rows), link) && FetchedFeed(fetch) ==>
        var id := old(feeds.table.nextId);
        && err == None
        && feeds.table == FeedTable(old(feeds.table.rows) + [Feed(id, link, NotUntil(fetch.cacheControl, fetchedAt))], id + 1)
        && articles.table == Ingest(old(articles.table), id, fetch.body.items, ZeroTime)
        && subscriptions.table == old(subscriptions.table).Insert(id, serverId, channelId, collection, subscribedAt)
    {
      var existing := feeds.GetByLink(link);
      var feedId: int;
      if existing.Err? {
        if fetch.TransportFailure? {
          return Some(Transport);
        }
        if fetch.status < 200 || fetch.status >= 300 {
          return Some(HttpStatus(fetch.status));
        }
        if fetch.body.NotDetected? {
          return Some(NotRssFeed);
        }
        var notUntil := CalculateNotUntil(fetch.cacheControl, fetchedAt);
        // The link was just looked up and found absent, so the insert
        // cannot be refused.
        var created := feeds.Create(link, notUntil);
        feedId := created.value.id;
        var _ := RefreshFeed(feedId, fetch.body.items, ZeroTime);
      } else {
        feedId := existing.value.id;
      }
      // AlreadyExists from this insert counts as success, and the store
      // has no other way to fail it.
      var _ := subscriptions.Create(feedId, serverId, channelId, collection, subscribedAt);
      err := None;
    }

    /** The bot's `unsubscribe`: a collection the server does not have is
        NotFound and nothing is deleted; otherwise exactly the rows with
        the found subscription's id go, and the collection is gone. */
    method Unsubscribe(serverId: string, collection: string) returns (err: Option<Error>)
      requires Valid()
      modifies subscriptions
      ensures Valid()
      ensures !HasName(old(subscriptions.table.rows), serverId, collection) ==>
        err == Some(NotFound) && subscriptions.table == old(subscriptions.table)
      ensures HasName(old(subscriptions.table.rows), serverId, collection) ==>
        && err == None
        && subscriptions.table == SubscriptionTable(
             WithoutSubscription(old(subscriptions.table.rows),
                                 FindName(old(subscriptions.table.rows), serverId, collection).value.id),
             old(subscriptions.table.nextId))
        && !HasName(subscriptions.table.rows, serverId, collection)
    {
      var sub := subscriptions.GetByCollectionName(serverId, collection);
      if sub.Err? {
        return Some(sub.error);
      }
      DeleteThenNotFound(subscriptions.table, serverId, collection);
      err := subscriptions.Delete(sub.value.id);
    }
  }
}
