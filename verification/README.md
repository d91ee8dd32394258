# goose, modelled in Dafny

Goose is a Discord bot that polls feeds (RSS, Atom, JSON Feed) and tells
subscribed channels about new items. This project models its core and proves
properties of the model. The core is:

- the three store tables (`feeds`, `articles`, `subscriptions`);
- the bot's pipeline that runs over them: the crawl cycle with its
  `Cache-Control` cool-down, ingestion of parsed items, the delivery loop that
  advances subscription watermarks, and the subscribe, unsubscribe and test
  commands with the replies chosen from their outcomes;
- the TTL cache behind collection-name autocompletion.

Time is modelled as integer seconds. Go's zero `time.Time` is `ZeroTime = 0`.
Integers are unbounded. The only 64-bit limit the code relies on is the one
`strconv.ParseInt(s, 10, 64)` enforces, and `ParseInt64` models it.

Layout, one module per file:

| file | module | models |
|---|---|---|
| `common.dfy` | `Common`, `Seqs` | timestamps, the error taxonomy (`errors.go`), `Option`/`Result`, order-preserving filtering |
| `feeds.dfy` | `FeedStore` | `feeds.go`: class `Feeds` over a `FeedTable` |
| `articles.dfy` | `ArticleStore` | `articles.go`: class `Articles` over an `ArticleTable` |
| `subscriptions.dfy` | `SubscriptionStore` | `subscriptions.go`: class `Subscriptions`, and the pending-notifications join |
| `cache_control.dfy` | `CacheControl` | `calculateNotUntil` in `bot.go`, with Go's `strings.Split`, `strings.ToLower` and `strconv.ParseInt` |
| `bot.dfy` | `Goose` | the rest of `bot.go`: class `Bot` holding the three stores |
| `autocompletions.dfy` | `AutoComplete` | `autocompletions.go`: class `AutoCompletions` |

Each store is a class whose single field is a table value: its rows in storage
order and the next value of the id sequence. Each SQL statement is a method
that reassigns that field. Its `ensures` clause states the new table as a
function of the old one. The bot's loops (`refreshFeed`, `RefreshFeeds`,
`Update`, `calculateNotUntil`, `optionsToMap`, `PendingNotifications`) are
methods with loop invariants. Each is proved equal to a left fold over its
input (`Ingest`, `Crawl`, `Deliver`, `Scan`, `OptionsMap`, `Pending`). The
lemmas about those folds carry what the source promises.

The migrations that declare the tables' uniqueness constraints are not part of
this model. The keys chosen agree with the integration tests:

- a feed's link;
- an article's (feed id, link);
- a subscription's (server id, collection name).

A fully duplicated row is refused under each of these keys, as the tests
require.

The oracles:

- A fetch is a `FetchResult`: no response, or a status code, the
  `Cache-Control` values and the parser's verdict on the body.
- The rate gate and the message send in `Update` are the functions
  `admitted` and `delivered`, indexed by the notification's position.
- The autocomplete store is a function of (server id, input).
- The clock is a `now` parameter.

## Model

| member | source | states |
|---|---|---|
| Seqs.FilterMembers | feeds.go:41-65 | a `WHERE` selection keeps exactly the rows that satisfy its condition |
| FeedStore.FindLink | feeds.go:67-82 | the lookup by link succeeds exactly when some row holds the link, returns such a row, and otherwise fails with NotFound |
| FeedStore.ReplacedKeepsValid | feeds.go:84-91 | an update that moves no link onto another row's link keeps ids and links unique |
| FeedStore.WithoutFeedKeepsValid | feeds.go:93-100 | a delete keeps ids and links unique and every id below the sequence |
| FeedStore.FilterKeepsDistinct | feeds.go:41-65 | any selection of a table with unique ids and links again has unique ids and links |
| FeedStore.Feeds.Create | feeds.go:22-39 | a link already stored gives AlreadyExists and leaves the table unchanged; otherwise the returned feed has the next id, the given link and not_until, and is appended |
| FeedStore.Feeds.ListReady | feeds.go:41-65 | the list is exactly the rows with not_until <= asOf, in table order |
| FeedStore.Feeds.GetByLink | feeds.go:67-82 | the stored feed for a present link, NotFound for an absent one |
| FeedStore.Feeds.Update | feeds.go:84-91 | the row with the feed's id takes its link and not_until and no other row changes; when the id is stored and another row holds the link, the update is refused with the raw uniqueness error and the table is unchanged; an id no row holds matches nothing, gives no error and changes nothing |
| FeedStore.OwnLinkNotTaken | feeds.go:84-91 | with distinct links, updating a feed's own row under its own link never trips the uniqueness constraint |
| FeedStore.ReplacedAbsentId | feeds.go:84-91 | an update whose id no row holds leaves every row as it was |
| FeedStore.Feeds.Delete | feeds.go:93-100 | exactly the rows with that id go, the others keep their order, and an absent id is not an error |
| FeedStore.DeletedNotReady | postgres_integration_test.go:168-188 | after a delete, no ready feed at any moment has the deleted id |
| FeedStore.EmptyTableNothingReady | postgres_integration_test.go:46-56 | an empty table has no ready feeds |
| ArticleStore.ArticleInsertKeepsValid | articles.go:24-40 | inserting keeps ids and keys unique, and the key is stored afterwards |
| ArticleStore.LatestOf | articles.go:42-56 | the result belongs to the feed and no article of the feed is newer; NotFound exactly when the feed has no article |
| ArticleStore.LatestOfOtherFeeds | articles.go:42-56 | rows of other feeds added to the table do not change a feed's latest article |
| ArticleStore.Articles.Create | articles.go:24-40 | a stored (feed, link) gives AlreadyExists with the table unchanged; otherwise the returned article carries the next id and the given feed id, title, link and published time, and is appended |
| ArticleStore.Articles.Latest | articles.go:42-56 | the latest article of the feed from the current rows, never one of another feed, NotFound when there is none |
| SubscriptionStore.SubscriptionInsertKeepsValid | subscriptions.go:35-51 | inserting keeps ids and (server, collection) keys unique |
| SubscriptionStore.FindName | subscriptions.go:62-77 | the lookup succeeds exactly when a row matches both server id and collection name, returns such a row, and otherwise fails with NotFound |
| SubscriptionStore.NamesOfMembers | subscriptions.go:79-99 | the names listed for a server are exactly the collection names of its rows |
| SubscriptionStore.InsertByPubDateCounts | subscriptions.go:123 | inserting into the ordered result adds exactly that one notification |
| SubscriptionStore.InsertByPubDateSorted | subscriptions.go:123 | inserting into a pub_date-ordered list keeps it ordered |
| SubscriptionStore.SortByPubDateCounts | subscriptions.go:123 | `ORDER BY pub_date ASC` keeps every join row, each as often as it occurred |
| SubscriptionStore.SortByPubDateSorted | subscriptions.go:123 | `ORDER BY pub_date ASC` yields rows in non-decreasing pub_date order |
| SubscriptionStore.SortByPubDateSpec | subscriptions.go:123 | `ORDER BY pub_date ASC` yields a non-decreasing permutation of the join rows |
| SubscriptionStore.JoinOneMembers | subscriptions.go:120-122 | one subscription's join rows are exactly its feed's articles published after its watermark |
| SubscriptionStore.JoinAllMembers | subscriptions.go:110-122 | the join rows are exactly the (subscription, article) pairs of the same feed with the article strictly newer than the watermark |
| SubscriptionStore.PendingMembers | subscriptions.go:110-144 | a notification is pending exactly when it is such a pair |
| SubscriptionStore.PendingRespectsWatermark | subscriptions.go:122 | an article no newer than a subscription's watermark is never pending for it |
| SubscriptionStore.PendingOrderedPermutation | subscriptions.go:123 | the pending list is ordered by pub_date across the whole result and is a permutation of the join |
| SubscriptionStore.WithoutSubscriptionKeepsValid | subscriptions.go:101-108 | a delete keeps ids and keys unique |
| SubscriptionStore.DeleteThenNotFound | postgres_integration_test.go:249-257 | after deleting the row found for a (server, collection), looking it up again gives NotFound |
| SubscriptionStore.Subscriptions.Create | subscriptions.go:35-51 | a stored (server, collection) gives AlreadyExists with the table unchanged; otherwise the returned row has the next id and exactly the given fields, and is appended |
| SubscriptionStore.Subscriptions.UpdateLastPubDate | subscriptions.go:53-60 | only last_pub_date of the row with that id changes |
| SubscriptionStore.Subscriptions.GetByCollectionName | subscriptions.go:62-77 | the row matching server id and collection name, or NotFound |
| SubscriptionStore.Subscriptions.GetCollectionNames | subscriptions.go:79-99 | the names of the server's rows in table order, and exactly those |
| SubscriptionStore.Subscriptions.Delete | subscriptions.go:101-108 | exactly the rows with that id go, the rest keep their order, an absent id is not an error |
| SubscriptionStore.Subscriptions.PendingNotifications | subscriptions.go:110-144 | the result is the ordered join, is ordered by pub_date, and holds exactly the pending pairs |
| CacheControl.Split | bot.go:395 | `strings.Split` on one separator never yields an empty list |
| CacheControl.SplitPair | bot.go:395-399 | `key=value` with no other `=` splits into exactly those two parts |
| CacheControl.SplitCount | bot.go:395-398 | a value splits into one part more than it holds separators, so only values with exactly one `=` are looked at |
| CacheControl.ParseInt64 | bot.go:384-389 | a parsed number always fits 64 signed bits |
| CacheControl.NotANumber | bot.go:384-389 | text that starts with neither a sign nor a digit does not parse |
| CacheControl.Min | bot.go:377-382 | the smaller of the two arguments |
| CacheControl.CoolDown | bot.go:411-418 | the interval is in (0, 21600]; a positive max-age decides it, capped at 21600; else a positive s-max-age, capped; else 21600 |
| CacheControl.CalculateNotUntil | bot.go:376-421 | the loop computes `NotUntil` of the values, and the result lies in (now, now + 21600] |
| CacheControl.NoMaxAge | bot.go:391-403 | with no max-age value the max-age kept is 0 |
| CacheControl.LastMaxAgeWins | bot.go:394-403 | the max-age kept is the number of the last max-age value; a later value overwrites an earlier one |
| CacheControl.NoSMaxAge | bot.go:391-405 | with no `s-max-age` value the s-max-age kept is 0 |
| CacheControl.LastSMaxAgeWins | bot.go:394-405 | the s-max-age kept is the number of the last `s-max-age` value |
| CacheControl.IgnoredValue | bot.go:396-398 | a value that does not split into exactly two parts leaves the scan unchanged |
| CacheControl.MaxAgeTakesPrecedence | bot.go:412-416 | a positive max-age decides the interval whatever s-max-age holds |
| CacheControl.SingleMaxAge | bot.go:401-403 | a lone `max-age=n` value, with the key in any case, keeps n's number, or 21600 when n does not parse |
| CacheControl.StepSMaxAge | bot.go:404-405 | an `s-max-age=n` value sets only the s-max-age |
| CacheControl.MaxAge100 | bot.go:411-419 | `max-age=100` gives now + 100 |
| CacheControl.NoCacheControl | bot.go:411-419 | no `Cache-Control` value gives now + 21600 |
| CacheControl.MaxAgeCapped | bot.go:411-416 | `max-age=99999` gives now + 21600 |
| CacheControl.UnparseableMaxAge | bot.go:384-389 | `max-age=soon` gives now + 21600, not now |
| CacheControl.UpperCaseKey | bot.go:401 | `MAX-AGE=100` gives now + 100 |
| CacheControl.StandardSMaxAgeIgnored | bot.go:404 | the standard spelling `s-maxage=50` is not recognised and gives now + 21600 |
| CacheControl.DirectiveListIgnored | bot.go:395-398 | `max-age=100, s-max-age=50` in one value is ignored whole and gives now + 21600 |
| CacheControl.ZeroMaxAge | bot.go:401-403 | `max-age=0` keeps a max-age of 0 |
| CacheControl.SMaxAge50 | bot.go:404-405 | `s-max-age=50` keeps an s-max-age of 50 |
| CacheControl.SMaxAgeFallback | bot.go:412-416 | `max-age=0` then `s-max-age=50` gives now + 50 |
| Goose.IngestAppends | bot.go:319-350 | ingestion keeps every old article row in place and only appends |
| Goose.IngestKeepsValid | bot.go:319-350 | ingestion keeps article ids and keys unique |
| Goose.IngestOnlyEligible | bot.go:322-337 | every article added belongs to the feed, is published no earlier than `since`, and carries the title, link and time of an item with a published time not before `since` and a link that parses |
| Goose.IngestKeepsKeys | bot.go:337-340 | ingestion never loses a stored (feed, link) |
| Goose.IngestCovers | bot.go:322-340 | after ingestion every eligible item is stored, including one published exactly at `since` and one already stored |
| Goose.IngestNothingNew | bot.go:337-340 | when every eligible item is already stored, ingestion changes nothing |
| Goose.IngestIdempotent | bot.go:319-350 | ingesting the same items twice equals ingesting them once |
| Goose.IngestStoresEarliest | bot.go:320-340 | with the items in the order the sort leaves them, a row added for a link carries the earliest published time among the eligible items with that link |
| Goose.Refreshed | bot.go:284-287 | a feed row keeps its id and link through the cycle |
| Goose.CrawlSetsNotUntil | bot.go:270-292 | over distinct listed rows, the cycle rewrites exactly the not_until of the listed feeds whose fetch got a response, whatever the status and body, and nothing else |
| Goose.CrawlAppendsArticles | bot.go:293-313 | the cycle only appends to the articles table and keeps it valid |
| Goose.CrawlSkipsFeedWithoutArticles | bot.go:299-307 | a feed with no stored article gains no article from the cycle |
| Goose.CrawlAddsOnlyFromReady | bot.go:270-313 | every article the cycle adds belongs to a listed feed whose fetch got a parsed body and that had a latest article before the cycle; it is published no earlier than that article and carries an eligible item of the body |
| Goose.CrawlKeepsLatestOfUnlisted | bot.go:299-301 | partway through the cycle, a feed not yet processed still has the latest article it had before the cycle |
| Goose.CrawlNeverRefusesListed | bot.go:286-291 | partway through the cycle over a valid table, updating a stored feed's not_until is never refused |
| Goose.CrawlCovers | bot.go:293-313 | for a listed feed with a parsed body and a latest article, every item eligible against that article's published time is stored under the feed after the cycle |
| Goose.RefreshFeedsRows | bot.go:255-317 | for the feeds ready at `now`: a row not yet due is unchanged; a due row whose fetch got a response takes now + that response's cool-down; ids, links, row count and sequence stay |
| Goose.Bot.RefreshFeed | bot.go:319-350 | given the items in the order the sort leaves them, the articles table becomes `Ingest` of the items, and the call returns nil |
| Goose.Bot.RefreshFeeds | bot.go:255-317 | both tables become the `Crawl` of the feeds ready at `now`, and the cycle returns nil |
| Goose.DeliverStops | bot.go:230-234 | after the rate gate refuses, later notifications change nothing |
| Goose.DeliverFailsOnlyWhenRefused | bot.go:230-234 | delivery fails exactly when the gate refuses some notification, and then with Canceled |
| Goose.DeliverOnlyAdvancesSent | bot.go:236-249 | only watermarks change, and a moved watermark holds the pub_date of an admitted and sent notification for that subscription |
| Goose.FailedSendNotRetried | bot.go:230-250 | a failed send followed by a sent notification of the same subscription leaves the watermark at the later pub_date, past the failed one |
| Goose.DeliverLastSent | bot.go:236-249 | with the gate admitting every notification up to it, a watermark ends at the pub_date of the last notification for that subscription that was sent |
| Goose.Bot.Update | bot.go:218-253 | the subscriptions table and the error are those of `Deliver` over the pending notifications |
| Goose.SubscribeAgainNoChange | bot.go:123-129 | a second subscription of the same (server, collection) leaves the table as the first left it |
| Goose.Bot.Subscribe | bot.go:80-130 | a stored link: no fetch, no new feed, the subscription created with watermark `subscribedAt`, nil; no response, a non-2xx status or a body that is not a feed: that error and nothing stored; otherwise the feed is stored with its cool-down, its items ingested from the zero time, the subscription created, nil |
| Goose.Bot.Unsubscribe | bot.go:158-165 | an unknown collection gives NotFound and deletes nothing; otherwise the found id's rows go and the collection is gone |
| Goose.Test | bot.go:201-216 | NotFound exactly when the collection is unknown; EmptyFeed exactly when its feed has no article; otherwise the link of a latest article of that feed |
| Goose.SubscribeReply | bot.go:54-77 | each outcome's reply, both ways: 401, 403, 404, 500 and above, and any other status each have their own reply |
| Goose.LinkCheckCases | bot.go:39-46 | `http`, `https` and any scheme containing `http` pass the link check; `ftp` and an unparseable link do not |
| Goose.ShortSchemeRejected | bot.go:40 | a scheme shorter than `http` never passes |
| Goose.OptionsMapKeys | bot.go:368-374 | the map's keys are exactly the option names |
| Goose.OptionsMapLastWins | bot.go:370-372 | each name maps to the last option carrying it |
| Goose.OptionsToMap | bot.go:368-374 | the loop builds `OptionsMap` of the options, keyed by exactly their names |
| AutoComplete.Fingerprint | autocompletions.go:25 | the key is the server id followed by the input, nothing between |
| AutoComplete.Expire | autocompletions.go:27-33 | past `expires`, the map is emptied and `expires` becomes now + 15; otherwise nothing changes; afterwards now <= expires |
| AutoComplete.CompleteLeavesLive | autocompletions.go:27-33 | after any lookup, now <= expires |
| AutoComplete.ExpiredCacheCleared | autocompletions.go:28-33 | a lookup on an expired cache leaves at most its own entry and expires at now + 15 |
| AutoComplete.HitIgnoresStore | autocompletions.go:35-47 | a hit returns the cached list, leaves the cache as the expiry check left it, and does not depend on the store |
| AutoComplete.MissAsksStore | autocompletions.go:35-45 | a miss returns the store's answer, stores a success under the fingerprint, and adds no entry on failure |
| AutoComplete.SharedFingerprint | autocompletions.go:25 | two requests whose server id and input concatenate equally share one entry |
| AutoComplete.AutoCompletions.CollectionNames | autocompletions.go:21-48 | the answer and new state are those of `Complete`, and now <= expires afterwards |

## Left out

- Database driver errors: every store method fails only with the domain
  signals the code translates or returns: NotFound, AlreadyExists, and the raw
  uniqueness violation of `Feeds.Update`. The error-propagating branches for
  other driver errors are therefore not modelled. That includes `RefreshFeeds`
  falling back to the zero time when `Latest` fails with something other than
  NotFound, and the logged failure of `UpdateLastPubDate` in `Update`.
- The crash paths of `subscribe` are required away:
  - a `GetByLink` error other than NotFound cannot occur in this model;
  - a 2xx body that fails to parse for a reason other than "not a feed" is
    excluded by `Subscribe`'s precondition.
- `Goose.Bot.Subscribe` ignores the result of the feed insert after the link
  was found absent. The source handles a feed inserted between the lookup and
  the insert, which needs concurrency; the model is sequential.
- `sort.Sort(feedContents)` and the gofeed parser: the parser's items arrive
  as an oracle. The sort is not computed. Instead, `Goose.Bot.RefreshFeed`
  requires its items to be in the sorted order (`ItemsSorted`), and
  `RefreshFeeds` and `Subscribe` require it of every parsed body. The order
  decides which row is stored when several eligible items share a link: the
  first one offered wins its title and published time, and under the sorted
  order that is the earliest (`IngestStoresEarliest`). Among equal published
  times the sort leaves the order open, and so does the model.
- The order of pending notifications with equal pub_date: SQL leaves it open.
  The model keeps join order among equal dates, and the proved properties
  (ordered, permutation, membership) hold for every tie order.
- HTTP, `http.NewRequest`, `url.Parse`, Discord messages and interaction
  responses, and the rate limiter's timing are all oracles. A failed request
  construction counts as `TransportFailure`. The reply texts are reduced to
  the `Reply` categories.
- The `Subscribe`, `Unsubscribe` and `Test` interaction handlers are modelled
  only as the link check, the reply choice, `optionsToMap`, and the commands'
  own logic (`subscribe`, `unsubscribe`, `test`).
- `CacheControl.Lower`: lower-cases ASCII letters only. Go's
  `strings.ToLower` also maps non-ASCII letters, but none of them lower-cases
  to a letter of `max-age` or `s-max-age`, so which values match is the same.
- `ErrHTTP.Error` text, logging, the mutexes and concurrent handlers, time
  zones, main.go and commands.go.
- `AutoComplete.HitIgnoresStore`: "does not call the store" is stated as "the
  answer and the new state do not depend on the store", since a function
  parameter cannot record calls.
- The autocompletion haystack and `GetCollectionNameAutocompletionsForServer`
  are not part of this model; the store lookup is an oracle.

## Differences from the documented behaviour

The model follows the code where the documentation differs:

- The `s-maxage` directive of section 5.2.2.10 of RFC 9111 is matched only as
  `s-max-age`.
- Each whole header value is split on `=`, so a comma-separated directive list
  is ignored.
- A directive number that does not parse counts as 21600 seconds, not as
  absent.
- `subscribe` swallows AlreadyExists from the subscription insert. Subscribing
  twice therefore succeeds and leaves one row.
- A feed whose articles table holds nothing for it is skipped by the crawl
  cycle, not ingested from the zero time.
- A notification whose send fails is not retried once a later notification
  of the same subscription is sent. The pending list is in ascending
  pub_date order, so the later send moves the watermark past the failed
  item (`FailedSendNotRetried`).
