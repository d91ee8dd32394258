/** The subscriptions table: one row per (server, collection name), each
    bound to a feed and carrying the `last_pub_date` watermark up to which
    the subscription has been notified. Also the join that yields the
    pending notifications. */
module SubscriptionStore {
  import opened Common
  import opened Seqs
  import opened ArticleStore

  datatype Subscription = Subscription(
    id: int, feedId: int, serverId: string, channelId: string,
    collectionName: string, lastPubDate: Time)

  /** One row of the pending-notifications join. */
  datatype Notification = Notification(
    subscriptionId: int, serverId: string, channelId: string, collectionName: string,
    articleId: int, title: string, link: string, pubDate: Time)

  /** The uniqueness key of a subscription: its server and collection name. */
  predicate SameName(s: Subscription, serverId: string, name: string) {
    s.serverId == serverId && s.collectionName == name
  }

  predicate HasName(rows: seq<Subscription>, serverId: string, name: string) {
    exists i :: 0 <= i < |rows| && SameName(rows[i], serverId, name)
  }

  /** The rows in storage order and the next value of the id sequence. */
  datatype SubscriptionTable = SubscriptionTable(rows: seq<Subscription>, nextId: int) {

    /** Ids are unique and below the sequence; keys are unique. */
    ghost predicate Valid() {
      && (forall i :: 0 <= i < |rows| ==> rows[i].id < nextId)
      && (forall i, j :: 0 <= i < j < |rows| ==> rows[i].id != rows[j].id)
      && (forall i, j :: 0 <= i < j < |rows| ==>
            !SameName(rows[j], rows[i].serverId, rows[i].collectionName))
    }

    /** The table after `INSERT INTO subscriptions (...)`: unchanged when
        the key is already stored, otherwise one new row at the end. */
    function Insert(feedId: int, serverId: string, channelId: string, name: string, lastPubDate: Time): (t: SubscriptionTable)
      ensures HasName(rows, serverId, name) ==> t == this
      ensures !HasName(rows, serverId, name) ==>
        t == SubscriptionTable(rows + [Subscription(nextId, feedId, serverId, channelId, name, lastPubDate)], nextId + 1)
    {
      if HasName(rows, serverId, name) then this
      else SubscriptionTable(rows + [Subscription(nextId, feedId, serverId, channelId, name, lastPubDate)], nextId + 1)
    }
  }

  lemma SubscriptionInsertKeepsValid(t: SubscriptionTable, feedId: int, serverId: string, channelId: string, name: string, lastPubDate: Time)
    requires t.Valid()
    ensures t.Insert(feedId, serverId, channelId, name, lastPubDate).Valid()
  {
  }

  /** `UPDATE subscriptions SET last_pub_date = $2 WHERE id = $1`, as the
      rows after it. */
  function WithWatermark(rows: seq<Subscription>, id: int, lastPubDate: Time): (r: seq<Subscription>)
    ensures |r| == |rows|
    ensures forall i :: 0 <= i < |rows| ==>
      r[i] == (if rows[i].id == id then rows[i].(lastPubDate := lastPubDate) else rows[i])
  {
    seq(|rows|, i requires 0 <= i < |rows| =>
      if rows[i].id == id then rows[i].(lastPubDate := lastPubDate) else rows[i])
  }

  /** `DELETE FROM subscriptions WHERE id = $1`, as the rows that survive. */
  function WithoutSubscription(rows: seq<Subscription>, id: int): seq<Subscription> {
    Filter(rows, (s: Subscription) => s.id != id)
  }

  /** The row with that server and collection name, or NotFound. */
  function FindName(rows: seq<Subscription>, serverId: string, name: string): (r: Result<Subscription>)
    ensures r.Ok? <==> HasName(rows, serverId, name)
    ensures r.Ok? ==> r.value in rows && SameName(r.value, serverId, name)
    ensures r.Err? ==> r.error == NotFound
  {
    if rows == [] then Err(NotFound)
    else if SameName(rows[0], serverId, name) then Ok(rows[0])
    else
      var r := FindName(rows[1..], serverId, name);
      assert HasName(rows, serverId, name) ==> HasName(rows[1..], serverId, name) by {
        if HasName(rows, serverId, name) {
          var i :| 0 <= i < |rows| && SameName(rows[i], serverId, name);
          assert rows[1..][i - 1] == rows[i];
        }
      }
      r
  }

  /** `SELECT collection_name ... WHERE server_id = $1`, in storage order. */
  function NamesOf(rows: seq<Subscription>, serverId: string): seq<string> {
    if rows == [] then []
    else
      var last := rows[|rows| - 1];
      NamesOf(rows[..|rows| - 1], serverId) + (if last.serverId == serverId then [last.collectionName] else [])
  }

  /** The collection names listed for a server are exactly those of its rows. */
  lemma {:induction false} NamesOfMembers(rows: seq<Subscription>, serverId: string, name: string)
    ensures name in NamesOf(rows, serverId) <==>
      exists i :: 0 <= i < |rows| && SameName(rows[i], serverId, name)
  {
    if rows != [] {
      var init := rows[..|rows| - 1];
      NamesOfMembers(init, serverId, name);
      if name in NamesOf(init, serverId) {
        var i :| 0 <= i < |init| && SameName(init[i], serverId, name);
        assert rows[i] == init[i];
      }
      if exists i :: 0 <= i < |rows| && SameName(rows[i], serverId, name) {
        var i :| 0 <= i < |rows| && SameName(rows[i], serverId, name);
        if i < |init| { assert init[i] == rows[i]; }
      }
    }
  }

  // ---------------------------------------------------------------------
  // The pending-notifications join
  // ---------------------------------------------------------------------

  /** The join condition: same feed, article strictly newer than the
      subscription's watermark. */
  predicate Joins(s: Subscription, a: Article) {
    s.feedId == a.feedId && a.published > s.lastPubDate
  }

  function Join(s: Subscription, a: Article): Notification {
    Notification(s.id, s.serverId, s.channelId, s.collectionName, a.id, a.title, a.link, a.published)
  }

  /** The join rows contributed by one subscription, in article order. */
  function JoinOne(s: Subscription, arts: seq<Article>): seq<Notification> {
    if arts == [] then []
    else
      var a := arts[|arts| - 1];
      JoinOne(s, arts[..|arts| - 1]) + (if Joins(s, a) then [Join(s, a)] else [])
  }

  /** The unordered join: one row per joining (subscription, article) pair,
      subscription by subscription. */
  function JoinAll(subs: seq<Subscription>, arts: seq<Article>): seq<Notification> {
    if subs == [] then []
    else JoinAll(subs[..|subs| - 1], arts) + JoinOne(subs[|subs| - 1], arts)
  }

  ghost predicate Sorted(ns: seq<Notification>) {
    forall i, j :: 0 <= i < j < |ns| ==> ns[i].pubDate <= ns[j].pubDate
  }

  /** Places `n` after every row whose pub_date is not later than its own. */
  function InsertByPubDate(ns: seq<Notification>, n: Notification): seq<Notification> {
    if ns == [] || n.pubDate < ns[0].pubDate then [n] + ns
    else [ns[0]] + InsertByPubDate(ns[1..], n)
  }

  lemma {:induction false} InsertByPubDateCounts(ns: seq<Notification>, n: Notification)
    ensures multiset(InsertByPubDate(ns, n)) == multiset(ns) + multiset{n}
  {
    if ns != [] && n.pubDate >= ns[0].pubDate {
      InsertByPubDateCounts(ns[1..], n);
      assert ns == [ns[0]] + ns[1..];
    }
  }

  lemma {:induction false} InsertByPubDateSorted(ns: seq<Notification>, n: Notification)
    requires Sorted(ns)
    ensures Sorted(InsertByPubDate(ns, n))
  {
    if ns != [] && n.pubDate >= ns[0].pubDate {
      var rest := InsertByPubDate(ns[1..], n);
      InsertByPubDateSorted(ns[1..], n);
      InsertByPubDateCounts(ns[1..], n);
      forall x | x in rest ensures ns[0].pubDate <= x.pubDate {
        assert x in multiset(rest);
        if x != n {
          var k :| 0 <= k < |ns[1..]| && ns[1..][k] == x;
          assert ns[k + 1] == x;
        }
      }
      SortedCons(ns[0], rest);
    }
  }

  lemma SortedCons(head: Notification, rest: seq<Notification>)
    requires Sorted(rest)
    requires forall x :: x in rest ==> head.pubDate <= x.pubDate
    ensures Sorted([head] + rest)
  {
    var r := [head] + rest;
    forall i, j | 0 <= i < j < |r| ensures r[i].pubDate <= r[j].pubDate {
      assert r[j] == rest[j - 1];
      if i > 0 { assert r[i] == rest[i - 1]; }
    }
  }

  /** `ORDER BY articles.pub_date ASC` over the whole join. */
  function SortByPubDate(ns: seq<Notification>): seq<Notification> {
    if ns == [] then []
    else InsertByPubDate(SortByPubDate(ns[..|ns| - 1]), ns[|ns| - 1])
  }

  /** Sorting keeps every row, each as often as it occurred. */
  lemma {:induction false} SortByPubDateCounts(ns: seq<Notification>)
    ensures multiset(SortByPubDate(ns)) == multiset(ns)
  {
    if ns != [] {
      var init, last := ns[..|ns| - 1], ns[|ns| - 1];
      SortByPubDateCounts(init);
      InsertByPubDateCounts(SortByPubDate(init), last);
      assert ns == init + [last];
    }
  }

  /** Sorting yields rows in non-decreasing pub_date order. */
  lemma {:induction false} SortByPubDateSorted(ns: seq<Notification>)
    ensures Sorted(SortByPubDate(ns))
  {
    if ns != [] {
      var init, last := ns[..|ns| - 1], ns[|ns| - 1];
      SortByPubDateSorted(init);
      InsertByPubDateSorted(SortByPubDate(init), last);
    }
  }

  /** Sorting yields a non-decreasing permutation of its input. */
  lemma SortByPubDateSpec(ns: seq<Notification>)
    ensures multiset(SortByPubDate(ns)) == multiset(ns)
    ensures Sorted(SortByPubDate(ns))
  {
    SortByPubDateCounts(ns);
    SortByPubDateSorted(ns);
  }

  /** The result of the pending-notifications query. */
  function Pending(subs: seq<Subscription>, arts: seq<Article>): seq<Notification> {
    SortByPubDate(JoinAll(subs, arts))
  }

  /** A notification is pending when it joins some subscription row with
      some article row of the same feed newer than the row's watermark. */
  ghost predicate IsPending(subs: seq<Subscription>, arts: seq<Article>, n: Notification) {
    exists i, j :: 0 <= i < |subs| && 0 <= j < |arts| && Joins(subs[i], arts[j]) && n == Join(subs[i], arts[j])
  }

  lemma {:induction false} JoinOneMembers(s: Subscription, arts: seq<Article>, n: Notification)
    ensures n in JoinOne(s, arts) <==> exists j :: 0 <= j < |arts| && Joins(s, arts[j]) && n == Join(s, arts[j])
  {
    if arts != [] {
      var init := arts[..|arts| - 1];
      JoinOneMembers(s, init, n);
      if n in JoinOne(s, init) {
        var j :| 0 <= j < |init| && Joins(s, init[j]) && n == Join(s, init[j]);
        assert arts[j] == init[j];
      }
      if exists j :: 0 <= j < |arts| && Joins(s, arts[j]) && n == Join(s, arts[j]) {
        var j :| 0 <= j < |arts| && Joins(s, arts[j]) && n == Join(s, arts[j]);
        if j < |init| { assert init[j] == arts[j]; }
      }
    }
  }

  lemma {:induction false} JoinAllMembers(subs: seq<Subscription>, arts: seq<Article>, n: Notification)
    ensures n in JoinAll(subs, arts) <==> IsPending(subs, arts, n)
  {
    if subs != [] {
      var init := subs[..|subs| - 1];
      var last := subs[|subs| - 1];
      JoinAllMembers(init, arts, n);
      JoinOneMembers(last, arts, n);
      if IsPending(init, arts, n) {
        var i, j :| 0 <= i < |init| && 0 <= j < |arts| && Joins(init[i], arts[j]) && n == Join(init[i], arts[j]);
        assert subs[i] == init[i];
      }
      if n in JoinOne(last, arts) {
        var j :| 0 <= j < |arts| && Joins(last, arts[j]) && n == Join(last, arts[j]);
        assert subs[|subs| - 1] == last;
      }
      if IsPending(subs, arts, n) {
        var i, j :| 0 <= i < |subs| && 0 <= j < |arts| && Joins(subs[i], arts[j]) && n == Join(subs[i], arts[j]);
        if i < |init| { assert init[i] == subs[i]; }
      }
    }
  }

  /** Every pending entry pairs a subscription with an article of its feed
      published strictly after the subscription's watermark, and every such
      pair is pending. */
  lemma PendingMembers(subs: seq<Subscription>, arts: seq<Article>, n: Notification)
    ensures n in Pending(subs, arts) <==> IsPending(subs, arts, n)
  {
    var all := JoinAll(subs, arts);
    SortByPubDateSpec(all);
    assert n in Pending(subs, arts) <==> n in multiset(all);
    JoinAllMembers(subs, arts, n);
  }

  /** An article no newer than a subscription's watermark is never pending
      for that subscription. */
  lemma PendingRespectsWatermark(subs: seq<Subscription>, arts: seq<Article>, i: nat, a: Article)
    requires i < |subs| && a in arts && a.published <= subs[i].lastPubDate
    requires forall k :: 0 <= k < |subs| && k != i ==> subs[k].id != subs[i].id
    ensures Join(subs[i], a) !in Pending(subs, arts)
  {
    PendingMembers(subs, arts, Join(subs[i], a));
  }

  /** The pending entries come in non-decreasing pub_date order across the
      whole result, and each join row appears exactly as often as the join
      produces it. */
  lemma PendingOrderedPermutation(subs: seq<Subscription>, arts: seq<Article>)
    ensures Sorted(Pending(subs, arts))
    ensures multiset(Pending(subs, arts)) == multiset(JoinAll(subs, arts))
  {
    SortByPubDateSpec(JoinAll(subs, arts));
  }

  /** The subscriptions table, mutated by subscribe, unsubscribe and the
      notifier's watermark advance. */
  class Subscriptions {
    var table: SubscriptionTable

    ghost predicate Valid()
      reads this
    {
      table.Valid()
    }

    constructor ()
      ensures Valid() && table.rows == []
    {
      table := SubscriptionTable([], 1);
    }

    /** `INSERT INTO subscriptions (...)`: a (server, collection name) already
        stored is rejected as AlreadyExists and the table is unchanged;
        otherwise the returned row carries the next id and exactly the given
        fields. */
    method Create(feedId: int, serverId: string, channelId: string, name: string, lastPubDate: Time)
      returns (r: Result<Subscription>)
      requires Valid()
      modifies this
      ensures Valid()
      ensures table == old(table).Insert(feedId, serverId, channelId, name, lastPubDate)
      ensures HasName(old(table.rows), serverId, name) ==> r == Err(AlreadyExists) && table == old(table)
      ensures !HasName(old(table.rows), serverId, name) ==>
        && r == Ok(Subscription(old(table.nextId), feedId, serverId, channelId, name, lastPubDate))
        && table.rows == old(table.rows) + [r.value]
    {
      SubscriptionInsertKeepsValid(table, feedId, serverId, channelId, name, lastPubDate);
      if HasName(table.rows, serverId, name) {
        return Err(AlreadyExists);
      }
      var created := Subscription(table.nextId, feedId, serverId, channelId, name, lastPubDate);
      table := table.Insert(feedId, serverId, channelId, name, lastPubDate);
      r := Ok(created);
    }

    /** Only the watermark of the row with that id changes. */
    method UpdateLastPubDate(id: int, lastPubDate: Time) returns (err: Option<Error>)
      requires Valid()
      modifies this
      ensures Valid() && err == None
      ensures table == SubscriptionTable(WithWatermark(old(table.rows), id, lastPubDate), old(table.nextId))
    {
      table := SubscriptionTable(WithWatermark(table.rows, id, lastPubDate), table.nextId);
      err := None;
    }

    /** `SELECT ... WHERE server_id = $1 AND collection_name = $2`. */
    function GetByCollectionName(serverId: string, name: string): (r: Result<Subscription>)
      reads this
      ensures r.Ok? <==> HasName(table.rows, serverId, name)
      ensures r.Ok? ==> r.value in table.rows && SameName(r.value, serverId, name)
      ensures r.Err? ==> r.error == NotFound
    {
      FindName(table.rows, serverId, name)
    }

    /** The collection names of the server's rows, appended row by row. */
    method GetCollectionNames(serverId: string) returns (names: seq<string>)
      ensures names == NamesOf(table.rows, serverId)
      ensures forall c :: c in names <==>
        exists i :: 0 <= i < |table.rows| && SameName(table.rows[i], serverId, c)
    {
      names := [];
      var i := 0;
      while i < |table.rows|
        invariant 0 <= i <= |table.rows|
        invariant names == NamesOf(table.rows[..i], serverId)
      {
        assert table.rows[..i + 1][..i] == table.rows[..i];
        if table.rows[i].serverId == serverId {
          names := names + [table.rows[i].collectionName];
        }
        i := i + 1;
      }
      assert table.rows[..i] == table.rows;
      forall c ensures c in names <==>
        exists i :: 0 <= i < |table.rows| && SameName(table.rows[i], serverId, c)
      {
        NamesOfMembers(table.rows, serverId, c);
      }
    }

    /** `DELETE FROM subscriptions WHERE id = $1`: exactly the rows with that
        id go; an absent id is not an error. */
    method Delete(id: int) returns (err: Option<Error>)
      requires Valid()
      modifies this
      ensures Valid() && err == None
      ensures table == SubscriptionTable(WithoutSubscription(old(table.rows), id), old(table.nextId))
      ensures forall s :: s in table.rows <==> s in old(table.rows) && s.id != id
    {
      ghost var before := table.rows;
      WithoutSubscriptionKeepsValid(table, id);
      table := SubscriptionTable(WithoutSubscription(table.rows, id), table.nextId);
      forall s ensures s in table.rows <==> s in before && s.id != id {
        FilterMembers(before, (s: Subscription) => s.id != id, s);
      }
      err := None;
    }

    /** The join of this table with the articles table on feed id, keeping
        articles newer than each row's watermark, ordered by pub_date. */
    method PendingNotifications(arts: seq<Article>) returns (r: seq<Notification>)
      ensures r == Pending(table.rows, arts)
      ensures Sorted(r)
      ensures forall n :: n in r <==> IsPending(table.rows, arts, n)
    {
      var subs := table.rows;
      r := [];
      var i := 0;
      while i < |subs|
        invariant 0 <= i <= |subs|
        invariant r == SortByPubDate(JoinAll(subs[..i], arts))
      {
        var s := subs[i];
        ghost var before := JoinAll(subs[..i], arts);
        var j := 0;
        assert arts[..0] == [];
        assert before + JoinOne(s, arts[..0]) == before;
        while j < |arts|
          invariant 0 <= j <= |arts|
          invariant r == SortByPubDate(before + JoinOne(s, arts[..j]))
        {
          JoinOneSnoc(s, arts, j);
          if Joins(s, arts[j]) {
            ghost var done := before + JoinOne(s, arts[..j]);
            SortSnoc(done, Join(s, arts[j]));
            assert before + JoinOne(s, arts[..j + 1]) == done + [Join(s, arts[j])];
            r := InsertByPubDate(r, Join(s, arts[j]));
          } else {
            assert JoinOne(s, arts[..j + 1]) == JoinOne(s, arts[..j]) + [];
            assert JoinOne(s, arts[..j + 1]) == JoinOne(s, arts[..j]);
          }
          j := j + 1;
        }
        assert arts[..j] == arts;
        JoinAllSnoc(subs, arts, i);
        i := i + 1;
      }
      assert subs[..i] == subs;
      PendingOrderedPermutation(subs, arts);
      forall n ensures n in r <==> IsPending(subs, arts, n) {
        PendingMembers(subs, arts, n);
      }
    }
  }

  lemma JoinOneSnoc(s: Subscription, arts: seq<Article>, j: nat)
    requires j < |arts|
    ensures JoinOne(s, arts[..j + 1]) ==
      JoinOne(s, arts[..j]) + (if Joins(s, arts[j]) then [Join(s, arts[j])] else [])
  {
    assert arts[..j + 1][..j] == arts[..j];
  }

  lemma JoinAllSnoc(subs: seq<Subscription>, arts: seq<Article>, i: nat)
    requires i < |subs|
    ensures JoinAll(subs[..i + 1], arts) == JoinAll(subs[..i], arts) + JoinOne(subs[i], arts)
  {
    assert subs[..i + 1][..i] == subs[..i];
  }

  lemma SortSnoc(ns: seq<Notification>, n: Notification)
    ensures SortByPubDate(ns + [n]) == InsertByPubDate(SortByPubDate(ns), n)
  {
    assert (ns + [n])[..|ns|] == ns;
  }

  lemma WithoutSubscriptionKeepsValid(t: SubscriptionTable, id: int)
    requires t.Valid()
    ensures SubscriptionTable(WithoutSubscription(t.rows, id), t.nextId).Valid()
  {
    var p := (s: Subscription) => s.id != id;
    var r := WithoutSubscription(t.rows, id);
    forall i | 0 <= i < |r| ensures r[i].id < t.nextId {
      FilterMembers(t.rows, p, r[i]);
    }
    FilterKeepsKeys(t.rows, p);
    assert r == Filter(t.rows, p);
  }

  /** Filtering a table keeps its ids and its keys distinct. */
  lemma {:induction false} FilterKeepsKeys(rows: seq<Subscription>, p: Subscription -> bool)
    requires forall i, j :: 0 <= i < j < |rows| ==> rows[i].id != rows[j].id
    requires forall i, j :: 0 <= i < j < |rows| ==> !SameName(rows[j], rows[i].serverId, rows[i].collectionName)
    ensures var r := Filter(rows, p);
      && (forall i, j :: 0 <= i < j < |r| ==> r[i].id != r[j].id)
      && (forall i, j :: 0 <= i < j < |r| ==> !SameName(r[j], r[i].serverId, r[i].collectionName))
  {
    if rows != [] {
      var init := rows[..|rows| - 1];
      var last := rows[|rows| - 1];
      FilterKeepsKeys(init, p);
      var r0 := Filter(init, p);
      forall k | 0 <= k < |r0| ensures r0[k].id != last.id && !SameName(last, r0[k].serverId, r0[k].collectionName) {
        FilterMembers(init, p, r0[k]);
      }
    }
  }

  /** After deleting the row found for a (server, collection name), looking
      that name up again yields NotFound. */
  lemma DeleteThenNotFound(t: SubscriptionTable, serverId: string, name: string)
    requires t.Valid()
    requires FindName(t.rows, serverId, name).Ok?
    ensures var id := FindName(t.rows, serverId, name).value.id;
      FindName(WithoutSubscription(t.rows, id), serverId, name) == Err(NotFound)
  {
    var found := FindName(t.rows, serverId, name).value;
    var rest := WithoutSubscription(t.rows, found.id);
    if HasName(rest, serverId, name) {
      var k :| 0 <= k < |rest| && SameName(rest[k], serverId, name);
      FilterMembers(t.rows, (s: Subscription) => s.id != found.id, rest[k]);
      assert false;
    }
  }
}
