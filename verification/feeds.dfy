/** The feeds table: one row per distinct feed link, each carrying the
    `not_until` moment before which the crawler leaves the feed alone. */
module FeedStore {
  import opened Common
  import opened Seqs

  datatype Feed = Feed(id: int, link: string, notUntil: Time)

  /** The rows in storage order and the next value of the id sequence. */
  datatype FeedTable = FeedTable(rows: seq<Feed>, nextId: int) {

    /** Ids are unique and below the sequence; the link column is unique. */
    ghost predicate Valid() {
      && (forall i :: 0 <= i < |rows| ==> rows[i].id < nextId)
      && (forall i, j :: 0 <= i < j < |rows| ==> rows[i].id != rows[j].id)
      && (forall i, j :: 0 <= i < j < |rows| ==> rows[i].link != rows[j].link)
    }
  }

  predicate HasLink(rows: seq<Feed>, link: string) {
    exists i :: 0 <= i < |rows| && rows[i].link == link
  }

  /** `WHERE not_until <= asOf`. */
  function Ready(rows: seq<Feed>, asOf: Time): seq<Feed> {
    Filter(rows, (f: Feed) => f.notUntil <= asOf)
  }

  /** `DELETE ... WHERE id = $1`, as the rows that survive it. */
  function WithoutFeed(rows: seq<Feed>, id: int): seq<Feed> {
    Filter(rows, (f: Feed) => f.id != id)
  }

  /** `UPDATE feeds SET link, not_until WHERE id`, as the rows after it. */
  function Replaced(rows: seq<Feed>, feed: Feed): (r: seq<Feed>)
    ensures |r| == |rows|
    ensures forall i :: 0 <= i < |rows| ==> r[i] == (if rows[i].id == feed.id then feed else rows[i])
  {
    seq(|rows|, i requires 0 <= i < |rows| => if rows[i].id == feed.id then feed else rows[i])
  }

  predicate HasId(rows: seq<Feed>, id: int) {
    exists i :: 0 <= i < |rows| && rows[i].id == id
  }

  /** True when a row with `id` exists and some other row already holds
      `link`: the only way the update can hit the link's uniqueness
      constraint. An update whose id no row holds matches nothing and so
      never reaches the constraint. */
  predicate LinkTakenByOther(rows: seq<Feed>, id: int, link: string) {
    && HasId(rows, id)
    && exists i :: 0 <= i < |rows| && rows[i].id != id && rows[i].link == link
  }

  /** The row holding `link`, or NotFound. */
  function FindLink(rows: seq<Feed>, link: string): (r: Result<Feed>)
    ensures r.Ok? <==> HasLink(rows, link)
    ensures r.Ok? ==> r.value in rows && r.value.link == link
    ensures r.Err? ==> r.error == NotFound
  {
    if rows == [] then Err(NotFound)
    else if rows[0].link == link then Ok(rows[0])
    else
      var r := FindLink(rows[1..], link);
      assert HasLink(rows, link) ==> rows[0].link == link || HasLink(rows[1..], link) by {
        if HasLink(rows, link) {
          var i :| 0 <= i < |rows| && rows[i].link == link;
          if i > 0 { assert rows[1..][i - 1].link == link; }
        }
      }
      r
  }

  /** An update whose id no row holds leaves every row as it was. */
  lemma ReplacedAbsentId(rows: seq<Feed>, feed: Feed)
    requires !HasId(rows, feed.id)
    ensures Replaced(rows, feed) == rows
  {
    var r := Replaced(rows, feed);
    forall i | 0 <= i < |rows| ensures r[i] == rows[i] {
      assert rows[i].id != feed.id;
    }
  }

  /** In rows with distinct links, the only row holding a feed's link is
      the feed's own row, so rewriting that row never trips the link's
      uniqueness. */
  lemma OwnLinkNotTaken(rows: seq<Feed>, f: Feed, m: int)
    requires 0 <= m < |rows| && rows[m].id == f.id && rows[m].link == f.link
    requires forall i, j :: 0 <= i < j < |rows| ==> rows[i].link != rows[j].link
    ensures !LinkTakenByOther(rows, f.id, f.link)
  {
    forall i | 0 <= i < |rows| && i != m ensures rows[i].link != f.link {
      if i < m {
        assert rows[i].link != rows[m].link;
      } else {
        assert rows[m].link != rows[i].link;
      }
    }
  }

  lemma ReplacedKeepsValid(t: FeedTable, feed: Feed)
    requires t.Valid() && !LinkTakenByOther(t.rows, feed.id, feed.link)
    ensures FeedTable(Replaced(t.rows, feed), t.nextId).Valid()
  {
    var r := Replaced(t.rows, feed);
    forall i, j | 0 <= i < j < |r| ensures r[i].link != r[j].link {
      if t.rows[i].id == feed.id && t.rows[j].id != feed.id {
        assert !(t.rows[j].id != feed.id && t.rows[j].link == feed.link);
      } else if t.rows[i].id != feed.id && t.rows[j].id == feed.id {
        assert !(t.rows[i].id != feed.id && t.rows[i].link == feed.link);
      }
    }
  }

  lemma WithoutFeedKeepsValid(t: FeedTable, id: int)
    requires t.Valid()
    ensures FeedTable(WithoutFeed(t.rows, id), t.nextId).Valid()
  {
    var p := (f: Feed) => f.id != id;
    var r := WithoutFeed(t.rows, id);
    forall i | 0 <= i < |r| ensures r[i].id < t.nextId {
      FilterMembers(t.rows, p, r[i]);
    }
    FilterKeepsDistinct(t.rows, p);
    assert r == Filter(t.rows, p);
  }

  /** Filtering a table keeps its ids and its links distinct. */
  lemma {:induction false} FilterKeepsDistinct(rows: seq<Feed>, p: Feed -> bool)
    requires forall i, j :: 0 <= i < j < |rows| ==> rows[i].id != rows[j].id
    requires forall i, j :: 0 <= i < j < |rows| ==> rows[i].link != rows[j].link
    ensures var r := Filter(rows, p);
      && (forall i, j :: 0 <= i < j < |r| ==> r[i].id != r[j].id)
      && (forall i, j :: 0 <= i < j < |r| ==> r[i].link != r[j].link)
  {
    if rows != [] {
      var init := rows[..|rows| - 1];
      var last := rows[|rows| - 1];
      FilterKeepsDistinct(init, p);
      var r0 := Filter(init, p);
      forall k | 0 <= k < |r0| ensures r0[k].id != last.id && r0[k].link != last.link {
        FilterMembers(init, p, r0[k]);
      }
    }
  }

  /** The feeds table, mutated in place by the crawler and by subscribe. */
  class Feeds {
    var table: FeedTable

    ghost predicate Valid()
      reads this
    {
      table.Valid()
    }

    constructor ()
      ensures Valid() && table.rows == []
    {
      table := FeedTable([], 1);
    }

    /** `INSERT INTO feeds (link, not_until)`: a link already stored is
        rejected as AlreadyExists and nothing is added; otherwise the new
        row carries the next id, the given link and the given not_until. */
    method Create(link: string, notUntil: Time) returns (r: Result<Feed>)
      requires Valid()
      modifies this
      ensures Valid()
      ensures HasLink(old(table.rows), link) ==> r == Err(AlreadyExists) && table == old(table)
      ensures !HasLink(old(table.rows), link) ==>
        && r == Ok(Feed(old(table.nextId), link, notUntil))
        && table == FeedTable(old(table.rows) + [r.value], old(table.nextId) + 1)
    {
      if HasLink(table.rows, link) {
        return Err(AlreadyExists);
      }
      var created := Feed(table.nextId, link, notUntil);
      table := FeedTable(table.rows + [created], table.nextId + 1);
      r := Ok(created);
    }

    /** `SELECT ... WHERE not_until <= asOf`, appending each matching row. */
    method ListReady(asOf: Time) returns (list: seq<Feed>)
      ensures list == Ready(table.rows, asOf)
      ensures forall f :: f in list <==> f in table.rows && f.notUntil <= asOf
    {
      list := [];
      var i := 0;
      while i < |table.rows|
        invariant 0 <= i <= |table.rows|
        invariant list == Ready(table.rows[..i], asOf)
      {
        FilterSnoc(table.rows, (f: Feed) => f.notUntil <= asOf, i);
        if table.rows[i].notUntil <= asOf {
          list := list + [table.rows[i]];
        }
        i := i + 1;
      }
      assert table.rows[..i] == table.rows;
      forall f ensures f in list <==> f in table.rows && f.notUntil <= asOf {
        FilterMembers(table.rows, (f: Feed) => f.notUntil <= asOf, f);
      }
    }

    /** `SELECT ... WHERE link = $1`: the stored row, or NotFound. */
    function GetByLink(link: string): (r: Result<Feed>)
      reads this
      ensures r.Ok? <==> HasLink(table.rows, link)
      ensures r.Ok? ==> r.value in table.rows && r.value.link == link
      ensures r.Err? ==> r.error == NotFound
    {
      FindLink(table.rows, link)
    }

    /** `UPDATE feeds SET link = $1, not_until = $2 WHERE id = $3`. The row
        with that id takes the feed's link and not_until; every other row is
        untouched. Moving the link onto a link another row holds trips the
        uniqueness constraint, which the method returns untranslated. An id
        no row holds matches nothing: no error, and the table is unchanged. */
    method Update(feed: Feed) returns (err: Option<Error>)
      requires Valid()
      modifies this
      ensures Valid()
      ensures LinkTakenByOther(old(table.rows), feed.id, feed.link) ==>
        err == Some(UniqueViolation) && table == old(table)
      ensures !LinkTakenByOther(old(table.rows), feed.id, feed.link) ==>
        err == None && table == FeedTable(Replaced(old(table.rows), feed), old(table.nextId))
      ensures !HasId(old(table.rows), feed.id) ==> err == None && table == old(table)
    {
      if !HasId(table.rows, feed.id) {
        ReplacedAbsentId(table.rows, feed);
      }
      if LinkTakenByOther(table.rows, feed.id, feed.link) {
        return Some(UniqueViolation);
      }
      ReplacedKeepsValid(table, feed);
      table := FeedTable(Replaced(table.rows, feed), table.nextId);
      err := None;
    }

    /** `DELETE FROM feeds WHERE id = $1`: exactly the rows with that id
        go, the others keep their order; an absent id is not an error. */
    method Delete(id: int) returns (err: Option<Error>)
      requires Valid()
      modifies this
      ensures Valid() && err == None
      ensures table == FeedTable(WithoutFeed(old(table.rows), id), old(table.nextId))
      ensures forall f :: f in table.rows <==> f in old(table.rows) && f.id != id
    {
      WithoutFeedKeepsValid(table, id);
      ghost var before := table.rows;
      table := FeedTable(WithoutFeed(table.rows, id), table.nextId);
      forall f ensures f in table.rows <==> f in before && f.id != id {
        FilterMembers(before, (f: Feed) => f.id != id, f);
      }
      err := None;
    }
  }

  /** A feed removed by Delete is no longer among the ready feeds, whatever
      the moment asked about. */
  lemma DeletedNotReady(rows: seq<Feed>, id: int, asOf: Time, f: Feed)
    requires f in Ready(WithoutFeed(rows, id), asOf)
    ensures f.id != id && f in rows && f.notUntil <= asOf
  {
    FilterMembers(WithoutFeed(rows, id), (g: Feed) => g.notUntil <= asOf, f);
    FilterMembers(rows, (g: Feed) => g.id != id, f);
  }

  /** An empty table has no ready feeds. */
  lemma EmptyTableNothingReady(asOf: Time)
    ensures Ready([], asOf) == []
  {
  }
}
