/** The articles table: one row per ingested feed item. Rows are only ever
    added; a second row with the same feed and link is refused by the
    table's uniqueness constraint. */
module ArticleStore {
  import opened Common

  datatype Article = Article(id: int, feedId: int, title: string, link: string, published: Time)

  /** The uniqueness key of an article: its feed and its link. */
  predicate SameKey(a: Article, feedId: int, link: string) {
    a.feedId == feedId && a.link == link
  }

  predicate HasKey(rows: seq<Article>, feedId: int, link: string) {
    exists i :: 0 <= i < |rows| && SameKey(rows[i], feedId, link)
  }

  /** The rows in storage order and the next value of the id sequence. */
  datatype ArticleTable = ArticleTable(rows: seq<Article>, nextId: int) {

    /** Ids are unique and below the sequence; keys are unique. */
    ghost predicate Valid() {
      && (forall i :: 0 <= i < |rows| ==> rows[i].id < nextId)
      && (forall i, j :: 0 <= i < j < |rows| ==> rows[i].id != rows[j].id)
      && (forall i, j :: 0 <= i < j < |rows| ==>
            !SameKey(rows[j], rows[i].feedId, rows[i].link))
    }

    /** The table after `INSERT INTO articles (...)`: unchanged when the key
        is already stored, otherwise one new row at the end. */
    function Insert(feedId: int, title: string, link: string, published: Time): (t: ArticleTable)
      ensures HasKey(rows, feedId, link) ==> t == this
      ensures !HasKey(rows, feedId, link) ==>
        t == ArticleTable(rows + [Article(nextId, feedId, title, link, published)], nextId + 1)
    {
      if HasKey(rows, feedId, link) then this
      else ArticleTable(rows + [Article(nextId, feedId, title, link, published)], nextId + 1)
    }
  }

  lemma ArticleInsertKeepsValid(t: ArticleTable, feedId: int, title: string, link: string, published: Time)
    requires t.Valid()
    ensures t.Insert(feedId, title, link, published).Valid()
    ensures HasKey(t.Insert(feedId, title, link, published).rows, feedId, link)
  {
    var t' := t.Insert(feedId, title, link, published);
    if !HasKey(t.rows, feedId, link) {
      assert SameKey(t'.rows[|t.rows|], feedId, link);
    }
  }

  /** `ORDER BY pub_date DESC` and the first row, restricted to one feed:
      a latest article of the feed (the earliest stored among equals), or
      NotFound when the feed has none. */
  function LatestOf(rows: seq<Article>, feedId: int): (r: Result<Article>)
    ensures r.Ok? ==> r.value in rows && r.value.feedId == feedId
    ensures r.Ok? ==> forall a :: a in rows && a.feedId == feedId ==> a.published <= r.value.published
    ensures r.Err? ==> r == Err(NotFound) && forall a :: a in rows ==> a.feedId != feedId
  {
    if rows == [] then Err(NotFound)
    else
      var init := rows[..|rows| - 1];
      var last := rows[|rows| - 1];
      assert rows == init + [last];
      var prev := LatestOf(init, feedId);
      if last.feedId != feedId then prev
      else if prev.Err? || prev.value.published < last.published then Ok(last)
      else prev
  }

  /** Rows of other feeds appended to the table do not change which
      article is a feed's latest. */
  lemma {:induction false} LatestOfOtherFeeds(rows: seq<Article>, extra: seq<Article>, feedId: int)
    requires forall a :: a in extra ==> a.feedId != feedId
    ensures LatestOf(rows + extra, feedId) == LatestOf(rows, feedId)
  {
    if extra != [] {
      var init := extra[..|extra| - 1];
      forall a | a in init ensures a.feedId != feedId {
        assert a in extra;
      }
      LatestOfOtherFeeds(rows, init, feedId);
      var all := rows + extra;
      assert all[..|all| - 1] == rows + init;
      assert all[|all| - 1] == extra[|extra| - 1] && extra[|extra| - 1] in extra;
    } else {
      assert rows + extra == rows;
    }
  }

  /** The articles table, appended to by ingestion. */
  class Articles {
    var table: ArticleTable

    ghost predicate Valid()
      reads this
    {
      table.Valid()
    }

    constructor ()
      ensures Valid() && table.rows == []
    {
      table := ArticleTable([], 1);
    }

    /** `INSERT INTO articles (feed_id, title, link, pub_date)`: a key already
        stored is rejected as AlreadyExists and the table is unchanged;
        otherwise the returned row carries the next id and exactly the given
        feed id, title, link and published time. */
    method Create(feedId: int, title: string, link: string, published: Time) returns (r: Result<Article>)
      requires Valid()
      modifies this
      ensures Valid()
      ensures table == old(table).Insert(feedId, title, link, published)
      ensures HasKey(old(table.rows), feedId, link) ==> r == Err(AlreadyExists) && table == old(table)
      ensures !HasKey(old(table.rows), feedId, link) ==>
        && r == Ok(Article(old(table.nextId), feedId, title, link, published))
        && table.rows == old(table.rows) + [r.value]
    {
      ArticleInsertKeepsValid(table, feedId, title, link, published);
      if HasKey(table.rows, feedId, link) {
        return Err(AlreadyExists);
      }
      var created := Article(table.nextId, feedId, title, link, published);
      table := table.Insert(feedId, title, link, published);
      r := Ok(created);
    }

    /** `SELECT ... WHERE feed_id = $1 ORDER BY pub_date DESC`, first row. */
    function Latest(feedId: int): (r: Result<Article>)
      reads this
      ensures r.Ok? ==> r.value in table.rows && r.value.feedId == feedId
      ensures r.Ok? ==> forall a :: a in table.rows && a.feedId == feedId ==> a.published <= r.value.published
      ensures r.Err? ==> r == Err(NotFound) && forall a :: a in table.rows ==> a.feedId != feedId
    {
      LatestOf(table.rows, feedId)
    }
  }
}
