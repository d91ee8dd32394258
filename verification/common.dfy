/** Shared vocabulary of the bot: timestamps, the error taxonomy and the
    failure-carrying result types every store operation returns. */
module Common {

  /** Timestamps are whole seconds; the bot works in UTC throughout. */
  type Time = int

  /** The zero value of a timestamp, used as "no floor" when ingesting. */
  const ZeroTime: Time := 0

  /** Every error the core can surface. The first four are the sentinel
      errors of the bot; `HttpStatus` carries a non-2xx status code;
      `Transport` is a failed fetch; `Canceled` is the rate gate refusing;
      `UniqueViolation` is the store's raw uniqueness signal where the
      caller does not translate it into `AlreadyExists`. */
  datatype Error =
    | NotFound
    | NotRssFeed
    | AlreadyExists
    | EmptyFeed
    | HttpStatus(statusCode: int)
    | Transport
    | Canceled
    | UniqueViolation

  datatype Option<+T> = None | Some(value: T)

  datatype Result<+T> = Ok(value: T) | Err(error: Error)
}

/** Order-preserving selection of sequence elements, the shape of every
    `SELECT ... WHERE` and every `DELETE ... WHERE` over a table's rows. */
module Seqs {

  /** The elements of `s` satisfying `p`, in their original order. */
  function Filter<T>(s: seq<T>, p: T -> bool): (r: seq<T>)
    ensures |r| <= |s|
  {
    if s == [] then []
    else Filter(s[..|s| - 1], p) + (if p(s[|s| - 1]) then [s[|s| - 1]] else [])
  }

  /** Filtering keeps exactly the elements that satisfy the predicate. */
  lemma {:induction false} FilterMembers<T>(s: seq<T>, p: T -> bool, x: T)
    ensures x in Filter(s, p) <==> x in s && p(x)
  {
    if s != [] {
      var init := s[..|s| - 1];
      FilterMembers(init, p, x);
      assert s == init + [s[|s| - 1]];
    }
  }

  /** Filtering a one-element extension extends the filtered prefix. */
  lemma FilterSnoc<T>(s: seq<T>, p: T -> bool, i: nat)
    requires i < |s|
    ensures Filter(s[..i + 1], p) == Filter(s[..i], p) + (if p(s[i]) then [s[i]] else [])
  {
    assert s[..i + 1][..i] == s[..i];
  }
}
