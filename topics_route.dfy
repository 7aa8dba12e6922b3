/** The handlers of app/api/topics/route.ts: GET turns the `page` parameter
    into a window of 20 rows of the topics table, newest first; POST inserts
    a topic whose net_score starts at 1. */
module TopicsRoute {
  import opened Wrappers
  import opened Ledger
  import opened Store
  import opened Params
  import Decimal

  const PAGE_SIZE: int := 20

  // ---------------------------------------------------------------------
  // GET

  lemma ParsesOne()
    ensures Decimal.ParseInt("1") == Some(1)
  {
    Decimal.ParseIntOfNatToString(1, "");
    assert Decimal.NatToString(1) + "" == "1";
  }

  /** The page number `parseInt` gives; None stands for NaN. Without a page
      parameter the first page is served; a given one is parsed as is. */
  function RequestedPage(page: Option<string>): (r: Option<int>)
    ensures !Given(page) ==> r == Some(1)
    ensures Given(page) ==> r == Decimal.ParseInt(page.value)
  {
    ParsesOne();
    Decimal.ParseInt(OrDefault(page, "1"))
  }

  /** A page written as a decimal number, possibly followed by text that
      is not a digit or letter, is read back as that number. */
  lemma PageParamRoundTrip(n: nat, rest: string)
    requires rest == [] || Decimal.DigitOf(rest[0]).None?
    ensures RequestedPage(Some(Decimal.NatToString(n) + rest)) == Some(n)
  {
    Decimal.ParseIntOfNatToString(n, rest);
  }

  /** The inclusive row range `.range(from, to)` asks for. */
  datatype Window = Window(first: int, last: int)

  /** `(page - 1) * limit`: the offset is a whole number of pages, from
      which the page is recovered, and it is negative exactly below page 1. */
  function Offset(page: int): (o: int)
    ensures o >= 0 <==> page >= 1
    ensures o % PAGE_SIZE == 0 && o / PAGE_SIZE == page - 1
  {
    (page - 1) * PAGE_SIZE
  }

  /** `.range(offset, offset + limit - 1)`: a window of exactly 20
      positions starting at the page's offset. */
  function RangeFor(page: int): (w: Window)
    ensures w.first == Offset(page)
    ensures w.last - w.first + 1 == PAGE_SIZE
  {
    Window(Offset(page), Offset(page) + PAGE_SIZE - 1)
  }

  /** Each page's window starts right after the previous one's, so
      consecutive pages neither overlap nor leave a gap. */
  lemma WindowsAdjacent(page: int)
    ensures RangeFor(page).last + 1 == RangeFor(page + 1).first
  {
  }

  /** Every position from 0 on lies in the window of exactly one page from 1
      on: page position / 20 + 1. */
  lemma PageOfPosition(i: int, page: int)
    requires i >= 0
    ensures RangeFor(page).first <= i <= RangeFor(page).last <==> page == i / PAGE_SIZE + 1
  {
    assert RangeFor(page).first == 20 * page - 20 && RangeFor(page).last == 20 * page - 1;
  }

  /** The rows a `.range(w.first, w.last)` returns from `rows`: the positions
      of the window that exist. */
  function Fetch<T>(rows: seq<T>, w: Window): (r: seq<T>)
    requires 0 <= w.first
    ensures |r| == if w.first >= |rows| || w.last < w.first then 0
                   else (if w.last + 1 < |rows| then w.last + 1 else |rows|) - w.first
    ensures forall k :: 0 <= k < |r| ==> w.first + k < |rows| && r[k] == rows[w.first + k]
  {
    var lo := if w.first < |rows| then w.first else |rows|;
    var hi := if w.last + 1 < lo then lo else if w.last + 1 < |rows| then w.last + 1 else |rows|;
    rows[lo..hi]
  }

  /** The rows a page-`page` request fetches from the table in
      created_at-descending order, before the route re-ranks them: the rows
      from the page's offset on, twenty of them when that many exist. */
  function PageRows<T>(newestFirst: seq<T>, page: int): (r: seq<T>)
    requires page >= 1
    ensures var left := |newestFirst| - Offset(page);
            |r| == if left <= 0 then 0 else if left < PAGE_SIZE then left else PAGE_SIZE
    ensures forall k :: 0 <= k < |r| ==> Offset(page) + k < |newestFirst| && r[k] == newestFirst[Offset(page) + k]
  {
    Fetch(newestFirst, RangeFor(page))
  }

  /** The first n pages, read one after the other. */
  function FirstPages<T>(rows: seq<T>, n: nat): seq<T>
  {
    if n == 0 then [] else FirstPages(rows, n - 1) + PageRows(rows, n)
  }

  /** Reading pages 1..n in turn yields the first 20 n rows, each once and
      in order: the pages neither overlap nor skip a row. */
  lemma {:induction false} PagesTile<T>(rows: seq<T>, n: nat)
    ensures FirstPages(rows, n) == rows[..if n * PAGE_SIZE < |rows| then n * PAGE_SIZE else |rows|]
  {
    if n > 0 {
      PagesTile(rows, n - 1);
      var before := if (n - 1) * PAGE_SIZE < |rows| then (n - 1) * PAGE_SIZE else |rows|;
      var after := if n * PAGE_SIZE < |rows| then n * PAGE_SIZE else |rows|;
      assert PageRows(rows, n) == rows[before..after];
      assert rows[..before] + rows[before..after] == rows[..after];
    }
  }

  // ---------------------------------------------------------------------
  // POST

  datatype PostResponse =
    | Created(id: string, topic: Topic, netScore: int)
    | Failed(status: int, error: string)

  /** Serves one POST. The store assigns the new row the id `newId`; an
      insert whose id is taken fails with 500 as the primary key demands.
      The title is not validated. */
  method Post(db: Database, newId: TargetId, title: string, authorId: string) returns (r: PostResponse)
    requires db.Valid()
    modifies db
    ensures db.Valid()
    ensures db.comments == old(db.comments) && db.interactions == old(db.interactions)
    ensures if newId in old(db.topics) then
              r.Failed? && r.status == 500 && db.topics == old(db.topics) && db.scores == old(db.scores)
            else
              r == Created(newId, Topic(title, authorId), 1)
              && db.topics == old(db.topics)[newId := Topic(title, authorId)]
              && db.scores == old(db.scores)[Counter(Topics, newId) := 1]
  {
    if newId in db.topics {
      return Failed(500, "duplicate key value violates unique constraint");
    }
    var row := Topic(title, authorId);
    db.topics := db.topics[newId := row];
    db.scores := db.scores[Counter(Topics, newId) := 1];
    r := Created(newId, row, 1);
  }
}
