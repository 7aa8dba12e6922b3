/** The handlers of app/api/comments/route.ts: GET builds the query for a
    topic's comments in the requested order; POST computes the new comment's
    depth from its parent and refuses anything deeper than 5. */
module CommentsRoute {
  import opened Wrappers
  import opened Ledger
  import opened Store
  import opened Params

  // ---------------------------------------------------------------------
  // GET

  datatype Column = CreatedAt | NetScore
  datatype OrderBy = OrderBy(column: Column, ascending: bool)

  /** A 400 response, or the query the route runs: the comments of one topic,
      ordered by the clauses in turn. */
  datatype GetResponse =
    | BadRequest(status: int, error: string)
    | Query(topicId: string, orders: seq<OrderBy>)

  method Get(topicId: Option<string>, sort: Option<string>) returns (r: GetResponse)
    ensures r.BadRequest? <==> !Given(topicId)
    ensures r.BadRequest? ==> r.status == 400
    ensures r.Query? ==> r.topicId == topicId.value
    ensures r.Query? && OrDefault(sort, "top") == "new" ==> r.orders == [OrderBy(CreatedAt, false)]
    ensures r.Query? && OrDefault(sort, "top") == "top" ==> r.orders == [OrderBy(NetScore, false)]
    ensures r.Query? && !Given(sort) ==> r.orders == [OrderBy(NetScore, false)]
    ensures r.Query? && OrDefault(sort, "top") == "controversial"
            ==> r.orders == [OrderBy(NetScore, true), OrderBy(NetScore, false)]
    ensures r.Query? && OrDefault(sort, "top") !in {"new", "top", "controversial"} ==> r.orders == []
  {
    var s := OrDefault(sort, "top");
    if !Given(topicId) {
      return BadRequest(400, "Topic ID required");
    }
    var orders: seq<OrderBy> := [];
    if s == "new" {
      orders := orders + [OrderBy(CreatedAt, false)];
    } else if s == "top" {
      orders := orders + [OrderBy(NetScore, false)];
    } else if s == "controversial" {
      orders := orders + [OrderBy(NetScore, true)];
      orders := orders + [OrderBy(NetScore, false)];
    }
    r := Query(topicId.value, orders);
  }

  // ---------------------------------------------------------------------
  // POST

  datatype PostResponse =
    | Created(id: string, comment: Comment)
    | Rejected(status: int, error: string)

  /** The depth the route computes: 0 without a parent id, the parent's depth
      plus one when the parent row is found, and 0 again when a parent id is
      given but no row has it. */
  function DepthFor(comments: map<TargetId, Comment>, parentId: Option<string>): (depth: int)
    ensures !Given(parentId) ==> depth == 0
    ensures Given(parentId) && parentId.value !in comments ==> depth == 0
    ensures Given(parentId) && parentId.value in comments ==> depth == comments[parentId.value].depth + 1
  {
    if Given(parentId) && parentId.value in comments then comments[parentId.value].depth + 1 else 0
  }

  /** A reply is refused exactly when its parent is found at depth 5 or
      more; so a parent at depth 4 is accepted and yields depth 5, while a
      parent at depth 5 is refused. */
  lemma DepthLimit(comments: map<TargetId, Comment>, parentId: Option<string>)
    requires forall id :: id in comments ==> 0 <= comments[id].depth
    ensures 0 <= DepthFor(comments, parentId)
    ensures DepthFor(comments, parentId) > MAX_DEPTH
            <==> Given(parentId) && parentId.value in comments && comments[parentId.value].depth >= MAX_DEPTH
  {
  }

  /** Serves one POST. The store assigns the new row the id `newId`; an
      insert whose id is taken fails with 500 as the primary key demands. */
  method Post(db: Database, newId: TargetId, topicId: string, authorId: string, content: string,
              parentId: Option<string>)
    returns (r: PostResponse)
    requires db.Valid()
    modifies db
    ensures db.Valid()
    ensures db.topics == old(db.topics) && db.interactions == old(db.interactions)
    ensures var depth := DepthFor(old(db.comments), parentId);
            if depth > MAX_DEPTH then
              r == Rejected(400, "Max comment depth reached")
              && db.comments == old(db.comments) && db.scores == old(db.scores)
            else if newId in old(db.comments) then
              r.Rejected? && r.status == 500
              && db.comments == old(db.comments) && db.scores == old(db.scores)
            else
              var row := Comment(topicId, authorId, content, parentId, depth);
              r == Created(newId, row)
              && db.comments == old(db.comments)[newId := row]
              && db.scores == old(db.scores)[Counter(Comments, newId) := 0]
  {
    var depth := 0;
    if Given(parentId) {
      if parentId.value in db.comments {
        depth := db.comments[parentId.value].depth + 1;
      }
    }

    if depth > MAX_DEPTH {
      return Rejected(400, "Max comment depth reached");
    }

    if newId in db.comments {
      return Rejected(500, "duplicate key value violates unique constraint");
    }
    var row := Comment(topicId, authorId, content, parentId, depth);
    db.comments := db.comments[newId := row];
    db.scores := db.scores[Counter(Comments, newId) := 0];
    r := Created(newId, row);
  }
}
