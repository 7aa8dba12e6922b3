/** The backing store the routes share: the topics, comments and
    interactions tables, with the net_score column of the first two kept as
    one map of counters keyed by table and row id. */
module Store {
  import opened Wrappers
  import opened Ledger

  /** The deepest depth the comments route stores. */
  const MAX_DEPTH: int := 5

  datatype Topic = Topic(title: string, authorId: string)

  datatype Comment = Comment(topicId: string, authorId: string, content: string,
                             parentId: Option<string>, depth: int)

  class Database {
    var topics: map<TargetId, Topic>
    var comments: map<TargetId, Comment>
    var interactions: Rows
    var scores: Scores

    /** The counter `c` belongs to an existing row. */
    ghost predicate HasRow(c: Counter)
      reads this
    {
      match c.table
      case Topics => c.id in topics
      case Comments => c.id in comments
    }

    /** Every topic and comment row has exactly one counter, and every stored
        comment depth lies in 0..MAX_DEPTH. */
    ghost predicate Valid()
      reads this
    {
      && (forall c :: c in scores <==> HasRow(c))
      && (forall id :: id in comments ==> 0 <= comments[id].depth <= MAX_DEPTH)
    }

    /** The ledger and the counters, the part a vote changes. */
    function VoteState(): State
      reads this
    {
      State(interactions, scores)
    }

    constructor ()
      ensures Valid()
      ensures topics == map[] && comments == map[] && interactions == map[] && scores == map[]
    {
      topics, comments, interactions, scores := map[], map[], map[], map[];
    }

    /** The update_topic_score / update_comment_score procedures: one atomic
        addition of `delta` to counter `c`; a counter with no row is left
        absent. */
    method UpdateScore(c: Counter, delta: int)
      modifies this
      ensures scores == AddScore(old(scores), c, delta)
      ensures topics == old(topics) && comments == old(comments) && interactions == old(interactions)
    {
      if c in scores {
        scores := scores[c := scores[c] + delta];
      }
    }
  }
}
