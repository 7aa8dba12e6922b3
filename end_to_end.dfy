/** The topics route and the interact route run against one store: a new
    topic's score over a short sequence of votes. */
module EndToEnd {
  import opened Ledger
  import opened Store
  import InteractRoute
  import TopicsRoute

  /** A topic is created, alice up-votes it twice, then bob down-votes and
      up-votes it. The deltas are +1 (insert), -1 (alice's repeat deletes her
      row), -1 (insert) and +2 (bob switches), and the score ends at the
      initial 1 plus bob's surviving up-vote. */
  method VoteScenario() returns (created: TopicsRoute.PostResponse, deltas: seq<int>, score: int)
    ensures created == TopicsRoute.Created("t1", Topic("First topic", "alice"), 1)
    ensures deltas == [1, -1, -1, 2]
    ensures score == 2
  {
    var db := new Database();
    created := TopicsRoute.Post(db, "t1", "First topic", "alice");
    var topic := Counter(Topics, "t1");
    assert db.scores[topic] == 1 && db.interactions == map[];
    var d1 := InteractRoute.Post(db, "alice", "t1", TOPIC, VOTE_UP);
    assert db.scores[topic] == 2;
    var d2 := InteractRoute.Post(db, "alice", "t1", TOPIC, VOTE_UP);
    assert db.scores[topic] == 1 && db.interactions == map[];
    var d3 := InteractRoute.Post(db, "bob", "t1", TOPIC, VOTE_DOWN);
    assert db.scores[topic] == 0;
    var d4 := InteractRoute.Post(db, "bob", "t1", TOPIC, VOTE_UP);
    deltas := [d1, d2, d3, d4];
    score := db.scores[topic];
  }
}
