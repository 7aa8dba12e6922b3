/** The POST handler of app/api/interact/route.ts: look up the caller's row
    for the target, insert, delete or switch it, and add the resulting delta
    to the target's net_score. */
module InteractRoute {
  import opened Wrappers
  import opened Ledger
  import opened Store

  /** Serves one request and returns the `delta` of the response; the
      response's `success` is always true. */
  method Post(db: Database, userId: UserId, targetId: TargetId, targetType: string, interactionType: string)
    returns (delta: int)
    requires db.Valid()
    modifies db
    ensures db.Valid()
    ensures var req := Request(userId, targetId, targetType, interactionType);
            delta == ScoreDelta(Get(old(db.interactions), req.KeyOf()), interactionType)
            && db.VoteState() == Step(old(db.VoteState()), req)
    ensures db.topics == old(db.topics) && db.comments == old(db.comments)
  {
    var key := Key(userId, targetId, targetType);
    var existing := if key in db.interactions then Some(db.interactions[key]) else None;

    var scoreDelta := 0;
    if interactionType == VOTE_UP { scoreDelta := 1; }
    if interactionType == VOTE_DOWN { scoreDelta := -1; }

    if existing.Some? {
      if existing.value == interactionType {
        // toggle off
        db.interactions := db.interactions - {key};
        scoreDelta := -scoreDelta;
      } else {
        // switch to the requested type
        db.interactions := db.interactions[key := interactionType];
        if existing.value == VOTE_UP && interactionType == VOTE_DOWN { scoreDelta := -2; }
        if existing.value == VOTE_DOWN && interactionType == VOTE_UP { scoreDelta := 2; }
      }
    } else {
      db.interactions := db.interactions[key := interactionType];
    }

    if scoreDelta != 0 {
      var counter := if targetType == TOPIC then Counter(Topics, targetId) else Counter(Comments, targetId);
      db.UpdateScore(counter, scoreDelta);
    }
    delta := scoreDelta;
    assert db.interactions == LedgerAfter(old(db.interactions), key, interactionType) by {
      forall k ensures Get(db.interactions, k) == Get(LedgerAfter(old(db.interactions), key, interactionType), k) {}
      MapsEqualByGet(db.interactions, LedgerAfter(old(db.interactions), key, interactionType));
    }
  }
}
