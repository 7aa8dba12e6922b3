/** The interaction ledger and the net-score arithmetic behind the interact
    route (app/api/interact/route.ts): one live row per (user, target,
    target type), toggled, switched or inserted by each request, and the
    signed delta each request adds to the target's net_score counter.

    The request's `interaction_type` and `target_type` are kept as the
    strings the route receives: the route validates neither. */
module Ledger {
  import opened Wrappers

  type UserId = string
  type TargetId = string

  const VOTE_UP: string := "VOTE_UP"
  const VOTE_DOWN: string := "VOTE_DOWN"
  const HEART: string := "HEART"
  const TOPIC: string := "TOPIC"

  /** The uniqueness key of the interactions table. */
  datatype Key = Key(user: UserId, target: TargetId, targetType: string)

  /** One request to the interact route. */
  datatype Request = Request(user: UserId, target: TargetId, targetType: string, kind: string)
  {
    function KeyOf(): Key { Key(user, target, targetType) }
  }

  /** The net_score counters: one per topic row and one per comment row. */
  datatype Table = Topics | Comments
  datatype Counter = Counter(table: Table, id: TargetId)

  /** The live interaction rows: key to interaction_type. */
  type Rows = map<Key, string>
  type Scores = map<Counter, int>

  /** The ledger and the counters, the state a request changes. */
  datatype State = State(ledger: Rows, scores: Scores)

  predicate IsVote(kind: string)
  {
    kind == VOTE_UP || kind == VOTE_DOWN
  }

  /** The counter a request on `key` moves: the topic counter exactly when
      target_type is 'TOPIC', the comment counter for any other value. */
  function CounterOf(key: Key): (c: Counter)
    ensures c.id == key.target
    ensures c.table == Topics <==> key.targetType == TOPIC
  {
    Counter(if key.targetType == TOPIC then Topics else Comments, key.target)
  }

  /** The weight of one interaction type: +1 for VOTE_UP, -1 for VOTE_DOWN,
      0 for HEART and for any unrecognised string. */
  function BaseDelta(kind: string): (d: int)
    ensures -1 <= d <= 1
    ensures d != 0 <==> IsVote(kind)
    ensures d == 1 <==> kind == VOTE_UP
  {
    if kind == VOTE_UP then 1 else if kind == VOTE_DOWN then -1 else 0
  }

  /** What a live row (or its absence) contributes to its target's score. */
  function Contribution(row: Option<string>): int
  {
    if row.Some? then BaseDelta(row.value) else 0
  }

  function Get(ledger: Rows, key: Key): (r: Option<string>)
    ensures r.Some? <==> key in ledger
    ensures r.Some? ==> r.value == ledger[key]
  {
    if key in ledger then Some(ledger[key]) else None
  }

  /** The delta the route computes from the row found (`existing`) and the
      requested type: the base value when there is no row, its negation when
      the row has the same type, -2 / +2 for a switch between the two votes,
      and otherwise the requested type's base value. That is the change in
      the key's contribution, except on a drifting transition, where it is 0. */
  function ScoreDelta(existing: Option<string>, kind: string): (d: int)
    ensures d == if Drifts(existing, kind) then 0
                 else Contribution(NextRow(existing, kind)) - Contribution(existing)
  {
    match existing
    case None => BaseDelta(kind)
    case Some(stored) =>
      if stored == kind then -BaseDelta(kind)
      else if stored == VOTE_UP && kind == VOTE_DOWN then -2
      else if stored == VOTE_DOWN && kind == VOTE_UP then 2
      else BaseDelta(kind)
  }

  /** The row for the key after the request: removed when it had the
      requested type, otherwise exactly the requested type. */
  function NextRow(existing: Option<string>, kind: string): (r: Option<string>)
    ensures r == None <==> existing == Some(kind)
    ensures r.Some? ==> r.value == kind
  {
    if existing == Some(kind) then None else Some(kind)
  }

  /** The transitions where the route's delta is not the change in the row's
      contribution: a vote replaced by a type of weight 0 (HEART or any
      unrecognised string). The route then adds nothing, so the old vote
      stays counted in net_score although its row is gone. */
  predicate Drifts(existing: Option<string>, kind: string)
  {
    existing.Some? && existing.value != kind && IsVote(existing.value) && !IsVote(kind)
  }

  /** The delta equals the change in the key's contribution exactly when the
      transition is not one of the drifting ones. */
  lemma DeltaMatchesLedger(existing: Option<string>, kind: string)
    ensures ScoreDelta(existing, kind) == Contribution(NextRow(existing, kind)) - Contribution(existing)
            <==> !Drifts(existing, kind)
  {
  }

  /** The counters after `delta` is added to counter `c`: a counter that has
      no row (no such topic or comment) is not created, and every other
      counter keeps its value. */
  function AddScore(scores: Scores, c: Counter, delta: int): (r: Scores)
    ensures r.Keys == scores.Keys
    ensures forall c' :: c' in scores ==> r[c'] == scores[c'] + (if c' == c then delta else 0)
  {
    if c in scores then scores[c := scores[c] + delta] else scores
  }

  /** The ledger after a request on `key`: only that key's row changes, and
      it becomes NextRow of the old one. */
  function LedgerAfter(ledger: Rows, key: Key, kind: string): (r: Rows)
    ensures Get(r, key) == NextRow(Get(ledger, key), kind)
    ensures forall k :: k != key ==> Get(r, k) == Get(ledger, k)
  {
    match NextRow(Get(ledger, key), kind)
    case None => ledger - {key}
    case Some(t) => ledger[key := t]
  }

  /** One request: the ledger transition, and the route's delta added to
      the counter that target_type selects. */
  function Step(s: State, req: Request): (r: State)
    ensures forall k :: Get(r.ledger, k)
                        == if k == req.KeyOf() then NextRow(Get(s.ledger, k), req.kind) else Get(s.ledger, k)
    ensures r.scores.Keys == s.scores.Keys
    ensures forall c :: c in s.scores ==>
              r.scores[c] == s.scores[c]
                             + (if c == CounterOf(req.KeyOf()) then ScoreDelta(Get(s.ledger, req.KeyOf()), req.kind) else 0)
  {
    var key := req.KeyOf();
    var delta := ScoreDelta(Get(s.ledger, key), req.kind);
    State(LedgerAfter(s.ledger, key, req.kind), AddScore(s.scores, CounterOf(key), delta))
  }

  /** A sequence of requests, served one at a time in order. */
  function Replay(s: State, reqs: seq<Request>): State
    decreases |reqs|
  {
    if reqs == [] then s else Replay(Step(s, reqs[0]), reqs[1..])
  }

  /** Repeating a request restores the ledger and every counter when the
      key had no row or a row of the requested type, and only then. */
  lemma ToggleTwice(s: State, req: Request)
    ensures var prior := Get(s.ledger, req.KeyOf());
            Step(Step(s, req), req) == s <==> prior == None || prior == Some(req.kind)
  {
    var key := req.KeyOf();
    var prior := Get(s.ledger, key);
    var s1 := Step(s, req);
    var s2 := Step(s1, req);
    if prior == None || prior == Some(req.kind) {
      assert ScoreDelta(Get(s1.ledger, key), req.kind) == -ScoreDelta(prior, req.kind);
      assert s2.ledger == s.ledger by {
        forall k ensures Get(s2.ledger, k) == Get(s.ledger, k) {}
        MapsEqualByGet(s2.ledger, s.ledger);
      }
      assert s2.scores == s.scores;
    } else {
      assert Get(s2.ledger, key) == None;
    }
  }

  lemma MapsEqualByGet(a: Rows, b: Rows)
    requires forall k :: Get(a, k) == Get(b, k)
    ensures a == b
  {
    assert forall k :: k in a <==> Get(a, k).Some?;
  }

  // ---------------------------------------------------------------------
  // Tally: what the live rows add up to on one counter.

  /** What the row at `key` with type `kind` adds to counter `c`. */
  function Share(key: Key, kind: string, c: Counter): int
  {
    if CounterOf(key) == c then BaseDelta(kind) else 0
  }

  ghost function SumShares(keys: set<Key>, ledger: Rows, c: Counter): int
    requires keys <= ledger.Keys
    decreases keys
  {
    if keys == {} then 0
    else
      var k :| k in keys;
      Share(k, ledger[k], c) + SumShares(keys - {k}, ledger, c)
  }

  /** The sum of the base values of the live rows that count on `c`. */
  ghost function Tally(ledger: Rows, c: Counter): int
  {
    SumShares(ledger.Keys, ledger, c)
  }

  lemma {:induction false} SumSharesRemove(keys: set<Key>, ledger: Rows, c: Counter, k: Key)
    requires keys <= ledger.Keys && k in keys
    ensures SumShares(keys, ledger, c) == Share(k, ledger[k], c) + SumShares(keys - {k}, ledger, c)
    decreases keys
  {
    var j :| j in keys && SumShares(keys, ledger, c) == Share(j, ledger[j], c) + SumShares(keys - {j}, ledger, c);
    if j != k {
      SumSharesRemove(keys - {j}, ledger, c, k);
      SumSharesRemove(keys - {k}, ledger, c, j);
      assert keys - {j} - {k} == keys - {k} - {j};
    }
  }

  lemma {:induction false} SumSharesFrame(keys: set<Key>, a: Rows, b: Rows, c: Counter)
    requires keys <= a.Keys && keys <= b.Keys
    requires forall k :: k in keys ==> a[k] == b[k]
    ensures SumShares(keys, a, c) == SumShares(keys, b, c)
    decreases keys
  {
    if keys != {} {
      var k :| k in keys && SumShares(keys, a, c) == Share(k, a[k], c) + SumShares(keys - {k}, a, c);
      SumSharesRemove(keys, b, c, k);
      SumSharesFrame(keys - {k}, a, b, c);
    }
  }

  /** The tally is the key's own share plus the tally of every other row. */
  lemma TallySplit(ledger: Rows, key: Key, c: Counter)
    ensures Tally(ledger, c) == (if key in ledger then Share(key, ledger[key], c) else 0) + Tally(ledger - {key}, c)
  {
    var rest := ledger - {key};
    if key in ledger {
      SumSharesRemove(ledger.Keys, ledger, c, key);
      assert ledger.Keys - {key} == rest.Keys;
    } else {
      assert ledger.Keys == rest.Keys;
    }
    SumSharesFrame(rest.Keys, ledger, rest, c);
  }

  /** A request changes the tally of its own counter by the change in its
      key's contribution, and no other counter's tally. */
  lemma TallyAfter(ledger: Rows, key: Key, kind: string, c: Counter)
    ensures Tally(LedgerAfter(ledger, key, kind), c)
            == Tally(ledger, c)
               + (if CounterOf(key) == c
                  then Contribution(NextRow(Get(ledger, key), kind)) - Contribution(Get(ledger, key))
                  else 0)
  {
    var after := LedgerAfter(ledger, key, kind);
    TallySplit(ledger, key, c);
    TallySplit(after, key, c);
    assert after - {key} == ledger - {key} by {
      forall k ensures Get(after - {key}, k) == Get(ledger - {key}, k) {
        if k != key { assert Get(after, k) == Get(ledger, k); }
      }
      MapsEqualByGet(after - {key}, ledger - {key});
    }
  }

  /** A vote request keeps every counter's value minus the tally of its live
      rows: the counter moves exactly as the ledger's sum of base values. */
  lemma VoteStepKeepsBalance(s: State, req: Request, c: Counter)
    requires IsVote(req.kind) && c in s.scores
    ensures var s' := Step(s, req);
            c in s'.scores && s'.scores[c] - Tally(s'.ledger, c) == s.scores[c] - Tally(s.ledger, c)
  {
    var key := req.KeyOf();
    DeltaMatchesLedger(Get(s.ledger, key), req.kind);
    TallyAfter(s.ledger, key, req.kind, c);
  }

  /** For any sequence of VOTE_UP / VOTE_DOWN requests, each existing
      counter ends at its start value plus the change in the sum of the
      base values of the live rows on it. */
  lemma {:induction false} VotesKeepBalance(s: State, reqs: seq<Request>, c: Counter)
    requires forall i :: 0 <= i < |reqs| ==> IsVote(reqs[i].kind)
    requires c in s.scores
    ensures var s' := Replay(s, reqs);
            c in s'.scores && s'.scores[c] - Tally(s'.ledger, c) == s.scores[c] - Tally(s.ledger, c)
    decreases |reqs|
  {
    if reqs != [] {
      VoteStepKeepsBalance(s, reqs[0], c);
      VotesKeepBalance(Step(s, reqs[0]), reqs[1..], c);
    }
  }

  /** From an empty ledger, votes leave each counter at its start value plus
      the sum of the base values of the live rows on it. */
  lemma VotesFromEmptyLedger(scores: Scores, reqs: seq<Request>, c: Counter)
    requires forall i :: 0 <= i < |reqs| ==> IsVote(reqs[i].kind)
    requires c in scores
    ensures var s' := Replay(State(map[], scores), reqs);
            c in s'.scores && s'.scores[c] == scores[c] + Tally(s'.ledger, c)
  {
    VotesKeepBalance(State(map[], scores), reqs, c);
  }

  /** The drift made concrete: a HEART request over a live VOTE_UP row turns
      the row into a HEART and leaves the counter alone, so the counter keeps
      the +1 that the ledger no longer holds. */
  lemma HeartOverUpVoteDrifts(s: State, req: Request)
    requires req.kind == HEART && Get(s.ledger, req.KeyOf()) == Some(VOTE_UP)
    requires CounterOf(req.KeyOf()) in s.scores
    ensures var c := CounterOf(req.KeyOf());
            var s' := Step(s, req);
            Get(s'.ledger, req.KeyOf()) == Some(HEART)
            && s'.scores[c] == s.scores[c]
            && Tally(s'.ledger, c) == Tally(s.ledger, c) - 1
  {
    TallyAfter(s.ledger, req.KeyOf(), req.kind, CounterOf(req.KeyOf()));
  }
}
