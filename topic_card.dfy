/** The TopicCard component (components/TopicCard.tsx): the optimistic
    vote button state machine, and the age label under a topic. */
module TopicCard {
  import opened Wrappers
  import opened Ledger
  import Decimal

  /** The local vote state 'UP' | 'DOWN'; `null` is None. */
  datatype Vote = Up | Down

  /** The two buttons, 'VOTE_UP' and 'VOTE_DOWN'. */
  datatype VoteType = VoteUp | VoteDown
  {
    /** The interaction_type string the button sends. */
    function Tag(): string
    {
      match this
      case VoteUp => VOTE_UP
      case VoteDown => VOTE_DOWN
    }

    /** The local state that shows this button as pressed. */
    function Pressed(): Vote
    {
      match this
      case VoteUp => Up
      case VoteDown => Down
    }
  }

  /** What the local state shows as counted in the score. */
  function Shown(vote: Option<Vote>): int
  {
    match vote
    case None => 0
    case Some(Up) => 1
    case Some(Down) => -1
  }

  /** The result of one click as handleVote computes it: the next local state
      and the delta added to the displayed score. */
  datatype Outcome = Outcome(vote: Option<Vote>, delta: int)

  /** A click clears the pressed button and otherwise presses it, and the
      delta is the change in what the state shows as counted. */
  function Click(vote: Option<Vote>, t: VoteType): (r: Outcome)
    ensures r.vote == (if vote == Some(t.Pressed()) then None else Some(t.Pressed()))
    ensures r.delta == Shown(r.vote) - Shown(vote)
  {
    match t
    case VoteUp =>
      if vote == Some(Up) then Outcome(None, -1)
      else if vote == Some(Down) then Outcome(Some(Up), 2)
      else Outcome(Some(Up), 1)
    case VoteDown =>
      if vote == Some(Down) then Outcome(None, 1)
      else if vote == Some(Up) then Outcome(Some(Down), -2)
      else Outcome(Some(Down), -1)
  }

  /** Two identical clicks restore both the state and the score exactly when
      the first click started from no vote or from that button pressed; from
      the other vote they end at no vote, one point away from the start. */
  lemma ClickTwice(vote: Option<Vote>, t: VoteType)
    ensures var first := Click(vote, t);
            var second := Click(first.vote, t);
            (second.vote == vote && first.delta + second.delta == 0)
            <==> (vote == None || vote == Some(t.Pressed()))
  {
  }

  /** The server row a local state stands for. */
  function RowOf(vote: Option<Vote>): Option<string>
  {
    match vote
    case None => None
    case Some(Up) => Some(VOTE_UP)
    case Some(Down) => Some(VOTE_DOWN)
  }

  /** When the local state matches the caller's row in the ledger, the
      optimistic delta is the delta the interact route computes for the same
      request, and the new local state matches the row the route leaves. */
  lemma ClientAgreesWithServer(ledger: Rows, req: Request, vote: Option<Vote>, t: VoteType)
    requires req.kind == t.Tag() && Get(ledger, req.KeyOf()) == RowOf(vote)
    ensures Click(vote, t).delta == ScoreDelta(Get(ledger, req.KeyOf()), req.kind)
    ensures RowOf(Click(vote, t).vote) == Get(LedgerAfter(ledger, req.KeyOf(), req.kind), req.KeyOf())
  {
  }

  /** The state of one rendered card. */
  class Card {
    const topicId: TargetId
    const userId: UserId
    var score: int
    var vote: Option<Vote>

    /** A card starts from the topic's net_score with no local vote. */
    constructor (topicId: TargetId, userId: UserId, netScore: int)
      ensures this.topicId == topicId && this.userId == userId
      ensures score == netScore && vote == None
    {
      this.topicId := topicId;
      this.userId := userId;
      score := netScore;
      vote := None;
    }

    /** handleVote: update the state and the displayed score at once, then
        send the request. `requestFailed` is the outcome of the request,
        which the handler only logs: the state is not reverted. */
    method HandleVote(t: VoteType, requestFailed: bool) returns (sent: Request)
      modifies this
      ensures vote == Click(old(vote), t).vote
      ensures score == old(score) + Click(old(vote), t).delta
      ensures sent == Request(userId, topicId, TOPIC, t.Tag())
    {
      var delta := 0;
      if t == VoteUp {
        if vote == Some(Up) {
          vote := None;
          delta := -1;
        } else if vote == Some(Down) {
          vote := Some(Up);
          delta := 2;
        } else {
          vote := Some(Up);
          delta := 1;
        }
      } else {
        if vote == Some(Down) {
          vote := None;
          delta := 1;
        } else if vote == Some(Up) {
          vote := Some(Down);
          delta := -2;
        } else {
          vote := Some(Down);
          delta := -1;
        }
      }
      score := score + delta;
      sent := Request(userId, topicId, TOPIC, t.Tag());
    }
  }

  // ---------------------------------------------------------------------
  // timeAgo

  /** 36e5: milliseconds in an hour. */
  const MS_PER_HOUR: int := 3600000
  const MS_PER_DAY: int := 24 * MS_PER_HOUR

  /** timeAgo with `diff`, the milliseconds since creation, as a parameter.
      The division by a positive divisor rounds down, as Math.floor does.
      Under an hour reads "Just now", under a day reads the whole hours, and
      anything older reads the whole days. */
  function TimeAgo(diff: int): (r: string)
    ensures diff < MS_PER_HOUR ==> r == "Just now"
    ensures MS_PER_HOUR <= diff < MS_PER_DAY ==> r == Decimal.NatToString(diff / MS_PER_HOUR) + "h ago"
    ensures MS_PER_DAY <= diff ==> r == Decimal.NatToString(diff / MS_PER_DAY) + "d ago"
  {
    HoursToDays(diff);
    var hours := diff / MS_PER_HOUR;
    if hours < 1 then "Just now"
    else if hours < 24 then Decimal.NatToString(hours) + "h ago"
    else Decimal.NatToString(hours / 24) + "d ago"
  }

  lemma FloorDivUnique(x: int, d: int, q: int)
    requires d > 0 && q * d <= x < (q + 1) * d
    ensures x / d == q
  {
    var r := x / d;
    assert r * d <= x < r * d + d;
    assert (r - q) * d < d && (q - r) * d < d;
    BelowOne(r - q, d);
    BelowOne(q - r, d);
  }

  lemma BelowOne(k: int, d: int)
    requires d > 0 && k * d < d
    ensures k < 1
  {
    assert (k - 1) * d < 0;
  }

  /** The whole days are the whole hours divided by 24. */
  lemma HoursToDays(diff: int)
    ensures (diff / MS_PER_HOUR) / 24 == diff / MS_PER_DAY
  {
    var q := diff / MS_PER_DAY;
    var hours := diff / MS_PER_HOUR;
    assert q * MS_PER_DAY <= diff < q * MS_PER_DAY + MS_PER_DAY;
    assert (q * 24) * MS_PER_HOUR <= diff < (q * 24 + 24) * MS_PER_HOUR;
    assert hours * MS_PER_HOUR <= diff < hours * MS_PER_HOUR + MS_PER_HOUR;
    assert q * 24 <= hours < q * 24 + 24 by {
      assert (q * 24 - 1 - hours) * MS_PER_HOUR < MS_PER_HOUR;
      assert (q * 24 + 24 - hours) * MS_PER_HOUR > 0;
      BelowOne(q * 24 - 1 - hours, MS_PER_HOUR);
      Positive(q * 24 + 24 - hours, MS_PER_HOUR);
    }
    FloorDivUnique(hours, 24, q);
  }

  lemma Positive(k: int, d: int)
    requires d > 0 && k * d > 0
    ensures k > 0
  {
    assert k * d > 0;
  }

  /** Less than an hour old (or dated in the future) reads "Just now", and
      nothing else does. */
  lemma TimeAgoJustNow(diff: int)
    ensures TimeAgo(diff) == "Just now" <==> diff < MS_PER_HOUR
  {
    var s := TimeAgo(diff);
    if diff >= MS_PER_HOUR {
      assert diff / MS_PER_HOUR >= 1;
      assert s[|s| - 1] == 'o';
    }
  }

  /** The label "<h>h ago" is shown exactly for ages of h whole hours with
      1 <= h < 24. */
  lemma TimeAgoHours(diff: int, h: nat)
    ensures TimeAgo(diff) == Decimal.NatToString(h) + "h ago"
            <==> 1 <= h < 24 && h * MS_PER_HOUR <= diff < (h + 1) * MS_PER_HOUR
  {
    var hours := diff / MS_PER_HOUR;
    var shown := Decimal.NatToString(h) + "h ago";
    if 1 <= h < 24 && h * MS_PER_HOUR <= diff < (h + 1) * MS_PER_HOUR {
      FloorDivUnique(diff, MS_PER_HOUR, h);
    }
    if TimeAgo(diff) == shown {
      var s := TimeAgo(diff);
      assert s[|s| - 5] == 'h';
      assert 1 <= hours < 24;
      var text := Decimal.NatToString(hours);
      assert s == text + "h ago";
      assert text == s[..|s| - 5] == Decimal.NatToString(h);
      Decimal.NatToStringInjective(hours, h);
      assert hours * MS_PER_HOUR <= diff < (hours + 1) * MS_PER_HOUR;
    }
  }

  /** The label "<d>d ago" is shown exactly for ages of d whole days with
      d >= 1. */
  lemma TimeAgoDays(diff: int, d: nat)
    ensures TimeAgo(diff) == Decimal.NatToString(d) + "d ago"
            <==> 1 <= d && d * MS_PER_DAY <= diff < (d + 1) * MS_PER_DAY
  {
    var hours := diff / MS_PER_HOUR;
    HoursToDays(diff);
    if 1 <= d && d * MS_PER_DAY <= diff < (d + 1) * MS_PER_DAY {
      FloorDivUnique(diff, MS_PER_DAY, d);
      assert hours >= 24;
    }
    if TimeAgo(diff) == Decimal.NatToString(d) + "d ago" {
      var s := TimeAgo(diff);
      assert s[|s| - 5] == 'd';
      assert hours >= 24;
      var text := Decimal.NatToString(hours / 24);
      assert s == text + "d ago";
      assert text == s[..|s| - 5] == Decimal.NatToString(d);
      Decimal.NatToStringInjective(hours / 24, d);
      assert diff / MS_PER_DAY == d;
    }
  }
}
