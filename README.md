# Forum votes, comment threads and the topic feed, in Dafny

This project models the core of a small discussion forum. Users create
topics, post threaded comments, and vote on both. The model covers five
pieces of the repository:

- **The interact route** (`app/api/interact/route.ts`). There is one live
  interaction row per (user, target, target type). A request inserts the
  row, toggles it off (same type again) or switches its type. The route
  then adds a signed delta to the target's `net_score` counter through an
  RPC.
  - Modules: `Ledger` holds the rules as functions and lemmas. `Store`
    holds the tables as a `Database` class. `InteractRoute.Post` is the
    handler as an imperative method that takes the `Database` and changes
    it.
- **The topic card** (`components/TopicCard.tsx`). `TopicCard.Card` is a
  class with `score` and `vote` fields. Its `HandleVote` method is the
  optimistic vote state machine. `TimeAgo` is the "Just now / Nh ago /
  Nd ago" label.
- **The comments route** (`app/api/comments/route.ts`). GET turns the
  `sort` parameter into order clauses. POST computes a new comment's depth
  from its parent and refuses depth above 5.
- **The comment thread** (`components/CommentThread.tsx`). This is a pure
  recursive function. Each level is the comments whose `parent_id` is the
  level's parent, and each of them is followed by the thread under its
  own id. The page renders it from a null root
  (`app/topics/[id]/page.tsx:122-127`). With unique ids it then follows only
  chains that end at null, so it stops on every list. The model states
  termination with a ghost rank on ids that falls from parent to reply.
  Such a rank exists exactly when the whole list has no cycle of parent
  links. `ConsistentDepthsRank` shows that the depths the comments route
  stores provide one.
- **The topics route** (`app/api/topics/route.ts`). GET maps `page`
  through `parseInt` (the `Decimal` module) to the row window
  `[(page-1)*20, (page-1)*20+19]`. POST creates a topic with
  `net_score = 1`.

`EndToEnd.VoteScenario` runs the topics route and the interact route
against one store.

Where the code and its intent disagree, the model follows the code:

- **Vote replaced by HEART.** The interact route's own comment
  (`app/api/interact/route.ts:15-17`) says a switch to a different type
  applies the difference to the score. For a vote replaced by HEART (or
  by any unrecognised type), the code instead falls through to that
  type's base value, 0. The vote stays counted although its row is gone.
  `Ledger.ScoreDelta` states the delta is 0 on exactly these transitions.
  `Ledger.DeltaMatchesLedger` shows that these are the only ones where the
  delta is not the change in the ledger. `Ledger.HeartOverUpVoteDrifts`
  exhibits one.
- **No validation or not-found errors.** The code never checks
  `interaction_type`, `target_type`, the target, the parent or the title.
  An unknown type has base value 0. Any target type other than `'TOPIC'`
  moves the comment counter. A missing parent gives depth 0. A title is
  stored as given.

## Model

| member | source | states |
|---|---|---|
| Ledger.CounterOf | app/api/interact/route.ts:67-72 | The counter moved is the topic counter exactly when target_type is 'TOPIC', and the comment counter for every other string; its id is target_id. |
| Ledger.BaseDelta | app/api/interact/route.ts:32-34 | The base value is within -1..1, nonzero exactly for VOTE_UP and VOTE_DOWN, and +1 exactly for VOTE_UP; HEART and unknown strings weigh 0. |
| Ledger.ScoreDelta | app/api/interact/route.ts:32-55 | The delta is the change in the key's contribution (the base value of its live row, 0 without one), except on a vote replaced by a weight-0 type, where it is 0. |
| Ledger.NextRow | app/api/interact/route.ts:39-63 | The row disappears exactly when the existing row has the requested type; otherwise the key holds the requested type (insert or in-place update). |
| Ledger.LedgerAfter | app/api/interact/route.ts:39-63 | A request changes only its own key's row, which becomes NextRow of the old one; every other key keeps its row. |
| Ledger.AddScore | app/api/interact/route.ts:67-75 | The RPC adds the delta to the selected counter only; no counter is created or removed and all others keep their values. |
| Ledger.DeltaMatchesLedger | app/api/interact/route.ts:32-55 | The route's delta equals the change in the key's contribution (base value of the live row) if and only if the transition is not a vote replaced by a weight-0 type. |
| Ledger.Step | app/api/interact/route.ts:23-75 | One request changes only its key's row, to NextRow of the old one, keeps the set of counters, and moves only the counter target_type selects, by ScoreDelta. |
| Ledger.ToggleTwice | app/api/interact/route.ts:39-43 | Sending the same request twice restores the whole ledger and every counter exactly when the key had no row or a row of that type. |
| Ledger.TallyAfter | app/api/interact/route.ts:39-63 | A request changes the sum of live base values on its own counter by the change in its key's contribution, and leaves every other counter's sum alone. |
| Ledger.VoteStepKeepsBalance | app/api/interact/route.ts:32-75 | A VOTE_UP/VOTE_DOWN request keeps each counter minus the sum of its live rows' base values unchanged. |
| Ledger.VotesKeepBalance | app/api/interact/route.ts:32-75 | For any sequence of vote requests, each counter minus the sum of its live rows' base values is invariant. |
| Ledger.VotesFromEmptyLedger | app/api/interact/route.ts:32-75 | From an empty ledger, votes leave each counter at its initial value plus the sum of the base values of the live rows on it. |
| Ledger.HeartOverUpVoteDrifts | app/api/interact/route.ts:44-54 | HEART over a live VOTE_UP row turns it into HEART and leaves the counter unchanged while the live rows' sum drops by one. |
| Store.Database.UpdateScore | app/api/interact/route.ts:71-74 | The score RPC: the counter map becomes AddScore of the old one and the topics, comments and interactions tables are unchanged. |
| InteractRoute.Post | app/api/interact/route.ts:10-78 | The handler returns ScoreDelta of the row found, leaves ledger and counters as Step of the old state, keeps the store invariant and does not touch topics or comments. |
| TopicCard.Click | components/TopicCard.tsx:27-50 | A click clears the button when it is already pressed and presses it otherwise, and the score delta is the change in what the vote state shows as counted. |
| TopicCard.ClickTwice | components/TopicCard.tsx:25-52 | Two identical clicks restore both vote and score exactly when the first started from no vote or from that button pressed. |
| TopicCard.ClientAgreesWithServer | components/TopicCard.tsx:25-65 | When the local vote matches the user's ledger row, the optimistic delta equals the interact route's delta for the request sent and the new local vote matches the row the route leaves. |
| TopicCard.Card.constructor | components/TopicCard.tsx:19-22 | A card starts at the topic's net_score with no local vote. |
| TopicCard.Card.HandleVote | components/TopicCard.tsx:25-70 | The vote becomes Click's next state, the score moves by Click's delta, and the request sent is a TOPIC interaction of the button's type; a failed request reverts nothing. |
| TopicCard.TimeAgo | components/TopicCard.tsx:72-78 | Under an hour the label is "Just now", under a day it is the whole hours with "h ago", and from a day on it is the whole days with "d ago". |
| TopicCard.TimeAgoJustNow | components/TopicCard.tsx:72-75 | The label is "Just now" if and only if less than an hour has passed (or the date is in the future). |
| TopicCard.TimeAgoHours | components/TopicCard.tsx:73-76 | The label is "<h>h ago" if and only if 1 <= h < 24 and the age lies in [h, h+1) hours. |
| TopicCard.TimeAgoDays | components/TopicCard.tsx:73-77 | The label is "<d>d ago" if and only if d >= 1 and the age lies in [d, d+1) days. |
| TopicCard.HoursToDays | components/TopicCard.tsx:74-77 | Flooring hours and then dividing by 24 gives the whole days of the age. |
| Decimal.NatToString | components/TopicCard.tsx:76 | The decimal rendering of a number is non-empty, all digits, and has no leading zero. |
| Decimal.NatToStringRoundTrip | components/TopicCard.tsx:76 | Reading the rendered digits back gives the number. |
| Decimal.NatToStringInjective | components/TopicCard.tsx:76-77 | Different numbers render differently. |
| Decimal.TrimStart | app/api/topics/route.ts:12 | The text parseInt starts from is a suffix after white space only and does not start with white space. |
| Decimal.DigitPrefix | app/api/topics/route.ts:12 | parseInt reads the longest prefix made of digits of the radix. |
| Decimal.ParseInt | app/api/topics/route.ts:12 | Blank text, and text whose first non-blank character is neither a decimal digit nor a sign, gives NaN; only a leading minus gives a negative number. |
| Decimal.ParseIntOfNatToString | app/api/topics/route.ts:12 | parseInt reads back any decimal number followed by a non-alphanumeric tail. |
| Params.OrDefault | app/api/comments/route.ts:13 | `param \|\| fallback`: the fallback exactly when the parameter is missing, empty or equal to the fallback; a given parameter is used as is. The comments route uses it for the sort ('top') and the topics route for the page ('1', app/api/topics/route.ts:12). |
| CommentsRoute.Get | app/api/comments/route.ts:10-36 | 400 exactly when topic_id is missing or empty; otherwise the topic's comments with created_at descending for 'new', net_score descending for 'top' and for a missing or empty sort, both net_score clauses for 'controversial', and no ordering for any other value. |
| CommentsRoute.DepthFor | app/api/comments/route.ts:48-59 | The depth is 0 without a parent id, 0 when no row has the parent id, and the parent's depth plus one otherwise. |
| CommentsRoute.DepthLimit | app/api/comments/route.ts:48-63 | Depth is never negative, and a reply is refused exactly when its parent is found at depth 5 or more (a parent at depth 4 yields depth 5). |
| CommentsRoute.Post | app/api/comments/route.ts:44-78 | Too deep gives 400 and no change; a taken id gives 500 and no change; otherwise the row is inserted with the computed depth and a counter at 0, keeping the store invariant. |
| CommentThread.Level | components/CommentThread.tsx:30 | A level holds exactly the comments whose parent_id equals the level's parent id. |
| CommentThread.LevelAppend | components/CommentThread.tsx:30 | Filtering keeps the input order: the level of a concatenation is the concatenation of the levels. |
| CommentThread.Thread | components/CommentThread.tsx:30-32 | A thread shows one node per comment of its level, in the level's order; an empty level shows nothing. |
| CommentThread.Expand | components/CommentThread.tsx:68-108 | Each node's replies are the thread rooted at that comment's id. |
| CommentThread.RenderedExactly | components/CommentThread.tsx:30-108 | A thread shows a comment if and only if the comment is in the list and its chain of parent links reaches the thread's root; a comment whose chain never reaches the root is never shown. |
| CommentThread.RenderedOnce | components/CommentThread.tsx:30-108 | With unique ids, no comment is shown twice anywhere in the tree. |
| CommentThread.NotInOwnThread | components/CommentThread.tsx:103-108 | A comment never appears in the thread under its own id. |
| CommentThread.NoSiblingDescent | components/CommentThread.tsx:103-108 | Two comments with the same parent never descend from one another. |
| CommentThread.ChainsMeet | components/CommentThread.tsx:103-108 | With unique ids, two ancestors of one comment are themselves ancestor and descendant. |
| CommentThread.ConsistentDepthsRank | app/api/comments/route.ts:48-63 | Unique ids and depths stored as the comments route stores them rank every reply below its parent, so the thread recursion terminates. |
| TopicsRoute.RequestedPage | app/api/topics/route.ts:12 | A missing or empty page parameter reads as page 1; a given one is what parseInt makes of it. |
| TopicsRoute.PageParamRoundTrip | app/api/topics/route.ts:12 | A page written as a decimal number, possibly followed by non-alphanumeric text, is read as that number. |
| TopicsRoute.Offset | app/api/topics/route.ts:13-14 | The offset is a whole number of pages from which the page is recovered, and it is non-negative exactly from page 1 on. |
| TopicsRoute.RangeFor | app/api/topics/route.ts:14-34 | The window starts at the page's offset and spans exactly 20 positions. |
| TopicsRoute.WindowsAdjacent | app/api/topics/route.ts:14-34 | Page p+1's window starts right after page p's, so pages neither overlap nor leave a gap. |
| TopicsRoute.PageOfPosition | app/api/topics/route.ts:13-34 | Every position from 0 on is in the window of exactly one page, position / 20 + 1. |
| TopicsRoute.Fetch | app/api/topics/route.ts:34 | The range returns the window's positions that exist, in order and no others. |
| TopicsRoute.PageRows | app/api/topics/route.ts:12-34 | A page from 1 on fetches the rows from its offset on, in order: twenty when that many remain, the remaining ones otherwise, none past the end. |
| TopicsRoute.PagesTile | app/api/topics/route.ts:12-34 | Reading pages 1..n in turn yields exactly the first 20n rows (or all of them), in order, with no overlap and no gap. |
| TopicsRoute.Post | app/api/topics/route.ts:58-73 | A taken id gives 500 and no change; otherwise the topic is inserted with net_score 1 and the store invariant is kept. |
| EndToEnd.VoteScenario | app/api/topics/route.ts:62-66 | A new topic starts at 1. Then alice votes up twice and bob votes down then up. The deltas are +1, -1, -1, +2 and the score ends at 2. |

## Left out

- Ranking: the in-memory sort with the floating-point gravity formula (`app/api/topics/route.ts:49-53`) is not modelled. Dafny has no IEEE doubles, and the comparator reads the clock.
- Comment counts: the `increment_comment_count` RPC after a comment insert (`app/api/comments/route.ts:83`) is not modelled. Its body is not in the repository, and the route ignores its result.
- Database errors and the 500 responses they cause are not modelled, except for a duplicate id on insert. The interact route ignores errors and always answers success.
- Concurrency is not modelled. Each request runs alone and in order; interleavings between the lookup and the write are out of scope.
- Controversial sort: the model keeps the two order clauses the route chains. The order Supabase then applies depends on the client library and is not modelled.
- Row ids, `created_at` and the clock are parameters. `Date.now() - new Date(dateStr)` is the `diff` argument of `TimeAgo`. An unparseable date (NaN) is not modelled.
- TopicsRoute.PageRows: only pages from 1 on are modelled. A page of 0, a negative page or NaN produces a negative or NaN range offset, and what Supabase returns for those is not visible in the source.
- Decimal.ParseInt: the model is exact over unbounded integers. JavaScript's loss of precision above 2^53 is not modelled.
- Store.Database: the database default for a new comment's `net_score` is taken as 0, because the schema is not part of this model. Foreign keys (a comment's topic, a parent in the same topic) are not modelled.
- CommentThread.Thread: lists with a parent cycle are outside the model. The source renders them from a null root and never shows the cycle (for example [a under b, b under a, c top-level] shows only c). The model requires a ghost rank on the whole list, and no rank exists for such a list. `ConsistentDepthsRank` derives a rank from stored depths. The model does not prove that the store keeps parent links and depths consistent, because the comments route can insert a row whose id an earlier comment already names as a missing parent.
- CommentThread: the vote and reply handlers, the reply form state and the JSX are not modelled. They are UI and transport.
- TopicCard: the fetch of the request and the user-id hook are not modelled. `HandleVote` returns the request it would send, and a failure is a flag that changes nothing.
