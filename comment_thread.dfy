/** The CommentThread component (components/CommentThread.tsx) as a pure
    function: a level is the comments whose parent_id is the level's
    parentId, in input order, and each of them is followed by the thread
    rooted at its own id.

    Rendered from a null root over comments with unique ids, the component
    only ever descends along chains that end at null, so it stops on every
    list: a cycle of parent links is simply never reached. The model states
    termination with a ghost `rank` on ids that a reply's id has below its
    parent's id (`Ranked`). Such a rank exists exactly when the parent links
    of the whole list have no cycle, so lists with a cycle are outside the
    model. ConsistentDepthsRank builds a rank from the stored depths. */
module CommentThread {
  import opened Wrappers
  import Store

  /** The fields of a comment row the component receives. */
  datatype Comment = Comment(id: string, content: string, authorId: string, netScore: int,
                             depth: int, parentId: Option<string>, createdAt: string)

  /** One rendered comment and the thread of its replies. */
  datatype Node = Node(comment: Comment, replies: seq<Node>)

  /** `comments.filter(c => c.parent_id === parentId)`. */
  function Level(comments: seq<Comment>, parentId: Option<string>): (r: seq<Comment>)
    ensures forall c :: c in r <==> c in comments && c.parentId == parentId
  {
    if comments == [] then []
    else
      (if comments[0].parentId == parentId then [comments[0]] else []) + Level(comments[1..], parentId)
  }

  /** Filtering keeps the input order: the level of a concatenation is the
      concatenation of the levels. */
  lemma {:induction false} LevelAppend(a: seq<Comment>, b: seq<Comment>, parentId: Option<string>)
    ensures Level(a + b, parentId) == Level(a, parentId) + Level(b, parentId)
  {
    if a == [] {
      assert a + b == b;
    } else {
      assert (a + b)[0] == a[0];
      assert (a + b)[1..] == a[1..] + b;
      LevelAppend(a[1..], b, parentId);
    }
  }

  /** Every reply's id ranks below its parent id. */
  ghost predicate Ranked(comments: seq<Comment>, rank: string -> nat)
  {
    forall c :: c in comments && c.parentId.Some? ==> rank(c.id) < rank(c.parentId.value)
  }

  ghost function MaxRank(comments: seq<Comment>, rank: string -> nat): (m: nat)
    ensures forall c :: c in comments ==> rank(c.id) <= m
  {
    if comments == [] then 0
    else
      var m := MaxRank(comments[1..], rank);
      if rank(comments[0].id) > m then rank(comments[0].id) else m
  }

  /** The termination measure of a thread rooted at `parentId`. */
  ghost function Height(comments: seq<Comment>, parentId: Option<string>, rank: string -> nat): nat
  {
    if parentId.Some? then rank(parentId.value) else MaxRank(comments, rank) + 1
  }

  /** `<CommentThread comments parentId />`: the nodes of one level, each
      with the thread rooted at its id; an empty level renders nothing. */
  function Thread(comments: seq<Comment>, parentId: Option<string>, ghost rank: string -> nat): (r: seq<Node>)
    requires Ranked(comments, rank)
    ensures |r| == |Level(comments, parentId)|
    ensures forall i :: 0 <= i < |r| ==> r[i].comment == Level(comments, parentId)[i]
    decreases Height(comments, parentId, rank), 1, 0
  {
    Expand(comments, parentId, Level(comments, parentId), rank)
  }

  /** `filtered.map(comment => ...)`: each comment of a level followed by
      the thread rooted at its id. */
  function Expand(comments: seq<Comment>, parentId: Option<string>, level: seq<Comment>,
                  ghost rank: string -> nat): (r: seq<Node>)
    requires Ranked(comments, rank)
    requires forall c :: c in level ==> c in comments && c.parentId == parentId
    ensures |r| == |level|
    ensures forall i :: 0 <= i < |r| ==>
              r[i].comment == level[i] && r[i].replies == Thread(comments, Some(level[i].id), rank)
    decreases Height(comments, parentId, rank), 0, |level|
  {
    if level == [] then []
    else [Node(level[0], Thread(comments, Some(level[0].id), rank))] + Expand(comments, parentId, level[1..], rank)
  }

  /** The comments of a list of nodes in display order. */
  function Flatten(nodes: seq<Node>): seq<Comment>
    decreases nodes
  {
    if nodes == [] then [] else [nodes[0].comment] + Flatten(nodes[0].replies) + Flatten(nodes[1..])
  }

  /** Every comment a thread rooted at `parentId` shows, in display order. */
  function Rendered(comments: seq<Comment>, parentId: Option<string>, ghost rank: string -> nat): seq<Comment>
    requires Ranked(comments, rank)
  {
    Flatten(Thread(comments, parentId, rank))
  }

  /** `c`'s chain of parent links reaches `parentId`. */
  ghost predicate Descends(comments: seq<Comment>, c: Comment, parentId: Option<string>, rank: string -> nat)
    requires Ranked(comments, rank) && c in comments
    decreases MaxRank(comments, rank) - rank(c.id)
  {
    || c.parentId == parentId
    || (c.parentId.Some? &&
        exists y :: y in comments && y.id == c.parentId.value && Descends(comments, y, parentId, rank))
  }

  lemma FlattenExpand(comments: seq<Comment>, parentId: Option<string>, level: seq<Comment>, rank: string -> nat)
    requires Ranked(comments, rank)
    requires forall c :: c in level ==> c in comments && c.parentId == parentId
    requires level != []
    ensures Flatten(Expand(comments, parentId, level, rank))
            == [level[0]] + Rendered(comments, Some(level[0].id), rank)
               + Flatten(Expand(comments, parentId, level[1..], rank))
  {
    var e := Expand(comments, parentId, level, rank);
    assert e[1..] == Expand(comments, parentId, level[1..], rank);
  }

  // ---------------------------------------------------------------------
  // Ranks along parent chains

  /** A descendant of `x` ranks below `x`. */
  lemma {:induction false} DescendsRank(comments: seq<Comment>, z: Comment, x: string, rank: string -> nat)
    requires Ranked(comments, rank) && z in comments && Descends(comments, z, Some(x), rank)
    ensures rank(z.id) < rank(x)
    decreases MaxRank(comments, rank) - rank(z.id)
  {
    if z.parentId != Some(x) {
      var y :| y in comments && y.id == z.parentId.value && Descends(comments, y, Some(x), rank);
      DescendsRank(comments, y, x, rank);
    }
  }

  /** A descendant's parent id ranks at most as high as the ancestor. */
  lemma ParentRank(comments: seq<Comment>, z: Comment, x: string, rank: string -> nat)
    requires Ranked(comments, rank) && z in comments && Descends(comments, z, Some(x), rank)
    ensures z.parentId.Some? && rank(z.parentId.value) <= rank(x)
  {
    if z.parentId != Some(x) {
      var y :| y in comments && y.id == z.parentId.value && Descends(comments, y, Some(x), rank);
      DescendsRank(comments, y, x, rank);
    }
  }

  /** A descendant of a child of `parentId` descends from `parentId`. */
  lemma {:induction false} DescendsThrough(comments: seq<Comment>, z: Comment, c: Comment, parentId: Option<string>,
                                           rank: string -> nat)
    requires Ranked(comments, rank) && z in comments && c in comments && c.parentId == parentId
    requires Descends(comments, z, Some(c.id), rank)
    ensures Descends(comments, z, parentId, rank)
    decreases MaxRank(comments, rank) - rank(z.id)
  {
    if z.parentId == Some(c.id) {
      assert Descends(comments, c, parentId, rank);
    } else {
      var y :| y in comments && y.id == z.parentId.value && Descends(comments, y, Some(c.id), rank);
      DescendsThrough(comments, y, c, parentId, rank);
    }
  }

  /** Two comments with the same parent never descend from one another. */
  lemma NoSiblingDescent(comments: seq<Comment>, c: Comment, s: Comment, rank: string -> nat)
    requires Ranked(comments, rank) && c in comments && s in comments && c.parentId == s.parentId
    ensures !Descends(comments, s, Some(c.id), rank)
  {
    if Descends(comments, s, Some(c.id), rank) {
      ParentRank(comments, s, c.id, rank);
    }
  }

  // ---------------------------------------------------------------------
  // What is rendered: exactly the comments whose chain reaches the root

  lemma {:induction false} RenderedDescends(comments: seq<Comment>, parentId: Option<string>, rank: string -> nat,
                                            z: Comment)
    requires Ranked(comments, rank) && z in Rendered(comments, parentId, rank)
    ensures z in comments && Descends(comments, z, parentId, rank)
    decreases Height(comments, parentId, rank), 1, 0
  {
    ExpandedDescends(comments, parentId, Level(comments, parentId), rank, z);
  }

  lemma {:induction false} ExpandedDescends(comments: seq<Comment>, parentId: Option<string>, level: seq<Comment>,
                                            rank: string -> nat, z: Comment)
    requires Ranked(comments, rank)
    requires forall c :: c in level ==> c in comments && c.parentId == parentId
    requires z in Flatten(Expand(comments, parentId, level, rank))
    ensures z in comments && Descends(comments, z, parentId, rank)
    decreases Height(comments, parentId, rank), 0, |level|
  {
    FlattenExpand(comments, parentId, level, rank);
    var c := level[0];
    if z == c {
    } else if z in Rendered(comments, Some(c.id), rank) {
      RenderedDescends(comments, Some(c.id), rank, z);
      DescendsThrough(comments, z, c, parentId, rank);
    } else {
      ExpandedDescends(comments, parentId, level[1..], rank, z);
    }
  }

  lemma {:induction false} LevelShown(comments: seq<Comment>, parentId: Option<string>, level: seq<Comment>,
                                      rank: string -> nat, c: Comment)
    requires Ranked(comments, rank)
    requires forall x :: x in level ==> x in comments && x.parentId == parentId
    requires c in level
    ensures c in Flatten(Expand(comments, parentId, level, rank))
    decreases |level|
  {
    FlattenExpand(comments, parentId, level, rank);
    if c != level[0] {
      LevelShown(comments, parentId, level[1..], rank, c);
    }
  }

  lemma {:induction false} SubtreeRendered(comments: seq<Comment>, parentId: Option<string>, rank: string -> nat,
                                           y: Comment, w: Comment)
    requires Ranked(comments, rank)
    requires y in Rendered(comments, parentId, rank) && w in Rendered(comments, Some(y.id), rank)
    ensures w in Rendered(comments, parentId, rank)
    decreases Height(comments, parentId, rank), 1, 0
  {
    SubtreeExpanded(comments, parentId, Level(comments, parentId), rank, y, w);
  }

  lemma {:induction false} SubtreeExpanded(comments: seq<Comment>, parentId: Option<string>, level: seq<Comment>,
                                           rank: string -> nat, y: Comment, w: Comment)
    requires Ranked(comments, rank)
    requires forall c :: c in level ==> c in comments && c.parentId == parentId
    requires y in Flatten(Expand(comments, parentId, level, rank)) && w in Rendered(comments, Some(y.id), rank)
    ensures w in Flatten(Expand(comments, parentId, level, rank))
    decreases Height(comments, parentId, rank), 0, |level|
  {
    FlattenExpand(comments, parentId, level, rank);
    var c := level[0];
    if y == c {
    } else if y in Rendered(comments, Some(c.id), rank) {
      SubtreeRendered(comments, Some(c.id), rank, y, w);
    } else {
      SubtreeExpanded(comments, parentId, level[1..], rank, y, w);
    }
  }

  lemma {:induction false} DescendsRendered(comments: seq<Comment>, z: Comment, parentId: Option<string>,
                                            rank: string -> nat)
    requires Ranked(comments, rank) && z in comments && Descends(comments, z, parentId, rank)
    ensures z in Rendered(comments, parentId, rank)
    decreases MaxRank(comments, rank) - rank(z.id)
  {
    if z.parentId == parentId {
      LevelShown(comments, parentId, Level(comments, parentId), rank, z);
    } else {
      var y :| y in comments && y.id == z.parentId.value && Descends(comments, y, parentId, rank);
      DescendsRendered(comments, y, parentId, rank);
      LevelShown(comments, Some(y.id), Level(comments, Some(y.id)), rank, z);
      SubtreeRendered(comments, parentId, rank, y, z);
    }
  }

  /** A thread shows a comment exactly when the comment is in the list and
      its chain of parent links reaches the thread's root; in particular a
      comment whose chain never reaches the root is never shown. */
  lemma RenderedExactly(comments: seq<Comment>, parentId: Option<string>, rank: string -> nat, z: Comment)
    requires Ranked(comments, rank)
    ensures z in Rendered(comments, parentId, rank) <==> z in comments && Descends(comments, z, parentId, rank)
  {
    if z in Rendered(comments, parentId, rank) {
      RenderedDescends(comments, parentId, rank, z);
    }
    if z in comments && Descends(comments, z, parentId, rank) {
      DescendsRendered(comments, z, parentId, rank);
    }
  }

  // ---------------------------------------------------------------------
  // Nothing is rendered twice

  predicate UniqueIds(comments: seq<Comment>)
  {
    forall i, j :: 0 <= i < j < |comments| ==> comments[i].id != comments[j].id
  }

  predicate NoRepeats<T(==)>(s: seq<T>)
  {
    forall i, j :: 0 <= i < j < |s| ==> s[i] != s[j]
  }

  lemma SameIdSameComment(comments: seq<Comment>, x: Comment, y: Comment)
    requires UniqueIds(comments) && x in comments && y in comments && x.id == y.id
    ensures x == y
  {
    var i :| 0 <= i < |comments| && comments[i] == x;
    var j :| 0 <= j < |comments| && comments[j] == y;
    assert !(i < j) && !(j < i);
  }

  lemma UniqueIdsJoin(a: seq<Comment>, b: seq<Comment>)
    requires UniqueIds(a) && UniqueIds(b)
    requires forall x, y :: x in a && y in b ==> x.id != y.id
    ensures UniqueIds(a + b)
  {
    forall i, j | 0 <= i < j < |a + b| ensures (a + b)[i].id != (a + b)[j].id {
      if i < |a| <= j {
        assert (a + b)[i] in a && (a + b)[j] in b;
      }
    }
  }

  lemma {:induction false} LevelUniqueIds(comments: seq<Comment>, parentId: Option<string>)
    requires UniqueIds(comments)
    ensures UniqueIds(Level(comments, parentId))
  {
    if comments != [] {
      var rest := comments[1..];
      var head := if comments[0].parentId == parentId then [comments[0]] else [];
      assert UniqueIds(rest);
      LevelUniqueIds(rest, parentId);
      forall x, y | x in head && y in Level(rest, parentId) ensures x.id != y.id {
        var k :| 0 <= k < |rest| && rest[k] == y;
        assert comments[k + 1] == y;
      }
      UniqueIdsJoin(head, Level(rest, parentId));
    }
  }

  lemma NoRepeatsJoin<T>(a: seq<T>, b: seq<T>)
    requires NoRepeats(a) && NoRepeats(b)
    requires forall x :: x in a ==> x !in b
    ensures NoRepeats(a + b)
  {
    forall i, j | 0 <= i < j < |a + b| ensures (a + b)[i] != (a + b)[j] {
      if j >= |a| && i < |a| {
        assert (a + b)[i] in a && (a + b)[j] in b;
      }
    }
  }

  /** Two parent chains that reach two different comments meet: one of the
      two descends from the other. */
  lemma {:induction false} ChainsMeet(comments: seq<Comment>, w: Comment, a: Comment, b: Comment, rank: string -> nat)
    requires Ranked(comments, rank) && UniqueIds(comments)
    requires w in comments && a in comments && b in comments && a.id != b.id
    requires Descends(comments, w, Some(a.id), rank) && Descends(comments, w, Some(b.id), rank)
    ensures Descends(comments, a, Some(b.id), rank) || Descends(comments, b, Some(a.id), rank)
    decreases MaxRank(comments, rank) - rank(w.id)
  {
    if w.parentId == Some(a.id) {
      var y :| y in comments && y.id == w.parentId.value && Descends(comments, y, Some(b.id), rank);
      SameIdSameComment(comments, y, a);
    } else if w.parentId == Some(b.id) {
      var y :| y in comments && y.id == w.parentId.value && Descends(comments, y, Some(a.id), rank);
      SameIdSameComment(comments, y, b);
    } else {
      var ya :| ya in comments && ya.id == w.parentId.value && Descends(comments, ya, Some(a.id), rank);
      var yb :| yb in comments && yb.id == w.parentId.value && Descends(comments, yb, Some(b.id), rank);
      SameIdSameComment(comments, ya, yb);
      ChainsMeet(comments, ya, a, b, rank);
    }
  }

  /** What a list of siblings shows is each sibling and its descendants. */
  lemma {:induction false} ExpandedMember(comments: seq<Comment>, parentId: Option<string>, level: seq<Comment>,
                                          rank: string -> nat, w: Comment)
    returns (k: nat)
    requires Ranked(comments, rank)
    requires forall c :: c in level ==> c in comments && c.parentId == parentId
    requires w in Flatten(Expand(comments, parentId, level, rank))
    ensures k < |level|
    ensures w == level[k] || (w in comments && Descends(comments, w, Some(level[k].id), rank))
    decreases |level|
  {
    FlattenExpand(comments, parentId, level, rank);
    var c := level[0];
    if w == c {
      k := 0;
    } else if w in Rendered(comments, Some(c.id), rank) {
      RenderedDescends(comments, Some(c.id), rank, w);
      k := 0;
    } else {
      var j := ExpandedMember(comments, parentId, level[1..], rank, w);
      k := j + 1;
    }
  }

  /** What the later siblings of a level show is neither the first sibling
      nor anything the first sibling's thread shows. */
  lemma LaterSiblingsApart(comments: seq<Comment>, parentId: Option<string>, level: seq<Comment>,
                           rank: string -> nat, w: Comment)
    requires Ranked(comments, rank) && UniqueIds(comments) && UniqueIds(level)
    requires forall c :: c in level ==> c in comments && c.parentId == parentId
    requires level != [] && w in Flatten(Expand(comments, parentId, level[1..], rank))
    ensures w != level[0] && w !in Rendered(comments, Some(level[0].id), rank)
  {
    var c := level[0];
    var k := ExpandedMember(comments, parentId, level[1..], rank, w);
    var s := level[k + 1];
    assert s.id != c.id;
    NoSiblingDescent(comments, c, s, rank);
    NoSiblingDescent(comments, s, c, rank);
    if w in Rendered(comments, Some(c.id), rank) {
      RenderedDescends(comments, Some(c.id), rank, w);
      if w != s {
        ChainsMeet(comments, w, c, s, rank);
      }
    }
  }

  lemma {:induction false} RenderedNoRepeats(comments: seq<Comment>, parentId: Option<string>, rank: string -> nat)
    requires Ranked(comments, rank) && UniqueIds(comments)
    ensures NoRepeats(Rendered(comments, parentId, rank))
    decreases Height(comments, parentId, rank), 1, 0
  {
    LevelUniqueIds(comments, parentId);
    ExpandedNoRepeats(comments, parentId, Level(comments, parentId), rank);
  }

  lemma {:induction false} ExpandedNoRepeats(comments: seq<Comment>, parentId: Option<string>, level: seq<Comment>,
                                             rank: string -> nat)
    requires Ranked(comments, rank) && UniqueIds(comments) && UniqueIds(level)
    requires forall c :: c in level ==> c in comments && c.parentId == parentId
    ensures NoRepeats(Flatten(Expand(comments, parentId, level, rank)))
    decreases Height(comments, parentId, rank), 0, |level|
  {
    if level != [] {
      FlattenExpand(comments, parentId, level, rank);
      var c := level[0];
      var sub := Rendered(comments, Some(c.id), rank);
      var tail := Flatten(Expand(comments, parentId, level[1..], rank));
      RenderedNoRepeats(comments, Some(c.id), rank);
      UniqueIdsTail(level);
      ExpandedNoRepeats(comments, parentId, level[1..], rank);
      NotInOwnThread(comments, c, rank);
      forall w | w in tail ensures w != c && w !in sub {
        LaterSiblingsApart(comments, parentId, level, rank, w);
      }
      NoRepeatsJoin([c], sub);
      NoRepeatsJoin([c] + sub, tail);
    }
  }

  lemma UniqueIdsTail(s: seq<Comment>)
    requires UniqueIds(s) && s != []
    ensures UniqueIds(s[1..])
  {
    forall i, j | 0 <= i < j < |s| - 1 ensures s[1..][i].id != s[1..][j].id {
      assert s[1..][i] == s[i + 1] && s[1..][j] == s[j + 1];
    }
  }

  /** A comment's own thread does not show it. */
  lemma NotInOwnThread(comments: seq<Comment>, c: Comment, rank: string -> nat)
    requires Ranked(comments, rank)
    ensures c !in Rendered(comments, Some(c.id), rank)
  {
    if c in Rendered(comments, Some(c.id), rank) {
      RenderedDescends(comments, Some(c.id), rank, c);
      DescendsRank(comments, c, c.id, rank);
    }
  }

  /** With unique ids, no comment is shown twice anywhere in a thread. */
  lemma RenderedOnce(comments: seq<Comment>, parentId: Option<string>, rank: string -> nat)
    requires Ranked(comments, rank) && UniqueIds(comments)
    ensures NoRepeats(Rendered(comments, parentId, rank))
  {
    RenderedNoRepeats(comments, parentId, rank);
  }

  // ---------------------------------------------------------------------
  // A rank from the stored depths

  /** Every stored depth is within 0..Store.MAX_DEPTH and a reply is one level
      deeper than its parent, as the comments route stores them. */
  predicate ConsistentDepths(comments: seq<Comment>)
  {
    && (forall c :: c in comments ==> 0 <= c.depth <= Store.MAX_DEPTH)
    && (forall c, p :: c in comments && p in comments && c.parentId == Some(p.id) ==> c.depth == p.depth + 1)
  }

  /** The depth of the first comment with the given id. */
  function DepthOf(comments: seq<Comment>, id: string): (r: Option<int>)
    ensures r.None? <==> forall c :: c in comments ==> c.id != id
  {
    if comments == [] then None
    else if comments[0].id == id then Some(comments[0].depth)
    else DepthOf(comments[1..], id)
  }

  lemma {:induction false} DepthOfFound(comments: seq<Comment>, c: Comment)
    requires UniqueIds(comments) && c in comments
    ensures DepthOf(comments, c.id) == Some(c.depth)
  {
    if comments[0] != c {
      assert comments[0].id != c.id by {
        var k :| 0 <= k < |comments| && comments[k] == c;
        assert k != 0;
      }
      UniqueIdsTail(comments);
      DepthOfFound(comments[1..], c);
    }
  }

  /** Store.MAX_DEPTH minus the stored depth; Store.MAX_DEPTH + 1 for an id no comment has. */
  function DepthRank(comments: seq<Comment>): string -> nat
  {
    id => match DepthOf(comments, id)
          case Some(d) => if 0 <= d <= Store.MAX_DEPTH then Store.MAX_DEPTH - d else Store.MAX_DEPTH + 1
          case None => Store.MAX_DEPTH + 1
  }

  /** Unique ids and depths stored by the comments route rule out cycles:
      they rank every reply below its parent, so the thread is finite. */
  lemma ConsistentDepthsRank(comments: seq<Comment>)
    requires UniqueIds(comments) && ConsistentDepths(comments)
    ensures Ranked(comments, DepthRank(comments))
  {
    var rank := DepthRank(comments);
    forall c | c in comments && c.parentId.Some? ensures rank(c.id) < rank(c.parentId.value) {
      DepthOfFound(comments, c);
      if p :| p in comments && p.id == c.parentId.value {
        DepthOfFound(comments, p);
      }
    }
  }
}
