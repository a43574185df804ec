/** Sequences of posts and comments, and what ought to be stored once they have arrived. */
module Arrivals {
  import opened Bytes
  import opened Social

  /** A post, or a comment that is written at `now` if it has to wait. */
  datatype Arrival = PostArrives(post: Id) | CommentArrives(comment: Comment, now: int)

  // ---------------------------------------------------------------------------------------------
  // What arrived
  // ---------------------------------------------------------------------------------------------

  /** The posts among the first `n` arrivals. */
  ghost function PostsOf(a: seq<Arrival>, n: nat): set<Id>
    requires n <= |a|
  {
    if n == 0 then {}
    else
      match a[n - 1]
      case PostArrives(post) => PostsOf(a, n - 1) + {post}
      case CommentArrives(_, _) => PostsOf(a, n - 1)
  }

  /** The comments among the first `n` arrivals. */
  ghost function TableOf(a: seq<Arrival>, n: nat): Table
    requires n <= |a|
  {
    if n == 0 then map[]
    else
      match a[n - 1]
      case PostArrives(_) => TableOf(a, n - 1)
      case CommentArrives(c, _) => TableOf(a, n - 1)[c.id := Normalised(c)]
  }

  ghost predicate SameId(x: Arrival, y: Arrival) {
    || (x.PostArrives? && y.PostArrives? && x.post == y.post)
    || (x.CommentArrives? && y.CommentArrives? && x.comment.id == y.comment.id)
  }

  ghost predicate DistinctIds(a: seq<Arrival>) {
    forall i, j :: 0 <= i < j < |a| ==> !SameId(a[i], a[j])
  }

  lemma {:induction false} PostsOfContains(a: seq<Arrival>, n: nat, post: Id)
    requires n <= |a|
    ensures post in PostsOf(a, n) <==> exists i :: 0 <= i < n && a[i] == PostArrives(post)
  {
    if n > 0 { PostsOfContains(a, n - 1, post); }
  }

  ghost predicate IsComment(x: Arrival, id: Id, c: Comment) {
    x.CommentArrives? && x.comment.id == id && Normalised(x.comment) == c
  }

  lemma {:induction false} TableOfContains(a: seq<Arrival>, n: nat, id: Id)
    requires n <= |a| && DistinctIds(a)
    ensures id in TableOf(a, n) <==> exists i :: 0 <= i < n && a[i].CommentArrives? && a[i].comment.id == id
    ensures forall i :: 0 <= i < n && a[i].CommentArrives? && a[i].comment.id == id ==>
      id in TableOf(a, n) && TableOf(a, n)[id] == Normalised(a[i].comment)
  {
    if n > 0 { TableOfContains(a, n - 1, id); }
  }

  // ---------------------------------------------------------------------------------------------
  // The least fixpoint of what arrived
  // ---------------------------------------------------------------------------------------------

  ghost function Fixpoint(posts: set<Id>, live: Table): set<Id> {
    set id | id in live && forall t :: Closed(posts, live, t) ==> id in t
  }

  lemma FixpointIsLeast(posts: set<Id>, live: Table, s: set<Id>)
    requires s <= live.Keys
    ensures LeastClosed(posts, live, s) <==> s == Fixpoint(posts, live)
  {
    var least := Fixpoint(posts, live);
    forall id | id in live && Ready(live[id], posts, least) ensures id in least {
      forall t | Closed(posts, live, t) ensures id in t { assert Ready(live[id], posts, t); }
    }
    assert Closed(posts, live, least);
  }

  /** What is stored in the end, and what waits. */
  ghost function StoredOf(a: seq<Arrival>): Table {
    var live := TableOf(a, |a|);
    map id | id in live && id in Fixpoint(PostsOf(a, |a|), live) :: live[id]
  }

  ghost function LeftOf(a: seq<Arrival>): Table {
    LeftAt(a, |a|)
  }

  /** What waits after the first `n` arrivals if all the rest is stored. */
  ghost function LeftAt(a: seq<Arrival>, n: nat): Table
    requires n <= |a|
  {
    var live := TableOf(a, n);
    map id | id in live && id !in Fixpoint(PostsOf(a, n), live) :: live[id]
  }

  /** After none of the first `n` arrivals more comments are left than the buffer holds. */
  ghost predicate FitsUpTo(a: seq<Arrival>, n: nat)
    requires n <= |a|
  {
    forall m: nat :: m <= n ==> |LeftAt(a, m).Keys| <= MAX_ORPHAN_COMMENTS
  }

  /** Nor more comments to one post than a scan returns. */
  ghost predicate FewWait(a: seq<Arrival>) {
    FitsUpTo(a, |a|) && forall m: nat :: m <= |a| ==> FewPerPost(LeftAt(a, m))
  }

  /** The fixpoint grows with what arrives. */
  lemma FixpointGrows(posts: set<Id>, live: Table, posts': set<Id>, live': Table)
    requires posts <= posts' && forall id :: id in live ==> id in live' && live'[id] == live[id]
    ensures Fixpoint(posts, live) <= Fixpoint(posts', live')
  {
    forall id | id in Fixpoint(posts, live) ensures id in Fixpoint(posts', live') {
      forall t | Closed(posts', live', t) ensures id in t {
        assert Closed(posts, live, t) by {
          forall j | j in live && Ready(live[j], posts, t) ensures j in t { assert Ready(live'[j], posts', t); }
        }
      }
    }
  }

  /** A comment that is not ready leaves it as it was. */
  lemma UnreadyLeavesFixpoint(posts: set<Id>, live: Table, c: Comment)
    requires c.id !in live && !Ready(c, posts, Fixpoint(posts, live))
    ensures Fixpoint(posts, live[c.id := c]) == Fixpoint(posts, live)
  {
    var live' := live[c.id := c];
    FixpointIsLeast(posts, live, Fixpoint(posts, live));
    FixpointGrows(posts, live, posts, live');
    assert Closed(posts, live', Fixpoint(posts, live));
  }

  lemma {:induction false} ArrivedStays(a: seq<Arrival>, n: nat, m: nat)
    requires n <= m <= |a| && DistinctIds(a)
    ensures PostsOf(a, n) <= PostsOf(a, m)
    ensures forall id :: id in TableOf(a, n) ==> id in TableOf(a, m) && TableOf(a, m)[id] == TableOf(a, n)[id]
  {
    if n < m {
      ArrivedStays(a, n, m - 1);
      if a[m - 1].CommentArrives? { CommentIsNew(a, m - 1); }
    }
  }

  lemma CommentIsNew(a: seq<Arrival>, i: nat)
    requires DistinctIds(a) && i < |a| && a[i].CommentArrives?
    ensures a[i].comment.id !in TableOf(a, i)
  {
    TableOfContains(a, i, a[i].comment.id);
    assert forall j :: 0 <= j < i ==> !SameId(a[j], a[i]);
  }

  /** If the fixpoint of all is local, so is that of the first `n`. */
  lemma LocalFromTheStart(a: seq<Arrival>, n: nat)
    requires n <= |a| && DistinctIds(a) && FixpointIsLocal(PostsOf(a, |a|), TableOf(a, |a|))
    ensures FixpointIsLocal(PostsOf(a, n), TableOf(a, n))
  {
    ArrivedStays(a, n, |a|);
    FixpointGrows(PostsOf(a, n), TableOf(a, n), PostsOf(a, |a|), TableOf(a, |a|));
  }

  /** Every comment of the fixpoint answers within its own post. */
  ghost predicate FixpointIsLocal(posts: set<Id>, live: Table) {
    forall id :: id in Fixpoint(posts, live) ==> Local(live, live[id])
  }

  /** A comment can be stranded only if it belongs to the fixpoint and answers outside its post. */
  lemma StrandedIsNotLocal(posts: set<Id>, comments: Table, rows: Rows, id: Id)
    requires Sound(posts, comments, Bodies(rows)) && id in rows && Stranded(posts, comments, rows[id].comment)
    ensures !FixpointIsLocal(posts, comments + Bodies(rows))
  {
    var live, c := comments + Bodies(rows), rows[id].comment;
    assert live[id] == c && c.parent.value !in Bodies(rows);
    assert live[c.parent.value] == comments[c.parent.value];
    forall t | Closed(posts, live, t) ensures id in t {
      assert Ready(c, posts, t);
    }
    assert id in Fixpoint(posts, live) && !Local(live, live[id]);
  }

  lemma NoneStranded(posts: set<Id>, comments: Table, rows: Rows)
    requires Sound(posts, comments, Bodies(rows)) && FixpointIsLocal(posts, comments + Bodies(rows))
    ensures forall id :: id in rows ==> !Stranded(posts, comments, rows[id].comment)
  {
    forall id | id in rows ensures !Stranded(posts, comments, rows[id].comment) {
      if Stranded(posts, comments, rows[id].comment) { StrandedIsNotLocal(posts, comments, rows, id); }
    }
  }

  lemma LocalEndsInFixpoint(posts: set<Id>, comments: Table, rows: Rows)
    requires Good(posts, comments, rows, {}) && FewPerPost(Bodies(rows))
    requires FixpointIsLocal(posts, comments + Bodies(rows))
    ensures comments.Keys == Fixpoint(posts, comments + Bodies(rows))
  {
    NoneStranded(posts, comments, rows);
    StoredIsLeastFixpoint(posts, comments, rows);
    FixpointIsLeast(posts, comments + Bodies(rows), comments.Keys);
  }

  // ---------------------------------------------------------------------------------------------
  // What the tables hold
  // ---------------------------------------------------------------------------------------------

  /** Every comment of `live` is stored, waiting or dropped, and nothing else is. */
  ghost predicate Splits(live: Table, comments: Table, rows: Rows, dropped: set<Id>) {
    forall id :: Split(live, comments, rows, dropped, id)
  }

  ghost predicate Split(live: Table, comments: Table, rows: Rows, dropped: set<Id>, id: Id) {
    if id in comments then id !in rows && id !in dropped && id in live && live[id] == comments[id]
    else if id in rows then id !in dropped && id in live && live[id] == rows[id].comment
    else id in live <==> id in dropped
  }

  lemma SplitsMeans(live: Table, comments: Table, rows: Rows, dropped: set<Id>)
    requires Splits(live, comments, rows, dropped)
    ensures forall id :: id in live <==> id in comments || id in rows || id in dropped
    ensures forall id :: id in comments ==> id !in rows && id !in dropped && live[id] == comments[id]
    ensures forall id :: id in rows ==> id !in dropped && live[id] == rows[id].comment
  {
    forall id ensures id in live <==> id in comments || id in rows || id in dropped {
      assert Split(live, comments, rows, dropped, id);
    }
    forall id | id in comments ensures id !in rows && id !in dropped && live[id] == comments[id] {
      assert Split(live, comments, rows, dropped, id);
    }
    forall id | id in rows ensures id !in dropped && live[id] == rows[id].comment {
      assert Split(live, comments, rows, dropped, id);
    }
  }

  lemma SplitsIsSum(live: Table, comments: Table, rows: Rows)
    requires Splits(live, comments, rows, {})
    ensures comments + Bodies(rows) == live
  {
    SplitsMeans(live, comments, rows, {});
  }

  /** The tables after the first `n` arrivals. */
  ghost predicate Holds(a: seq<Arrival>, n: nat, posts: set<Id>, comments: Table, rows: Rows, dropped: set<Id>)
    requires n <= |a|
  {
    posts == PostsOf(a, n) && Splits(TableOf(a, n), comments, rows, dropped)
  }

  /** Only comments of `post` became stored. */
  ghost predicate StoredOnly(live: Table, comments0: Table, comments: Table, post: Id) {
    forall id :: id in comments && id !in comments0 ==> id in live && live[id].post == post
  }

  /** Exactly the fixpoint is stored. */
  ghost predicate AtFixpoint(a: seq<Arrival>, n: nat, comments: Table)
    requires n <= |a|
  {
    comments.Keys == Fixpoint(PostsOf(a, n), TableOf(a, n))
  }

  lemma LeftIsWaiting(a: seq<Arrival>, n: nat, comments: Table, rows: Rows)
    requires n <= |a| && Splits(TableOf(a, n), comments, rows, {}) && AtFixpoint(a, n, comments)
    ensures Bodies(rows) == LeftAt(a, n)
  {
    SplitsMeans(TableOf(a, n), comments, rows, {});
  }

  // ---------------------------------------------------------------------------------------------
  // The order of arrival does not matter
  // ---------------------------------------------------------------------------------------------

  /** The same posts and comments, in another order and at other times. */
  ghost predicate SameArrivals(a: seq<Arrival>, b: seq<Arrival>) {
    && (forall i :: 0 <= i < |a| ==> Occurs(a[i], b))
    && (forall i :: 0 <= i < |b| ==> Occurs(b[i], a))
  }

  ghost predicate Same(x: Arrival, y: Arrival) {
    if x.PostArrives? then y == x else y.CommentArrives? && y.comment == x.comment
  }

  ghost predicate Occurs(x: Arrival, a: seq<Arrival>) {
    exists j :: 0 <= j < |a| && Same(x, a[j])
  }

  lemma PostsOfSubset(a: seq<Arrival>, b: seq<Arrival>)
    requires forall i :: 0 <= i < |a| ==> Occurs(a[i], b)
    ensures PostsOf(a, |a|) <= PostsOf(b, |b|)
  {
    forall post | post in PostsOf(a, |a|) ensures post in PostsOf(b, |b|) {
      PostsOfContains(a, |a|, post);
      PostsOfContains(b, |b|, post);
      var i :| 0 <= i < |a| && a[i] == PostArrives(post);
      assert Occurs(a[i], b);
    }
  }

  lemma TableOfSubset(a: seq<Arrival>, b: seq<Arrival>)
    requires DistinctIds(a) && DistinctIds(b) && forall i :: 0 <= i < |a| ==> Occurs(a[i], b)
    ensures forall id :: id in TableOf(a, |a|) ==> id in TableOf(b, |b|) && TableOf(b, |b|)[id] == TableOf(a, |a|)[id]
  {
    forall id | id in TableOf(a, |a|)
      ensures id in TableOf(b, |b|) && TableOf(b, |b|)[id] == TableOf(a, |a|)[id]
    {
      TableOfContains(a, |a|, id);
      TableOfContains(b, |b|, id);
      var i :| 0 <= i < |a| && a[i].CommentArrives? && a[i].comment.id == id;
      assert Occurs(a[i], b);
    }
  }

  /** What is stored and what waits depends on what arrives only. */
  lemma ArrivalOrderIsIrrelevant(a: seq<Arrival>, b: seq<Arrival>)
    requires DistinctIds(a) && DistinctIds(b) && SameArrivals(a, b)
    ensures StoredOf(a) == StoredOf(b) && LeftOf(a) == LeftOf(b)
  {
    SameArrivalsSameTables(a, b);
  }

  lemma SameArrivalsSameTables(a: seq<Arrival>, b: seq<Arrival>)
    requires DistinctIds(a) && DistinctIds(b) && SameArrivals(a, b)
    ensures PostsOf(a, |a|) == PostsOf(b, |b|) && TableOf(a, |a|) == TableOf(b, |b|)
  {
    PostsOfSubset(a, b);
    PostsOfSubset(b, a);
    TableOfSubset(a, b);
    TableOfSubset(b, a);
  }

  /** The last arrival is a comment; `child`, of another post, answers it and came before. */
  ghost predicate ParentLast(a: seq<Arrival>, child: Id) {
    && a != [] && a[|a| - 1].CommentArrives? && child in TableOf(a, |a| - 1)
    && TableOf(a, |a| - 1)[child].parent == Some(a[|a| - 1].comment.id)
    && TableOf(a, |a| - 1)[child].post != a[|a| - 1].comment.post
  }

  /** The arrival at `j` moved to the end. */
  function ToEnd(a: seq<Arrival>, j: nat): seq<Arrival>
    requires j < |a|
  {
    a[..j] + a[j + 1..] + [a[j]]
  }

  function Origin(n: nat, j: nat, i: nat): nat
    requires i < n && j < n
  {
    if i == n - 1 then j else if i < j then i else i + 1
  }

  lemma ToEndIsRearranged(a: seq<Arrival>, j: nat)
    requires DistinctIds(a) && j < |a|
    ensures DistinctIds(ToEnd(a, j)) && SameArrivals(a, ToEnd(a, j))
  {
    var b := ToEnd(a, j);
    assert forall i :: 0 <= i < |b| ==> b[i] == a[Origin(|a|, j, i)];
    forall i, k | 0 <= i < k < |b| ensures !SameId(b[i], b[k]) {
      assert Origin(|a|, j, i) != Origin(|a|, j, k);
    }
    forall i | 0 <= i < |a| ensures Occurs(a[i], b) {
      assert b[if i == j then |a| - 1 else if i < j then i else i - 1] == a[i];
    }
    forall i | 0 <= i < |b| ensures Occurs(b[i], a) {
      assert a[Origin(|a|, j, i)] == b[i];
    }
  }

  lemma CommentAt(a: seq<Arrival>, id: Id) returns (k: nat)
    requires DistinctIds(a) && id in TableOf(a, |a|)
    ensures k < |a| && IsComment(a[k], id, TableOf(a, |a|)[id])
  {
    TableOfContains(a, |a|, id);
    k :| 0 <= k < |a| && a[k].CommentArrives? && a[k].comment.id == id;
  }

  lemma AnsweredByLast(b: seq<Arrival>, i: nat, child: Id, c: Comment, parent: Id, p: Comment)
    requires DistinctIds(b) && i < |b| - 1 && IsComment(b[i], child, c) && IsComment(b[|b| - 1], parent, p)
    requires c.parent == Some(parent) && c.post != p.post
    ensures ParentLast(b, child)
  {
    TableOfContains(b, |b| - 1, child);
  }

  lemma MovedToEnd(a: seq<Arrival>, j: nat, k: nat) returns (i: nat)
    requires j < |a| && k < |a| && j != k
    ensures i < |a| - 1 && |ToEnd(a, j)| == |a| && ToEnd(a, j)[i] == a[k] && ToEnd(a, j)[|a| - 1] == a[j]
  {
    i := if k < j then k else k - 1;
  }

  /** When the fixpoint is not local the same arrivals have an order with the parent last. */
  lemma BadOrderExists(a: seq<Arrival>) returns (b: seq<Arrival>, child: Id)
    requires DistinctIds(a) && !FixpointIsLocal(PostsOf(a, |a|), TableOf(a, |a|))
    ensures DistinctIds(b) && SameArrivals(a, b) && TableOf(b, |b|) == TableOf(a, |a|)
    ensures ParentLast(b, child) && child in Fixpoint(PostsOf(b, |b|), TableOf(b, |b|))
  {
    var live := TableOf(a, |a|);
    child :| child in Fixpoint(PostsOf(a, |a|), live) && !Local(live, live[child]);
    var j := CommentAt(a, live[child].parent.value);
    var k := CommentAt(a, child);
    b := ToEnd(a, j);
    ToEndIsRearranged(a, j);
    SameArrivalsSameTables(a, b);
    var i := MovedToEnd(a, j, k);
    AnsweredByLast(b, i, child, live[child], live[child].parent.value, live[live[child].parent.value]);
  }
}
