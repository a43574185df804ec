/** Whole runs of the social store: what arrives decides what ends up stored, not the order. */
module SocialRuns {
  import opened Bytes
  import opened Social
  import opened Arrivals

  /** The tables of a store. */
  datatype Tables = Tables(posts: set<Id>, comments: Table, rows: Rows, stale: set<Id>, dropped: set<Id>)

  ghost function View(s: SocialStore): Tables
    reads s
  {
    Tables(s.posts, s.comments, s.orphans, s.stale, s.dropped)
  }

  ghost predicate Well(t: Tables) {
    Good(t.posts, t.comments, t.rows, t.stale) && |t.rows.Keys| <= MAX_ORPHAN_COMMENTS
  }

  /** Few comments are left waiting at any time, and those that are not answer within their posts. */
  ghost predicate Tame(a: seq<Arrival>) {
    FewWait(a) && FixpointIsLocal(PostsOf(a, |a|), TableOf(a, |a|))
  }

  // ---------------------------------------------------------------------------------------------
  // What every arrival keeps
  // ---------------------------------------------------------------------------------------------

  /** Every comment is accounted for. One is dropped only if more arrived than the buffer holds, and if none
      is, never were more left than it holds; and when the arrivals are tame, exactly the fixpoint is stored. */
  ghost predicate Tracked(a: seq<Arrival>, n: nat, t: Tables)
    requires n <= |a|
  {
    && Holds(a, n, t.posts, t.comments, t.rows, t.dropped)
    && (t.dropped == {} || |TableOf(a, n).Keys| > MAX_ORPHAN_COMMENTS)
    && (t.dropped == {} ==> t.stale == {} && FitsUpTo(a, n))
    && (Tame(a) ==> t.dropped == {} && AtFixpoint(a, n, t.comments))
  }

  /** Storing waiting comments of `post`. */
  lemma MovingSplits(live: Table, comments0: Table, rows0: Rows, comments: Table, rows: Rows, dropped: set<Id>,
                     done: set<Id>, post: Id)
    requires Splits(live, comments0, rows0, dropped) && Moved(comments0, rows0, comments, rows, done)
    requires done <= WaitingFor(rows0, post)
    ensures Splits(live, comments, rows, dropped) && StoredOnly(live, comments0, comments, post)
  {
    SplitsMeans(live, comments0, rows0, dropped);
  }

  lemma StoringSplits(live: Table, comments: Table, rows: Rows, dropped: set<Id>, c: Comment)
    requires Splits(live, comments, rows, dropped) && c.id !in live
    ensures Splits(live[c.id := c], comments[c.id := c], rows, dropped)
  {
    SplitsMeans(live, comments, rows, dropped);
  }

  lemma BufferingSplits(live: Table, comments: Table, rows: Rows, dropped: set<Id>, w: Waiting)
    requires Splits(live, comments, rows, dropped) && w.comment.id !in live
    ensures Splits(live[w.comment.id := w.comment], comments, rows[w.comment.id := w], dropped)
  {
    SplitsMeans(live, comments, rows, dropped);
  }

  lemma DroppingSplits(live: Table, comments: Table, rows: Rows, dropped: set<Id>, rows': Rows)
    requires Splits(live, comments, rows, dropped) && Fewer(rows, rows')
    ensures Splits(live, comments, rows', dropped + (rows.Keys - rows'.Keys))
  {
    SplitsMeans(live, comments, rows, dropped);
  }

  lemma BoundedIsFewer(rows: Rows, stale: set<Id>, rows': Rows, stale': set<Id>)
    requires Bounded(rows, stale, rows', stale')
    ensures Fewer(rows, rows')
    ensures rows.Keys - rows'.Keys == {} <==> |rows.Keys| <= MAX_ORPHAN_COMMENTS
    ensures rows.Keys - rows'.Keys == {} ==> rows' == rows && stale' == stale
  {
    if |rows.Keys| > MAX_ORPHAN_COMMENTS {
      var v :| IsFirst(rows, rows.Keys, v) && rows' == rows - {v} && stale' == stale + {rows[v].comment.post};
      assert v in rows.Keys - rows'.Keys;
    }
  }

  /** With none dropped, what the fixpoint leaves is waiting. */
  lemma LeftWaits(a: seq<Arrival>, n: nat, t: Tables)
    requires n <= |a| && Holds(a, n, t.posts, t.comments, t.rows, {}) && Well(t)
    ensures |LeftAt(a, n).Keys| <= MAX_ORPHAN_COMMENTS
  {
    SplitsMeans(TableOf(a, n), t.comments, t.rows, {});
    SplitsIsSum(TableOf(a, n), t.comments, t.rows);
    SubsetCardinality(LeftAt(a, n).Keys, t.rows.Keys);
  }

  lemma FitsNext(a: seq<Arrival>, n: nat, t: Tables)
    requires n < |a| && FitsUpTo(a, n) && Holds(a, n + 1, t.posts, t.comments, t.rows, {}) && Well(t)
    ensures FitsUpTo(a, n + 1)
  {
    LeftWaits(a, n + 1, t);
  }

  lemma FewerPerPost(rows: Rows, rows': Rows)
    requires FewPerPost(Bodies(rows)) && Fewer(rows, rows')
    ensures FewPerPost(Bodies(rows'))
  {
    forall post: Id ensures |OfPost(Bodies(rows'), post)| <= SCAN_LIMIT {
      SubsetCardinality(OfPost(Bodies(rows'), post), OfPost(Bodies(rows), post));
    }
  }

  /** A replay out of few rows reaches the fixpoint. */
  lemma ReplayReachesFixpoint(a: seq<Arrival>, n: nat, rows0: Rows, t: Tables)
    requires n <= |a| && DistinctIds(a) && FixpointIsLocal(PostsOf(a, |a|), TableOf(a, |a|))
    requires FewPerPost(Bodies(rows0)) && Fewer(rows0, t.rows)
    requires Holds(a, n, t.posts, t.comments, t.rows, {}) && Good(t.posts, t.comments, t.rows, {})
    ensures AtFixpoint(a, n, t.comments)
  {
    FewerPerPost(rows0, t.rows);
    LocalFromTheStart(a, n);
    SplitsIsSum(TableOf(a, n), t.comments, t.rows);
    LocalEndsInFixpoint(t.posts, t.comments, t.rows);
  }

  /** A post, or a comment that was stored, arrived as the `i`-th, and its post was replayed. */
  ghost predicate ReplayedAt(a: seq<Arrival>, i: nat, t0: Tables, comments: Table, t: Tables, post: Id)
    requires i < |a|
  {
    && Well(t) && t.posts == PostsOf(a, i + 1) && t.dropped == t0.dropped && t.stale <= t0.stale
    && Splits(TableOf(a, i + 1), comments, t0.rows, t0.dropped)
    && Moved(comments, t0.rows, t.comments, t.rows, t0.rows.Keys - t.rows.Keys)
    && t0.rows.Keys - t.rows.Keys <= WaitingFor(t0.rows, post)
  }

  lemma ReplayedHolds(a: seq<Arrival>, i: nat, t0: Tables, comments: Table, t: Tables, post: Id)
    requires i < |a| && ReplayedAt(a, i, t0, comments, t, post)
    ensures Holds(a, i + 1, t.posts, t.comments, t.rows, t.dropped)
    ensures StoredOnly(TableOf(a, i + 1), comments, t.comments, post) && Fewer(t0.rows, t.rows)
  {
    MovingSplits(TableOf(a, i + 1), comments, t0.rows, t.comments, t.rows, t.dropped, t0.rows.Keys - t.rows.Keys, post);
  }

  lemma ReplayedIsTracked(a: seq<Arrival>, i: nat, t0: Tables, comments: Table, t: Tables, post: Id)
    requires i < |a| && DistinctIds(a) && Tracked(a, i, t0) && ReplayedAt(a, i, t0, comments, t, post)
    ensures Tracked(a, i + 1, t) && StoredOnly(TableOf(a, i + 1), comments, t.comments, post)
  {
    ReplayedHolds(a, i, t0, comments, t, post);
    MoreArrive(a, i);
    if t.dropped == {} { FitsNext(a, i, t); }
    if Tame(a) {
      LeftIsWaiting(a, i, t0.comments, t0.rows);
      ReplayReachesFixpoint(a, i + 1, t0.rows, t);
    }
  }

  lemma MoreArrive(a: seq<Arrival>, i: nat)
    requires i < |a| && DistinctIds(a)
    ensures |TableOf(a, i).Keys| <= |TableOf(a, i + 1).Keys|
  {
    ArrivedStays(a, i, i + 1);
    SubsetCardinality(TableOf(a, i).Keys, TableOf(a, i + 1).Keys);
  }

  /** A comment that was not ready arrived as the `i`-th. */
  ghost predicate BufferedAt(a: seq<Arrival>, i: nat, t0: Tables, t: Tables)
    requires i < |a| && a[i].CommentArrives?
  {
    var c := Normalised(a[i].comment);
    && Well(t) && t.posts == t0.posts && t.comments == t0.comments && !Ready(c, t0.posts, t0.comments.Keys)
    && Buffered(t0.rows, t0.stale, t.rows, t.stale, Waiting(c, a[i].now))
    && t.dropped == t0.dropped + ((t0.rows.Keys + {c.id}) - t.rows.Keys)
  }

  lemma BufferedSplits(live: Table, t0: Tables, t: Tables, w: Waiting)
    requires Splits(live, t0.comments, t0.rows, t0.dropped) && w.comment.id !in live
    requires t.comments == t0.comments && Fewer(t0.rows[w.comment.id := w], t.rows)
    requires t.dropped == t0.dropped + (t0.rows[w.comment.id := w].Keys - t.rows.Keys)
    ensures Splits(live[w.comment.id := w.comment], t.comments, t.rows, t.dropped)
    ensures Splits(live[w.comment.id := w.comment], t.comments, t0.rows[w.comment.id := w], t0.dropped)
  {
    BufferingSplits(live, t0.comments, t0.rows, t0.dropped, w);
    DroppingSplits(live[w.comment.id := w.comment], t0.comments, t0.rows[w.comment.id := w], t0.dropped, t.rows);
  }

  lemma BufferedDrops(t0: Tables, t: Tables, w: Waiting)
    requires Buffered(t0.rows, t0.stale, t.rows, t.stale, w)
    requires t.dropped == t0.dropped + ((t0.rows.Keys + {w.comment.id}) - t.rows.Keys)
    ensures var all := t0.rows[w.comment.id := w];
            && Fewer(all, t.rows) && t.dropped == t0.dropped + (all.Keys - t.rows.Keys)
            && (t.dropped == {} <==> t0.dropped == {} && |all.Keys| <= MAX_ORPHAN_COMMENTS)
            && (t.dropped == {} ==> t.stale == t0.stale)
  {
    var all := t0.rows[w.comment.id := w];
    assert all.Keys == t0.rows.Keys + {w.comment.id};
    BoundedIsFewer(all, t0.stale, t.rows, t.stale);
    NoneDropped(t0.dropped, all.Keys - t.rows.Keys, t.dropped);
  }

  lemma NoneDropped(dropped: set<Id>, gone: set<Id>, dropped': set<Id>)
    requires dropped' == dropped + gone
    ensures dropped' == {} <==> dropped == {} && gone == {}
  {}

  lemma WaitingFits(live: Table, comments: Table, rows: Rows)
    requires Splits(live, comments, rows, {})
    ensures |rows.Keys| <= |live.Keys|
  {
    SplitsMeans(live, comments, rows, {});
    SubsetCardinality(rows.Keys, live.Keys);
  }

  lemma UnreadyKeepsFixpoint(a: seq<Arrival>, i: nat, comments: Table)
    requires i < |a| && a[i].CommentArrives? && DistinctIds(a) && AtFixpoint(a, i, comments)
    requires !Ready(Normalised(a[i].comment), PostsOf(a, i), comments.Keys)
    ensures AtFixpoint(a, i + 1, comments)
  {
    CommentIsNew(a, i);
    UnreadyLeavesFixpoint(PostsOf(a, i), TableOf(a, i), Normalised(a[i].comment));
  }

  /** None is dropped when few comments arrived, nor when the arrivals are tame. */
  lemma FewDropNone(a: seq<Arrival>, i: nat, t0: Tables, comments: Table, rows: Rows)
    requires i < |a| && DistinctIds(a) && Tracked(a, i, t0) && Splits(TableOf(a, i + 1), comments, rows, t0.dropped)
    requires |TableOf(a, i + 1).Keys| <= MAX_ORPHAN_COMMENTS
    ensures t0.dropped == {} && |rows.Keys| <= MAX_ORPHAN_COMMENTS
  {
    MoreArrive(a, i);
    WaitingFits(TableOf(a, i + 1), comments, rows);
  }

  lemma TameDropsNone(a: seq<Arrival>, i: nat, comments: Table, rows: Rows)
    requires i < |a| && a[i].CommentArrives? && DistinctIds(a) && AtFixpoint(a, i, comments) && FewWait(a)
    requires !Ready(Normalised(a[i].comment), PostsOf(a, i), comments.Keys)
    requires Splits(TableOf(a, i + 1), comments, rows, {})
    ensures |rows.Keys| <= MAX_ORPHAN_COMMENTS && AtFixpoint(a, i + 1, comments)
  {
    UnreadyKeepsFixpoint(a, i, comments);
    LeftIsWaiting(a, i + 1, comments, rows);
    assert rows.Keys == LeftAt(a, i + 1).Keys;
  }

  lemma BufferedIsTracked(a: seq<Arrival>, i: nat, t0: Tables, t: Tables)
    requires i < |a| && a[i].CommentArrives? && DistinctIds(a) && Tracked(a, i, t0) && BufferedAt(a, i, t0, t)
    ensures Tracked(a, i + 1, t)
  {
    var w := Waiting(Normalised(a[i].comment), a[i].now);
    CommentIsNew(a, i);
    BufferedDrops(t0, t, w);
    BufferedSplits(TableOf(a, i), t0, t, w);
    var all := t0.rows[w.comment.id := w];
    if |TableOf(a, i + 1).Keys| <= MAX_ORPHAN_COMMENTS { FewDropNone(a, i, t0, t.comments, all); }
    if Tame(a) { TameDropsNone(a, i, t.comments, all); }
    if t.dropped == {} { FitsNext(a, i, t); }
  }

  lemma PostIsTracked(a: seq<Arrival>, i: nat, t0: Tables, t: Tables)
    requires i < |a| && a[i].PostArrives? && DistinctIds(a) && Tracked(a, i, t0)
    requires Well(t) && t.posts == t0.posts + {a[i].post} && t.dropped == t0.dropped && t.stale <= t0.stale
    requires Moved(t0.comments, t0.rows, t.comments, t.rows, t0.rows.Keys - t.rows.Keys)
    requires t0.rows.Keys - t.rows.Keys <= WaitingFor(t0.rows, a[i].post)
    ensures Tracked(a, i + 1, t)
  {
    ReplayedIsTracked(a, i, t0, t0.comments, t, a[i].post);
  }

  lemma StoredIsTracked(a: seq<Arrival>, i: nat, t0: Tables, t: Tables, c: Comment)
    requires i < |a| && a[i].CommentArrives? && c == Normalised(a[i].comment) && DistinctIds(a) && Tracked(a, i, t0)
    requires Well(t) && t.posts == t0.posts && t.dropped == t0.dropped && t.stale <= t0.stale
    requires Moved(t0.comments[c.id := c], t0.rows, t.comments, t.rows, t0.rows.Keys - t.rows.Keys)
    requires t0.rows.Keys - t.rows.Keys <= WaitingFor(t0.rows, c.post)
    ensures Tracked(a, i + 1, t) && StoredOnly(TableOf(a, i + 1), t0.comments, t.comments, c.post)
  {
    StoredSplits(a, i, t0, c);
    ReplayedIsTracked(a, i, t0, t0.comments[c.id := c], t, c.post);
    StoredOnlyWith(TableOf(a, i + 1), t0.comments, t.comments, c);
  }

  lemma StoredSplits(a: seq<Arrival>, i: nat, t0: Tables, c: Comment)
    requires i < |a| && a[i].CommentArrives? && c == Normalised(a[i].comment) && DistinctIds(a)
    requires Splits(TableOf(a, i), t0.comments, t0.rows, t0.dropped)
    ensures Splits(TableOf(a, i + 1), t0.comments[c.id := c], t0.rows, t0.dropped) && TableOf(a, i + 1)[c.id] == c
  {
    CommentIsNew(a, i);
    StoringSplits(TableOf(a, i), t0.comments, t0.rows, t0.dropped, c);
  }

  lemma StoredOnlyWith(live: Table, comments0: Table, comments: Table, c: Comment)
    requires StoredOnly(live, comments0[c.id := c], comments, c.post) && c.id in live && live[c.id] == c
    ensures StoredOnly(live, comments0, comments, c.post)
  {}

  // ---------------------------------------------------------------------------------------------
  // Every run
  // ---------------------------------------------------------------------------------------------

  /** Posts and comments with distinct ids, in any order and at any times: every comment is stored, waiting or
      dropped. If few are left waiting at any time, at most 1,024 in all and 256 to a post, and those of the
      fixpoint answer within their posts, then none is dropped, and in the end exactly the fixpoint is stored
      and the rest waits. Without a drop there were never more left than 1,024. */
  method Play(a: seq<Arrival>) returns (s: SocialStore)
    requires DistinctIds(a)
    ensures s.Valid() && Holds(a, |a|, s.posts, s.comments, s.orphans, s.dropped)
    ensures forall i :: 0 <= i < |a| && a[i].CommentArrives? ==> IsKept(a[i].comment, View(s))
    ensures Tame(a) ==> s.dropped == {} && s.comments == StoredOf(a) && Bodies(s.orphans) == LeftOf(a)
    ensures s.dropped == {} ==> s.stale == {} && FitsUpTo(a, |a|)
    ensures |TableOf(a, |a|).Keys| <= MAX_ORPHAN_COMMENTS ==> s.dropped == {}
  {
    s := PlayFirst(a, |a|);
    EveryCommentIsKept(a, View(s));
    if Tame(a) { EndsInFixpoint(a, View(s)); }
  }

  /** The comment is dropped, or stored or waiting with its fields. */
  ghost predicate IsKept(raw: Comment, t: Tables) {
    || raw.id in t.dropped
    || (raw.id in t.comments && HasFieldsOf(t.comments[raw.id], raw))
    || (raw.id in t.rows && HasFieldsOf(t.rows[raw.id].comment, raw))
  }

  lemma EveryCommentIsKept(a: seq<Arrival>, t: Tables)
    requires DistinctIds(a) && Holds(a, |a|, t.posts, t.comments, t.rows, t.dropped)
    ensures forall i :: 0 <= i < |a| && a[i].CommentArrives? ==> IsKept(a[i].comment, t)
  {
    SplitsMeans(TableOf(a, |a|), t.comments, t.rows, t.dropped);
    forall i | 0 <= i < |a| && a[i].CommentArrives? ensures IsKept(a[i].comment, t) {
      TableOfContains(a, |a|, a[i].comment.id);
    }
  }

  lemma EndsInFixpoint(a: seq<Arrival>, t: Tables)
    requires Holds(a, |a|, t.posts, t.comments, t.rows, {}) && AtFixpoint(a, |a|, t.comments)
    ensures t.comments == StoredOf(a) && Bodies(t.rows) == LeftOf(a)
  {
    SplitsMeans(TableOf(a, |a|), t.comments, t.rows, {});
    LeftIsWaiting(a, |a|, t.comments, t.rows);
  }

  /** Comments that are few altogether are few waiting. */
  lemma FewArriveFewWait(a: seq<Arrival>)
    requires DistinctIds(a) && |TableOf(a, |a|).Keys| <= MAX_ORPHAN_COMMENTS && FewPerPost(TableOf(a, |a|))
    ensures FewWait(a)
  {
    forall n: nat | n <= |a| ensures |LeftAt(a, n).Keys| <= MAX_ORPHAN_COMMENTS && FewPerPost(LeftAt(a, n)) {
      ArrivedStays(a, n, |a|);
      SubsetCardinality(LeftAt(a, n).Keys, TableOf(a, |a|).Keys);
      forall post: Id ensures |OfPost(LeftAt(a, n), post)| <= SCAN_LIMIT {
        SubsetCardinality(OfPost(LeftAt(a, n), post), OfPost(TableOf(a, |a|), post));
      }
    }
  }

  lemma NothingArrived(a: seq<Arrival>)
    ensures Tracked(a, 0, Tables({}, map[], map[], {}, {}))
  {
    FixpointIsLeast({}, map[], {});
  }

  method PlayFirst(a: seq<Arrival>, n: nat) returns (s: SocialStore)
    requires n <= |a| && DistinctIds(a)
    ensures fresh(s) && s.Valid() && Tracked(a, n, View(s))
  {
    if n == 0 {
      s := EmptyStore(a);
    } else {
      s := PlayFirst(a, n - 1);
      Arrive(s, a, n - 1);
    }
  }

  method EmptyStore(a: seq<Arrival>) returns (s: SocialStore)
    requires DistinctIds(a)
    ensures fresh(s) && s.Valid() && Tracked(a, 0, View(s))
  {
    s := new SocialStore();
    NothingArrived(a);
  }

  method Arrive(s: SocialStore, a: seq<Arrival>, i: nat)
    requires i < |a| && DistinctIds(a) && s.Valid() && Tracked(a, i, View(s))
    modifies s
    ensures s.Valid() && Tracked(a, i + 1, View(s))
  {
    if a[i].PostArrives? { ArrivePost(s, a, i); } else { ArriveComment(s, a, i); }
  }

  method ArrivePost(s: SocialStore, a: seq<Arrival>, i: nat)
    requires i < |a| && DistinctIds(a) && a[i].PostArrives? && s.Valid() && Tracked(a, i, View(s))
    modifies s
    ensures s.Valid() && Tracked(a, i + 1, View(s))
  {
    ghost var t0 := View(s);
    PostIsNew(a, i);
    s.InsertPost(a[i].post);
    PostIsTracked(a, i, t0, View(s));
  }

  method ArriveComment(s: SocialStore, a: seq<Arrival>, i: nat)
    requires i < |a| && DistinctIds(a) && a[i].CommentArrives? && s.Valid() && Tracked(a, i, View(s))
    modifies s
    ensures s.Valid() && Tracked(a, i + 1, View(s))
    ensures StoredOnly(TableOf(a, i + 1), old(s.comments), s.comments, a[i].comment.post)
  {
    ghost var t0, c := View(s), Normalised(a[i].comment);
    CommentIsNew(a, i);
    SplitsMeans(TableOf(a, i), t0.comments, t0.rows, t0.dropped);
    var stored := s.InsertComment(a[i].comment, a[i].now);
    if stored {
      StoredIsTracked(a, i, t0, View(s), c);
    } else {
      BufferedIsTracked(a, i, t0, View(s));
    }
  }

  lemma PostIsNew(a: seq<Arrival>, i: nat)
    requires DistinctIds(a) && i < |a| && a[i].PostArrives?
    ensures a[i].post !in PostsOf(a, i)
  {
    PostsOfContains(a, i, a[i].post);
    assert forall j :: 0 <= j < i ==> !SameId(a[j], a[i]);
  }

  /** The condition on the fixpoint is needed: a comment that answers one of another post is not stored if
      that one arrives last, though it belongs to the fixpoint. */
  method ParentLastIsMissed(a: seq<Arrival>, child: Id) returns (s: SocialStore)
    requires DistinctIds(a) && ParentLast(a, child)
    ensures s.Valid() && Holds(a, |a|, s.posts, s.comments, s.orphans, s.dropped) && child !in s.comments
    ensures s.dropped == {} ==> child in s.orphans
    ensures |TableOf(a, |a|).Keys| <= MAX_ORPHAN_COMMENTS ==> s.dropped == {}
    ensures child in Fixpoint(PostsOf(a, |a|), TableOf(a, |a|)) ==> s.comments != StoredOf(a)
  {
    s := PlayFirst(a, |a| - 1);
    ChildWaits(a, View(s), child);
    ArriveComment(s, a, |a| - 1);
    MissedIsNotStored(a, View(s), child);
  }

  lemma MissedIsNotStored(a: seq<Arrival>, t: Tables, child: Id)
    requires a != [] && DistinctIds(a) && Holds(a, |a|, t.posts, t.comments, t.rows, t.dropped)
    requires child !in t.comments && child in TableOf(a, |a| - 1)
    ensures t.dropped == {} ==> child in t.rows
    ensures child in Fixpoint(PostsOf(a, |a|), TableOf(a, |a|)) ==> t.comments != StoredOf(a)
  {
    ArrivedStays(a, |a| - 1, |a|);
    SplitsMeans(TableOf(a, |a|), t.comments, t.rows, t.dropped);
  }

  /** Before its parent the child is not stored, and it is no comment of the parent's post. */
  lemma ChildWaits(a: seq<Arrival>, t: Tables, child: Id)
    requires DistinctIds(a) && ParentLast(a, child)
    requires forall id :: id in t.comments ==> Ready(t.comments[id], t.posts, t.comments.Keys)
    requires Holds(a, |a| - 1, t.posts, t.comments, t.rows, t.dropped)
    ensures child !in t.comments && child in TableOf(a, |a|)
    ensures TableOf(a, |a|)[child].post != a[|a| - 1].comment.post
  {
    CommentIsNew(a, |a| - 1);
    ArrivedStays(a, |a| - 1, |a|);
    OrphanIsNotStored(TableOf(a, |a| - 1), t, child, a[|a| - 1].comment.id);
  }

  lemma OrphanIsNotStored(live: Table, t: Tables, child: Id, parent: Id)
    requires Splits(live, t.comments, t.rows, t.dropped) && child in live && live[child].parent == Some(parent)
    requires parent !in live && forall id :: id in t.comments ==> Ready(t.comments[id], t.posts, t.comments.Keys)
    ensures child !in t.comments
  {
    SplitsMeans(live, t.comments, t.rows, t.dropped);
  }

  // ---------------------------------------------------------------------------------------------
  // More than one scan returns
  // ---------------------------------------------------------------------------------------------

  function Name(n: nat): Id {
    seq(n + 1, _ => 'u')
  }

  /** Comments that answer one which never arrives. */
  function Unready(n: nat): Comment {
    Comment(Name(n), "p", Some("m"), "a", "")
  }

  const ANSWER: Comment := Comment("r", "p", None, "a", "")

  /** The first `n` of them, written one second apart. */
  ghost function Backlog(n: nat): Rows {
    if n == 0 then map[] else Backlog(n - 1)[Name(n - 1) := Waiting(Unready(n - 1), n - 1)]
  }

  lemma {:induction false} BacklogHolds(n: nat, id: Id)
    ensures id in Backlog(n) <==> 1 <= |id| <= n && id == Name(|id| - 1)
    ensures id in Backlog(n) ==> Backlog(n)[id] == Waiting(Unready(|id| - 1), |id| - 1)
  {
    if n > 0 {
      BacklogHolds(n - 1, id);
      assert |Name(n - 1)| == n;
    }
  }

  lemma {:induction false} BacklogSize(n: nat)
    ensures |Backlog(n).Keys| == n
  {
    if n > 0 {
      var rest := Backlog(n - 1);
      BacklogSize(n - 1);
      assert Name(n - 1) !in rest by { BacklogHolds(n - 1, Name(n - 1)); }
      assert Backlog(n).Keys == rest.Keys + {Name(n - 1)};
    }
  }

  function Queued(): Waiting {
    Waiting(ANSWER, SCAN_LIMIT)
  }

  ghost function Stalling(): Rows {
    Backlog(SCAN_LIMIT)["r" := Queued()]
  }

  lemma BacklogComesFirst(b: Id)
    requires b in Backlog(SCAN_LIMIT)
    ensures b in Before(Stalling(), "r") && Stalling()[b].comment.parent == Some("m")
  {
    BacklogHolds(SCAN_LIMIT, b);
    BacklogHolds(SCAN_LIMIT, "r");
    assert Name(0) == "u";
  }

  lemma BacklogBlocks()
    ensures Blocked(map[], Stalling(), "p", "r", Backlog(SCAN_LIMIT).Keys)
  {
    BacklogSize(SCAN_LIMIT);
    forall b | b in Backlog(SCAN_LIMIT)
      ensures b in Before(Stalling(), "r") && !ParentIn(Stalling()[b].comment, WaitingFor(Stalling(), "p"))
    {
      BacklogComesFirst(b);
      BacklogHolds(SCAN_LIMIT, "m");
      assert Name(0) == "u";
    }
    var none: Table := map[];
    assert none.Keys + WaitingFor(Stalling(), "p") == WaitingFor(Stalling(), "p");
  }

  lemma BacklogGrows(i: nat, rows: Rows, stale: set<Id>, stale': set<Id>)
    requires i < MAX_ORPHAN_COMMENTS && Buffered(Backlog(i), stale, rows, stale', Waiting(Unready(i), i))
    ensures rows == Backlog(i + 1)
  {
    BacklogSize(i + 1);
  }

  method FillBacklog(n: nat) returns (s: SocialStore)
    requires n <= MAX_ORPHAN_COMMENTS
    ensures fresh(s) && s.Valid() && s.posts == {} && s.comments == map[] && s.orphans == Backlog(n)
  {
    s := new SocialStore();
    for i := 0 to n
      invariant fresh(s) && s.Valid() && s.posts == {} && s.comments == map[] && s.orphans == Backlog(i)
    {
      AddToBacklog(s, i);
    }
  }

  method AddToBacklog(s: SocialStore, i: nat)
    requires s.Valid() && s.posts == {} && s.comments == map[] && s.orphans == Backlog(i) && i < MAX_ORPHAN_COMMENTS
    modifies s
    ensures s.Valid() && s.posts == {} && s.comments == map[] && s.orphans == Backlog(i + 1)
  {
    BacklogHolds(i, Name(i));
    ghost var stale := s.stale;
    var stored := s.InsertComment(Unready(i), i);
    BacklogGrows(i, s.orphans, stale, s.stale);
  }

  lemma QueuedBehind(rows: Rows, stale: set<Id>, stale': set<Id>)
    requires Buffered(Backlog(SCAN_LIMIT), stale, rows, stale', Queued())
    ensures rows == Stalling()
  {
    BacklogSize(SCAN_LIMIT);
    assert Stalling().Keys == Backlog(SCAN_LIMIT).Keys + {"r"};
  }

  method QueueBehind() returns (s: SocialStore)
    ensures fresh(s) && s.Valid() && s.posts == {} && s.comments == map[] && s.orphans == Stalling()
  {
    s := FillBacklog(SCAN_LIMIT);
    BacklogHolds(SCAN_LIMIT, "r");
    assert Name(0) == "u";
    ghost var stale := s.stale;
    var stored := s.InsertComment(ANSWER, SCAN_LIMIT);
    QueuedBehind(s.orphans, stale, s.stale);
  }

  /** 256 comments that are not ready keep a ready one behind them waiting when the post arrives. */
  method ReplayStalls() returns (s: SocialStore)
    ensures s.Valid() && "p" in s.posts && "r" in s.orphans && Ready(ANSWER, s.posts, s.comments.Keys)
  {
    s := QueueBehind();
    BacklogBlocks();
    s.InsertPost("p");
    BlockedIsLeftBehind(map[], Stalling(), s.comments, s.orphans, "p", "r", Backlog(SCAN_LIMIT).Keys);
  }
}
