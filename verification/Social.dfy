/** Posts and comments arriving in any order: early comments wait in a buffer and are replayed. */
module Social {
  import opened Bytes

  type Id = string

  const MAX_ORPHAN_COMMENTS: nat := 1024
  const SCAN_LIMIT: nat := 256

  datatype Comment = Comment(id: Id, post: Id, parent: Option<Id>, author: string, body: string)

  type Table = map<Id, Comment>

  /** An empty parent id means no parent. */
  function Normalised(c: Comment): Comment {
    if c.parent == Some("") then c.(parent := None) else c
  }

  /** `c` has the fields of `raw`, but for an empty parent id. */
  predicate HasFieldsOf(c: Comment, raw: Comment) {
    && c.id == raw.id && c.post == raw.post && c.author == raw.author && c.body == raw.body
    && (if raw.parent == Some("") then c.parent == None else c.parent == raw.parent)
  }

  // ---------------------------------------------------------------------------------------------
  // The meaning: a least fixpoint
  // ---------------------------------------------------------------------------------------------

  predicate ParentIn(c: Comment, stored: set<Id>) {
    c.parent.None? || c.parent.value in stored
  }

  /** The post is present and the parent, if any, is stored. */
  predicate Ready(c: Comment, posts: set<Id>, stored: set<Id>) {
    c.post in posts && ParentIn(c, stored)
  }

  ghost predicate Closed(posts: set<Id>, live: Table, s: set<Id>) {
    forall id :: id in live && Ready(live[id], posts, s) ==> id in s
  }

  ghost predicate LeastClosed(posts: set<Id>, live: Table, s: set<Id>) {
    Closed(posts, live, s) && forall t :: Closed(posts, live, t) ==> s <= t
  }

  /** The replay looks for children in the parent's post only. */
  ghost predicate Local(live: Table, c: Comment) {
    c.parent.None? || c.parent.value !in live || live[c.parent.value].post == c.post
  }

  // ---------------------------------------------------------------------------------------------
  // The buffer
  // ---------------------------------------------------------------------------------------------

  /** A row of the buffer, with the second at which the database wrote it. */
  datatype Waiting = Waiting(comment: Comment, at: int)

  type Rows = map<Id, Waiting>

  function Bodies(rows: Rows): Table {
    map id | id in rows :: rows[id].comment
  }

  /** Ids are compared as text. */
  predicate Less(a: Id, b: Id) {
    b != [] && (a == [] || a[0] < b[0] || (a[0] == b[0] && Less(a[1..], b[1..])))
  }

  /** The first letter that differs decides, and a text comes after its beginnings. */
  lemma {:induction false} LessIsByLetters(x: Id, c: char, u: Id, d: char, v: Id)
    ensures c != d ==> (Less(x + [c] + u, x + [d] + v) <==> c < d)
    ensures Less(x, x + [c] + u) && !Less(x + [c] + u, x)
  {
    if x == [] {
      assert x + [c] + u == [c] + u && x + [d] + v == [d] + v;
    } else {
      LessIsByLetters(x[1..], c, u, d, v);
      assert (x + [c] + u)[1..] == x[1..] + [c] + u && (x + [d] + v)[1..] == x[1..] + [d] + v;
    }
  }

  lemma {:induction false} LessIsTotal(a: Id, b: Id)
    ensures Less(a, b) || Less(b, a) <==> a != b
    ensures !(Less(a, b) && Less(b, a))
  {
    if a != [] && b != [] {
      LessIsTotal(a[1..], b[1..]);
      assert a == [a[0]] + a[1..] && b == [b[0]] + b[1..];
    }
  }

  lemma {:induction false} LessIsTransitive(a: Id, b: Id, c: Id)
    requires Less(a, b) && Less(b, c)
    ensures Less(a, c)
  {
    if a != [] && a[0] == b[0] == c[0] { LessIsTransitive(a[1..], b[1..], c[1..]); }
  }

  /** The order of the scan: by time of writing, then by id. */
  predicate Earlier(rows: Rows, i: Id, j: Id)
    requires i in rows && j in rows
  {
    rows[i].at < rows[j].at || (rows[i].at == rows[j].at && Less(i, j))
  }

  lemma EarlierIsByTime(rows: Rows, i: Id, j: Id)
    requires i in rows && j in rows
    ensures rows[i].at < rows[j].at ==> Earlier(rows, i, j)
    ensures Earlier(rows, i, j) ==> rows[i].at <= rows[j].at
    ensures rows[i].at == rows[j].at ==> (Earlier(rows, i, j) <==> Less(i, j))
  {}

  lemma EarlierIsTotal(rows: Rows, i: Id, j: Id)
    requires i in rows && j in rows
    ensures Earlier(rows, i, j) || Earlier(rows, j, i) <==> i != j
    ensures !(Earlier(rows, i, j) && Earlier(rows, j, i))
  {
    LessIsTotal(i, j);
  }

  lemma EarlierIsTransitive(rows: Rows, i: Id, j: Id, k: Id)
    requires i in rows && j in rows && k in rows && Earlier(rows, i, j) && Earlier(rows, j, k)
    ensures Earlier(rows, i, k)
  {
    if rows[i].at == rows[j].at == rows[k].at { LessIsTransitive(i, j, k); }
  }

  predicate IsFirst(rows: Rows, among: set<Id>, id: Id)
    requires among <= rows.Keys
  {
    id in among && forall j :: j in among && j != id ==> Earlier(rows, id, j)
  }

  lemma {:induction false} FirstExists(rows: Rows, among: set<Id>)
    requires among <= rows.Keys && among != {}
    ensures exists id :: IsFirst(rows, among, id)
  {
    var x :| x in among;
    if among == {x} {
      assert IsFirst(rows, among, x);
    } else {
      FirstExists(rows, among - {x});
      var y :| IsFirst(rows, among - {x}, y);
      EarlierIsTotal(rows, x, y);
      var z := if Earlier(rows, x, y) then x else y;
      forall j | j in among && j != z ensures Earlier(rows, z, j) {
        if z == x && j != y { EarlierIsTransitive(rows, x, y, j); }
      }
      assert IsFirst(rows, among, z);
    }
  }

  function WaitingFor(rows: Rows, post: Id): set<Id> {
    set id | id in rows && rows[id].comment.post == post
  }

  /** The rows of the same post that a scan lists before `id`. */
  function Before(rows: Rows, id: Id): set<Id>
    requires id in rows
  {
    set j | j in rows && rows[j].comment.post == rows[id].comment.post && Earlier(rows, j, id)
  }

  /** A scan for its post returns the row. */
  predicate InWindow(rows: Rows, id: Id)
    requires id in rows
  {
    |Before(rows, id)| < SCAN_LIMIT
  }

  ghost predicate Fewer(rows: Rows, rows': Rows) {
    rows'.Keys <= rows.Keys && forall id :: id in rows' ==> rows'[id] == rows[id]
  }

  /** Fewer rows never push a row out of the window. */
  lemma WindowGrows(rows: Rows, rows': Rows, id: Id)
    requires id in rows' && Fewer(rows, rows')
    ensures InWindow(rows, id) ==> InWindow(rows', id)
  {
    SubsetCardinality(Before(rows', id), Before(rows, id));
  }

  lemma FewAreInWindow(rows: Rows, id: Id)
    requires id in rows && |WaitingFor(rows, rows[id].comment.post)| <= SCAN_LIMIT
    ensures InWindow(rows, id)
  {
    EarlierIsTotal(rows, id, id);
    SubsetCardinality(Before(rows, id) + {id}, WaitingFor(rows, rows[id].comment.post));
  }

  // ---------------------------------------------------------------------------------------------
  // What every step keeps
  // ---------------------------------------------------------------------------------------------

  ghost predicate Keyed(t: Table) { forall id :: id in t ==> t[id].id == id }

  /** Stored and waiting comments are disjoint; every stored comment was ready, and whatever is closed
      under readiness contains all of them. */
  ghost predicate Sound(posts: set<Id>, comments: Table, waiting: Table) {
    && comments.Keys !! waiting.Keys && Keyed(comments) && Keyed(waiting)
    && (forall id :: id in comments ==> Ready(comments[id], posts, comments.Keys))
    && (forall t :: Closed(posts, comments + waiting, t) ==> comments.Keys <= t)
  }

  /** Outside the `excused` posts no comment within the window of a scan is ready: one that is ready has at
      least 256 rows before it. */
  ghost predicate Settled(posts: set<Id>, comments: Table, rows: Rows, excused: set<Id>) {
    forall id :: id in rows && rows[id].comment.post !in excused && InWindow(rows, id)
                 && Local(comments + Bodies(rows), rows[id].comment) ==>
      !Ready(rows[id].comment, posts, comments.Keys)
  }

  ghost predicate Good(posts: set<Id>, comments: Table, rows: Rows, excused: set<Id>) {
    Sound(posts, comments, Bodies(rows)) && Settled(posts, comments, rows, excused)
  }

  lemma SoundPromote(posts: set<Id>, comments: Table, waiting: Table, id: Id)
    requires Sound(posts, comments, waiting) && id in waiting && Ready(waiting[id], posts, comments.Keys)
    ensures Sound(posts, comments[id := waiting[id]], waiting - {id})
  {
    assert comments[id := waiting[id]] + (waiting - {id}) == comments + waiting;
  }

  lemma PromoteOne(posts: set<Id>, comments: Table, rows: Rows, id: Id, excused: set<Id>)
    requires Good(posts, comments, rows, excused)
    requires id in rows && Ready(rows[id].comment, posts, comments.Keys) && rows[id].comment.post in excused
    ensures Good(posts, comments[id := rows[id].comment], rows - {id}, excused)
  {
    var comments', rows' := comments[id := rows[id].comment], rows - {id};
    assert Bodies(rows') == Bodies(rows) - {id};
    SoundPromote(posts, comments, Bodies(rows), id);
    assert comments' + Bodies(rows') == comments + Bodies(rows);
    forall j | j in rows' && rows'[j].comment.post !in excused && InWindow(rows', j)
               && Local(comments' + Bodies(rows'), rows'[j].comment)
      ensures !Ready(rows'[j].comment, posts, comments'.Keys)
    {
      assert Before(rows', j) == Before(rows, j);
      assert !Ready(rows[j].comment, posts, comments.Keys);
      assert (comments + Bodies(rows))[id] == rows[id].comment;
    }
  }

  lemma AddPost(posts: set<Id>, comments: Table, rows: Rows, excused: set<Id>, post: Id)
    requires Good(posts, comments, rows, excused)
    ensures Good(posts + {post}, comments, rows, excused + {post})
  {
    forall t | Closed(posts + {post}, comments + Bodies(rows), t) ensures comments.Keys <= t {
      assert Closed(posts, comments + Bodies(rows), t);
    }
  }

  lemma SoundAdd(posts: set<Id>, comments: Table, waiting: Table, c: Comment)
    requires Sound(posts, comments, waiting) && c.id !in comments && c.id !in waiting
    ensures Sound(posts, comments, waiting[c.id := c])
  {
    var live, live' := comments + waiting, comments + waiting[c.id := c];
    assert live' == live[c.id := c];
    forall t | Closed(posts, live', t) ensures comments.Keys <= t {
      assert Closed(posts, live, t) by {
        forall id | id in live && Ready(live[id], posts, t) ensures id in t { assert live'[id] == live[id]; }
      }
    }
  }

  /** A new comment enters the buffer; its own post is excused if the comment is ready. */
  lemma AddOrphan(posts: set<Id>, comments: Table, rows: Rows, excused: set<Id>, w: Waiting)
    requires Good(posts, comments, rows, excused) && w.comment.id !in comments && w.comment.id !in rows
    requires Ready(w.comment, posts, comments.Keys) ==> w.comment.post in excused
    ensures Good(posts, comments, rows[w.comment.id := w], excused)
  {
    var rows' := rows[w.comment.id := w];
    assert Bodies(rows') == Bodies(rows)[w.comment.id := w.comment];
    SoundAdd(posts, comments, Bodies(rows), w.comment);
    forall j | j in rows' && rows'[j].comment.post !in excused && InWindow(rows', j)
               && Local(comments + Bodies(rows'), rows'[j].comment)
      ensures !Ready(rows'[j].comment, posts, comments.Keys)
    {
      if j != w.comment.id {
        WindowGrows(rows', rows, j);
        assert Local(comments + Bodies(rows), rows[j].comment);
      }
    }
  }

  lemma AdditionGrows(rows: Rows, w: Waiting)
    ensures |rows[w.comment.id := w].Keys| <= |rows.Keys| + 1
  {
    assert rows[w.comment.id := w].Keys == rows.Keys + {w.comment.id};
  }

  lemma SoundForget(posts: set<Id>, comments: Table, waiting: Table, victim: Id)
    requires Sound(posts, comments, waiting) && victim in waiting
    ensures Sound(posts, comments, waiting - {victim})
  {
    var waiting' := waiting - {victim};
    var live, live' := comments + waiting, comments + waiting';
    forall t | Closed(posts, live', t) ensures comments.Keys <= t {
      // No stored comment owes anything to the victim: allow all waiting ones and nothing changes.
      var t' := t + waiting.Keys;
      forall id | id in live && Ready(live[id], posts, t') ensures id in t' {
        if id in comments {
          assert Ready(comments[id], posts, comments.Keys);
          assert comments.Keys !! waiting.Keys;
          assert live'[id] == comments[id] && Ready(live'[id], posts, t);
        }
      }
      assert Closed(posts, live, t');
    }
  }

  /** Forgetting a waiting comment moves those of its post up, so that post is excused. */
  lemma ForgetOrphan(posts: set<Id>, comments: Table, rows: Rows, excused: set<Id>, victim: Id)
    requires Good(posts, comments, rows, excused) && victim in rows
    ensures Good(posts, comments, rows - {victim}, excused + {rows[victim].comment.post})
  {
    var rows' := rows - {victim};
    assert Bodies(rows') == Bodies(rows) - {victim};
    SoundForget(posts, comments, Bodies(rows), victim);
    forall j | j in rows' && rows'[j].comment.post !in excused + {rows[victim].comment.post} && InWindow(rows', j)
               && Local(comments + Bodies(rows'), rows'[j].comment)
      ensures !Ready(rows'[j].comment, posts, comments.Keys)
    {
      assert Before(rows', j) == Before(rows, j);
      if rows[j].comment.parent == Some(victim) {
        assert victim in Bodies(rows) && victim !in comments;
      } else {
        assert Local(comments + Bodies(rows), rows[j].comment);
      }
    }
  }

  lemma AddStored(posts: set<Id>, comments: Table, rows: Rows, excused: set<Id>, c: Comment)
    requires Good(posts, comments, rows, excused) && Ready(c, posts, comments.Keys)
    requires c.id !in comments && c.id !in rows
    ensures Good(posts, comments[c.id := c], rows, excused + {c.post})
  {
    var rows' := rows[c.id := Waiting(c, 0)];
    AddOrphan(posts, comments, rows, excused + {c.post}, rows'[c.id]);
    PromoteOne(posts, comments, rows', c.id, excused + {c.post});
    assert rows' - {c.id} == rows;
  }

  lemma BufferOverflows(posts: set<Id>, comments: Table, rows: Rows, stale: set<Id>, victim: Id)
    requires Good(posts, comments, rows, stale) && victim in rows && |rows.Keys| <= MAX_ORPHAN_COMMENTS + 1
    ensures Good(posts, comments, rows - {victim}, stale + {rows[victim].comment.post})
    ensures |(rows - {victim}).Keys| <= MAX_ORPHAN_COMMENTS
  {
    ForgetOrphan(posts, comments, rows, stale, victim);
    assert (rows - {victim}).Keys == rows.Keys - {victim};
  }

  // ---------------------------------------------------------------------------------------------
  // Replaying
  // ---------------------------------------------------------------------------------------------

  /** The waiting comments `done` became stored ones; nothing else changed. */
  ghost predicate Moved(comments0: Table, rows0: Rows, comments: Table, rows: Rows, done: set<Id>) {
    && done <= rows0.Keys && rows.Keys == rows0.Keys - done && comments.Keys == comments0.Keys + done
    && (forall id :: id in rows ==> rows[id] == rows0[id])
    && (forall id :: id in comments ==> comments[id] == if id in done then rows0[id].comment else comments0[id])
  }

  /** `t` holds every comment waiting for the post whose parent is stored or in `t` and which, without
      `t`, has fewer than 256 rows before it. */
  ghost predicate WindowClosed(comments: Table, rows: Rows, post: Id, t: set<Id>) {
    forall id :: Due(comments, rows, post, t, id) ==> id in t
  }

  ghost predicate Due(comments: Table, rows: Rows, post: Id, t: set<Id>, id: Id) {
    && id in WaitingFor(rows, post) && ParentIn(rows[id].comment, comments.Keys + t)
    && |Before(rows, id) - t| < SCAN_LIMIT
  }

  /** Whatever is closed in this sense contains `done`. */
  ghost predicate Forced(comments: Table, rows: Rows, post: Id, done: set<Id>) {
    forall t :: WindowClosed(comments, rows, post, t) ==> done <= t
  }

  ghost predicate Partly(comments0: Table, rows0: Rows, comments: Table, rows: Rows, post: Id, done: set<Id>) {
    && Moved(comments0, rows0, comments, rows, done) && done <= WaitingFor(rows0, post)
    && Forced(comments0, rows0, post, done)
  }

  /** A replay stores the least set that is closed in this sense, and nothing else. */
  ghost predicate Replayed(comments0: Table, rows0: Rows, comments: Table, rows: Rows, post: Id) {
    var done := rows0.Keys - rows.Keys;
    Partly(comments0, rows0, comments, rows, post, done) && WindowClosed(comments0, rows0, post, done)
  }

  lemma MovedKeepsAll(comments0: Table, rows0: Rows, comments: Table, rows: Rows, done: set<Id>)
    requires Moved(comments0, rows0, comments, rows, done) && comments0.Keys !! rows0.Keys
    ensures comments + Bodies(rows) == comments0 + Bodies(rows0)
  {}

  lemma RemovalShrinks(rows: Rows, id: Id)
    requires id in rows
    ensures |(rows - {id}).Keys| == |rows.Keys| - 1
  {
    assert (rows - {id}).Keys == rows.Keys - {id};
  }

  lemma MoveOne(comments0: Table, rows0: Rows, comments: Table, rows: Rows, done: set<Id>, id: Id)
    requires Moved(comments0, rows0, comments, rows, done) && id in rows
    ensures Moved(comments0, rows0, comments[id := rows[id].comment], rows - {id}, done + {id})
  {}

  /** Whatever is closed holds each comment that a pass stores. */
  lemma ForcedStep(comments: Table, rows: Rows, post: Id, done: set<Id>, id: Id)
    requires Forced(comments, rows, post, done) && Due(comments, rows, post, done, id)
    ensures Forced(comments, rows, post, done + {id})
  {
    forall t | WindowClosed(comments, rows, post, t) ensures done + {id} <= t {
      SubsetCardinality(Before(rows, id) - t, Before(rows, id) - done);
      assert Due(comments, rows, post, t, id);
    }
  }

  lemma DueIffInWindow(comments0: Table, rows0: Rows, rows: Rows, post: Id, done: set<Id>, id: Id)
    requires Fewer(rows0, rows) && rows.Keys == rows0.Keys - done && id in rows
    ensures Due(comments0, rows0, post, done, id)
            <==> InWindowOf(rows, post, id) && ParentIn(rows[id].comment, comments0.Keys + done)
  {
    assert Before(rows, id) == Before(rows0, id) - done;
  }

  lemma ReplayOne(comments0: Table, rows0: Rows, comments: Table, rows: Rows, post: Id, done: set<Id>, id: Id)
    requires Partly(comments0, rows0, comments, rows, post, done) && comments0.Keys !! rows0.Keys
    requires InWindowOf(rows, post, id) && ParentIn(rows[id].comment, comments.Keys)
    ensures Partly(comments0, rows0, comments[id := rows[id].comment], rows - {id}, post, done + {id})
  {
    DueIffInWindow(comments0, rows0, rows, post, done, id);
    ForcedStep(comments0, rows0, post, done, id);
    MoveOne(comments0, rows0, comments, rows, done, id);
  }

  lemma NothingReplayed(comments: Table, rows: Rows, post: Id)
    ensures Partly(comments, rows, comments, rows, post, {})
  {}

  ghost predicate NoneReady(ids: seq<Id>, n: nat, comments: Table, rows: Rows)
    requires n <= |ids|
  {
    forall i :: 0 <= i < n && ids[i] in rows ==> !ParentIn(rows[ids[i]].comment, comments.Keys)
  }

  ghost predicate InWindowOf(rows: Rows, post: Id, id: Id) {
    id in WaitingFor(rows, post) && InWindow(rows, id)
  }

  ghost predicate AllWaiting(ids: seq<Id>, rows: Rows, post: Id) {
    forall i :: 0 <= i < |ids| ==> InWindowOf(rows, post, ids[i])
  }

  datatype PassState = PassState(comments: Table, rows: Rows, progressed: bool)

  /** The tables after a pass over the first `n` ids of a scan. */
  function PassOver(comments: Table, rows: Rows, pending: seq<Id>, n: nat): PassState
    requires n <= |pending|
  {
    if n == 0 then PassState(comments, rows, false)
    else
      var before, id := PassOver(comments, rows, pending, n - 1), pending[n - 1];
      if id !in before.rows || !ParentIn(before.rows[id].comment, before.comments.Keys) then before
      else PassState(before.comments[id := before.rows[id].comment], before.rows - {id}, true)
  }

  /** A pass removes rows of its scan only. */
  lemma {:induction false} PassLeaves(comments: Table, rows: Rows, pending: seq<Id>, n: nat)
    requires n <= |pending| && Distinct(pending) && forall i :: 0 <= i < |pending| ==> pending[i] in rows
    ensures var s := PassOver(comments, rows, pending, n);
            Fewer(rows, s.rows) && forall i :: n <= i < |pending| ==> pending[i] in s.rows
  {
    if n > 0 { PassLeaves(comments, rows, pending, n - 1); }
  }

  lemma {:induction false} PassShrinks(comments: Table, rows: Rows, pending: seq<Id>, n: nat)
    requires n <= |pending|
    ensures var s := PassOver(comments, rows, pending, n);
            |s.rows.Keys| <= |rows.Keys| && (s.progressed ==> |s.rows.Keys| < |rows.Keys|)
  {
    if n > 0 {
      PassShrinks(comments, rows, pending, n - 1);
      var before, id := PassOver(comments, rows, pending, n - 1), pending[n - 1];
      if id in before.rows && ParentIn(before.rows[id].comment, before.comments.Keys) {
        RemovalShrinks(before.rows, id);
        assert PassOver(comments, rows, pending, n).rows == before.rows - {id};
      } else {
        assert PassOver(comments, rows, pending, n) == before;
      }
    }
  }

  /** A pass that stores nothing found nothing ready. */
  lemma {:induction false} PassFindsNone(comments: Table, rows: Rows, pending: seq<Id>, n: nat)
    requires n <= |pending| && !PassOver(comments, rows, pending, n).progressed
    ensures PassOver(comments, rows, pending, n) == PassState(comments, rows, false)
    ensures NoneReady(pending, n, comments, rows)
  {
    if n > 0 {
      assert PassOver(comments, rows, pending, n) == PassOver(comments, rows, pending, n - 1);
      PassFindsNone(comments, rows, pending, n - 1);
    }
  }

  lemma NextWaits(comments: Table, rows: Rows, post: Id, pending: seq<Id>, n: nat)
    requires n < |pending| && Distinct(pending) && AllWaiting(pending, rows, post)
    ensures InWindowOf(PassOver(comments, rows, pending, n).rows, post, pending[n])
  {
    forall i | 0 <= i < |pending| ensures pending[i] in rows { assert InWindowOf(rows, post, pending[i]); }
    PassLeaves(comments, rows, pending, n);
    assert InWindowOf(rows, post, pending[n]);
    WindowGrows(rows, PassOver(comments, rows, pending, n).rows, pending[n]);
  }

  lemma {:induction false} PassIsPartly(comments0: Table, rows0: Rows, comments: Table, rows: Rows, post: Id,
                                        done: set<Id>, pending: seq<Id>, n: nat) returns (done': set<Id>)
    requires Partly(comments0, rows0, comments, rows, post, done) && comments0.Keys !! rows0.Keys
    requires n <= |pending| && Distinct(pending) && AllWaiting(pending, rows, post)
    ensures var s := PassOver(comments, rows, pending, n); Partly(comments0, rows0, s.comments, s.rows, post, done')
  {
    done' := done;
    if n > 0 {
      done' := PassIsPartly(comments0, rows0, comments, rows, post, done, pending, n - 1);
      NextWaits(comments, rows, post, pending, n - 1);
      var s, id := PassOver(comments, rows, pending, n - 1), pending[n - 1];
      if ParentIn(s.rows[id].comment, s.comments.Keys) {
        ReplayOne(comments0, rows0, s.comments, s.rows, post, done', id);
        done' := done' + {id};
      }
    }
  }

  lemma NotReadyInPass(comments: Table, rows: Rows, pending: seq<Id>, id: Id)
    requires NoneReady(pending, |pending|, comments, rows) && id in pending && id in rows
    ensures !ParentIn(rows[id].comment, comments.Keys)
  {
    var i :| 0 <= i < |pending| && pending[i] == id;
  }

  /** A pass over the whole window that finds nothing ready ends the replay. */
  lemma FullPassCloses(comments0: Table, rows0: Rows, comments: Table, rows: Rows, post: Id, done: set<Id>,
                       pending: seq<Id>)
    requires Partly(comments0, rows0, comments, rows, post, done) && comments0.Keys !! rows0.Keys
    requires NoneReady(pending, |pending|, comments, rows)
    requires forall id :: InWindowOf(rows, post, id) ==> id in pending
    ensures Replayed(comments0, rows0, comments, rows, post)
  {
    forall id | Due(comments0, rows0, post, done, id) ensures id in done {
      if id !in done {
        DueIffInWindow(comments0, rows0, rows, post, done, id);
        NotReadyInPass(comments, rows, pending, id);
      }
    }
    assert rows0.Keys - rows.Keys == done;
  }

  /** Every comment that a replay stores was ready. */
  lemma ReplayedAreReady(comments: Table, rows: Rows, post: Id, done: set<Id>, id: Id)
    requires Forced(comments, rows, post, done) && WindowClosed(comments, rows, post, done)
    requires id in done && done <= WaitingFor(rows, post)
    ensures ParentIn(rows[id].comment, comments.Keys + done)
  {
    if !ParentIn(rows[id].comment, comments.Keys + done) {
      var less := done - {id};
      forall j | Due(comments, rows, post, less, j) ensures j in less {
        SubsetCardinality(Before(rows, j) - done, Before(rows, j) - less);
        assert Due(comments, rows, post, done, j);
      }
      assert WindowClosed(comments, rows, post, less);
    }
  }

  lemma MovedStaysKeyed(comments0: Table, rows0: Rows, comments: Table, rows: Rows, done: set<Id>)
    requires Moved(comments0, rows0, comments, rows, done) && Keyed(comments0) && Keyed(Bodies(rows0))
    ensures Keyed(comments) && Keyed(Bodies(rows))
  {
    forall id | id in comments ensures comments[id].id == id {
      if id in done { assert Bodies(rows0)[id] == rows0[id].comment; }
    }
    forall id | id in rows ensures rows[id].comment.id == id { assert Bodies(rows0)[id] == rows0[id].comment; }
  }

  lemma ReplayIsSound(posts: set<Id>, comments0: Table, rows0: Rows, comments: Table, rows: Rows, post: Id)
    requires Sound(posts, comments0, Bodies(rows0)) && post in posts
    requires Replayed(comments0, rows0, comments, rows, post)
    ensures Sound(posts, comments, Bodies(rows))
  {
    var done := rows0.Keys - rows.Keys;
    var live := comments0 + Bodies(rows0);
    MovedKeepsAll(comments0, rows0, comments, rows, done);
    MovedStaysKeyed(comments0, rows0, comments, rows, done);
    forall id | id in done ensures ParentIn(rows0[id].comment, comments.Keys) {
      ReplayedAreReady(comments0, rows0, post, done, id);
    }
    forall t | Closed(posts, live, t) ensures done <= t {
      ClosedIsWindowClosed(posts, comments0, rows0, post, t);
    }
  }

  lemma ClosedIsWindowClosed(posts: set<Id>, comments: Table, rows: Rows, post: Id, t: set<Id>)
    requires Sound(posts, comments, Bodies(rows)) && post in posts && Closed(posts, comments + Bodies(rows), t)
    ensures WindowClosed(comments, rows, post, t)
  {
    forall id | Due(comments, rows, post, t, id) ensures id in t {
      assert (comments + Bodies(rows))[id] == rows[id].comment;
      assert comments.Keys <= t;
    }
  }

  /** After its replay a post is settled. */
  lemma ReplaySettles(posts: set<Id>, comments0: Table, rows0: Rows, comments: Table, rows: Rows, excused: set<Id>,
                      post: Id)
    requires Good(posts, comments0, rows0, excused + {post}) && Replayed(comments0, rows0, comments, rows, post)
    ensures Settled(posts, comments, rows, excused - {post})
  {
    var done := rows0.Keys - rows.Keys;
    MovedKeepsAll(comments0, rows0, comments, rows, done);
    forall id | id in rows && rows[id].comment.post !in excused - {post} && InWindow(rows, id)
                && Local(comments + Bodies(rows), rows[id].comment)
      ensures !Ready(rows[id].comment, posts, comments.Keys)
    {
      if rows[id].comment.post == post {
        DueIffInWindow(comments0, rows0, rows, post, done, id);
      } else {
        OthersUnmoved(comments0, rows0, rows, post, done, id);
        LocalParentUnmoved(comments0, rows0, comments, rows, post, done, id);
      }
    }
  }

  lemma OthersUnmoved(comments0: Table, rows0: Rows, rows: Rows, post: Id, done: set<Id>, id: Id)
    requires Fewer(rows0, rows) && rows.Keys == rows0.Keys - done && done <= WaitingFor(rows0, post)
    requires id in rows && rows[id].comment.post != post
    ensures InWindow(rows, id) <==> InWindow(rows0, id)
  {
    assert Before(rows, id) == Before(rows0, id);
  }

  /** A comment that answers within its own post finds no parent among those stored for another. */
  lemma LocalParentUnmoved(comments0: Table, rows0: Rows, comments: Table, rows: Rows, post: Id, done: set<Id>, id: Id)
    requires Moved(comments0, rows0, comments, rows, done) && done <= WaitingFor(rows0, post)
    requires comments0.Keys !! rows0.Keys && id in rows && rows[id].comment.post != post
    requires Local(comments0 + Bodies(rows0), rows[id].comment)
    ensures ParentIn(rows[id].comment, comments.Keys) ==> ParentIn(rows[id].comment, comments0.Keys)
  {
    var c := rows[id].comment;
    var live := comments0 + Bodies(rows0);
    assert forall p :: p in done ==> live[p] == rows0[p].comment;
  }

  lemma ReplayKeepsGood(posts: set<Id>, comments0: Table, rows0: Rows, comments: Table, rows: Rows, excused: set<Id>,
                        post: Id)
    requires Good(posts, comments0, rows0, excused + {post}) && post in posts
    requires Replayed(comments0, rows0, comments, rows, post)
    ensures Good(posts, comments, rows, excused - {post}) && |rows.Keys| <= |rows0.Keys|
    ensures forall id :: InWindowOf(rows, post, id) ==> !Ready(rows[id].comment, posts, comments.Keys)
  {
    forall id | InWindowOf(rows, post, id) ensures !Ready(rows[id].comment, posts, comments.Keys) {
      LeftBehind(comments0, rows0, comments, rows, post, id);
    }
    ReplayIsSound(posts, comments0, rows0, comments, rows, post);
    ReplaySettles(posts, comments0, rows0, comments, rows, excused, post);
    SubsetCardinality(rows.Keys, rows0.Keys);
  }

  // ---------------------------------------------------------------------------------------------
  // When a replay falls short
  // ---------------------------------------------------------------------------------------------

  /** As `WindowClosed`, for a scan without a limit. */
  ghost predicate ReplayClosed(comments: Table, rows: Rows, post: Id, t: set<Id>) {
    forall id :: id in WaitingFor(rows, post) && ParentIn(rows[id].comment, comments.Keys + t) ==> id in t
  }

  /** What a replay with an unlimited scan would store. */
  ghost function FullReplay(comments: Table, rows: Rows, post: Id): set<Id> {
    set id | id in WaitingFor(rows, post) && forall t :: ReplayClosed(comments, rows, post, t) ==> id in t
  }

  lemma FullReplayIsClosed(comments: Table, rows: Rows, post: Id)
    ensures ReplayClosed(comments, rows, post, FullReplay(comments, rows, post))
  {
    var full := FullReplay(comments, rows, post);
    forall id | id in WaitingFor(rows, post) && ParentIn(rows[id].comment, comments.Keys + full) ensures id in full {
      forall t | ReplayClosed(comments, rows, post, t) ensures id in t {
        assert ParentIn(rows[id].comment, comments.Keys + t);
      }
    }
  }

  lemma FullReplayIsWindowClosed(comments: Table, rows: Rows, post: Id)
    ensures WindowClosed(comments, rows, post, FullReplay(comments, rows, post))
  {
    FullReplayIsClosed(comments, rows, post);
  }

  /** With all of `full` stored but `stuck`, every comment of `stuck` whose parent is stored has at least
      256 rows left before it. */
  ghost predicate StuckBehind(comments: Table, rows: Rows, full: set<Id>, stuck: set<Id>)
    requires stuck <= rows.Keys
  {
    forall id :: id in stuck && ParentIn(rows[id].comment, comments.Keys + (full - stuck)) ==>
      |Before(rows, id) - (full - stuck)| >= SCAN_LIMIT
  }

  ghost predicate CanStick(comments: Table, rows: Rows, full: set<Id>, stuck: set<Id>) {
    stuck != {} && stuck <= full && stuck <= rows.Keys && StuckBehind(comments, rows, full, stuck)
  }

  lemma ShortIsStuck(comments: Table, rows: Rows, post: Id, done: set<Id>)
    requires Forced(comments, rows, post, done) && WindowClosed(comments, rows, post, done)
    ensures var full := FullReplay(comments, rows, post);
            done <= full && (done != full ==> CanStick(comments, rows, full, full - done))
  {
    var full := FullReplay(comments, rows, post);
    FullReplayIsWindowClosed(comments, rows, post);
    assert done <= full && full - (full - done) == done;
    forall id | id in full - done && ParentIn(rows[id].comment, comments.Keys + done)
      ensures |Before(rows, id) - done| >= SCAN_LIMIT
    {
      assert !Due(comments, rows, post, done, id);
    }
  }

  lemma StuckIsShort(comments: Table, rows: Rows, post: Id, done: set<Id>, stuck: set<Id>)
    requires Forced(comments, rows, post, done) && CanStick(comments, rows, FullReplay(comments, rows, post), stuck)
    ensures done != FullReplay(comments, rows, post)
  {
    StuckPartStays(comments, rows, post, FullReplay(comments, rows, post), stuck);
  }

  /** A replay stores less than an unlimited scan would exactly when the buffer it starts from has a part
      that can get stuck behind the window. */
  lemma ReplayFallsShort(comments0: Table, rows0: Rows, comments: Table, rows: Rows, post: Id)
    requires Replayed(comments0, rows0, comments, rows, post)
    ensures var full, done := FullReplay(comments0, rows0, post), rows0.Keys - rows.Keys;
            done <= full && (done != full <==> exists stuck :: CanStick(comments0, rows0, full, stuck))
  {
    var full, done := FullReplay(comments0, rows0, post), rows0.Keys - rows.Keys;
    ShortIsStuck(comments0, rows0, post, done);
    if stuck :| CanStick(comments0, rows0, full, stuck) { StuckIsShort(comments0, rows0, post, done, stuck); }
  }

  lemma StuckPartStays(comments: Table, rows: Rows, post: Id, full: set<Id>, stuck: set<Id>)
    requires CanStick(comments, rows, full, stuck) && full == FullReplay(comments, rows, post)
    ensures WindowClosed(comments, rows, post, full - stuck)
  {
    FullReplayIsClosed(comments, rows, post);
    forall id | Due(comments, rows, post, full - stuck, id) ensures id in full - stuck
    {
      assert ParentIn(rows[id].comment, comments.Keys + full);
    }
  }

  /** A comment left waiting although its parent is stored has at least 256 rows before it. */
  lemma LeftBehind(comments0: Table, rows0: Rows, comments: Table, rows: Rows, post: Id, id: Id)
    requires Replayed(comments0, rows0, comments, rows, post) && id in WaitingFor(rows, post)
    ensures ParentIn(rows[id].comment, comments.Keys) ==> !InWindow(rows, id)
  {
    DueIffInWindow(comments0, rows0, rows, post, rows0.Keys - rows.Keys, id);
  }

  /** At least 256 rows before `id` whose parents are neither stored nor waiting for the post. */
  ghost predicate Blocked(comments: Table, rows: Rows, post: Id, id: Id, blockers: set<Id>) {
    && id in WaitingFor(rows, post) && blockers <= Before(rows, id) && |blockers| >= SCAN_LIMIT
    && forall b :: b in blockers ==> !ParentIn(rows[b].comment, comments.Keys + WaitingFor(rows, post))
  }

  lemma BlockedIsNotDue(comments: Table, rows: Rows, post: Id, id: Id, blockers: set<Id>)
    requires Blocked(comments, rows, post, id, blockers)
    ensures WindowClosed(comments, rows, post, WaitingFor(rows, post) - blockers - {id})
  {
    var t := WaitingFor(rows, post) - blockers - {id};
    SubsetCardinality(blockers, Before(rows, id) - t);
    forall j | Due(comments, rows, post, t, j) ensures j in t {}
  }

  /** Such a comment is left behind, ready or not. */
  lemma BlockedIsLeftBehind(comments0: Table, rows0: Rows, comments: Table, rows: Rows, post: Id, id: Id,
                            blockers: set<Id>)
    requires Replayed(comments0, rows0, comments, rows, post) && Blocked(comments0, rows0, post, id, blockers)
    ensures id in rows
  {
    BlockedIsNotDue(comments0, rows0, post, id, blockers);
  }

  // ---------------------------------------------------------------------------------------------
  // The store
  // ---------------------------------------------------------------------------------------------

  class SocialStore {
    var posts: set<Id>
    var comments: Table
    var orphans: Rows
    /** Posts that lost a row of the buffer to its bound since their last replay. */
    ghost var stale: set<Id>
    /** The comments ever dropped to keep to it. */
    ghost var dropped: set<Id>

    ghost predicate Valid()
      reads this
    {
      Good(posts, comments, orphans, stale) && |orphans.Keys| <= MAX_ORPHAN_COMMENTS
    }

    constructor ()
      ensures Valid() && posts == {} && comments == map[] && orphans == map[] && stale == {} && dropped == {}
    {
      posts, comments, orphans, stale, dropped := {}, map[], map[], {}, {};
    }

    method InsertPost(post: Id)
      requires Valid() && post !in posts
      modifies this`posts, this`comments, this`orphans, this`stale
      ensures Valid() && posts == old(posts) + {post} && stale == old(stale) - {post}
      ensures Replayed(old(comments), old(orphans), comments, orphans, post)
    {
      AddPost(posts, comments, orphans, stale, post);
      posts := posts + {post};
      Replay(post);
    }

    /** Stored exactly when the post and the parent are there; otherwise the comment waits, written at
        `now`. Nothing is lost unless the buffer overflows, and then its first row is. */
    method InsertComment(raw: Comment, now: int) returns (stored: bool)
      requires Valid() && raw.id !in comments && raw.id !in orphans
      modifies this`comments, this`orphans, this`stale, this`dropped
      ensures Valid() && stored == Ready(Normalised(raw), posts, old(comments).Keys)
      ensures stored ==> stale == old(stale) - {raw.post} && dropped == old(dropped)
      ensures stored ==> Replayed(old(comments)[raw.id := Normalised(raw)], old(orphans), comments, orphans, raw.post)
      ensures !stored ==> comments == old(comments)
      ensures !stored ==> Buffered(old(orphans), old(stale), orphans, stale, Waiting(Normalised(raw), now))
      ensures !stored ==> dropped == old(dropped) + ((old(orphans).Keys + {raw.id}) - orphans.Keys)
      ensures stored <==> raw.post in posts && (raw.parent == None || raw.parent == Some("")
                                                || raw.parent.value in old(comments))
      ensures KeptAs(raw, now, stored, comments, orphans, dropped)
    {
      stored := StoreOrBuffer(Normalised(raw), now);
      if stored {
        StoredAs(raw, now, old(comments), old(orphans), comments, orphans, dropped);
      } else {
        BufferedAs(raw, now, old(orphans), old(stale), comments, orphans, stale, old(dropped), dropped);
      }
    }

    method StoreOrBuffer(c: Comment, now: int) returns (stored: bool)
      requires Valid() && c.id !in comments && c.id !in orphans
      modifies this`comments, this`orphans, this`stale, this`dropped
      ensures Valid() && stored == Ready(c, posts, old(comments).Keys)
      ensures stored ==> stale == old(stale) - {c.post} && dropped == old(dropped)
      ensures stored ==> Replayed(old(comments)[c.id := c], old(orphans), comments, orphans, c.post)
      ensures !stored ==> comments == old(comments)
      ensures !stored ==> Buffered(old(orphans), old(stale), orphans, stale, Waiting(c, now))
      ensures !stored ==> dropped == old(dropped) + ((old(orphans).Keys + {c.id}) - orphans.Keys)
    {
      var postReady := c.post in posts;
      var parentReady := c.parent.None? || c.parent.value in comments;
      stored := postReady && parentReady;
      if stored {
        AddStored(posts, comments, orphans, stale, c);
        comments := comments[c.id := c];
        Replay(c.post);
      } else {
        Buffer(Waiting(c, now));
      }
    }

    /** Buffer a comment and bound the buffer. */
    method Buffer(w: Waiting)
      requires Valid() && w.comment.id !in comments && w.comment.id !in orphans
      requires !Ready(w.comment, posts, comments.Keys)
      modifies this`orphans, this`stale, this`dropped
      ensures Valid() && Buffered(old(orphans), old(stale), orphans, stale, w)
      ensures dropped == old(dropped) + ((old(orphans).Keys + {w.comment.id}) - orphans.Keys)
    {
      AddOrphan(posts, comments, orphans, stale, w);
      AdditionGrows(orphans, w);
      orphans := orphans[w.comment.id := w];
      ghost var waiting := orphans.Keys;
      Bound();
      dropped := dropped + (waiting - orphans.Keys);
    }

    method Bound()
      requires Good(posts, comments, orphans, stale) && |orphans.Keys| <= MAX_ORPHAN_COMMENTS + 1
      modifies this`orphans, this`stale
      ensures Valid() && Bounded(old(orphans), old(stale), orphans, stale)
    {
      if |orphans.Keys| > MAX_ORPHAN_COMMENTS {
        FirstExists(orphans, orphans.Keys);
        var victim :| victim in orphans && IsFirst(orphans, orphans.Keys, victim);
        BufferOverflows(posts, comments, orphans, stale, victim);
        stale := stale + {orphans[victim].comment.post};
        orphans := orphans - {victim};
      }
    }

    /** One scan of the buffer: the first 256 rows of the post, in order. */
    method Scan(post: Id) returns (pending: seq<Id>)
      ensures Distinct(pending) && AllWaiting(pending, orphans, post)
      ensures forall i :: 0 <= i < |pending| ==> pending[i] in orphans
      ensures forall id :: InWindowOf(orphans, post, id) ==> id in pending
      ensures Ascending(orphans, pending)
    {
      pending := [];
      var rest := WaitingFor(orphans, post);
      while rest != {} && |pending| < SCAN_LIMIT
        invariant Scanned(orphans, post, pending, rest) && |pending| <= SCAN_LIMIT
        decreases |rest|
      {
        FirstExists(orphans, rest);
        var id :| id in rest && IsFirst(orphans, rest, id);
        ScanOne(orphans, post, pending, rest, id);
        rest := rest - {id};
        pending := pending + [id];
      }
      ScanIsWindow(orphans, post, pending, rest);
    }

    /** A replay settles its post. */
    method Replay(post: Id)
      requires post in posts && Good(posts, comments, orphans, stale + {post})
      modifies this`comments, this`orphans, this`stale
      ensures Good(posts, comments, orphans, stale) && stale == old(stale) - {post}
      ensures |orphans.Keys| <= |old(orphans).Keys|
      ensures Replayed(old(comments), old(orphans), comments, orphans, post)
    {
      PromoteOrphanComments(post);
      ReplayKeepsGood(posts, old(comments), old(orphans), comments, orphans, stale, post);
      stale := stale - {post};
    }

    /** The replay loop. */
    method PromoteOrphanComments(post: Id)
      requires comments.Keys !! orphans.Keys
      modifies this`comments, this`orphans
      ensures Replayed(old(comments), old(orphans), comments, orphans, post)
    {
      ghost var comments0, orphans0, done: set<Id> := comments, orphans, {};
      NothingReplayed(comments, orphans, post);
      while true
        invariant Partly(comments0, orphans0, comments, orphans, post, done)
        decreases |orphans.Keys|
      {
        var pending := Scan(post);
        done := PassIsPartly(comments0, orphans0, comments, orphans, post, done, pending, |pending|);
        PassShrinks(comments, orphans, pending, |pending|);
        ghost var comments1, orphans1 := comments, orphans;
        var progressed := Pass(pending);
        if !progressed {
          PassFindsNone(comments1, orphans1, pending, |pending|);
          FullPassCloses(comments0, orphans0, comments, orphans, post, done, pending);
          return;
        }
      }
    }

    /** One pass over a scan. */
    method Pass(pending: seq<Id>) returns (progressed: bool)
      requires Distinct(pending) && forall i :: 0 <= i < |pending| ==> pending[i] in orphans
      modifies this`comments, this`orphans
      ensures PassState(comments, orphans, progressed)
              == PassOver(old(comments), old(orphans), pending, |pending|)
    {
      progressed := false;
      for i := 0 to |pending|
        invariant PassState(comments, orphans, progressed) == PassOver(old(comments), old(orphans), pending, i)
        invariant forall k :: i <= k < |pending| ==> pending[k] in orphans
      {
        var id := pending[i];
        var c := orphans[id].comment;
        if c.parent.None? || c.parent.value in comments {
          comments := comments[id := c];
          orphans := orphans - {id};
          progressed := true;
        }
      }
    }
  }

  /** The row of `raw`, if it was not dropped, has its fields. */
  ghost predicate KeptAs(raw: Comment, now: int, stored: bool, comments: Table, rows: Rows, dropped: set<Id>) {
    if stored then raw.id in comments && HasFieldsOf(comments[raw.id], raw)
    else raw.id in dropped
         || (raw.id in rows && HasFieldsOf(rows[raw.id].comment, raw) && rows[raw.id].at == now)
  }

  lemma StoredAs(raw: Comment, now: int, comments0: Table, rows0: Rows, comments: Table, rows: Rows, dropped: set<Id>)
    requires Moved(comments0[raw.id := Normalised(raw)], rows0, comments, rows, rows0.Keys - rows.Keys)
    requires raw.id !in rows0
    ensures KeptAs(raw, now, true, comments, rows, dropped)
  {
    assert comments[raw.id] == Normalised(raw);
  }

  lemma BufferedAs(raw: Comment, now: int, rows0: Rows, stale0: set<Id>, comments: Table, rows: Rows, stale: set<Id>,
                   dropped0: set<Id>, dropped: set<Id>)
    requires Buffered(rows0, stale0, rows, stale, Waiting(Normalised(raw), now))
    requires dropped == dropped0 + ((rows0.Keys + {raw.id}) - rows.Keys)
    ensures KeptAs(raw, now, false, comments, rows, dropped)
  {}

  /** The comment waits; if that overflowed the buffer, the first row of all was dropped. */
  ghost predicate Buffered(rows: Rows, stale: set<Id>, rows': Rows, stale': set<Id>, w: Waiting) {
    Bounded(rows[w.comment.id := w], stale, rows', stale')
  }

  ghost predicate Bounded(rows: Rows, stale: set<Id>, rows': Rows, stale': set<Id>) {
    if |rows.Keys| <= MAX_ORPHAN_COMMENTS then rows' == rows && stale' == stale
    else exists v :: IsFirst(rows, rows.Keys, v) && rows' == rows - {v} && stale' == stale + {rows[v].comment.post}
  }

  ghost predicate Ascending(rows: Rows, ids: seq<Id>) {
    forall i, j :: 0 <= i < j < |ids| && ids[i] in rows && ids[j] in rows ==> Earlier(rows, ids[i], ids[j])
  }

  ghost predicate Scanned(rows: Rows, post: Id, pending: seq<Id>, rest: set<Id>) {
    && rest <= WaitingFor(rows, post) && Distinct(pending) && Ascending(rows, pending)
    && (forall i :: 0 <= i < |pending| ==> pending[i] in WaitingFor(rows, post) && pending[i] !in rest)
    && (forall id :: id in WaitingFor(rows, post) ==> id in rest || id in pending)
    && (forall i, j :: 0 <= i < |pending| && j in rest ==> pending[i] in rows && Earlier(rows, pending[i], j))
  }

  lemma ScanOne(rows: Rows, post: Id, pending: seq<Id>, rest: set<Id>, id: Id)
    requires Scanned(rows, post, pending, rest) && IsFirst(rows, rest, id)
    ensures Scanned(rows, post, pending + [id], rest - {id})
  {}

  lemma ScanIsWindow(rows: Rows, post: Id, pending: seq<Id>, rest: set<Id>)
    requires Scanned(rows, post, pending, rest) && |pending| <= SCAN_LIMIT
    requires rest == {} || |pending| == SCAN_LIMIT
    ensures AllWaiting(pending, rows, post)
    ensures forall id :: InWindowOf(rows, post, id) ==> id in pending
  {
    forall i | 0 <= i < |pending| ensures InWindowOf(rows, post, pending[i]) {
      ListedBefore(rows, post, pending, rest, i);
    }
    forall id | InWindowOf(rows, post, id) ensures id in pending {
      if id in rest { DistinctFits(pending, Before(rows, id)); }
    }
  }

  /** The rows before one listed are those listed before it. */
  lemma ListedBefore(rows: Rows, post: Id, pending: seq<Id>, rest: set<Id>, i: nat)
    requires Scanned(rows, post, pending, rest) && i < |pending|
    ensures pending[i] in rows && |Before(rows, pending[i])| <= i
  {
    var id := pending[i];
    forall j | j in Before(rows, id) ensures j in pending[..i] {
      EarlierIsTotal(rows, j, id);
      assert j in WaitingFor(rows, post) && j !in rest;
      var k :| 0 <= k < |pending| && pending[k] == j;
      assert pending[..i][k] == j;
    }
    SetOfList(Before(rows, id), pending[..i]);
  }

  lemma {:induction false} SetOfList(s: set<Id>, ids: seq<Id>)
    requires forall j :: j in s ==> j in ids
    ensures |s| <= |ids|
  {
    if ids == [] {
      assert s == {};
    } else {
      var last, init := ids[|ids| - 1], ids[..|ids| - 1];
      SetOfList(s - {last}, init);
      SubsetCardinality(s, (s - {last}) + {last});
    }
  }

  // ---------------------------------------------------------------------------------------------
  // What the tables hold once nothing is left to replay
  // ---------------------------------------------------------------------------------------------

  /** A waiting comment of a post that has arrived answers a stored comment of another post. */
  ghost predicate Stranded(posts: set<Id>, comments: Table, c: Comment) {
    c.post in posts && c.parent.Some? && c.parent.value in comments && comments[c.parent.value].post != c.post
  }

  ghost predicate FewPerPost(t: Table) {
    forall post: Id :: |OfPost(t, post)| <= SCAN_LIMIT
  }

  ghost function OfPost(t: Table, post: Id): set<Id> {
    set id | id in t && t[id].post == post
  }

  /** With at most 256 comments waiting for a post and none of them moved up by a loss, the stored comments
      are the least fixpoint exactly if none is stranded. */
  lemma StoredIsLeastFixpoint(posts: set<Id>, comments: Table, rows: Rows)
    requires Good(posts, comments, rows, {}) && FewPerPost(Bodies(rows))
    ensures LeastClosed(posts, comments + Bodies(rows), comments.Keys)
            <==> forall id :: id in rows ==> !Stranded(posts, comments, rows[id].comment)
  {
    var live := comments + Bodies(rows);
    forall id | id in rows
      ensures live[id] == rows[id].comment && id !in comments
      ensures Ready(live[id], posts, comments.Keys) <==> Stranded(posts, comments, rows[id].comment)
    {
      ReadyIsStranded(posts, comments, rows, id);
    }
  }

  lemma ReadyIsStranded(posts: set<Id>, comments: Table, rows: Rows, id: Id)
    requires Good(posts, comments, rows, {}) && FewPerPost(Bodies(rows)) && id in rows
    ensures (comments + Bodies(rows))[id] == rows[id].comment && id !in comments
    ensures Ready(rows[id].comment, posts, comments.Keys) <==> Stranded(posts, comments, rows[id].comment)
  {
    var live, c := comments + Bodies(rows), rows[id].comment;
    assert id in Bodies(rows);
    SubsetCardinality(WaitingFor(rows, c.post), OfPost(Bodies(rows), c.post));
    FewAreInWindow(rows, id);
    if c.parent.Some? && c.parent.value in comments {
      assert live[c.parent.value] == comments[c.parent.value] by {
        assert c.parent.value !in Bodies(rows);
      }
    }
  }
}
