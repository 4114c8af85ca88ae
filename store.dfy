/**
 * The database as one value: users by id, and posts, flags, moderation log entries and
 * analysis records each in creation order (so "newest first" is the reverse of store
 * order). Lookups by id, the counting the log invariant needs, and the consistency
 * invariant every request handler keeps.
 */
module Store {
  import opened Wrappers
  import opened Models

  datatype Db = Db(
    users: map<Id, User>,
    posts: seq<Post>,
    flags: seq<Flag>,
    logs: seq<LogEntry>,
    analyses: seq<AnalysisRecord>)

  // ---------------------------------------------------------------- lookups

  /** The first position of `x` in `xs`. */
  function IndexOf<T(==)>(xs: seq<T>, x: T): (r: Option<nat>)
    ensures r.None? <==> x !in xs
    ensures r.Some? ==> r.value < |xs| && xs[r.value] == x && x !in xs[..r.value]
  {
    if xs == [] then None
    else if xs[0] == x then Some(0)
    else
      match IndexOf(xs[1..], x)
      case None => None
      case Some(k) =>
        assert xs[..k + 1] == [xs[0]] + xs[1..][..k];
        Some(k + 1)
  }

  predicate Distinct<T(==)>(xs: seq<T>) {
    forall i, j :: 0 <= i < j < |xs| ==> xs[i] != xs[j]
  }

  function PostIds(posts: seq<Post>): (ids: seq<Id>)
    ensures |ids| == |posts| && forall i :: 0 <= i < |posts| ==> ids[i] == posts[i].id
  {
    seq(|posts|, i requires 0 <= i < |posts| => posts[i].id)
  }

  function FlagIds(flags: seq<Flag>): (ids: seq<Id>)
    ensures |ids| == |flags| && forall i :: 0 <= i < |flags| ==> ids[i] == flags[i].id
  {
    seq(|flags|, i requires 0 <= i < |flags| => flags[i].id)
  }

  /** `Post.findByPk`: where the post with `id` is stored, if anywhere. */
  function FindPost(posts: seq<Post>, id: Id): (r: Option<nat>)
    ensures r.Some? ==> r.value < |posts| && posts[r.value].id == id
    ensures r.None? <==> forall i :: 0 <= i < |posts| ==> posts[i].id != id
  {
    var r := IndexOf(PostIds(posts), id);
    assert r.None? ==> forall i :: 0 <= i < |posts| ==> PostIds(posts)[i] != id;
    r
  }

  /** `Flag.findByPk`. */
  function FindFlag(flags: seq<Flag>, id: Id): (r: Option<nat>)
    ensures r.Some? ==> r.value < |flags| && flags[r.value].id == id
    ensures r.Some? ==> forall k :: 0 <= k < r.value ==> flags[k].id != id
    ensures r.None? <==> forall i :: 0 <= i < |flags| ==> flags[i].id != id
  {
    var r := IndexOf(FlagIds(flags), id);
    assert r.None? ==> forall i :: 0 <= i < |flags| ==> FlagIds(flags)[i] != id;
    assert r.Some? ==> forall k :: 0 <= k < r.value ==> FlagIds(flags)[..r.value][k] == flags[k].id;
    r
  }

  /** The first position holding `id` is the one `FindFlag` reports. */
  lemma FindFlagFirst(flags: seq<Flag>, id: Id, i: nat)
    requires i < |flags| && flags[i].id == id && forall k :: 0 <= k < i ==> flags[k].id != id
    ensures FindFlag(flags, id) == Some(i)
  {
  }

  /** The stored post with `id`, if any (`Post.findByPk`, or the `post` include of a flag). */
  function PostOf(posts: seq<Post>, id: Id): (r: Option<Post>)
    ensures r.Some? ==> r.value in posts && r.value.id == id
    ensures r.None? <==> forall p :: p in posts ==> p.id != id
  {
    match FindPost(posts, id)
    case None => None
    case Some(i) => Some(posts[i])
  }

  /** The name of a post's author, when the author is stored (`post.author?.name`). */
  function AuthorName(users: map<Id, User>, p: Post): (r: Option<string>)
    ensures r.Some? <==> p.authorId in users
    ensures r.Some? ==> r.value == users[p.authorId].name
  {
    if p.authorId in users then Some(users[p.authorId].name) else None
  }

  /** With distinct ids, the position `FindPost` reports is the only one holding `id`. */
  lemma FindPostUnique(posts: seq<Post>, id: Id, i: int)
    requires Distinct(PostIds(posts)) && 0 <= i < |posts| && posts[i].id == id
    ensures FindPost(posts, id) == Some(i)
  {
  }

  lemma FindFlagUnique(flags: seq<Flag>, id: Id, i: int)
    requires Distinct(FlagIds(flags)) && 0 <= i < |flags| && flags[i].id == id
    ensures FindFlag(flags, id) == Some(i)
  {
  }

  /** `Flag.findOne({ where: { post_id, flagged_by } })`: whether such a flag exists. */
  predicate HasFlagBy(flags: seq<Flag>, postId: Id, userId: Id) {
    exists i :: 0 <= i < |flags| && flags[i].postId == postId && flags[i].flaggedBy == userId
  }

  /** `User.findOne({ where: { email } })`: whether some user holds `email`. */
  predicate EmailTaken(users: map<Id, User>, email: string) {
    exists id :: id in users && users[id].email == email
  }

  /** The posts without the one at position `i` (`post.destroy()`). */
  function RemoveAt<T>(xs: seq<T>, i: nat): (r: seq<T>)
    requires i < |xs|
    ensures |r| == |xs| - 1
    ensures forall k :: 0 <= k < i ==> r[k] == xs[k]
    ensures forall k :: i <= k < |r| ==> r[k] == xs[k + 1]
  {
    xs[..i] + xs[i + 1..]
  }

  // ---------------------------------------------------------------- counting

  /** How many log entries refer to flag `flagId`. */
  function LogCount(logs: seq<LogEntry>, flagId: Id): nat {
    if logs == [] then 0
    else LogCount(logs[..|logs| - 1], flagId) + (if logs[|logs| - 1].flagId == flagId then 1 else 0)
  }

  lemma LogCountAppend(logs: seq<LogEntry>, e: LogEntry, flagId: Id)
    ensures LogCount(logs + [e], flagId) == LogCount(logs, flagId) + (if e.flagId == flagId then 1 else 0)
  {
    assert (logs + [e])[..|logs|] == logs;
  }

  /** No entry refers to the flag exactly when the count is zero. */
  lemma {:induction false} LogCountZero(logs: seq<LogEntry>, flagId: Id)
    ensures LogCount(logs, flagId) == 0 <==> forall j :: 0 <= j < |logs| ==> logs[j].flagId != flagId
  {
    if logs != [] {
      var init := logs[..|logs| - 1];
      LogCountZero(init, flagId);
      assert forall j :: 0 <= j < |init| ==> init[j] == logs[j];
    }
  }

  // ---------------------------------------------------------------- the invariant

  predicate UsersKeyed(users: map<Id, User>) {
    forall id :: id in users ==> users[id].id == id
  }

  /** The email column is unique. */
  predicate EmailsUnique(users: map<Id, User>) {
    forall a, b :: a in users && b in users && a != b ==> users[a].email != users[b].email
  }

  predicate ReputationsNonNegative(users: map<Id, User>) {
    forall id :: id in users ==> users[id].reputation >= 0
  }

  predicate PostsValid(posts: seq<Post>) {
    forall i :: 0 <= i < |posts| ==> ValidPost(posts[i])
  }

  predicate AnalysesValid(analyses: seq<AnalysisRecord>) {
    forall i :: 0 <= i < |analyses| ==> ValidAnalysis(analyses[i])
  }

  /** No user has two flags on one post. */
  predicate OneFlagPerUserAndPost(flags: seq<Flag>) {
    forall i, j :: 0 <= i < j < |flags| ==> flags[i].postId != flags[j].postId || flags[i].flaggedBy != flags[j].flaggedBy
  }

  /**
   * The audit trail matches the flags: a pending flag has no log entry, a resolved one has
   * exactly one, every entry refers to a stored flag, and a flag's status is the outcome of
   * the action its entry records.
   */
  predicate LogsMatchFlags(flags: seq<Flag>, logs: seq<LogEntry>) {
    (forall i :: 0 <= i < |flags| ==> LogCount(logs, flags[i].id) == if flags[i].status == Pending then 0 else 1)
    && (forall j :: 0 <= j < |logs| ==> logs[j].flagId in FlagIds(flags))
    && (forall i, j :: 0 <= i < |flags| && 0 <= j < |logs| && logs[j].flagId == flags[i].id ==>
          flags[i].status == Resolution(logs[j].action))
  }

  predicate Consistent(db: Db) {
    UsersKeyed(db.users)
    && EmailsUnique(db.users)
    && ReputationsNonNegative(db.users)
    && Distinct(PostIds(db.posts))
    && PostsValid(db.posts)
    && Distinct(FlagIds(db.flags))
    && OneFlagPerUserAndPost(db.flags)
    && LogsMatchFlags(db.flags, db.logs)
    && AnalysesValid(db.analyses)
  }

  /**
   * Replacing one stored user keeps the database consistent when the new record keeps its
   * key, has a non-negative reputation and an email no other account holds.
   */
  lemma SaveUserKeepsConsistent(db: Db, id: Id, u: User)
    requires Consistent(db) && id in db.users && u.id == id && u.reputation >= 0
    requires forall other :: other in db.users && other != id ==> db.users[other].email != u.email
    ensures Consistent(db.(users := db.users[id := u]))
  {
    var users := db.users[id := u];
    forall a, b | a in users && b in users && a != b
      ensures users[a].email != users[b].email
    {
      if a != id && b != id {
        assert users[a] == db.users[a] && users[b] == db.users[b];
      }
    }
  }

  /**
   * Replacing one stored post by a valid post with the same id, and the analyses by valid
   * ones, keeps the database consistent.
   */
  lemma SavePostKeepsConsistent(db: Db, i: nat, p: Post, analyses: seq<AnalysisRecord>)
    requires Consistent(db) && i < |db.posts| && p.id == db.posts[i].id && ValidPost(p) && AnalysesValid(analyses)
    ensures Consistent(db.(posts := db.posts[i := p], analyses := analyses))
  {
    assert PostIds(db.posts[i := p]) == PostIds(db.posts);
  }

  /** An id no record uses or refers to yet: what a freshly generated UUID is. */
  predicate Unused(db: Db, id: Id) {
    id !in db.users
    && id !in PostIds(db.posts)
    && id !in FlagIds(db.flags)
    && (forall i :: 0 <= i < |db.flags| ==> db.flags[i].postId != id)
    && (forall j :: 0 <= j < |db.logs| ==> db.logs[j].flagId != id && db.logs[j].id != id)
  }

  /** The empty database is consistent. */
  lemma EmptyConsistent()
    ensures Consistent(Db(map[], [], [], [], []))
  {
  }

  // ---------------------------------------------------------------- store steps the handlers share

  /** Storing a valid post under an unused id keeps the post invariants. */
  lemma AddPostKeepsPosts(posts: seq<Post>, p: Post)
    requires Distinct(PostIds(posts)) && PostsValid(posts)
    requires p.id !in PostIds(posts) && ValidPost(p)
    ensures Distinct(PostIds(posts + [p])) && PostsValid(posts + [p])
  {
    var ps := posts + [p];
    forall i, j | 0 <= i < j < |ps|
      ensures PostIds(ps)[i] != PostIds(ps)[j]
    {
      assert PostIds(posts)[i] == ps[i].id;
      if j < |posts| {
        assert PostIds(posts)[j] == ps[j].id;
      }
    }
  }

  /** Storing a valid analysis record keeps the analyses valid. */
  lemma AddAnalysisKeepsValid(analyses: seq<AnalysisRecord>, extra: seq<AnalysisRecord>)
    requires AnalysesValid(analyses) && AnalysesValid(extra)
    ensures AnalysesValid(analyses + extra)
  {
  }

  /** Adding a new pending flag under an unused id, for a pair that has none yet, keeps the flag and log invariants. */
  lemma {:induction false} AddPendingFlagKeepsLogs(flags: seq<Flag>, logs: seq<LogEntry>, f: Flag)
    requires Distinct(FlagIds(flags)) && OneFlagPerUserAndPost(flags) && LogsMatchFlags(flags, logs)
    requires f.status == Pending && f.id !in FlagIds(flags)
    requires forall j :: 0 <= j < |logs| ==> logs[j].flagId != f.id
    requires !HasFlagBy(flags, f.postId, f.flaggedBy)
    ensures Distinct(FlagIds(flags + [f])) && OneFlagPerUserAndPost(flags + [f]) && LogsMatchFlags(flags + [f], logs)
  {
    var fs := flags + [f];
    LogCountZero(logs, f.id);
    forall j | 0 <= j < |logs|
      ensures logs[j].flagId in FlagIds(fs)
    {
      var k :| 0 <= k < |flags| && FlagIds(flags)[k] == logs[j].flagId;
      assert FlagIds(fs)[k] == logs[j].flagId;
    }
    forall i, j | 0 <= i < j < |fs|
      ensures fs[i].postId != fs[j].postId || fs[i].flaggedBy != fs[j].flaggedBy
    {
      if j == |flags| {
        assert fs[i] == flags[i];
      }
    }
    forall i, j | 0 <= i < j < |fs|
      ensures FlagIds(fs)[i] != FlagIds(fs)[j]
    {
      if j == |flags| {
        assert FlagIds(flags)[i] == fs[i].id;
      }
    }
  }

  /** Resolving the pending flag at `i` and logging the action keeps the flag and log invariants. */
  lemma {:induction false} ResolveFlagKeepsLogs(flags: seq<Flag>, logs: seq<LogEntry>, i: nat, e: LogEntry)
    requires Distinct(FlagIds(flags)) && OneFlagPerUserAndPost(flags) && LogsMatchFlags(flags, logs)
    requires i < |flags| && flags[i].status == Pending
    requires e.flagId == flags[i].id
    ensures var fs := flags[i := flags[i].(status := Resolution(e.action))];
            Distinct(FlagIds(fs)) && OneFlagPerUserAndPost(fs) && LogsMatchFlags(fs, logs + [e])
  {
    var fs := flags[i := flags[i].(status := Resolution(e.action))];
    var ls := logs + [e];
    assert FlagIds(fs) == FlagIds(flags);
    LogCountZero(logs, flags[i].id);
    forall k | 0 <= k < |fs|
      ensures LogCount(ls, fs[k].id) == if fs[k].status == Pending then 0 else 1
    {
      LogCountAppend(logs, e, fs[k].id);
    }
    forall k, j | 0 <= k < |fs| && 0 <= j < |ls| && ls[j].flagId == fs[k].id
      ensures fs[k].status == Resolution(ls[j].action)
    {
      if j < |logs| {
        assert ls[j] == logs[j];
      }
    }
  }
}
