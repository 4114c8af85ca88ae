/**
 * The moderation routes, behind the moderator-or-admin gate: the review queue, and the
 * action that moves a pending flag to its one terminal state, removes the post on
 * `remove`, writes the audit entry, adjusts the author's reputation and notifies the
 * author. The fresh log id is a parameter.
 */
module Moderation {
  import opened Wrappers
  import opened Models
  import opened Store
  import opened Api
  import Auth
  import Realtime
  import Paging
  import Validation

  const FlagNotFound: string := "Flag not found"
  const AlreadyProcessed: string := "Flag has already been processed"

  /** Stands for the database driver's message when it refuses a query (answered with 500). */
  const DatabaseError: string := "Internal Server Error"

  /** The reply message: the action's name with a `d` appended ("Flag approved successfully"). */
  function ActedMessage(a: ModAction): string {
    "Flag " + ActionName(a) + "d successfully"
  }

  /** The post author's reputation after an action: ten less on removal but never below zero, five more on approval, the same on escalation. */
  function NewReputation(r: int, a: ModAction): (r': int)
    ensures a == Approve ==> r' == r + 5
    ensures a == Escalate ==> r' == r
    ensures a == Remove ==> r' >= 0 && (r >= 10 ==> r' == r - 10) && (r < 10 ==> r' == 0)
    ensures r >= 0 ==> r' >= 0
  {
    match a
    case Remove => if r - 10 > 0 then r - 10 else 0
    case Approve => r + 5
    case Escalate => r
  }

  /** The `moderation:action` event for the author of post `p`. */
  function ActionEvent(me: User, p: Post, a: ModAction, reason: Option<string>): (m: Realtime.Emission)
    ensures m.room == Realtime.UserRoom(p.authorId) && m.event.ModerationAction?
    ensures m.event.decision == Realtime.ActionPayload(a, p.id, reason, me.name)
  {
    Realtime.EmitToUser(p.authorId, Realtime.ModerationAction(Realtime.ActionPayload(a, p.id, reason, me.name)))
  }

  /**
   * An accepted action on the pending flag at position `i`, in the handler's order: set the
   * flag's status; on `remove`, set its post's status to `removed`; append the log entry;
   * if the post and its author are stored, adjust the author's reputation and notify them.
   */
  function Resolve(db: Db, me: User, i: nat, a: ModAction, reason: Option<string>, logId: Id): (s: Step<Flag>)
    requires i < |db.flags|
    ensures s.db.analyses == db.analyses && s.reply.Success?
  {
    var flag := db.flags[i].(status := Resolution(a));
    var flags := db.flags[i := flag];
    var logs := db.logs + [LogEntry(logId, me.id, flag.id, a, reason)];
    var reply := Success(200, ActedMessage(a), flag);
    match FindPost(db.posts, flag.postId)
    case None => Step(db.(flags := flags, logs := logs), reply, [])
    case Some(j) =>
      var p := db.posts[j];
      var posts := if a == Remove then db.posts[j := p.(status := PostRemoved)] else db.posts;
      if p.authorId in db.users then
        var author := db.users[p.authorId];
        var users := db.users[p.authorId := author.(reputation := NewReputation(author.reputation, a))];
        Step(db.(users := users, posts := posts, flags := flags, logs := logs), reply, [ActionEvent(me, p, a, reason)])
      else Step(db.(posts := posts, flags := flags, logs := logs), reply, [])
  }

  /**
   * `POST /moderation/:flagId/action`: the role gate (403 for a plain user), the validator
   * (400), 404 for an unknown flag, 400 for a flag that is no longer pending; otherwise the
   * action is applied. A refused request changes nothing and notifies nobody.
   */
  function TakeAction(db: Db, me: User, flagId: Id, action: Option<string>, reason: Option<string>, logId: Id): (s: Step<Flag>)
    ensures s.db.analyses == db.analyses
    ensures s.reply.Failure? ==> s.db == db && s.emitted == []
  {
    match Auth.RequireRole(Some(Auth.Account(me)), Auth.StaffRoles)
    case Deny(code, message) => Refuse(db, code, message)
    case Pass =>
      match Validation.ValidateModerationAction(action, reason)
      case Invalid(errors) => Invalid(db, errors)
      case Valid(v) =>
        match FindFlag(db.flags, flagId)
        case None => Refuse(db, 404, FlagNotFound)
        case Some(i) =>
          if db.flags[i].status != Pending then Refuse(db, 400, AlreadyProcessed)
          else Resolve(db, me, i, v.0, v.1, logId)
  }

  /**
   * Which answer an action request gets: 403 for a plain user, then 400 with the
   * validation errors, 404 for an unknown flag, 400 for a processed flag, and 200 exactly
   * when a moderator or admin sends a valid action for a pending flag.
   */
  lemma TakeActionOutcome(db: Db, me: User, flagId: Id, action: Option<string>, reason: Option<string>, logId: Id)
    ensures var s := TakeAction(db, me, flagId, action, reason, logId);
            var v := Validation.ValidateModerationAction(action, reason);
            var f := FindFlag(db.flags, flagId);
            (me.role == Member ==> s.reply == Failure(403, Auth.InsufficientPermissions, []))
            && (me.role != Member && v.Invalid? ==> s.reply == Failure(400, "Validation failed", v.errors))
            && (me.role != Member && v.Valid? && f.None? ==> s.reply == Failure(404, FlagNotFound, []))
            && (me.role != Member && v.Valid? && f.Some? && db.flags[f.value].status != Pending
                ==> s.reply == Failure(400, AlreadyProcessed, []))
            && (s.reply.Success? <==> me.role != Member && v.Valid? && f.Some? && db.flags[f.value].status == Pending)
  {
    Auth.RoleGates(me);
  }

  /** The accepted request is the action `Resolve` applies to the flag's position. */
  lemma AcceptedIsResolve(db: Db, me: User, flagId: Id, action: Option<string>, reason: Option<string>, logId: Id)
    requires TakeAction(db, me, flagId, action, reason, logId).reply.Success?
    ensures var v := Validation.ValidateModerationAction(action, reason).value;
            FindFlag(db.flags, flagId).Some? && v.1 == Validation.TrimOptional(reason)
            && TakeAction(db, me, flagId, action, reason, logId) == Resolve(db, me, FindFlag(db.flags, flagId).value, v.0, v.1, logId)
  {
    Auth.RoleGates(me);
  }

  // ---------------------------------------------------------------- what an accepted action does

  /**
   * The flag moves to the status its action names, nothing else in the flag store changes,
   * and exactly one log entry is appended: this moderator, this flag, this action, the
   * trimmed reason as its notes.
   */
  lemma ResolveFlagAndLog(db: Db, me: User, i: nat, a: ModAction, reason: Option<string>, logId: Id)
    requires i < |db.flags|
    ensures var s := Resolve(db, me, i, a, reason, logId);
            s.reply.code == 200 && s.reply.message == ActedMessage(a)
            && s.reply.value == db.flags[i].(status := Resolution(a))
            && |s.db.flags| == |db.flags| && s.db.flags[i].status == Resolution(a)
            && (forall k :: 0 <= k < |db.flags| && k != i ==> s.db.flags[k] == db.flags[k])
            && s.db.logs == db.logs + [LogEntry(logId, me.id, db.flags[i].id, a, reason)]
  {
  }

  /**
   * Only `remove` touches a post, and only the flagged one, whose status becomes
   * `removed`; every post keeps its place, id, author and content.
   */
  lemma {:induction false} ResolvePosts(db: Db, me: User, i: nat, a: ModAction, reason: Option<string>, logId: Id)
    requires i < |db.flags| && Distinct(PostIds(db.posts))
    ensures var s := Resolve(db, me, i, a, reason, logId);
            |s.db.posts| == |db.posts|
            && forall k :: 0 <= k < |db.posts| ==>
                 s.db.posts[k] == if a == Remove && db.posts[k].id == db.flags[i].postId
                                  then db.posts[k].(status := PostRemoved) else db.posts[k]
  {
    var s := Resolve(db, me, i, a, reason, logId);
    match FindPost(db.posts, db.flags[i].postId) {
      case None =>
      case Some(j) =>
        forall k | 0 <= k < |db.posts| && db.posts[k].id == db.flags[i].postId
          ensures k == j
        {
          FindPostUnique(db.posts, db.flags[i].postId, k);
        }
    }
  }

  /**
   * When the flagged post and its author are stored, the author's reputation moves by the
   * action's rule and the author is notified once, in their own room; every other user is
   * unchanged. Otherwise no user changes and nobody is notified.
   */
  lemma ResolveAuthor(db: Db, me: User, i: nat, a: ModAction, reason: Option<string>, logId: Id)
    requires i < |db.flags|
    ensures var s := Resolve(db, me, i, a, reason, logId);
            var post := PostOf(db.posts, db.flags[i].postId);
            s.db.users.Keys == db.users.Keys
            && (post.Some? && post.value.authorId in db.users ==>
                  var id := post.value.authorId;
                  s.db.users[id] == db.users[id].(reputation := NewReputation(db.users[id].reputation, a))
                  && (forall u :: u in db.users && u != id ==> s.db.users[u] == db.users[u])
                  && |s.emitted| == 1 && s.emitted[0].room == Realtime.UserRoom(id)
                  && s.emitted[0].event == Realtime.ModerationAction(Realtime.ActionPayload(a, post.value.id, reason, me.name)))
            && (post.None? || post.value.authorId !in db.users ==> s.db.users == db.users && s.emitted == [])
  {
  }

  /**
   * The flag store moves one step of the state machine: after an accepted action the flag
   * is terminal, and any later action on it is refused with 400 and changes nothing.
   */
  lemma {:induction false} SecondActionRefused(db: Db, me: User, flagId: Id, action: Option<string>, reason: Option<string>, logId: Id,
                                               me2: User, action2: Option<string>, reason2: Option<string>, logId2: Id)
    requires TakeAction(db, me, flagId, action, reason, logId).reply.Success?
    requires me2.role != Member && Validation.ValidateModerationAction(action2, reason2).Valid?
    ensures var db' := TakeAction(db, me, flagId, action, reason, logId).db;
            var s := TakeAction(db', me2, flagId, action2, reason2, logId2);
            s.reply == Failure(400, AlreadyProcessed, []) && s.db == db' && s.emitted == []
  {
    AcceptedIsResolve(db, me, flagId, action, reason, logId);
    var i := FindFlag(db.flags, flagId).value;
    var v := Validation.ValidateModerationAction(action, reason).value;
    ResolveFlagAndLog(db, me, i, v.0, v.1, logId);
    var db' := Resolve(db, me, i, v.0, v.1, logId).db;
    FindFlagFirst(db'.flags, flagId, i);
    ProcessedRefused(db', me2, flagId, action2, reason2, logId2);
  }

  /** A request on a flag that is no longer pending is refused with 400 and changes nothing, whoever sends it. */
  lemma ProcessedRefused(db: Db, me: User, flagId: Id, action: Option<string>, reason: Option<string>, logId: Id)
    requires me.role != Member && Validation.ValidateModerationAction(action, reason).Valid?
    requires FindFlag(db.flags, flagId).Some? && db.flags[FindFlag(db.flags, flagId).value].status != Pending
    ensures var s := TakeAction(db, me, flagId, action, reason, logId);
            s.reply == Failure(400, AlreadyProcessed, []) && s.db == db && s.emitted == []
  {
    Auth.RoleGates(me);
  }

  /** The store's invariants survive an accepted action: reputations stay non-negative, and the resolved flag has exactly one log entry. */
  lemma {:induction false} ResolveKeepsConsistent(db: Db, me: User, i: nat, a: ModAction, reason: Option<string>, logId: Id)
    requires Consistent(db) && i < |db.flags| && db.flags[i].status == Pending
    ensures Consistent(Resolve(db, me, i, a, reason, logId).db)
  {
    ResolveKeepsUsers(db, me, i, a, reason, logId);
    ResolveKeepsPosts(db, me, i, a, reason, logId);
    ResolveKeepsFlags(db, me, i, a, reason, logId);
  }

  lemma ResolveKeepsUsers(db: Db, me: User, i: nat, a: ModAction, reason: Option<string>, logId: Id)
    requires UsersKeyed(db.users) && EmailsUnique(db.users) && ReputationsNonNegative(db.users) && i < |db.flags|
    ensures var users := Resolve(db, me, i, a, reason, logId).db.users;
            UsersKeyed(users) && EmailsUnique(users) && ReputationsNonNegative(users)
  {
    var s := Resolve(db, me, i, a, reason, logId);
    ResolveAuthor(db, me, i, a, reason, logId);
    var post := PostOf(db.posts, db.flags[i].postId);
    if post.Some? && post.value.authorId in db.users {
      var id := post.value.authorId;
      var u := db.users[id].(reputation := NewReputation(db.users[id].reputation, a));
      assert s.db.users == db.users[id := u];
      forall a, b | a in s.db.users && b in s.db.users && a != b
        ensures s.db.users[a].email != s.db.users[b].email
      {
        assert s.db.users[a].email == db.users[a].email && s.db.users[b].email == db.users[b].email;
      }
    }
  }

  lemma ResolveKeepsPosts(db: Db, me: User, i: nat, a: ModAction, reason: Option<string>, logId: Id)
    requires Distinct(PostIds(db.posts)) && PostsValid(db.posts) && i < |db.flags|
    ensures var posts := Resolve(db, me, i, a, reason, logId).db.posts;
            Distinct(PostIds(posts)) && PostsValid(posts)
  {
    var s := Resolve(db, me, i, a, reason, logId);
    ResolvePosts(db, me, i, a, reason, logId);
    assert PostIds(s.db.posts) == PostIds(db.posts);
    forall k | 0 <= k < |s.db.posts|
      ensures ValidPost(s.db.posts[k])
    {
      assert s.db.posts[k].content == db.posts[k].content;
    }
  }

  lemma ResolveKeepsFlags(db: Db, me: User, i: nat, a: ModAction, reason: Option<string>, logId: Id)
    requires Distinct(FlagIds(db.flags)) && OneFlagPerUserAndPost(db.flags) && LogsMatchFlags(db.flags, db.logs)
    requires i < |db.flags| && db.flags[i].status == Pending
    ensures var s := Resolve(db, me, i, a, reason, logId);
            Distinct(FlagIds(s.db.flags)) && OneFlagPerUserAndPost(s.db.flags) && LogsMatchFlags(s.db.flags, s.db.logs)
  {
    var s := Resolve(db, me, i, a, reason, logId);
    ResolveFlagAndLog(db, me, i, a, reason, logId);
    var e := LogEntry(logId, me.id, db.flags[i].id, a, reason);
    ResolveFlagKeepsLogs(db.flags, db.logs, i, e);
    assert s.db.flags == db.flags[i := db.flags[i].(status := Resolution(e.action))];
  }

  /** Every request to the action route keeps the database consistent. */
  lemma {:induction false} TakeActionKeepsConsistent(db: Db, me: User, flagId: Id, action: Option<string>, reason: Option<string>, logId: Id)
    requires Consistent(db)
    ensures Consistent(TakeAction(db, me, flagId, action, reason, logId).db)
  {
    if TakeAction(db, me, flagId, action, reason, logId).reply.Success? {
      AcceptedIsResolve(db, me, flagId, action, reason, logId);
      TakeActionOutcome(db, me, flagId, action, reason, logId);
      var v := Validation.ValidateModerationAction(action, reason).value;
      ResolveKeepsConsistent(db, me, FindFlag(db.flags, flagId).value, v.0, v.1, logId);
    }
  }

  /** The user who raised the flag keeps their reputation, unless they wrote the post themselves. */
  lemma FlaggerUntouched(db: Db, me: User, flagId: Id, action: Option<string>, reason: Option<string>, logId: Id)
    requires TakeAction(db, me, flagId, action, reason, logId).reply.Success?
    ensures var f := db.flags[FindFlag(db.flags, flagId).value];
            var post := PostOf(db.posts, f.postId);
            var s := TakeAction(db, me, flagId, action, reason, logId);
            f.flaggedBy in db.users && (post.None? || post.value.authorId != f.flaggedBy)
            ==> f.flaggedBy in s.db.users && s.db.users[f.flaggedBy] == db.users[f.flaggedBy]
  {
    AcceptedIsResolve(db, me, flagId, action, reason, logId);
    var v := Validation.ValidateModerationAction(action, reason).value;
    ResolveAuthor(db, me, FindFlag(db.flags, flagId).value, v.0, v.1, logId);
  }

  // ---------------------------------------------------------------- the queue

  /** The queue's status filter: `all`, one status, or a value outside the status column's enumeration. */
  datatype Filter = AllFlags | OnlyStatus(status: FlagStatus) | UnknownStatus

  /** `req.query.status || 'pending'`, with `all` meaning no filter. */
  function ParseFilter(status: Option<string>): (f: Filter)
    ensures !Truthy(status) ==> f == OnlyStatus(Pending)
    ensures Truthy(status) ==> (f == AllFlags <==> status.value == "all")
    ensures Truthy(status) && f.OnlyStatus? ==> FlagStatusName(f.status) == status.value
    ensures f.UnknownStatus? <==> Truthy(status) && status.value != "all" && ParseFlagStatus(status.value).None?
  {
    if !Truthy(status) then OnlyStatus(Pending)
    else if status.value == "all" then AllFlags
    else match ParseFlagStatus(status.value)
      case Some(s) => OnlyStatus(s)
      case None => UnknownStatus
  }

  predicate Matches(f: Filter, flag: Flag) {
    f.AllFlags? || (f.OnlyStatus? && flag.status == f.status)
  }

  /** The filter as a test on one flag. */
  function AdmittedBy(filter: Filter): Flag -> bool {
    (f: Flag) => Matches(filter, f)
  }

  /** Where the most recent analysis stored for a post sits, if there is one. */
  function LatestAnalysisAt(analyses: seq<AnalysisRecord>, postId: Id): (r: Option<nat>)
    ensures r.None? <==> forall k :: 0 <= k < |analyses| ==> analyses[k].postId != postId
    ensures r.Some? ==> r.value < |analyses| && analyses[r.value].postId == postId
                        && forall m :: r.value < m < |analyses| ==> analyses[m].postId != postId
  {
    if analyses == [] then None
    else if analyses[|analyses| - 1].postId == postId then Some(|analyses| - 1)
    else
      var init := analyses[..|analyses| - 1];
      assert forall k :: 0 <= k < |init| ==> init[k] == analyses[k];
      LatestAnalysisAt(init, postId)
  }

  /** The most recent analysis stored for a post (`aiAnalyses` ordered newest first, limit 1). */
  function LatestAnalysis(analyses: seq<AnalysisRecord>, postId: Id): (r: Option<AnalysisRecord>)
    ensures r.None? <==> forall k :: 0 <= k < |analyses| ==> analyses[k].postId != postId
    ensures r.Some? ==> r.value.postId == postId && r.value == analyses[LatestAnalysisAt(analyses, postId).value]
  {
    match LatestAnalysisAt(analyses, postId)
    case None => None
    case Some(k) => Some(analyses[k])
  }

  /** A queue row: the flag, its post and author, who raised it, and the post's latest analysis. */
  datatype QueueItem = QueueItem(flag: Flag, post: Option<Post>, author: Option<string>, flaggedBy: Option<string>,
                                 analysis: Option<AnalysisRecord>)

  function QueueItemOf(db: Db, f: Flag): (q: QueueItem)
    ensures q.flag == f && q.post == PostOf(db.posts, f.postId)
    ensures q.analysis.Some? ==> q.post.Some? && q.analysis == LatestAnalysis(db.analyses, f.postId)
    ensures q.post.Some? ==> q.analysis == LatestAnalysis(db.analyses, f.postId) && q.author == AuthorName(db.users, q.post.value)
    ensures q.flaggedBy.Some? <==> f.flaggedBy in db.users
  {
    var post := PostOf(db.posts, f.postId);
    QueueItem(f, post,
              if post.Some? then AuthorName(db.users, post.value) else None,
              if f.flaggedBy in db.users then Some(db.users[f.flaggedBy].name) else None,
              if post.Some? then LatestAnalysis(db.analyses, f.postId) else None)
  }

  /** The queue's rows before paging: the flags the filter admits, newest first. */
  function QueueRows(db: Db, filter: Filter): (rows: seq<QueueItem>)
    ensures forall k :: 0 <= k < |rows| ==> rows[k].flag in db.flags && Matches(filter, rows[k].flag)
                                            && rows[k] == QueueItemOf(db, rows[k].flag)
  {
    Items(db, Paging.Select(db.flags, Paging.NewestFirst(db.flags, AdmittedBy(filter), |db.flags|)))
  }

  /** Every flag the filter admits has a row. */
  lemma QueueRowsComplete(db: Db, filter: Filter, f: Flag)
    requires f in db.flags && Matches(filter, f)
    ensures exists k :: 0 <= k < |QueueRows(db, filter)| && QueueRows(db, filter)[k].flag == f
  {
    var i :| 0 <= i < |db.flags| && db.flags[i] == f;
    Paging.SelectKept(db.flags, AdmittedBy(filter), i);
    var flags := Paging.Select(db.flags, Paging.NewestFirst(db.flags, AdmittedBy(filter), |db.flags|));
    var k :| 0 <= k < |flags| && flags[k] == f;
    assert QueueRows(db, filter)[k].flag == f;
  }

  /** A queue row for each flag. */
  function Items(db: Db, flags: seq<Flag>): (rows: seq<QueueItem>)
    ensures |rows| == |flags| && forall k :: 0 <= k < |rows| ==> rows[k] == QueueItemOf(db, flags[k])
  {
    seq(|flags|, k requires 0 <= k < |flags| => QueueItemOf(db, flags[k]))
  }

  /** How many flags are pending. */
  function PendingCount(flags: seq<Flag>): (n: nat)
    ensures n <= |flags|
  {
    if flags == [] then 0
    else PendingCount(flags[..|flags| - 1]) + (if flags[|flags| - 1].status == Pending then 1 else 0)
  }

  datatype QueueListing = QueueListing(page: Paging.Page<QueueItem>, pending: nat)

  /**
   * `GET /moderation/queue`: behind the gate, the flags of one status (`pending` by
   * default) or of all statuses, newest first, 20 to a page by default, with the number of
   * pending flags in the whole store whatever the filter. A status outside the enumeration
   * or a negative window is refused by the database (500).
   */
  function Queue(db: Db, me: User, page: Option<int>, limit: Option<int>, status: Option<string>): (r: Reply<QueueListing>)
    ensures me.role == Member ==> r == Failure(403, Auth.InsufficientPermissions, [])
    ensures me.role != Member && ParseFilter(status).UnknownStatus? ==> r == Failure(500, DatabaseError, [])
    ensures r.Success? ==> me.role != Member && !ParseFilter(status).UnknownStatus?
                           && r.value.pending == PendingCount(db.flags)
                           && r.value.page.total == |QueueRows(db, ParseFilter(status))|
                           && forall it :: it in r.value.page.items ==> it.flag in db.flags && Matches(ParseFilter(status), it.flag)
  {
    Auth.RoleGates(me);
    match Auth.RequireRole(Some(Auth.Account(me)), Auth.StaffRoles)
    case Deny(code, message) => Failure(code, message, [])
    case Pass =>
      var filter := ParseFilter(status);
      if filter.UnknownStatus? then Failure(500, DatabaseError, [])
      else
        match Paging.Paginate(QueueRows(db, filter), page, limit, 20)
        case BadWindow => Failure(500, DatabaseError, [])
        case Listed(p) => Success(200, "", QueueListing(p, PendingCount(db.flags)))
  }

  /** The number of flags `NewestFirst` selects below `n` for the pending filter is the pending count of that prefix. */
  lemma {:induction false} PendingRowsCount(flags: seq<Flag>, n: nat)
    requires n <= |flags|
    ensures |Paging.NewestFirst(flags, AdmittedBy(OnlyStatus(Pending)), n)| == PendingCount(flags[..n])
  {
    if n > 0 {
      PendingRowsCount(flags, n - 1);
      assert flags[..n][..n - 1] == flags[..n - 1];
    }
  }

  /** With the default filter, the queue's total and its pending count agree. */
  lemma {:induction false} DefaultQueueCountsPending(db: Db, me: User, page: Option<int>, limit: Option<int>)
    requires Queue(db, me, page, limit, None).Success?
    ensures Queue(db, me, page, limit, None).value.page.total == Queue(db, me, page, limit, None).value.pending
  {
    PendingRowsCount(db.flags, |db.flags|);
    assert db.flags[..|db.flags|] == db.flags;
  }

  /** The queue is newest first: a row further down holds a flag stored earlier. */
  lemma QueueNewestFirst(db: Db, filter: Filter, j: int, k: int)
    requires Distinct(FlagIds(db.flags)) && 0 <= j < k < |QueueRows(db, filter)|
    ensures var rows := QueueRows(db, filter);
            FindFlag(db.flags, rows[j].flag.id).value > FindFlag(db.flags, rows[k].flag.id).value
  {
    var positions := Paging.NewestFirst(db.flags, AdmittedBy(filter), |db.flags|);
    var rows := QueueRows(db, filter);
    assert rows[j].flag == db.flags[positions[j]] && rows[k].flag == db.flags[positions[k]];
    FindFlagUnique(db.flags, rows[j].flag.id, positions[j]);
    FindFlagUnique(db.flags, rows[k].flag.id, positions[k]);
  }
}
