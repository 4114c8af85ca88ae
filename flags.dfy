/**
 * The flag routes: a signed-in user reports a post once, the staff rooms hear of it at
 * once, and a user lists the reports they made. The fresh flag id is a parameter.
 */
module Flags {
  import opened Wrappers
  import opened Models
  import opened Store
  import opened Api
  import Realtime
  import Paging
  import Validation
  import Text

  const PostNotFound: string := "Post not found"
  const AlreadyFlagged: string := "You have already flagged this post"
  const FlaggedMessage: string := "Post flagged successfully"

  /** The first hundred characters of the post, followed by an ellipsis whatever the length. */
  function Preview(content: string): (r: string)
    ensures |content| <= 100 ==> r == content + "..."
    ensures |content| > 100 ==> |r| == 103 && r[..100] == content[..100]
    ensures r[|r| - 3..] == "..."
  {
    Text.Take(content, 100) + "..."
  }

  /** The `moderation:new-flag` event announcing `f` on post `p`, raised by `me`. */
  function NewFlagEvent(users: map<Id, User>, me: User, f: Flag, p: Post): (m: Realtime.Emission)
    ensures m.room == Realtime.ModeratorsRoom && m.event.NewFlag?
    ensures m.event.flag.flagId == f.id && m.event.flag.postId == p.id
    ensures m.event.flag.reason == CategoryName(f.category) && m.event.flag.flaggedBy == me.name
    ensures m.event.flag.postAuthor == AuthorName(users, p) && m.event.flag.postContent == Preview(p.content)
  {
    Realtime.EmitToModerators(Realtime.NewFlag(Realtime.NewFlagPayload(
      f.id, p.id, CategoryName(f.category), me.name, AuthorName(users, p), Preview(p.content))))
  }

  /**
   * `POST /flags`: validate; 404 for an unknown post; 400 when this user already flagged it;
   * otherwise store a pending flag and tell the moderators.
   */
  function CreateFlag(db: Db, me: User, postId: Option<string>, category: Option<string>, reasonText: Option<string>,
                      flagId: Id): (s: Step<Flag>)
    ensures s.db.users == db.users && s.db.posts == db.posts && s.db.logs == db.logs && s.db.analyses == db.analyses
    ensures s.reply.Failure? ==> s.db == db && s.emitted == []
  {
    match Validation.ValidateFlag(postId, category, reasonText)
    case Invalid(errors) => Invalid(db, errors)
    case Valid(input) =>
      match FindPost(db.posts, input.postId)
      case None => Refuse(db, 404, PostNotFound)
      case Some(i) =>
        if HasFlagBy(db.flags, input.postId, me.id) then Refuse(db, 400, AlreadyFlagged)
        else
          var flag := NewFlag(flagId, input.postId, me.id, input.category, input.reasonText);
          Step(db.(flags := db.flags + [flag]), Success(201, FlaggedMessage, flag), [NewFlagEvent(db.users, me, flag, db.posts[i])])
  }

  /**
   * Which answer a flag request gets: 400 with the validation errors, 404 for an unknown
   * post, 400 for a repeated flag, and 201 otherwise.
   */
  lemma CreateFlagOutcome(db: Db, me: User, postId: Option<string>, category: Option<string>, reasonText: Option<string>, flagId: Id)
    ensures var s := CreateFlag(db, me, postId, category, reasonText, flagId);
            var v := Validation.ValidateFlag(postId, category, reasonText);
            (v.Invalid? ==> s.reply == Failure(400, "Validation failed", v.errors))
            && (v.Valid? && FindPost(db.posts, v.value.postId).None? ==> s.reply == Failure(404, PostNotFound, []))
            && (v.Valid? && FindPost(db.posts, v.value.postId).Some? && HasFlagBy(db.flags, v.value.postId, me.id)
                ==> s.reply == Failure(400, AlreadyFlagged, []))
            && (s.reply.Success? <==> v.Valid? && FindPost(db.posts, v.value.postId).Some? && !HasFlagBy(db.flags, v.value.postId, me.id))
  {
  }

  /**
   * A stored flag is the request's flag: pending, raised by the caller against the named
   * post with the chosen category and the trimmed reason; it is appended to the flags, and
   * exactly one `moderation:new-flag` event goes to the moderators room.
   */
  lemma CreateFlagEffect(db: Db, me: User, postId: Option<string>, category: Option<string>, reasonText: Option<string>, flagId: Id)
    ensures var s := CreateFlag(db, me, postId, category, reasonText, flagId);
            s.reply.Success? ==>
              var f := s.reply.value;
              s.reply.code == 201 && s.reply.message == FlaggedMessage
              && s.db.flags == db.flags + [f]
              && f.id == flagId && f.status == Pending && f.flaggedBy == me.id
              && f.postId == postId.value && CategoryName(f.category) == category.value
              && f.reasonText == Validation.TrimOptional(reasonText)
              && |s.emitted| == 1 && s.emitted[0].room == Realtime.ModeratorsRoom
              && s.emitted[0].event.NewFlag? && s.emitted[0].event.flag.flagId == flagId
              && s.emitted[0].event.flag.postId == f.postId && s.emitted[0].event.flag.flaggedBy == me.name
  {
  }

  /** Once a user's flag on a post is stored, their next flag on that post is refused and changes nothing. */
  lemma {:induction false} FlagOnlyOnce(db: Db, me: User, postId: Option<string>, category: Option<string>, reasonText: Option<string>,
                                        flagId: Id, category2: Option<string>, reasonText2: Option<string>, flagId2: Id)
    requires CreateFlag(db, me, postId, category, reasonText, flagId).reply.Success?
    requires Validation.ValidateFlag(postId, category2, reasonText2).Valid?
    ensures var db' := CreateFlag(db, me, postId, category, reasonText, flagId).db;
            var s := CreateFlag(db', me, postId, category2, reasonText2, flagId2);
            s.reply == Failure(400, AlreadyFlagged, []) && s.db == db' && s.emitted == []
  {
    var db' := CreateFlag(db, me, postId, category, reasonText, flagId).db;
    var f := CreateFlag(db, me, postId, category, reasonText, flagId).reply.value;
    assert db'.flags[|db.flags|] == f;
    assert HasFlagBy(db'.flags, postId.value, me.id);
  }

  /** Flagging under an unused id keeps the database consistent: still one flag per user and post, and no log entry for the new flag. */
  lemma {:induction false} CreateFlagKeepsConsistent(db: Db, me: User, postId: Option<string>, category: Option<string>,
                                                     reasonText: Option<string>, flagId: Id)
    requires Consistent(db) && Unused(db, flagId)
    ensures Consistent(CreateFlag(db, me, postId, category, reasonText, flagId).db)
  {
    var s := CreateFlag(db, me, postId, category, reasonText, flagId);
    if s.reply.Success? {
      var input := Validation.ValidateFlag(postId, category, reasonText).value;
      var f := NewFlag(flagId, input.postId, me.id, input.category, input.reasonText);
      assert s.db.flags == db.flags + [f];
      AddPendingFlagKeepsLogs(db.flags, db.logs, f);
    }
  }

  // ---------------------------------------------------------------- my flags

  /** A flag as `GET /flags/my-flags` lists it: with its post, when the post is still stored. */
  datatype FlagView = FlagView(flag: Flag, post: Option<Post>)

  /** The flags user `id` raised. */
  function RaisedBy(id: Id): Flag -> bool {
    (f: Flag) => f.flaggedBy == id
  }

  /** `GET /flags/my-flags`: the flags the caller raised, newest first, each with its post. */
  function MyFlags(db: Db, me: User): (r: seq<FlagView>)
    ensures forall k :: 0 <= k < |r| ==> r[k].flag in db.flags && r[k].flag.flaggedBy == me.id
                                         && r[k].post == PostOf(db.posts, r[k].flag.postId)
  {
    Views(Paging.Select(db.flags, Paging.NewestFirst(db.flags, RaisedBy(me.id), |db.flags|)), db.posts)
  }

  /** Each flag with its post. */
  function Views(flags: seq<Flag>, posts: seq<Post>): (r: seq<FlagView>)
    ensures |r| == |flags|
    ensures forall k :: 0 <= k < |r| ==> r[k].flag == flags[k] && r[k].post == PostOf(posts, flags[k].postId)
  {
    seq(|flags|, k requires 0 <= k < |flags| => FlagView(flags[k], PostOf(posts, flags[k].postId)))
  }

  /** Every flag the caller raised is listed. */
  lemma MyFlagsComplete(db: Db, me: User, f: Flag)
    requires f in db.flags && f.flaggedBy == me.id
    ensures exists k :: 0 <= k < |MyFlags(db, me)| && MyFlags(db, me)[k].flag == f
  {
    var i :| 0 <= i < |db.flags| && db.flags[i] == f;
    Paging.SelectKept(db.flags, RaisedBy(me.id), i);
    var mine := Paging.Select(db.flags, Paging.NewestFirst(db.flags, RaisedBy(me.id), |db.flags|));
    var k :| 0 <= k < |mine| && mine[k] == f;
    assert MyFlags(db, me)[k].flag == f;
  }

  /** The caller's flags come newest first: a flag further down the list was stored earlier. */
  lemma MyFlagsNewestFirst(db: Db, me: User, j: int, k: int)
    requires Distinct(FlagIds(db.flags)) && 0 <= j < k < |MyFlags(db, me)|
    ensures var r := MyFlags(db, me);
            FindFlag(db.flags, r[j].flag.id).value > FindFlag(db.flags, r[k].flag.id).value
  {
    var positions := Paging.NewestFirst(db.flags, RaisedBy(me.id), |db.flags|);
    var r := MyFlags(db, me);
    assert r[j].flag == db.flags[positions[j]] && r[k].flag == db.flags[positions[k]];
    FindFlagUnique(db.flags, r[j].flag.id, positions[j]);
    FindFlagUnique(db.flags, r[k].flag.id, positions[k]);
  }
}
