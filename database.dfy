/**
 * The request handlers as the server runs them: each loads records, assigns their fields
 * and saves them one step after another against the stores of a live database. Every
 * method is proved to leave the stores exactly as the request's specification in
 * `Posts`, `Flags`, `Moderation` and `Users` describes, with the same reply and the same
 * socket emissions, so the properties proved there hold of these handlers.
 */
module Database {
  import opened Wrappers
  import opened Models
  import opened Store
  import opened Api
  import opened Risk
  import Auth
  import Realtime
  import Validation
  import Posts
  import Flags
  import Moderation
  import Users

  class Database {
    var users: map<Id, User>
    var posts: seq<Post>
    var flags: seq<Flag>
    var logs: seq<LogEntry>
    var analyses: seq<AnalysisRecord>

    /** The stores as one value. */
    function State(): (db: Db)
      reads this
      ensures db.users == users && db.posts == posts && db.flags == flags && db.logs == logs && db.analyses == analyses
    {
      Db(users, posts, flags, logs, analyses)
    }

    /** An empty database, which is consistent. */
    constructor ()
      ensures State() == Db(map[], [], [], [], []) && Consistent(State())
    {
      users, posts, flags, logs, analyses := map[], [], [], [], [];
      EmptyConsistent();
    }

    // ---------------------------------------------------------------- record writes

    /** `Post.create`: the new post is appended to the posts. */
    method InsertPost(p: Post)
      modifies this
      ensures State() == old(State()).(posts := old(posts) + [p])
    {
      posts := posts + [p];
    }

    /** `post.save()`: the post at position `i` is written back. */
    method SavePost(i: nat, p: Post)
      requires i < |posts|
      modifies this
      ensures State() == old(State()).(posts := old(posts)[i := p])
    {
      posts := posts[i := p];
    }

    /** `post.destroy()`: the post at position `i` is removed. */
    method DestroyPost(i: nat)
      requires i < |posts|
      modifies this
      ensures State() == old(State()).(posts := RemoveAt(old(posts), i))
    {
      posts := RemoveAt(posts, i);
    }

    /** `Flag.create`: the new flag is appended to the flags. */
    method InsertFlag(f: Flag)
      modifies this
      ensures State() == old(State()).(flags := old(flags) + [f])
    {
      flags := flags + [f];
    }

    /** `flag.save()`: the flag at position `i` is written back. */
    method SaveFlag(i: nat, f: Flag)
      requires i < |flags|
      modifies this
      ensures State() == old(State()).(flags := old(flags)[i := f])
    {
      flags := flags[i := f];
    }

    /** `ModerationLog.create`: the entry is appended to the audit log. */
    method InsertLog(e: LogEntry)
      modifies this
      ensures State() == old(State()).(logs := old(logs) + [e])
    {
      logs := logs + [e];
    }

    /** `user.save()`: the user stored under `id` is written back. */
    method SaveUser(id: Id, u: User)
      modifies this
      ensures State() == old(State()).(users := old(users)[id := u])
    {
      users := users[id := u];
    }

    /** `AIAnalysis.create` inside the scoring service: the assessment's record, if it made one, is appended. */
    method RecordAnalysis(a: Assessment)
      modifies this
      ensures State() == old(State()).(analyses := Posts.Recorded(old(analyses), a))
    {
      analyses := Posts.Recorded(analyses, a);
    }

    // ---------------------------------------------------------------- handlers

    /** `POST /posts`: the validator, then publish. */
    method CreatePost(me: User, content: Option<string>, upload: Option<string>, c: Classifier, t: Thresholds,
                      baseUrl: string, draws: RandomDraws, postId: Id, flagId: Id) returns (reply: Reply<Post>)
      requires ValidDraws(draws)
      modifies this
      ensures var s := Posts.CreatePost(old(State()), me, content, upload, c, t, baseUrl, draws, postId, flagId);
              State() == s.db && reply == s.reply
      ensures Consistent(old(State())) && Unused(old(State()), postId) && Unused(old(State()), flagId) ==> Consistent(State())
    {
      ghost var db := State();
      if Consistent(db) && Unused(db, postId) && Unused(db, flagId) {
        Posts.CreatePostKeepsConsistent(db, me, content, upload, c, t, baseUrl, draws, postId, flagId);
      }
      var v := Validation.ValidatePost(content);
      if v.Invalid? {
        reply := Failure(400, "Validation failed", v.errors);
        return;
      }
      var text := v.value;
      var mediaUrl := Posts.MediaUrl(upload);
      var textA := AnalyzeText(c, text, Some(postId));
      var imageA := Posts.ImageAssessment(c, baseUrl, mediaUrl, postId, draws);
      reply := Publish(me, text, mediaUrl, textA, imageA, t, postId, flagId);
      assert Posts.CreatePost(db, me, content, upload, c, t, baseUrl, draws, postId, flagId)
             == Posts.Publish(db, me, text, mediaUrl, textA, imageA, t, postId, flagId);
    }

    /**
     * The handler behind the validator, given the scores the classifier gives the text and
     * the image: create the post as `active`, remove or flag it by the text score, then
     * remove it by the image score, if any.
     */
    method Publish(me: User, text: string, mediaUrl: Option<string>, textA: Assessment, imageA: Option<Assessment>,
                   t: Thresholds, postId: Id, flagId: Id) returns (reply: Reply<Post>)
      modifies this
      ensures var s := Posts.Publish(old(State()), me, text, mediaUrl, textA, imageA, t, postId, flagId);
              State() == s.db && reply == s.reply
    {
      ghost var db := State();
      var post := NewPost(postId, me.id, text, mediaUrl);
      InsertPost(post);
      var n := |posts| - 1;
      post := ActOnText(n, post, textA, t, flagId);
      post := ActOnImage(n, post, imageA, t);
      reply := Success(201, "", post);
      assert posts == db.posts + [post];
    }

    /**
     * The text half of publishing the post at position `n`: record the text assessment, then
     * remove the post at the removal threshold, or else raise one flag at the review threshold.
     */
    method ActOnText(n: nat, post: Post, textA: Assessment, t: Thresholds, flagId: Id) returns (post': Post)
      requires n < |posts| && posts[n] == post
      modifies this
      ensures post' == post.(status := if ShouldAutoRemove(t, textA.result.overallRisk) then PostRemoved else post.status)
      ensures State() == old(State()).(posts := old(posts)[n := post'],
                                       flags := if Posts.FlaggedOnCreate(t, textA)
                                                then old(flags) + [Posts.AutoFlag(flagId, post.id, post.authorId)] else old(flags),
                                       analyses := Posts.Recorded(old(analyses), textA))
    {
      post' := post;
      RecordAnalysis(textA);
      if ShouldAutoRemove(t, textA.result.overallRisk) {
        post' := post.(status := PostRemoved);
        SavePost(n, post');
      } else if ShouldFlag(t, textA.result.overallRisk) {
        InsertFlag(Posts.AutoFlag(flagId, post.id, post.authorId));
      }
    }

    /**
     * The image half of publishing the post at position `n`: when there is an image
     * assessment, record it and remove the post at the removal threshold.
     */
    method ActOnImage(n: nat, post: Post, imageA: Option<Assessment>, t: Thresholds) returns (post': Post)
      requires n < |posts| && posts[n] == post
      modifies this
      ensures post' == post.(status := if imageA.Some? && ShouldAutoRemove(t, imageA.value.result.overallRisk) then PostRemoved else post.status)
      ensures State() == old(State()).(posts := old(posts)[n := post'],
                                       analyses := if imageA.Some? then Posts.Recorded(old(analyses), imageA.value) else old(analyses))
    {
      post' := post;
      if imageA.Some? {
        RecordAnalysis(imageA.value);
        if ShouldAutoRemove(t, imageA.value.result.overallRisk) {
          post' := post.(status := PostRemoved);
          SavePost(n, post');
        }
      }
    }

    /** `PATCH /posts/:id`: find, check ownership, assign the content and save, then re-score it. */
    method EditPost(me: User, id: Id, content: Option<string>, c: Classifier) returns (reply: Reply<Post>)
      modifies this
      ensures var s := Posts.EditPost(old(State()), me, id, content, c);
              State() == s.db && reply == s.reply
      ensures Consistent(old(State())) ==> Consistent(State())
    {
      ghost var db := State();
      if Consistent(db) {
        Posts.EditPostKeepsConsistent(db, me, id, content, c);
      }
      var v := Validation.ValidatePost(content);
      if v.Invalid? {
        reply := Failure(400, "Validation failed", v.errors);
        return;
      }
      var found := FindPost(posts, id);
      if found.None? {
        reply := Failure(404, Posts.PostNotFound, []);
        return;
      }
      var i := found.value;
      if !Posts.MayManage(me, posts[i]) {
        reply := Failure(403, "Not authorized to edit this post", []);
        return;
      }
      var post := posts[i].(content := v.value);
      SavePost(i, post);
      RecordAnalysis(AnalyzeText(c, v.value, Some(id)));
      reply := Success(200, "", post);
    }

    /** `DELETE /posts/:id`: find, check ownership, destroy. */
    method DeletePost(me: User, id: Id) returns (reply: Reply<()>)
      modifies this
      ensures var s := Posts.DeletePost(old(State()), me, id);
              State() == s.db && reply == s.reply
      ensures Consistent(old(State())) ==> Consistent(State())
    {
      ghost var db := State();
      if Consistent(db) {
        Posts.DeletePostKeepsConsistent(db, me, id);
      }
      var found := FindPost(posts, id);
      if found.None? {
        reply := Failure(404, Posts.PostNotFound, []);
        return;
      }
      if !Posts.MayManage(me, posts[found.value]) {
        reply := Failure(403, "Not authorized to delete this post", []);
        return;
      }
      DestroyPost(found.value);
      reply := Success(200, "Post deleted successfully", ());
    }

    /** `POST /flags`: find the post, look for an earlier flag by this user, create the flag, tell the moderators. */
    method CreateFlag(me: User, postId: Option<string>, category: Option<string>, reasonText: Option<string>, flagId: Id)
      returns (reply: Reply<Flag>, emitted: seq<Realtime.Emission>)
      modifies this
      ensures var s := Flags.CreateFlag(old(State()), me, postId, category, reasonText, flagId);
              State() == s.db && reply == s.reply && emitted == s.emitted
      ensures Consistent(old(State())) && Unused(old(State()), flagId) ==> Consistent(State())
    {
      ghost var db := State();
      if Consistent(db) && Unused(db, flagId) {
        Flags.CreateFlagKeepsConsistent(db, me, postId, category, reasonText, flagId);
      }
      emitted := [];
      var v := Validation.ValidateFlag(postId, category, reasonText);
      if v.Invalid? {
        reply := Failure(400, "Validation failed", v.errors);
        return;
      }
      var input := v.value;
      var found := FindPost(posts, input.postId);
      if found.None? {
        reply := Failure(404, Flags.PostNotFound, []);
        return;
      }
      if HasFlagBy(flags, input.postId, me.id) {
        reply := Failure(400, Flags.AlreadyFlagged, []);
        return;
      }
      var flag := NewFlag(flagId, input.postId, me.id, input.category, input.reasonText);
      InsertFlag(flag);
      emitted := [Flags.NewFlagEvent(users, me, flag, posts[found.value])];
      reply := Success(201, Flags.FlaggedMessage, flag);
    }

    /**
     * `POST /moderation/:flagId/action`: the role gate, the validator, load the flag and
     * check that it is pending, then apply the action.
     */
    method TakeAction(me: User, flagId: Id, action: Option<string>, reason: Option<string>, logId: Id)
      returns (reply: Reply<Flag>, emitted: seq<Realtime.Emission>)
      modifies this
      ensures var s := Moderation.TakeAction(old(State()), me, flagId, action, reason, logId);
              State() == s.db && reply == s.reply && emitted == s.emitted
      ensures Consistent(old(State())) ==> Consistent(State())
    {
      ghost var db := State();
      if Consistent(db) {
        Moderation.TakeActionKeepsConsistent(db, me, flagId, action, reason, logId);
      }
      emitted := [];
      var gate := Auth.RequireRole(Some(Auth.Account(me)), Auth.StaffRoles);
      if gate.Deny? {
        reply := Failure(gate.code, gate.message, []);
        return;
      }
      var v := Validation.ValidateModerationAction(action, reason);
      if v.Invalid? {
        reply := Failure(400, "Validation failed", v.errors);
        return;
      }
      var a := v.value.0;
      var notes := v.value.1;
      var found := FindFlag(flags, flagId);
      if found.None? {
        reply := Failure(404, Moderation.FlagNotFound, []);
        return;
      }
      var i := found.value;
      if flags[i].status != Pending {
        reply := Failure(400, Moderation.AlreadyProcessed, []);
        return;
      }

      reply, emitted := Apply(me, i, a, notes, logId);
      Moderation.AcceptedIsResolve(db, me, flagId, action, reason, logId);
    }

    /**
     * An accepted action on the pending flag at position `i`: set the flag's status and
     * save; on `remove` set the post's status and save; write the log entry; load the
     * author, adjust the reputation and save; notify the author.
     */
    method Apply(me: User, i: nat, a: ModAction, notes: Option<string>, logId: Id)
      returns (reply: Reply<Flag>, emitted: seq<Realtime.Emission>)
      requires i < |flags|
      modifies this
      ensures var s := Moderation.Resolve(old(State()), me, i, a, notes, logId);
              State() == s.db && reply == s.reply && emitted == s.emitted
    {
      ghost var db := State();
      emitted := [];
      var flag := flags[i].(status := Resolution(a));
      SaveFlag(i, flag);
      var j := FindPost(posts, flag.postId);
      if j.Some? {
        var p := posts[j.value];
        if a == Remove {
          SavePost(j.value, p.(status := PostRemoved));
        }
        InsertLog(LogEntry(logId, me.id, flag.id, a, notes));
        if p.authorId in users {
          var author := users[p.authorId];
          if a == Remove {
            author := author.(reputation := if author.reputation - 10 > 0 then author.reputation - 10 else 0);
          } else if a == Approve {
            author := author.(reputation := author.reputation + 5);
          }
          assert author == db.users[p.authorId].(reputation := Moderation.NewReputation(db.users[p.authorId].reputation, a));
          SaveUser(p.authorId, author);
          emitted := [Realtime.EmitToUser(p.authorId, Realtime.ModerationAction(Realtime.ActionPayload(a, p.id, notes, me.name)))];
        }
      } else {
        InsertLog(LogEntry(logId, me.id, flag.id, a, notes));
      }
      reply := Success(200, Moderation.ActedMessage(a), flag);
    }

    /** `PATCH /users/:id`: check the caller, load the user, assign the new email and name, save. */
    method UpdateProfile(me: User, id: Id, name: Option<string>, email: Option<string>, isEmail: string -> bool)
      returns (reply: Reply<PublicUser>)
      modifies this
      ensures var s := Users.UpdateProfile(old(State()), me, id, name, email, isEmail);
              State() == s.db && reply == s.reply
      ensures Consistent(old(State())) ==> Consistent(State())
    {
      ghost var db := State();
      if Consistent(db) {
        Users.UpdateProfileKeepsConsistent(db, me, id, name, email, isEmail);
      }
      var v := Validation.ValidateProfileUpdate(name, email, isEmail);
      if v.Invalid? {
        reply := Failure(400, "Validation failed", v.errors);
        return;
      }
      var newName := v.value.0;
      var newEmail := v.value.1;
      if me.id != id && me.role != Admin {
        reply := Failure(403, Users.NotYourProfile, []);
        return;
      }
      if id !in users {
        reply := Failure(404, Users.UserNotFound, []);
        return;
      }
      var user := users[id];
      if Truthy(newEmail) && newEmail.value != user.email {
        if EmailTaken(users, newEmail.value) {
          reply := Failure(400, Users.EmailInUse, []);
          return;
        }
        user := user.(email := newEmail.value);
      }
      if Truthy(newName) {
        user := user.(name := newName.value);
      }
      assert user == Users.Edited(db.users[id], newName, newEmail);
      SaveUser(id, user);
      reply := Success(200, "", ToPublic(user));
    }

    /** `PATCH /users/:id/role`: the admin gate, load the user, assign the role, save. */
    method UpdateRole(me: Option<Auth.Principal>, id: Id, role: Option<string>) returns (reply: Reply<PublicUser>)
      modifies this
      ensures var s := Users.UpdateRole(old(State()), me, id, role);
              State() == s.db && reply == s.reply
      ensures Consistent(old(State())) ==> Consistent(State())
    {
      ghost var db := State();
      if Consistent(db) {
        Users.UpdateRoleKeepsConsistent(db, me, id, role);
      }
      var gate := Auth.RequireRole(me, ["admin"]);
      if gate.Deny? {
        reply := Failure(gate.code, gate.message, []);
        return;
      }
      var v := Validation.ValidateRole(role);
      if v.Invalid? {
        reply := Failure(400, "Validation failed", v.errors);
        return;
      }
      if id !in users {
        reply := Failure(404, Users.UserNotFound, []);
        return;
      }
      var user := users[id].(role := v.value);
      SaveUser(id, user);
      reply := Success(200, Users.RoleUpdated, ToPublic(user));
    }
  }
}
