/**
 * The post routes: creation with risk-based routing (auto-remove, one system flag, or
 * nothing), editing and deleting under the author-or-admin rule, and the public feed.
 * The classifier, the thresholds, the random draws of the image placeholder and the fresh
 * ids are parameters.
 */
module Posts {
  import opened Wrappers
  import opened Models
  import opened Store
  import opened Api
  import opened Risk
  import Paging
  import Validation
  import Text

  /** The reason text of a flag the routing raises. */
  const AutoFlagReason: string := "Automatically flagged by AI for review"

  /** Where an uploaded file is served from. */
  const UploadPrefix: string := "/uploads/"

  function MediaUrl(upload: Option<string>): (m: Option<string>)
    ensures m.None? <==> upload.None?
    ensures m.Some? ==> m.value == UploadPrefix + upload.value
  {
    match upload
    case None => None
    case Some(name) => Some(UploadPrefix + name)
  }

  /** The analysis store after an assessment: its record appended, if it made one. */
  function Recorded(analyses: seq<AnalysisRecord>, a: Assessment): (r: seq<AnalysisRecord>)
    ensures a.record.None? ==> r == analyses
    ensures a.record.Some? ==> r == analyses + [a.record.value]
    ensures AnalysesValid(analyses) && (a.record.Some? ==> ValidAnalysis(a.record.value)) ==> AnalysesValid(r)
  {
    match a.record
    case None => analyses
    case Some(rec) => analyses + [rec]
  }

  /** The one flag routing raises: category `other`, raised in the author's name, pending. */
  function AutoFlag(flagId: Id, postId: Id, authorId: Id): (f: Flag)
    ensures f.id == flagId && f.postId == postId && f.flaggedBy == authorId
    ensures f.category == Other && f.reasonText == Some(AutoFlagReason) && f.status == Pending
  {
    NewFlag(flagId, postId, authorId, Other, Some(AutoFlagReason))
  }

  /** The image assessment of a new post, when it has media. */
  function ImageAssessment(c: Classifier, baseUrl: string, mediaUrl: Option<string>, postId: Id, draws: RandomDraws): (a: Option<Assessment>)
    requires ValidDraws(draws)
    ensures a.Some? <==> mediaUrl.Some?
    ensures a.Some? && a.value.record.Some? ==> ValidAnalysis(a.value.record.value)
  {
    if mediaUrl.Some? then Some(AnalyzeImage(c, baseUrl + mediaUrl.value, Some(postId), draws)) else None
  }

  /** The outcome a new post's analyses lead to. */
  predicate RemovedOnCreate(t: Thresholds, text: Assessment, image: Option<Assessment>) {
    ShouldAutoRemove(t, text.result.overallRisk) || (image.Some? && ShouldAutoRemove(t, image.value.result.overallRisk))
  }

  predicate FlaggedOnCreate(t: Thresholds, text: Assessment) {
    !ShouldAutoRemove(t, text.result.overallRisk) && ShouldFlag(t, text.result.overallRisk)
  }

  /**
   * `POST /posts`: validate, then publish the validated content.
   */
  function CreatePost(db: Db, me: User, content: Option<string>, upload: Option<string>, c: Classifier, t: Thresholds,
                      baseUrl: string, draws: RandomDraws, postId: Id, flagId: Id): (s: Step<Post>)
    requires ValidDraws(draws)
    ensures s.emitted == [] && s.db.users == db.users && s.db.logs == db.logs
  {
    match Validation.ValidatePost(content)
    case Invalid(errors) => Invalid(db, errors)
    case Valid(text) =>
      var mediaUrl := MediaUrl(upload);
      Publish(db, me, text, mediaUrl, AnalyzeText(c, text, Some(postId)), ImageAssessment(c, baseUrl, mediaUrl, postId, draws), t, postId, flagId)
  }

  /**
   * The handler behind the validator, given the text assessment and the image assessment,
   * if any: store the post as `active`; auto-remove it when the text reaches the removal
   * threshold, else raise one flag when it reaches the review threshold; auto-remove it
   * when the image reaches the removal threshold. No event is emitted.
   */
  function Publish(db: Db, me: User, text: string, mediaUrl: Option<string>, textA: Assessment, imageA: Option<Assessment>,
                   t: Thresholds, postId: Id, flagId: Id): (s: Step<Post>)
    ensures s.emitted == [] && s.db.users == db.users && s.db.logs == db.logs
  {
    var status := if RemovedOnCreate(t, textA, imageA) then PostRemoved else PostActive;
    var post := NewPost(postId, me.id, text, mediaUrl).(status := status);
    var flags := if FlaggedOnCreate(t, textA) then db.flags + [AutoFlag(flagId, postId, me.id)] else db.flags;
    var analyses := Recorded(Recorded(db.analyses, textA), imageA.GetOr(Assessment(textA.result, None)));
    Step(db.(posts := db.posts + [post], flags := flags, analyses := analyses), Success(201, "", post), [])
  }

  /**
   * The routing of a created post: it is always created (201), removed exactly when the text
   * or the image reaches the removal threshold, and exactly one flag is added exactly when
   * the text reaches the review threshold without reaching the removal one.
   */
  lemma CreatePostRouting(db: Db, me: User, content: Option<string>, upload: Option<string>, c: Classifier, t: Thresholds,
                          baseUrl: string, draws: RandomDraws, postId: Id, flagId: Id)
    requires ValidDraws(draws) && Validation.ValidatePost(content).Valid?
    ensures var s := CreatePost(db, me, content, upload, c, t, baseUrl, draws, postId, flagId);
            var text := Validation.ValidatePost(content).value;
            var textA := AnalyzeText(c, text, Some(postId));
            var imageA := ImageAssessment(c, baseUrl, MediaUrl(upload), postId, draws);
            s.reply.Success? && s.reply.code == 201
            && |s.db.posts| == |db.posts| + 1 && s.db.posts[..|db.posts|] == db.posts
            && s.reply.value == s.db.posts[|db.posts|]
            && s.reply.value.id == postId && s.reply.value.authorId == me.id && s.reply.value.content == text
            && (s.reply.value.status == PostRemoved <==> RemovedOnCreate(t, textA, imageA))
            && (s.reply.value.status != PostRemoved ==> s.reply.value.status == PostActive)
            && (FlaggedOnCreate(t, textA) ==> s.db.flags == db.flags + [AutoFlag(flagId, postId, me.id)])
            && (!FlaggedOnCreate(t, textA) ==> s.db.flags == db.flags)
  {
    var s := CreatePost(db, me, content, upload, c, t, baseUrl, draws, postId, flagId);
    assert s.db.posts[..|db.posts|] == db.posts;
  }

  /**
   * Content the validator rejects is answered with 400 "Validation failed" and its errors,
   * and nothing is stored, scored or emitted; content it accepts is always created.
   */
  lemma CreatePostOutcome(db: Db, me: User, content: Option<string>, upload: Option<string>, c: Classifier, t: Thresholds,
                          baseUrl: string, draws: RandomDraws, postId: Id, flagId: Id)
    requires ValidDraws(draws)
    ensures var s := CreatePost(db, me, content, upload, c, t, baseUrl, draws, postId, flagId);
            var v := Validation.ValidatePost(content);
            (s.reply.Success? <==> v.Valid?)
            && (v.Invalid? ==> s.db == db && s.emitted == [] && s.reply == Failure(400, "Validation failed", v.errors))
  {
  }

  /**
   * A created post carries the uploaded file's URL, and the analysis store gains the text
   * record, if the text assessment made one, then the image record, if there is media and
   * its assessment made one.
   */
  lemma CreatePostRecords(db: Db, me: User, content: Option<string>, upload: Option<string>, c: Classifier, t: Thresholds,
                          baseUrl: string, draws: RandomDraws, postId: Id, flagId: Id)
    requires ValidDraws(draws) && Validation.ValidatePost(content).Valid?
    ensures var s := CreatePost(db, me, content, upload, c, t, baseUrl, draws, postId, flagId);
            var textA := AnalyzeText(c, Validation.ValidatePost(content).value, Some(postId));
            var imageA := ImageAssessment(c, baseUrl, MediaUrl(upload), postId, draws);
            s.reply.value.mediaUrl == MediaUrl(upload)
            && s.db.analyses == db.analyses + RecordOf(textA) + (if imageA.Some? then RecordOf(imageA.value) else [])
  {
    var text := Validation.ValidatePost(content).value;
    PublishRecords(db, me, text, MediaUrl(upload), AnalyzeText(c, text, Some(postId)),
                   ImageAssessment(c, baseUrl, MediaUrl(upload), postId, draws), t, postId, flagId);
  }

  /** The record an assessment stored, as a list of zero or one entries. */
  function RecordOf(a: Assessment): (r: seq<AnalysisRecord>)
    ensures |r| <= 1 && (r == [] <==> a.record.None?)
  {
    if a.record.Some? then [a.record.value] else []
  }

  /** The post `Publish` stores keeps its media URL, and each assessment's record, if any, is appended in turn. */
  lemma PublishRecords(db: Db, me: User, text: string, mediaUrl: Option<string>, textA: Assessment, imageA: Option<Assessment>,
                       t: Thresholds, postId: Id, flagId: Id)
    ensures var s := Publish(db, me, text, mediaUrl, textA, imageA, t, postId, flagId);
            s.reply.value.mediaUrl == mediaUrl
            && s.db.analyses == db.analyses + RecordOf(textA) + (if imageA.Some? then RecordOf(imageA.value) else [])
  {
  }

  /** A post is never both removed and flagged by the text score, and the image score never adds a flag. */
  lemma CreatePostFlagOrRemove(db: Db, me: User, content: Option<string>, upload: Option<string>, c: Classifier, t: Thresholds,
                               baseUrl: string, draws: RandomDraws, postId: Id, flagId: Id)
    requires ValidDraws(draws) && Validation.ValidatePost(content).Valid?
    ensures var s := CreatePost(db, me, content, upload, c, t, baseUrl, draws, postId, flagId);
            var s0 := CreatePost(db, me, content, None, c, t, baseUrl, draws, postId, flagId);
            s.db.flags == s0.db.flags
            && (|s.db.flags| > |db.flags| ==> !ShouldAutoRemove(t, AnalyzeText(c, Validation.ValidatePost(content).value, Some(postId)).result.overallRisk))
  {
  }

  /**
   * With no classifier configured, the default thresholds and no media, a post is removed
   * exactly when it contains three or more of the toxic words, and flagged exactly when it
   * contains two of them, or fewer than three and two or more of the spam phrases.
   */
  lemma {:induction false} CreatePostUnderHeuristic(db: Db, me: User, content: Option<string>, baseUrl: string,
                                                    draws: RandomDraws, postId: Id, flagId: Id)
    requires ValidDraws(draws) && Validation.ValidatePost(content).Valid?
    ensures var s := CreatePost(db, me, content, None, Unavailable, DefaultThresholds, baseUrl, draws, postId, flagId);
            var text := Validation.ValidatePost(content).value;
            (s.reply.value.status == PostRemoved <==> ToxicCount(text) >= 3)
            && (|s.db.flags| == |db.flags| + 1 <==> ToxicCount(text) < 3 && (ToxicCount(text) >= 2 || SpamCount(text) >= 2))
            && s.db.analyses == db.analyses
  {
    var text := Validation.ValidatePost(content).value;
    HeuristicUnderDefaults(text);
    CreatePostRouting(db, me, content, None, Unavailable, DefaultThresholds, baseUrl, draws, postId, flagId);
  }

  /** Without a classifier the image placeholder never removes a post under thresholds of 0.2 or more. */
  lemma {:induction false} PlaceholderImageNeverRemoves(db: Db, me: User, content: Option<string>, upload: Option<string>, t: Thresholds,
                                                        baseUrl: string, draws: RandomDraws, postId: Id, flagId: Id)
    requires ValidDraws(draws) && Validation.ValidatePost(content).Valid? && t.autoRemove >= 0.2
    ensures CreatePost(db, me, content, upload, Unavailable, t, baseUrl, draws, postId, flagId).reply.value.status
            == CreatePost(db, me, content, None, Unavailable, t, baseUrl, draws, postId, flagId).reply.value.status
  {
    MockImageNeverRemoves(t, draws);
    CreatePostRouting(db, me, content, upload, Unavailable, t, baseUrl, draws, postId, flagId);
    CreatePostRouting(db, me, content, None, Unavailable, t, baseUrl, draws, postId, flagId);
  }

  /** Creating a post under unused ids keeps the database consistent. */
  lemma {:induction false} CreatePostKeepsConsistent(db: Db, me: User, content: Option<string>, upload: Option<string>, c: Classifier,
                                                     t: Thresholds, baseUrl: string, draws: RandomDraws, postId: Id, flagId: Id)
    requires ValidDraws(draws) && Consistent(db) && Unused(db, postId) && Unused(db, flagId)
    ensures Consistent(CreatePost(db, me, content, upload, c, t, baseUrl, draws, postId, flagId).db)
  {
    if Validation.ValidatePost(content).Valid? {
      var s := CreatePost(db, me, content, upload, c, t, baseUrl, draws, postId, flagId);
      var text := Validation.ValidatePost(content).value;
      CreatePostRouting(db, me, content, upload, c, t, baseUrl, draws, postId, flagId);
      assert s.db.posts == db.posts + [s.reply.value];
      AddPostKeepsPosts(db.posts, s.reply.value);
      var textA := AnalyzeText(c, text, Some(postId));
      if FlaggedOnCreate(t, textA) {
        AddPendingFlagKeepsLogs(db.flags, db.logs, AutoFlag(flagId, postId, me.id));
      }
      var imageA := ImageAssessment(c, baseUrl, MediaUrl(upload), postId, draws);
      var a1 := Recorded(db.analyses, textA);
      assert s.db.analyses == Recorded(a1, imageA.GetOr(Assessment(textA.result, None)));
    }
  }

  // ---------------------------------------------------------------- edit and delete

  /** The ownership rule of edit and delete: the author, or an admin. */
  predicate MayManage(me: User, p: Post) {
    p.authorId == me.id || me.role == Admin
  }

  const PostNotFound: string := "Post not found"

  /**
   * `PATCH /posts/:id`: validate, find, check ownership, replace the content and re-score
   * it; no threshold is applied, so the status stays as it was.
   */
  function EditPost(db: Db, me: User, id: Id, content: Option<string>, c: Classifier): (s: Step<Post>)
    ensures s.emitted == [] && s.db.users == db.users && s.db.flags == db.flags && s.db.logs == db.logs
    ensures s.reply.Failure? ==> s.db == db
    ensures Validation.ValidatePost(content).Valid? && FindPost(db.posts, id).None? ==> s == Refuse(db, 404, PostNotFound)
  {
    match Validation.ValidatePost(content)
    case Invalid(errors) => Invalid(db, errors)
    case Valid(text) =>
      match FindPost(db.posts, id)
      case None => Refuse(db, 404, PostNotFound)
      case Some(i) =>
        if !MayManage(me, db.posts[i]) then Refuse(db, 403, "Not authorized to edit this post")
        else
          var post := db.posts[i].(content := text);
          var analyses := Recorded(db.analyses, AnalyzeText(c, text, Some(id)));
          Step(db.(posts := db.posts[i := post], analyses := analyses), Success(200, "", post), [])
  }

  /** An edit succeeds exactly for the author or an admin of an existing post, with valid content. */
  lemma EditPostAllowed(db: Db, me: User, id: Id, content: Option<string>, c: Classifier)
    ensures var s := EditPost(db, me, id, content, c);
            s.reply.Success? <==> Validation.ValidatePost(content).Valid? && FindPost(db.posts, id).Some?
                                  && MayManage(me, db.posts[FindPost(db.posts, id).value])
  {
  }

  /** What a successful edit stores: the validated content in place of the old, and the new analysis when one was recorded. */
  lemma EditPostSaved(db: Db, me: User, id: Id, content: Option<string>, c: Classifier)
    ensures var s := EditPost(db, me, id, content, c);
            s.reply.Success? ==>
              Validation.ValidatePost(content).Valid? && FindPost(db.posts, id).Some?
              && var text := Validation.ValidatePost(content).value;
                 var i := FindPost(db.posts, id).value;
                 s.db == db.(posts := db.posts[i := db.posts[i].(content := text)],
                             analyses := Recorded(db.analyses, AnalyzeText(c, text, Some(id))))
  {
  }

  /** A successful edit replaces that post's content, keeps its status, and leaves every other post alone. */
  lemma EditPostEffect(db: Db, me: User, id: Id, content: Option<string>, c: Classifier)
    ensures var s := EditPost(db, me, id, content, c);
            s.reply.Success? ==>
              var i := FindPost(db.posts, id).value;
              |s.db.posts| == |db.posts|
              && s.db.posts[i] == db.posts[i].(content := Validation.ValidatePost(content).value)
              && s.db.posts[i].status == db.posts[i].status
              && (forall k :: 0 <= k < |db.posts| && k != i ==> s.db.posts[k] == db.posts[k])
  {
    EditPostSaved(db, me, id, content, c);
  }

  lemma {:induction false} EditPostKeepsConsistent(db: Db, me: User, id: Id, content: Option<string>, c: Classifier)
    requires Consistent(db)
    ensures Consistent(EditPost(db, me, id, content, c).db)
  {
    var s := EditPost(db, me, id, content, c);
    if s.reply.Success? {
      EditPostSaved(db, me, id, content, c);
      var text := Validation.ValidatePost(content).value;
      var i := FindPost(db.posts, id).value;
      var analyses := Recorded(db.analyses, AnalyzeText(c, text, Some(id)));
      SavePostKeepsConsistent(db, i, db.posts[i].(content := text), analyses);
    }
  }

  /** `DELETE /posts/:id`: find, check ownership, remove the post. */
  function DeletePost(db: Db, me: User, id: Id): (s: Step<()>)
    ensures s.emitted == [] && s.db.users == db.users && s.db.flags == db.flags && s.db.logs == db.logs
    ensures s.db.analyses == db.analyses
    ensures s.reply.Failure? ==> s.db == db
  {
    match FindPost(db.posts, id)
    case None => Refuse(db, 404, PostNotFound)
    case Some(i) =>
      if !MayManage(me, db.posts[i]) then Refuse(db, 403, "Not authorized to delete this post")
      else Step(db.(posts := RemoveAt(db.posts, i)), Success(200, "Post deleted successfully", ()), [])
  }

  /**
   * A delete gives 404 for an unknown post and 403 to anyone but the author or an admin;
   * otherwise the post is gone and every other post is kept, in order.
   */
  lemma {:induction false} DeletePostEffect(db: Db, me: User, id: Id)
    requires Distinct(PostIds(db.posts))
    ensures var s := DeletePost(db, me, id);
            (FindPost(db.posts, id).None? ==> s.reply == Failure(404, PostNotFound, []))
            && (FindPost(db.posts, id).Some? && !MayManage(me, db.posts[FindPost(db.posts, id).value]) ==> s.reply.code == 403)
            && (s.reply.Success? ==>
                  id !in PostIds(s.db.posts)
                  && (forall p :: p in db.posts && p.id != id ==> p in s.db.posts)
                  && (forall p :: p in s.db.posts ==> p in db.posts))
  {
    var s := DeletePost(db, me, id);
    if s.reply.Success? {
      var i := FindPost(db.posts, id).value;
      var ps := s.db.posts;
      forall k | 0 <= k < |ps|
        ensures ps[k].id != id
      {
        if k < i {
          assert ps[k] == db.posts[k];
        } else {
          assert ps[k] == db.posts[k + 1];
        }
      }
      forall p | p in db.posts && p.id != id
        ensures p in ps
      {
        var k :| 0 <= k < |db.posts| && db.posts[k] == p;
        if k < i {
          assert ps[k] == p;
        } else {
          assert ps[k - 1] == p;
        }
      }
    }
  }

  lemma {:induction false} DeletePostKeepsConsistent(db: Db, me: User, id: Id)
    requires Consistent(db)
    ensures Consistent(DeletePost(db, me, id).db)
  {
    var s := DeletePost(db, me, id);
    if s.reply.Success? {
      var i := FindPost(db.posts, id).value;
      var ps := s.db.posts;
      forall a, b | 0 <= a < b < |ps|
        ensures PostIds(ps)[a] != PostIds(ps)[b]
      {
        var a' := if a < i then a else a + 1;
        var b' := if b < i then b else b + 1;
        assert ps[a] == db.posts[a'] && ps[b] == db.posts[b'];
        assert PostIds(db.posts)[a'] != PostIds(db.posts)[b'];
      }
      forall k | 0 <= k < |ps|
        ensures ValidPost(ps[k])
      {
        assert ps[k] == db.posts[if k < i then k else k + 1];
      }
    }
  }

  // ---------------------------------------------------------------- the feed

  /** A feed entry: the post and how many flags it has. */
  datatype FeedItem = FeedItem(post: Post, flagCount: nat)

  /** Whether the feed lists a post: active, containing the search text in any letter case, by the given author. */
  predicate Listed(p: Post, search: Option<string>, author: Option<string>) {
    p.status == PostActive
    && (Truthy(search) ==> Text.Contains(Text.ToLower(p.content), Text.ToLower(search.value)))
    && (Truthy(author) ==> p.authorId == author.value)
  }

  /** The feed's filter as a test on one post. */
  function ListedBy(search: Option<string>, author: Option<string>): Post -> bool {
    (p: Post) => Listed(p, search, author)
  }

  /** How many flags refer to a post. */
  function FlagCount(flags: seq<Flag>, postId: Id): (n: nat)
    ensures n <= |flags|
  {
    if flags == [] then 0
    else FlagCount(flags[..|flags| - 1], postId) + (if flags[|flags| - 1].postId == postId then 1 else 0)
  }

  /** The feed's rows before paging: the listed posts, newest first. */
  function FeedRows(db: Db, search: Option<string>, author: Option<string>): (rows: seq<FeedItem>)
    ensures forall k :: 0 <= k < |rows| ==> rows[k].post in db.posts && Listed(rows[k].post, search, author)
                                            && rows[k].flagCount == FlagCount(db.flags, rows[k].post.id)
  {
    FeedItems(db.flags, Paging.Select(db.posts, Paging.NewestFirst(db.posts, ListedBy(search, author), |db.posts|)))
  }

  /** Every post the feed's filter admits has a row. */
  lemma FeedRowsComplete(db: Db, search: Option<string>, author: Option<string>, p: Post)
    requires p in db.posts && Listed(p, search, author)
    ensures exists k :: 0 <= k < |FeedRows(db, search, author)| && FeedRows(db, search, author)[k].post == p
  {
    var i :| 0 <= i < |db.posts| && db.posts[i] == p;
    Paging.SelectKept(db.posts, ListedBy(search, author), i);
    var posts := Paging.Select(db.posts, Paging.NewestFirst(db.posts, ListedBy(search, author), |db.posts|));
    var k :| 0 <= k < |posts| && posts[k] == p;
    assert FeedRows(db, search, author)[k].post == p;
  }

  /** Each post with the number of flags against it. */
  function FeedItems(flags: seq<Flag>, posts: seq<Post>): (rows: seq<FeedItem>)
    ensures |rows| == |posts| && forall k :: 0 <= k < |rows| ==> rows[k] == FeedItem(posts[k], FlagCount(flags, posts[k].id))
  {
    seq(|posts|, k requires 0 <= k < |posts| => FeedItem(posts[k], FlagCount(flags, posts[k].id)))
  }

  /** `GET /posts`: one page of the feed (page 1 and 10 per page by default). */
  function Feed(db: Db, page: Option<int>, limit: Option<int>, search: Option<string>, author: Option<string>): (r: Paging.Paged<FeedItem>)
    ensures r.Listed? ==> r.page.total == |FeedRows(db, search, author)|
    ensures r.Listed? ==> forall it :: it in r.page.items ==> it.post in db.posts && Listed(it.post, search, author)
  {
    Paging.Paginate(FeedRows(db, search, author), page, limit, 10)
  }

  /**
   * How many rows a post contributes to the LEFT OUTER JOIN with its flags: one per flag,
   * or one when it has none.
   */
  function JoinedRows(flagCount: nat): (n: nat)
    ensures n >= 1 && (n == 1 <==> flagCount <= 1)
  {
    if flagCount == 0 then 1 else flagCount
  }

  /** `COUNT("Post"."id")` over the feed's rows joined with their flags. */
  function JoinedCount(rows: seq<FeedItem>): (n: nat)
    ensures n >= |rows|
    ensures n == |rows| <==> forall k :: 0 <= k < |rows| ==> rows[k].flagCount <= 1
  {
    if rows == [] then 0
    else
      var init := rows[..|rows| - 1];
      assert forall k :: 0 <= k < |init| ==> init[k] == rows[k];
      JoinedCount(init) + JoinedRows(rows[|rows| - 1].flagCount)
  }

  /**
   * `GET /posts` as written: `findAndCountAll` with the `flags` include and no `distinct`,
   * so the reported total and page count are taken over the joined rows, not the posts.
   * The page's items are the same as the corrected feed's.
   */
  function FeedAsWritten(db: Db, page: Option<int>, limit: Option<int>, search: Option<string>, author: Option<string>): (r: Paging.Paged<FeedItem>)
    ensures r.BadWindow? <==> Feed(db, page, limit, search, author).BadWindow?
    ensures r.Listed? ==> r.page.total == JoinedCount(FeedRows(db, search, author))
                          && r.page.totalPages == Paging.TotalPages(r.page.total, Paging.OrDefault(limit, 10))
                          && r.page.items == Feed(db, page, limit, search, author).page.items
  {
    var rows := FeedRows(db, search, author);
    match Paging.Paginate(rows, page, limit, 10)
    case BadWindow => Paging.BadWindow
    case Listed(pg) =>
      var n := JoinedCount(rows);
      Paging.Listed(pg.(totalPages := Paging.TotalPages(n, Paging.OrDefault(limit, 10)), total := n))
  }

  /**
   * The feed as written over-reports exactly when a listed post has two flags or more:
   * its total then exceeds the number of listed posts, which the corrected `Feed` reports.
   */
  lemma FeedAsWrittenOvercounts(db: Db, page: Option<int>, limit: Option<int>, search: Option<string>, author: Option<string>)
    requires FeedAsWritten(db, page, limit, search, author).Listed?
    ensures var rows := FeedRows(db, search, author);
            var t := FeedAsWritten(db, page, limit, search, author).page.total;
            t >= Feed(db, page, limit, search, author).page.total
            && (t > Feed(db, page, limit, search, author).page.total <==> exists k :: 0 <= k < |rows| && rows[k].flagCount >= 2)
  {
  }

  /** The feed is newest first: rows further down were stored earlier. */
  lemma FeedNewestFirst(db: Db, search: Option<string>, author: Option<string>, j: int, k: int)
    requires Distinct(PostIds(db.posts)) && 0 <= j < k < |FeedRows(db, search, author)|
    ensures var rows := FeedRows(db, search, author);
            FindPost(db.posts, rows[j].post.id).value > FindPost(db.posts, rows[k].post.id).value
  {
    var positions := Paging.NewestFirst(db.posts, ListedBy(search, author), |db.posts|);
    var rows := FeedRows(db, search, author);
    assert rows[j].post == db.posts[positions[j]] && rows[k].post == db.posts[positions[k]];
    FindPostUnique(db.posts, rows[j].post.id, positions[j]);
    FindPostUnique(db.posts, rows[k].post.id, positions[k]);
  }

  /** Search ignores letter case: searching for a text or for its lower-case form lists the same posts. */
  lemma SearchIgnoresCase(p: Post, search: string, author: Option<string>)
    ensures Listed(p, Some(search), author) == Listed(p, Some(Text.ToLower(search)), author)
  {
    Text.ToLowerIdempotent(search);
  }
}
