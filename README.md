# Community moderator/curator — a Dafny model of the moderation backend

This project models the server core of a community moderation app and two small pieces of its
browser client:

- **Posting.** Members publish posts. Each new post is scored for risk, first by an external text
  classifier and then, if that is missing or fails, by a keyword heuristic. Depending on the score,
  the post is removed at once, gets one system flag for review, or is left alone. An attached image
  is scored too, and a high image score also removes the post.
- **Flags and moderation.** Members flag posts, at most once each. Moderators and admins work
  through a review queue. They approve, remove or escalate each pending flag. An accepted action:
  - moves the flag to its single terminal state;
  - writes one audit entry;
  - adjusts the post author's reputation;
  - notifies the author over the real-time channel.
- **Real-time channel.** A connection joins rooms according to its role. Each emission reaches one
  room.
- **Client.** The browser keeps a bounded notification list, and the profile page derives a
  reputation badge.

The model has two layers.

- **Specification layer.** Each request handler is a function from a database value `Db` to a
  `Step`, which holds the new database, the HTTP reply and the socket emissions. These functions
  are `Posts.CreatePost`, `Flags.CreateFlag`, `Moderation.TakeAction`, `Users.UpdateProfile` and
  the other handlers.
- **Imperative layer.** `Database.Database` is a class whose fields are the stores. Its methods do
  the handlers' work step by step, assigning record fields and saving them in the source's order.
  Each method is proved to end in the state, and give the reply, that the specification function
  describes.

The consistency invariant `Store.Consistent` covers these conditions:

- unique emails;
- non-negative reputations;
- unique ids;
- one flag per user and post;
- exactly one audit entry per resolved flag and none per pending flag;
- valid post content;
- analysis risks in [0, 1].

Every handler is proved to preserve this invariant.

External dependencies become parameters:

- the classifier (an `Unavailable` or `Configured` value holding its answers);
- the token verifier;
- the password comparison;
- the email syntax check;
- fresh UUIDs (with an "unused" precondition);
- the client clock;
- the `Math.random` draws of the image placeholder;
- the auto-remove and flag-review thresholds.

## Model

| member | source | states |
|---|---|---|
| Models.ParseRole | backend/src/models/User.ts:72-76 | a role string is accepted exactly when it is user, moderator or admin, and parses to the role of that name |
| Models.ParseRoleName | backend/src/models/User.ts:9 | every role's stored name parses back to that role |
| Models.ParseCategory | backend/src/models/Flag.ts:57-60 | a reason category is accepted exactly when it is one of the eight names, and parses to that category |
| Models.ParseCategoryName | backend/src/models/Flag.ts:10 | every category's stored name parses back to it |
| Models.ParseFlagStatus | backend/src/models/Flag.ts:65-69 | a flag status is accepted exactly when it is pending, approved, removed or escalated |
| Models.ParseAction | backend/src/models/ModerationLog.ts:53-56 | a log action is accepted exactly when it is approve, remove or escalate |
| Models.Resolution | backend/src/routes/moderation.ts:166 | an action leads to a non-pending status whose name is the action's name followed by `d` |
| Models.ResolutionInjective | backend/src/routes/moderation.ts:166 | distinct actions lead to distinct terminal statuses |
| Models.NewUser | backend/src/models/User.ts:72-76 | a new user has role `user`, reputation 0 and the given id, email, name and hash |
| Models.NewPost | backend/src/models/Post.ts:56-60 | a new post is `active` and carries the given id, author, content and media |
| Models.NewFlag | backend/src/models/Flag.ts:65-69 | a new flag is `pending` and carries the given post, flagger, category and reason |
| Models.NewAnalysisRecord | backend/src/models/AIAnalysis.ts:55-59 | an analysis record's labels default to the empty list; the other fields are the given ones |
| Models.ToPublic | backend/src/models/User.ts:43-47 | the public view keeps every user attribute except the password hash |
| Models.ToPublicHidesHash | backend/src/models/User.ts:43-47 | the public view is the same whatever password hash is stored |
| Models.ValidatePassword | backend/src/models/User.ts:33-36 | with no stored hash or an empty one the answer is false; with a non-empty stored hash the answer is exactly what the comparison says |
| Text.TrimStart | backend/src/middleware/validation.ts:29 | the result is a suffix obtained by dropping only white space and starts with a non-space |
| Text.TrimEnd | backend/src/middleware/validation.ts:29 | the result is a prefix obtained by dropping only white space and ends with a non-space |
| Text.TrimIsSlice | backend/src/middleware/validation.ts:29 | `Trim` (`trim()`) keeps one contiguous slice, drops only white space around it, and the slice has no white space at either end |
| Text.TrimIdempotent | backend/src/middleware/validation.ts:18 | trimming twice is trimming once |
| Text.TrimEmptyIff | backend/src/middleware/validation.ts:29 | a string trims to empty exactly when it is all white space, so such content fails the length rule |
| Text.ToLower | backend/src/services/aiService.ts:164 | lower-casing keeps the length and lower-cases each character |
| Text.ToLowerIdempotent | backend/src/services/aiService.ts:164 | lower-casing twice is lower-casing once |
| Text.ContainsIff | backend/src/services/aiService.ts:176 | `Contains` (`includes`) holds exactly when some window of the text equals the word |
| Text.Split | backend/src/middleware/auth.ts:15 | `split(' ')` yields at least one piece, no piece contains the separator, and there is one piece exactly when the separator is absent |
| Text.SplitAfter | backend/src/middleware/auth.ts:15 | a separator-free first piece splits off as the first part |
| Text.JoinSplit | backend/src/middleware/auth.ts:15 | joining the pieces back gives the original string |
| Text.Take | backend/src/routes/flags.ts:58 | `substring(0, n)` is the prefix of length min(n, length) |
| Paging.OrDefault | backend/src/routes/posts.ts:48-49 | a missing, unparsable or zero query parameter gives the fallback, and any other value is used as given |
| Paging.TotalPages | backend/src/routes/posts.ts:95 | the page count is the least n with n·limit ≥ count |
| Paging.Window | backend/src/routes/posts.ts:84-85 | OFFSET/LIMIT yields the rows from the offset on, at most `limit` of them, in order |
| Paging.Paginate | backend/src/routes/posts.ts:48-97 | page defaults to 1 and offset is (page−1)·limit; a negative window is refused; the listing reports the total, page count and current page |
| Paging.PageOfRow | backend/src/routes/posts.ts:84-95 | row k is item k mod limit of page k div limit + 1, and that page is within the page count |
| Paging.NewestFirst | backend/src/routes/posts.ts:83 | only kept positions are selected, in strictly decreasing store order (creation time descending) |
| Paging.NewestFirstComplete | backend/src/routes/posts.ts:83 | every kept position is selected |
| Paging.Select | backend/src/routes/posts.ts:69-86 | the selection lists the records at the given positions |
| Paging.SelectKept | backend/src/routes/flags.ts:69-87 | every record that passes the filter appears in the newest-first listing of the store |
| Risk.Hits | backend/src/services/aiService.ts:176 | the keyword count never exceeds the list length |
| Risk.HitsCountsDistinctWords | backend/src/services/aiService.ts:161-183 | with a repeat-free list the count is the number of distinct listed words that occur, so a repeated word counts once |
| Risk.HitsZeroIff | backend/src/services/aiService.ts:176-177 | the count is zero exactly when no listed word occurs in the text |
| Risk.ToxicCount | backend/src/services/aiService.ts:161-176 | at most five toxic words match |
| Risk.SpamCount | backend/src/services/aiService.ts:162-183 | at most four spam phrases match |
| Risk.MaxOf | backend/src/services/aiService.ts:189 | `Math.max` of a non-empty list is an element of it and bounds every element |
| Risk.Heuristic | backend/src/services/aiService.ts:165-187 | the score table has exactly the six categories; `toxicity` is labelled iff a toxic word matched and `spam` iff a spam phrase matched, toxicity first, each at most once |
| Risk.HeuristicRisk | backend/src/services/aiService.ts:189 | the overall risk is the largest category score, lies in [0, 0.9], and is 0 exactly when nothing matched |
| Risk.HeuristicOverall | backend/src/services/aiService.ts:166-189 | the overall risk equals the larger of the toxicity and spam scores |
| Risk.HeuristicKeywordScores | backend/src/services/aiService.ts:176-187 | `ToxicityScore` is min(0.3·toxic hits, 0.9) and `SpamScore` is min(0.4·spam hits, 0.8), each 0 without a hit |
| Risk.HeuristicOtherScores | backend/src/services/aiService.ts:166-173 | hate_speech, harassment, violence and sexual_content always score 0 |
| Risk.MockTextAnalysis | backend/src/services/aiService.ts:159-197 | building the result by pushes and assignments yields exactly the heuristic's labels, scores and risk |
| Risk.ThresholdsMonotone | backend/src/services/aiService.ts:218-226 | `ShouldAutoRemove` and `ShouldFlag` (`shouldAutoRemove`, `shouldFlag`) are inclusive and monotone in the risk; with ordered thresholds, removal implies flagging |
| Risk.HeuristicUnderDefaults | backend/src/services/aiService.ts:176-226 | under the default thresholds 0.9/0.6, the heuristic removes exactly at three toxic hits and flags exactly at two toxic hits or two spam phrases |
| Risk.FromReply | backend/src/services/aiService.ts:65-70 | missing labels, scores or risk default to [], {} and 0; present ones are used as given |
| Risk.UseReply | backend/src/services/aiService.ts:65-88 | a reply is used exactly when the provider answered and, if it is to be stored, its risk is in [0, 1]; a used reply gives its fields, with missing labels, scores and risk defaulting to none, none and 0; a record is stored exactly for a used reply with a post id and carries that reply's kind, post, labels, scores and risk; anything else falls back with no record |
| Risk.AnalyzeText | backend/src/services/aiService.ts:30-88 | with no classifier the result is the heuristic's and nothing is stored; with one, a usable reply is the result and is stored when a post id is given, and an unusable one (failure, or an out-of-range risk to be stored) gives the heuristic with no record |
| Risk.MockImage | backend/src/services/aiService.ts:199-216 | the placeholder has one label from its three, scores nudity/violence/inappropriate, and a risk that is their maximum and below 0.2 |
| Risk.AnalyzeImage | backend/src/services/aiService.ts:91-156 | with no classifier the result is the placeholder's; with one, a usable reply is the result and is stored as an image record when a post id is given, and an unusable one gives the placeholder with no record |
| Risk.MockImageNeverRemoves | backend/src/services/aiService.ts:204-221 | the placeholder never reaches an auto-remove threshold of 0.2 or more |
| Validation.HandleValidationErrors | backend/src/middleware/validation.ts:4-13 | the request proceeds exactly when there are no errors; otherwise 400 "Validation failed" with them |
| Validation.Rule | backend/src/middleware/validation.ts:17 | a rule yields its one error exactly when it fails |
| Validation.ValidatePost | backend/src/middleware/validation.ts:28-31 | content passes exactly when its trimmed length is 1..2000; the handler gets it trimmed; otherwise the one content error |
| Validation.ValidatedContentFitsSchema | backend/src/models/Post.ts:45-51 | content that passes the validator fits the Post schema's 1..2000 bound |
| Validation.TrimOptional | backend/src/middleware/validation.ts:36 | an optional field stays absent when absent and is trimmed when present |
| Validation.FlagErrors | backend/src/middleware/validation.ts:33-38 | each of the three flag rules reports its error exactly when it fails |
| Validation.ValidateFlag | backend/src/middleware/validation.ts:33-38 | a flag passes exactly with a post id that `IsUuid` accepts (8-4-4-4-12 hexadecimal digits, either case), one of the eight categories and a trimmed reason of at most 500; every failing rule is reported |
| Validation.ValidateModerationAction | backend/src/middleware/validation.ts:40-44 | an action passes exactly when it is approve/remove/escalate with a reason of at most 500; each failure is reported |
| Validation.ValidateRegistration | backend/src/middleware/validation.ts:15-20 | registration passes exactly with a valid email, a password of at least 6 and a trimmed name of 2..100; each failure is reported |
| Validation.RegistrationFitsSchema | backend/src/models/User.ts:57-71 | a validated registration gives a user the User schema accepts |
| Validation.ValidateLogin | backend/src/middleware/validation.ts:22-26 | login passes exactly with a valid email and a non-empty password |
| Validation.ValidateProfileUpdate | backend/src/routes/users.ts:41-44 | the optional name must trim to 2..100 and the optional email must be valid; the name is passed on trimmed |
| Validation.ValidateRole | backend/src/routes/users.ts:115-117 | a role passes exactly when it is user, moderator or admin; otherwise the one "Invalid role" error |
| Auth.IssuedClaims | backend/src/routes/auth.ts:55 | issued tokens carry the user's id under `id` and the role name, and nothing under `userId` or `sub` |
| Auth.HeaderToken | backend/src/middleware/auth.ts:13-17 | a header token exists exactly when the header starts with "Bearer ", and it is the second space-separated segment |
| Auth.ExtractToken | backend/src/middleware/auth.ts:13-27 | the non-empty header token wins, then the `token` cookie, then the `jwt` cookie; none gives no token |
| Auth.SelectUserId | backend/src/middleware/auth.ts:39-41 | the user id is `id`, else `userId`, else `sub`, taking the first one present |
| Auth.Authenticate | backend/src/middleware/auth.ts:10-62 | no token gives 401 "token missing"; a failed verification gives 401 "invalid token"; a verified token whose id (`id ?? userId ?? sub`) is stored attaches that user; a truthy id that is not stored gives 401 "user not found"; a verified token with no truthy id attaches its bare claims; every refusal is 401 |
| Auth.IssuedTokenAuthenticates | backend/src/middleware/auth.ts:13-56 | a bearer token issued at login authenticates as the user it was issued to |
| Auth.PrincipalRole | backend/src/middleware/auth.ts:69 | the role checked is the stored user's role, or the bare claims' role |
| Auth.RequireRole | backend/src/middleware/auth.ts:64-75 | no principal gives 401; a missing or unlisted role gives 403; the gate passes exactly for a listed role |
| Auth.RoleGates | backend/src/routes/moderation.ts:17 | a stored user passes the moderator gate iff they are not a plain user, and the admin gate iff they are an admin |
| Realtime.RoomNameInjective | backend/src/config/socket.ts:39-47 | distinct rooms have distinct names |
| Realtime.RoomsFor | backend/src/config/socket.ts:39-47 | a connection joins its own room, `moderators` iff it is staff, `admins` iff it is an admin, and nothing else |
| Realtime.RoomCounts | backend/src/config/socket.ts:39-47 | a plain user joins one room, a moderator two, an admin three |
| Realtime.AuthenticateSocketAsWritten | backend/src/config/socket.ts:13-33 | the handshake as written: no token or a bad token is an authentication error; a user is looked up by the `userId` claim only |
| Realtime.IssuedTokenRefusedAsWritten | backend/src/config/socket.ts:20-21 | as written, every token that login or registration issues is refused with "User not found" |
| Realtime.AuthenticateSocket | backend/src/config/socket.ts:13-33 | the corrected handshake reads the id as the HTTP middleware does; an accepted user is stored under that id |
| Realtime.IssuedTokenAccepted | backend/src/config/socket.ts:20-28 | with the corrected lookup, an issued token connects as its user |
| Realtime.HandshakeExtendsAsWritten | backend/src/config/socket.ts:20-28 | the correction accepts, as the same user, every token without an `id` claim that the original accepts |
| Realtime.EmitToModerators | backend/src/config/socket.ts:58-60 | the emission goes to the moderators room only |
| Realtime.EmitToUser | backend/src/config/socket.ts:62-64 | the emission goes to that user's room only |
| Realtime.EmitToAdmins | backend/src/config/socket.ts:66-68 | the emission goes to the admins room only |
| Realtime.Audience | backend/src/config/socket.ts:58-68 | an emission reaches exactly the connections that joined its room |
| Realtime.AudienceByRole | backend/src/config/socket.ts:39-68 | moderator emissions reach exactly staff connections, admin emissions exactly admin connections, and user emissions exactly that user's connections |
| Realtime.Hub.Connect | backend/src/config/socket.ts:13-52 | runs the corrected handshake `AuthenticateSocket` of the Findings row, not socket.ts:20-21 as written; an accepted connection is appended with the rooms its connect-time role calls for; a rejected one changes nothing |
| Realtime.Hub.Deliver | backend/src/config/socket.ts:58-68 | an emission reaches exactly the registered connections in its room |
| Store.IndexOf | backend/src/routes/posts.ts:212 | the first position of a value, or none exactly when it is absent |
| Store.FindPost | backend/src/routes/posts.ts:212-216 | `findByPk` finds a post with that id, or none exactly when no post has it |
| Store.FindFlag | backend/src/routes/moderation.ts:141-159 | `findByPk` finds the first flag with that id, or none exactly when no flag has it |
| Store.FindFlagFirst | backend/src/routes/moderation.ts:141-159 | the first position holding the id is the one found |
| Store.PostOf | backend/src/routes/flags.ts:74-84 | a flag's included post is a stored post with that id, or none exactly when there is none |
| Store.AuthorName | backend/src/routes/flags.ts:57 | `post.author?.name` is the stored author's name, present exactly when the author is stored |
| Store.FindPostUnique | backend/src/models/Post.ts:32-36 | with unique ids, the found position is the one holding the id |
| Store.FindFlagUnique | backend/src/models/Flag.ts:36-40 | with unique ids, the found position is the one holding the id |
| Store.RemoveAt | backend/src/routes/posts.ts:258 | `destroy()` removes exactly that position and keeps the other posts in order |
| Store.LogCountAppend | backend/src/routes/moderation.ts:176-181 | appending an entry adds one to its flag's log count and nothing to the others |
| Store.LogCountZero | backend/src/models/ModerationLog.ts:45-52 | a flag's log count is zero exactly when no entry refers to it |
| Store.SaveUserKeepsConsistent | backend/src/models/User.ts:57-93 | saving a user under its key, with a non-negative reputation and an email no other account holds, keeps the database consistent |
| Store.SavePostKeepsConsistent | backend/src/models/Post.ts:45-51 | saving a valid post with the same id, plus valid analyses, keeps the database consistent |
| Store.EmptyConsistent | backend/src/models/User.ts:57-64 | the empty database is consistent |
| Store.AddPostKeepsPosts | backend/src/models/Post.ts:32-51 | storing a valid post under a fresh id keeps ids unique and content valid |
| Store.AddAnalysisKeepsValid | backend/src/models/AIAnalysis.ts:64-71 | adding analysis records with risk in [0, 1] keeps every risk in range |
| Store.AddPendingFlagKeepsLogs | backend/src/routes/flags.ts:31-49 | a new pending flag under a fresh id, for a pair without a flag, keeps one flag per user and post and the audit matching the flags |
| Store.ResolveFlagKeepsLogs | backend/src/routes/moderation.ts:166-181 | resolving a pending flag and logging its action gives it exactly one entry, whose action its status records |
| Posts.MediaUrl | backend/src/routes/posts.ts:153 | an upload is served under `/uploads/`; no upload gives no media |
| Posts.Recorded | backend/src/services/aiService.ts:72-82 | an assessment's record, if any, is appended, and valid records keep the analyses valid |
| Posts.AutoFlag | backend/src/routes/posts.ts:170-178 | the routing's flag is pending, of category `other`, with the fixed reason, raised in the author's name |
| Posts.ImageAssessment | backend/src/routes/posts.ts:180-189 | an image is assessed exactly when the post has media, and any record it stores is valid |
| Posts.CreatePost | backend/src/routes/posts.ts:151-207 | creating a post emits nothing and touches neither users nor the audit log |
| Posts.CreatePostOutcome | backend/src/middleware/validation.ts:4-31 | content the validator rejects gets 400 "Validation failed" with its errors, and nothing is stored, scored or emitted; accepted content always gets 201 |
| Posts.CreatePostRecords | backend/src/routes/posts.ts:151-182 | the created post carries `/uploads/<file>` or no media URL, and the analysis store gains the text record, if one was made, then the image record, if there is media and one was made |
| Posts.Publish | backend/src/routes/posts.ts:155-206 | publishing emits nothing and touches neither users nor the audit log |
| Posts.PublishRecords | backend/src/routes/posts.ts:155-188 | the stored post keeps the media URL, and each assessment's record, if any, is appended in turn |
| Posts.CreatePostRouting | backend/src/routes/posts.ts:164-206 | a valid post is always created with 201; it is removed iff `RemovedOnCreate` (the text or image reaches the removal threshold); exactly one flag is added iff `FlaggedOnCreate` (the text reaches review but not removal) |
| Posts.CreatePostFlagOrRemove | backend/src/routes/posts.ts:167-188 | a post is never both auto-removed by its text and flagged, and the image score never adds a flag |
| Posts.CreatePostUnderHeuristic | backend/src/routes/posts.ts:163-178 | without a classifier, under the default thresholds, a post is removed iff it has three or more toxic words and flagged iff it has two, or two or more spam phrases below that |
| Posts.PlaceholderImageNeverRemoves | backend/src/routes/posts.ts:180-189 | without a classifier the image placeholder never removes a post under a threshold of 0.2 or more |
| Posts.CreatePostKeepsConsistent | backend/src/routes/posts.ts:151-207 | creating a post under unused ids keeps the database consistent |
| Posts.EditPost | backend/src/routes/posts.ts:210-244 | an edit emits nothing, changes no flag, user or log entry, gives 404 for an unknown post, and a refusal changes nothing |
| Posts.EditPostAllowed | backend/src/routes/posts.ts:213-221 | an edit succeeds exactly for valid content on an existing post, when `MayManage` holds: the caller is its author or an admin |
| Posts.EditPostSaved | backend/src/routes/posts.ts:223-231 | a successful edit stores the validated content in that post and appends the new analysis record, if any |
| Posts.EditPostEffect | backend/src/routes/posts.ts:223-231 | a successful edit replaces that post's content, keeps its status, id and author, and leaves every other post alone |
| Posts.EditPostKeepsConsistent | backend/src/routes/posts.ts:210-244 | an edit keeps the database consistent |
| Posts.DeletePost | backend/src/routes/posts.ts:247-260 | a delete emits nothing, changes only the posts, and a refusal changes nothing |
| Posts.DeletePostEffect | backend/src/routes/posts.ts:248-259 | 404 for an unknown post, 403 unless `MayManage` (author or admin); otherwise that post is gone and every other post is kept |
| Posts.DeletePostKeepsConsistent | backend/src/routes/posts.ts:247-260 | a delete keeps the database consistent |
| Posts.FlagCount | backend/src/routes/posts.ts:92 | a post's flag count never exceeds the number of flags |
| Posts.FeedRows | backend/src/routes/posts.ts:55-67 | every feed row is a stored post that `Listed` (through `ListedBy`) admits: active, matching the search in any letter case, and by the author when one is given |
| Posts.FeedRowsComplete | backend/src/routes/posts.ts:55-67 | every stored post the filter admits has a feed row |
| Posts.FeedItems | backend/src/routes/posts.ts:89-94 | each row is the post with the number of flags against it |
| Posts.Feed | backend/src/routes/posts.ts:47-99 | the corrected feed of the Findings row: a page reports the number of admitted posts as its total and lists only admitted posts |
| Posts.JoinedCount | backend/src/routes/posts.ts:69-86 | the row count over the posts joined with their flags is at least the number of posts, and equals it exactly when no post has two flags or more |
| Posts.FeedAsWritten | backend/src/routes/posts.ts:69-97 | the feed as written lists the same page, but reports the joined row count as its total and derives the page count from it |
| Posts.FeedAsWrittenOvercounts | backend/src/routes/posts.ts:69-97 | the as-written total is never below the number of listed posts, and exceeds it exactly when a listed post has two flags or more |
| Posts.FeedNewestFirst | backend/src/routes/posts.ts:83 | rows further down the feed were stored earlier |
| Posts.SearchIgnoresCase | backend/src/routes/posts.ts:59-63 | a search text and its lower-case form list the same posts |
| Flags.Preview | backend/src/routes/flags.ts:58 | the preview is the first 100 characters followed by "...", and the ellipsis is added even to short content |
| Flags.NewFlagEvent | backend/src/routes/flags.ts:52-59 | the event goes to the moderators room with the flag id, post id, category name, flagger name, author name and preview |
| Flags.CreateFlag | backend/src/routes/flags.ts:13-65 | flagging changes only the flags, and a refusal changes nothing and emits nothing |
| Flags.CreateFlagOutcome | backend/src/routes/flags.ts:27-61 | 400 with the validation errors, 404 for an unknown post, 400 for a repeated flag (`HasFlagBy`: the caller already flagged the post), and success exactly otherwise |
| Flags.CreateFlagEffect | backend/src/routes/flags.ts:44-64 | a stored flag is pending, raised by the caller with the given post, category and trimmed reason, appended to the flags, with exactly one new-flag event to the moderators |
| Flags.FlagOnlyOnce | backend/src/routes/flags.ts:31-41 | after a user's flag on a post is stored, their next flag on that post is refused with 400 and changes nothing |
| Flags.CreateFlagKeepsConsistent | backend/src/routes/flags.ts:13-65 | flagging under an unused id keeps the database consistent |
| Flags.MyFlags | backend/src/routes/flags.ts:68-89 | every listed flag is a stored flag raised by the caller, shown with its post |
| Flags.Views | backend/src/routes/flags.ts:73-85 | each flag is shown with its included post |
| Flags.MyFlagsComplete | backend/src/routes/flags.ts:69-72 | every flag the caller raised is listed |
| Flags.MyFlagsNewestFirst | backend/src/routes/flags.ts:86 | flags further down the list were stored earlier |
| Moderation.NewReputation | backend/src/routes/moderation.ts:184-194 | approve adds 5, escalate keeps the score, remove subtracts 10 but never goes below 0, and a non-negative score stays non-negative |
| Moderation.ActionEvent | backend/src/routes/moderation.ts:197-204 | the event goes to the author's own room with the action, post id, reason and moderator name |
| Moderation.Resolve | backend/src/routes/moderation.ts:166-207 | an accepted action succeeds and leaves the analyses alone |
| Moderation.TakeAction | backend/src/routes/moderation.ts:137-229 | a refused request changes nothing and notifies nobody |
| Moderation.TakeActionOutcome | backend/src/routes/moderation.ts:157-163 | 403 for a plain user, 400 with validation errors, 404 for an unknown flag, 400 "already processed" for a non-pending flag, and success exactly for staff with a valid action on a pending flag |
| Moderation.AcceptedIsResolve | backend/src/routes/moderation.ts:141-166 | an accepted request is the validated action applied to the flag's position |
| Moderation.ResolveFlagAndLog | backend/src/routes/moderation.ts:165-207 | the reply is 200 with `ActedMessage` ("Flag <action>d successfully") and the updated flag; the flag takes its action's status, no other flag changes, and exactly one entry (moderator, flag, action, trimmed reason) is appended |
| Moderation.ResolvePosts | backend/src/routes/moderation.ts:170-173 | only `remove` touches a post, and only the flagged one, which becomes `removed`; every post keeps its place, id, author and content |
| Moderation.ResolveAuthor | backend/src/routes/moderation.ts:184-204 | when the post and author are stored, the author's reputation follows the rule and the author alone is notified; otherwise no user changes and nobody is notified |
| Moderation.SecondActionRefused | backend/src/routes/moderation.ts:161-163 | after an accepted action, any later valid action on that flag is refused with 400 and changes nothing |
| Moderation.ProcessedRefused | backend/src/routes/moderation.ts:161-163 | a staff action on a non-pending flag is refused with 400 "Flag has already been processed" and changes nothing |
| Moderation.ResolveKeepsConsistent | backend/src/routes/moderation.ts:166-194 | an accepted action keeps the database consistent |
| Moderation.ResolveKeepsUsers | backend/src/routes/moderation.ts:184-194 | the user store stays keyed, with unique emails and non-negative reputations |
| Moderation.ResolveKeepsPosts | backend/src/routes/moderation.ts:170-173 | post ids stay unique and contents valid |
| Moderation.ResolveKeepsFlags | backend/src/routes/moderation.ts:166-181 | flag ids stay unique, one flag per user and post, and the audit matches the flags |
| Moderation.TakeActionKeepsConsistent | backend/src/routes/moderation.ts:137-229 | every action request keeps the database consistent |
| Moderation.FlaggerUntouched | backend/src/routes/moderation.ts:184-194 | the flagger's reputation is unchanged unless they wrote the post |
| Moderation.ParseFilter | backend/src/routes/moderation.ts:23-31 | a missing status means `pending`, `all` means no filter, and other values filter by that status or are unknown |
| Moderation.LatestAnalysisAt | backend/src/routes/moderation.ts:57-62 | the latest analysis for a post is at a position holding that post's analysis, or there is none exactly when no analysis exists |
| Moderation.LatestAnalysis | backend/src/routes/moderation.ts:57-79 | the row's analysis is the post's most recently stored one, or none exactly when there is none |
| Moderation.QueueItemOf | backend/src/routes/moderation.ts:45-79 | a queue row holds the flag, its stored post, the author name, the flagger when stored, and the post's latest analysis |
| Moderation.QueueRows | backend/src/routes/moderation.ts:28-31 | every queue row's flag is stored and admitted by the filter |
| Moderation.QueueRowsComplete | backend/src/routes/moderation.ts:28-31 | every admitted flag has a row |
| Moderation.Items | backend/src/routes/moderation.ts:76-80 | one row per flag, in order |
| Moderation.PendingCount | backend/src/routes/moderation.ts:84 | the pending count never exceeds the number of flags |
| Moderation.Queue | backend/src/routes/moderation.ts:20-86 | a plain user gets 403; an unknown status gives a database error; a listing is returned only to staff with a known filter |
| Moderation.PendingRowsCount | backend/src/routes/moderation.ts:84 | the pending filter selects exactly as many flags as the pending count |
| Moderation.DefaultQueueCountsPending | backend/src/routes/moderation.ts:23-85 | with the default filter, the queue total equals the pending count |
| Moderation.QueueNewestFirst | backend/src/routes/moderation.ts:41-42 | rows further down the queue hold flags stored earlier |
| Users.PostCountBy | backend/src/routes/users.ts:23-25 | a user's post count never exceeds the number of posts |
| Users.FlagCountBy | backend/src/routes/users.ts:27-29 | a user's flag count never exceeds the number of flags |
| Users.Profile | backend/src/routes/users.ts:13-37 | 404 exactly for an unknown user; otherwise the public view plus the user's post and flag counts |
| Users.FlagCountByIsSelection | backend/src/routes/users.ts:27-29 | a user's flag count equals the size of the selection of their flags |
| Users.ProfileCountsMyFlags | backend/src/routes/users.ts:27-29 | the profile counts exactly the flags that user's `my-flags` listing shows |
| Users.Edited | backend/src/routes/users.ts:59-70 | the email is replaced when a non-empty one is given and the name when one is given; id, role, reputation, hash and OAuth fields stay |
| Users.UpdateProfile | backend/src/routes/users.ts:41-75 | a profile edit emits nothing, changes only users, and a refusal changes nothing |
| Users.UpdateProfileOutcome | backend/src/routes/users.ts:49-64 | 400 with validation errors, 403 unless the caller is that user or an admin, 404 for an unknown user, 400 for an email another account holds (`EmailTaken`), and success exactly otherwise |
| Users.UpdateProfileEffect | backend/src/routes/users.ts:59-74 | a saved edit changes that user only, with the given email and trimmed name, and keeps role, reputation and hash; the reply is the public view |
| Users.UpdateProfileKeepsConsistent | backend/src/routes/users.ts:59-72 | an edit keeps the database consistent, so no two accounts share an email |
| Users.UpdateRole | backend/src/routes/users.ts:115-134 | a role change emits nothing, changes only users, and a refusal changes nothing |
| Users.UpdateRoleEffect | backend/src/routes/users.ts:115-134 | only an admin passes; success is exactly a valid role for a stored user; it sets that role on that user alone |
| Users.UpdateRoleKeepsConsistent | backend/src/routes/users.ts:122-128 | a role change keeps the database consistent |
| Notifications.Unread | src/contexts/SocketContext.tsx:42 | the unread count is zero exactly when every notification is read |
| Notifications.MarkedRead | src/contexts/SocketContext.tsx:44-48 | marking keeps the length and order, sets read on the entries with that id, and leaves the others |
| Notifications.Added | src/contexts/SocketContext.tsx:54-62 | the new notification goes first, followed by a prefix of the earlier ones, with at most 100 kept |
| Notifications.MarkedReadUnread | src/contexts/SocketContext.tsx:42-48 | marking never raises the unread count, changes nothing when no unread entry has that id, and leaves the marked entries read |
| Notifications.MarkedReadIdempotent | src/contexts/SocketContext.tsx:44-48 | marking the same id twice is marking it once |
| Notifications.AddedUnread | src/contexts/SocketContext.tsx:42-62 | a new unread notification raises the unread count by one while fewer than 100 are kept |
| Notifications.Inbox.constructor | src/contexts/SocketContext.tsx:39 | the list starts empty |
| Notifications.Inbox.UnreadCount | src/contexts/SocketContext.tsx:42 | `unreadCount` is zero exactly when every kept notification is read |
| Notifications.Inbox.MarkAsRead | src/contexts/SocketContext.tsx:44-48 | the list becomes the marked list, and the unread count does not grow |
| Notifications.Inbox.ClearAll | src/contexts/SocketContext.tsx:50-52 | the list becomes empty and nothing is unread |
| Notifications.Inbox.AddNotification | src/contexts/SocketContext.tsx:54-62 | a new unread notification named by the clock goes first; below 100 entries the earlier ones follow unchanged and the unread count grows by one |
| Notifications.Inbox.OnNewFlag | src/contexts/SocketContext.tsx:85-93 | only a moderator's or admin's browser adds a notification, whose text is `NewFlagMessage` ("New content flagged: " and the reason) |
| Notifications.Inbox.OnModerationAction | src/contexts/SocketContext.tsx:95-101 | every browser adds a notification whose text is `ActionMessage` ("Moderation action: " and the action) |
| Reputation.ReputationLevel | src/pages/ProfilePage.tsx:69-85 | 1000 or more is Excellent, 500 to 999 Good, 100 to 499 Fair, below 100 New, and a missing score counts as 0 |
| Reputation.ReputationBadge | src/pages/ProfilePage.tsx:69-74 | the badge pairs each level's name with its colour: Excellent purple, Good green, Fair yellow, New grey (`LevelName`, `LevelColor`) |
| Reputation.LevelsDistinguishable | src/pages/ProfilePage.tsx:69-74 | distinct levels show distinct names and distinct colours |
| Reputation.ReputationLevelMonotone | src/pages/ProfilePage.tsx:69-74 | a higher score never shows a lower level |
| Database.Database.InsertPost | backend/src/routes/posts.ts:155-160 | only the posts change, by appending the new post |
| Database.Database.SavePost | backend/src/routes/posts.ts:168 | only the post at that position is replaced |
| Database.Database.DestroyPost | backend/src/routes/posts.ts:258 | only that post is removed |
| Database.Database.InsertFlag | backend/src/routes/flags.ts:44-49 | only the flags change, by appending the new flag |
| Database.Database.SaveFlag | backend/src/routes/moderation.ts:166-167 | only the flag at that position is replaced |
| Database.Database.InsertLog | backend/src/routes/moderation.ts:176-181 | only the audit log changes, by appending the entry |
| Database.Database.SaveUser | backend/src/routes/moderation.ts:193 | only that user is replaced |
| Database.Database.RecordAnalysis | backend/src/services/aiService.ts:72-82 | only the analyses change, by the assessment's record if any |
| Database.Database.CreatePost | backend/src/routes/posts.ts:151-207 | the new state and reply are those of `Posts.CreatePost`, nothing is emitted, and consistency is kept under unused ids |
| Database.Database.Publish | backend/src/routes/posts.ts:155-206 | the new state and reply are those of `Posts.Publish` |
| Database.Database.ActOnText | backend/src/routes/posts.ts:163-178 | the text assessment is recorded; the post is removed at the removal threshold, or else gets one flag at the review threshold |
| Database.Database.ActOnImage | backend/src/routes/posts.ts:180-189 | with an image assessment, it is recorded and the post is removed at the removal threshold; otherwise nothing changes |
| Database.Database.EditPost | backend/src/routes/posts.ts:210-244 | the new state and reply are those of `Posts.EditPost`, and consistency is kept |
| Database.Database.DeletePost | backend/src/routes/posts.ts:247-260 | the new state and reply are those of `Posts.DeletePost`, and consistency is kept |
| Database.Database.CreateFlag | backend/src/routes/flags.ts:13-65 | the new state, reply and emissions are those of `Flags.CreateFlag`, and consistency is kept under an unused id |
| Database.Database.TakeAction | backend/src/routes/moderation.ts:137-229 | the new state, reply and emissions are those of `Moderation.TakeAction`, and consistency is kept |
| Database.Database.Apply | backend/src/routes/moderation.ts:165-207 | the step-by-step saves end in the state, reply and emissions of `Moderation.Resolve` |
| Database.Database.UpdateProfile | backend/src/routes/users.ts:45-75 | the new state and reply are those of `Users.UpdateProfile`, and consistency is kept |
| Database.Database.UpdateRole | backend/src/routes/users.ts:118-134 | the new state and reply are those of `Users.UpdateRole`, and consistency is kept |

## Left out

- Floating point: scores and thresholds are exact reals. In JavaScript, 3 × 0.3 is 0.8999999999999999, so three toxic words fall just below the default 0.9. The model's exact arithmetic removes such a post.
- Environment parsing of the thresholds (`parseFloat` of the two variables) is not modelled. The thresholds are a parameter, and `DefaultThresholds` holds 0.9 and 0.6.
- The classifier calls themselves: the HTTP request, the prompts and JSON parsing. A `Classifier` value stands for them: `Unavailable`, or `Configured` with its answers to the text and image requests. A failure is one of those answers.
- The `raw_response` of a provider reply is kept as an opaque string.
- `Math.random` in the image placeholder becomes four draws in [0, 1), given as a parameter.
- JWT signing and verification: a verifier function gives the claims of a good token and nothing otherwise.
- bcrypt hashing: a comparison function is a parameter of `Models.ValidatePassword`.
- `setPassword` is not modelled. Registration and login (`backend/src/routes/auth.ts`) are modelled only through the claims their tokens carry (`Auth.IssuedClaims`).
- `isEmail()` is a predicate parameter. `normalizeEmail()` is not modelled: an email is stored as given.
- `toLowerCase` lower-cases ASCII letters only. Unicode case mapping is not modelled.
- `Flags.Preview` cuts at 100 characters, counted as Unicode code points. JavaScript's `substring(0, 100)` counts UTF-16 code units, so content with characters outside the Basic Multilingual Plane (emoji, for instance) gets a different preview in the source.
- `Store.FindPost`, `Store.FindFlag` and `Store.HasFlagBy` compare ids exactly. The validator accepts upper-case UUIDs and a Postgres `uuid` column matches ids whatever their letter case, so an upper-case id that the source finds is not found here.
- `ILIKE` treats `%` and `_` in the search text as wildcards. The model treats them as literal characters.
- Database-level behaviour is not modelled: cascades on delete, foreign-key checks, transactions and concurrent requests. Each request is one atomic step. A non-atomic sequence of saves that another request interleaves with is not modelled.
- Database errors are not modelled (the 500 from the error handler), except the two the model names: an unknown status filter in the queue and a negative OFFSET/LIMIT.
- Timestamps are not fields. Each store keeps records in creation order, and `ORDER BY created_at DESC` reads it backwards.
- Generated ids (post, flag, log entry and analysis UUIDs) are parameters that no record uses yet.
- The client notification id `Date.now()` is a parameter.
- The try/catch around the analysis in the post-creation handler is modelled by the scoring functions never failing. An exception raised elsewhere inside that block is not modelled.
- `Database.Database.Publish`: the method computes both assessments before it stores the post, where the handler stores the post first. Nothing in the state depends on that order.
- Multer uploads (file type and size checks) are not modelled. An upload is the stored file name, or nothing.
- `GET /posts/:id`, `GET /moderation/:flagId`, `GET /moderation/logs`, the admin user listing, `routes/ai.ts` and `routes/analytics.ts` are not part of this model.
- The queue's `risk_score` and `priority` sort orders are not modelled. The queue is listed newest first, which is the default order.
- Feed entries (`Posts.FeedItem`) and flag-history entries (`Flags.FlagView`) leave out the author fields the source includes: the author's id, name and role in the feed (`backend/src/routes/posts.ts:72-76`), and the post author's id and name in the flag history (`backend/src/routes/flags.ts:77-83`). The moderation queue keeps the author name (`Moderation.QueueItem`).
- The socket lifecycle is not modelled: disconnects, the client's connect and close effects, and the generic `notification` event.
- Toasts and all rendering are not modelled.
- Request and connection rate limits, CORS and server wiring are not modelled.
- The real-time channel's delivery is modelled by which connections a room reaches, not by message transport.
- Automatic flagging during post creation emits no `moderation:new-flag` event. The model follows the handler, which emits none.
- `Realtime.Hub.Connect` runs the corrected handshake `Realtime.AuthenticateSocket` of the Findings row, not `backend/src/config/socket.ts:20-21` as written. As written, the hub would accept no token that login or registration issues. `Realtime.AuthenticateSocketAsWritten` models that handshake separately.
- The handlers (`Posts`, `Flags`, `Moderation`, `Users`, and the `Database.Database` methods) take the caller as a stored `User`. The middleware can also attach the bare claims of a verified token that has no `id`, `userId` or `sub` (`Auth.Principal.Bare`). If such claims carry the role `moderator` or `admin`, they pass `requireRole`. The moderation action handler would then save the flag, and the post on `remove`, before `ModerationLog.create` fails on the missing moderator id. That leaves a resolved flag with no audit entry, which `Store.LogsMatchFlags` rules out. This path is not modelled: a token of that shape is never issued by the application.

## Findings

| source | as written | input that shows it | evidently intended | confidence | as-written member | corrected member |
|---|---|---|---|---|---|---|
| backend/src/config/socket.ts:20-21 | the handshake looks the user up by `decoded.userId` | any token from login or registration: `backend/src/routes/auth.ts:27,55` signs `{ id, role }`, so `userId` is undefined and the connection is refused with "User not found" | read the id as the HTTP middleware does (`id`, then `userId`, then `sub`), so issued tokens connect | not executed | Realtime.AuthenticateSocketAsWritten, Realtime.IssuedTokenRefusedAsWritten | Realtime.AuthenticateSocket, Realtime.IssuedTokenAccepted |
| backend/src/routes/posts.ts:69-97 | `Post.findAndCountAll` includes the has-many `flags` association without `distinct: true`, so `count` is taken over the posts joined with their flags, and `total` and `totalPages` come from that count | one active post flagged by two users gives `total` 2 for one listed post; ten active posts, one of them flagged twice, with limit 10 give `total` 11 and `totalPages` 2, where the second page is empty | `total` is the number of listed posts and `totalPages` is derived from it | not executed; rests on Sequelize's documented count over includes | Posts.FeedAsWritten, Posts.FeedAsWrittenOvercounts | Posts.Feed |
