/**
 * The persisted records of the moderation backend (users, posts, flags, moderation log
 * entries, AI analyses), their closed enumerations with the exact strings the database
 * stores, the defaults applied on creation, and the bounds the schema validates.
 * Timestamps are not fields: every store keeps its records in creation order instead.
 */
module Models {
  import opened Wrappers

  /** Record identities (UUID strings). */
  type Id = string

  /** A JavaScript truthy string: present and non-empty. */
  predicate Truthy(o: Option<string>) {
    o.Some? && o.value != ""
  }

  // ---------------------------------------------------------------- enumerations

  /** `user | moderator | admin`. */
  datatype Role = Member | Moderator | Admin

  function RoleName(r: Role): string {
    match r
    case Member => "user"
    case Moderator => "moderator"
    case Admin => "admin"
  }

  function ParseRole(s: string): (r: Option<Role>)
    ensures r.Some? <==> s in {"user", "moderator", "admin"}
    ensures r.Some? ==> RoleName(r.value) == s
  {
    if s == "user" then Some(Member)
    else if s == "moderator" then Some(Moderator)
    else if s == "admin" then Some(Admin)
    else None
  }

  lemma ParseRoleName(r: Role)
    ensures ParseRole(RoleName(r)) == Some(r)
  {
  }

  /** `active | removed | pending`. */
  datatype PostStatus = PostActive | PostRemoved | PostPending

  function PostStatusName(s: PostStatus): string {
    match s
    case PostActive => "active"
    case PostRemoved => "removed"
    case PostPending => "pending"
  }

  /** The eight reasons a flag may give. */
  datatype Category = Spam | Harassment | HateSpeech | Violence | Nudity | Misinformation | Copyright | Other

  function CategoryName(c: Category): string {
    match c
    case Spam => "spam"
    case Harassment => "harassment"
    case HateSpeech => "hate-speech"
    case Violence => "violence"
    case Nudity => "nudity"
    case Misinformation => "misinformation"
    case Copyright => "copyright"
    case Other => "other"
  }

  const CategoryNames: set<string> :=
    {"spam", "harassment", "hate-speech", "violence", "nudity", "misinformation", "copyright", "other"}

  function ParseCategory(s: string): (r: Option<Category>)
    ensures r.Some? <==> s in CategoryNames
    ensures r.Some? ==> CategoryName(r.value) == s
  {
    if s == "spam" then Some(Spam)
    else if s == "harassment" then Some(Harassment)
    else if s == "hate-speech" then Some(HateSpeech)
    else if s == "violence" then Some(Violence)
    else if s == "nudity" then Some(Nudity)
    else if s == "misinformation" then Some(Misinformation)
    else if s == "copyright" then Some(Copyright)
    else if s == "other" then Some(Other)
    else None
  }

  lemma ParseCategoryName(c: Category)
    ensures ParseCategory(CategoryName(c)) == Some(c)
  {
  }

  /** `pending | approved | removed | escalated`; only `pending` is not terminal. */
  datatype FlagStatus = Pending | Approved | Removed | Escalated

  function FlagStatusName(s: FlagStatus): string {
    match s
    case Pending => "pending"
    case Approved => "approved"
    case Removed => "removed"
    case Escalated => "escalated"
  }

  function ParseFlagStatus(s: string): (r: Option<FlagStatus>)
    ensures r.Some? <==> s in {"pending", "approved", "removed", "escalated"}
    ensures r.Some? ==> FlagStatusName(r.value) == s
  {
    if s == "pending" then Some(Pending)
    else if s == "approved" then Some(Approved)
    else if s == "removed" then Some(Removed)
    else if s == "escalated" then Some(Escalated)
    else None
  }

  /** `approve | remove | escalate`. */
  datatype ModAction = Approve | Remove | Escalate

  function ActionName(a: ModAction): string {
    match a
    case Approve => "approve"
    case Remove => "remove"
    case Escalate => "escalate"
  }

  function ParseAction(s: string): (r: Option<ModAction>)
    ensures r.Some? <==> s in {"approve", "remove", "escalate"}
    ensures r.Some? ==> ActionName(r.value) == s
  {
    if s == "approve" then Some(Approve)
    else if s == "remove" then Some(Remove)
    else if s == "escalate" then Some(Escalate)
    else None
  }

  /** The terminal flag status an accepted moderation action leads to. */
  function Resolution(a: ModAction): (s: FlagStatus)
    ensures s != Pending
    ensures FlagStatusName(s) == ActionName(a) + "d"
  {
    match a
    case Approve => Approved
    case Remove => Removed
    case Escalate => Escalated
  }

  /** Distinct actions lead to distinct terminal states, so a resolved flag tells which action resolved it. */
  lemma ResolutionInjective(a: ModAction, b: ModAction)
    ensures Resolution(a) == Resolution(b) ==> a == b
  {
  }

  /** `text | image`. */
  datatype AnalysisKind = TextAnalysis | ImageAnalysis

  // ---------------------------------------------------------------- records

  datatype User = User(
    id: Id,
    email: string,
    name: string,
    role: Role,
    passwordHash: Option<string>,
    oauthProvider: Option<string>,
    oauthId: Option<string>,
    reputation: int)

  /** A user as the API shows it: every attribute but the password hash. */
  datatype PublicUser = PublicUser(
    id: Id,
    email: string,
    name: string,
    role: Role,
    oauthProvider: Option<string>,
    oauthId: Option<string>,
    reputation: int)

  datatype Post = Post(
    id: Id,
    authorId: Id,
    content: string,
    mediaUrl: Option<string>,
    status: PostStatus)

  datatype Flag = Flag(
    id: Id,
    postId: Id,
    flaggedBy: Id,
    category: Category,
    reasonText: Option<string>,
    status: FlagStatus)

  /** One audit entry; it carries only a creation time, which the log order stands for. */
  datatype LogEntry = LogEntry(
    id: Id,
    moderatorId: Id,
    flagId: Id,
    action: ModAction,
    notes: Option<string>)

  /** The stored provider output: opaque, kept for audit only. */
  datatype RawResponse = MockResponse(note: string) | ProviderResponse(body: string)

  datatype AnalysisRecord = AnalysisRecord(
    postId: Id,
    kind: AnalysisKind,
    raw: RawResponse,
    labels: seq<string>,
    scores: map<string, real>,
    overallRisk: real)

  // ---------------------------------------------------------------- creation defaults

  /** A user as registration creates it: role `user`, reputation 0. */
  function NewUser(id: Id, email: string, name: string, passwordHash: Option<string>): (u: User)
    ensures u.role == Member && u.reputation == 0
    ensures u.id == id && u.email == email && u.name == name && u.passwordHash == passwordHash
    ensures u.oauthProvider.None? && u.oauthId.None?
  {
    User(id, email, name, Member, passwordHash, None, None, 0)
  }

  /** A post as creation stores it: status `active`. */
  function NewPost(id: Id, authorId: Id, content: string, mediaUrl: Option<string>): (p: Post)
    ensures p.status == PostActive
    ensures p.id == id && p.authorId == authorId && p.content == content && p.mediaUrl == mediaUrl
  {
    Post(id, authorId, content, mediaUrl, PostActive)
  }

  /** A flag as creation stores it: status `pending`. */
  function NewFlag(id: Id, postId: Id, flaggedBy: Id, category: Category, reasonText: Option<string>): (f: Flag)
    ensures f.status == Pending
    ensures f.id == id && f.postId == postId && f.flaggedBy == flaggedBy
    ensures f.category == category && f.reasonText == reasonText
  {
    Flag(id, postId, flaggedBy, category, reasonText, Pending)
  }

  /** An analysis record; `labels` defaults to the empty list. */
  function NewAnalysisRecord(postId: Id, kind: AnalysisKind, raw: RawResponse, labels: Option<seq<string>>,
                             scores: map<string, real>, overallRisk: real): (a: AnalysisRecord)
    ensures labels.None? ==> a.labels == []
    ensures labels.Some? ==> a.labels == labels.value
    ensures a.postId == postId && a.kind == kind && a.scores == scores && a.overallRisk == overallRisk
  {
    AnalysisRecord(postId, kind, raw, labels.GetOr([]), scores, overallRisk)
  }

  // ---------------------------------------------------------------- schema bounds

  /** Post content holds 1 to 2000 characters. */
  predicate ValidPost(p: Post) {
    1 <= |p.content| <= 2000
  }

  /** A user name holds 2 to 100 characters and the email is a valid address. */
  predicate ValidUser(u: User, isEmail: string -> bool) {
    2 <= |u.name| <= 100 && isEmail(u.email)
  }

  /** An analysis record's overall risk lies in [0, 1]. */
  predicate ValidRisk(r: real) {
    0.0 <= r <= 1.0
  }

  predicate ValidAnalysis(a: AnalysisRecord) {
    ValidRisk(a.overallRisk)
  }

  // ---------------------------------------------------------------- behaviour on the User record

  /** `toJSON`: the public view of a user. */
  function ToPublic(u: User): (p: PublicUser)
    ensures p.id == u.id && p.email == u.email && p.name == u.name && p.role == u.role
    ensures p.oauthProvider == u.oauthProvider && p.oauthId == u.oauthId && p.reputation == u.reputation
  {
    PublicUser(u.id, u.email, u.name, u.role, u.oauthProvider, u.oauthId, u.reputation)
  }

  /** The public view does not depend on the password hash, whatever it is. */
  lemma ToPublicHidesHash(u: User, h: Option<string>)
    ensures ToPublic(u.(passwordHash := h)) == ToPublic(u)
  {
  }

  /**
   * `validatePassword`: with no stored hash, or an empty one, the answer is `false`;
   * otherwise it is what the hash comparison (`bcrypt.compare`, a parameter here) says.
   */
  function ValidatePassword(u: User, candidate: string, compare: (string, string) -> bool): (ok: bool)
    ensures u.passwordHash.None? || u.passwordHash == Some("") ==> !ok
    ensures u.passwordHash.Some? && u.passwordHash.value != "" ==> (ok <==> compare(candidate, u.passwordHash.value))
  {
    match u.passwordHash
    case None => false
    case Some(h) => h != "" && compare(candidate, h)
  }
}
