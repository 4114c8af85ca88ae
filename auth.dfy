/**
 * The HTTP authentication middleware: where the bearer token comes from, how a verified
 * token is resolved to a stored user, and the role gate in front of privileged routes.
 * Token verification (the JWT signature and expiry check) is a parameter: it yields the
 * claims of a good token and nothing for a bad one.
 */
module Auth {
  import opened Wrappers
  import opened Models
  import Text

  /** The claims of a verified token that the backend reads. */
  datatype Claims = Claims(id: Option<string>, userId: Option<string>, sub: Option<string>, role: Option<string>)

  /** The claims login and registration put into the tokens they issue: the user's id and role. */
  function IssuedClaims(u: User): (c: Claims)
    ensures c.id == Some(u.id) && c.role == Some(RoleName(u.role))
    ensures c.userId.None? && c.sub.None?
  {
    Claims(Some(u.id), None, None, Some(RoleName(u.role)))
  }

  /** What `req.user` holds once authentication passed: a stored user, or the bare claims of a token without an id. */
  datatype Principal = Account(user: User) | Bare(claims: Claims)

  datatype Outcome = Authenticated(principal: Principal) | Refused(code: nat, message: string)

  const BearerPrefix: string := "Bearer "

  /** The token of an `Authorization: Bearer <token>` header: the second space-separated segment. */
  function HeaderToken(header: Option<string>): (t: Option<string>)
    ensures t.Some? <==> header.Some? && BearerPrefix <= header.value
    ensures t.Some? ==> |Text.Split(header.value, ' ')| > 1 && t.value == Text.Split(header.value, ' ')[1]
    ensures t.Some? ==> t.value <= header.value[|BearerPrefix|..] && ' ' !in t.value
  {
    if header.Some? && BearerPrefix <= header.value then
      var rest := header.value[|BearerPrefix|..];
      assert header.value == "Bearer" + [' '] + rest;
      Text.SplitAfter("Bearer", rest, ' ');
      Some(Text.Split(header.value, ' ')[1])
    else None
  }

  /**
   * The token the middleware goes on with: the header token when it is non-empty, else the
   * `token` cookie, else the `jwt` cookie; empty strings count as missing.
   */
  function ExtractToken(header: Option<string>, cookieToken: Option<string>, cookieJwt: Option<string>): (t: Option<string>)
    ensures t.Some? ==> t.value != ""
    ensures t.None? <==> !Truthy(HeaderToken(header)) && !Truthy(cookieToken) && !Truthy(cookieJwt)
    ensures Truthy(HeaderToken(header)) ==> t == HeaderToken(header)
    ensures !Truthy(HeaderToken(header)) && Truthy(cookieToken) ==> t == cookieToken
    ensures !Truthy(HeaderToken(header)) && !Truthy(cookieToken) && Truthy(cookieJwt) ==> t == cookieJwt
  {
    var h := HeaderToken(header);
    if Truthy(h) then h
    else if Truthy(cookieToken) then cookieToken
    else if Truthy(cookieJwt) then cookieJwt
    else None
  }

  /** `payload.id ?? payload.userId ?? payload.sub`: the first claim that is present, even when empty. */
  function SelectUserId(c: Claims): (r: Option<string>)
    ensures r.None? <==> c.id.None? && c.userId.None? && c.sub.None?
    ensures c.id.Some? ==> r == c.id
    ensures c.id.None? && c.userId.Some? ==> r == c.userId
    ensures c.id.None? && c.userId.None? ==> r == c.sub
  {
    if c.id.Some? then c.id else if c.userId.Some? then c.userId else c.sub
  }

  const TokenMissing: string := "Unauthorized: token missing"
  const TokenInvalid: string := "Unauthorized: invalid token"
  const UserNotFound: string := "Unauthorized: user not found"

  /** `authenticateToken`: find the token, verify it, and resolve its user id against the user store. */
  function Authenticate(header: Option<string>, cookieToken: Option<string>, cookieJwt: Option<string>,
                        verify: string -> Option<Claims>, users: map<Id, User>): (o: Outcome)
    ensures ExtractToken(header, cookieToken, cookieJwt).None? ==> o == Refused(401, TokenMissing)
    ensures o.Refused? ==> o.code == 401
    ensures o.Authenticated? ==>
              var t := ExtractToken(header, cookieToken, cookieJwt);
              t.Some? && verify(t.value).Some?
              && (o.principal.Account? <==> Truthy(SelectUserId(verify(t.value).value)))
              && (o.principal.Account? ==> var id := SelectUserId(verify(t.value).value).value;
                                           id in users && o.principal.user == users[id])
              && (o.principal.Bare? ==> o.principal.claims == verify(t.value).value)
    ensures var t := ExtractToken(header, cookieToken, cookieJwt);
            t.Some? && verify(t.value).None? ==> o == Refused(401, TokenInvalid)
    ensures var t := ExtractToken(header, cookieToken, cookieJwt);
            (t.Some? && verify(t.value).Some? && Truthy(SelectUserId(verify(t.value).value))
             && SelectUserId(verify(t.value).value).value !in users) ==> o == Refused(401, UserNotFound)
    ensures var t := ExtractToken(header, cookieToken, cookieJwt);
            (t.Some? && verify(t.value).Some? && Truthy(SelectUserId(verify(t.value).value))
             && SelectUserId(verify(t.value).value).value in users)
            ==> o == Authenticated(Account(users[SelectUserId(verify(t.value).value).value]))
    ensures var t := ExtractToken(header, cookieToken, cookieJwt);
            (t.Some? && verify(t.value).Some? && !Truthy(SelectUserId(verify(t.value).value)))
            ==> o == Authenticated(Bare(verify(t.value).value))
  {
    match ExtractToken(header, cookieToken, cookieJwt)
    case None => Refused(401, TokenMissing)
    case Some(token) =>
      match verify(token)
      case None => Refused(401, TokenInvalid)
      case Some(claims) =>
        var id := SelectUserId(claims);
        if Truthy(id) then
          if id.value in users then Authenticated(Account(users[id.value])) else Refused(401, UserNotFound)
        else Authenticated(Bare(claims))
  }

  /**
   * A token that login or registration issued, sent as `Bearer <token>`, authenticates as
   * the user it was issued to.
   */
  lemma IssuedTokenAuthenticates(u: User, token: string, verify: string -> Option<Claims>, users: map<Id, User>,
                                 cookieToken: Option<string>, cookieJwt: Option<string>)
    requires u.id != "" && u.id in users && users[u.id] == u
    requires token != "" && ' ' !in token && verify(token) == Some(IssuedClaims(u))
    ensures Authenticate(Some(BearerPrefix + token), cookieToken, cookieJwt, verify, users) == Authenticated(Account(u))
  {
    var header := BearerPrefix + token;
    assert header == "Bearer" + [' '] + token;
    Text.SplitAfter("Bearer", token, ' ');
    assert Text.Split(token, ' ') == [token];
    assert HeaderToken(Some(header)) == Some(token);
  }

  /** The role `requireRole` reads from `req.user`. */
  function PrincipalRole(p: Principal): (r: Option<string>)
    ensures p.Account? ==> r == Some(RoleName(p.user.role))
    ensures p.Bare? ==> r == p.claims.role
  {
    match p
    case Account(u) => Some(RoleName(u.role))
    case Bare(c) => c.role
  }

  datatype Gate = Pass | Deny(code: nat, message: string)

  const AuthenticationRequired: string := "Authentication required"
  const InsufficientPermissions: string := "Insufficient permissions"

  /** `requireRole(roles)`: 401 without a principal, 403 unless its role is one of `roles`. */
  function RequireRole(p: Option<Principal>, roles: seq<string>): (g: Gate)
    ensures g.Pass? <==> p.Some? && Truthy(PrincipalRole(p.value)) && PrincipalRole(p.value).value in roles
    ensures p.None? ==> g == Deny(401, AuthenticationRequired)
    ensures p.Some? && !g.Pass? ==> g == Deny(403, InsufficientPermissions)
  {
    match p
    case None => Deny(401, AuthenticationRequired)
    case Some(q) =>
      var role := PrincipalRole(q);
      if Truthy(role) && role.value in roles then Pass else Deny(403, InsufficientPermissions)
  }

  /** The gate of the moderation routes. */
  const StaffRoles: seq<string> := ["moderator", "admin"]

  /** A stored user passes the moderator gate exactly when they are a moderator or an admin, and the admin gate only as an admin. */
  lemma RoleGates(u: User)
    ensures RequireRole(Some(Account(u)), StaffRoles).Pass? <==> u.role != Member
    ensures RequireRole(Some(Account(u)), ["admin"]).Pass? <==> u.role == Admin
  {
  }
}
