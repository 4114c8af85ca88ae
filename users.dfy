/**
 * The user routes: the public profile with its post and flag counts, the self-or-admin
 * profile edit with the unique-email check, and the admin-only role change. Every reply
 * shows a user through the public view, without the password hash. Email normalisation
 * is not modelled: an email is stored as given.
 */
module Users {
  import opened Wrappers
  import opened Models
  import opened Store
  import opened Api
  import Auth
  import Paging
  import Validation
  import Text
  import Flags

  const UserNotFound: string := "User not found"
  const NotYourProfile: string := "Not authorized to update this profile"
  const EmailInUse: string := "Email already in use"
  const RoleUpdated: string := "User role updated successfully"

  // ---------------------------------------------------------------- the profile

  /** How many posts `id` wrote. */
  function PostCountBy(posts: seq<Post>, id: Id): (n: nat)
    ensures n <= |posts|
  {
    if posts == [] then 0
    else PostCountBy(posts[..|posts| - 1], id) + (if posts[|posts| - 1].authorId == id then 1 else 0)
  }

  /** How many flags `id` raised. */
  function FlagCountBy(flags: seq<Flag>, id: Id): (n: nat)
    ensures n <= |flags|
  {
    if flags == [] then 0
    else FlagCountBy(flags[..|flags| - 1], id) + (if flags[|flags| - 1].flaggedBy == id then 1 else 0)
  }

  datatype ProfileView = ProfileView(user: PublicUser, posts: nat, flags: nat)

  /** `GET /users/:id`: 404 for an unknown user; otherwise the public view and the user's post and flag counts. */
  function Profile(db: Db, id: Id): (r: Reply<ProfileView>)
    ensures r.Failure? <==> id !in db.users
    ensures r.Failure? ==> r == Failure(404, UserNotFound, [])
    ensures r.Success? ==> r.value.user == ToPublic(db.users[id])
                           && r.value.posts == PostCountBy(db.posts, id) && r.value.flags == FlagCountBy(db.flags, id)
  {
    if id !in db.users then Failure(404, UserNotFound, [])
    else Success(200, "", ProfileView(ToPublic(db.users[id]), PostCountBy(db.posts, id), FlagCountBy(db.flags, id)))
  }

  /** The selection `my-flags` and the queue use, restricted to the first `n` flags, has as many entries as the user raised there. */
  lemma {:induction false} FlagCountByIsSelection(flags: seq<Flag>, id: Id, n: nat)
    requires n <= |flags|
    ensures |Paging.NewestFirst(flags, Flags.RaisedBy(id), n)| == FlagCountBy(flags[..n], id)
  {
    if n > 0 {
      FlagCountByIsSelection(flags, id, n - 1);
      assert flags[..n][..n - 1] == flags[..n - 1];
    }
  }

  /** A user's profile counts exactly the flags their `my-flags` listing shows. */
  lemma ProfileCountsMyFlags(db: Db, me: User)
    requires me.id in db.users
    ensures Profile(db, me.id).value.flags == |Flags.MyFlags(db, me)|
  {
    FlagCountByIsSelection(db.flags, me.id, |db.flags|);
    assert db.flags[..|db.flags|] == db.flags;
  }

  // ---------------------------------------------------------------- profile edits

  /** The stored user after an edit: the email replaced when a different one is given, the name when one is given. */
  function Edited(u: User, name: Option<string>, email: Option<string>): (u': User)
    ensures u'.id == u.id && u'.role == u.role && u'.reputation == u.reputation && u'.passwordHash == u.passwordHash
    ensures u'.oauthProvider == u.oauthProvider && u'.oauthId == u.oauthId
    ensures u'.email == if Truthy(email) then email.value else u.email
    ensures u'.name == if Truthy(name) then name.value else u.name
  {
    var withEmail := if Truthy(email) && email.value != u.email then u.(email := email.value) else u;
    if Truthy(name) then withEmail.(name := name.value) else withEmail
  }

  /**
   * `PATCH /users/:id`: validate; 403 unless the caller is that user or an admin; 404 for
   * an unknown user; 400 when the new email differs from the current one and another
   * account holds it; otherwise save the edit and answer with the public view.
   */
  function UpdateProfile(db: Db, me: User, id: Id, name: Option<string>, email: Option<string>, isEmail: string -> bool): (s: Step<PublicUser>)
    ensures s.emitted == [] && s.db.posts == db.posts && s.db.flags == db.flags && s.db.logs == db.logs && s.db.analyses == db.analyses
    ensures s.reply.Failure? ==> s.db == db
  {
    match Validation.ValidateProfileUpdate(name, email, isEmail)
    case Invalid(errors) => Invalid(db, errors)
    case Valid(v) =>
      if me.id != id && me.role != Admin then Refuse(db, 403, NotYourProfile)
      else if id !in db.users then Refuse(db, 404, UserNotFound)
      else
        var u := db.users[id];
        if Truthy(v.1) && v.1.value != u.email && EmailTaken(db.users, v.1.value) then Refuse(db, 400, EmailInUse)
        else
          var u' := Edited(u, v.0, v.1);
          Step(db.(users := db.users[id := u']), Success(200, "", ToPublic(u')), [])
  }

  /**
   * Which answer an edit gets: 400 with the validation errors, 403 for someone else's
   * profile unless an admin asks, 404 for an unknown user, 400 for an email another account
   * holds, and 200 otherwise.
   */
  lemma UpdateProfileOutcome(db: Db, me: User, id: Id, name: Option<string>, email: Option<string>, isEmail: string -> bool)
    ensures var s := UpdateProfile(db, me, id, name, email, isEmail);
            var v := Validation.ValidateProfileUpdate(name, email, isEmail);
            var mayEdit := me.id == id || me.role == Admin;
            var clash := id in db.users && Truthy(email) && email.value != db.users[id].email && EmailTaken(db.users, email.value);
            (v.Invalid? ==> s.reply == Failure(400, "Validation failed", v.errors))
            && (v.Valid? && !mayEdit ==> s.reply == Failure(403, NotYourProfile, []))
            && (v.Valid? && mayEdit && id !in db.users ==> s.reply == Failure(404, UserNotFound, []))
            && (v.Valid? && mayEdit && clash ==> s.reply == Failure(400, EmailInUse, []))
            && (s.reply.Success? <==> v.Valid? && mayEdit && id in db.users && !clash)
  {
  }

  /**
   * A saved edit changes that one user only: the email becomes the given one when given, the
   * name the trimmed given one when given; id, role, reputation and password stay. The reply
   * is the saved user's public view.
   */
  lemma UpdateProfileEffect(db: Db, me: User, id: Id, name: Option<string>, email: Option<string>, isEmail: string -> bool)
    ensures var s := UpdateProfile(db, me, id, name, email, isEmail);
            s.reply.Success? ==>
              id in db.users && s.db.users.Keys == db.users.Keys
              && (forall u :: u in db.users && u != id ==> s.db.users[u] == db.users[u])
              && s.db.users[id].email == (if Truthy(email) then email.value else db.users[id].email)
              && s.db.users[id].name == (if name.Some? then Text.Trim(name.value) else db.users[id].name)
              && s.db.users[id].role == db.users[id].role && s.db.users[id].reputation == db.users[id].reputation
              && s.db.users[id].passwordHash == db.users[id].passwordHash
              && s.reply.value == ToPublic(s.db.users[id])
  {
    var s := UpdateProfile(db, me, id, name, email, isEmail);
    if s.reply.Success? {
      var v := Validation.ValidateProfileUpdate(name, email, isEmail);
      assert v.Valid? && id in db.users;
      var trimmed := Validation.TrimOptional(name);
      assert v.value == (trimmed, email);
      var u' := Edited(db.users[id], trimmed, email);
      assert s.db.users == db.users[id := u'] && s.reply.value == ToPublic(u');
      if name.Some? {
        assert Truthy(trimmed) by {
          assert 2 <= |Text.Trim(name.value)|;
        }
      }
    }
  }

  /** An edit keeps the user store consistent: in particular no two accounts ever share an email. */
  lemma {:induction false} UpdateProfileKeepsConsistent(db: Db, me: User, id: Id, name: Option<string>, email: Option<string>, isEmail: string -> bool)
    requires Consistent(db)
    ensures Consistent(UpdateProfile(db, me, id, name, email, isEmail).db)
  {
    var s := UpdateProfile(db, me, id, name, email, isEmail);
    if s.reply.Success? {
      var v := Validation.ValidateProfileUpdate(name, email, isEmail).value;
      var u := db.users[id];
      var u' := Edited(u, v.0, v.1);
      assert s.db == db.(users := db.users[id := u']);
      forall other | other in db.users && other != id
        ensures db.users[other].email != u'.email
      {
        if u'.email != u.email {
          assert !EmailTaken(db.users, u'.email);
        }
      }
      SaveUserKeepsConsistent(db, id, u');
    }
  }

  // ---------------------------------------------------------------- role changes

  /**
   * `PATCH /users/:id/role`: the admin gate (401/403), the validator (400), 404 for an
   * unknown user; otherwise that user's role is replaced.
   */
  function UpdateRole(db: Db, me: Option<Auth.Principal>, id: Id, role: Option<string>): (s: Step<PublicUser>)
    ensures s.emitted == [] && s.db.posts == db.posts && s.db.flags == db.flags && s.db.logs == db.logs && s.db.analyses == db.analyses
    ensures s.reply.Failure? ==> s.db == db
  {
    match Auth.RequireRole(me, ["admin"])
    case Deny(code, message) => Refuse(db, code, message)
    case Pass =>
      match Validation.ValidateRole(role)
      case Invalid(errors) => Invalid(db, errors)
      case Valid(r) =>
        if id !in db.users then Refuse(db, 404, UserNotFound)
        else
          var u' := db.users[id].(role := r);
          Step(db.(users := db.users[id := u']), Success(200, RoleUpdated, ToPublic(u')), [])
  }

  /**
   * Only a stored admin changes roles; a successful change sets the named role on that one
   * user and changes nothing else about any user.
   */
  lemma UpdateRoleEffect(db: Db, admin: User, id: Id, role: Option<string>)
    ensures var s := UpdateRole(db, Some(Auth.Account(admin)), id, role);
            (admin.role != Admin ==> s.reply == Failure(403, Auth.InsufficientPermissions, []))
            && (s.reply.Success? <==> admin.role == Admin && Validation.ValidateRole(role).Valid? && id in db.users)
            && (s.reply.Success? ==>
                  s.reply.message == RoleUpdated
                  && s.db.users == db.users[id := db.users[id].(role := Validation.ValidateRole(role).value)]
                  && RoleName(s.db.users[id].role) == role.value)
  {
    Auth.RoleGates(admin);
  }

  lemma UpdateRoleKeepsConsistent(db: Db, me: Option<Auth.Principal>, id: Id, role: Option<string>)
    requires Consistent(db)
    ensures Consistent(UpdateRole(db, me, id, role).db)
  {
    var s := UpdateRole(db, me, id, role);
    if s.reply.Success? {
      var u' := db.users[id].(role := Validation.ValidateRole(role).value);
      assert s.db == db.(users := db.users[id := u']);
      SaveUserKeepsConsistent(db, id, u');
    }
  }
}
