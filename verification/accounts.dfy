/** User accounts: the request validators, sign-up, login, the
    authentication gates (`api/auth.py`) and the account management
    endpoints (`api/users.py`), as transitions over the user table. */
module Accounts {
  import opened Wrappers
  import opened Security

  /** A row of the `users` table. `lastLogin` is a time in microseconds. */
  datatype Account = Account(
    id: int,
    username: string,
    email: string,
    hashedPassword: string,
    role: string,
    isActive: bool,
    isAdmin: bool,
    lastLogin: Option<int>)

  /** The `users` table keyed by primary key. */
  type Users = map<int, Account>

  predicate KeysAreIds(t: Users) {
    forall id :: id in t ==> t[id].id == id
  }

  /** The unique constraints of the `username` and `email` columns. */
  predicate UniqueNames(t: Users) {
    && (forall a, b :: a in t && b in t && t[a].username == t[b].username ==> a == b)
    && (forall a, b :: a in t && b in t && t[a].email == t[b].email ==> a == b)
  }

  /** `is_admin` mirrors `role == "admin"`. */
  predicate AdminFlagsAgree(t: Users) {
    forall id :: id in t ==> t[id].isAdmin == (t[id].role == Admin)
  }

  /** What every transition keeps. */
  predicate Valid(t: Users) {
    KeysAreIds(t) && UniqueNames(t) && AdminFlagsAgree(t)
  }

  /** Every row but `id` is as it was. */
  predicate OthersUnchanged(t: Users, t': Users, id: int) {
    forall x :: x in t && x != id ==> x in t' && t'[x] == t[x]
  }

  /** Python truthiness of an optional text field. */
  predicate Truthy(s: Option<string>) {
    s.Some? && s.value != ""
  }

  predicate UsernameTaken(t: Users, name: string) {
    exists id :: id in t && t[id].username == name
  }

  predicate EmailTaken(t: Users, email: string) {
    exists id :: id in t && t[id].email == email
  }

  const UserNotFound := HttpError(NotFound, "User not found")

  /** Another row shares the username or the email of row `id`. */
  predicate Clashes(t: Users, id: int)
    requires id in t
  {
    exists x :: x in t && x != id && (t[x].username == t[id].username || t[x].email == t[id].email)
  }

  /** `db.commit()` of a written row `id`: when the row breaks a unique
      constraint the database raises an integrity error, answered with 500,
      and nothing is stored. */
  function Commit(t: Users, id: int): (r: Result<Users>)
    requires id in t
    ensures r.Ok? <==> !Clashes(t, id)
    ensures r.Ok? ==> r.value == t
    ensures r.Err? ==> r.error == Uncaught
  {
    if Clashes(t, id) then Err(Uncaught) else Ok(t)
  }

  /** Writing a row that clashes with no other keeps the names unique. */
  lemma WriteKeepsUnique(t: Users, id: int, a: Account)
    requires UniqueNames(t)
    requires !Clashes(t[id := a], id)
    ensures UniqueNames(t[id := a])
  {
  }

  /** Writing a row without touching its username and email keeps the
      names unique. */
  lemma SameNamesKeepUnique(t: Users, id: int, a: Account)
    requires UniqueNames(t) && id in t
    requires a.username == t[id].username && a.email == t[id].email
    ensures UniqueNames(t[id := a])
  {
  }

  // =====================================================================
  // Request validators

  const UsernameLengthMessage := "Username must be between 3 and 50 characters"
  const RoleChoiceMessage := "Role must be one of: viewer, user, admin"

  /** `UserCreate.validate_username`. */
  function ValidateUsername(name: string): (r: Result<string>)
    ensures r.Ok? <==> 3 <= |name| <= 50
    ensures r.Ok? ==> r.value == name
    ensures r.Err? ==> r.error == HttpError(UnprocessableEntity, UsernameLengthMessage)
  {
    if |name| < 3 || |name| > 50 then Err(HttpError(UnprocessableEntity, UsernameLengthMessage))
    else Ok(name)
  }

  /** The `role` field of a sign-up request: left out (the field default
      `"user"` applies and is not validated), sent as `null`, or given. */
  datatype RoleField = Omitted | Null | Given(role: string)

  /** `UserCreate.validate_role`: only the three role names pass; an
      explicit `null` does not. */
  function ValidateCreateRole(field: RoleField): (r: Result<string>)
    ensures r.Ok? <==> field.Omitted? || (field.Given? && IsRole(field.role))
    ensures r.Ok? ==> IsRole(r.value)
    ensures field.Omitted? ==> r == Ok(User)
    ensures field.Given? && r.Ok? ==> r.value == field.role
    ensures r.Err? ==> r.error == HttpError(UnprocessableEntity, RoleChoiceMessage)
  {
    match field
    case Omitted => Ok(User)
    case Null => Err(HttpError(UnprocessableEntity, RoleChoiceMessage))
    case Given(role) =>
      if IsRole(role) then Ok(role) else Err(HttpError(UnprocessableEntity, RoleChoiceMessage))
  }

  /** `UserUpdate.validate_role`: an absent or empty role passes. */
  function ValidateUpdateRole(role: Option<string>): (r: Result<Option<string>>)
    ensures r.Err? <==> Truthy(role) && !IsRole(role.value)
    ensures r.Ok? ==> r.value == role
    ensures r.Err? ==> r.error == HttpError(UnprocessableEntity, RoleChoiceMessage)
  {
    if Truthy(role) && !IsRole(role.value) then Err(HttpError(UnprocessableEntity, RoleChoiceMessage))
    else Ok(role)
  }

  /** The update validator lets through every role the create validator
      accepts, and also an absent or empty one. */
  lemma UpdateRoleAcceptsCreateRoles(role: string)
    ensures ValidateCreateRole(Given(role)).Ok? ==> ValidateUpdateRole(Some(role)).Ok?
    ensures ValidateUpdateRole(Some("")).Ok? && ValidateCreateRole(Given("")).Err?
  {
  }

  // =====================================================================
  // Authentication gates

  const CredentialsError := HttpError(Unauthorized, "Could not validate credentials")
  const InactiveUser := HttpError(BadRequest, "Inactive user")
  const AdminRequired := HttpError(Forbidden, "Not enough permissions. Admin access required.")

  /** `get_current_user`: `payload` is what `decode_access_token` returned
      for the bearer token (`None` for a bad or expired token). */
  function CurrentUser(t: Users, payload: Option<Claims>): (r: Result<Account>)
    requires UniqueNames(t)
    ensures r.Ok? <==> payload.Some? && payload.value.sub.Some? && UsernameTaken(t, payload.value.sub.value)
    ensures r.Ok? ==> r.value in t.Values && r.value.username == payload.value.sub.value
    ensures r.Err? ==> r.error == CredentialsError
  {
    if payload.None? || payload.value.sub.None? then Err(CredentialsError)
    else
      var name := payload.value.sub.value;
      if UsernameTaken(t, name) then
        var id :| id in t && t[id].username == name;
        Ok(t[id])
      else Err(CredentialsError)
  }

  /** `get_current_active_user`. */
  function CurrentActiveUser(t: Users, payload: Option<Claims>): (r: Result<Account>)
    requires UniqueNames(t)
    ensures r.Ok? <==> CurrentUser(t, payload).Ok? && CurrentUser(t, payload).value.isActive
    ensures r.Ok? ==> r.value == CurrentUser(t, payload).value
    ensures CurrentUser(t, payload).Err? ==> r == CurrentUser(t, payload)
    ensures CurrentUser(t, payload).Ok? && r.Err? ==> r.error == InactiveUser
  {
    var user :- CurrentUser(t, payload);
    if user.isActive then Ok(user) else Err(InactiveUser)
  }

  /** `get_current_admin_user`. */
  function CurrentAdminUser(t: Users, payload: Option<Claims>): (r: Result<Account>)
    requires UniqueNames(t)
    ensures r.Ok? ==> r.value.isActive && r.value.role == Admin && r.value in t.Values
    ensures r.Ok? ==> CurrentActiveUser(t, payload).Ok? && r.value == CurrentActiveUser(t, payload).value
    ensures CurrentActiveUser(t, payload).Err? ==> r == CurrentActiveUser(t, payload)
    ensures CurrentActiveUser(t, payload).Ok? ==>
              (r.Ok? <==> CurrentActiveUser(t, payload).value.role == Admin)
    ensures CurrentActiveUser(t, payload).Ok? && r.Err? ==> r.error == AdminRequired
  {
    var user :- CurrentActiveUser(t, payload);
    if CheckPermission(user.role, Admin) then Ok(user) else Err(AdminRequired)
  }

  /** The admin gate on a token naming user `id`: that user when an active
      admin, otherwise the refusal of the first gate that fails. */
  lemma AdminGateFor(t: Users, payload: Option<Claims>, id: int)
    requires UniqueNames(t) && id in t
    requires payload.Some? && payload.value.sub == Some(t[id].username)
    ensures CurrentAdminUser(t, payload) ==
              if !t[id].isActive then Err(InactiveUser)
              else if t[id].role != Admin then Err(AdminRequired)
              else Ok(t[id])
  {
    var u := CurrentUser(t, payload);
    assert UsernameTaken(t, t[id].username);
    assert u.Ok? && u.value == t[id] by {
      var v := u.value;
      assert v in t.Values && v.username == t[id].username;
      var x :| x in t && t[x] == v;
    }
  }

  /** A token that names no user, or none at all, gets 401 from the admin
      gate. */
  lemma AdminGateRefusesStrangers(t: Users, payload: Option<Claims>)
    requires UniqueNames(t)
    requires payload.None? || payload.value.sub.None? || !UsernameTaken(t, payload.value.sub.value)
    ensures CurrentAdminUser(t, payload) == Err(CredentialsError)
  {
  }

  // =====================================================================
  // Sign-up

  const UsernameRegistered := HttpError(BadRequest, "Username already registered")
  const EmailRegistered := HttpError(BadRequest, "Email already registered")

  /** `signup` after request validation: duplicate username, then duplicate
      email, then password strength; `newId` is the id the database hands
      out. */
  function Signup(t: Users, h: PasswordHasher, newId: int,
                  username: string, email: string, password: string, role: RoleField): (r: Result<Users>)
    requires Valid(t) && newId !in t
    ensures ValidateUsername(username).Err? ==> r == Err(ValidateUsername(username).error)
    ensures ValidateUsername(username).Ok? && ValidateCreateRole(role).Err? ==>
              r == Err(ValidateCreateRole(role).error)
    ensures ValidateUsername(username).Ok? && ValidateCreateRole(role).Ok? ==>
              && (UsernameTaken(t, username) ==> r == Err(UsernameRegistered))
              && (!UsernameTaken(t, username) && EmailTaken(t, email) ==> r == Err(EmailRegistered))
              && (!UsernameTaken(t, username) && !EmailTaken(t, email) && !Strong(password) ==>
                    r == Err(HttpError(BadRequest, ValidatePasswordStrength(password).message)))
    ensures r.Ok? <==>
              && ValidateUsername(username).Ok? && ValidateCreateRole(role).Ok?
              && !UsernameTaken(t, username) && !EmailTaken(t, email) && Strong(password)
    ensures r.Ok? ==>
              && Valid(r.value)
              && r.value.Keys == t.Keys + {newId}
              && OthersUnchanged(t, r.value, newId)
              && var a := r.value[newId];
                 && a.username == username && a.email == email && a.isActive
                 && a.role == ValidateCreateRole(role).value
                 && a.isAdmin == (a.role == Admin)
                 && a.hashedPassword == h.hash(password)
  {
    var name :- ValidateUsername(username);
    var chosen :- ValidateCreateRole(role);
    if UsernameTaken(t, name) then Err(UsernameRegistered)
    else if EmailTaken(t, email) then Err(EmailRegistered)
    else
      var verdict := ValidatePasswordStrength(password);
      if !verdict.valid then Err(HttpError(BadRequest, verdict.message))
      else
        var account := Account(newId, name, email, h.hash(password), chosen, true, chosen == Admin, None);
        Ok(t[newId := account])
  }

  /** A signed-up user can log in with the password they chose. */
  lemma SignupThenVerify(t: Users, h: PasswordHasher, newId: int,
                         username: string, email: string, password: string, role: RoleField)
    requires Valid(t) && newId !in t && HashVerifies(h)
    requires Signup(t, h, newId, username, email, password, role).Ok?
    ensures var t' := Signup(t, h, newId, username, email, password, role).value;
            UsernameTaken(t', username) && h.verify(password, t'[newId].hashedPassword)
  {
    var t' := Signup(t, h, newId, username, email, password, role).value;
    assert t'[newId].username == username;
  }

  // =====================================================================
  // Login

  const BadCredentials := HttpError(Unauthorized, "Incorrect username or password")

  /** The answer of `login`, the table after it, and whether a
      `login_failed` audit entry was written. */
  datatype LoginOutcome = LoginOutcome(result: Result<Claims>, users: Users, failureAudited: bool)

  /** The row with the given username, if any. */
  method FindByUsername(t: Users, name: string) returns (found: Option<int>)
    ensures found.Some? ==> found.value in t && t[found.value].username == name
    ensures found.None? <==> !UsernameTaken(t, name)
  {
    var keys := t.Keys;
    while exists x :: x in keys
      invariant keys <= t.Keys
      invariant forall id :: id in t && id !in keys ==> t[id].username != name
      decreases |keys|
    {
      var k :| k in keys;
      if t[k].username == name {
        return Some(k);
      }
      keys := keys - {k};
    }
    return None;
  }

  /** The lifetime of a login token when `ACCESS_TOKEN_EXPIRE_MINUTES` is
      `minutes`: a zero setting falls back to the 15 minutes of
      `create_access_token`. */
  function TokenLifetime(minutes: int): (life: int)
    ensures minutes != 0 ==> life == minutes * Minute
    ensures minutes == 0 ==> life == 15 * Minute
  {
    if minutes != 0 then minutes * Minute else 15 * Minute
  }

  /** `login` at time `now`, with `expireMinutes` the value of
      `ACCESS_TOKEN_EXPIRE_MINUTES` read from the environment (30 when
      unset): an unknown user and a wrong password get the same 401, the
      audit entry is written only for a known user, and an inactive user is
      turned away only once the password has verified. The login time is
      committed before the token is made, so an expiry beyond the range of
      `datetime` gives a 500 with the login time already recorded. */
  method Login(t: Users, h: PasswordHasher, username: string, password: string, now: int, expireMinutes: int)
    returns (out: LoginOutcome)
    requires UniqueNames(t)
    ensures !UsernameTaken(t, username) ==>
              out == LoginOutcome(Err(BadCredentials), t, false)
    ensures forall id :: id in t && t[id].username == username ==>
              && (!h.verify(password, t[id].hashedPassword) ==>
                    out == LoginOutcome(Err(BadCredentials), t, true))
              && (h.verify(password, t[id].hashedPassword) && !t[id].isActive ==>
                    out == LoginOutcome(Err(InactiveUser), t, false))
              && (h.verify(password, t[id].hashedPassword) && t[id].isActive ==>
                    && !out.failureAudited
                    && out.users == t[id := t[id].(lastLogin := Some(now))]
                    && (out.result.Ok? <==> InDateRange(now + TokenLifetime(expireMinutes)))
                    && (out.result.Err? ==> out.result.error == Uncaught)
                    && (out.result.Ok? ==>
                          && out.result.value.sub == Some(username)
                          && out.result.value.role == t[id].role
                          && out.result.value.exp == now + TokenLifetime(expireMinutes)))
  {
    var found := FindByUsername(t, username);
    if found.None? {
      return LoginOutcome(Err(BadCredentials), t, false);
    }
    var id := found.value;
    var user := t[id];
    if !h.verify(password, user.hashedPassword) {
      return LoginOutcome(Err(BadCredentials), t, true);
    }
    if !user.isActive {
      return LoginOutcome(Err(InactiveUser), t, false);
    }
    var token := CreateAccessToken(user.username, user.role, now, Some(expireMinutes * Minute));
    return LoginOutcome(token, t[id := user.(lastLogin := Some(now))], false);
  }

  /** A user who has just signed up can log in with their password: the
      token names them and carries the role they chose. */
  method SignupThenLogin(t: Users, h: PasswordHasher, newId: int, username: string, email: string,
                         password: string, role: RoleField, now: int, expireMinutes: int)
    returns (out: LoginOutcome)
    requires Valid(t) && newId !in t && HashVerifies(h)
    requires Signup(t, h, newId, username, email, password, role).Ok?
    ensures out.result.Ok? <==> InDateRange(now + TokenLifetime(expireMinutes))
    ensures out.result.Ok? ==>
              && out.result.value.sub == Some(username)
              && out.result.value.role == ValidateCreateRole(role).value
              && out.result.value.exp == now + TokenLifetime(expireMinutes)
    ensures newId in out.users && out.users[newId].lastLogin == Some(now)
    ensures out.users == Signup(t, h, newId, username, email, password, role).value[newId := out.users[newId]]
  {
    var t' := Signup(t, h, newId, username, email, password, role).value;
    SignupThenVerify(t, h, newId, username, email, password, role);
    out := Login(t', h, username, password, now, expireMinutes);
    assert newId in t' && t'[newId].username == username;
  }

  // =====================================================================
  // Account management (admin endpoints)

  /** `get_user`. */
  function GetUser(t: Users, userId: int): (r: Result<Account>)
    requires KeysAreIds(t)
    ensures r.Ok? <==> userId in t
    ensures r.Ok? ==> r.value.id == userId && r.value in t.Values
    ensures r.Err? ==> r.error == UserNotFound
  {
    if userId in t then Ok(t[userId]) else Err(UserNotFound)
  }

  /** The body of a `PUT /users/{id}` request. */
  datatype UserUpdate = UserUpdate(email: Option<string>, role: Option<string>, isActive: Option<bool>)

  const OwnAdminRole := HttpError(BadRequest, "Cannot change your own admin role")
  const DeactivateSelf := HttpError(BadRequest, "Cannot deactivate yourself")

  /** The row after the requested field changes: a truthy email or role is
      written, `is_admin` follows a written role, and a given active flag is
      written. */
  function Updated(a: Account, data: UserUpdate): (b: Account)
    ensures b.id == a.id && b.username == a.username && b.hashedPassword == a.hashedPassword
    ensures b.lastLogin == a.lastLogin
    ensures b.email == (if Truthy(data.email) then data.email.value else a.email)
    ensures b.role == (if Truthy(data.role) then data.role.value else a.role)
    ensures b.isAdmin == (if Truthy(data.role) then data.role.value == Admin else a.isAdmin)
    ensures b.isActive == (if data.isActive.Some? then data.isActive.value else a.isActive)
  {
    var a1 := if Truthy(data.email) then a.(email := data.email.value) else a;
    var a2 := if Truthy(data.role) then a1.(role := data.role.value, isAdmin := data.role.value == Admin) else a1;
    if data.isActive.Some? then a2.(isActive := data.isActive.value) else a2
  }

  /** `update_user` by the admin `currentId`. */
  function UpdateUser(t: Users, currentId: int, userId: int, data: UserUpdate): (r: Result<Users>)
    ensures userId !in t ==> r == Err(UserNotFound)
    ensures userId in t && userId == currentId && Truthy(data.role) && data.role.value != Admin ==>
              r == Err(OwnAdminRole)
    ensures userId in t && userId == currentId && data.isActive == Some(false)
            && !(Truthy(data.role) && data.role.value != Admin) ==>
              r == Err(DeactivateSelf)
    ensures r.Ok? ==>
              && userId in t
              && r.value.Keys == t.Keys
              && OthersUnchanged(t, r.value, userId)
              && r.value[userId] == Updated(t[userId], data)
    ensures r.Ok? && Valid(t) ==> Valid(r.value)
    ensures userId in t && r.Err? ==> r.error.status in {BadRequest, InternalServerError}
    ensures userId in t
            && !(userId == currentId && Truthy(data.role) && data.role.value != Admin)
            && !(userId == currentId && data.isActive == Some(false)) ==>
              var t' := t[userId := Updated(t[userId], data)];
              r == (if Clashes(t', userId) then Err(Uncaught) else Ok(t'))
  {
    if userId !in t then Err(UserNotFound)
    else if userId == currentId && Truthy(data.role) && data.role.value != Admin then Err(OwnAdminRole)
    else if data.isActive.Some? && userId == currentId && !data.isActive.value then Err(DeactivateSelf)
    else
      var t' := t[userId := Updated(t[userId], data)];
      if UniqueNames(t) && !Clashes(t', userId) then
        WriteKeepsUnique(t, userId, Updated(t[userId], data));
        Commit(t', userId)
      else Commit(t', userId)
  }

  /** The admin doing an update keeps their own admin role and active flag. */
  lemma UpdateKeepsSelfAdmin(t: Users, currentId: int, data: UserUpdate)
    requires currentId in t && t[currentId].role == Admin && t[currentId].isActive
    requires UpdateUser(t, currentId, currentId, data).Ok?
    ensures var a := UpdateUser(t, currentId, currentId, data).value[currentId];
            a.role == Admin && a.isActive
  {
  }

  const ToggleSelf := HttpError(BadRequest, "Cannot toggle your own active status")

  /** `toggle_user_active` by the admin `currentId`. */
  function ToggleUserActive(t: Users, currentId: int, userId: int): (r: Result<Users>)
    ensures userId !in t ==> r == Err(UserNotFound)
    ensures userId in t && userId == currentId ==> r == Err(ToggleSelf)
    ensures r.Ok? <==> userId in t && userId != currentId
    ensures r.Ok? ==>
              && r.value.Keys == t.Keys
              && OthersUnchanged(t, r.value, userId)
              && r.value[userId].isActive == !t[userId].isActive
              && r.value[userId].(isActive := t[userId].isActive) == t[userId]
    ensures r.Ok? && Valid(t) ==> Valid(r.value)
  {
    if userId !in t then Err(UserNotFound)
    else if userId == currentId then Err(ToggleSelf)
    else
      var a := t[userId];
      if UniqueNames(t) then
        SameNamesKeepUnique(t, userId, a.(isActive := !a.isActive));
        Ok(t[userId := a.(isActive := !a.isActive)])
      else Ok(t[userId := a.(isActive := !a.isActive)])
  }

  /** Toggling twice gives the table back. */
  lemma ToggleTwice(t: Users, currentId: int, userId: int)
    requires ToggleUserActive(t, currentId, userId).Ok?
    ensures var t' := ToggleUserActive(t, currentId, userId).value;
            ToggleUserActive(t', currentId, userId) == Ok(t)
  {
    var t' := ToggleUserActive(t, currentId, userId).value;
    var t'' := ToggleUserActive(t', currentId, userId).value;
    assert t''[userId] == t'[userId].(isActive := !t'[userId].isActive);
    assert t''[userId] == t[userId];
    assert forall x :: x in t ==> t''[x] == t[x];
    assert t'' == t;
  }

  const DeleteSelf := HttpError(BadRequest, "Cannot delete yourself")

  /** `delete_user` by the admin `currentId`: the self check comes before
      the lookup. */
  function DeleteUser(t: Users, currentId: int, userId: int): (r: Result<Users>)
    ensures userId == currentId ==> r == Err(DeleteSelf)
    ensures userId != currentId && userId !in t ==> r == Err(UserNotFound)
    ensures r.Ok? <==> userId != currentId && userId in t
    ensures r.Ok? ==> r.value.Keys == t.Keys - {userId} && OthersUnchanged(t, r.value, userId)
    ensures r.Ok? && Valid(t) ==> Valid(r.value)
  {
    if userId == currentId then Err(DeleteSelf)
    else if userId !in t then Err(UserNotFound)
    else Ok(t - {userId})
  }

  // =====================================================================
  // Self-service endpoints

  const InvalidPassword := HttpError(Unauthorized, "Invalid password")
  const EmailInUse := HttpError(BadRequest, "Email already in use by another account")

  /** Another row than `id` holds the address. */
  predicate EmailHeldByOther(t: Users, id: int, email: string) {
    exists x :: x in t && x != id && t[x].email == email
  }

  /** `change_my_email` for the signed-in user `currentId`. */
  function ChangeMyEmail(t: Users, h: PasswordHasher, currentId: int, email: string, password: string): (r: Result<Users>)
    requires currentId in t
    ensures !h.verify(password, t[currentId].hashedPassword) ==> r == Err(InvalidPassword)
    ensures h.verify(password, t[currentId].hashedPassword) && EmailHeldByOther(t, currentId, email) ==>
              r == Err(EmailInUse)
    ensures r.Ok? ==>
              && h.verify(password, t[currentId].hashedPassword)
              && !EmailHeldByOther(t, currentId, email)
              && r.value.Keys == t.Keys
              && OthersUnchanged(t, r.value, currentId)
              && r.value[currentId] == t[currentId].(email := email)
    ensures Valid(t) && h.verify(password, t[currentId].hashedPassword) && !EmailHeldByOther(t, currentId, email) ==>
              r.Ok? && Valid(r.value)
  {
    if !h.verify(password, t[currentId].hashedPassword) then Err(InvalidPassword)
    else if EmailHeldByOther(t, currentId, email) then Err(EmailInUse)
    else
      var t' := t[currentId := t[currentId].(email := email)];
      if UniqueNames(t) && !Clashes(t', currentId) then
        WriteKeepsUnique(t, currentId, t[currentId].(email := email));
        Commit(t', currentId)
      else Commit(t', currentId)
  }

  const OldPasswordIncorrect := HttpError(BadRequest, "Old password is incorrect")

  /** `change_my_password` for the signed-in user `currentId`: the old
      password is checked before the new one's strength. */
  function ChangeMyPassword(t: Users, h: PasswordHasher, currentId: int, oldPassword: string, newPassword: string): (r: Result<Users>)
    requires currentId in t
    ensures !h.verify(oldPassword, t[currentId].hashedPassword) ==> r == Err(OldPasswordIncorrect)
    ensures h.verify(oldPassword, t[currentId].hashedPassword) && !Strong(newPassword) ==>
              r == Err(HttpError(BadRequest, ValidatePasswordStrength(newPassword).message))
    ensures r.Ok? <==> h.verify(oldPassword, t[currentId].hashedPassword) && Strong(newPassword)
    ensures r.Ok? ==>
              && r.value.Keys == t.Keys
              && OthersUnchanged(t, r.value, currentId)
              && r.value[currentId] == t[currentId].(hashedPassword := h.hash(newPassword))
    ensures r.Ok? && Valid(t) ==> Valid(r.value)
  {
    if !h.verify(oldPassword, t[currentId].hashedPassword) then Err(OldPasswordIncorrect)
    else
      var verdict := ValidatePasswordStrength(newPassword);
      if !verdict.valid then Err(HttpError(BadRequest, verdict.message))
      else
        var a := t[currentId].(hashedPassword := h.hash(newPassword));
        if UniqueNames(t) then
          SameNamesKeepUnique(t, currentId, a);
          Ok(t[currentId := a])
        else Ok(t[currentId := a])
  }

  /** After a password change the new password verifies. */
  lemma ChangedPasswordVerifies(t: Users, h: PasswordHasher, currentId: int, oldPassword: string, newPassword: string)
    requires currentId in t && HashVerifies(h)
    requires ChangeMyPassword(t, h, currentId, oldPassword, newPassword).Ok?
    ensures var t' := ChangeMyPassword(t, h, currentId, oldPassword, newPassword).value;
            h.verify(newPassword, t'[currentId].hashedPassword)
  {
  }
}
