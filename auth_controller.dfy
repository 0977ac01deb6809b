/**
 * The authentication endpoints: registration with its validation chain and
 * the rule that only an admin mints an admin, login with one answer for
 * every credential failure, and the profile update that can set only the
 * name, email and password. Password hashing and comparison, and token
 * signing, belong to libraries and are parameters.
 */
module AuthController {
  import opened Outcomes
  import opened Schema
  import opened Database
  import opened JsRuntime
  import opened Validation
  import UserModel
  import AuthMiddleware

  const AdminsOnly: Error := Error(Forbidden, "Acesso negado", "Apenas administradores podem criar outros administradores")
  const MissingCredentials: Error := Error(Validation, "Dados obrigatórios", "Email e senha são obrigatórios")
  const BadCredentials: Error := Error(Unauthorized, "Credenciais inválidas", "Email ou senha incorretos")
  const LoginFailure: Error := Error(Internal, "Erro interno do servidor", "Erro ao fazer login")
  const ProfileGone: Error := Error(NotFound, "Usuário não encontrado", "Usuário não encontrado para atualização")
  const ProfileFailure: Error := Error(Internal, "Erro interno do servidor", "Erro ao atualizar perfil")

  /** What a successful register or login answers: the public user and the payload of its token. */
  datatype Session = Session(user: UserModel.PublicUser, payload: AuthMiddleware.Payload)

  function SessionOf(u: UserRow): (s: Session)
    ensures s.user == UserModel.ToJson(u) && s.payload == AuthMiddleware.GeneratePayload(u)
  {
    Session(UserModel.ToJson(u), AuthMiddleware.GeneratePayload(u))
  }

  // ---------------------------------------------------------------------------
  // register

  /**
   * The role register grants: `member`, unless `admin` is asked for, which
   * only an authenticated admin may do. Any other requested value is
   * silently replaced by `member`.
   */
  function RegisterRole(role: Param, requester: Option<Actor>): (r: Result<string>)
    ensures r.Ok? ==> IsRole(r.value)
    ensures r == Ok(AdminRole) <==> role == Str(AdminRole) && requester.Some? && IsAdmin(requester.value)
    ensures r.Err? <==> role == Str(AdminRole) && !(requester.Some? && IsAdmin(requester.value))
    ensures r.Err? ==> r.error == AdminsOnly
  {
    if Truthy(role) && role.s == AdminRole then
      if requester.Some? && requester.value.role == AdminRole then Ok(AdminRole) else Err(AdminsOnly)
    else Ok(MemberRole)
  }

  /**
   * The register route's own gate: a body asking for `role === 'admin'`
   * must first pass authenticateToken and then requireAdmin, and the
   * request reaches register with that admin as `req.user`; any other body
   * reaches register with no user at all.
   */
  function RegisterGate(users: map<Id, UserRow>, role: Param, header: Option<string>,
                        verify: string -> AuthMiddleware.Verified)
    : (r: Result<Option<Actor>>)
    ensures role != Str(AdminRole) ==> r == Ok(None)
    ensures role == Str(AdminRole) && AuthMiddleware.Authenticate(users, header, verify).Err? ==>
      r == Err(AuthMiddleware.Authenticate(users, header, verify).error)
    ensures role == Str(AdminRole) && AuthMiddleware.Authenticate(users, header, verify).Ok? ==>
      var u := AuthMiddleware.Authenticate(users, header, verify).value;
      && (u.role != AdminRole ==> r == Err(AuthMiddleware.AdminOnly))
      && (u.role == AdminRole ==> r == Ok(Some(Actor(u.id, u.role))))
    ensures role == Str(AdminRole) && header.None? ==> r == Err(AuthMiddleware.TokenRequired)
  {
    if role != Str(AdminRole) then Ok(None)
    else
      var a := AuthMiddleware.Authenticate(users, header, verify);
      if a.Err? then Err(a.error)
      else
        AuthMiddleware.RequireAdminExact(Some(a.value));
        var g := AuthMiddleware.RequireRole(Some(a.value), AuthMiddleware.One(AdminRole));
        if g.Fail? then Err(g.error) else Ok(Some(Actor(a.value.id, a.value.role)))
  }

  /**
   * Behind the route's gate the controller's own admin rule never refuses:
   * a request the gate lets through gets the role it asked for, so
   * register's 403 "Apenas administradores podem criar outros
   * administradores" is unreachable through src/routes/auth.js.
   */
  lemma GatedRegisterRole(users: map<Id, UserRow>, role: Param, header: Option<string>,
                          verify: string -> AuthMiddleware.Verified)
    requires RegisterGate(users, role, header, verify).Ok?
    ensures RegisterRole(role, RegisterGate(users, role, header, verify).value).Ok?
    ensures role == Str(AdminRole) ==> RegisterRole(role, RegisterGate(users, role, header, verify).value) == Ok(AdminRole)
  {
  }

  /**
   * register's checks in order: name, email and password present; the email
   * matches the pattern; the password has six characters; the role rule.
   */
  function RegisterInput(name: Param, email: Param, password: Param, role: Param, requester: Option<Actor>)
    : (r: Result<NewUser>)
    ensures CheckNewUser(name, email, password).Fail? ==> r == Err(CheckNewUser(name, email, password).error)
    ensures r.Ok? <==> CheckNewUser(name, email, password).Pass? && RegisterRole(role, requester).Ok?
    ensures r.Ok? ==> r.value == Prepared(name.s, email.s, password.s, RegisterRole(role, requester).value)
  {
    var checked := CheckNewUser(name, email, password);
    if checked.Fail? then Err(checked.error)
    else
      var granted := RegisterRole(role, requester);
      if granted.Err? then Err(granted.error)
      else Ok(Prepared(name.s, email.s, password.s, granted.value))
  }

  /** Only an authenticated admin ever registers an admin. */
  lemma OnlyAdminMintsAdmin(name: Param, email: Param, password: Param, role: Param, requester: Option<Actor>)
    requires RegisterInput(name, email, password, role, requester).Ok?
    requires RegisterInput(name, email, password, role, requester).value.role == AdminRole
    ensures requester.Some? && IsAdmin(requester.value)
  {
  }

  /**
   * register: validates, creates the user (`hash` is what bcrypt produced
   * for the password) and answers the public user with its token payload;
   * a taken email is the 409 "Email já existe".
   */
  method Register(db: Store, requester: Option<Actor>, id: Id, name: Param, email: Param, password: Param,
                  role: Param, hash: string, now: int)
    returns (r: Result<Session>)
    requires db.Valid()
    requires id !in db.users
    modifies db`users
    ensures db.Valid()
    ensures var input := RegisterInput(name, email, password, role, requester);
      && (input.Err? ==> r == Err(input.error) && db.users == old(db.users))
      && (input.Ok? && UserModel.EmailTaken(old(db.users), input.value.email, id) ==>
            r == Err(EmailExists) && db.users == old(db.users))
      && (input.Ok? && !UserModel.EmailTaken(old(db.users), input.value.email, id) ==>
            var stored := UserRow(id, input.value.name, input.value.email, Some(hash), input.value.role, now);
            db.users == old(db.users)[id := stored] && r == Ok(SessionOf(stored)))
  {
    var input := RegisterInput(name, email, password, role, requester);
    if input.Err? {
      return Err(input.error);
    }
    var v := input.value;
    var created := UserModel.Create(db, id, v.name, v.email, Some(v.role), hash, now);
    if created.Err? {
      return Err(CatchEmailInUse(created.error, CreateUserFailure));
    }
    r := Ok(SessionOf(created.value));
  }

  // ---------------------------------------------------------------------------
  // login

  /**
   * login: both fields are required; then the user with the normalised
   * email is looked up and the password compared with its hash (`compare`
   * is bcrypt's). An unknown email and a wrong password get the same 401.
   */
  function Login(users: map<Id, UserRow>, email: Param, password: Param, compare: (string, string) -> bool)
    : (r: Result<Session>)
    requires UniqueEmails(users)
    ensures !Truthy(email) || !Truthy(password) ==> r == Err(MissingCredentials)
    ensures Truthy(email) && Truthy(password) && UserModel.FindByEmail(users, NormalizeEmail(email.s)).None? ==>
      r == Err(BadCredentials)
    ensures r.Ok? <==>
      && Truthy(email) && Truthy(password)
      && var u := UserModel.FindByEmail(users, NormalizeEmail(email.s));
         u.Some? && u.value.passwordHash.Some? && compare(password.s, u.value.passwordHash.value)
    ensures r.Ok? ==> r == Ok(SessionOf(UserModel.FindByEmail(users, NormalizeEmail(email.s)).value))
  {
    if !Truthy(email) || !Truthy(password) then Err(MissingCredentials)
    else
      var u := UserModel.FindByEmail(users, NormalizeEmail(email.s));
      if u.None? then Err(BadCredentials)
      else if u.value.passwordHash.None? then Err(LoginFailure)
      else if !compare(password.s, u.value.passwordHash.value) then Err(BadCredentials)
      else Ok(SessionOf(u.value))
  }

  /** In a consistent store every credential failure is the same answer, whether the email or the password was wrong. */
  lemma LoginFailsUniformly(users: map<Id, UserRow>, email: Param, password: Param, compare: (string, string) -> bool)
    requires UniqueEmails(users)
    requires forall k :: k in users ==> users[k].passwordHash.Some?
    requires Truthy(email) && Truthy(password)
    ensures Login(users, email, password, compare).Err? ==> Login(users, email, password, compare).error == BadCredentials
  {
    var u := UserModel.FindByEmail(users, NormalizeEmail(email.s));
    if u.Some? {
      var k :| k in users && users[k] == u.value;
    }
  }

  /** A user who registered with an email logs in with the same email as typed then, in any letter case the registration saw. */
  lemma RegisteredEmailLogsIn(users: map<Id, UserRow>, typed: string, password: string, compare: (string, string) -> bool)
    requires UniqueEmails(users)
    requires typed != "" && password != ""
    requires exists k ::
      && k in users && users[k].email == NormalizeEmail(typed)
      && users[k].passwordHash.Some? && compare(password, users[k].passwordHash.value)
    ensures Login(users, Str(typed), Str(password), compare).Ok?
  {
    var k :| k in users && users[k].email == NormalizeEmail(typed)
      && users[k].passwordHash.Some? && compare(password, users[k].passwordHash.value);
    var u := UserModel.FindByEmail(users, NormalizeEmail(typed));
    var j :| j in users && users[j] == u.value;
    assert j == k;
  }

  // ---------------------------------------------------------------------------
  // updateProfile

  /**
   * updateProfile's checks: a truthy email must match the pattern, then a
   * truthy password must have six characters, then the object must not be
   * empty.
   */
  function ProfileUpdates(name: Param, email: Param, password: Param): (r: Result<seq<(string, string)>>)
    ensures Truthy(email) && !ValidEmail(email.s) ==> r == Err(InvalidEmail)
    ensures !(Truthy(email) && !ValidEmail(email.s)) && Truthy(password) && !StrongPassword(password.s) ==>
      r == Err(WeakPassword)
    ensures r.Ok? <==>
      && !(Truthy(email) && !ValidEmail(email.s))
      && !(Truthy(password) && !StrongPassword(password.s))
      && (Truthy(name) || Truthy(email) || Truthy(password))
    ensures r.Err? ==> HttpStatus(r.error.kind) == 400
    ensures r.Ok? ==> r.value == UserFields(name, email, password)
  {
    UserFieldsShape(name, email, password);
    if Truthy(email) && !ValidEmail(email.s) then Err(InvalidEmail)
    else if Truthy(password) && !StrongPassword(password.s) then Err(WeakPassword)
    else
      var fields := UserFields(name, email, password);
      if fields == [] then Err(NothingToUpdate) else Ok(fields)
  }

  /**
   * The row updateProfile writes (its update object is UserFields): a truthy name trimmed, a truthy email
   * normalised, a truthy password's hash, everything else as it was; in
   * particular the role never changes.
   */
  lemma ProfileEffect(u: UserRow, name: Param, email: Param, password: Param, hash: string)
    ensures UserModel.Updated(u, UserFields(name, email, password), hash).id == u.id
    ensures UserModel.Updated(u, UserFields(name, email, password), hash).createdAt == u.createdAt
    ensures UserModel.Updated(u, UserFields(name, email, password), hash).name ==
      (if Truthy(name) then Trim(name.s) else u.name)
    ensures UserModel.Updated(u, UserFields(name, email, password), hash).email ==
      (if Truthy(email) then NormalizeEmail(email.s) else u.email)
    ensures UserModel.Updated(u, UserFields(name, email, password), hash).role == u.role
    ensures UserModel.Updated(u, UserFields(name, email, password), hash).passwordHash ==
      (if Truthy(password) then Some(hash) else u.passwordHash)
  {
    var f := UserFields(name, email, password);
    UserFieldsShape(name, email, password);
    assert LastValue(f, "role").None? by {
      forall i | 0 <= i < |f| ensures f[i].0 != "role" {
        assert f[i].0 in ["name", "email", "password"];
      }
    }
    UserModel.UpdatedRow(u, f, hash);
  }

  /**
   * updateProfile: builds the update object for the caller's own row,
   * updates it, and answers the public user; no row is 404. It runs on the
   * corrected update, under which a taken email is the 409 "Email já
   * existe"; as the source's update is written that case is answered 500
   * instead (ProfileConflictAsWrittenIs500).
   */
  method UpdateProfile(db: Store, actor: Actor, name: Param, email: Param, password: Param, hash: string)
    returns (r: Result<UserModel.PublicUser>)
    requires db.Valid()
    modifies db`users
    ensures db.Valid()
    ensures ProfileUpdates(name, email, password).Err? ==>
      r == Err(ProfileUpdates(name, email, password).error) && db.users == old(db.users)
    ensures ProfileUpdates(name, email, password).Ok? && actor.id !in old(db.users) ==> r == Err(ProfileGone)
    ensures r.Ok? ==>
      && ProfileUpdates(name, email, password).Ok? && actor.id in old(db.users)
      && var row := UserModel.Updated(old(db.users)[actor.id], ProfileUpdates(name, email, password).value, hash);
         db.users == old(db.users)[actor.id := row] && r.value == UserModel.ToJson(row)
    ensures ProfileUpdates(name, email, password).Ok? && actor.id in old(db.users) ==>
      var row := UserModel.Updated(old(db.users)[actor.id], UserFields(name, email, password), hash);
      && (UserModel.EmailTaken(old(db.users), row.email, actor.id) ==> r == Err(EmailExists))
      && (!UserModel.EmailTaken(old(db.users), row.email, actor.id) ==> r.Ok?)
    ensures r.Err? ==> db.users == old(db.users)
  {
    var updates := ProfileUpdates(name, email, password);
    if updates.Err? {
      return Err(updates.error);
    }
    UserFieldsShape(name, email, password);
    if actor.id in db.users {
      UserModel.AcceptedNonEmpty(db.users[actor.id], updates.value, hash);
    } else {
      UserModel.AcceptedNonEmpty(UserRow(actor.id, "", "", None, "", 0), updates.value, hash);
    }
    var result := UserModel.Update(db, actor.id, updates.value, hash);
    if result.Err? {
      return Err(CatchEmailInUse(result.error, ProfileFailure));
    }
    if result.value.None? {
      return Err(ProfileGone);
    }
    r := Ok(UserModel.ToJson(result.value.value));
  }

  /**
   * As the source's user update is written, a taken email reaches the
   * profile handler as the store's raw unique violation, which its catch
   * does not recognise: the answer is the 500, not the intended 409.
   */
  lemma ProfileConflictAsWrittenIs500(users: map<Id, UserRow>, id: Id, fields: seq<(string, string)>)
    requires id in users
    requires UserModel.EmailTaken(users, UserModel.NewEmail(users[id], fields), id)
    ensures HttpStatus(CatchEmailInUse(UserModel.UpdateConflictAsWritten(users, id, fields).value, ProfileFailure).kind) == 500
    ensures HttpStatus(CatchEmailInUse(UserModel.EmailInUse, ProfileFailure).kind) == 409
  {
  }
}
