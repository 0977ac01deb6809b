/**
 * The user administration endpoints. Every route that reaches them passes
 * authentication and the admin gate first, so the acting user is an admin
 * wherever one is given. Listings page with `offset = (page - 1) * limit`
 * and report `pages = Math.ceil(total / limit)`.
 */
module UserController {
  import opened Outcomes
  import opened Schema
  import opened Database
  import opened Ordering
  import opened JsRuntime
  import opened Validation
  import UserModel

  const UserNotFound: Error := Error(NotFound, "Usuário não encontrado", "O usuário especificado não existe")
  const ListFailure: Error := Error(Internal, "Erro interno do servidor", "Erro ao buscar usuários")
  const UpdateFailure: Error := Error(Internal, "Erro interno do servidor", "Erro ao atualizar usuário")
  const SelfDeletion: Error := Error(Validation, "Operação não permitida", "Você não pode deletar sua própria conta")
  const DeleteFailed: Error := Error(Internal, "Erro ao deletar", "Não foi possível deletar o usuário")

  // ---------------------------------------------------------------------------
  // getAllUsers

  /** `WHERE role = $1` when the role query parameter is truthy, no condition otherwise. */
  predicate RoleFilter(u: UserRow, role: Param) {
    Truthy(role) ==> u.role == role.s
  }

  function WithRole(role: Param): UserRow -> bool {
    (u: UserRow) => RoleFilter(u, role)
  }

  /** The number of users the listing counts: COUNT(*) over the rows the filter accepts. */
  function UserCount(users: map<Id, UserRow>, role: Param): nat {
    CountWhere(users, WithRole(role))
  }

  datatype UserList = UserList(users: seq<UserModel.PublicUser>, pagination: Pagination)

  /**
   * getAllUsers: the users accepted by the role filter, newest first, one
   * page of them without their hashes, with the count of all accepted users.
   * A negative LIMIT or OFFSET makes the store fail, which is the 500.
   */
  ghost function GetAllUsers(users: map<Id, UserRow>, page: int, limit: int, role: Param): (r: Result<UserList>)
    ensures r.Err? <==> limit < 0 || Offset(page, limit) < 0
    ensures r.Err? ==> r.error == ListFailure
    ensures r.Ok? ==> |r.value.users| <= limit
    ensures r.Ok? ==> forall k :: 0 <= k < |r.value.users| ==> Listed(users, role, r.value.users[k])
    ensures r.Ok? ==>
      r.value.pagination == Pagination(page, limit, UserCount(users, role), CeilQuotient(UserCount(users, role), limit))
  {
    var offset := Offset(page, limit);
    if limit < 0 || offset < 0 then Err(ListFailure)
    else
      var total := UserCount(users, role);
      Ok(UserList(ListedUsers(users, role, limit, offset), Pagination(page, limit, total, CeilQuotient(total, limit))))
  }

  /** The page the query returns, without the hashes. */
  ghost function ListedUsers(users: map<Id, UserRow>, role: Param, limit: int, offset: int): (shown: seq<UserModel.PublicUser>)
    requires limit >= 0 && offset >= 0
    ensures |shown| <= limit
    ensures forall k :: 0 <= k < |shown| ==> Listed(users, role, shown[k])
  {
    var found := Query(Rows(users), WithRole(role), UserModel.UserCreatedAt, limit, offset).value;
    QuerySound(Rows(users), WithRole(role), UserModel.UserCreatedAt, limit, offset);
    var shown := ShownUsers(found);
    ListedUsersSound(users, role, found, shown);
    shown
  }

  /** `rows.map(toJSON)` */
  function ShownUsers(found: seq<UserRow>): (shown: seq<UserModel.PublicUser>)
    ensures |shown| == |found| && forall k :: 0 <= k < |found| ==> shown[k] == UserModel.ToJson(found[k])
  {
    seq(|found|, k requires 0 <= k < |found| => UserModel.ToJson(found[k]))
  }

  /** A user of the table that the role filter accepts, shown without the hash. */
  ghost predicate Listed(users: map<Id, UserRow>, role: Param, j: UserModel.PublicUser) {
    exists u :: u in users.Values && RoleFilter(u, role) && j == UserModel.ToJson(u)
  }

  /** Rows the scan accepted, shown without their hashes, are users the filter accepts. */
  lemma ListedUsersSound(users: map<Id, UserRow>, role: Param, found: seq<UserRow>, shown: seq<UserModel.PublicUser>)
    requires forall k :: 0 <= k < |found| ==> found[k] in Rows(users) && WithRole(role)(found[k])
    requires |shown| == |found| && forall k :: 0 <= k < |found| ==> shown[k] == UserModel.ToJson(found[k])
    ensures forall k :: 0 <= k < |shown| ==> Listed(users, role, shown[k])
  {
    forall k | 0 <= k < |shown| ensures Listed(users, role, shown[k]) {
      var u := found[k];
      InTable(users, u);
      assert u in users.Values && RoleFilter(u, role) && shown[k] == UserModel.ToJson(u);
    }
  }

  /**
   * The count is the length of the listing the pages cut: with pages of a
   * positive `limit`, every accepted user is on exactly the page its
   * position gives, and that page is at most `pages`.
   */
  lemma AllUsersPaged(users: map<Id, UserRow>, limit: int, role: Param, k: int)
    requires DistinctRows(users)
    requires limit > 0
    requires 0 <= k < UserCount(users, role)
    ensures var listing := UserListing(users, role);
      && |listing| == UserCount(users, role)
      && var r := GetAllUsers(users, PageOf(k, limit), limit, role);
         && 1 <= PageOf(k, limit) <= CeilQuotient(UserCount(users, role), limit).value
         && r.Ok?
         && 0 <= SlotOf(k, limit) < |r.value.users|
         && r.value.users[SlotOf(k, limit)] == UserModel.ToJson(listing[k])
  {
    var listing := UserListing(users, role);
    AllUsersCount(users, role);
    PageOfRow(listing, limit, k);
    PageArithmetic(k, limit);
    AllUsersWindow(users, PageOf(k, limit), limit, role);
  }

  /** The accepted users in the listing's order: newest first. */
  ghost function UserListing(users: map<Id, UserRow>, role: Param): seq<UserRow> {
    SortDesc(Filter(Rows(users), WithRole(role)), UserModel.UserCreatedAt)
  }

  /** Over distinct rows the count is the listing's length. */
  lemma AllUsersCount(users: map<Id, UserRow>, role: Param)
    requires DistinctRows(users)
    ensures |UserListing(users, role)| == UserCount(users, role)
  {
    RowsCount(users, WithRole(role));
  }

  /** A page at a non-negative offset shows the slice `[offset, offset + limit)` of the listing. */
  lemma AllUsersWindow(users: map<Id, UserRow>, page: int, limit: int, role: Param)
    requires limit >= 0 && Offset(page, limit) >= 0
    ensures var r := GetAllUsers(users, page, limit, role);
      var w := Slice(UserListing(users, role), Offset(page, limit), Offset(page, limit) + limit);
      && r.Ok? && |r.value.users| == |w|
      && forall i :: 0 <= i < |w| ==> r.value.users[i] == UserModel.ToJson(w[i])
  {
    WindowSlice(UserListing(users, role), limit, Offset(page, limit));
  }

  // ---------------------------------------------------------------------------
  // createUser

  /** `role = 'member'` in the destructuring: the default applies only when the field is undefined. */
  function RequestedRole(role: Param): Param {
    if role.Absent? then Str(MemberRole) else role
  }

  /**
   * createUser's checks: the three common ones, then the role (which
   * defaults to member when absent) must be admin or member.
   */
  function CreateUserInput(name: Param, email: Param, password: Param, role: Param): (r: Result<NewUser>)
    ensures CheckNewUser(name, email, password).Fail? ==> r == Err(CheckNewUser(name, email, password).error)
    ensures CheckNewUser(name, email, password).Pass? && !RoleParam(RequestedRole(role)) ==> r == Err(InvalidRole)
    ensures r.Ok? <==> CheckNewUser(name, email, password).Pass? && RoleParam(RequestedRole(role))
    ensures r.Ok? ==> IsRole(r.value.role) && (role.Absent? ==> r.value.role == MemberRole)
    ensures r.Ok? ==> r.value == Prepared(name.s, email.s, password.s, RequestedRole(role).s)
  {
    var checked := CheckNewUser(name, email, password);
    if checked.Fail? then Err(checked.error)
    else if !RoleParam(RequestedRole(role)) then Err(InvalidRole)
    else Ok(Prepared(name.s, email.s, password.s, RequestedRole(role).s))
  }

  /** Only the two known roles pass, and a null or empty role is refused rather than defaulted. */
  lemma CreateUserRoles(role: Param)
    ensures RoleParam(RequestedRole(role)) <==> role.Absent? || role == Str(AdminRole) || role == Str(MemberRole)
    ensures role.Absent? ==> RequestedRole(role) == Str(MemberRole)
  {
  }

  /** createUser: validates, creates the account and answers it without its hash; a taken email is the 409. */
  method CreateUser(db: Store, id: Id, name: Param, email: Param, password: Param, role: Param, hash: string, now: int)
    returns (r: Result<UserModel.PublicUser>)
    requires db.Valid()
    requires id !in db.users
    modifies db`users
    ensures db.Valid()
    ensures var input := CreateUserInput(name, email, password, role);
      && (input.Err? ==> r == Err(input.error) && db.users == old(db.users))
      && (input.Ok? && UserModel.EmailTaken(old(db.users), input.value.email, id) ==>
            r == Err(EmailExists) && db.users == old(db.users))
      && (input.Ok? && !UserModel.EmailTaken(old(db.users), input.value.email, id) ==>
            var stored := UserRow(id, input.value.name, input.value.email, Some(hash), input.value.role, now);
            db.users == old(db.users)[id := stored] && r == Ok(UserModel.ToJson(stored)))
  {
    var input := CreateUserInput(name, email, password, role);
    if input.Err? {
      return Err(input.error);
    }
    var v := input.value;
    var created := UserModel.Create(db, id, v.name, v.email, Some(v.role), hash, now);
    if created.Err? {
      return Err(CatchEmailInUse(created.error, CreateUserFailure));
    }
    r := Ok(UserModel.ToJson(created.value));
  }

  // ---------------------------------------------------------------------------
  // updateUser

  /** updateUser's object: the profile fields, then a truthy role as it is. */
  function AdminFields(name: Param, email: Param, password: Param, role: Param): seq<(string, string)> {
    SetIf(UserFields(name, email, password), Truthy(role), "role", if Truthy(role) then role.s else "")
  }

  /**
   * updateUser's checks after the existence check: a truthy email must
   * match, a truthy password must be long enough, a truthy role must be
   * admin or member, and something must be given.
   */
  function AdminUpdates(name: Param, email: Param, password: Param, role: Param): (r: Result<seq<(string, string)>>)
    ensures Truthy(email) && !ValidEmail(email.s) ==> r == Err(InvalidEmail)
    ensures !(Truthy(email) && !ValidEmail(email.s)) && Truthy(password) && !StrongPassword(password.s) ==>
      r == Err(WeakPassword)
    ensures (!(Truthy(email) && !ValidEmail(email.s)) && !(Truthy(password) && !StrongPassword(password.s))
             && Truthy(role) && !IsRole(role.s)) ==> r == Err(InvalidRole)
    ensures r.Ok? <==>
      && !(Truthy(email) && !ValidEmail(email.s))
      && !(Truthy(password) && !StrongPassword(password.s))
      && !(Truthy(role) && !IsRole(role.s))
      && (Truthy(name) || Truthy(email) || Truthy(password) || Truthy(role))
    ensures r.Err? ==> HttpStatus(r.error.kind) == 400
    ensures r.Ok? ==> r.value == AdminFields(name, email, password, role)
  {
    AdminFieldsShape(name, email, password, role);
    UserFieldsShape(name, email, password);
    if Truthy(email) && !ValidEmail(email.s) then Err(InvalidEmail)
    else if Truthy(password) && !StrongPassword(password.s) then Err(WeakPassword)
    else if Truthy(role) && !IsRole(role.s) then Err(InvalidRole)
    else
      var fields := AdminFields(name, email, password, role);
      if fields == [] then Err(NothingToUpdate) else Ok(fields)
  }

  /**
   * The row updateUser writes: each truthy field prepared as the handler
   * prepares it (the password as its hash), every other column as it was.
   */
  lemma AdminUpdateEffect(u: UserRow, name: Param, email: Param, password: Param, role: Param, hash: string)
    ensures UserModel.Updated(u, AdminFields(name, email, password, role), hash).id == u.id
    ensures UserModel.Updated(u, AdminFields(name, email, password, role), hash).createdAt == u.createdAt
    ensures UserModel.Updated(u, AdminFields(name, email, password, role), hash).name ==
      (if Truthy(name) then Trim(name.s) else u.name)
    ensures UserModel.Updated(u, AdminFields(name, email, password, role), hash).email ==
      (if Truthy(email) then NormalizeEmail(email.s) else u.email)
    ensures UserModel.Updated(u, AdminFields(name, email, password, role), hash).role ==
      (if Truthy(role) then role.s else u.role)
    ensures UserModel.Updated(u, AdminFields(name, email, password, role), hash).passwordHash ==
      (if Truthy(password) then Some(hash) else u.passwordHash)
  {
    AdminFieldsShape(name, email, password, role);
    UserFieldsShape(name, email, password);
    RowFromFields(u, AdminFields(name, email, password, role), name, email, password, role, hash);
  }

  /** The row update writes for an object whose entries hold the prepared fields. */
  lemma RowFromFields(u: UserRow, f: seq<(string, string)>, name: Param, email: Param, password: Param, role: Param,
                      hash: string)
    requires DistinctKeys(f)
    requires LastValue(f, "name") == (if Truthy(name) then Some(Trim(name.s)) else None)
    requires LastValue(f, "email") == (if Truthy(email) then Some(NormalizeEmail(email.s)) else None)
    requires LastValue(f, "password") == (if Truthy(password) then Some(password.s) else None)
    requires LastValue(f, "role") == (if Truthy(role) then Some(role.s) else None)
    ensures var r := UserModel.Updated(u, f, hash);
      && r.id == u.id && r.createdAt == u.createdAt
      && r.name == (if Truthy(name) then Trim(name.s) else u.name)
      && r.email == (if Truthy(email) then NormalizeEmail(email.s) else u.email)
      && r.role == (if Truthy(role) then role.s else u.role)
      && r.passwordHash == (if Truthy(password) then Some(hash) else u.passwordHash)
  {
    UserModel.UpdatedRow(u, f, hash);
  }

  /** The role entry goes last and leaves the profile entries' values as they were. */
  lemma AdminFieldsShape(name: Param, email: Param, password: Param, role: Param)
    ensures DistinctKeys(AdminFields(name, email, password, role))
    ensures LastValue(AdminFields(name, email, password, role), "role") == if Truthy(role) then Some(role.s) else None
    ensures LastValue(AdminFields(name, email, password, role), "name") == LastValue(UserFields(name, email, password), "name")
    ensures LastValue(AdminFields(name, email, password, role), "email") == LastValue(UserFields(name, email, password), "email")
    ensures LastValue(AdminFields(name, email, password, role), "password") ==
      LastValue(UserFields(name, email, password), "password")
    ensures AdminFields(name, email, password, role) == [] <==>
      !Truthy(name) && !Truthy(email) && !Truthy(password) && !Truthy(role)
  {
    var f := UserFields(name, email, password);
    UserFieldsShape(name, email, password);
    var r := if Truthy(role) then role.s else "";
    assert AdminFields(name, email, password, role) == SetIf(f, Truthy(role), "role", r);
    KeyNotAmong(f, ["name", "email", "password"], "role");
    RoleEntryShape(f, Truthy(role), r);
  }

  /** A key outside the list of keys an object may hold is not among its keys. */
  lemma KeyNotAmong(f: seq<(string, string)>, keys: seq<string>, key: string)
    requires key !in keys && forall i :: 0 <= i < |f| ==> f[i].0 in keys
    ensures !HasKey(f, key)
  {
  }

  /** A role entry appended to profile entries is the only one under its key and hides none of theirs. */
  lemma RoleEntryShape(f: seq<(string, string)>, cond: bool, r: string)
    requires DistinctKeys(f) && !HasKey(f, "role")
    ensures var g := SetIf(f, cond, "role", r);
      && DistinctKeys(g)
      && LastValue(g, "role") == (if cond then Some(r) else None)
      && LastValue(g, "name") == LastValue(f, "name")
      && LastValue(g, "email") == LastValue(f, "email")
      && LastValue(g, "password") == LastValue(f, "password")
      && (g == [] <==> f == [] && !cond)
  {
    SetIfShape(f, cond, "role", r);
    SetIfOther(f, cond, "role", r, "name");
    SetIfOther(f, cond, "role", r, "email");
    SetIfOther(f, cond, "role", r, "password");
  }

  /**
   * updateUser: 404 for an unknown id before any validation; then the
   * checks; then the model's update. A row that vanished in between would
   * make the handler fail on the missing result, which is its 500. It runs
   * on the corrected update, under which a taken email is the 409 "Email já
   * existe"; as written that case is the 500 (UpdateConflictAsWrittenIs500).
   */
  method UpdateUser(db: Store, id: Id, name: Param, email: Param, password: Param, role: Param, hash: string)
    returns (r: Result<UserModel.PublicUser>)
    requires db.Valid()
    modifies db`users
    ensures db.Valid()
    ensures id !in old(db.users) ==> r == Err(UserNotFound) && db.users == old(db.users)
    ensures id in old(db.users) && AdminUpdates(name, email, password, role).Err? ==>
      r == Err(AdminUpdates(name, email, password, role).error) && db.users == old(db.users)
    ensures r.Ok? ==>
      && id in old(db.users) && AdminUpdates(name, email, password, role).Ok?
      && var row := UserModel.Updated(old(db.users)[id], AdminFields(name, email, password, role), hash);
         db.users == old(db.users)[id := row] && r.value == UserModel.ToJson(row)
    ensures id in old(db.users) && AdminUpdates(name, email, password, role).Ok? ==>
      var row := UserModel.Updated(old(db.users)[id], AdminFields(name, email, password, role), hash);
      && (UserModel.EmailTaken(old(db.users), row.email, id) ==> r == Err(EmailExists))
      && (!UserModel.EmailTaken(old(db.users), row.email, id) ==> r.Ok?)
    ensures r.Err? ==> db.users == old(db.users)
  {
    if id !in db.users {
      return Err(UserNotFound);
    }
    var updates := AdminUpdates(name, email, password, role);
    if updates.Err? {
      return Err(updates.error);
    }
    AdminFieldsShape(name, email, password, role);
    UserFieldsShape(name, email, password);
    UserModel.AcceptedNonEmpty(db.users[id], updates.value, hash);
    var result := UserModel.Update(db, id, updates.value, hash);
    if result.Err? {
      return Err(CatchEmailInUse(result.error, UpdateFailure));
    }
    if result.value.None? {
      return Err(UpdateFailure);
    }
    r := Ok(UserModel.ToJson(result.value.value));
  }

  /**
   * As the source's user update is written, a taken email reaches
   * updateUser's catch as the store's raw unique violation, which it does
   * not recognise: the answer is the 500 "Erro ao atualizar usuário", not
   * the 409 that UpdateUser (built on the corrected update) gives.
   */
  lemma UpdateConflictAsWrittenIs500(users: map<Id, UserRow>, id: Id, fields: seq<(string, string)>)
    requires id in users
    requires UserModel.EmailTaken(users, UserModel.NewEmail(users[id], fields), id)
    ensures CatchEmailInUse(UserModel.UpdateConflictAsWritten(users, id, fields).value, UpdateFailure) == UpdateFailure
    ensures HttpStatus(CatchEmailInUse(UserModel.UpdateConflictAsWritten(users, id, fields).value, UpdateFailure).kind) == 500
    ensures HttpStatus(CatchEmailInUse(UserModel.EmailInUse, UpdateFailure).kind) == 409
  {
  }

  // ---------------------------------------------------------------------------
  // deleteUser

  /** deleteUser's guards: the user must exist, and it must not be the acting admin. */
  function DeleteCheck(users: map<Id, UserRow>, actor: Actor, id: Id): (r: Outcome)
    ensures id !in users ==> r == Fail(UserNotFound)
    ensures id in users && id == actor.id ==> r == Fail(SelfDeletion)
    ensures r.Pass? <==> id in users && id != actor.id
  {
    if id !in users then Fail(UserNotFound)
    else if id == actor.id then Fail(SelfDeletion)
    else Pass
  }

  /** Nobody deletes their own account: for the own id the answer is 404 or 400, never a deletion. */
  lemma NoSelfDeletion(users: map<Id, UserRow>, actor: Actor)
    ensures DeleteCheck(users, actor, actor.id).Fail?
    ensures HttpStatus(DeleteCheck(users, actor, actor.id).error.kind) in {400, 404}
  {
  }

  /** deleteUser: removes the row when the guards pass; nothing changes otherwise. */
  method DeleteUser(db: Store, actor: Actor, id: Id) returns (r: Outcome)
    requires db.Valid()
    requires IsAdmin(actor)
    modifies db`users
    ensures db.Valid()
    ensures DeleteCheck(old(db.users), actor, id).Fail? ==>
      r == DeleteCheck(old(db.users), actor, id) && db.users == old(db.users)
    ensures DeleteCheck(old(db.users), actor, id).Pass? ==> r == Pass && db.users == old(db.users) - {id}
    ensures actor.id in db.users <==> actor.id in old(db.users)
  {
    var check := DeleteCheck(db.users, actor, id);
    if check.Fail? {
      return check;
    }
    var deleted := UserModel.Delete(db, id);
    if !deleted {
      return Fail(DeleteFailed);
    }
    r := Pass;
  }

  // ---------------------------------------------------------------------------
  // getUserTasks

  /** `task.team_id === team_id`, applied when the team_id query parameter is truthy. */
  function OnTeam(teamId: Param): TaskRow -> bool {
    (t: TaskRow) => Truthy(teamId) ==> t.teamId == teamId.s
  }

  /** The user's tasks the listing pages through: the model's, then the team filter. */
  ghost function UserTaskListing(tasks: map<Id, TaskRow>, teams: map<Id, TeamRow>, id: Id, status: Param, teamId: Param)
    : seq<TaskRow>
  {
    Filter(UserModel.GetTasks(tasks, teams, id, status), OnTeam(teamId))
  }

  datatype TaskList = TaskList(user: UserModel.PublicUser, tasks: seq<TaskRow>, pagination: Pagination)

  /**
   * getUserTasks: 404 for an unknown user; otherwise one slice
   * `[offset, offset + limit)` of the listing, the listing's length as the
   * total, and its pages.
   */
  ghost function GetUserTasks(users: map<Id, UserRow>, tasks: map<Id, TaskRow>, teams: map<Id, TeamRow>, id: Id,
                              status: Param, teamId: Param, page: int, limit: int)
    : (r: Result<TaskList>)
    ensures id !in users ==> r == Err(UserNotFound)
    ensures r.Ok? <==> id in users
    ensures r.Ok? ==> r.value.user == UserModel.ToJson(users[id])
    ensures r.Ok? ==> forall t :: t in r.value.tasks ==>
      t in tasks.Values && UserModel.TaskOfUser(t, teams, id, status) && (Truthy(teamId) ==> t.teamId == teamId.s)
    ensures r.Ok? && Offset(page, limit) >= 0 && limit >= 0 ==> |r.value.tasks| <= limit
    ensures r.Ok? ==> r.value.pagination.total == |UserTaskListing(tasks, teams, id, status, teamId)|
    ensures r.Ok? ==> r.value.pagination.pages == CeilQuotient(r.value.pagination.total, limit)
  {
    if id !in users then Err(UserNotFound)
    else
      var listing := UserTaskListing(tasks, teams, id, status, teamId);
      FilterMembers(UserModel.GetTasks(tasks, teams, id, status), OnTeam(teamId));
      var offset := Offset(page, limit);
      var shown := Slice(listing, offset, offset + limit);
      SliceWindow(listing, offset, limit);
      Ok(TaskList(UserModel.ToJson(users[id]), shown, Pagination(page, limit, |listing|, CeilQuotient(|listing|, limit))))
  }

  /** Every task of the listing is on the page its position gives, and that page is among the reported pages. */
  lemma EveryUserTaskOnSomePage(users: map<Id, UserRow>, tasks: map<Id, TaskRow>, teams: map<Id, TeamRow>, id: Id,
                                status: Param, teamId: Param, limit: int, k: int)
    requires id in users && limit > 0
    requires 0 <= k < |UserTaskListing(tasks, teams, id, status, teamId)|
    ensures var r := GetUserTasks(users, tasks, teams, id, status, teamId, PageOf(k, limit), limit);
      && 1 <= PageOf(k, limit) <= r.value.pagination.pages.value
      && 0 <= SlotOf(k, limit) < |r.value.tasks|
      && r.value.tasks[SlotOf(k, limit)] == UserTaskListing(tasks, teams, id, status, teamId)[k]
  {
    var listing := UserTaskListing(tasks, teams, id, status, teamId);
    var page := PageOf(k, limit);
    var r := GetUserTasks(users, tasks, teams, id, status, teamId, page, limit);
    assert r.value.tasks == Slice(listing, Offset(page, limit), Offset(page, limit) + limit);
    assert r.value.pagination.pages == CeilQuotient(|listing|, limit);
    PageOfRow(listing, limit, k);
  }
}
