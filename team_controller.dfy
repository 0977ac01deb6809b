/**
 * The team handlers: the membership gate on every read, the validation of
 * creation and update, the active-task preconditions of deleting a team and
 * of removing a member, the order of addMember's checks, and the paging of
 * a team's tasks. Only admins reach the handlers that change teams; that
 * gate is wired in the routes and appears here as a precondition.
 */
module TeamController {
  import opened Outcomes
  import opened Schema
  import opened Database
  import opened Ordering
  import opened JsRuntime
  import TaskModel
  import TeamModel
  import UserModel
  import AuthMiddleware

  const TeamNotFound: Error := AuthMiddleware.TeamNotFound
  const NoTeamAccess: Error := Error(Forbidden, "Acesso negado", "Você não tem acesso a este time")
  const MissingTeamName: Error := Error(Validation, "Nome obrigatório", "Nome do time é obrigatório")
  const TeamNameTooShort: Error := Error(Validation, "Nome muito curto", "Nome do time deve ter pelo menos 2 caracteres")
  const NothingToUpdate: Error := Error(Validation, "Nenhum dado para atualizar", "Forneça pelo menos um campo para atualizar")
  const UpdateTeamFailure: Error := Error(Internal, "Erro interno do servidor", "Erro ao atualizar time")
  const DeleteTeamFailed: Error := Error(Internal, "Erro ao deletar", "Não foi possível deletar o time")
  const MissingUserId: Error := Error(Validation, "ID do usuário obrigatório", "ID do usuário é obrigatório")
  const UserNotFound: Error := Error(NotFound, "Usuário não encontrado", "O usuário especificado não existe")
  const AlreadyInTeam: Error := Error(Conflict, "Usuário já é membro", "O usuário já é membro deste time")
  const AddMemberFailure: Error := Error(Internal, "Erro interno do servidor", "Erro ao adicionar membro ao time")
  const NotInTeam: Error := Error(NotFound, "Usuário não é membro", "O usuário não é membro deste time")
  const RemoveMemberFailed: Error := Error(Internal, "Erro ao remover", "Não foi possível remover o membro do time")
  const ListTeamsFailure: Error := Error(Internal, "Erro interno do servidor", "Erro ao buscar times")

  /** The shortest team name, counted after trimming. */
  const MinNameLength: int := 2
  /** How many of its tasks the team detail shows. */
  const RecentTasks: int := 5

  /** The 400 of deleteTeam, with the number of active tasks in its message. */
  function TeamHasActiveTasks(n: nat): Error {
    Error(Validation, "Time possui tarefas ativas",
          "O time possui " + Decimal(n) + " tarefa(s) ativa(s). Conclua ou reatribua as tarefas antes de deletar o time.")
  }

  /** The 400 of removeMember, with the number of the member's active tasks in its message. */
  function MemberHasActiveTasks(n: nat): Error {
    Error(Validation, "Usuário possui tarefas ativas",
          "O usuário possui " + Decimal(n) + " tarefa(s) ativa(s) neste time. Reatribua as tarefas antes de remover o membro.")
  }

  // ---------------------------------------------------------------------------
  // The membership gate of the reads

  /**
   * getTeamById, getTeamMembers, getTeamTasks and getTeamStats: 404 for an
   * unknown team, then 403 for a user who is neither an admin nor a member.
   */
  function ReadGate(teams: map<Id, TeamRow>, members: set<(Id, Id)>, actor: Actor, id: Id): (r: Result<TeamRow>)
    ensures id !in teams ==> r == Err(TeamNotFound)
    ensures r.Ok? <==> id in teams && (IsAdmin(actor) || TeamModel.IsMember(members, id, actor.id))
    ensures r.Err? && id in teams ==> r.error == NoTeamAccess
    ensures r.Ok? ==> r.value == teams[id]
  {
    if id !in teams then Err(TeamNotFound)
    else if !IsAdmin(actor) && !TeamModel.IsMember(members, id, actor.id) then Err(NoTeamAccess)
    else Ok(teams[id])
  }

  /**
   * For a user who is not an admin, the handlers' gate lets them through
   * exactly when requireTeamMembership would, for the same team id, and both
   * find the same team; only the text of the 403 differs. (An admin passes
   * the middleware with no lookup, and the handler still answers 404 for an
   * unknown team.)
   */
  lemma ReadGateAgreesWithMiddleware(user: UserRow, teams: map<Id, TeamRow>, members: set<(Id, Id)>, id: Id)
    requires id != "" && user.role != AdminRole
    ensures ReadGate(teams, members, Actor(user.id, user.role), id).Ok?
      <==> AuthMiddleware.TeamMembership(Some(user), teams, members, Str(id), Absent).Ok?
    ensures ReadGate(teams, members, Actor(user.id, user.role), id).Ok? ==>
      AuthMiddleware.TeamMembership(Some(user), teams, members, Str(id), Absent)
      == Ok(Some(ReadGate(teams, members, Actor(user.id, user.role), id).value))
  {
  }

  // ---------------------------------------------------------------------------
  // Reads

  datatype TeamDetail = TeamDetail(team: TeamRow, members: seq<UserRow>, tasksCount: nat,
                                   recentTasks: seq<TaskRow>, stats: TeamModel.TeamStats)

  /** getTeamById: the team, its members, how many tasks it has and the five newest, and its statistics. */
  ghost function GetTeamById(tasks: map<Id, TaskRow>, users: map<Id, UserRow>, teams: map<Id, TeamRow>,
                             members: set<(Id, Id)>, actor: Actor, id: Id)
    : (r: Result<TeamDetail>)
    ensures r.Err? <==> ReadGate(teams, members, actor, id).Err?
    ensures r.Err? ==> r.error == ReadGate(teams, members, actor, id).error
    ensures r.Ok? ==> var all := TeamModel.GetTasks(tasks, users, id, Absent, Absent);
      && r.value.team == teams[id]
      && r.value.tasksCount == |all|
      && |r.value.recentTasks| == (if |all| < RecentTasks then |all| else RecentTasks)
      && (forall k :: 0 <= k < |r.value.recentTasks| ==> r.value.recentTasks[k] == all[k])
      && SortedDesc(r.value.recentTasks, TaskModel.CreatedAt)
    ensures r.Ok? ==> r.value.members == TeamModel.GetMembers(users, members, id)
    ensures r.Ok? ==> r.value.stats == TeamModel.GetStats(tasks, id)
  {
    var g := ReadGate(teams, members, actor, id);
    if g.Err? then Err(g.error)
    else
      var all := TeamModel.GetTasks(tasks, users, id, Absent, Absent);
      var recent := Recent(all);
      Ok(TeamDetail(g.value, TeamModel.GetMembers(users, members, id), |all|, recent, TeamModel.GetStats(tasks, id)))
  }

  /** `tasks.slice(0, 5)`: the first five of a newest-first list, still newest first. */
  ghost function Recent(all: seq<TaskRow>): (r: seq<TaskRow>)
    requires SortedDesc(all, TaskModel.CreatedAt)
    ensures |r| == (if |all| < RecentTasks then |all| else RecentTasks)
    ensures forall k :: 0 <= k < |r| ==> r[k] == all[k]
    ensures SortedDesc(r, TaskModel.CreatedAt)
  {
    PrefixSorted(all, RecentTasks, TaskModel.CreatedAt);
    Slice(all, 0, RecentTasks)
  }

  /** getTeamMembers: the team and its members, without their password hashes. */
  ghost function GetTeamMembers(users: map<Id, UserRow>, teams: map<Id, TeamRow>, members: set<(Id, Id)>,
                                actor: Actor, id: Id)
    : (r: Result<(TeamRow, seq<UserRow>)>)
    ensures r.Err? <==> ReadGate(teams, members, actor, id).Err?
    ensures r.Err? ==> r.error == ReadGate(teams, members, actor, id).error
    ensures r.Ok? ==> r.value.0 == teams[id] && forall u :: u in r.value.1 ==>
      u.passwordHash.None? && exists v :: v in users.Values && u == v.(passwordHash := None) && TeamModel.IsMember(members, id, v.id)
    ensures r.Ok? ==> forall k :: k in users && TeamModel.IsMember(members, id, users[k].id) ==>
      users[k].(passwordHash := None) in r.value.1
  {
    var g := ReadGate(teams, members, actor, id);
    if g.Err? then Err(g.error) else Ok((g.value, TeamModel.GetMembers(users, members, id)))
  }

  datatype StatsView = StatsView(team: TeamRow, stats: TeamModel.TeamStats, totalMembers: nat)

  /** getTeamStats: the counts of getStats plus the number of members. */
  ghost function GetTeamStats(tasks: map<Id, TaskRow>, users: map<Id, UserRow>, teams: map<Id, TeamRow>,
                              members: set<(Id, Id)>, actor: Actor, id: Id)
    : (r: Result<StatsView>)
    ensures r.Err? <==> ReadGate(teams, members, actor, id).Err?
    ensures r.Err? ==> r.error == ReadGate(teams, members, actor, id).error
    ensures r.Ok? ==> var s := r.value.stats;
      && r.value.team == teams[id]
      && s.pendingTasks + s.inProgressTasks + s.completedTasks <= s.totalTasks
      && s.activeMembers <= s.totalTasks
      && r.value.stats == TeamModel.GetStats(tasks, id)
      && r.value.totalMembers == |TeamModel.GetMembers(users, members, id)|
  {
    var g := ReadGate(teams, members, actor, id);
    if g.Err? then Err(g.error)
    else Ok(StatsView(g.value, TeamModel.GetStats(tasks, id), |TeamModel.GetMembers(users, members, id)|))
  }

  datatype TeamTaskPage = TeamTaskPage(team: TeamRow, tasks: seq<TaskRow>, pagination: Pagination)

  /** getTeamTasks: the matching tasks, one slice `[offset, offset + limit)` of them, their number and pages. */
  ghost function GetTeamTasks(tasks: map<Id, TaskRow>, users: map<Id, UserRow>, teams: map<Id, TeamRow>,
                              members: set<(Id, Id)>, actor: Actor, id: Id, status: Param, assignedTo: Param,
                              page: int, limit: int)
    : (r: Result<TeamTaskPage>)
    ensures r.Err? <==> ReadGate(teams, members, actor, id).Err?
    ensures r.Err? ==> r.error == ReadGate(teams, members, actor, id).error
    ensures r.Ok? ==> forall t :: t in r.value.tasks ==>
      t in tasks.Values && TeamModel.TaskMatches(t, users, id, status, assignedTo)
    ensures r.Ok? && Offset(page, limit) >= 0 && limit >= 0 ==> |r.value.tasks| <= limit
    ensures r.Ok? ==> r.value.pagination.pages == CeilQuotient(r.value.pagination.total, limit)
  {
    var g := ReadGate(teams, members, actor, id);
    if g.Err? then Err(g.error)
    else
      var all := TeamModel.GetTasks(tasks, users, id, status, assignedTo);
      var offset := Offset(page, limit);
      var shown := Slice(all, offset, offset + limit);
      SliceWindow(all, offset, limit);
      Ok(TeamTaskPage(g.value, shown, Pagination(page, limit, |all|, CeilQuotient(|all|, limit))))
  }

  /** Every matching task is on the page its position gives, and that page is among the reported pages. */
  lemma EveryTeamTaskOnSomePage(tasks: map<Id, TaskRow>, users: map<Id, UserRow>, teams: map<Id, TeamRow>,
                                members: set<(Id, Id)>, actor: Actor, id: Id, status: Param, assignedTo: Param,
                                limit: int, k: int)
    requires ReadGate(teams, members, actor, id).Ok? && limit > 0
    requires 0 <= k < |TeamModel.GetTasks(tasks, users, id, status, assignedTo)|
    ensures var r := GetTeamTasks(tasks, users, teams, members, actor, id, status, assignedTo, PageOf(k, limit), limit);
      && r.Ok? && r.value.pagination.total == |TeamModel.GetTasks(tasks, users, id, status, assignedTo)|
      && 1 <= PageOf(k, limit) <= r.value.pagination.pages.value
      && 0 <= SlotOf(k, limit) < |r.value.tasks|
      && r.value.tasks[SlotOf(k, limit)] == TeamModel.GetTasks(tasks, users, id, status, assignedTo)[k]
  {
    var all := TeamModel.GetTasks(tasks, users, id, status, assignedTo);
    var page := PageOf(k, limit);
    var r := GetTeamTasks(tasks, users, teams, members, actor, id, status, assignedTo, page, limit);
    assert r.value.tasks == Slice(all, Offset(page, limit), Offset(page, limit) + limit);
    assert r.value.pagination.pages == CeilQuotient(|all|, limit);
    PageOfRow(all, limit, k);
  }

  datatype TeamList = TeamList(teams: seq<TeamRow>, pagination: Pagination)

  /**
   * getAllTeams: an admin gets one findAll page and the number of all teams;
   * anyone else gets every team they belong to, and their number.
   */
  ghost function GetAllTeams(teams: map<Id, TeamRow>, users: map<Id, UserRow>, members: set<(Id, Id)>,
                             actor: Actor, page: int, limit: int)
    : (r: Result<TeamList>)
    ensures r.Err? <==> IsAdmin(actor) && (limit < 0 || Offset(page, limit) < 0)
    ensures r.Err? ==> r.error == ListTeamsFailure
    ensures r.Ok? && IsAdmin(actor) ==> |r.value.teams| <= limit && r.value.pagination.total == |teams|
    ensures r.Ok? && !IsAdmin(actor) ==>
      && r.value.pagination.total == |r.value.teams|
      && (forall t :: t in r.value.teams ==> t in teams.Values && TeamModel.IsMember(members, t.id, actor.id))
      && forall k :: k in teams && TeamModel.IsMember(members, teams[k].id, actor.id) && teams[k].createdBy in users ==>
           teams[k] in r.value.teams
    ensures r.Ok? && IsAdmin(actor) ==> forall k :: 0 <= k < |r.value.teams| ==>
      r.value.teams[k] in teams.Values && r.value.teams[k].createdBy in users
    ensures r.Ok? && IsAdmin(actor) && Offset(page, limit) == 0 && limit >= |teams| ==>
      forall k :: k in teams && teams[k].createdBy in users ==> teams[k] in r.value.teams
    ensures r.Ok? ==> r.value.pagination.pages == CeilQuotient(r.value.pagination.total, limit)
  {
    if IsAdmin(actor) then
      var q := TeamModel.FindAll(teams, users, limit, Offset(page, limit));
      if q.None? then Err(ListTeamsFailure)
      else Ok(TeamList(q.value, Pagination(page, limit, |teams|, CeilQuotient(|teams|, limit))))
    else
      var mine := TeamModel.FindByUserId(teams, users, members, actor.id);
      Ok(TeamList(mine, Pagination(page, limit, |mine|, CeilQuotient(|mine|, limit))))
  }

  // ---------------------------------------------------------------------------
  // createTeam

  /** The name and description createTeam stores, or why it refuses. */
  function TeamInput(name: Param, description: Param): (r: Result<(string, Option<string>)>)
    ensures !Truthy(name) ==> r == Err(MissingTeamName)
    ensures r.Ok? <==> Truthy(name) && |Trim(name.s)| >= MinNameLength
    ensures r.Err? && Truthy(name) ==> r.error == TeamNameTooShort
    ensures r.Ok? ==> r.value.0 == Trim(name.s)
    ensures r.Ok? ==> r.value.1 == if Truthy(description) then Some(Trim(description.s)) else None
  {
    if !Truthy(name) then Err(MissingTeamName)
    else if |Trim(name.s)| < MinNameLength then Err(TeamNameTooShort)
    else Ok((Trim(name.s), if Truthy(description) then Some(Trim(description.s)) else None))
  }

  /** A stored name is already trimmed and long enough: submitting it again is accepted unchanged. */
  lemma StoredNameStable(name: Param, description: Param)
    requires TeamInput(name, description).Ok?
    ensures var n := TeamInput(name, description).value.0;
      |n| >= MinNameLength && Trim(n) == n && TeamInput(Str(n), description) == TeamInput(name, description)
  {
    TrimIdempotent(name.s);
  }

  /** createTeam: validation, then Team.create, which makes the admin who calls a member of the new team. */
  method CreateTeam(db: Store, actor: Actor, id: Id, name: Param, description: Param, now: int)
    returns (r: Result<TeamRow>)
    requires db.Valid() && IsAdmin(actor)
    requires id !in db.teams
    modifies db`teams, db`members
    ensures db.Valid()
    ensures var d := TeamInput(name, description);
      && (d.Err? ==> r == Err(d.error) && db.teams == old(db.teams) && db.members == old(db.members))
      && (d.Ok? ==> r == Ok(TeamRow(id, d.value.0, d.value.1, actor.id, now))
                    && db.teams == old(db.teams)[id := r.value]
                    && db.members == old(db.members) + {(id, actor.id)}
                    && TeamModel.IsMember(db.members, id, actor.id))
  {
    var d := TeamInput(name, description);
    if d.Err? {
      return Err(d.error);
    }
    var team := TeamModel.Create(db, id, d.value.0, d.value.1, actor.id, now);
    r := Ok(team);
  }

  // ---------------------------------------------------------------------------
  // updateTeam

  /** `updates.name`, set when the name is truthy. */
  function NameUpdate(name: Param): seq<(string, Option<string>)> {
    if Truthy(name) then [("name", Some(Trim(name.s)))] else []
  }

  /** `updates.description`, set whenever the field is present: trimmed, or null when falsy. */
  function DescriptionUpdate(description: Param): seq<(string, Option<string>)> {
    if Given(description) then [("description", if Truthy(description) then Some(Trim(description.s)) else None)]
    else []
  }

  /** updateTeam's checks, in order, and the updates it hands to Team.update. */
  function TeamUpdates(teams: map<Id, TeamRow>, id: Id, name: Param, description: Param)
    : (r: Result<seq<(string, Option<string>)>>)
    ensures id !in teams ==> r == Err(TeamNotFound)
    ensures r.Ok? <==> id in teams && !(Truthy(name) && |Trim(name.s)| < MinNameLength)
                       && (Truthy(name) || Given(description))
    ensures r.Err? && id in teams ==>
      r.error == (if Truthy(name) && |Trim(name.s)| < MinNameLength then TeamNameTooShort else NothingToUpdate)
    ensures r.Ok? ==> r.value == NameUpdate(name) + DescriptionUpdate(description)
  {
    if id !in teams then Err(TeamNotFound)
    else if Truthy(name) && |Trim(name.s)| < MinNameLength then Err(TeamNameTooShort)
    else
      var updates := NameUpdate(name) + DescriptionUpdate(description);
      if updates == [] then Err(NothingToUpdate) else Ok(updates)
  }

  /** The updates name only allowed columns, and never set the name to null. */
  lemma UpdatesAllowed(name: Param, description: Param)
    ensures var u := NameUpdate(name) + DescriptionUpdate(description);
      TeamModel.NamesGiven(u) && KeepAllowed(u, TeamModel.AllowedFields) == u
  {
    var n, d := NameUpdate(name), DescriptionUpdate(description);
    var u := n + d;
    assert TeamModel.AllowedFields == ["name", "description"];
    forall i | 0 <= i < |u| ensures u[i].0 in TeamModel.AllowedFields && (u[i].0 == "name" ==> u[i].1.Some?) {
      if i < |n| {
        assert u[i] == n[i] && u[i].0 == "name";
      } else {
        assert u[i] == d[i - |n|] && u[i].0 == "description";
      }
    }
    KeepAllowedAll(u, TeamModel.AllowedFields);
  }

  /**
   * The team after updateTeam: a truthy name replaces the name, trimmed; a
   * present description replaces the description, trimmed or null; nothing
   * else of the row changes.
   */
  lemma UpdatedTeam(t: TeamRow, name: Param, description: Param)
    ensures TeamModel.NamesGiven(NameUpdate(name) + DescriptionUpdate(description))
    ensures var r := TeamModel.ApplyTeam(t, NameUpdate(name) + DescriptionUpdate(description));
      && r.name == (if Truthy(name) then Trim(name.s) else t.name)
      && r.description == (if Truthy(description) then Some(Trim(description.s))
                           else if Given(description) then None else t.description)
      && r.id == t.id && r.createdBy == t.createdBy && r.createdAt == t.createdAt
  {
    UpdatesAllowed(name, description);
    var n, d := NameUpdate(name), DescriptionUpdate(description);
    if d != [] {
      assert (n + d)[..|n + d| - 1] == n;
    }
    if n != [] {
      assert n[..0] == [];
    }
  }

  /** updateTeam: the checks, then Team.update with the prepared updates. */
  method UpdateTeam(db: Store, actor: Actor, id: Id, name: Param, description: Param) returns (r: Result<TeamRow>)
    requires db.Valid() && IsAdmin(actor)
    modifies db`teams
    ensures db.Valid()
    ensures var d := TeamUpdates(old(db.teams), id, name, description);
      && (d.Err? ==> r == Err(d.error) && db.teams == old(db.teams))
      && (d.Ok? ==> TeamModel.NamesGiven(d.value)
                    && r == Ok(TeamModel.ApplyTeam(old(db.teams)[id], d.value))
                    && db.teams == old(db.teams)[id := r.value])
  {
    var d := TeamUpdates(db.teams, id, name, description);
    if d.Err? {
      return Err(d.error);
    }
    UpdatesAllowed(name, description);
    r := StoreTeamUpdates(db, id, d.value);
  }

  /** Team.update with updates that name only allowed columns, for a team that exists; a missing row would be the 500. */
  method StoreTeamUpdates(db: Store, id: Id, updates: seq<(string, Option<string>)>) returns (r: Result<TeamRow>)
    requires db.Valid() && id in db.teams && updates != []
    requires TeamModel.NamesGiven(updates) && KeepAllowed(updates, TeamModel.AllowedFields) == updates
    modifies db`teams
    ensures db.Valid()
    ensures r == Ok(TeamModel.ApplyTeam(old(db.teams)[id], updates)) && db.teams == old(db.teams)[id := r.value]
  {
    var u := TeamModel.Update(db, id, updates);
    r := if u.Ok? && u.value.Some? then Ok(u.value.value) else Err(UpdateTeamFailure);
  }

  // ---------------------------------------------------------------------------
  // deleteTeam and removeMember

  predicate IsActive(t: TaskRow) {
    t.status != Completed
  }

  /** `tasks.filter(task => task.status !== 'Concluído')` */
  function ActiveTasks(rows: seq<TaskRow>): (r: seq<TaskRow>)
    ensures forall t :: t in r <==> t in rows && IsActive(t)
  {
    FilterMembers(rows, IsActive);
    Filter(rows, IsActive)
  }

  /** No active task comes back from getTasks iff every task it matches is concluded. */
  lemma NoActiveTasks(tasks: map<Id, TaskRow>, users: map<Id, UserRow>, teamId: Id, assignedTo: Param)
    ensures ActiveTasks(TeamModel.GetTasks(tasks, users, teamId, Absent, assignedTo)) == [] <==>
      forall k :: k in tasks && TeamModel.TaskMatches(tasks[k], users, teamId, Absent, assignedTo) ==>
        tasks[k].status == Completed
  {
    var rows := TeamModel.GetTasks(tasks, users, teamId, Absent, assignedTo);
    var active := ActiveTasks(rows);
    if active != [] {
      assert active[0] in active;
    }
  }

  /** deleteTeam's checks, given the rows team.getTasks returned. */
  function DeleteTeamGate(teams: map<Id, TeamRow>, id: Id, teamTasks: seq<TaskRow>): (r: Outcome)
    ensures id !in teams ==> r == Fail(TeamNotFound)
    ensures r.Pass? <==> id in teams && ActiveTasks(teamTasks) == []
    ensures r.Fail? && id in teams ==> r.error == TeamHasActiveTasks(|ActiveTasks(teamTasks)|)
  {
    if id !in teams then Fail(TeamNotFound)
    else if |ActiveTasks(teamTasks)| > 0 then Fail(TeamHasActiveTasks(|ActiveTasks(teamTasks)|))
    else Pass
  }

  /** A team is deleted only when each of its tasks that getTasks sees is concluded. */
  lemma DeletedTeamsHadNoActiveTasks(tasks: map<Id, TaskRow>, users: map<Id, UserRow>, teams: map<Id, TeamRow>, id: Id)
    ensures DeleteTeamGate(teams, id, TeamModel.GetTasks(tasks, users, id, Absent, Absent)).Pass? <==>
      id in teams && forall k :: k in tasks && tasks[k].teamId == id && tasks[k].createdBy in users ==>
        tasks[k].status == Completed
  {
    NoActiveTasks(tasks, users, id, Absent);
  }

  /** deleteTeam: the checks, then Team.delete; `teamTasks` is what team.getTasks() returned. */
  method DeleteTeam(db: Store, actor: Actor, id: Id, teamTasks: seq<TaskRow>) returns (r: Outcome)
    requires db.Valid() && IsAdmin(actor)
    requires teamTasks == TeamModel.GetTasks(db.tasks, db.users, id, Absent, Absent)
    modifies db`teams
    ensures db.Valid()
    ensures var g := DeleteTeamGate(old(db.teams), id, teamTasks);
      && (g.Fail? ==> r == g && db.teams == old(db.teams))
      && (g.Pass? ==> r == Pass && db.teams == old(db.teams) - {id})
  {
    var g := DeleteTeamGate(db.teams, id, teamTasks);
    if g.Fail? {
      return g;
    }
    var deleted := TeamModel.Delete(db, id);
    r := if deleted then Pass else Fail(DeleteTeamFailed);
  }

  /** removeMember's checks, given the rows team.getTasks(null, userId) returned. */
  function RemoveMemberGate(teams: map<Id, TeamRow>, members: set<(Id, Id)>, id: Id, userId: Id,
                            memberTasks: seq<TaskRow>)
    : (r: Outcome)
    ensures id !in teams ==> r == Fail(TeamNotFound)
    ensures id in teams && !TeamModel.IsMember(members, id, userId) ==> r == Fail(NotInTeam)
    ensures r.Pass? <==> id in teams && TeamModel.IsMember(members, id, userId) && ActiveTasks(memberTasks) == []
    ensures r.Fail? && id in teams && TeamModel.IsMember(members, id, userId) ==>
      r.error == MemberHasActiveTasks(|ActiveTasks(memberTasks)|)
  {
    if id !in teams then Fail(TeamNotFound)
    else if !TeamModel.IsMember(members, id, userId) then Fail(NotInTeam)
    else if |ActiveTasks(memberTasks)| > 0 then Fail(MemberHasActiveTasks(|ActiveTasks(memberTasks)|))
    else Pass
  }

  /** A member leaves a team only when each task of that team assigned to them is concluded. */
  lemma RemovedMembersHadNoActiveTasks(tasks: map<Id, TaskRow>, users: map<Id, UserRow>, teams: map<Id, TeamRow>,
                                       members: set<(Id, Id)>, id: Id, userId: Id)
    requires userId != ""
    ensures RemoveMemberGate(teams, members, id, userId, TeamModel.GetTasks(tasks, users, id, Absent, Str(userId))).Pass?
      <==> id in teams && TeamModel.IsMember(members, id, userId)
           && forall k :: (k in tasks && tasks[k].teamId == id && tasks[k].assignedTo == Some(userId)
                           && tasks[k].createdBy in users) ==> tasks[k].status == Completed
  {
    NoActiveTasks(tasks, users, id, Str(userId));
  }

  /** removeMember: the checks, then team.removeMember; `memberTasks` is what team.getTasks(null, userId) returned. */
  method RemoveMember(db: Store, actor: Actor, id: Id, userId: Id, memberTasks: seq<TaskRow>) returns (r: Outcome)
    requires db.Valid() && IsAdmin(actor)
    requires memberTasks == TeamModel.GetTasks(db.tasks, db.users, id, Absent, Str(userId))
    modifies db`members
    ensures db.Valid()
    ensures var g := RemoveMemberGate(old(db.teams), old(db.members), id, userId, memberTasks);
      && (g.Fail? ==> r == g && db.members == old(db.members))
      && (g.Pass? ==> r == Pass && db.members == old(db.members) - {(id, userId)}
                      && !TeamModel.IsMember(db.members, id, userId))
  {
    var g := RemoveMemberGate(db.teams, db.members, id, userId, memberTasks);
    if g.Fail? {
      return g;
    }
    var removed := TeamModel.RemoveMember(db, id, userId);
    r := if removed then Pass else Fail(RemoveMemberFailed);
  }

  // ---------------------------------------------------------------------------
  // addMember

  /** addMember's checks in their order: user id given, team exists, user exists, not yet a member. */
  function AddMemberGate(teams: map<Id, TeamRow>, users: map<Id, UserRow>, members: set<(Id, Id)>,
                         id: Id, userId: Param)
    : (r: Result<UserRow>)
    ensures !Truthy(userId) ==> r == Err(MissingUserId)
    ensures Truthy(userId) && id !in teams ==> r == Err(TeamNotFound)
    ensures Truthy(userId) && id in teams && userId.s !in users ==> r == Err(UserNotFound)
    ensures Truthy(userId) && id in teams && userId.s in users && TeamModel.IsMember(members, id, userId.s) ==>
      r == Err(AlreadyInTeam)
    ensures r.Ok? <==> Truthy(userId) && id in teams && userId.s in users && !TeamModel.IsMember(members, id, userId.s)
    ensures r.Ok? ==> UserModel.ToJson(r.value) == UserModel.ToJson(users[userId.s])
  {
    if !Truthy(userId) then Err(MissingUserId)
    else if id !in teams then Err(TeamNotFound)
    else
      var user := UserModel.FindById(users, userId.s);
      if user.None? then Err(UserNotFound)
      else if TeamModel.IsMember(members, id, userId.s) then Err(AlreadyInTeam)
      else Ok(user.value)
  }

  /** addMember: the checks, then team.addMember; the answer carries the user without the hash. */
  method AddMember(db: Store, actor: Actor, id: Id, userId: Param) returns (r: Result<UserModel.PublicUser>)
    requires db.Valid() && IsAdmin(actor)
    modifies db`members
    ensures db.Valid()
    ensures var g := AddMemberGate(old(db.teams), old(db.users), old(db.members), id, userId);
      && (g.Err? ==> r == Err(g.error) && db.members == old(db.members))
      && (g.Ok? ==> r == Ok(UserModel.ToJson(old(db.users)[userId.s]))
                    && db.members == old(db.members) + {(id, userId.s)}
                    && TeamModel.IsMember(db.members, id, userId.s))
  {
    var g := AddMemberGate(db.teams, db.users, db.members, id, userId);
    if g.Err? {
      return Err(g.error);
    }
    var added := TeamModel.AddMember(db, id, userId.s);
    r := if added.Pass? then Ok(UserModel.ToJson(g.value)) else Err(AddMemberFailure);
  }

  /** Adding a member that removeMember then lets go restores the membership relation. */
  lemma AddThenRemoveMember(teams: map<Id, TeamRow>, users: map<Id, UserRow>, members: set<(Id, Id)>,
                            id: Id, userId: Id, memberTasks: seq<TaskRow>)
    requires AddMemberGate(teams, users, members, id, Str(userId)).Ok?
    requires ActiveTasks(memberTasks) == []
    ensures RemoveMemberGate(teams, members + {(id, userId)}, id, userId, memberTasks).Pass?
    ensures (members + {(id, userId)}) - {(id, userId)} == members
  {
    TeamModel.AddThenRemove(members, id, userId);
  }
}
