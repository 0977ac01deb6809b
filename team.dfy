/**
 * The team model: creation with the creator's automatic membership, the
 * membership relation (add, remove, test), the allowed-column update,
 * deletion, the listing queries, the team's tasks and its statistics.
 */
module TeamModel {
  import opened Outcomes
  import opened Schema
  import opened Database
  import opened Ordering
  import opened JsRuntime
  import TaskModel

  /** The columns `update` may change. */
  const AllowedFields: seq<string> := ["name", "description"]

  /** What `update` throws when no allowed column is given. */
  const NoValidField: Error := Error(Validation, "Nenhum campo válido para atualizar", "")
  /** What `addMember` throws on a unique violation of the (team, user) pair. */
  const AlreadyMember: Error := Error(Conflict, "Usuário já é membro deste time", "")

  /** The default page of findAll. */
  const DefaultLimit: int := 50

  function TeamCreatedAt(t: TeamRow): int {
    t.createdAt
  }

  // ---------------------------------------------------------------------------
  // Membership

  /** isMember: a team_members row for the pair exists. */
  predicate IsMember(members: set<(Id, Id)>, teamId: Id, userId: Id) {
    (teamId, userId) in members
  }

  /**
   * Adding the pair (team, user) makes exactly that user a member of exactly
   * that team, and removing it takes exactly that membership away.
   */
  lemma MembershipUpdates(members: set<(Id, Id)>, teamId: Id, userId: Id, t: Id, u: Id)
    ensures IsMember(members + {(teamId, userId)}, t, u) <==> IsMember(members, t, u) || (t == teamId && u == userId)
    ensures IsMember(members - {(teamId, userId)}, t, u) <==> IsMember(members, t, u) && (t != teamId || u != userId)
  {
  }

  /** addMember: inserts the pair, or fails as a conflict when it is already there. */
  method AddMember(db: Store, teamId: Id, userId: Id) returns (r: Outcome)
    requires db.Valid()
    modifies db`members
    ensures db.Valid()
    ensures r.Fail? <==> IsMember(old(db.members), teamId, userId)
    ensures r.Fail? ==> r.error == AlreadyMember && db.members == old(db.members)
    ensures r.Pass? ==> db.members == old(db.members) + {(teamId, userId)}
    ensures IsMember(db.members, teamId, userId)
  {
    if (teamId, userId) in db.members {
      r := Fail(AlreadyMember);
    } else {
      db.members := db.members + {(teamId, userId)};
      r := Pass;
    }
  }

  /** removeMember: deletes the pair and reports whether it was there. */
  method RemoveMember(db: Store, teamId: Id, userId: Id) returns (removed: bool)
    requires db.Valid()
    modifies db`members
    ensures db.Valid()
    ensures removed <==> IsMember(old(db.members), teamId, userId)
    ensures db.members == old(db.members) - {(teamId, userId)}
    ensures !IsMember(db.members, teamId, userId)
  {
    removed := (teamId, userId) in db.members;
    db.members := db.members - {(teamId, userId)};
  }

  /** Adding a member and removing it again leaves the relation as it was before the add. */
  lemma AddThenRemove(members: set<(Id, Id)>, teamId: Id, userId: Id)
    requires !IsMember(members, teamId, userId)
    ensures (members + {(teamId, userId)}) - {(teamId, userId)} == members
  {
  }

  /** The team's members (the rows the INNER JOIN with users finds), as users without their hash. */
  ghost function GetMembers(users: map<Id, UserRow>, members: set<(Id, Id)>, teamId: Id): (r: seq<UserRow>)
    ensures forall u :: u in r ==>
      u.passwordHash.None? && exists v :: v in users.Values && u == v.(passwordHash := None) && IsMember(members, teamId, v.id)
    ensures forall k :: k in users && IsMember(members, teamId, users[k].id) ==> users[k].(passwordHash := None) in r
  {
    var p := (u: UserRow) => IsMember(members, teamId, u.id);
    var rows := Filter(Rows(users), p);
    FilterMembers(Rows(users), p);
    Unhashed(rows)
  }

  // ---------------------------------------------------------------------------
  // Creation and deletion

  /** create: inserts the team, then makes its creator a member. */
  method Create(db: Store, id: Id, name: string, description: Option<string>, createdBy: Id, now: int)
    returns (team: TeamRow)
    requires db.Valid()
    requires id !in db.teams
    modifies db`teams, db`members
    ensures db.Valid()
    ensures team == TeamRow(id, name, description, createdBy, now)
    ensures db.teams == old(db.teams)[id := team]
    ensures db.members == old(db.members) + {(id, createdBy)}
  {
    team := TeamRow(id, name, description, createdBy, now);
    db.teams := db.teams[id := team];
    var _ := AddMember(db, id, createdBy);
  }

  /** delete: removes the row and reports whether there was one. */
  method Delete(db: Store, id: Id) returns (deleted: bool)
    requires db.Valid()
    modifies db`teams
    ensures db.Valid()
    ensures deleted <==> id in old(db.teams)
    ensures db.teams == old(db.teams) - {id}
  {
    deleted := id in db.teams;
    db.teams := db.teams - {id};
  }

  // ---------------------------------------------------------------------------
  // Update

  /** The teams table holds a name on every row; a description may be NULL. */
  predicate NamesGiven(entries: seq<(string, Option<string>)>) {
    forall i :: 0 <= i < |entries| && entries[i].0 == "name" ==> entries[i].1.Some?
  }

  /** The row after `SET k1 = v1, k2 = v2, ...` over allowed columns. */
  function ApplyTeam(t: TeamRow, fields: seq<(string, Option<string>)>): (r: TeamRow)
    requires NamesGiven(fields)
    ensures r.id == t.id && r.createdBy == t.createdBy && r.createdAt == t.createdAt
  {
    if fields == [] then t
    else
      var u := fields[|fields| - 1];
      var s := ApplyTeam(t, fields[..|fields| - 1]);
      if u.0 == "name" then s.(name := u.1.value)
      else if u.0 == "description" then s.(description := u.1)
      else s
  }

  /** Each column holds the value the update gave it last, and keeps its value when it is not named. */
  lemma {:induction false} ApplyTeamEffect(t: TeamRow, fields: seq<(string, Option<string>)>)
    requires NamesGiven(fields)
    ensures ApplyTeam(t, fields).name ==
      (if LastValue(fields, "name").Some? then LastValue(fields, "name").value.value else t.name)
    ensures ApplyTeam(t, fields).description ==
      (if LastValue(fields, "description").Some? then LastValue(fields, "description").value else t.description)
  {
    if fields != [] {
      ApplyTeamEffect(t, fields[..|fields| - 1]);
    }
  }

  /**
   * update: keeps the entries naming an allowed column; none is an error;
   * otherwise the row, if there is one, is rewritten and returned (null when
   * there is no row with that id).
   */
  method Update(db: Store, id: Id, updates: seq<(string, Option<string>)>) returns (r: Result<Option<TeamRow>>)
    requires db.Valid()
    requires NamesGiven(updates)
    modifies db`teams
    ensures db.Valid()
    ensures KeepAllowed(updates, AllowedFields) == [] ==>
      r == Err(NoValidField) && db.teams == old(db.teams)
    ensures KeepAllowed(updates, AllowedFields) != [] && id !in old(db.teams) ==>
      r == Ok(None) && db.teams == old(db.teams)
    ensures KeepAllowed(updates, AllowedFields) != [] && id in old(db.teams) ==>
      NamesGiven(KeepAllowed(updates, AllowedFields))
      && r == Ok(Some(ApplyTeam(old(db.teams)[id], KeepAllowed(updates, AllowedFields))))
      && db.teams == old(db.teams)[id := r.value.value]
  {
    KeepAllowedExact(updates, AllowedFields);
    var fields := CollectAllowed(updates, AllowedFields);
    if fields == [] {
      return Err(NoValidField);
    }
    if id !in db.teams {
      return Ok(None);
    }
    var updated := ApplyTeam(db.teams[id], fields);
    db.teams := db.teams[id := updated];
    r := Ok(Some(updated));
  }

  // ---------------------------------------------------------------------------
  // Reading

  /** findById: the row, or null. */
  function FindById(teams: map<Id, TeamRow>, id: Id): (r: Option<TeamRow>)
    ensures r.Some? <==> id in teams
    ensures r.Some? ==> r.value == teams[id]
  {
    if id in teams then Some(teams[id]) else None
  }

  /** findAll: the teams whose creator still exists, newest first, one LIMIT/OFFSET page. */
  ghost function FindAll(teams: map<Id, TeamRow>, users: map<Id, UserRow>, limit: int, offset: int)
    : (r: Option<seq<TeamRow>>)
    ensures r.None? <==> limit < 0 || offset < 0
    ensures r.Some? ==> |r.value| <= limit && SortedDesc(r.value, TeamCreatedAt)
    ensures r.Some? ==> forall k :: 0 <= k < |r.value| ==> r.value[k] in teams.Values && HasCreatorRow(r.value[k], users)
    ensures r.Some? && offset == 0 && limit >= |teams| ==>
      forall k :: k in teams && HasCreatorRow(teams[k], users) ==> teams[k] in r.value
  {
    if limit >= 0 && offset >= 0 then
      FindAllSound(teams, users, limit, offset);
      FindAllComplete(teams, users, limit, offset);
      var q := Query(Rows(teams), HasCreator(users), TeamCreatedAt, limit, offset);
      assert q.value == CreatorPage(teams, users, limit, offset);
      q
    else None
  }

  /** A team row survives findAll's INNER JOIN with its creator. */
  predicate HasCreatorRow(t: TeamRow, users: map<Id, UserRow>) {
    t.createdBy in users
  }

  /** The WHERE clause of findAll: the INNER JOIN with the creator. */
  function HasCreator(users: map<Id, UserRow>): TeamRow -> bool {
    (t: TeamRow) => HasCreatorRow(t, users)
  }

  /** The rows of one findAll page. */
  ghost function CreatorPage(teams: map<Id, TeamRow>, users: map<Id, UserRow>, limit: int, offset: int): seq<TeamRow>
    requires limit >= 0 && offset >= 0
  {
    Query(Rows(teams), HasCreator(users), TeamCreatedAt, limit, offset).value
  }

  /** A findAll page holds only teams of the table whose creator exists. */
  lemma FindAllSound(teams: map<Id, TeamRow>, users: map<Id, UserRow>, limit: int, offset: int)
    requires limit >= 0 && offset >= 0
    ensures forall k :: 0 <= k < |CreatorPage(teams, users, limit, offset)| ==>
      CreatorPage(teams, users, limit, offset)[k] in teams.Values && HasCreatorRow(CreatorPage(teams, users, limit, offset)[k], users)
  {
    QuerySound(Rows(teams), HasCreator(users), TeamCreatedAt, limit, offset);
  }

  /** A first findAll page at least as large as the table lists every team whose creator exists. */
  lemma FindAllComplete(teams: map<Id, TeamRow>, users: map<Id, UserRow>, limit: int, offset: int)
    requires limit >= 0 && offset >= 0
    ensures offset == 0 && limit >= |teams| ==>
      forall k :: k in teams && HasCreatorRow(teams[k], users) ==>
        teams[k] in Query(Rows(teams), HasCreator(users), TeamCreatedAt, limit, offset).value
  {
    if offset == 0 && limit >= |teams| {
      TableQueryComplete(teams, HasCreator(users), TeamCreatedAt, limit);
    }
  }


  /** findByUserId: the teams the user belongs to whose creator still exists. */
  ghost function FindByUserId(teams: map<Id, TeamRow>, users: map<Id, UserRow>, members: set<(Id, Id)>, userId: Id)
    : (r: seq<TeamRow>)
    ensures forall t :: t in r ==> t in teams.Values && IsMember(members, t.id, userId) && t.createdBy in users
    ensures forall k :: k in teams && IsMember(members, teams[k].id, userId) && teams[k].createdBy in users ==> teams[k] in r
  {
    var p := (t: TeamRow) => IsMember(members, t.id, userId) && t.createdBy in users;
    FilterMembers(Rows(teams), p);
    Filter(Rows(teams), p)
  }

  /** The WHERE clause of getTasks: the team, and the status and assignee when they are truthy. */
  predicate TaskMatches(t: TaskRow, users: map<Id, UserRow>, teamId: Id, status: Param, assignedTo: Param) {
    && t.teamId == teamId
    && t.createdBy in users
    && (Truthy(status) ==> t.status == status.s)
    && (Truthy(assignedTo) ==> t.assignedTo == Some(assignedTo.s))
  }

  /** getTasks: the team's tasks whose creator exists, newest first. */
  ghost function GetTasks(tasks: map<Id, TaskRow>, users: map<Id, UserRow>, teamId: Id, status: Param, assignedTo: Param)
    : (r: seq<TaskRow>)
    ensures SortedDesc(r, TaskModel.CreatedAt)
    ensures forall t :: t in r ==> t in tasks.Values && TaskMatches(t, users, teamId, status, assignedTo)
    ensures forall k :: k in tasks && TaskMatches(tasks[k], users, teamId, status, assignedTo) ==> tasks[k] in r
  {
    var p := (t: TaskRow) => TaskMatches(t, users, teamId, status, assignedTo);
    var kept := Filter(Rows(tasks), p);
    FilterMembers(Rows(tasks), p);
    var r := SortDesc(kept, TaskModel.CreatedAt);
    assert forall t :: t in r <==> t in multiset(r);
    assert forall t :: t in kept <==> t in multiset(kept);
    r
  }

  // ---------------------------------------------------------------------------
  // Statistics

  /** The ids of the team's tasks. */
  function TeamTasks(tasks: map<Id, TaskRow>, teamId: Id): set<Id> {
    set k | k in tasks && tasks[k].teamId == teamId
  }

  /** The ids of the team's tasks in one status. */
  function InStatus(tasks: map<Id, TaskRow>, teamId: Id, status: string): set<Id> {
    set k | k in tasks && tasks[k].teamId == teamId && tasks[k].status == status
  }

  /** The users some of the given tasks are assigned to: COUNT(DISTINCT assigned_to) skips NULL. */
  function Assignees(tasks: map<Id, TaskRow>, ids: set<Id>): set<Id>
    requires ids <= tasks.Keys
  {
    set k | k in ids && tasks[k].assignedTo.Some? :: tasks[k].assignedTo.value
  }

  /** getStats: one row of counts over the team's tasks. */
  datatype TeamStats = TeamStats(totalTasks: nat, pendingTasks: nat, inProgressTasks: nat,
                                 completedTasks: nat, activeMembers: nat)

  function GetStats(tasks: map<Id, TaskRow>, teamId: Id): (s: TeamStats)
    ensures s.pendingTasks + s.inProgressTasks + s.completedTasks <= s.totalTasks
    ensures s.activeMembers <= s.totalTasks
    ensures s.totalTasks == 0 ==> s == TeamStats(0, 0, 0, 0, 0)
  {
    var all := TeamTasks(tasks, teamId);
    var pending, progress, done := InStatus(tasks, teamId, Pending), InStatus(tasks, teamId, InProgress),
                                   InStatus(tasks, teamId, Completed);
    StatusCountsBound(tasks, teamId);
    AssigneesBound(tasks, all);
    TeamStats(|all|, |pending|, |progress|, |done|, |Assignees(tasks, all)|)
  }

  /** The three status counts are disjoint parts of the total. */
  lemma StatusCountsBound(tasks: map<Id, TaskRow>, teamId: Id)
    ensures |InStatus(tasks, teamId, Pending)| + |InStatus(tasks, teamId, InProgress)|
            + |InStatus(tasks, teamId, Completed)| <= |TeamTasks(tasks, teamId)|
  {
    var all := TeamTasks(tasks, teamId);
    var a, b, c := InStatus(tasks, teamId, Pending), InStatus(tasks, teamId, InProgress),
                   InStatus(tasks, teamId, Completed);
    assert a * b == {} && (a + b) * c == {};
    assert |a + b| == |a| + |b|;
    assert |a + b + c| == |a + b| + |c|;
    SubsetCard(a + b + c, all);
  }

  lemma {:induction false} SubsetCard(a: set<Id>, b: set<Id>)
    requires a <= b
    ensures |a| <= |b|
  {
    assert b == a + (b - a);
    assert a * (b - a) == {};
  }

  /** No more distinct assignees than tasks: each task has at most one. */
  lemma {:induction false} AssigneesBound(tasks: map<Id, TaskRow>, ids: set<Id>)
    requires ids <= tasks.Keys
    ensures |Assignees(tasks, ids)| <= |ids|
    decreases |ids|
  {
    if ids != {} {
      var k :| k in ids;
      var rest := ids - {k};
      AssigneesBound(tasks, rest);
      var one: set<Id> := if tasks[k].assignedTo.Some? then {tasks[k].assignedTo.value} else {};
      assert Assignees(tasks, ids) <= Assignees(tasks, rest) + one;
      SubsetCard(Assignees(tasks, ids), Assignees(tasks, rest) + one);
      assert |Assignees(tasks, rest) + one| <= |Assignees(tasks, rest)| + |one|;
    }
  }
}
