/**
 * The two listings of the task controller that gather rows in loops:
 * getAllTasks, which for a member concatenates one findAll page per team
 * and then adds the member's assigned tasks that are not there yet, and
 * getRecentActivity, which for a member concatenates the activity
 * statistics of each team and sorts and cuts the result.
 */
module TaskListing {
  import opened Outcomes
  import opened Schema
  import opened Database
  import opened Ordering
  import opened JsRuntime
  import TaskModel
  import TeamModel
  import UserModel
  import TaskHistoryModel

  const ListTasksFailure: Error := Error(Internal, "Erro interno do servidor", "Erro ao buscar tarefas")
  const ActivityFailure: Error := Error(Internal, "Erro interno do servidor", "Erro ao buscar atividade recente")

  // ---------------------------------------------------------------------------
  // Gathering rows

  /** `all.push(...page)` for each page in turn. */
  function Flatten<T>(pages: seq<seq<T>>): seq<T> {
    if pages == [] then [] else Flatten(pages[..|pages| - 1]) + pages[|pages| - 1]
  }

  /** The gathered rows are exactly the rows of the pages. */
  lemma {:induction false} FlattenMembers<T>(pages: seq<seq<T>>)
    ensures forall x :: x in Flatten(pages) <==> exists i :: 0 <= i < |pages| && x in pages[i]
  {
    if pages != [] {
      var init := pages[..|pages| - 1];
      FlattenMembers(init);
      assert Flatten(pages) == Flatten(init) + pages[|pages| - 1];
      forall x ensures x in Flatten(pages) <==> exists i :: 0 <= i < |pages| && x in pages[i] {
        if x in Flatten(pages) && x !in pages[|pages| - 1] {
          assert x in Flatten(init);
          var i :| 0 <= i < |init| && x in init[i];
          assert x in pages[i];
        }
        if exists i :: 0 <= i < |pages| && x in pages[i] {
          var i :| 0 <= i < |pages| && x in pages[i];
          if i < |init| {
            assert x in init[i];
          }
        }
      }
    }
  }

  /** The push loop: the rows of every page, page after page. */
  method Concat<T>(pages: seq<seq<T>>) returns (all: seq<T>)
    ensures all == Flatten(pages)
  {
    all := [];
    for i := 0 to |pages|
      invariant all == Flatten(pages[..i])
    {
      assert pages[..i + 1][..i] == pages[..i];
      all := all + pages[i];
    }
    assert pages[..|pages|] == pages;
  }

  // ---------------------------------------------------------------------------
  // Adding the assigned tasks that are missing

  /** `all.find(t => t.id === id)` finds a row. */
  predicate HasId(s: seq<TaskRow>, id: Id) {
    exists i :: 0 <= i < |s| && s[i].id == id
  }

  /** No id occurs twice. */
  predicate UniqueIds(s: seq<TaskRow>) {
    forall i, j :: 0 <= i < j < |s| ==> s[i].id != s[j].id
  }

  /** The second loop of getAllTasks: each extra row is pushed when no gathered row carries its id. */
  function AddMissing(acc: seq<TaskRow>, extra: seq<TaskRow>): seq<TaskRow> {
    if extra == [] then acc
    else
      var prev := AddMissing(acc, extra[..|extra| - 1]);
      var t := extra[|extra| - 1];
      if HasId(prev, t.id) then prev else prev + [t]
  }

  /** `find`: a scan of the gathered rows for one id. */
  method Contains(all: seq<TaskRow>, id: Id) returns (found: bool)
    ensures found <==> HasId(all, id)
  {
    found := false;
    var i := 0;
    while i < |all| && !found
      invariant 0 <= i <= |all|
      invariant found <==> exists j :: 0 <= j < i && all[j].id == id
    {
      found := all[i].id == id;
      i := i + 1;
    }
  }

  /** Both loops of getAllTasks' member branch, before the final slice. */
  method Merge(teamPages: seq<seq<TaskRow>>, userTasks: seq<TaskRow>) returns (all: seq<TaskRow>)
    ensures all == AddMissing(Flatten(teamPages), userTasks)
  {
    all := Concat(teamPages);
    for j := 0 to |userTasks|
      invariant all == AddMissing(Flatten(teamPages), userTasks[..j])
    {
      assert userTasks[..j + 1][..j] == userTasks[..j];
      var present := Contains(all, userTasks[j].id);
      if !present {
        all := all + [userTasks[j]];
      }
    }
    assert userTasks[..|userTasks|] == userTasks;
  }

  /**
   * What the merge promises: the gathered rows stay in front, in their
   * order; every row comes from one of the two lists; every extra row's id
   * is present afterwards; and no id is added twice.
   */
  lemma {:induction false} AddMissingContract(acc: seq<TaskRow>, extra: seq<TaskRow>)
    ensures var r := AddMissing(acc, extra);
      && |acc| <= |r| && r[..|acc|] == acc
      && (forall x :: x in r ==> x in acc || x in extra)
      && (forall i :: 0 <= i < |extra| ==> HasId(r, extra[i].id))
      && (UniqueIds(acc) ==> UniqueIds(r))
  {
    if extra != [] {
      var init := extra[..|extra| - 1];
      var prev := AddMissing(acc, init);
      var t := extra[|extra| - 1];
      var r := AddMissing(acc, extra);
      AddMissingContract(acc, init);
      assert r == prev || r == prev + [t];
      assert r[..|prev|] == prev;
      assert r[..|acc|] == prev[..|acc|];
      forall x | x in r ensures x in acc || x in extra {
        if x in prev {
          assert x in acc || x in init;
        }
      }
      forall i | 0 <= i < |extra| ensures HasId(r, extra[i].id) {
        if i < |init| {
          assert extra[i] == init[i];
          var j :| 0 <= j < |prev| && prev[j].id == init[i].id;
          assert r[j] == prev[j];
        } else if r != prev {
          assert r[|prev|] == t;
        }
      }
      if UniqueIds(acc) && r != prev {
        assert !HasId(prev, t.id);
        forall i, j | 0 <= i < j < |r| ensures r[i].id != r[j].id {
          if j == |prev| {
            assert r[i] == prev[i];
          } else {
            assert r[i] == prev[i] && r[j] == prev[j];
          }
        }
      }
    }
  }

  // ---------------------------------------------------------------------------
  // getAllTasks

  /** The listing page of getAllTasks: the rows, the page and limit echoed, and the rows' count. */
  datatype TaskListPage = TaskListPage(tasks: seq<TaskRow>, page: int, limit: int, total: nat)

  /** `{ ...filters, team_id: teamId }` */
  function ForTeam(f: TaskModel.TaskFilters, teamId: Id): TaskModel.TaskFilters {
    f.(teamId := Str(teamId))
  }

  /** `userTeams.map(team => team.id)` */
  ghost function TeamIds(teams: map<Id, TeamRow>, members: set<(Id, Id)>, userId: Id): (ids: seq<Id>)
    ensures |ids| == |UserModel.GetTeams(teams, members, userId)|
    ensures forall i :: 0 <= i < |ids| ==> TeamModel.IsMember(members, ids[i], userId)
  {
    var ts := UserModel.GetTeams(teams, members, userId);
    assert forall i :: 0 <= i < |ts| ==> ts[i] in ts;
    seq(|ts|, i requires 0 <= i < |ts| => ts[i].id)
  }

  /** One findAll page of each of the member's teams, with the request's filters. */
  ghost function TeamPages(tasks: map<Id, TaskRow>, users: map<Id, UserRow>, teams: map<Id, TeamRow>,
                           f: TaskModel.TaskFilters, teamIds: seq<Id>, limit: int, offset: int)
    : (pages: seq<seq<TaskRow>>)
    requires limit >= 0 && offset >= 0
    ensures |pages| == |teamIds| && forall i :: 0 <= i < |pages| ==> |pages[i]| <= limit
  {
    seq(|teamIds|, i requires 0 <= i < |teamIds| =>
      TaskModel.FindAll(tasks, users, teams, ForTeam(f, teamIds[i]), limit, offset).value)
  }

  /** The member's assigned tasks that findByUserId returns, with the status and team filters. */
  ghost function UserPage(tasks: map<Id, TaskRow>, users: map<Id, UserRow>, teams: map<Id, TeamRow>,
                          userId: Id, f: TaskModel.TaskFilters, limit: int, offset: int)
    : seq<TaskRow>
    requires limit >= 0 && offset >= 0
  {
    TaskModel.FindByUserId(tasks, users, teams, userId, f.status, f.teamId, limit, offset).value
  }

  /**
   * getAllTasks as written. An admin gets one findAll page, a member of no
   * team one findByUserId page. A member of some teams gets the concatenated
   * team pages plus the assigned page's missing rows, sliced again by
   * `[offset, offset + limit)`, so the offset is applied twice. A negative
   * LIMIT or OFFSET makes the store fail, which answers 500.
   */
  ghost function GetAllTasksAsWritten(tasks: map<Id, TaskRow>, users: map<Id, UserRow>, teams: map<Id, TeamRow>,
                                      members: set<(Id, Id)>, actor: Actor, f: TaskModel.TaskFilters,
                                      page: int, limit: int)
    : (r: Result<TaskListPage>)
    ensures r.Err? <==> limit < 0 || Offset(page, limit) < 0
    ensures r.Err? ==> r.error == ListTasksFailure
    ensures r.Ok? ==> r.value.total == |r.value.tasks| && r.value.page == page && r.value.limit == limit
    ensures r.Ok? && IsAdmin(actor) ==>
      r.value.tasks == Slice(TaskModel.Listing(tasks, users, teams, f), Offset(page, limit), Offset(page, limit) + limit)
    ensures r.Ok? && IsAdmin(actor) ==> forall k :: 0 <= k < |r.value.tasks| ==>
      r.value.tasks[k] in tasks.Values && TaskModel.MatchesFilters(f, r.value.tasks[k]) && TaskModel.Joined(r.value.tasks[k], users, teams)
    ensures r.Ok? && IsAdmin(actor) && Offset(page, limit) == 0 && limit >= |tasks| ==>
      forall k :: k in tasks && TaskModel.MatchesFilters(f, tasks[k]) && TaskModel.Joined(tasks[k], users, teams) ==>
        tasks[k] in r.value.tasks
  {
    var offset := Offset(page, limit);
    if limit < 0 || offset < 0 then Err(ListTasksFailure)
    else
      var shown :=
        if IsAdmin(actor) then TaskModel.FindAll(tasks, users, teams, f, limit, offset).value
        else
          var ids := TeamIds(teams, members, actor.id);
          if ids == [] then UserPage(tasks, users, teams, actor.id, f, limit, offset)
          else Slice(AddMissing(Flatten(TeamPages(tasks, users, teams, f, ids, limit, offset)),
                                UserPage(tasks, users, teams, actor.id, f, limit, offset)),
                     offset, offset + limit);
      Ok(TaskListPage(shown, page, limit, |shown|))
  }

  /**
   * A member of exactly one team with nothing assigned sees nothing past
   * the first page, however many tasks the team has: the store already
   * skipped `offset` rows, and the slice skips `offset` rows of what is left.
   */
  lemma DoublePagingEmptiesLaterPages(tasks: map<Id, TaskRow>, users: map<Id, UserRow>, teams: map<Id, TeamRow>,
                                      members: set<(Id, Id)>, actor: Actor, f: TaskModel.TaskFilters,
                                      page: int, limit: int)
    requires !IsAdmin(actor) && |UserModel.GetTeams(teams, members, actor.id)| == 1
    requires forall k :: k in tasks ==> tasks[k].assignedTo != Some(actor.id)
    requires limit > 0 && page >= 2
    ensures GetAllTasksAsWritten(tasks, users, teams, members, actor, f, page, limit)
         == Ok(TaskListPage([], page, limit, 0))
  {
    LaterPageOffset(page, limit);
    LaterPageEmpty(tasks, users, teams, members, actor.id, f, Offset(page, limit), limit);
    AsWrittenMemberPage(tasks, users, teams, members, actor, f, page, limit);
  }

  /** From the second page on, the offset skips at least one whole page. */
  lemma LaterPageOffset(page: int, limit: int)
    requires limit > 0 && page >= 2
    ensures Offset(page, limit) >= limit
  {
    NonNegativeProduct(page - 2, limit);
    assert Offset(page, limit) == (page - 2) * limit + limit;
  }

  /** One team's page and no assigned tasks leave nothing once a whole page is skipped again. */
  lemma LaterPageEmpty(tasks: map<Id, TaskRow>, users: map<Id, UserRow>, teams: map<Id, TeamRow>,
                       members: set<(Id, Id)>, userId: Id, f: TaskModel.TaskFilters, offset: int, limit: int)
    requires |UserModel.GetTeams(teams, members, userId)| == 1
    requires forall k :: k in tasks ==> tasks[k].assignedTo != Some(userId)
    requires 0 <= limit <= offset
    ensures var pages := TeamPages(tasks, users, teams, f, TeamIds(teams, members, userId), limit, offset);
      && TeamIds(teams, members, userId) != []
      && Slice(AddMissing(Flatten(pages), UserPage(tasks, users, teams, userId, f, limit, offset)),
               offset, offset + limit) == []
  {
    var ids := TeamIds(teams, members, userId);
    var pages := TeamPages(tasks, users, teams, f, ids, limit, offset);
    NothingAssigned(tasks, users, teams, userId, f, limit, offset);
    OnePageSkipped(pages, offset, limit);
  }

  /** For a member of some team, getAllTasks as written slices the merged pages. */
  lemma AsWrittenMemberPage(tasks: map<Id, TaskRow>, users: map<Id, UserRow>, teams: map<Id, TeamRow>,
                            members: set<(Id, Id)>, actor: Actor, f: TaskModel.TaskFilters, page: int, limit: int)
    requires !IsAdmin(actor) && TeamIds(teams, members, actor.id) != []
    requires limit >= 0 && Offset(page, limit) >= 0
    ensures var offset, ids := Offset(page, limit), TeamIds(teams, members, actor.id);
      var shown := Slice(AddMissing(Flatten(TeamPages(tasks, users, teams, f, ids, limit, offset)),
                                    UserPage(tasks, users, teams, actor.id, f, limit, offset)),
                         offset, offset + limit);
      GetAllTasksAsWritten(tasks, users, teams, members, actor, f, page, limit)
      == Ok(TaskListPage(shown, page, limit, |shown|))
  {
  }

  /** With no task assigned to the user, findByUserId returns nothing. */
  lemma NothingAssigned(tasks: map<Id, TaskRow>, users: map<Id, UserRow>, teams: map<Id, TeamRow>,
                        userId: Id, f: TaskModel.TaskFilters, limit: int, offset: int)
    requires forall k :: k in tasks ==> tasks[k].assignedTo != Some(userId)
    requires limit >= 0 && offset >= 0
    ensures UserPage(tasks, users, teams, userId, f, limit, offset) == []
  {
    var p := TaskModel.AssignedClause(users, teams, userId, f.status, f.teamId);
    FilterNone(Rows(tasks), p);
  }

  /** A single page of at most `limit` rows has nothing left once `offset >= limit` rows are skipped. */
  lemma OnePageSkipped(pages: seq<seq<TaskRow>>, offset: int, limit: int)
    requires |pages| == 1 && |pages[0]| <= limit <= offset
    ensures Slice(AddMissing(Flatten(pages), []), offset, offset + limit) == []
  {
    assert Flatten(pages) == pages[0] by {
      assert pages[..0] == [];
    }
  }

  /**
   * Every row the member's teams list with the request's filters, newest
   * first per team, followed by the assigned tasks not yet present: the
   * list getAllTasks evidently means to page through.
   */
  ghost function MemberListing(tasks: map<Id, TaskRow>, users: map<Id, UserRow>, teams: map<Id, TeamRow>,
                               members: set<(Id, Id)>, actor: Actor, f: TaskModel.TaskFilters)
    : seq<TaskRow>
  {
    var ids := TeamIds(teams, members, actor.id);
    var listings := seq(|ids|, i requires 0 <= i < |ids| => TaskModel.Listing(tasks, users, teams, ForTeam(f, ids[i])));
    var owned := SortDesc(Filter(Rows(tasks), TaskModel.AssignedClause(users, teams, actor.id, f.status, f.teamId)),
                             TaskModel.CreatedAt);
    AddMissing(Flatten(listings), owned)
  }

  /**
   * getAllTasks with the offset applied once: the member branch slices the
   * whole merged listing instead of merging pages. The admin branch and
   * the branch for a member of no team are as written.
   */
  ghost function GetAllTasks(tasks: map<Id, TaskRow>, users: map<Id, UserRow>, teams: map<Id, TeamRow>,
                             members: set<(Id, Id)>, actor: Actor, f: TaskModel.TaskFilters,
                             page: int, limit: int)
    : (r: Result<TaskListPage>)
    ensures r.Err? <==> limit < 0 || Offset(page, limit) < 0
    ensures r.Err? ==> r.error == ListTasksFailure
    ensures r.Ok? ==> |r.value.tasks| <= limit && r.value.total == |r.value.tasks|
    ensures r.Ok? ==> r.value.page == page && r.value.limit == limit
    ensures r.Ok? && IsAdmin(actor) ==>
      r.value.tasks == Slice(TaskModel.Listing(tasks, users, teams, f), Offset(page, limit), Offset(page, limit) + limit)
    ensures r.Ok? && IsAdmin(actor) ==> forall k :: 0 <= k < |r.value.tasks| ==>
      r.value.tasks[k] in tasks.Values && TaskModel.MatchesFilters(f, r.value.tasks[k]) && TaskModel.Joined(r.value.tasks[k], users, teams)
    ensures r.Ok? && IsAdmin(actor) && Offset(page, limit) == 0 && limit >= |tasks| ==>
      forall k :: k in tasks && TaskModel.MatchesFilters(f, tasks[k]) && TaskModel.Joined(tasks[k], users, teams) ==>
        tasks[k] in r.value.tasks
  {
    var offset := Offset(page, limit);
    if limit < 0 || offset < 0 then Err(ListTasksFailure)
    else
      var shown :=
        if IsAdmin(actor) then TaskModel.FindAll(tasks, users, teams, f, limit, offset).value
        else MemberRows(tasks, users, teams, members, actor, f, limit, offset);
      Ok(TaskListPage(shown, page, limit, |shown|))
  }

  /** A member's page: the assigned tasks for a member of no team, else one slice of the member listing. */
  ghost function MemberRows(tasks: map<Id, TaskRow>, users: map<Id, UserRow>, teams: map<Id, TeamRow>,
                            members: set<(Id, Id)>, actor: Actor, f: TaskModel.TaskFilters, limit: int, offset: int)
    : (shown: seq<TaskRow>)
    requires limit >= 0 && offset >= 0
    ensures |shown| <= limit
  {
    if TeamIds(teams, members, actor.id) == [] then UserPage(tasks, users, teams, actor.id, f, limit, offset)
    else
      SliceWindow(MemberListing(tasks, users, teams, members, actor, f), offset, limit);
      Slice(MemberListing(tasks, users, teams, members, actor, f), offset, offset + limit)
  }

  /**
   * Paging the member listing once reaches every row: row k of the listing
   * is row `k % limit` of page `k / limit + 1`. In the situation of
   * DoublePagingEmptiesLaterPages, a team with more than `limit` tasks
   * thus shows its row `limit` on page 2.
   */
  lemma MemberPagesCoverListing(tasks: map<Id, TaskRow>, users: map<Id, UserRow>, teams: map<Id, TeamRow>,
                                members: set<(Id, Id)>, actor: Actor, f: TaskModel.TaskFilters,
                                limit: int, k: int)
    requires !IsAdmin(actor) && TeamIds(teams, members, actor.id) != []
    requires limit > 0 && 0 <= k < |MemberListing(tasks, users, teams, members, actor, f)|
    ensures var r := GetAllTasks(tasks, users, teams, members, actor, f, PageOf(k, limit), limit);
      && r.Ok? && 0 <= SlotOf(k, limit) < |r.value.tasks|
      && r.value.tasks[SlotOf(k, limit)] == MemberListing(tasks, users, teams, members, actor, f)[k]
  {
    var all := MemberListing(tasks, users, teams, members, actor, f);
    var page := PageOf(k, limit);
    PageStart(k, limit);
    MemberPage(tasks, users, teams, members, actor, f, page, limit);
    SlotOnPage(all, GetAllTasks(tasks, users, teams, members, actor, f, page, limit).value.tasks, limit, k);
  }

  lemma PageStart(k: int, limit: int)
    requires limit > 0 && 0 <= k
    ensures Offset(PageOf(k, limit), limit) >= 0
  {
    assert PageOf(k, limit) >= 1;
    NonNegativeProduct(PageOf(k, limit) - 1, limit);
  }

  lemma SlotOnPage<T>(all: seq<T>, shown: seq<T>, limit: int, k: int)
    requires limit > 0 && 0 <= k < |all|
    requires shown == Slice(all, Offset(PageOf(k, limit), limit), Offset(PageOf(k, limit), limit) + limit)
    ensures 0 <= SlotOf(k, limit) < |shown| && shown[SlotOf(k, limit)] == all[k]
  {
    PageOfRow(all, limit, k);
  }

  /** For a member of some team, getAllTasks shows one slice of the member listing. */
  lemma MemberPage(tasks: map<Id, TaskRow>, users: map<Id, UserRow>, teams: map<Id, TeamRow>,
                   members: set<(Id, Id)>, actor: Actor, f: TaskModel.TaskFilters, page: int, limit: int)
    requires !IsAdmin(actor) && TeamIds(teams, members, actor.id) != []
    requires limit >= 0 && Offset(page, limit) >= 0
    ensures var offset := Offset(page, limit);
      GetAllTasks(tasks, users, teams, members, actor, f, page, limit).value.tasks
      == Slice(MemberListing(tasks, users, teams, members, actor, f), offset, offset + limit)
  {
  }

  // ---------------------------------------------------------------------------
  // getRecentActivity

  /** The `limit` a request without one gets. */
  const DefaultActivityLimit: int := 20

  /**
   * One row of getActivityStatsByTeam: how often a field was changed on one
   * day by one user. The day is the number of the calendar day.
   */
  datatype ActivityRow = ActivityRow(field: string, changeCount: nat, changeDate: int, changedByName: string)

  function ChangeDate(a: ActivityRow): int {
    a.changeDate
  }

  /** What the dashboard receives: history rows for an admin, statistics rows for a member. */
  datatype Activity = Entries(entries: seq<HistoryEntry>) | Stats(rows: seq<ActivityRow>)

  /**
   * The comparator the handler gives to sort, applied to two statistics rows.
   * Those rows have a change date but no `changed_at`, so both dates it builds
   * are invalid, their difference is NaN, and sort takes NaN as "equal".
   */
  function MissingChangedAtOrder(a: ActivityRow, b: ActivityRow): int {
    0
  }

  /** `x` placed after the last row that does not sort after it. */
  function InsertBy<T>(x: T, s: seq<T>, cmp: (T, T) -> int): (r: seq<T>)
    ensures multiset(r) == multiset(s) + multiset{x}
  {
    if s == [] || cmp(s[|s| - 1], x) <= 0 then s + [x]
    else
      assert s == s[..|s| - 1] + [s[|s| - 1]];
      InsertBy(x, s[..|s| - 1], cmp) + [s[|s| - 1]]
  }

  /** `s.sort(cmp)`: stable, and `cmp(a, b) > 0` puts b before a. */
  function SortBy<T>(s: seq<T>, cmp: (T, T) -> int): (r: seq<T>)
    ensures multiset(r) == multiset(s)
  {
    if s == [] then []
    else
      assert s == s[..|s| - 1] + [s[|s| - 1]];
      InsertBy(s[|s| - 1], SortBy(s[..|s| - 1], cmp), cmp)
  }

  /** A comparator that finds every pair equal leaves the rows where they were. */
  lemma {:induction false} SortByAllTies<T>(s: seq<T>, cmp: (T, T) -> int)
    requires forall a, b :: cmp(a, b) == 0
    ensures SortBy(s, cmp) == s
  {
    if s != [] {
      SortByAllTies(s[..|s| - 1], cmp);
      assert s == s[..|s| - 1] + [s[|s| - 1]];
    }
  }

  /** The statistics of each team, in the order of the member's teams. */
  function TeamStats(ids: seq<Id>, stats: Id -> seq<ActivityRow>): (pages: seq<seq<ActivityRow>>)
    ensures |pages| == |ids| && forall i :: 0 <= i < |ids| ==> pages[i] == stats(ids[i])
  {
    seq(|ids|, i requires 0 <= i < |ids| => stats(ids[i]))
  }

  /** A row of some team's statistics. */
  ghost predicate FromTeams(ids: seq<Id>, stats: Id -> seq<ActivityRow>, a: ActivityRow) {
    exists i :: 0 <= i < |ids| && a in stats(ids[i])
  }

  /** The member branch as written: concatenate, sort with the comparator above, keep `limit` rows. */
  function MemberActivityAsWritten(ids: seq<Id>, stats: Id -> seq<ActivityRow>, limit: int): (r: seq<ActivityRow>)
    ensures limit >= 0 ==> |r| <= limit
  {
    Slice(SortBy(Flatten(TeamStats(ids, stats)), MissingChangedAtOrder), 0, limit)
  }

  /** The sort changes nothing: the rows come team by team, each team's rows as the store ordered them. */
  lemma AsWrittenKeepsTeamOrder(ids: seq<Id>, stats: Id -> seq<ActivityRow>, limit: int)
    ensures MemberActivityAsWritten(ids, stats, limit) == Slice(Flatten(TeamStats(ids, stats)), 0, limit)
  {
    SortByAllTies(Flatten(TeamStats(ids, stats)), MissingChangedAtOrder);
  }

  /** Two teams with one change each, the older one in the first team. */
  function TwoTeamsStats(id: Id): seq<ActivityRow> {
    if id == "t1" then [ActivityRow("status", 1, 1, "Ana")] else [ActivityRow("status", 1, 2, "Ana")]
  }

  /** The member sees the older change first. */
  lemma AsWrittenNotNewestFirst()
    ensures var r := MemberActivityAsWritten(["t1", "t2"], TwoTeamsStats, DefaultActivityLimit);
      |r| == 2 && ChangeDate(r[0]) < ChangeDate(r[1]) && !SortedDesc(r, ChangeDate)
  {
    var pages := TeamStats(["t1", "t2"], TwoTeamsStats);
    AsWrittenKeepsTeamOrder(["t1", "t2"], TwoTeamsStats, DefaultActivityLimit);
    assert pages[..1][..0] == [];
    assert Flatten(pages[..1]) == pages[0];
    assert Flatten(pages) == pages[0] + pages[1];
  }

  /** The member branch as intended: the newest days first, at most `limit` rows. */
  function MemberActivity(ids: seq<Id>, stats: Id -> seq<ActivityRow>, limit: int): (r: seq<ActivityRow>)
    ensures limit >= 0 ==> |r| <= limit
    ensures SortedDesc(r, ChangeDate)
    ensures forall k :: 0 <= k < |r| ==> FromTeams(ids, stats, r[k])
  {
    var all := Flatten(TeamStats(ids, stats));
    var sorted := SortDesc(all, ChangeDate);
    PrefixSorted(sorted, limit, ChangeDate);
    SortedPrefixMembers(all, limit, ChangeDate);
    var r := Slice(sorted, 0, limit);
    forall k | 0 <= k < |r| ensures FromTeams(ids, stats, r[k]) {
      assert r[k] in r;
      StatsRowFromTeams(ids, stats, r[k]);
    }
    r
  }

  /** A row of the concatenated statistics comes from one of the teams. */
  lemma StatsRowFromTeams(ids: seq<Id>, stats: Id -> seq<ActivityRow>, a: ActivityRow)
    requires a in Flatten(TeamStats(ids, stats))
    ensures FromTeams(ids, stats, a)
  {
    var pages := TeamStats(ids, stats);
    FlattenMembers(pages);
    var i :| 0 <= i < |pages| && a in pages[i];
    assert a in stats(ids[i]);
  }

  /** With room for all of them, every team's row is shown exactly as often as the teams hold it. */
  lemma MemberActivityComplete(ids: seq<Id>, stats: Id -> seq<ActivityRow>, limit: int)
    requires limit >= |Flatten(TeamStats(ids, stats))|
    ensures multiset(MemberActivity(ids, stats, limit)) == multiset(Flatten(TeamStats(ids, stats)))
  {
    var sorted := SortDesc(Flatten(TeamStats(ids, stats)), ChangeDate);
    assert Slice(sorted, 0, limit) == sorted;
  }

  /** The limit the handler uses: the query's, or 20. */
  function ActivityLimit(limit: Option<int>): int {
    if limit.Some? then limit.value else DefaultActivityLimit
  }

  /**
   * getRecentActivity as written. An admin gets the store's newest history
   * rows; a member gets the statistics of their teams, cut by the sort above.
   */
  ghost function GetRecentActivityAsWritten(history: seq<HistoryEntry>, users: map<Id, UserRow>,
                                            tasks: map<Id, TaskRow>, teams: map<Id, TeamRow>,
                                            members: set<(Id, Id)>, actor: Actor,
                                            stats: Id -> seq<ActivityRow>, limit: Option<int>)
    : (r: Result<Activity>)
    ensures r.Err? <==> IsAdmin(actor) && ActivityLimit(limit) < 0
    ensures r.Err? ==> r.error == ActivityFailure
    ensures r.Ok? ==> (r.value.Entries? <==> IsAdmin(actor))
    ensures r.Ok? && r.value.Stats? && ActivityLimit(limit) >= 0 ==> |r.value.rows| <= ActivityLimit(limit)
  {
    var l := ActivityLimit(limit);
    if IsAdmin(actor) then
      var q := TaskHistoryModel.GetRecentActivity(history, users, tasks, teams, Some(l));
      if q.None? then Err(ActivityFailure) else Ok(Entries(q.value))
    else
      var ids := TeamIds(teams, members, actor.id);
      if ids == [] then Ok(Stats([])) else Ok(Stats(MemberActivityAsWritten(ids, stats, l)))
  }

  /** getRecentActivity with the member's rows sorted by their change date, newest first. */
  ghost function GetRecentActivity(history: seq<HistoryEntry>, users: map<Id, UserRow>,
                                   tasks: map<Id, TaskRow>, teams: map<Id, TeamRow>,
                                   members: set<(Id, Id)>, actor: Actor,
                                   stats: Id -> seq<ActivityRow>, limit: Option<int>)
    : (r: Result<Activity>)
    ensures r.Err? <==> IsAdmin(actor) && ActivityLimit(limit) < 0
    ensures r.Err? ==> r.error == ActivityFailure
    ensures r.Ok? ==> (r.value.Entries? <==> IsAdmin(actor))
    ensures r.Ok? && r.value.Entries? ==>
      |r.value.entries| <= ActivityLimit(limit) && SortedDesc(r.value.entries, TaskHistoryModel.ChangedAt)
    ensures r.Ok? && r.value.Stats? ==>
      && (ActivityLimit(limit) >= 0 ==> |r.value.rows| <= ActivityLimit(limit))
      && SortedDesc(r.value.rows, ChangeDate)
      && forall k :: 0 <= k < |r.value.rows| ==>
           FromTeams(TeamIds(teams, members, actor.id), stats, r.value.rows[k])
  {
    var l := ActivityLimit(limit);
    if IsAdmin(actor) then
      var q := TaskHistoryModel.GetRecentActivity(history, users, tasks, teams, Some(l));
      if q.None? then Err(ActivityFailure) else Ok(Entries(q.value))
    else
      var ids := TeamIds(teams, members, actor.id);
      if ids == [] then Ok(Stats([])) else Ok(Stats(MemberActivity(ids, stats, l)))
  }
}
