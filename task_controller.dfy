/**
 * The task handlers' guard chains: who may see a task and its history,
 * the checks and the row of createTask, the update object updateTask
 * builds field by field, and the permission checks of deleteTask,
 * assignTask and changeStatus. Each chain either yields the value the
 * handler goes on with or the error it answers with.
 */
module TaskController {
  import opened Outcomes
  import opened Schema
  import opened Database
  import opened JsRuntime
  import opened Validation
  import TaskModel
  import TeamModel
  import UserModel
  import TaskHistoryModel
  import AuthMiddleware

  const TaskNotFound: Error := Error(NotFound, "Tarefa não encontrada", "A tarefa especificada não existe")
  const NoTaskAccess: Error := Error(Forbidden, "Acesso negado", "Você não tem acesso a esta tarefa")
  const NoHistoryAccess: Error := Error(Forbidden, "Acesso negado", "Você não tem acesso ao histórico desta tarefa")
  const HistoryFailure: Error := Error(Internal, "Erro interno do servidor", "Erro ao buscar histórico da tarefa")
  const MissingTaskFields: Error := Error(Validation, "Dados obrigatórios", "Título e ID do time são obrigatórios")
  const TitleTooShort: Error := Error(Validation, "Título muito curto", "Título deve ter pelo menos 3 caracteres")
  const InvalidStatus: Error := Error(Validation, "Status inválido", "Status deve ser: Pendente, Em progresso ou Concluído")
  const InvalidPriority: Error := Error(Validation, "Prioridade inválida", "Prioridade deve ser: Alta, Média ou Baixa")
  const AssigneeNotFound: Error := Error(NotFound, "Usuário não encontrado", "O usuário a ser atribuído não existe")
  const AssigneeNotMember: Error :=
    Error(Validation, "Usuário não é membro do time", "O usuário atribuído deve ser membro do time")
  const InvalidDueDate: Error := Error(Validation, "Data inválida", "Formato de data de vencimento inválido")
  const NoEditPermission: Error := Error(Forbidden, "Acesso negado", "Você não tem permissão para editar esta tarefa")
  const UpdateTaskFailure: Error := Error(Internal, "Erro interno do servidor", "Erro ao atualizar tarefa")
  const NoDeletePermission: Error :=
    Error(Forbidden, "Acesso negado", "Apenas administradores ou o criador podem deletar esta tarefa")
  const DeleteFailed: Error := Error(Internal, "Erro ao deletar", "Não foi possível deletar a tarefa")
  const MissingAssignee: Error := Error(Validation, "ID do usuário obrigatório", "ID do usuário é obrigatório")
  const NoAssignPermission: Error := Error(Forbidden, "Acesso negado", "Você não tem permissão para atribuir esta tarefa")
  const MissingStatus: Error := Error(Validation, "Status obrigatório", "Novo status é obrigatório")
  const NoStatusPermission: Error :=
    Error(Forbidden, "Acesso negado", "Você não tem permissão para alterar o status desta tarefa")

  // ---------------------------------------------------------------------------
  // Seeing a task: getTaskById and getTaskHistory

  /** The access rule of getTaskById and getTaskHistory: an admin, a member of the task's team, its assignee, its creator. */
  predicate CanView(members: set<(Id, Id)>, t: TaskRow, actor: Actor) {
    || IsAdmin(actor)
    || TeamModel.IsMember(members, t.teamId, actor.id)
    || t.assignedTo == Some(actor.id)
    || t.createdBy == actor.id
  }

  /** The task, found and visible to the actor; `denied` is the 403 of the handler. */
  function ViewTask(tasks: map<Id, TaskRow>, users: map<Id, UserRow>, teams: map<Id, TeamRow>,
                    members: set<(Id, Id)>, actor: Actor, id: Id, denied: Error)
    : (r: Result<TaskRow>)
    ensures TaskModel.FindById(tasks, users, teams, id).None? ==> r == Err(TaskNotFound)
    ensures r.Ok? <==> TaskModel.FindById(tasks, users, teams, id).Some? && CanView(members, tasks[id], actor)
    ensures r.Ok? ==> r.value == tasks[id]
    ensures TaskModel.FindById(tasks, users, teams, id).Some? && r.Err? ==> r.error == denied
  {
    var found := TaskModel.FindById(tasks, users, teams, id);
    if found.None? then Err(TaskNotFound)
    else if !CanView(members, found.value, actor) then Err(denied)
    else Ok(found.value)
  }

  /** What getTaskById answers with. */
  datatype TaskDetail = TaskDetail(task: TaskRow, history: seq<HistoryEntry>, canEdit: bool,
                                   isOverdue: bool, daysRemaining: Option<int>)

  /** getTaskById: the visible task with its history (the default page of findByTaskId) and what it says about itself. */
  function GetTaskById(tasks: map<Id, TaskRow>, users: map<Id, UserRow>, teams: map<Id, TeamRow>,
                       members: set<(Id, Id)>, history: seq<HistoryEntry>, actor: Actor, id: Id, now: int)
    : (r: Result<TaskDetail>)
    ensures r.Ok? <==> TaskModel.FindById(tasks, users, teams, id).Some? && CanView(members, tasks[id], actor)
    ensures r.Err? ==> r.error in {TaskNotFound, NoTaskAccess}
    ensures r.Ok? ==>
      && r.value.task == tasks[id]
      && r.value.canEdit == TaskModel.CanEdit(tasks[id], actor.id, actor.role)
      && r.value.isOverdue == TaskModel.IsOverdue(tasks[id], now)
      && r.value.daysRemaining == TaskModel.DaysRemaining(tasks[id], now)
    ensures r.Ok? ==> forall k :: 0 <= k < |r.value.history| ==>
      r.value.history[k] in history && r.value.history[k].taskId == id
  {
    var v := ViewTask(tasks, users, teams, members, actor, id, NoTaskAccess);
    if v.Err? then Err(v.error)
    else
      var t := v.value;
      Ok(TaskDetail(t, TaskHistoryModel.FindByTaskId(history, users, id, None, None).value,
                    TaskModel.CanEdit(t, actor.id, actor.role), TaskModel.IsOverdue(t, now),
                    TaskModel.DaysRemaining(t, now)))
  }

  /** The part of the task getTaskHistory echoes. */
  datatype TaskSummary = TaskSummary(id: Id, title: string, status: string)

  datatype HistoryPage = HistoryPage(task: TaskSummary, history: seq<HistoryEntry>, page: int, limit: int)

  /** getTaskHistory: the same access rule, then one page of the task's history, newest first; the store rejects a negative LIMIT or OFFSET. */
  function GetTaskHistory(tasks: map<Id, TaskRow>, users: map<Id, UserRow>, teams: map<Id, TeamRow>,
                          members: set<(Id, Id)>, history: seq<HistoryEntry>, actor: Actor, id: Id,
                          page: int, limit: int)
    : (r: Result<HistoryPage>)
    ensures r.Ok? <==> TaskModel.FindById(tasks, users, teams, id).Some? && CanView(members, tasks[id], actor)
                       && limit >= 0 && Offset(page, limit) >= 0
    ensures r.Err? ==> r.error in {TaskNotFound, NoHistoryAccess, HistoryFailure}
    ensures r.Ok? ==> r.value.task == TaskSummary(tasks[id].id, tasks[id].title, tasks[id].status)
    ensures r.Ok? ==> |r.value.history| <= limit && Ordering.SortedDesc(r.value.history, TaskHistoryModel.ChangedAt)
    ensures r.Ok? ==> forall k :: 0 <= k < |r.value.history| ==>
      r.value.history[k] in history && r.value.history[k].taskId == id
  {
    var v := ViewTask(tasks, users, teams, members, actor, id, NoHistoryAccess);
    if v.Err? then Err(v.error)
    else
      var h := TaskHistoryModel.FindByTaskId(history, users, id, Some(limit), Some(Offset(page, limit)));
      if h.None? then Err(HistoryFailure)
      else Ok(HistoryPage(TaskSummary(v.value.id, v.value.title, v.value.status), h.value, page, limit))
  }

  /** Whoever may edit a task may see it. */
  lemma EditorsCanView(members: set<(Id, Id)>, t: TaskRow, actor: Actor)
    ensures TaskModel.CanEdit(t, actor.id, actor.role) ==> CanView(members, t, actor)
  {
  }

  /** The history of a task is open to exactly those who may open the task. */
  lemma HistoryFollowsTaskAccess(tasks: map<Id, TaskRow>, users: map<Id, UserRow>, teams: map<Id, TeamRow>,
                                 members: set<(Id, Id)>, history: seq<HistoryEntry>, actor: Actor, id: Id,
                                 page: int, limit: int, now: int)
    requires limit >= 0 && Offset(page, limit) >= 0
    ensures GetTaskById(tasks, users, teams, members, history, actor, id, now).Ok?
        <==> GetTaskHistory(tasks, users, teams, members, history, actor, id, page, limit).Ok?
  {
  }

  // ---------------------------------------------------------------------------
  // createTask

  /** `['Pendente', 'Em progresso', 'Concluído'].includes(status)` once an undefined status has become Pendente. */
  predicate StatusChoice(status: Param) {
    var s := Defaulted(status, Pending);
    s.Str? && IsStatus(s.s)
  }

  /** The same for the priority, which defaults to Média. */
  predicate PriorityChoice(priority: Param) {
    var p := Defaulted(priority, Medium);
    p.Str? && IsPriority(p.s)
  }

  /** The checks createTask makes before it reads the store, in their order. */
  function CheckTaskInput(title: Param, teamId: Param, status: Param, priority: Param): (r: Outcome)
    ensures !Truthy(title) || !Truthy(teamId) ==> r == Fail(MissingTaskFields)
    ensures Truthy(title) && Truthy(teamId) && !LongEnough(title.s, MinTitleLength) ==> r == Fail(TitleTooShort)
    ensures Truthy(title) && Truthy(teamId) && LongEnough(title.s, MinTitleLength) && !StatusChoice(status) ==>
      r == Fail(InvalidStatus)
    ensures (Truthy(title) && Truthy(teamId) && LongEnough(title.s, MinTitleLength) && StatusChoice(status)
             && !PriorityChoice(priority)) ==> r == Fail(InvalidPriority)
    ensures r.Pass? <==> Truthy(title) && Truthy(teamId) && LongEnough(title.s, MinTitleLength)
                         && StatusChoice(status) && PriorityChoice(priority)
  {
    if !Truthy(title) || !Truthy(teamId) then Fail(MissingTaskFields)
    else if !LongEnough(title.s, MinTitleLength) then Fail(TitleTooShort)
    else if !StatusChoice(status) then Fail(InvalidStatus)
    else if !PriorityChoice(priority) then Fail(InvalidPriority)
    else Pass
  }

  /** An omitted status or priority takes its default and passes; a null one is not replaced, and is rejected. */
  lemma OmittedChoicesDefault()
    ensures StatusChoice(Absent) && Defaulted(Absent, Pending) == Str(Pending)
    ensures PriorityChoice(Absent) && Defaulted(Absent, Medium) == Str(Medium)
    ensures !StatusChoice(JsonNull) && !PriorityChoice(JsonNull)
  {
  }

  /**
   * The rest of createTask's chain and the arguments of the create call:
   * the team must exist; a non-admin must belong to it; a truthy assignee
   * must exist and, unless the actor is an admin, belong to the team; a
   * truthy due date must parse. `parse` is `new Date(text)`, None for an
   * invalid date. The assignee goes to the INSERT as given: a string,
   * the empty one included, is written; undefined and null are NULL.
   */
  function CreateTaskInput(users: map<Id, UserRow>, teams: map<Id, TeamRow>, members: set<(Id, Id)>, actor: Actor,
                           title: Param, description: Param, status: Param, priority: Param,
                           assignedTo: Param, teamId: Param, dueDate: Param, parse: string -> Option<Date>)
    : (r: Result<TaskModel.NewTask>)
    ensures CheckTaskInput(title, teamId, status, priority).Fail? ==>
      r == Err(CheckTaskInput(title, teamId, status, priority).error)
    ensures CheckTaskInput(title, teamId, status, priority).Pass? && teamId.s !in teams ==>
      r == Err(AuthMiddleware.TeamNotFound)
    ensures (CheckTaskInput(title, teamId, status, priority).Pass? && teamId.s in teams
             && !IsAdmin(actor) && !TeamModel.IsMember(members, teamId.s, actor.id)) ==>
      r == Err(AuthMiddleware.NotTeamMember)
    ensures (CheckTaskInput(title, teamId, status, priority).Pass? && teamId.s in teams
             && (IsAdmin(actor) || TeamModel.IsMember(members, teamId.s, actor.id))
             && Truthy(assignedTo) && assignedTo.s !in users) ==>
      r == Err(AssigneeNotFound)
    ensures (CheckTaskInput(title, teamId, status, priority).Pass? && teamId.s in teams
             && !IsAdmin(actor) && TeamModel.IsMember(members, teamId.s, actor.id)
             && Truthy(assignedTo) && assignedTo.s in users && !TeamModel.IsMember(members, teamId.s, assignedTo.s)) ==>
      r == Err(AssigneeNotMember)
    ensures (CheckTaskInput(title, teamId, status, priority).Pass? && teamId.s in teams
             && (IsAdmin(actor) || TeamModel.IsMember(members, teamId.s, actor.id))
             && (Truthy(assignedTo) ==>
                   assignedTo.s in users && (IsAdmin(actor) || TeamModel.IsMember(members, teamId.s, assignedTo.s)))
             && Truthy(dueDate) && parse(dueDate.s).None?) ==>
      r == Err(InvalidDueDate)
    ensures r.Ok? <==>
      && CheckTaskInput(title, teamId, status, priority).Pass?
      && teamId.s in teams
      && (IsAdmin(actor) || TeamModel.IsMember(members, teamId.s, actor.id))
      && (Truthy(assignedTo) ==>
            assignedTo.s in users && (IsAdmin(actor) || TeamModel.IsMember(members, teamId.s, assignedTo.s)))
      && (Truthy(dueDate) ==> parse(dueDate.s).Some?)
    ensures IsAdmin(actor) ==> r != Err(AuthMiddleware.NotTeamMember) && r != Err(AssigneeNotMember)
    ensures r.Ok? ==> r.value.title == Trim(title.s) && |r.value.title| >= MinTitleLength
    ensures r.Ok? ==> r.value.description == (if Truthy(description) then Some(Trim(description.s)) else None)
    ensures r.Ok? ==> r.value.createdBy == actor.id && r.value.teamId == teamId.s
    ensures r.Ok? ==> r.value.assignedTo == (if assignedTo.Str? then Some(assignedTo.s) else None)
    ensures r.Ok? ==> r.value.dueDate == (if Truthy(dueDate) then parse(dueDate.s) else None)
    ensures r.Ok? ==> r.value.status.Some? && IsStatus(r.value.status.value)
                      && (status.Absent? ==> r.value.status == Some(Pending))
                      && (status.Str? ==> r.value.status == Some(status.s))
    ensures r.Ok? ==> r.value.priority.Some? && IsPriority(r.value.priority.value)
                      && (priority.Absent? ==> r.value.priority == Some(Medium))
                      && (priority.Str? ==> r.value.priority == Some(priority.s))
  {
    var c := CheckTaskInput(title, teamId, status, priority);
    if c.Fail? then Err(c.error)
    else if TeamModel.FindById(teams, teamId.s).None? then Err(AuthMiddleware.TeamNotFound)
    else if !IsAdmin(actor) && !TeamModel.IsMember(members, teamId.s, actor.id) then Err(AuthMiddleware.NotTeamMember)
    else if Truthy(assignedTo) && UserModel.FindById(users, assignedTo.s).None? then Err(AssigneeNotFound)
    else if Truthy(assignedTo) && !TeamModel.IsMember(members, teamId.s, assignedTo.s) && !IsAdmin(actor) then
      Err(AssigneeNotMember)
    else if Truthy(dueDate) && parse(dueDate.s).None? then Err(InvalidDueDate)
    else
      Ok(TaskModel.NewTask(Trim(title.s),
                           if Truthy(description) then Some(Trim(description.s)) else None,
                           Some(Defaulted(status, Pending).s), Some(Defaulted(priority, Medium).s),
                           if assignedTo.Str? then Some(assignedTo.s) else None,
                           teamId.s, actor.id,
                           if Truthy(dueDate) then parse(dueDate.s) else None))
  }

  /** createTask: the chain, then Task.create with the prepared arguments, which also logs the creation. */
  method CreateTask(db: Store, actor: Actor, id: Id, title: Param, description: Param, status: Param,
                    priority: Param, assignedTo: Param, teamId: Param, dueDate: Param,
                    parse: string -> Option<Date>, now: int)
    returns (r: Result<TaskRow>)
    requires db.Valid() && id !in db.tasks
    modifies db`tasks, db`history, db`serial
    ensures db.Valid()
    ensures var d := CreateTaskInput(old(db.users), old(db.teams), old(db.members), actor, title, description,
                                     status, priority, assignedTo, teamId, dueDate, parse);
      && (d.Err? ==> r == Err(d.error) && db.tasks == old(db.tasks) && db.history == old(db.history)
                     && db.serial == old(db.serial))
      && (d.Ok? ==> r == Ok(TaskModel.NewRow(id, d.value, now)) && db.tasks == old(db.tasks)[id := r.value]
                    && db.history == old(db.history) + [TaskModel.CreationEntry(old(db.serial), id, actor.id, now)])
  {
    var d := CreateTaskInput(db.users, db.teams, db.members, actor, title, description, status, priority,
                             assignedTo, teamId, dueDate, parse);
    if d.Err? {
      return Err(d.error);
    }
    var t := TaskModel.Create(db, id, d.value, now);
    r := Ok(t);
  }

  // ---------------------------------------------------------------------------
  // updateTask

  /** `updates.assigned_to = assigned_to`: the field exactly as given, null included. */
  function AssigneeValue(assignedTo: Param): Value {
    if assignedTo.Str? then Text(assignedTo.s) else Null
  }

  /** `updates.due_date`: the parsed date when the field is truthy, null when it is falsy. */
  function DueDateValue(dueDate: Param, parse: string -> Option<Date>): Value {
    if Truthy(dueDate) && parse(dueDate.s).Some? then Instant(parse(dueDate.s).value) else Null
  }

  /** `updates.title`: the trimmed title. */
  function TitleValue(title: Param): Value {
    Text(if title.Str? then Trim(title.s) else "")
  }

  /** `updates.description`: the trimmed description, or null when it is falsy. */
  function DescriptionValue(description: Param): Value {
    if Truthy(description) then Text(Trim(description.s)) else Null
  }

  /** `updates.status` and `updates.priority`: the field as sent. */
  function ChoiceValue(choice: Param): Value {
    Text(if choice.Str? then choice.s else "")
  }

  /** Six conditional assignments, one per column of `update`, in its order. */
  function StepList(c0: bool, v0: Value, c1: bool, v1: Value, c2: bool, v2: Value,
                    c3: bool, v3: Value, c4: bool, v4: Value, c5: bool, v5: Value)
    : seq<(bool, string, Value)>
  {
    [(c0, "title", v0), (c1, "description", v1), (c2, "status", v2),
     (c3, "priority", v3), (c4, "assigned_to", v4), (c5, "due_date", v5)]
  }

  /**
   * The assignments of updateTask to its `updates` object, in their order:
   * a truthy title trimmed; a given description trimmed, or null when
   * falsy; a truthy status and priority; a given assignee as it is; a given
   * due date parsed, or null when falsy.
   */
  function TaskSteps(title: Param, description: Param, status: Param, priority: Param,
                     assignedTo: Param, dueDate: Param, parse: string -> Option<Date>)
    : (steps: seq<(bool, string, Value)>)
    ensures FollowsColumns(steps)
  {
    StepListShape(Truthy(title), TitleValue(title), Given(description), DescriptionValue(description),
                  Truthy(status), ChoiceValue(status), Truthy(priority), ChoiceValue(priority),
                  Given(assignedTo), AssigneeValue(assignedTo), Given(dueDate), DueDateValue(dueDate, parse));
    StepList(Truthy(title), TitleValue(title), Given(description), DescriptionValue(description),
             Truthy(status), ChoiceValue(status), Truthy(priority), ChoiceValue(priority),
             Given(assignedTo), AssigneeValue(assignedTo), Given(dueDate), DueDateValue(dueDate, parse))
  }

  /** The `updates` object itself. */
  function TaskFields(title: Param, description: Param, status: Param, priority: Param,
                      assignedTo: Param, dueDate: Param, parse: string -> Option<Date>)
    : seq<(string, Value)>
  {
    Assigned(TaskSteps(title, description, status, priority, assignedTo, dueDate, parse))
  }

  /** The task exists, with its creator and team, and the actor may edit it. */
  predicate Editable(tasks: map<Id, TaskRow>, users: map<Id, UserRow>, teams: map<Id, TeamRow>, actor: Actor, id: Id) {
    TaskModel.FindById(tasks, users, teams, id).Some? && TaskModel.CanEdit(tasks[id], actor.id, actor.role)
  }

  /**
   * The field checks updateTask makes on a task of team `teamId`, in their
   * order: a truthy title must be long enough, a truthy status and priority
   * must be valid, a truthy assignee must exist and, for a non-admin, belong
   * to the team, and a truthy due date must parse.
   */
  function FieldChecks(users: map<Id, UserRow>, members: set<(Id, Id)>, actor: Actor, teamId: Id, title: Param,
                       status: Param, priority: Param, assignedTo: Param, dueDate: Param,
                       parse: string -> Option<Date>)
    : (c: Outcome)
    ensures Truthy(title) && !LongEnough(title.s, MinTitleLength) ==> c == Fail(TitleTooShort)
    ensures (Truthy(title) ==> LongEnough(title.s, MinTitleLength)) && Truthy(status) && !IsStatus(status.s) ==>
      c == Fail(InvalidStatus)
    ensures ((Truthy(title) ==> LongEnough(title.s, MinTitleLength)) && (Truthy(status) ==> IsStatus(status.s))
             && Truthy(priority) && !IsPriority(priority.s)) ==>
      c == Fail(InvalidPriority)
    ensures ((Truthy(title) ==> LongEnough(title.s, MinTitleLength)) && (Truthy(status) ==> IsStatus(status.s))
             && (Truthy(priority) ==> IsPriority(priority.s)) && Truthy(assignedTo) && assignedTo.s !in users) ==>
      c == Fail(AssigneeNotFound)
    ensures ((Truthy(title) ==> LongEnough(title.s, MinTitleLength)) && (Truthy(status) ==> IsStatus(status.s))
             && (Truthy(priority) ==> IsPriority(priority.s)) && Truthy(assignedTo) && assignedTo.s in users
             && !IsAdmin(actor) && !TeamModel.IsMember(members, teamId, assignedTo.s)) ==>
      c == Fail(AssigneeNotMember)
    ensures ((Truthy(title) ==> LongEnough(title.s, MinTitleLength)) && (Truthy(status) ==> IsStatus(status.s))
             && (Truthy(priority) ==> IsPriority(priority.s))
             && (Truthy(assignedTo) ==>
                   assignedTo.s in users && (IsAdmin(actor) || TeamModel.IsMember(members, teamId, assignedTo.s)))
             && Truthy(dueDate) && parse(dueDate.s).None?) ==>
      c == Fail(InvalidDueDate)
    ensures c.Pass? <==>
      && (Truthy(title) ==> LongEnough(title.s, MinTitleLength))
      && (Truthy(status) ==> IsStatus(status.s))
      && (Truthy(priority) ==> IsPriority(priority.s))
      && (Truthy(assignedTo) ==>
            assignedTo.s in users && (IsAdmin(actor) || TeamModel.IsMember(members, teamId, assignedTo.s)))
      && (Truthy(dueDate) ==> parse(dueDate.s).Some?)
  {
    if Truthy(title) && !LongEnough(title.s, MinTitleLength) then Fail(TitleTooShort)
    else if Truthy(status) && !IsStatus(status.s) then Fail(InvalidStatus)
    else if Truthy(priority) && !IsPriority(priority.s) then Fail(InvalidPriority)
    else if Truthy(assignedTo) && UserModel.FindById(users, assignedTo.s).None? then Fail(AssigneeNotFound)
    else if Truthy(assignedTo) && !IsAdmin(actor) && !TeamModel.IsMember(members, teamId, assignedTo.s) then
      Fail(AssigneeNotMember)
    else if Truthy(dueDate) && parse(dueDate.s).None? then Fail(InvalidDueDate)
    else Pass
  }

  /**
   * updateTask's chain: the task must exist and the actor may edit it; then
   * the field checks; and at least one field must be set.
   */
  function TaskUpdates(tasks: map<Id, TaskRow>, users: map<Id, UserRow>, teams: map<Id, TeamRow>,
                       members: set<(Id, Id)>, actor: Actor, id: Id, title: Param, description: Param,
                       status: Param, priority: Param, assignedTo: Param, dueDate: Param,
                       parse: string -> Option<Date>)
    : (r: Result<seq<(string, Value)>>)
    ensures TaskModel.FindById(tasks, users, teams, id).None? ==> r == Err(TaskNotFound)
    ensures (TaskModel.FindById(tasks, users, teams, id).Some?
             && !TaskModel.CanEdit(tasks[id], actor.id, actor.role)) ==> r == Err(NoEditPermission)
    ensures (Editable(tasks, users, teams, actor, id)
             && FieldChecks(users, members, actor, tasks[id].teamId, title, status, priority, assignedTo, dueDate, parse).Fail?) ==>
      r == Err(FieldChecks(users, members, actor, tasks[id].teamId, title, status, priority, assignedTo, dueDate, parse).error)
    ensures (Editable(tasks, users, teams, actor, id)
             && FieldChecks(users, members, actor, tasks[id].teamId, title, status, priority, assignedTo, dueDate, parse).Pass?
             && TaskFields(title, description, status, priority, assignedTo, dueDate, parse) == []) ==>
      r == Err(NothingToUpdate)
    ensures r.Ok? <==>
      && TaskModel.FindById(tasks, users, teams, id).Some?
      && TaskModel.CanEdit(tasks[id], actor.id, actor.role)
      && (Truthy(title) ==> LongEnough(title.s, MinTitleLength))
      && (Truthy(status) ==> IsStatus(status.s))
      && (Truthy(priority) ==> IsPriority(priority.s))
      && (Truthy(assignedTo) ==>
            assignedTo.s in users && (IsAdmin(actor) || TeamModel.IsMember(members, tasks[id].teamId, assignedTo.s)))
      && (Truthy(dueDate) ==> parse(dueDate.s).Some?)
      && TaskFields(title, description, status, priority, assignedTo, dueDate, parse) != []
    ensures r.Ok? ==> r.value == TaskFields(title, description, status, priority, assignedTo, dueDate, parse)
    ensures IsAdmin(actor) ==> r != Err(AssigneeNotMember) && r != Err(NoEditPermission)
  {
    var found := TaskModel.FindById(tasks, users, teams, id);
    if found.None? then Err(TaskNotFound)
    else if !TaskModel.CanEdit(found.value, actor.id, actor.role) then Err(NoEditPermission)
    else
      var c := FieldChecks(users, members, actor, found.value.teamId, title, status, priority, assignedTo, dueDate, parse);
      if c.Fail? then Err(c.error)
      else
        var fields := TaskFields(title, description, status, priority, assignedTo, dueDate, parse);
        if fields == [] then Err(NothingToUpdate) else Ok(fields)
  }

  /** An accepted update object names the columns of an existing task, each once, with values they take. */
  lemma TaskUpdatesShape(tasks: map<Id, TaskRow>, users: map<Id, UserRow>, teams: map<Id, TeamRow>,
                         members: set<(Id, Id)>, actor: Actor, id: Id, title: Param, description: Param,
                         status: Param, priority: Param, assignedTo: Param, dueDate: Param,
                         parse: string -> Option<Date>)
    ensures var d := TaskUpdates(tasks, users, teams, members, actor, id,
                                 title, description, status, priority, assignedTo, dueDate, parse);
      d.Ok? ==> id in tasks && DistinctKeys(d.value) && TaskModel.WellTyped(d.value)
  {
    TaskFieldsShape(title, description, status, priority, assignedTo, dueDate, parse);
  }

  /** The update object names allowed columns, each once, each with a value its column takes. */
  lemma TaskFieldsShape(title: Param, description: Param, status: Param, priority: Param,
                        assignedTo: Param, dueDate: Param, parse: string -> Option<Date>)
    ensures var f := TaskFields(title, description, status, priority, assignedTo, dueDate, parse);
      && DistinctKeys(f) && TaskModel.WellTyped(f)
      && (forall i :: 0 <= i < |f| ==> f[i].0 in TaskModel.AllowedFields)
  {
    AssignedColumns(TaskSteps(title, description, status, priority, assignedTo, dueDate, parse));
  }

  /** Six statements, one per column of `update` in its order, each with a value that column takes. */
  ghost predicate FollowsColumns(steps: seq<(bool, string, Value)>) {
    && |steps| == |TaskModel.AllowedFields|
    && (forall j :: 0 <= j < |steps| ==> steps[j].1 == TaskModel.AllowedFields[j])
    && TaskModel.Fits(steps[0].1, steps[0].2) && TaskModel.Fits(steps[1].1, steps[1].2)
    && TaskModel.Fits(steps[2].1, steps[2].2) && TaskModel.Fits(steps[3].1, steps[3].2)
    && TaskModel.Fits(steps[4].1, steps[4].2) && TaskModel.Fits(steps[5].1, steps[5].2)
  }

  /** Such statements name pairwise different columns, each of them allowed. */
  lemma FollowsColumnsDistinct(steps: seq<(bool, string, Value)>)
    requires FollowsColumns(steps)
    ensures DistinctSteps(steps)
    ensures forall j :: 0 <= j < |steps| ==> steps[j].1 == TaskModel.AllowedFields[j]
  {
    AllowedFieldsDistinct();
  }

  /** Any statement list that follows the allowed columns in order assigns a well-typed update. */
  lemma AssignedColumns(steps: seq<(bool, string, Value)>)
    requires FollowsColumns(steps)
    ensures var f := Assigned(steps);
      && DistinctKeys(f) && TaskModel.WellTyped(f)
      && (forall i :: 0 <= i < |f| ==> f[i].0 in TaskModel.AllowedFields)
  {
    var f := Assigned(steps);
    FollowsColumnsDistinct(steps);
    AssignedShape(steps);
    AssignedFrom(steps);
    forall i | 0 <= i < |f| ensures f[i].0 in TaskModel.AllowedFields && TaskModel.Fits(f[i].0, f[i].1) {
      var j :| 0 <= j < |steps| && steps[j].0 && f[i] == (steps[j].1, steps[j].2);
      assert j in {0, 1, 2, 3, 4, 5};
    }
  }

  /** Six statements over the columns of `update`, with values of the columns' kinds, follow the allowed columns. */
  lemma StepListShape(c0: bool, v0: Value, c1: bool, v1: Value, c2: bool, v2: Value,
                      c3: bool, v3: Value, c4: bool, v4: Value, c5: bool, v5: Value)
    requires v0.Text? && !v1.Instant? && v2.Text? && v3.Text? && !v4.Instant? && !v5.Text?
    ensures FollowsColumns(StepList(c0, v0, c1, v1, c2, v2, c3, v3, c4, v4, c5, v5))
  {
    assert TaskModel.Fits("title", v0) && TaskModel.Fits("description", v1) && TaskModel.Fits("status", v2);
    assert TaskModel.Fits("priority", v3) && TaskModel.Fits("assigned_to", v4) && TaskModel.Fits("due_date", v5);
  }

  lemma AllowedFieldsDistinct()
    ensures forall i, j :: 0 <= i < j < |TaskModel.AllowedFields| ==> TaskModel.AllowedFields[i] != TaskModel.AllowedFields[j]
  {
  }
  /** One statement's effect on the stored row: its column takes the assigned value, or keeps its own. */
  lemma StepEffect(t: TaskRow, steps: seq<(bool, string, Value)>, j: int)
    requires FollowsColumns(steps)
    requires 0 <= j < |steps|
    ensures TaskModel.WellTyped(Assigned(steps))
    ensures TaskModel.Column(TaskModel.Updated(t, Assigned(steps)), steps[j].1)
         == if steps[j].0 then steps[j].2 else TaskModel.Column(t, steps[j].1)
  {
    var f, key := Assigned(steps), steps[j].1;
    FollowsColumnsDistinct(steps);
    AssignedColumns(steps);
    AssignedShape(steps);
    assert key == TaskModel.AllowedFields[j];
    assert LastValue(f, key) == if steps[j].0 then Some(steps[j].2) else None;
    TaskModel.UpdatedColumn(t, f, key);
  }

  /** updateTask stores a truthy title trimmed and otherwise keeps the title. */
  lemma UpdatedTitle(t: TaskRow, title: Param, description: Param, status: Param, priority: Param,
                        assignedTo: Param, dueDate: Param, parse: string -> Option<Date>)
    ensures TaskModel.WellTyped(TaskFields(title, description, status, priority, assignedTo, dueDate, parse))
    ensures TaskModel.Updated(t, TaskFields(title, description, status, priority, assignedTo, dueDate, parse)).title
         == (if Truthy(title) then Trim(title.s) else t.title)
  {
    var steps := TaskSteps(title, description, status, priority, assignedTo, dueDate, parse);
    StepEffect(t, steps, 0);
    TaskModel.ColumnsOf(t);
    TaskModel.ColumnsOf(TaskModel.Updated(t, Assigned(steps)));
    assert steps[0] == (Truthy(title), "title", TitleValue(title));
  }

  /** updateTask stores a given description trimmed, clears it when the description sent is falsy, and keeps it when none is sent. */
  lemma UpdatedDescription(t: TaskRow, title: Param, description: Param, status: Param, priority: Param,
                        assignedTo: Param, dueDate: Param, parse: string -> Option<Date>)
    ensures TaskModel.WellTyped(TaskFields(title, description, status, priority, assignedTo, dueDate, parse))
    ensures TaskModel.Updated(t, TaskFields(title, description, status, priority, assignedTo, dueDate, parse)).description
         == (if Truthy(description) then Some(Trim(description.s))
             else if Given(description) then None else t.description)
  {
    var steps := TaskSteps(title, description, status, priority, assignedTo, dueDate, parse);
    StepEffect(t, steps, 1);
    TaskModel.ColumnsOf(t);
    TaskModel.ColumnsOf(TaskModel.Updated(t, Assigned(steps)));
    assert steps[1] == (Given(description), "description", DescriptionValue(description));
  }

  /** updateTask stores a truthy status as sent and otherwise keeps the status. */
  lemma UpdatedStatus(t: TaskRow, title: Param, description: Param, status: Param, priority: Param,
                        assignedTo: Param, dueDate: Param, parse: string -> Option<Date>)
    ensures TaskModel.WellTyped(TaskFields(title, description, status, priority, assignedTo, dueDate, parse))
    ensures TaskModel.Updated(t, TaskFields(title, description, status, priority, assignedTo, dueDate, parse)).status
         == (if Truthy(status) then status.s else t.status)
  {
    var steps := TaskSteps(title, description, status, priority, assignedTo, dueDate, parse);
    StepEffect(t, steps, 2);
    TaskModel.ColumnsOf(t);
    TaskModel.ColumnsOf(TaskModel.Updated(t, Assigned(steps)));
    assert steps[2] == (Truthy(status), "status", ChoiceValue(status));
  }

  /** updateTask stores a truthy priority as sent and otherwise keeps the priority. */
  lemma UpdatedPriority(t: TaskRow, title: Param, description: Param, status: Param, priority: Param,
                        assignedTo: Param, dueDate: Param, parse: string -> Option<Date>)
    ensures TaskModel.WellTyped(TaskFields(title, description, status, priority, assignedTo, dueDate, parse))
    ensures TaskModel.Updated(t, TaskFields(title, description, status, priority, assignedTo, dueDate, parse)).priority
         == (if Truthy(priority) then priority.s else t.priority)
  {
    var steps := TaskSteps(title, description, status, priority, assignedTo, dueDate, parse);
    StepEffect(t, steps, 3);
    TaskModel.ColumnsOf(t);
    TaskModel.ColumnsOf(TaskModel.Updated(t, Assigned(steps)));
    assert steps[3] == (Truthy(priority), "priority", ChoiceValue(priority));
  }

  /** updateTask stores a given assignee as sent (null unassigns) and keeps the assignee when none is sent. */
  lemma UpdatedAssignee(t: TaskRow, title: Param, description: Param, status: Param, priority: Param,
                        assignedTo: Param, dueDate: Param, parse: string -> Option<Date>)
    ensures TaskModel.WellTyped(TaskFields(title, description, status, priority, assignedTo, dueDate, parse))
    ensures TaskModel.Updated(t, TaskFields(title, description, status, priority, assignedTo, dueDate, parse)).assignedTo
         == (if assignedTo.Str? then Some(assignedTo.s)
             else if Given(assignedTo) then None else t.assignedTo)
  {
    var steps := TaskSteps(title, description, status, priority, assignedTo, dueDate, parse);
    StepEffect(t, steps, 4);
    TaskModel.ColumnsOf(t);
    TaskModel.ColumnsOf(TaskModel.Updated(t, Assigned(steps)));
    assert steps[4] == (Given(assignedTo), "assigned_to", AssigneeValue(assignedTo));
  }

  /** updateTask stores a truthy due date parsed, clears it when the date sent is falsy, and keeps it when none is sent. */
  lemma UpdatedDueDate(t: TaskRow, title: Param, description: Param, status: Param, priority: Param,
                        assignedTo: Param, dueDate: Param, parse: string -> Option<Date>)
    ensures TaskModel.WellTyped(TaskFields(title, description, status, priority, assignedTo, dueDate, parse))
    ensures TaskModel.Updated(t, TaskFields(title, description, status, priority, assignedTo, dueDate, parse)).dueDate
         == (if Truthy(dueDate) then parse(dueDate.s)
             else if Given(dueDate) then None else t.dueDate)
  {
    var steps := TaskSteps(title, description, status, priority, assignedTo, dueDate, parse);
    StepEffect(t, steps, 5);
    TaskModel.ColumnsOf(t);
    TaskModel.ColumnsOf(TaskModel.Updated(t, Assigned(steps)));
    assert steps[5] == (Given(dueDate), "due_date", DueDateValue(dueDate, parse));
  }

  /**
   * updateTask: the chain, then Task.update with the prepared object; the
   * response carries the row as update leaves it.
   */
  method UpdateTask(db: Store, actor: Actor, id: Id, title: Param, description: Param, status: Param,
                    priority: Param, assignedTo: Param, dueDate: Param,
                    parse: string -> Option<Date>, now: int)
    returns (r: Result<TaskRow>)
    requires db.Valid()
    modifies db`tasks, db`history, db`serial
    ensures db.Valid()
    ensures var d := TaskUpdates(old(db.tasks), old(db.users), old(db.teams), old(db.members), actor, id,
                                 title, description, status, priority, assignedTo, dueDate, parse);
      && (d.Err? ==> r == Err(d.error) && db.tasks == old(db.tasks) && db.history == old(db.history)
                     && db.serial == old(db.serial))
      && (d.Ok? ==>
            var t := old(db.tasks)[id];
            var cs := TaskModel.Changes(t, d.value);
            && TaskModel.WellTyped(d.value)
            && r == Ok(TaskModel.Updated(t, d.value))
            && db.tasks == old(db.tasks)[id := TaskModel.Updated(t, d.value)]
            && db.history == old(db.history) + TaskModel.ChangeEntries(t, cs, actor.id, now, old(db.serial))
            && db.serial == old(db.serial) + |cs|)
  {
    var d := TaskUpdates(db.tasks, db.users, db.teams, db.members, actor, id,
                         title, description, status, priority, assignedTo, dueDate, parse);
    if d.Err? {
      return Err(d.error);
    }
    TaskUpdatesShape(db.tasks, db.users, db.teams, db.members, actor, id,
                     title, description, status, priority, assignedTo, dueDate, parse);
    r := TaskModel.Update(db, id, d.value, actor.id, now);
  }

  /**
   * The status and priority vocabularies survive updateTask: an accepted
   * update of a task whose status and priority are valid leaves them valid.
   */
  lemma UpdateKeepsVocabulary(tasks: map<Id, TaskRow>, users: map<Id, UserRow>, teams: map<Id, TeamRow>,
                              members: set<(Id, Id)>, actor: Actor, id: Id, title: Param, description: Param,
                              status: Param, priority: Param, assignedTo: Param, dueDate: Param,
                              parse: string -> Option<Date>)
    requires TaskUpdates(tasks, users, teams, members, actor, id, title, description, status, priority,
                         assignedTo, dueDate, parse).Ok?
    requires IsStatus(tasks[id].status) && IsPriority(tasks[id].priority)
    ensures TaskModel.WellTyped(TaskFields(title, description, status, priority, assignedTo, dueDate, parse))
    ensures var u := TaskModel.Updated(tasks[id], TaskFields(title, description, status, priority,
                                                             assignedTo, dueDate, parse));
      IsStatus(u.status) && IsPriority(u.priority)
  {
    UpdatedStatus(tasks[id], title, description, status, priority, assignedTo, dueDate, parse);
    UpdatedPriority(tasks[id], title, description, status, priority, assignedTo, dueDate, parse);
  }

  // ---------------------------------------------------------------------------
  // deleteTask

  /** Only an admin or the creator may delete a task. */
  predicate CanDelete(t: TaskRow, actor: Actor) {
    IsAdmin(actor) || t.createdBy == actor.id
  }

  /** deleteTask's chain: the task must exist, and the actor must be an admin or its creator. */
  function DeleteGate(tasks: map<Id, TaskRow>, users: map<Id, UserRow>, teams: map<Id, TeamRow>,
                      actor: Actor, id: Id): (r: Outcome)
    ensures TaskModel.FindById(tasks, users, teams, id).None? ==> r == Fail(TaskNotFound)
    ensures r.Pass? <==> TaskModel.FindById(tasks, users, teams, id).Some? && CanDelete(tasks[id], actor)
    ensures r.Fail? ==> r.error == TaskNotFound || r.error == NoDeletePermission
    ensures r.Pass? ==> TaskModel.CanEdit(tasks[id], actor.id, actor.role)
  {
    var found := TaskModel.FindById(tasks, users, teams, id);
    if found.None? then Fail(TaskNotFound)
    else if !IsAdmin(actor) && found.value.createdBy != actor.id then Fail(NoDeletePermission)
    else Pass
  }

  /**
   * Delete is strictly narrower than edit: whoever may delete may edit, and
   * an assignee who is neither the creator nor an admin may edit but not
   * delete.
   */
  lemma DeleteNarrowerThanEdit(t: TaskRow, actor: Actor)
    ensures CanDelete(t, actor) ==> TaskModel.CanEdit(t, actor.id, actor.role)
    ensures (t.assignedTo == Some(actor.id) && t.createdBy != actor.id && !IsAdmin(actor)) ==>
      TaskModel.CanEdit(t, actor.id, actor.role) && !CanDelete(t, actor)
  {
  }

  /** deleteTask: the chain, then Task.delete; a delete that finds no row answers 500. */
  method DeleteTask(db: Store, actor: Actor, id: Id) returns (r: Outcome)
    requires db.Valid()
    modifies db`tasks
    ensures db.Valid()
    ensures var g := DeleteGate(old(db.tasks), old(db.users), old(db.teams), actor, id);
      && (g.Fail? ==> r == g && db.tasks == old(db.tasks))
      && (g.Pass? ==> r == Pass && id !in db.tasks && db.tasks == old(db.tasks) - {id})
  {
    var g := DeleteGate(db.tasks, db.users, db.teams, actor, id);
    if g.Fail? {
      return g;
    }
    var deleted := TaskModel.Delete(db, id);
    r := if deleted then Pass else Fail(DeleteFailed);
  }

  // ---------------------------------------------------------------------------
  // assignTask

  /**
   * assignTask's chain: a user id is required; the task must exist and the
   * actor may edit it; the user must exist and, unless the actor is an
   * admin, belong to the task's team.
   */
  function AssignGate(tasks: map<Id, TaskRow>, users: map<Id, UserRow>, teams: map<Id, TeamRow>,
                      members: set<(Id, Id)>, actor: Actor, id: Id, userId: Param): (r: Result<TaskRow>)
    ensures !Truthy(userId) ==> r == Err(MissingAssignee)
    ensures Truthy(userId) && TaskModel.FindById(tasks, users, teams, id).None? ==> r == Err(TaskNotFound)
    ensures (Truthy(userId) && TaskModel.FindById(tasks, users, teams, id).Some?
             && !TaskModel.CanEdit(tasks[id], actor.id, actor.role)) ==>
      r == Err(NoAssignPermission)
    ensures Truthy(userId) && Editable(tasks, users, teams, actor, id) && userId.s !in users ==>
      r == Err(AssigneeNotFound)
    ensures (Truthy(userId) && Editable(tasks, users, teams, actor, id) && userId.s in users
             && !IsAdmin(actor) && !TeamModel.IsMember(members, tasks[id].teamId, userId.s)) ==>
      r == Err(AssigneeNotMember)
    ensures r.Ok? <==>
      && Truthy(userId)
      && TaskModel.FindById(tasks, users, teams, id).Some?
      && TaskModel.CanEdit(tasks[id], actor.id, actor.role)
      && userId.s in users
      && (IsAdmin(actor) || TeamModel.IsMember(members, tasks[id].teamId, userId.s))
    ensures r.Ok? ==> r.value == tasks[id]
    ensures IsAdmin(actor) ==> r != Err(AssigneeNotMember) && r != Err(NoAssignPermission)
  {
    if !Truthy(userId) then Err(MissingAssignee)
    else
      var found := TaskModel.FindById(tasks, users, teams, id);
      if found.None? then Err(TaskNotFound)
      else if !TaskModel.CanEdit(found.value, actor.id, actor.role) then Err(NoAssignPermission)
      else if UserModel.FindById(users, userId.s).None? then Err(AssigneeNotFound)
      else if !IsAdmin(actor) && !TeamModel.IsMember(members, found.value.teamId, userId.s) then
        Err(AssigneeNotMember)
      else Ok(found.value)
  }

  /**
   * assignTask: the chain, then assignTo on the loaded task, which writes
   * the assignee and logs the reassignment even when the assignee is
   * unchanged; the response carries the assignee's public form.
   */
  method AssignTask(db: Store, actor: Actor, id: Id, userId: Param, now: int)
    returns (r: Result<UserModel.PublicUser>)
    requires db.Valid()
    modifies db`tasks, db`history, db`serial
    ensures db.Valid()
    ensures var g := AssignGate(old(db.tasks), old(db.users), old(db.teams), old(db.members), actor, id, userId);
      && (g.Err? ==> r == Err(g.error) && db.tasks == old(db.tasks) && db.history == old(db.history)
                     && db.serial == old(db.serial))
      && (g.Ok? ==>
            && r == Ok(UserModel.ToJson(old(db.users)[userId.s]))
            && db.tasks == old(db.tasks)[id := old(db.tasks)[id].(assignedTo := Some(userId.s))]
            && db.history == old(db.history)
                             + [TaskModel.AssignEntry(old(db.tasks)[id], userId.s, actor.id, now, old(db.serial))])
  {
    var g := AssignGate(db.tasks, db.users, db.teams, db.members, actor, id, userId);
    if g.Err? {
      return Err(g.error);
    }
    var task := new TaskModel.Task(g.value);
    var ok := task.AssignTo(db, userId.s, actor.id, now);
    r := Ok(UserModel.ToJson(db.users[userId.s]));
  }

  // ---------------------------------------------------------------------------
  // changeStatus

  /**
   * changeStatus's chain: a status is required and must be valid, both
   * checked before the task is looked up; the task must exist and the actor
   * may edit it.
   */
  function StatusGate(tasks: map<Id, TaskRow>, users: map<Id, UserRow>, teams: map<Id, TeamRow>,
                      actor: Actor, id: Id, status: Param): (r: Result<TaskRow>)
    ensures !Truthy(status) ==> r == Err(MissingStatus)
    ensures Truthy(status) && !IsStatus(status.s) ==> r == Err(InvalidStatus)
    ensures Truthy(status) && IsStatus(status.s) && TaskModel.FindById(tasks, users, teams, id).None? ==>
      r == Err(TaskNotFound)
    ensures (Truthy(status) && IsStatus(status.s) && TaskModel.FindById(tasks, users, teams, id).Some?
             && !TaskModel.CanEdit(tasks[id], actor.id, actor.role)) ==>
      r == Err(NoStatusPermission)
    ensures r.Ok? <==>
      && Truthy(status) && IsStatus(status.s)
      && TaskModel.FindById(tasks, users, teams, id).Some?
      && TaskModel.CanEdit(tasks[id], actor.id, actor.role)
    ensures r.Ok? ==> r.value == tasks[id]
    ensures IsAdmin(actor) ==> r != Err(NoStatusPermission)
  {
    if !Truthy(status) then Err(MissingStatus)
    else if !IsStatus(status.s) then Err(InvalidStatus)
    else
      var found := TaskModel.FindById(tasks, users, teams, id);
      if found.None? then Err(TaskNotFound)
      else if !TaskModel.CanEdit(found.value, actor.id, actor.role) then Err(NoStatusPermission)
      else Ok(found.value)
  }

  /**
   * changeStatus: the chain, then changeStatus on the loaded task, which
   * writes the status and logs the change, with the given or the generated
   * reason, even when the status is unchanged; the response carries the new
   * status, which is always one of the three.
   */
  method ChangeTaskStatus(db: Store, actor: Actor, id: Id, status: Param, reason: Param, now: int)
    returns (r: Result<string>)
    requires db.Valid()
    modifies db`tasks, db`history, db`serial
    ensures db.Valid()
    ensures var g := StatusGate(old(db.tasks), old(db.users), old(db.teams), actor, id, status);
      && (g.Err? ==> r == Err(g.error) && db.tasks == old(db.tasks) && db.history == old(db.history)
                     && db.serial == old(db.serial))
      && (g.Ok? ==>
            && r == Ok(status.s) && IsStatus(r.value)
            && db.tasks == old(db.tasks)[id := old(db.tasks)[id].(status := status.s)]
            && db.history == old(db.history)
                             + [TaskModel.StatusEntry(old(db.tasks)[id], status.s, actor.id, reason, now,
                                                      old(db.serial))])
  {
    var g := StatusGate(db.tasks, db.users, db.teams, actor, id, status);
    if g.Err? {
      return Err(g.error);
    }
    var task := new TaskModel.Task(g.value);
    var ok := task.ChangeStatus(db, status.s, actor.id, reason, now);
    r := Ok(status.s);
  }
}
