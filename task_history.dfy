/**
 * The task history ledger: an append-only table of changes, the read paths
 * that filter it, order it newest first and page it, the retention sweep
 * that deletes old rows, and the display text of one change.
 */
module TaskHistoryModel {
  import opened Outcomes
  import opened Schema
  import opened Database
  import opened Ordering

  /** The default page of the per-task, per-author, per-field and per-team queries. */
  const DefaultLimit: int := 100
  /** The default page of getRecentActivity. */
  const DefaultRecentLimit: int := 50
  /** The default age, in days, of what deleteOldHistory removes. */
  const DefaultRetentionDays: int := 365

  /** The ordering column of every read path. */
  function ChangedAt(e: HistoryEntry): int {
    e.changedAt
  }

  // ---------------------------------------------------------------------------
  // Writing

  /**
   * INSERT INTO task_history: one row, numbered by the serial counter and
   * stamped with the current time, appended after every row already there.
   */
  method Create(db: Store, taskId: Id, changedBy: Id, field: string,
                oldValue: Option<string>, newValue: Option<string>, reason: string, now: int)
    returns (e: HistoryEntry)
    requires db.Valid()
    modifies db`history, db`serial
    ensures db.Valid()
    ensures e == HistoryEntry(old(db.serial), taskId, changedBy, field, oldValue, newValue, reason, now)
    ensures db.history == old(db.history) + [e]
    ensures db.serial == old(db.serial) + 1
  {
    e := HistoryEntry(db.serial, taskId, changedBy, field, oldValue, newValue, reason, now);
    db.history := db.history + [e];
    db.serial := db.serial + 1;
  }

  /** The rows already in the ledger are never changed by an append. */
  lemma AppendKeepsEntries(before: seq<HistoryEntry>, e: HistoryEntry)
    ensures |before + [e]| == |before| + 1
    ensures (before + [e])[..|before|] == before
    ensures (before + [e])[|before|] == e
  {
  }

  // ---------------------------------------------------------------------------
  // Reading

  /**
   * One page of the rows a WHERE clause accepts, newest first, under
   * `LIMIT limit OFFSET offset` with the defaults 100 and 0 for an
   * undefined argument; a negative bound makes the store fail.
   */
  function Page(history: seq<HistoryEntry>, p: HistoryEntry -> bool, limit: Option<int>, offset: Option<int>)
    : (r: Option<seq<HistoryEntry>>)
    ensures var l, o := if limit.Some? then limit.value else DefaultLimit, if offset.Some? then offset.value else 0;
      && (r.None? <==> l < 0 || o < 0)
      && (r.Some? ==> |r.value| <= l && SortedDesc(r.value, ChangedAt))
      && (r.Some? && o == 0 && l >= |history| ==> forall e :: e in history && p(e) ==> e in r.value)
    ensures r.Some? ==> forall k :: 0 <= k < |r.value| ==> r.value[k] in history && p(r.value[k])
  {
    var l := if limit.Some? then limit.value else DefaultLimit;
    var o := if offset.Some? then offset.value else 0;
    if l >= 0 && o >= 0 then
      QuerySound(history, p, ChangedAt, l, o);
      if o == 0 && l >= |history| then QueryComplete(history, p, ChangedAt, l); Query(history, p, ChangedAt, l, o)
      else Query(history, p, ChangedAt, l, o)
    else None
  }

  /** The WHERE clause of findByTaskId: the task's rows whose author still exists (INNER JOIN users). */
  predicate OfTask(e: HistoryEntry, users: map<Id, UserRow>, taskId: Id) {
    e.taskId == taskId && e.changedBy in users
  }

  /** findByTaskId: the task's rows whose author still exists, newest first, one page. */
  function FindByTaskId(history: seq<HistoryEntry>, users: map<Id, UserRow>, taskId: Id,
                        limit: Option<int>, offset: Option<int>)
    : (r: Option<seq<HistoryEntry>>)
    ensures var l, o := if limit.Some? then limit.value else DefaultLimit, if offset.Some? then offset.value else 0;
      && (r.None? <==> l < 0 || o < 0)
      && (r.Some? ==> |r.value| <= l && SortedDesc(r.value, ChangedAt))
      && (r.Some? && o == 0 && l >= |history| ==> forall e :: e in history && OfTask(e, users, taskId) ==> e in r.value)
    ensures r.Some? ==> forall k :: 0 <= k < |r.value| ==>
      r.value[k] in history && r.value[k].taskId == taskId && r.value[k].changedBy in users
  {
    Page(history, (e: HistoryEntry) => OfTask(e, users, taskId), limit, offset)
  }

  /** The WHERE clause of findByChangedBy: the author's rows, joined with an existing author and task. */
  predicate ByAuthor(e: HistoryEntry, users: map<Id, UserRow>, tasks: map<Id, TaskRow>, userId: Id) {
    e.changedBy == userId && e.changedBy in users && e.taskId in tasks
  }

  /** findByChangedBy: the user's rows on tasks that still exist, newest first, one page. */
  function FindByChangedBy(history: seq<HistoryEntry>, users: map<Id, UserRow>, tasks: map<Id, TaskRow>,
                           userId: Id, limit: Option<int>, offset: Option<int>)
    : (r: Option<seq<HistoryEntry>>)
    ensures var l, o := if limit.Some? then limit.value else DefaultLimit, if offset.Some? then offset.value else 0;
      && (r.None? <==> l < 0 || o < 0)
      && (r.Some? ==> |r.value| <= l && SortedDesc(r.value, ChangedAt))
      && (r.Some? && o == 0 && l >= |history| ==>
            forall e :: e in history && ByAuthor(e, users, tasks, userId) ==> e in r.value)
    ensures r.Some? ==> forall k :: 0 <= k < |r.value| ==>
      r.value[k] in history && r.value[k].changedBy == userId && userId in users && r.value[k].taskId in tasks
  {
    Page(history, (e: HistoryEntry) => ByAuthor(e, users, tasks, userId), limit, offset)
  }

  /** The WHERE clause of findByField: the rows about one column, joined with an existing author and task. */
  predicate AboutField(e: HistoryEntry, users: map<Id, UserRow>, tasks: map<Id, TaskRow>, field: string) {
    e.field == field && e.changedBy in users && e.taskId in tasks
  }

  /** findByField: the rows about one column, on tasks that still exist, newest first, one page. */
  function FindByField(history: seq<HistoryEntry>, users: map<Id, UserRow>, tasks: map<Id, TaskRow>,
                       field: string, limit: Option<int>, offset: Option<int>)
    : (r: Option<seq<HistoryEntry>>)
    ensures var l, o := if limit.Some? then limit.value else DefaultLimit, if offset.Some? then offset.value else 0;
      && (r.None? <==> l < 0 || o < 0)
      && (r.Some? ==> |r.value| <= l && SortedDesc(r.value, ChangedAt))
      && (r.Some? && o == 0 && l >= |history| ==>
            forall e :: e in history && AboutField(e, users, tasks, field) ==> e in r.value)
    ensures r.Some? ==> forall k :: 0 <= k < |r.value| ==>
      r.value[k] in history && r.value[k].field == field && r.value[k].changedBy in users && r.value[k].taskId in tasks
  {
    Page(history, (e: HistoryEntry) => AboutField(e, users, tasks, field), limit, offset)
  }

  /** The WHERE clause of findByTeamId: rows on the team's tasks, joined with an existing author. */
  predicate OnTeam(e: HistoryEntry, users: map<Id, UserRow>, tasks: map<Id, TaskRow>, teamId: Id) {
    e.changedBy in users && e.taskId in tasks && tasks[e.taskId].teamId == teamId
  }

  /** findByTeamId: the rows on the team's tasks, newest first, one page. */
  function FindByTeamId(history: seq<HistoryEntry>, users: map<Id, UserRow>, tasks: map<Id, TaskRow>,
                        teamId: Id, limit: Option<int>, offset: Option<int>)
    : (r: Option<seq<HistoryEntry>>)
    ensures var l, o := if limit.Some? then limit.value else DefaultLimit, if offset.Some? then offset.value else 0;
      && (r.None? <==> l < 0 || o < 0)
      && (r.Some? ==> |r.value| <= l && SortedDesc(r.value, ChangedAt))
      && (r.Some? && o == 0 && l >= |history| ==>
            forall e :: e in history && OnTeam(e, users, tasks, teamId) ==> e in r.value)
    ensures r.Some? ==> forall k :: 0 <= k < |r.value| ==>
      r.value[k] in history && r.value[k].changedBy in users
      && r.value[k].taskId in tasks && tasks[r.value[k].taskId].teamId == teamId
  {
    Page(history, (e: HistoryEntry) => OnTeam(e, users, tasks, teamId), limit, offset)
  }

  /** The INNER JOINs of getRecentActivity: the author, the task and the task's team all exist. */
  predicate Joined(e: HistoryEntry, users: map<Id, UserRow>, tasks: map<Id, TaskRow>, teams: map<Id, TeamRow>) {
    e.changedBy in users && e.taskId in tasks && tasks[e.taskId].teamId in teams
  }

  /**
   * getRecentActivity: the newest rows whose author, task and task's team
   * all still exist, at most `limit` of them.
   */
  function GetRecentActivity(history: seq<HistoryEntry>, users: map<Id, UserRow>, tasks: map<Id, TaskRow>,
                             teams: map<Id, TeamRow>, limit: Option<int>)
    : (r: Option<seq<HistoryEntry>>)
    ensures r.None? <==> limit.Some? && limit.value < 0
    ensures r.Some? ==> |r.value| <= (if limit.Some? then limit.value else DefaultRecentLimit)
    ensures r.Some? ==> SortedDesc(r.value, ChangedAt)
    ensures r.Some? ==> forall k :: 0 <= k < |r.value| ==>
      r.value[k] in history && r.value[k].changedBy in users
      && r.value[k].taskId in tasks && tasks[r.value[k].taskId].teamId in teams
    ensures r.Some? && (if limit.Some? then limit.value else DefaultRecentLimit) >= |history| ==>
      forall e :: e in history && Joined(e, users, tasks, teams) ==> e in r.value
  {
    var l := if limit.Some? then limit.value else DefaultRecentLimit;
    if l >= 0 then
      RecentPage(history, users, tasks, teams, l);
      Query(history, JoinClause(users, tasks, teams), ChangedAt, l, 0)
    else None
  }

  /** The WHERE clause of getRecentActivity. */
  function JoinClause(users: map<Id, UserRow>, tasks: map<Id, TaskRow>, teams: map<Id, TeamRow>): HistoryEntry -> bool {
    (e: HistoryEntry) => Joined(e, users, tasks, teams)
  }

  /** A page of getRecentActivity holds joined rows of the ledger only, and every one of them when it is large enough. */
  lemma RecentPage(history: seq<HistoryEntry>, users: map<Id, UserRow>, tasks: map<Id, TaskRow>,
                   teams: map<Id, TeamRow>, limit: int)
    requires limit >= 0
    ensures var r := Query(history, JoinClause(users, tasks, teams), ChangedAt, limit, 0).value;
      && (forall k :: 0 <= k < |r| ==> r[k] in history && Joined(r[k], users, tasks, teams))
      && (limit >= |history| ==> forall e :: e in history && Joined(e, users, tasks, teams) ==> e in r)
  {
    QuerySound(history, JoinClause(users, tasks, teams), ChangedAt, limit, 0);
    if limit >= |history| {
      QueryComplete(history, JoinClause(users, tasks, teams), ChangedAt, limit);
    }
  }

  // ---------------------------------------------------------------------------
  // Retention

  /** The instant `daysOld` days before `now`; 365 days when no age is given. */
  function Cutoff(now: int, daysOld: Option<int>): int {
    now - (if daysOld.Some? then daysOld.value else DefaultRetentionDays) * DayMs
  }

  /** The rows `DELETE ... WHERE changed_at < cutoff` removes. */
  function Expired(history: seq<HistoryEntry>, cutoff: int): seq<HistoryEntry> {
    Filter(history, (e: HistoryEntry) => e.changedAt < cutoff)
  }

  /** The rows it keeps, in their order. */
  function Retained(history: seq<HistoryEntry>, cutoff: int): seq<HistoryEntry> {
    Filter(history, (e: HistoryEntry) => !(e.changedAt < cutoff))
  }

  /**
   * The sweep keeps exactly the rows at or after the cutoff, and the rows
   * it removes and the rows it keeps add up to the whole ledger.
   */
  lemma RetentionExact(history: seq<HistoryEntry>, cutoff: int)
    ensures forall e :: e in Retained(history, cutoff) ==> e in history && e.changedAt >= cutoff
    ensures forall e :: e in history && e.changedAt >= cutoff ==> e in Retained(history, cutoff)
    ensures forall e :: e in Expired(history, cutoff) ==> e in history && e.changedAt < cutoff
    ensures |Expired(history, cutoff)| + |Retained(history, cutoff)| == |history|
  {
    FilterMembers(history, (e: HistoryEntry) => !(e.changedAt < cutoff));
    FilterMembers(history, (e: HistoryEntry) => e.changedAt < cutoff);
    FilterSplitsCount(history, (e: HistoryEntry) => e.changedAt < cutoff, (e: HistoryEntry) => !(e.changedAt < cutoff));
  }

  /** deleteOldHistory: removes the rows older than the cutoff and reports how many it removed. */
  method DeleteOldHistory(db: Store, daysOld: Option<int>, now: int) returns (removed: nat)
    requires db.Valid()
    modifies db`history
    ensures db.Valid()
    ensures db.history == Retained(old(db.history), Cutoff(now, daysOld))
    ensures removed == |Expired(old(db.history), Cutoff(now, daysOld))|
    ensures removed + |db.history| == |old(db.history)|
  {
    var cutoff := Cutoff(now, daysOld);
    RetentionExact(db.history, cutoff);
    removed := |Expired(db.history, cutoff)|;
    db.history := Retained(db.history, cutoff);
  }

  // ---------------------------------------------------------------------------
  // Display

  /** The display labels of the tracked columns. */
  const FieldNames: map<string, string> := map[
    "created" := "Criação",
    "title" := "Título",
    "description" := "Descrição",
    "status" := "Status",
    "priority" := "Prioridade",
    "assigned_to" := "Responsável",
    "due_date" := "Data de vencimento"
  ]

  /** `fieldNames[field] || field` */
  function FieldLabel(field: string): string {
    if field in FieldNames then FieldNames[field] else field
  }

  /** `${v || 'vazio'}`: an empty or missing value reads as "vazio". */
  function ShownOrEmpty(v: Option<string>): (s: string)
    ensures s != ""
    ensures v.Some? && v.value != "" ==> s == v.value
    ensures !(v.Some? && v.value != "") ==> s == "vazio"
  {
    if v.Some? && v.value != "" then v.value else "vazio"
  }

  /** `${v}`: a missing value is rendered "null". */
  function Interpolated(v: Option<string>): string {
    if v.Some? then v.value else "null"
  }

  /**
   * getFormattedChange: "label: new" for the creation row, and
   * "label: old → new" otherwise, with "vazio" for empty sides.
   */
  function FormattedChange(e: HistoryEntry): (r: string)
    ensures e.field == "created" ==> r == "Criação: " + Interpolated(e.newValue)
    ensures e.field != "created" ==>
      r == FieldLabel(e.field) + ": " + ShownOrEmpty(e.oldValue) + " → " + ShownOrEmpty(e.newValue)
  {
    var name := FieldLabel(e.field);
    if e.field == "created" then name + ": " + Interpolated(e.newValue)
    else name + ": " + ShownOrEmpty(e.oldValue) + " → " + ShownOrEmpty(e.newValue)
  }

  /** A column the fixed map does not know is shown under its own name; a known one under its label. */
  lemma LabelFallback(field: string)
    ensures field !in FieldNames ==> FieldLabel(field) == field
    ensures field in FieldNames ==> FieldLabel(field) != field && FieldLabel(field) != ""
  {
  }

  /** toJSON: the row's own columns with `formatted_change` beside them. */
  datatype EntryJson = EntryJson(entry: HistoryEntry, formattedChange: string)

  function ToJson(e: HistoryEntry): (j: EntryJson)
    ensures j.entry == e
    ensures j.formattedChange == FormattedChange(e)
  {
    EntryJson(e, FormattedChange(e))
  }
}
