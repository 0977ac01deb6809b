/**
 * The task model: creation with its history row, the diff-and-log update,
 * reassignment and status change on a loaded task, deletion, the listing
 * queries, and the pure questions a task answers about itself (may this
 * user edit it, is it overdue, how many days are left).
 */
module TaskModel {
  import opened Outcomes
  import opened Schema
  import opened Database
  import opened Ordering
  import opened JsRuntime
  import TaskHistoryModel

  /** The columns `update` may change, in the order the source lists them. */
  const AllowedFields: seq<string> := ["title", "description", "status", "priority", "assigned_to", "due_date"]

  const CreatedField: string := "created"
  const CreatedMarker: string := "Tarefa criada"
  const CreationReason: string := "Criação inicial da tarefa"
  const ReassignReason: string := "Tarefa reatribuída"

  /** The error `update` throws for an id the join does not find. */
  const UpdateNotFound: Error := Error(NotFound, "Tarefa não encontrada", "")

  function CreatedAt(t: TaskRow): int {
    t.createdAt
  }

  // ---------------------------------------------------------------------------
  // Lookup

  /**
   * findById: the row, provided its creator and its team still exist (the
   * query joins both with INNER JOIN); the assignee is joined with LEFT JOIN.
   */
  function FindById(tasks: map<Id, TaskRow>, users: map<Id, UserRow>, teams: map<Id, TeamRow>, id: Id)
    : (r: Option<TaskRow>)
    ensures r.Some? <==> id in tasks && tasks[id].createdBy in users && tasks[id].teamId in teams
    ensures r.Some? ==> r.value == tasks[id]
  {
    if id in tasks && tasks[id].createdBy in users && tasks[id].teamId in teams then Some(tasks[id]) else None
  }

  // ---------------------------------------------------------------------------
  // Creation

  /** The arguments of `create`; None stands for an argument left undefined. */
  datatype NewTask = NewTask(title: string, description: Option<string>, status: Option<string>,
                             priority: Option<string>, assignedTo: Option<Id>, teamId: Id,
                             createdBy: Id, dueDate: Option<Date>)

  /** The row the INSERT stores: status Pendente and priority Média unless given. */
  function NewRow(id: Id, f: NewTask, now: int): (t: TaskRow)
    ensures t.status == (if f.status.Some? then f.status.value else Pending)
    ensures t.priority == (if f.priority.Some? then f.priority.value else Medium)
    ensures t.id == id && t.createdAt == now && t.createdBy == f.createdBy && t.teamId == f.teamId
    ensures t.title == f.title && t.description == f.description
    ensures t.assignedTo == f.assignedTo && t.dueDate == f.dueDate
  {
    TaskRow(id, f.title, f.description,
            if f.status.Some? then f.status.value else Pending,
            if f.priority.Some? then f.priority.value else Medium,
            f.assignedTo, f.teamId, f.createdBy, f.dueDate, now)
  }

  /** The history row that records a creation. */
  function CreationEntry(serial: nat, taskId: Id, createdBy: Id, now: int): HistoryEntry {
    HistoryEntry(serial, taskId, createdBy, CreatedField, None, Some(CreatedMarker), CreationReason, now)
  }

  /** create: insert the row, then log its creation. */
  method Create(db: Store, id: Id, f: NewTask, now: int) returns (t: TaskRow)
    requires db.Valid()
    requires id !in db.tasks
    modifies db`tasks, db`history, db`serial
    ensures db.Valid()
    ensures t == NewRow(id, f, now)
    ensures db.tasks == old(db.tasks)[id := t]
    ensures db.history == old(db.history) + [CreationEntry(old(db.serial), id, f.createdBy, now)]
  {
    t := NewRow(id, f, now);
    db.tasks := db.tasks[id := t];
    var entry := TaskHistoryModel.Create(db, id, f.createdBy, CreatedField, None, Some(CreatedMarker), CreationReason, now);
  }

  /** The rows about one task. */
  function EntriesOf(history: seq<HistoryEntry>, taskId: Id): seq<HistoryEntry> {
    Filter(history, (e: HistoryEntry) => e.taskId == taskId)
  }

  /**
   * A task with a fresh id has, after its creation, exactly one history row:
   * the creation row, written by its creator.
   */
  lemma CreationLogsOnce(history: seq<HistoryEntry>, serial: nat, id: Id, createdBy: Id, now: int)
    requires forall e :: e in history ==> e.taskId != id
    ensures var rows := EntriesOf(history + [CreationEntry(serial, id, createdBy, now)], id);
      && |rows| == 1
      && rows[0].field == "created" && rows[0].newValue == Some("Tarefa criada")
      && rows[0].reason == "Criação inicial da tarefa" && rows[0].changedBy == createdBy
  {
    var p := (e: HistoryEntry) => e.taskId == id;
    var entry := CreationEntry(serial, id, createdBy, now);
    FilterAppend(history, [entry], p);
    FilterNone(history, p);
    assert Filter([entry], p) == [entry] by {
      assert [entry][1..] == [];
    }
  }

  // ---------------------------------------------------------------------------
  // Update: the diff loop

  /** `currentTask[key]` for a column `update` may change. */
  function Column(t: TaskRow, key: string): Value
    requires key in AllowedFields
  {
    if key == "title" then Text(t.title)
    else if key == "description" then OptionValue(t.description)
    else if key == "status" then Text(t.status)
    else if key == "priority" then Text(t.priority)
    else if key == "assigned_to" then OptionValue(t.assignedTo)
    else if t.dueDate.Some? then Instant(t.dueDate.value)
    else Null
  }

  /** Each column of `update` reads its own field of the row. */
  lemma ColumnsOf(t: TaskRow)
    ensures Column(t, "title") == Text(t.title) && Column(t, "description") == OptionValue(t.description)
    ensures Column(t, "status") == Text(t.status) && Column(t, "priority") == Text(t.priority)
    ensures Column(t, "assigned_to") == OptionValue(t.assignedTo)
    ensures Column(t, "due_date") == if t.dueDate.Some? then Instant(t.dueDate.value) else Null
  {
  }

  /** The value can be stored in that column: text columns take text, due_date takes a Date or null. */
  predicate Fits(key: string, v: Value) {
    if key == "title" || key == "status" || key == "priority" then v.Text?
    else if key == "description" || key == "assigned_to" then !v.Instant?
    else if key == "due_date" then !v.Text?
    else true
  }

  /** The store accepts every allowed key's value. */
  predicate WellTyped(updates: seq<(string, Value)>) {
    forall i :: 0 <= i < |updates| ==> Fits(updates[i].0, updates[i].1)
  }

  /** `SET key = value` on one row. */
  function SetColumn(t: TaskRow, key: string, v: Value): (r: TaskRow)
    requires key in AllowedFields && Fits(key, v)
    ensures Column(r, key) == v
    ensures forall k :: k in AllowedFields && k != key ==> Column(r, k) == Column(t, k)
    ensures r.id == t.id && r.teamId == t.teamId && r.createdBy == t.createdBy && r.createdAt == t.createdAt
  {
    if key == "title" then t.(title := v.s)
    else if key == "description" then t.(description := ColumnText(v))
    else if key == "status" then t.(status := v.s)
    else if key == "priority" then t.(priority := v.s)
    else if key == "assigned_to" then t.(assignedTo := ColumnText(v))
    else t.(dueDate := if v.Instant? then Some(v.d) else None)
  }

  /**
   * `currentTask[key] !== value`: strict inequality, under which every Date
   * object differs from every other value, an equal Date included.
   */
  predicate StrictlyDiffers(stored: Value, submitted: Value) {
    stored.Instant? || submitted.Instant? || stored != submitted
  }

  predicate Qualifies(t: TaskRow, u: (string, Value)) {
    u.0 in AllowedFields && StrictlyDiffers(Column(t, u.0), u.1)
  }

  /** The entries of `updates` that the loop acts on, in their order. */
  function Changes(t: TaskRow, updates: seq<(string, Value)>): (cs: seq<(string, Value)>)
    ensures |cs| <= |updates|
    ensures forall i :: 0 <= i < |cs| ==> cs[i].0 in AllowedFields
    ensures WellTyped(updates) ==> WellTyped(cs)
  {
    if updates == [] then []
    else
      var last := updates[|updates| - 1];
      Changes(t, updates[..|updates| - 1]) + (if Qualifies(t, last) then [last] else [])
  }

  /** The history row logged for one changed column: the stored value before, the submitted one after. */
  function ChangeEntry(t: TaskRow, u: (string, Value), changedBy: Id, now: int, serial: nat): HistoryEntry
    requires u.0 in AllowedFields
  {
    HistoryEntry(serial, t.id, changedBy, u.0, ColumnText(Column(t, u.0)), ColumnText(u.1),
                 "Campo " + u.0 + " atualizado", now)
  }

  function ChangeEntries(t: TaskRow, cs: seq<(string, Value)>, changedBy: Id, now: int, first: nat)
    : seq<HistoryEntry>
    requires forall i :: 0 <= i < |cs| ==> cs[i].0 in AllowedFields
  {
    seq(|cs|, i requires 0 <= i < |cs| => ChangeEntry(t, cs[i], changedBy, now, first + i))
  }

  /** `UPDATE tasks SET ...` with every changed column. */
  function Apply(t: TaskRow, cs: seq<(string, Value)>): (r: TaskRow)
    requires forall i :: 0 <= i < |cs| ==> cs[i].0 in AllowedFields
    requires WellTyped(cs)
    ensures r.id == t.id && r.teamId == t.teamId && r.createdBy == t.createdBy && r.createdAt == t.createdAt
    decreases |cs|
  {
    if cs == [] then t else Apply(SetColumn(t, cs[0].0, cs[0].1), cs[1..])
  }

  /**
   * Task.update. The row is looked up; every allowed key whose value
   * strictly differs from the stored one is logged, in the order of the
   * entries, before the row is written; with no such key nothing is written.
   */
  method Update(db: Store, id: Id, updates: seq<(string, Value)>, changedBy: Id, now: int)
    returns (r: Result<TaskRow>)
    requires db.Valid()
    requires WellTyped(updates) && DistinctKeys(updates)
    modifies db`tasks, db`history, db`serial
    ensures db.Valid()
    ensures FindById(old(db.tasks), old(db.users), old(db.teams), id).None? ==>
      r == Err(UpdateNotFound) && db.tasks == old(db.tasks)
      && db.history == old(db.history) && db.serial == old(db.serial)
    ensures FindById(old(db.tasks), old(db.users), old(db.teams), id).Some? ==>
      var t := old(db.tasks)[id];
      var cs := Changes(t, updates);
      && db.history == old(db.history) + ChangeEntries(t, cs, changedBy, now, old(db.serial))
      && db.serial == old(db.serial) + |cs|
      && r == Ok(Updated(t, updates))
      && db.tasks == old(db.tasks)[id := Updated(t, updates)]
      && (cs == [] ==> db.tasks == old(db.tasks))
  {
    var found := FindById(db.tasks, db.users, db.teams, id);
    if found.None? {
      return Err(UpdateNotFound);
    }
    var current := found.value;
    var fields := LogChanges(db, current, updates, changedBy, now);
    if fields == [] {
      assert db.tasks[id := current] == db.tasks;
      return Ok(current);
    }
    ChangesTyped(current, updates);
    var updated := Apply(current, fields);
    db.tasks := db.tasks[id := updated];
    r := Ok(updated);
  }

  /**
   * The loop of Task.update: for each allowed key whose value strictly
   * differs from the stored one, one history row, in the order of the
   * entries; the keys so logged are the result.
   */
  method LogChanges(db: Store, current: TaskRow, updates: seq<(string, Value)>, changedBy: Id, now: int)
    returns (fields: seq<(string, Value)>)
    requires db.Valid()
    modifies db`history, db`serial
    ensures db.Valid()
    ensures fields == Changes(current, updates)
    ensures db.history == old(db.history) + ChangeEntries(current, fields, changedBy, now, old(db.serial))
    ensures db.serial == old(db.serial) + |fields|
  {
    fields := [];
    var i := 0;
    while i < |updates|
      invariant 0 <= i <= |updates|
      invariant db.Valid()
      invariant fields == Changes(current, updates[..i])
      invariant db.history == old(db.history) + ChangeEntries(current, fields, changedBy, now, old(db.serial))
      invariant db.serial == old(db.serial) + |fields|
    {
      assert updates[..i + 1][..i] == updates[..i];
      ghost var step := if Qualifies(current, updates[i]) then [updates[i]] else [];
      assert Changes(current, updates[..i + 1]) == Changes(current, updates[..i]) + step;
      if Qualifies(current, updates[i]) {
        LogChange(db, current, fields, updates[i], changedBy, now, old(db.serial), old(db.history));
        fields := fields + [updates[i]];
      } else {
        assert step == [] && fields + step == fields;
      }
      assert fields == Changes(current, updates[..i + 1]);
      i := i + 1;
      assert fields == Changes(current, updates[..i]);
    }
    assert updates[..i] == updates;
  }

  /** One pass of the loop that logs: the history row of one changed column goes after the rows logged so far. */
  method LogChange(db: Store, current: TaskRow, fields: seq<(string, Value)>, u: (string, Value), changedBy: Id,
                   now: int, ghost first: nat, ghost start: seq<HistoryEntry>)
    requires db.Valid() && Qualifies(current, u)
    requires forall i :: 0 <= i < |fields| ==> fields[i].0 in AllowedFields
    requires db.history == start + ChangeEntries(current, fields, changedBy, now, first)
    requires db.serial == first + |fields|
    modifies db`history, db`serial
    ensures db.Valid()
    ensures forall i :: 0 <= i < |fields + [u]| ==> (fields + [u])[i].0 in AllowedFields
    ensures db.history == start + ChangeEntries(current, fields + [u], changedBy, now, first)
    ensures db.serial == first + |fields + [u]|
  {
    ghost var logged := ChangeEntries(current, fields, changedBy, now, first);
    var key := u.0;
    var entry := TaskHistoryModel.Create(db, current.id, changedBy, key, ColumnText(Column(current, key)),
                                         ColumnText(u.1), "Campo " + key + " atualizado", now);
    assert entry == ChangeEntry(current, u, changedBy, now, first + |fields|);
    ChangeEntriesSnoc(current, fields, u, changedBy, now, first, entry);
    AppendAssoc(start, logged, [entry]);
  }

  /** The row `update` leaves: the changed columns written, or the row as it was when nothing changed. */
  function Updated(t: TaskRow, updates: seq<(string, Value)>): (r: TaskRow)
    requires WellTyped(updates)
    ensures r.id == t.id && r.teamId == t.teamId && r.createdBy == t.createdBy && r.createdAt == t.createdAt
  {
    var cs := Changes(t, updates);
    if cs == [] then t else Apply(t, cs)
  }

  /**
   * After `update` every allowed column named by the update holds the
   * submitted value (a value equal to the stored one is skipped, but is
   * already there), and every column it does not name keeps its value.
   */
  lemma UpdatedColumn(t: TaskRow, updates: seq<(string, Value)>, key: string)
    requires WellTyped(updates) && DistinctKeys(updates) && key in AllowedFields
    ensures LastValue(updates, key).Some? ==> Column(Updated(t, updates), key) == LastValue(updates, key).value
    ensures LastValue(updates, key).None? ==> Column(Updated(t, updates), key) == Column(t, key)
  {
    var cs := Changes(t, updates);
    ChangesTyped(t, updates);
    ChangesExact(t, updates);
    if cs != [] {
      ApplyEffect(t, cs);
    }
    var v := LastValue(updates, key);
    if v.Some? {
      var i :| 0 <= i < |updates| && updates[i] == (key, v.value);
      if updates[i] in cs {
        var j :| 0 <= j < |cs| && cs[j] == updates[i];
      } else {
        assert !Qualifies(t, updates[i]);
        assert !HasKey(cs, key) by {
          forall j | 0 <= j < |cs| ensures cs[j].0 != key {
            assert cs[j] in cs;
            var m :| 0 <= m < |updates| && updates[m] == cs[j];
            assert m == i || updates[m].0 != updates[i].0;
          }
        }
      }
    } else {
      assert !HasKey(cs, key) by {
        forall j | 0 <= j < |cs| ensures cs[j].0 != key {
          assert HasKey(updates, cs[j].0);
        }
      }
    }
  }

  lemma ChangeEntriesSnoc(t: TaskRow, cs: seq<(string, Value)>, u: (string, Value), changedBy: Id, now: int, first: nat,
                          e: HistoryEntry)
    requires forall i :: 0 <= i < |cs| ==> cs[i].0 in AllowedFields
    requires u.0 in AllowedFields && e == ChangeEntry(t, u, changedBy, now, first + |cs|)
    ensures forall i :: 0 <= i < |cs + [u]| ==> (cs + [u])[i].0 in AllowedFields
    ensures ChangeEntries(t, cs + [u], changedBy, now, first) == ChangeEntries(t, cs, changedBy, now, first) + [e]
  {
    assert (cs + [u])[..|cs|] == cs;
  }

  /** The loop acts exactly on the allowed keys whose value strictly differs, and on no other entry. */
  lemma {:induction false} ChangesExact(t: TaskRow, updates: seq<(string, Value)>)
    ensures forall u :: u in Changes(t, updates) ==> u in updates && Qualifies(t, u)
    ensures forall u :: u in updates && Qualifies(t, u) ==> u in Changes(t, updates)
  {
    if updates != [] {
      var init := updates[..|updates| - 1];
      ChangesExact(t, init);
      assert updates == init + [updates[|updates| - 1]];
    }
  }

  /** The changes are entries of the update, so they keep its distinct keys and its column types. */
  lemma {:induction false} ChangesTyped(t: TaskRow, updates: seq<(string, Value)>)
    requires WellTyped(updates) && DistinctKeys(updates)
    ensures WellTyped(Changes(t, updates)) && DistinctKeys(Changes(t, updates))
    ensures forall i :: 0 <= i < |Changes(t, updates)| ==> HasKey(updates, Changes(t, updates)[i].0)
  {
    if updates != [] {
      var init := updates[..|updates| - 1];
      var last := updates[|updates| - 1];
      ChangesTyped(t, init);
      var ci := Changes(t, init);
      forall i | 0 <= i < |ci| ensures ci[i].0 != last.0 {
        var j :| 0 <= j < |init| && init[j].0 == ci[i].0;
        assert updates[j] == init[j];
      }
      forall i | 0 <= i < |ci| ensures HasKey(updates, ci[i].0) {
        var j :| 0 <= j < |init| && init[j].0 == ci[i].0;
        assert updates[j] == init[j];
      }
      assert HasKey(updates, last.0) by {
        assert updates[|updates| - 1].0 == last.0;
      }
    }
  }

  /**
   * After the UPDATE every changed column holds the submitted value, and
   * every other column of the row keeps the value it had.
   */
  lemma {:induction false} ApplyEffect(t: TaskRow, cs: seq<(string, Value)>)
    requires WellTyped(cs) && DistinctKeys(cs)
    requires forall i :: 0 <= i < |cs| ==> cs[i].0 in AllowedFields
    ensures forall i :: 0 <= i < |cs| ==> Column(Apply(t, cs), cs[i].0) == cs[i].1
    ensures forall k :: k in AllowedFields && !HasKey(cs, k) ==> Column(Apply(t, cs), k) == Column(t, k)
    decreases |cs|
  {
    if cs != [] {
      var t1 := SetColumn(t, cs[0].0, cs[0].1);
      var rest := cs[1..];
      ApplyEffect(t1, rest);
      forall i | 0 <= i < |cs| ensures Column(Apply(t, cs), cs[i].0) == cs[i].1 {
        if i > 0 {
          assert rest[i - 1] == cs[i];
        } else {
          assert !HasKey(rest, cs[0].0) by {
            forall j | 0 <= j < |rest| ensures rest[j].0 != cs[0].0 {
              assert rest[j] == cs[j + 1];
            }
          }
        }
      }
      forall k | k in AllowedFields && !HasKey(cs, k) ensures Column(Apply(t, cs), k) == Column(t, k) {
        assert cs[0].0 != k;
        assert !HasKey(rest, k) by {
          forall j | 0 <= j < |rest| ensures rest[j].0 != k {
            assert rest[j] == cs[j + 1];
          }
        }
      }
    }
  }

  /**
   * The pre-state of the update: with no qualifying key (unknown keys
   * only, or every value equal to the stored one) the loop acts on nothing.
   */
  lemma {:induction false} NoChangeNoEffect(t: TaskRow, updates: seq<(string, Value)>)
    requires forall i :: 0 <= i < |updates| ==> !Qualifies(t, updates[i])
    ensures Changes(t, updates) == []
  {
    if updates != [] {
      NoChangeNoEffect(t, updates[..|updates| - 1]);
    }
  }

  /** Re-submitting the stored value of a column other than due_date is not a change. */
  lemma ResubmitIsNoChange(t: TaskRow, key: string)
    requires key in AllowedFields && key != "due_date"
    ensures Changes(t, [(key, Column(t, key))]) == []
  {
    assert [(key, Column(t, key))][..0] == [];
  }

  /** A due date is logged as changed even when the submitted date equals the stored one. */
  lemma DueDateAlwaysChanges(t: TaskRow, d: Date)
    ensures Changes(t, [("due_date", Instant(d))]) == [("due_date", Instant(d))]
  {
    assert [("due_date", Instant(d))][..0] == [];
  }

  // ---------------------------------------------------------------------------
  // Reassignment and status change on a loaded task

  function AssignEntry(t: TaskRow, userId: Id, changedBy: Id, now: int, serial: nat): HistoryEntry {
    HistoryEntry(serial, t.id, changedBy, "assigned_to", t.assignedTo, Some(userId), ReassignReason, now)
  }

  /** `reason || \`Status alterado de ${old} para ${new}\`` */
  function StatusReason(reason: Param, oldStatus: string, newStatus: string): (s: string)
    ensures Truthy(reason) ==> s == reason.s
    ensures !Truthy(reason) ==> s == "Status alterado de " + oldStatus + " para " + newStatus
  {
    if Truthy(reason) then reason.s else "Status alterado de " + oldStatus + " para " + newStatus
  }

  function StatusEntry(t: TaskRow, newStatus: string, changedBy: Id, reason: Param, now: int, serial: nat)
    : HistoryEntry
  {
    HistoryEntry(serial, t.id, changedBy, "status", Some(t.status), Some(newStatus),
                 StatusReason(reason, t.status, newStatus), now)
  }

  /** A task loaded into memory; `row` is the snapshot the methods compare against and refresh. */
  class Task {
    var row: TaskRow

    constructor (data: TaskRow)
      ensures row == data
    {
      row := data;
    }

    /**
     * assignTo: when the row still exists, writes the assignee, logs the
     * reassignment whatever the previous assignee was, and refreshes the
     * snapshot; otherwise nothing changes.
     */
    method AssignTo(db: Store, userId: Id, changedBy: Id, now: int) returns (ok: bool)
      requires db.Valid()
      modifies this, db`tasks, db`history, db`serial
      ensures db.Valid()
      ensures ok <==> old(row.id) in old(db.tasks)
      ensures ok ==>
        && row == old(row).(assignedTo := Some(userId))
        && db.tasks == old(db.tasks)[row.id := old(db.tasks)[row.id].(assignedTo := Some(userId))]
        && db.history == old(db.history) + [AssignEntry(old(row), userId, changedBy, now, old(db.serial))]
      ensures !ok ==>
        row == old(row) && db.tasks == old(db.tasks) && db.history == old(db.history) && db.serial == old(db.serial)
    {
      var oldAssignee := row.assignedTo;
      if row.id !in db.tasks {
        return false;
      }
      db.tasks := db.tasks[row.id := db.tasks[row.id].(assignedTo := Some(userId))];
      var entry := TaskHistoryModel.Create(db, row.id, changedBy, "assigned_to", oldAssignee, Some(userId),
                                           ReassignReason, now);
      row := row.(assignedTo := Some(userId));
      ok := true;
    }

    /**
     * changeStatus: when the row still exists, writes the status, logs the
     * change with the given or the generated reason whatever the previous
     * status was, and refreshes the snapshot; otherwise nothing changes.
     */
    method ChangeStatus(db: Store, newStatus: string, changedBy: Id, reason: Param, now: int) returns (ok: bool)
      requires db.Valid()
      modifies this, db`tasks, db`history, db`serial
      ensures db.Valid()
      ensures ok <==> old(row.id) in old(db.tasks)
      ensures ok ==>
        && row == old(row).(status := newStatus)
        && db.tasks == old(db.tasks)[row.id := old(db.tasks)[row.id].(status := newStatus)]
        && db.history == old(db.history) + [StatusEntry(old(row), newStatus, changedBy, reason, now, old(db.serial))]
      ensures !ok ==>
        row == old(row) && db.tasks == old(db.tasks) && db.history == old(db.history) && db.serial == old(db.serial)
    {
      var oldStatus := row.status;
      if row.id !in db.tasks {
        return false;
      }
      db.tasks := db.tasks[row.id := db.tasks[row.id].(status := newStatus)];
      var entry := TaskHistoryModel.Create(db, row.id, changedBy, "status", Some(oldStatus), Some(newStatus),
                                           StatusReason(reason, oldStatus, newStatus), now);
      row := row.(status := newStatus);
      ok := true;
    }
  }

  /**
   * Re-assigning a task to its current assignee, or setting its current
   * status again, is no change for `update`, which logs nothing; assignTo
   * and changeStatus log one row for it all the same, a row whose old and
   * new values coincide.
   */
  lemma SingleFieldWritersAlwaysLog(t: TaskRow, changedBy: Id, reason: Param, now: int, serial: nat)
    requires t.assignedTo.Some?
    ensures Changes(t, [("assigned_to", Text(t.assignedTo.value))]) == []
    ensures Changes(t, [("status", Text(t.status))]) == []
    ensures AssignEntry(t, t.assignedTo.value, changedBy, now, serial).oldValue
         == AssignEntry(t, t.assignedTo.value, changedBy, now, serial).newValue
    ensures StatusEntry(t, t.status, changedBy, reason, now, serial).oldValue
         == StatusEntry(t, t.status, changedBy, reason, now, serial).newValue
  {
    ResubmitIsNoChange(t, "assigned_to");
    ResubmitIsNoChange(t, "status");
  }

  // ---------------------------------------------------------------------------
  // Deletion

  /** delete: removes the row and reports whether there was one. */
  method Delete(db: Store, id: Id) returns (deleted: bool)
    requires db.Valid()
    modifies db`tasks
    ensures db.Valid()
    ensures deleted <==> id in old(db.tasks)
    ensures db.tasks == old(db.tasks) - {id}
  {
    deleted := id in db.tasks;
    db.tasks := db.tasks - {id};
  }

  // ---------------------------------------------------------------------------
  // Listing

  /** The optional filters of findAll; a falsy one is not applied. */
  datatype TaskFilters = TaskFilters(status: Param, priority: Param, assignedTo: Param,
                                     teamId: Param, createdBy: Param)

  predicate MatchesFilters(f: TaskFilters, t: TaskRow) {
    && (Truthy(f.status) ==> t.status == f.status.s)
    && (Truthy(f.priority) ==> t.priority == f.priority.s)
    && (Truthy(f.assignedTo) ==> t.assignedTo == Some(f.assignedTo.s))
    && (Truthy(f.teamId) ==> t.teamId == f.teamId.s)
    && (Truthy(f.createdBy) ==> t.createdBy == f.createdBy.s)
  }

  /** The listing queries join the creator and the team with INNER JOIN. */
  predicate Joined(t: TaskRow, users: map<Id, UserRow>, teams: map<Id, TeamRow>) {
    t.createdBy in users && t.teamId in teams
  }

  /** findAll: the matching tasks, newest first, one LIMIT/OFFSET page of them. */
  ghost function FindAll(tasks: map<Id, TaskRow>, users: map<Id, UserRow>, teams: map<Id, TeamRow>,
                         f: TaskFilters, limit: int, offset: int)
    : (r: Option<seq<TaskRow>>)
    ensures r.None? <==> limit < 0 || offset < 0
    ensures r.Some? ==> |r.value| <= limit && SortedDesc(r.value, CreatedAt)
    ensures r.Some? ==> forall k :: 0 <= k < |r.value| ==>
      r.value[k] in tasks.Values && MatchesFilters(f, r.value[k]) && Joined(r.value[k], users, teams)
    ensures r.Some? ==> r.value == Slice(Listing(tasks, users, teams, f), offset, offset + limit)
    ensures r.Some? && offset == 0 && limit >= |tasks| ==>
      forall k :: k in tasks && MatchesFilters(f, tasks[k]) && Joined(tasks[k], users, teams) ==> tasks[k] in r.value
  {
    if limit >= 0 && offset >= 0 then
      FindAllSound(tasks, users, teams, f, limit, offset);
      FindAllWindow(tasks, users, teams, f, limit, offset);
      if offset == 0 && limit >= |tasks| then
        FindAllComplete(tasks, users, teams, f, limit);
        Query(Rows(tasks), FilterClause(f, users, teams), CreatedAt, limit, offset)
      else Query(Rows(tasks), FilterClause(f, users, teams), CreatedAt, limit, offset)
    else None
  }

  /** Every row of a findAll page is a row of the table its WHERE clause accepts. */
  lemma FindAllSound(tasks: map<Id, TaskRow>, users: map<Id, UserRow>, teams: map<Id, TeamRow>,
                    f: TaskFilters, limit: int, offset: int)
    requires limit >= 0 && offset >= 0
    ensures var r := Query(Rows(tasks), FilterClause(f, users, teams), CreatedAt, limit, offset).value;
      forall k :: 0 <= k < |r| ==> r[k] in tasks.Values && MatchesFilters(f, r[k]) && Joined(r[k], users, teams)
  {
    var p := FilterClause(f, users, teams);
    QuerySound(Rows(tasks), p, CreatedAt, limit, offset);
  }

  /** A findAll page is the LIMIT/OFFSET slice of the whole ordered listing. */
  lemma FindAllWindow(tasks: map<Id, TaskRow>, users: map<Id, UserRow>, teams: map<Id, TeamRow>,
                    f: TaskFilters, limit: int, offset: int)
    requires limit >= 0 && offset >= 0
    ensures Query(Rows(tasks), FilterClause(f, users, teams), CreatedAt, limit, offset).value
         == Slice(Listing(tasks, users, teams, f), offset, offset + limit)
  {
    WindowSlice(Listing(tasks, users, teams, f), limit, offset);
  }

  /** A first findAll page at least as large as the table lists every task the WHERE clause accepts. */
  lemma FindAllComplete(tasks: map<Id, TaskRow>, users: map<Id, UserRow>, teams: map<Id, TeamRow>,
                    f: TaskFilters, limit: int)
    requires limit >= |tasks|
    ensures var r := Query(Rows(tasks), FilterClause(f, users, teams), CreatedAt, limit, 0).value;
      forall k :: k in tasks && MatchesFilters(f, tasks[k]) && Joined(tasks[k], users, teams) ==> tasks[k] in r
  {
    TableQueryComplete(tasks, FilterClause(f, users, teams), CreatedAt, limit);
  }

  /** The WHERE clause of findAll. */
  function FilterClause(f: TaskFilters, users: map<Id, UserRow>, teams: map<Id, TeamRow>): TaskRow -> bool {
    (t: TaskRow) => MatchesFilters(f, t) && Joined(t, users, teams)
  }

  /** Every row findAll's WHERE clause accepts, newest first, before LIMIT and OFFSET. */
  ghost function Listing(tasks: map<Id, TaskRow>, users: map<Id, UserRow>, teams: map<Id, TeamRow>, f: TaskFilters)
    : seq<TaskRow>
  {
    SortDesc(Filter(Rows(tasks), FilterClause(f, users, teams)), CreatedAt)
  }

  /** findByUserId: the tasks assigned to the user, optionally of one status and team, newest first. */
  ghost function FindByUserId(tasks: map<Id, TaskRow>, users: map<Id, UserRow>, teams: map<Id, TeamRow>,
                              userId: Id, status: Param, teamId: Param, limit: int, offset: int)
    : (r: Option<seq<TaskRow>>)
    ensures r.None? <==> limit < 0 || offset < 0
    ensures r.Some? ==> |r.value| <= limit && SortedDesc(r.value, CreatedAt)
    ensures r.Some? ==> forall k :: 0 <= k < |r.value| ==>
      r.value[k] in tasks.Values && AssignedTo(r.value[k], users, teams, userId, status, teamId)
    ensures r.Some? && offset == 0 && limit >= |tasks| ==>
      forall k :: k in tasks && AssignedTo(tasks[k], users, teams, userId, status, teamId) ==> tasks[k] in r.value
  {
    if limit >= 0 && offset >= 0 then
      FindByUserIdSound(tasks, users, teams, userId, status, teamId, limit, offset);
      FindByUserIdComplete(tasks, users, teams, userId, status, teamId, limit, offset);
      var q := Query(Rows(tasks), AssignedClause(users, teams, userId, status, teamId), CreatedAt, limit, offset);
      assert q.value == AssignedPage(tasks, users, teams, userId, status, teamId, limit, offset);
      assert forall k :: 0 <= k < |q.value| ==> q.value[k] in tasks.Values;
      q
    else None
  }

  /** One LIMIT/OFFSET page of findByUserId's query. */
  ghost function AssignedPage(tasks: map<Id, TaskRow>, users: map<Id, UserRow>, teams: map<Id, TeamRow>,
                              userId: Id, status: Param, teamId: Param, limit: int, offset: int): seq<TaskRow>
    requires limit >= 0 && offset >= 0
  {
    Query(Rows(tasks), AssignedClause(users, teams, userId, status, teamId), CreatedAt, limit, offset).value
  }

  /** Every row of a findByUserId page is a row of the table its WHERE clause accepts. */
  lemma FindByUserIdSound(tasks: map<Id, TaskRow>, users: map<Id, UserRow>, teams: map<Id, TeamRow>,
                          userId: Id, status: Param, teamId: Param, limit: int, offset: int)
    requires limit >= 0 && offset >= 0
    ensures forall k :: 0 <= k < |AssignedPage(tasks, users, teams, userId, status, teamId, limit, offset)| ==>
      && AssignedPage(tasks, users, teams, userId, status, teamId, limit, offset)[k] in tasks.Values
      && AssignedTo(AssignedPage(tasks, users, teams, userId, status, teamId, limit, offset)[k], users, teams, userId, status, teamId)
  {
    QuerySound(Rows(tasks), AssignedClause(users, teams, userId, status, teamId), CreatedAt, limit, offset);
  }

  /** A first findByUserId page at least as large as the table lists every task the WHERE clause accepts. */
  lemma FindByUserIdComplete(tasks: map<Id, TaskRow>, users: map<Id, UserRow>, teams: map<Id, TeamRow>,
                             userId: Id, status: Param, teamId: Param, limit: int, offset: int)
    requires limit >= 0 && offset >= 0
    ensures var r := Query(Rows(tasks), AssignedClause(users, teams, userId, status, teamId), CreatedAt, limit, offset).value;
      offset == 0 && limit >= |tasks| ==>
        forall k :: k in tasks && AssignedTo(tasks[k], users, teams, userId, status, teamId) ==> tasks[k] in r
  {
    if offset == 0 && limit >= |tasks| {
      TableQueryComplete(tasks, AssignedClause(users, teams, userId, status, teamId), CreatedAt, limit);
    }
  }

  /** The WHERE clause of findByUserId. */
  function AssignedClause(users: map<Id, UserRow>, teams: map<Id, TeamRow>, userId: Id, status: Param, teamId: Param)
    : TaskRow -> bool
  {
    (t: TaskRow) => AssignedTo(t, users, teams, userId, status, teamId)
  }

  /** A task assigned to `userId`, of the given status and team when those are given, whose creator and team exist. */
  predicate AssignedTo(t: TaskRow, users: map<Id, UserRow>, teams: map<Id, TeamRow>, userId: Id, status: Param, teamId: Param) {
    t.assignedTo == Some(userId) && (Truthy(status) ==> t.status == status.s)
    && (Truthy(teamId) ==> t.teamId == teamId.s) && Joined(t, users, teams)
  }

  // ---------------------------------------------------------------------------
  // Questions a task answers

  /** canEdit: an admin, the assignee or the creator. */
  predicate CanEdit(t: TaskRow, userId: Id, role: string) {
    role == AdminRole || t.assignedTo == Some(userId) || t.createdBy == userId
  }

  /**
   * An admin may edit every task, anyone else exactly the tasks they created
   * or are assigned; changing a task's title, description, status, priority
   * or due date never changes who may edit it.
   */
  lemma EditRights(t: TaskRow, userId: Id, role: string, title: string, description: Option<string>,
                   status: string, priority: string, dueDate: Option<Date>)
    ensures role == AdminRole ==> CanEdit(t, userId, role)
    ensures role != AdminRole ==> (CanEdit(t, userId, role) <==> t.createdBy == userId || t.assignedTo == Some(userId))
    ensures CanEdit(t.(title := title, description := description, status := status, priority := priority,
                       dueDate := dueDate), userId, role)
         == CanEdit(t, userId, role)
  {
  }

  /** isOverdue: there is a due date, it has passed, and the task is not done. */
  predicate IsOverdue(t: TaskRow, now: int) {
    t.dueDate.Some? && t.dueDate.value.ms < now && t.status != Completed
  }

  /** getDaysRemaining: `Math.ceil((due - now) / 86400000)`, null without a due date. */
  function DaysRemaining(t: TaskRow, now: int): (r: Option<int>)
    ensures r.None? <==> t.dueDate.None?
    ensures r.Some? ==>
      (r.value - 1) * DayMs < t.dueDate.value.ms - now <= r.value * DayMs
  {
    if t.dueDate.None? then None else Some(CeilDiv(t.dueDate.value.ms - now, DayMs))
  }

  /** A task without a due date, or a finished one, is never overdue. */
  lemma NeverOverdue(t: TaskRow, now: int)
    requires t.dueDate.None? || t.status == Completed
    ensures !IsOverdue(t, now)
  {
  }

  /** A task that is overdue stays overdue as time goes on, until its status changes. */
  lemma OverdueStaysOverdue(t: TaskRow, now: int, later: int)
    requires IsOverdue(t, now) && now <= later
    ensures IsOverdue(t, later)
    ensures !IsOverdue(t.(status := Completed), later)
  {
  }

  /** An overdue task has no days left; one whose due date is ahead has at least one. */
  lemma DaysRemainingSign(t: TaskRow, now: int)
    requires t.dueDate.Some?
    ensures IsOverdue(t, now) ==> DaysRemaining(t, now).value <= 0
    ensures t.dueDate.value.ms > now ==> DaysRemaining(t, now).value >= 1
  {
  }
}
