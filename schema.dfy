/**
 * The rows the relational store holds and the closed vocabularies the
 * application uses for them (statuses, priorities, roles).
 */
module Schema {
  import opened Outcomes

  /** Row identifiers are uuids, held as strings. */
  type Id = string

  /** A timestamp in milliseconds, with the text the store writes for it into a text column. */
  datatype Date = Date(ms: int, text: string)

  /** Milliseconds in a day, `1000 * 60 * 60 * 24`. */
  const DayMs: int := 1000 * 60 * 60 * 24

  /** A column value as the JavaScript code holds it: null, a string, or a Date object. */
  datatype Value = Null | Text(s: string) | Instant(d: Date)

  /** The text a value becomes in a text column such as task_history.old_value (NULL stays None). */
  function ColumnText(v: Value): (r: Option<string>)
    ensures r.None? <==> v.Null?
  {
    match v
    case Null => None
    case Text(s) => Some(s)
    case Instant(d) => Some(d.text)
  }

  /** `x ?? null` for an optional column. */
  function OptionValue(o: Option<string>): (v: Value)
    ensures ColumnText(v) == o
  {
    if o.Some? then Text(o.value) else Null
  }

  const AdminRole: string := "admin"
  const MemberRole: string := "member"

  const Pending: string := "Pendente"
  const InProgress: string := "Em progresso"
  const Completed: string := "Concluído"

  const High: string := "Alta"
  const Medium: string := "Média"
  const Low: string := "Baixa"

  /** ['Pendente', 'Em progresso', 'Concluído'].includes(s) */
  predicate IsStatus(s: string) {
    s == Pending || s == InProgress || s == Completed
  }

  /** ['Alta', 'Média', 'Baixa'].includes(s) */
  predicate IsPriority(s: string) {
    s == High || s == Medium || s == Low
  }

  /** ['admin', 'member'].includes(s) */
  predicate IsRole(s: string) {
    s == AdminRole || s == MemberRole
  }

  /**
   * A users row. `passwordHash` is None on the objects built from queries
   * that do not select that column (findById, findAll, create's RETURNING).
   */
  datatype UserRow = UserRow(id: Id, name: string, email: string,
                             passwordHash: Option<string>, role: string, createdAt: int)

  /**
   * The rows of a page as a query that does not select password_hash
   * returns them: the same rows in the same order, each without its hash.
   */
  function Unhashed(rows: seq<UserRow>): (r: seq<UserRow>)
    ensures |r| == |rows| && forall k :: 0 <= k < |r| ==> r[k] == rows[k].(passwordHash := None)
    ensures forall u :: u in rows ==> u.(passwordHash := None) in r
    ensures (forall i, j :: 0 <= i < j < |rows| ==> rows[i].createdAt >= rows[j].createdAt) ==>
              forall i, j :: 0 <= i < j < |r| ==> r[i].createdAt >= r[j].createdAt
  {
    var r := seq(|rows|, k requires 0 <= k < |rows| => rows[k].(passwordHash := None));
    assert forall u :: u in rows ==> u.(passwordHash := None) in r by {
      forall u | u in rows ensures u.(passwordHash := None) in r {
        var j :| 0 <= j < |rows| && rows[j] == u;
        assert r[j] == u.(passwordHash := None);
      }
    }
    r
  }

  datatype TeamRow = TeamRow(id: Id, name: string, description: Option<string>,
                             createdBy: Id, createdAt: int)

  datatype TaskRow = TaskRow(id: Id, title: string, description: Option<string>,
                             status: string, priority: string, assignedTo: Option<Id>,
                             teamId: Id, createdBy: Id, dueDate: Option<Date>, createdAt: int)

  /** A task_history row; old and new values are text columns. */
  datatype HistoryEntry = HistoryEntry(id: nat, taskId: Id, changedBy: Id, field: string,
                                       oldValue: Option<string>, newValue: Option<string>,
                                       reason: string, changedAt: int)

  /** The actor of a request, `req.user`: its id and role. */
  datatype Actor = Actor(id: Id, role: string)

  predicate IsAdmin(a: Actor) {
    a.role == AdminRole
  }
}
