/**
 * The relational store the models talk to, as abstract state: one map per
 * table keyed by id, the team_members table as a set of (team, user) pairs,
 * the task_history table as an append-ordered sequence, and the serial
 * counter that numbers history rows.
 */
module Database {
  import opened Schema
  import opened Ordering

  /** users.email carries a unique index. */
  ghost predicate UniqueEmails(users: map<Id, UserRow>) {
    forall a, b :: a in users && b in users && users[a].email == users[b].email ==> a == b
  }

  /** The rows of a table, in the order a scan of the table meets them (left to the store). */
  ghost function Rows<R>(table: map<Id, R>): (s: seq<R>)
    ensures forall t :: t in s ==> t in table.Values
    ensures forall k :: k in table ==> table[k] in s
    ensures DistinctRows(table) ==> NoDuplicates(s)
    ensures |s| == |table|
  {
    if table == map[] then []
    else
      var k :| k in table;
      var tail := Rows(table - {k});
      ScanStep(table, k, tail);
      [table[k]] + tail
  }

  /** A scan meets one row first and then scans the rest of the table. */
  lemma ScanStep<R>(table: map<Id, R>, k: Id, tail: seq<R>)
    requires k in table
    requires forall t :: t in tail ==> t in (table - {k}).Values
    requires forall j :: j in table - {k} ==> (table - {k})[j] in tail
    requires DistinctRows(table - {k}) ==> NoDuplicates(tail)
    requires |tail| == |table - {k}|
    ensures forall t :: t in [table[k]] + tail ==> t in table.Values
    ensures forall j :: j in table ==> table[j] in [table[k]] + tail
    ensures DistinctRows(table) ==> NoDuplicates([table[k]] + tail)
    ensures |[table[k]] + tail| == |table|
  {
    var rest := table - {k};
    RemoveOneRow(table, k);
    assert forall j :: j in table && j != k ==> j in rest && rest[j] == table[j];
    if DistinctRows(table) {
      assert DistinctRows(rest);
      assert table[k] !in tail;
      ConsNoDuplicates(table[k], tail);
    }
  }

  /** Removing a present key removes exactly one row. */
  lemma RemoveOneRow<R>(table: map<Id, R>, k: Id)
    requires k in table
    ensures |table - {k}| == |table| - 1
  {
    assert (table - {k}).Keys == table.Keys - {k};
  }

  /** A first page at least as large as the table lists every row of the table that the WHERE clause accepts. */
  lemma TableQueryComplete<R>(table: map<Id, R>, p: R -> bool, key: R -> int, limit: int)
    requires limit >= |table|
    ensures forall k :: k in table && p(table[k]) ==> table[k] in Query(Rows(table), p, key, limit, 0).value
  {
    QueryComplete(Rows(table), p, key, limit);
  }

  /** Every row a scan returns is a row of the table. */
  lemma InTable<R>(table: map<Id, R>, x: R)
    requires x in Rows(table)
    ensures x in table.Values
  {
  }

  /** A table whose rows are pairwise distinct (every row carries its own key). */
  ghost predicate DistinctRows<R>(table: map<Id, R>) {
    forall a, b :: a in table && b in table && table[a] == table[b] ==> a == b
  }

  /** `SELECT COUNT(*) ... WHERE p`: the number of distinct rows the clause accepts. */
  function CountWhere<R(==)>(table: map<Id, R>, p: R -> bool): nat {
    |set x | x in table.Values && p(x)|
  }

  /** Over distinct rows, a scan filtered by the clause has as many rows as COUNT(*) reports. */
  lemma RowsCount<R>(table: map<Id, R>, p: R -> bool)
    requires DistinctRows(table)
    ensures |Filter(Rows(table), p)| == CountWhere(table, p)
  {
    FilterCount(Rows(table), p);
    var scanned := set x | x in Rows(table) && p(x);
    var counted := set x | x in table.Values && p(x);
    forall x | x in counted ensures x in scanned {
      var k :| k in table && table[k] == x;
    }
    assert scanned == counted;
  }

  class Store {
    var users: map<Id, UserRow>
    var teams: map<Id, TeamRow>
    var tasks: map<Id, TaskRow>
    /** team_members rows as (team_id, user_id); the pair is the primary key. */
    var members: set<(Id, Id)>
    var history: seq<HistoryEntry>
    /** The next value of task_history's id sequence. */
    var serial: nat

    ghost predicate Valid()
      reads this
    {
      && (forall k :: k in users ==> users[k].id == k && users[k].passwordHash.Some?)
      && (forall k :: k in teams ==> teams[k].id == k)
      && (forall k :: k in tasks ==> tasks[k].id == k)
      && UniqueEmails(users)
      && (forall i :: 0 <= i < |history| ==> history[i].id < serial)
    }

    /** An empty database. */
    constructor ()
      ensures Valid()
      ensures users == map[] && teams == map[] && tasks == map[]
      ensures members == {} && history == [] && serial == 0
    {
      users, teams, tasks := map[], map[], map[];
      members, history, serial := {}, [], 0;
    }
  }
}
