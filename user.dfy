/**
 * The user model: registration with its default role and the unique-email
 * rule, lookups with and without the credential hash, the allowed-column
 * update with its password-to-hash substitution, deletion, the public JSON
 * form, and the user's tasks and teams.
 */
module UserModel {
  import opened Outcomes
  import opened Schema
  import opened Database
  import opened Ordering
  import opened JsRuntime
  import TaskModel
  import TeamModel

  /** What `create` turns a unique violation on users.email into. */
  const EmailInUse: Error := Error(Conflict, "Email já está em uso", "")
  /** What `update` throws when no allowed column remains. */
  const NoValidField: Error := Error(Validation, "Nenhum campo válido para atualizar", "")
  /** The store's own unique-violation error (code 23505), as `update` lets it through. */
  const UniqueViolation: Error := Error(Internal, "23505", "duplicate key value violates unique constraint")

  /** The columns `update` accepts before any password substitution. */
  const BaseFields: seq<string> := ["name", "email", "role"]

  function UserCreatedAt(u: UserRow): int {
    u.createdAt
  }

  /** An email already held by a user other than `id`. */
  predicate EmailTaken(users: map<Id, UserRow>, email: string, id: Id) {
    exists k :: k in users && k != id && users[k].email == email
  }

  // ---------------------------------------------------------------------------
  // Public form

  /** toJSON: every field but the credential hash. */
  datatype PublicUser = PublicUser(id: Id, name: string, email: string, role: string, createdAt: int)

  function ToJson(u: UserRow): (j: PublicUser)
    ensures j.id == u.id && j.name == u.name && j.email == u.email && j.role == u.role && j.createdAt == u.createdAt
  {
    PublicUser(u.id, u.name, u.email, u.role, u.createdAt)
  }

  /** The public form does not depend on the hash: two rows that differ only there look the same. */
  lemma ToJsonHidesHash(u: UserRow, v: UserRow)
    requires u.(passwordHash := None) == v.(passwordHash := None)
    ensures ToJson(u) == ToJson(v)
  {
    assert u.id == u.(passwordHash := None).id;
    assert v.id == v.(passwordHash := None).id;
  }

  /** The row as the queries that do not select password_hash return it. */
  function WithoutHash(u: UserRow): (r: UserRow)
    ensures r.passwordHash.None? && ToJson(r) == ToJson(u)
  {
    u.(passwordHash := None)
  }

  // ---------------------------------------------------------------------------
  // Creation

  /**
   * create: stores the row with the hash bcrypt produced for the password
   * and role `member` unless one is given; an email already in use is
   * reported as such and nothing is stored. The returned object carries no
   * hash (RETURNING omits the column).
   */
  method Create(db: Store, id: Id, name: string, email: string, role: Option<string>, hash: string, now: int)
    returns (r: Result<UserRow>)
    requires db.Valid()
    requires id !in db.users
    modifies db`users
    ensures db.Valid()
    ensures EmailTaken(old(db.users), email, id) ==> r == Err(EmailInUse) && db.users == old(db.users)
    ensures !EmailTaken(old(db.users), email, id) ==>
      var stored := UserRow(id, name, email, Some(hash), if role.Some? then role.value else MemberRole, now);
      && db.users == old(db.users)[id := stored]
      && r == Ok(WithoutHash(stored))
  {
    if exists k :: k in db.users && k != id && db.users[k].email == email {
      return Err(EmailInUse);
    }
    var stored := UserRow(id, name, email, Some(hash), if role.Some? then role.value else MemberRole, now);
    db.users := db.users[id := stored];
    r := Ok(WithoutHash(stored));
  }

  // ---------------------------------------------------------------------------
  // Lookup

  /** findById: the row without its hash, or null. */
  function FindById(users: map<Id, UserRow>, id: Id): (r: Option<UserRow>)
    ensures r.Some? <==> id in users
    ensures r.Some? ==> r.value == WithoutHash(users[id])
  {
    if id in users then Some(WithoutHash(users[id])) else None
  }

  /** findByEmail: the full row, hash included, of the one user with that email, or null. */
  function FindByEmail(users: map<Id, UserRow>, email: string): (r: Option<UserRow>)
    requires UniqueEmails(users)
    ensures r.Some? <==> exists k :: k in users && users[k].email == email
    ensures r.Some? ==> r.value in users.Values && r.value.email == email
  {
    if exists k :: k in users && users[k].email == email then
      var k :| k in users && users[k].email == email;
      Some(users[k])
    else None
  }

  /** The page findAll returns when the caller gives no limit. */
  const DefaultPageSize: int := 50

  /** findAll's clause: no WHERE, every user. */
  predicate AnyUser(u: UserRow) {
    true
  }

  /**
   * findAll: the users, newest first, one LIMIT/OFFSET page (50 and 0 when
   * not given), without their hashes.
   */
  ghost function FindAll(users: map<Id, UserRow>, limit: Option<int>, offset: Option<int>): (r: Option<seq<UserRow>>)
    ensures var l, o := if limit.Some? then limit.value else DefaultPageSize, if offset.Some? then offset.value else 0;
      && (r.None? <==> l < 0 || o < 0)
      && (r.Some? ==> |r.value| <= l && SortedDesc(r.value, UserCreatedAt))
      && (r.Some? && o == 0 && l >= |users| ==> forall k :: k in users ==> WithoutHash(users[k]) in r.value)
    ensures r.Some? ==> forall k :: 0 <= k < |r.value| ==>
      r.value[k].passwordHash.None? && exists u :: u in users.Values && r.value[k] == WithoutHash(u)
  {
    var l := if limit.Some? then limit.value else DefaultPageSize;
    var o := if offset.Some? then offset.value else 0;
    if l >= 0 && o >= 0 then
      FindAllPage(users, l, o);
      Some(Unhashed(Query(Rows(users), AnyUser, UserCreatedAt, l, o).value))
    else None
  }

  /** The page findAll answers: bounded, newest first, every user when it is the first and large enough, no hashes. */
  lemma FindAllPage(users: map<Id, UserRow>, l: int, o: int)
    requires l >= 0 && o >= 0
    ensures var r := Unhashed(Query(Rows(users), AnyUser, UserCreatedAt, l, o).value);
      && |r| <= l && SortedDesc(r, UserCreatedAt)
      && (o == 0 && l >= |users| ==> forall k :: k in users ==> WithoutHash(users[k]) in r)
      && forall k :: 0 <= k < |r| ==> r[k].passwordHash.None? && exists u :: u in users.Values && r[k] == WithoutHash(u)
  {
    var page := Query(Rows(users), AnyUser, UserCreatedAt, l, o).value;
    var r := Unhashed(page);
    QuerySound(Rows(users), AnyUser, UserCreatedAt, l, o);
    assert SortedDesc(r, UserCreatedAt) by {
      assert forall i, j :: 0 <= i < j < |page| ==> page[i].createdAt >= page[j].createdAt by {
        assert SortedDesc(page, UserCreatedAt);
      }
    }
    if o == 0 && l >= |users| {
      QueryComplete(Rows(users), AnyUser, UserCreatedAt, l);
    }
    forall k | 0 <= k < |r| ensures r[k].passwordHash.None? && exists u :: u in users.Values && r[k] == WithoutHash(u) {
      assert page[k] in Rows(users);
      assert r[k] == WithoutHash(page[k]);
    }
  }

  // ---------------------------------------------------------------------------
  // Update

  /**
   * The update object after the password substitution: when `password` is
   * truthy its entry is removed and `password_hash` holds the new hash (in
   * place when the key was already there, appended otherwise).
   */
  function Substituted(updates: seq<(string, string)>, hash: string): (r: seq<(string, string)>)
  {
    if LastValue(updates, "password").Some? && LastValue(updates, "password").value != "" then
      var kept := seq(|updates|, i requires 0 <= i < |updates| =>
                      if updates[i].0 == "password_hash" then ("password_hash", hash) else updates[i]);
      var dropped := Ordering.Filter(kept, (e: (string, string)) => e.0 != "password");
      if HasKey(updates, "password_hash") then dropped else dropped + [("password_hash", hash)]
    else updates
  }

  /** The accepted columns: password_hash joins them only with a truthy password. */
  function AllowedFields(updates: seq<(string, string)>): seq<string> {
    if LastValue(updates, "password").Some? && LastValue(updates, "password").value != "" then
      BaseFields + ["password_hash"]
    else BaseFields
  }

  /** The plaintext password never reaches the columns: a truthy one arrives as its hash, a falsy one is ignored. */
  lemma {:induction false} PasswordBecomesHash(updates: seq<(string, string)>, hash: string)
    requires DistinctKeys(updates)
    ensures !HasKey(KeepAllowed(Substituted(updates, hash), AllowedFields(updates)), "password")
    ensures LastValue(updates, "password").Some? && LastValue(updates, "password").value != "" ==>
      LastValue(KeepAllowed(Substituted(updates, hash), AllowedFields(updates)), "password_hash") == Some(hash)
    ensures !(LastValue(updates, "password").Some? && LastValue(updates, "password").value != "") ==>
      !HasKey(KeepAllowed(Substituted(updates, hash), AllowedFields(updates)), "password_hash")
  {
    var s, allowed := Substituted(updates, hash), AllowedFields(updates);
    var fields := KeepAllowed(s, allowed);
    var given := LastValue(updates, "password").Some? && LastValue(updates, "password").value != "";
    assert allowed == if given then BaseFields + ["password_hash"] else BaseFields;
    assert "password" !in allowed && (!given ==> "password_hash" !in allowed);
    KeepAllowedExact(s, allowed);
    assert forall i :: 0 <= i < |fields| ==> fields[i].0 in allowed by {
      forall i | 0 <= i < |fields| ensures fields[i].0 in allowed {
        assert fields[i] in fields;
      }
    }
    if given {
      SubstitutedHash(updates, hash);
      KeepAllowedDistinct(s, allowed);
      assert "password_hash" in allowed;
      assert ("password_hash", hash) in fields;
      var i :| 0 <= i < |fields| && fields[i] == ("password_hash", hash);
      LastValueOfEntry(fields, i);
    }
  }

  /** The substitution brings in no key but password_hash: every other entry comes from the update object. */
  lemma SubstitutedFrom(updates: seq<(string, string)>, hash: string)
    ensures forall e :: e in Substituted(updates, hash) ==> e.0 == "password_hash" || e in updates
  {
    if LastValue(updates, "password").Some? && LastValue(updates, "password").value != "" {
      var kept := seq(|updates|, i requires 0 <= i < |updates| =>
                      if updates[i].0 == "password_hash" then ("password_hash", hash) else updates[i]);
      var p := (e: (string, string)) => e.0 != "password";
      FilterMembers(kept, p);
      forall e | e in kept ensures e.0 == "password_hash" || e in updates {
        var i :| 0 <= i < |kept| && kept[i] == e;
      }
    }
  }

  /** With a truthy password the substituted object has distinct keys and holds the hash. */
  lemma SubstitutedHash(updates: seq<(string, string)>, hash: string)
    requires DistinctKeys(updates)
    requires LastValue(updates, "password").Some? && LastValue(updates, "password").value != ""
    ensures DistinctKeys(Substituted(updates, hash))
    ensures ("password_hash", hash) in Substituted(updates, hash)
  {
    var kept := seq(|updates|, i requires 0 <= i < |updates| =>
                    if updates[i].0 == "password_hash" then ("password_hash", hash) else updates[i]);
    var p := (e: (string, string)) => e.0 != "password";
    var dropped := Ordering.Filter(kept, p);
    assert DistinctKeys(kept);
    DistinctFilter(kept, p);
    FilterMembers(kept, p);
    if HasKey(updates, "password_hash") {
      var i :| 0 <= i < |updates| && updates[i].0 == "password_hash";
      assert kept[i] == ("password_hash", hash);
    } else {
      assert !HasKey(dropped, "password_hash");
      var s := dropped + [("password_hash", hash)];
      assert s[|s| - 1] == ("password_hash", hash);
    }
  }

  /** A filter of entries with distinct keys has distinct keys. */
  lemma {:induction false} DistinctFilter(entries: seq<(string, string)>, p: ((string, string)) -> bool)
    requires DistinctKeys(entries)
    ensures DistinctKeys(Ordering.Filter(entries, p))
  {
    if entries != [] {
      var t := entries[1..];
      assert DistinctKeys(t);
      DistinctFilter(t, p);
      FilterMembers(t, p);
      var ft := Ordering.Filter(t, p);
      forall k | 0 <= k < |ft| ensures ft[k].0 != entries[0].0 {
        assert ft[k] in t;
        var j :| 0 <= j < |t| && t[j] == ft[k];
        assert entries[1 + j] == t[j];
      }
      var r := Ordering.Filter(entries, p);
      assert r == (if p(entries[0]) then [entries[0]] else []) + ft;
    }
  }

  /** The row after `SET k1 = v1, ...` over accepted columns. */
  function ApplyUser(u: UserRow, fields: seq<(string, string)>): (r: UserRow)
    ensures r.id == u.id && r.createdAt == u.createdAt
    ensures u.passwordHash.Some? ==> r.passwordHash.Some?
  {
    if fields == [] then u
    else
      var f := fields[|fields| - 1];
      var s := ApplyUser(u, fields[..|fields| - 1]);
      if f.0 == "name" then s.(name := f.1)
      else if f.0 == "email" then s.(email := f.1)
      else if f.0 == "role" then s.(role := f.1)
      else if f.0 == "password_hash" then s.(passwordHash := Some(f.1))
      else s
  }

  /** Each column holds the value the update gave it last, and keeps its value when not named. */
  lemma {:induction false} ApplyUserEffect(u: UserRow, fields: seq<(string, string)>)
    ensures ApplyUser(u, fields).name ==
      (if LastValue(fields, "name").Some? then LastValue(fields, "name").value else u.name)
    ensures ApplyUser(u, fields).email ==
      (if LastValue(fields, "email").Some? then LastValue(fields, "email").value else u.email)
    ensures ApplyUser(u, fields).role ==
      (if LastValue(fields, "role").Some? then LastValue(fields, "role").value else u.role)
    ensures ApplyUser(u, fields).passwordHash ==
      (if LastValue(fields, "password_hash").Some? then Some(LastValue(fields, "password_hash").value) else u.passwordHash)
  {
    if fields != [] {
      ApplyUserEffect(u, fields[..|fields| - 1]);
    }
  }

  /** The substitution keeps every entry of the update object that names neither the password nor the hash. */
  lemma SubstitutedKeeps(updates: seq<(string, string)>, hash: string, i: nat)
    requires i < |updates| && updates[i].0 != "password" && updates[i].0 != "password_hash"
    ensures updates[i] in Substituted(updates, hash)
  {
    if LastValue(updates, "password").Some? && LastValue(updates, "password").value != "" {
      var kept := seq(|updates|, j requires 0 <= j < |updates| =>
                      if updates[j].0 == "password_hash" then ("password_hash", hash) else updates[j]);
      var p := (x: (string, string)) => x.0 != "password";
      FilterMembers(kept, p);
      assert kept[i] == updates[i];
    }
  }

  /** The accepted entries of an update object with distinct keys have distinct keys. */
  lemma AcceptedDistinct(updates: seq<(string, string)>, hash: string)
    requires DistinctKeys(updates)
    ensures DistinctKeys(KeepAllowed(Substituted(updates, hash), AllowedFields(updates)))
  {
    if LastValue(updates, "password").Some? && LastValue(updates, "password").value != "" {
      SubstitutedHash(updates, hash);
    }
    KeepAllowedDistinct(Substituted(updates, hash), AllowedFields(updates));
  }

  /** An accepted column other than the hash keeps, through substitution and filtering, the value the update object gave it. */
  lemma BaseFieldSurvives(updates: seq<(string, string)>, hash: string, key: string)
    requires DistinctKeys(updates) && key in BaseFields
    ensures LastValue(KeepAllowed(Substituted(updates, hash), AllowedFields(updates)), key) == LastValue(updates, key)
  {
    var s, allowed := Substituted(updates, hash), AllowedFields(updates);
    var fields := KeepAllowed(s, allowed);
    assert key in allowed && key != "password" && key != "password_hash";
    KeepAllowedExact(s, allowed);
    if HasKey(updates, key) {
      var i :| 0 <= i < |updates| && updates[i].0 == key;
      LastValueOfEntry(updates, i);
      SubstitutedKeeps(updates, hash, i);
      assert updates[i] in fields;
      var j :| 0 <= j < |fields| && fields[j] == updates[i];
      AcceptedDistinct(updates, hash);
      LastValueOfEntry(fields, j);
    } else {
      SubstitutedFrom(updates, hash);
      forall j | 0 <= j < |fields| ensures fields[j].0 != key {
        assert fields[j] in s;
        if fields[j] in updates {
          var m :| 0 <= m < |updates| && updates[m] == fields[j];
        }
      }
    }
  }

  /**
   * What update leaves in each column of the row: the value the update
   * object names for name, email and role, the new hash when the password
   * is truthy, and otherwise what the row held.
   */
  lemma UpdatedRow(u: UserRow, updates: seq<(string, string)>, hash: string)
    requires DistinctKeys(updates)
    ensures var r := Updated(u, updates, hash);
      && r.id == u.id && r.createdAt == u.createdAt
      && r.name == (if LastValue(updates, "name").Some? then LastValue(updates, "name").value else u.name)
      && r.email == (if LastValue(updates, "email").Some? then LastValue(updates, "email").value else u.email)
      && r.role == (if LastValue(updates, "role").Some? then LastValue(updates, "role").value else u.role)
      && r.passwordHash ==
           (if LastValue(updates, "password").Some? && LastValue(updates, "password").value != "" then Some(hash)
            else u.passwordHash)
  {
    var fields := KeepAllowed(Substituted(updates, hash), AllowedFields(updates));
    BaseFieldSurvives(updates, hash, "name");
    BaseFieldSurvives(updates, hash, "email");
    BaseFieldSurvives(updates, hash, "role");
    PasswordBecomesHash(updates, hash);
    ApplyUserEffect(u, fields);
  }

  /** The row update writes for `updates`: the accepted entries of the substituted object, applied to it. */
  function Updated(u: UserRow, updates: seq<(string, string)>, hash: string): UserRow {
    ApplyUser(u, KeepAllowed(Substituted(updates, hash), AllowedFields(updates)))
  }

  /** The email the update leaves on the row. */
  function NewEmail(u: UserRow, fields: seq<(string, string)>): string {
    if LastValue(fields, "email").Some? then LastValue(fields, "email").value else u.email
  }

  /**
   * An update object naming name, email or role, or carrying a truthy
   * password, leaves at least one accepted column, and the email the
   * rewritten row holds is the one the conflict test looks at.
   */
  lemma AcceptedNonEmpty(u: UserRow, updates: seq<(string, string)>, hash: string)
    requires DistinctKeys(updates)
    requires || LastValue(updates, "name").Some? || LastValue(updates, "email").Some? || LastValue(updates, "role").Some?
             || (LastValue(updates, "password").Some? && LastValue(updates, "password").value != "")
    ensures KeepAllowed(Substituted(updates, hash), AllowedFields(updates)) != []
    ensures Updated(u, updates, hash).email == NewEmail(u, KeepAllowed(Substituted(updates, hash), AllowedFields(updates)))
  {
    var fields := KeepAllowed(Substituted(updates, hash), AllowedFields(updates));
    ApplyUserEffect(u, fields);
    BaseFieldSurvives(updates, hash, "name");
    BaseFieldSurvives(updates, hash, "email");
    BaseFieldSurvives(updates, hash, "role");
    PasswordBecomesHash(updates, hash);
  }

  /**
   * update: substitutes a truthy password by its hash, keeps the entries
   * naming an accepted column (none is an error), and rewrites the row
   * when there is one (null otherwise). An email held by another user is
   * reported as "Email já está em uso", as `create` does.
   */
  method Update(db: Store, id: Id, updates: seq<(string, string)>, hash: string)
    returns (r: Result<Option<UserRow>>)
    requires db.Valid()
    modifies db`users
    ensures db.Valid()
    ensures var fields := KeepAllowed(Substituted(updates, hash), AllowedFields(updates));
      && (fields == [] ==> r == Err(NoValidField) && db.users == old(db.users))
      && (fields != [] && id !in old(db.users) ==> r == Ok(None) && db.users == old(db.users))
      && (fields != [] && id in old(db.users) && EmailTaken(old(db.users), NewEmail(old(db.users)[id], fields), id) ==>
            r == Err(EmailInUse) && db.users == old(db.users))
      && (fields != [] && id in old(db.users) && !EmailTaken(old(db.users), NewEmail(old(db.users)[id], fields), id) ==>
            db.users == old(db.users)[id := ApplyUser(old(db.users)[id], fields)]
            && r == Ok(Some(WithoutHash(ApplyUser(old(db.users)[id], fields)))))
  {
    var entries := Substituted(updates, hash);
    var allowed := AllowedFields(updates);
    var fields := CollectAllowed(entries, allowed);
    if fields == [] {
      return Err(NoValidField);
    }
    if id !in db.users {
      return Ok(None);
    }
    var updated := ApplyUser(db.users[id], fields);
    ApplyUserEffect(db.users[id], fields);
    if exists k :: k in db.users && k != id && db.users[k].email == updated.email {
      return Err(EmailInUse);
    }
    ReplaceKeepsUsersValid(db.users, id, updated, db.users[id := updated]);
    db.users := db.users[id := updated];
    r := Ok(Some(WithoutHash(updated)));
  }

  /** Rewriting a user row keeps the users table keyed by id, with hashes, and its emails unique. */
  lemma ReplaceKeepsUsersValid(users: map<Id, UserRow>, id: Id, u: UserRow, after: map<Id, UserRow>)
    requires forall k :: k in users ==> users[k].id == k && users[k].passwordHash.Some?
    requires UniqueEmails(users)
    requires u.id == id && u.passwordHash.Some?
    requires !EmailTaken(users, u.email, id)
    requires after == users[id := u]
    ensures forall k :: k in after ==> after[k].id == k && after[k].passwordHash.Some?
    ensures UniqueEmails(after)
  {
  }

  /**
   * The same UPDATE as the source writes it: its catch-free path lets the
   * store's unique violation through unchanged, so an email held by
   * another user surfaces as the raw store error.
   */
  function UpdateConflictAsWritten(users: map<Id, UserRow>, id: Id, fields: seq<(string, string)>): (r: Option<Error>)
    requires id in users
    ensures r.Some? <==> EmailTaken(users, NewEmail(users[id], fields), id)
    ensures r.Some? ==> r.value == UniqueViolation && r.value != EmailInUse
  {
    if EmailTaken(users, NewEmail(users[id], fields), id) then Some(UniqueViolation) else None
  }

  /** delete: removes the row and reports whether there was one. */
  method Delete(db: Store, id: Id) returns (deleted: bool)
    requires db.Valid()
    modifies db`users
    ensures db.Valid()
    ensures deleted <==> id in old(db.users)
    ensures db.users == old(db.users) - {id}
  {
    deleted := id in db.users;
    db.users := db.users - {id};
  }

  // ---------------------------------------------------------------------------
  // The user's tasks and teams

  /** The WHERE clause of getTasks: assigned to the user, on an existing team, of the status when it is truthy. */
  predicate TaskOfUser(t: TaskRow, teams: map<Id, TeamRow>, userId: Id, status: Param) {
    t.assignedTo == Some(userId) && t.teamId in teams && (Truthy(status) ==> t.status == status.s)
  }

  /** getTasks: exactly the tasks assigned to the user on an existing team, optionally of one status, newest first. */
  ghost function GetTasks(tasks: map<Id, TaskRow>, teams: map<Id, TeamRow>, userId: Id, status: Param)
    : (r: seq<TaskRow>)
    ensures SortedDesc(r, TaskModel.CreatedAt)
    ensures forall t :: t in r ==> t in tasks.Values && TaskOfUser(t, teams, userId, status)
    ensures forall k :: k in tasks && TaskOfUser(tasks[k], teams, userId, status) ==> tasks[k] in r
  {
    var p := (t: TaskRow) => TaskOfUser(t, teams, userId, status);
    var kept := Ordering.Filter(Rows(tasks), p);
    FilterMembers(Rows(tasks), p);
    var r := SortDesc(kept, TaskModel.CreatedAt);
    assert forall t :: t in r <==> t in multiset(r);
    assert forall t :: t in kept <==> t in multiset(kept);
    r
  }

  /** getTeams: exactly the teams the user belongs to. */
  ghost function GetTeams(teams: map<Id, TeamRow>, members: set<(Id, Id)>, userId: Id): (r: seq<TeamRow>)
    ensures forall t :: t in r ==> t in teams.Values && TeamModel.IsMember(members, t.id, userId)
    ensures forall k :: k in teams && TeamModel.IsMember(members, teams[k].id, userId) ==> teams[k] in r
  {
    var p := (t: TeamRow) => TeamModel.IsMember(members, t.id, userId);
    FilterMembers(Rows(teams), p);
    Ordering.Filter(Rows(teams), p)
  }
}
