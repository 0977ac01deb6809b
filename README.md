# gerenciador-tarefas: the rules layer in Dafny

gerenciador-tarefas is an Express and PostgreSQL backend for a team task
manager. Users belong to teams, tasks belong to teams, and every change to a
task is logged in a history ledger. This project models its rules layer in
Dafny and proves properties of that model:

- the models: `Task`, `TaskHistory`, `Team` and `User`;
- the four controllers: auth, task, team and user;
- the authentication middleware.

**The store.** The database is a `Database.Store` object (`store.dfy`). It holds five tables:

- `users`, `teams` and `tasks`, maps from uuid to row;
- `members`, the set of `(team_id, user_id)` pairs of team_members;
- `history`, the append-only task_history sequence, with `serial` standing for its id sequence.

Model operations that write a table are methods with `modifies` clauses on the
store, and they keep `Store.Valid()`: every row carries its own key, every user has a
password hash, user emails are unique, and every history id is below `serial`. Read-only operations are functions
over the tables. Each SQL query is modelled with `Ordering.Query`: a filter
(WHERE), an ordering (ORDER BY ... DESC), and a LIMIT/OFFSET window. A negative
LIMIT or OFFSET makes the store fail.

**Requests.** A request field is a `JsRuntime.Param`: undefined, null or a
string, with JavaScript truthiness. A handler is a guard chain ending in one
store call. It is modelled as a function that yields either the value the
handler goes on with or the error it answers with (`Outcomes.Error`: an error
kind mapped to an HTTP status, plus the `error` and `message` texts of the
response), followed by the method that performs the store call. The
middleware is modelled on its own (`AuthMiddleware`). A handler that uses
the acting admin's id carries `requires IsAdmin(actor)` for the
`requireAdmin` its route puts in front of it: `UserController.DeleteUser`
and the five team-changing handlers of `src/routes/teams.js`. The other
admin-only handlers of `src/routes/users.js` take no actor and are modelled
without their route's gate. The register route's own gate for an `admin`
role is `AuthController.RegisterGate`.

**Parameters.** Everything the code delegates to a library or to the clock is a parameter:

- bcrypt's `hash` and `compare`;
- jsonwebtoken's `verify`;
- `new Date(text)` (`parse`, None for an invalid date);
- `Date.now()` (`now`, in milliseconds);
- the per-day statistics of `getActivityStatsByTeam` (`stats`).

**Modules.** One file per source file, plus six shared modules:

| module | contents |
|---|---|
| `Outcomes` | error kinds and results |
| `Schema` | rows and enumerations |
| `JsRuntime` | the JavaScript built-ins the code relies on: trim, toLowerCase, split, slice, Math.ceil, object building, destructuring defaults |
| `Ordering` | WHERE / ORDER BY / LIMIT |
| `Database` | the store |
| `Validation` | the user field checks the three controllers share |

`TaskListing` holds the two loop-based listings of the task controller.

## Model

| member | source | states |
|---|---|---|
| JsRuntime.Trim | src/controllers/userController.js:126-127 | the result is the input with its leading and trailing white space cut, and begins and ends with a non-space |
| JsRuntime.TrimIdempotent | src/controllers/teamController.js:107-119 | trimming a trimmed string changes nothing |
| JsRuntime.LowerChar | src/controllers/userController.js:127 | lower-casing keeps white space, `@` and `.` exactly where they were |
| JsRuntime.ToLower | src/controllers/userController.js:127 | same length, each character lower-cased in place |
| JsRuntime.LowerCharIdempotent | src/controllers/authController.js:97 | lower-casing a lower-cased character changes nothing |
| JsRuntime.Split | src/middleware/auth.js:8 | at least one piece, none holding the separator |
| JsRuntime.JoinSplit | src/middleware/auth.js:8 | joining the pieces with the separator gives back the string |
| JsRuntime.SplitWithout | src/middleware/auth.js:8 | a string without the separator splits into itself alone |
| JsRuntime.SplitAt | src/middleware/auth.js:8 | a string `a + sep + b` with no separator in `a` splits into `a` followed by the pieces of `b` |
| JsRuntime.ClampIndex | src/controllers/userController.js:310 | `slice`'s index rule: indexes inside the sequence stay, larger ones become its length, negative ones count from the end and stop at 0 |
| JsRuntime.Slice | src/controllers/userController.js:310 | the elements between the clamped start and end, nothing when the end is before the start |
| JsRuntime.SliceWindow | src/controllers/teamController.js:431 | a window holds only elements of the sequence, and from a non-negative offset at most `limit` of them |
| JsRuntime.CeilDiv | src/models/Task.js:292 | the least integer at or above the quotient, for either sign of the divisor |
| JsRuntime.CeilQuotient | src/controllers/userController.js:40 | `Math.ceil(total / limit)` is not a finite page count exactly when the limit is 0, and is a non-negative count for a positive limit |
| JsRuntime.PageOfRow | src/controllers/userController.js:310-319 | with a positive limit, row k is on page `k / limit + 1`, at slot `k % limit`, and that page is at most `ceil(length / limit)` |
| JsRuntime.PageArithmetic | src/controllers/userController.js:289 | row k's page starts at `(page - 1) * limit`, at or before k, and k lies within it |
| JsRuntime.KeepAllowed | src/models/Team.js:81-87 | at most the given entries, each with an allowed key |
| JsRuntime.KeepAllowedExact | src/models/Team.js:81-87 | an entry is kept exactly when its key is allowed; nothing is kept exactly when no key is allowed |
| JsRuntime.CollectAllowed | src/models/User.js:87-93 | the loop collects exactly the entries with allowed keys, in order |
| JsRuntime.KeepAllowedAll | src/models/Team.js:81-87 | when every key is allowed nothing is dropped |
| JsRuntime.KeepAllowedDistinct | src/models/User.js:87-93 | distinct keys stay distinct after the filter |
| JsRuntime.LastValue | src/models/User.js:87-95 | a key has a last value exactly when some entry carries it, and that value is an entry's |
| JsRuntime.SetIfShape | src/controllers/authController.js:176-195 | a conditional assignment of a new key adds one entry exactly when its condition holds, keeps keys distinct, and sets the key's value exactly then |
| JsRuntime.SetIfStep | src/controllers/authController.js:176-195 | a conditional assignment keeps keys distinct, adds only its key, sets it exactly when the condition holds and leaves every other key's value |
| JsRuntime.AssignedFrom | src/controllers/taskController.js:266-344 | each entry of a chain of conditional assignments comes from a statement whose condition held |
| JsRuntime.AssignedShape | src/controllers/taskController.js:266-344 | a chain over distinct keys builds distinct keys, and each key's value is its statement's exactly when that statement's condition held |
| JsRuntime.Defaulted | src/controllers/taskController.js:124-132 | a destructuring default replaces exactly an undefined field by the default string; a given field, null included, is kept as it is |
| JsRuntime.SetIfOther | src/controllers/authController.js:176-195 | a conditional assignment leaves the value of every other key as it was |
| JsRuntime.LastValueSnoc | src/models/User.js:87-93 | appending an entry makes it its key's last value and changes no other key's |
| JsRuntime.LastValueOfEntry | src/models/User.js:87-93 | with distinct keys, a key's last value is its one entry's value |
| Ordering.Insert | src/models/Task.js:111 | inserting adds exactly the one row |
| Ordering.InsertSorted | src/models/Task.js:111 | inserting into rows in `ORDER BY ... DESC` order keeps them in that order |
| Ordering.SortDesc | src/models/TaskHistory.js:51 | `ORDER BY ... DESC` yields a permutation of the rows in non-increasing key order |
| Ordering.PrefixSorted | src/controllers/teamController.js:81 | the first n rows of a sorted listing are sorted, are its first rows, and are n of them or all of them |
| Ordering.SortedPrefixMembers | src/models/TaskHistory.js:108-124 | the first rows of the sorted copy are rows of the table |
| Ordering.Filter | src/models/Task.js:65-116 | only rows the WHERE clause accepts, at most as many as there are |
| Ordering.FilterAppend | src/models/Task.js:65-116 | filtering two tables' rows together is filtering each |
| Ordering.FilterSplitsCount | src/models/Team.js:195-209 | a clause and its complement split the rows between them |
| Ordering.FilterAll | src/models/Task.js:65-116 | a clause that accepts every row keeps the rows |
| Ordering.FilterMembers | src/models/Task.js:65-116 | a row is kept exactly when it is a row of the table the clause accepts |
| Ordering.FilterSorted | src/models/Task.js:65-116 | a WHERE clause keeps a sorted order sorted |
| Ordering.Window | src/models/Task.js:111 | a negative LIMIT or OFFSET makes the store fail; otherwise at most `limit` rows, the rows after `offset` |
| Ordering.WindowSlice | src/models/Task.js:111 | a LIMIT/OFFSET window is the slice `[offset, offset + limit)` |
| Ordering.FilterNone | src/models/Task.js:65-116 | a clause that accepts no row yields nothing |
| Ordering.Query | src/models/User.js:59-69 | fails exactly on a negative LIMIT or OFFSET; otherwise at most `limit` rows in `ORDER BY ... DESC` order |
| Ordering.QuerySound | src/models/User.js:59-69 | a query returns only rows of the table that its WHERE clause accepts |
| Ordering.QueryComplete | src/models/User.js:59-69 | a first page large enough holds every accepted row, each as often as the table |
| Ordering.FilterKeepsNoDuplicates | src/models/Task.js:65-116 | filtering distinct rows leaves distinct rows |
| Ordering.InsertKeepsNoDuplicates | src/models/Task.js:111 | inserting a new row into distinct rows keeps them distinct |
| Ordering.SortKeepsNoDuplicates | src/models/Task.js:111 | sorting distinct rows leaves them distinct |
| Ordering.FilterCount | src/controllers/userController.js:28-32 | over distinct rows the filter keeps as many rows as distinct accepted rows exist |
| Database.Rows | src/config/database.js:30-45 | a scan returns only rows of the table, every row of the table, one row per key, and distinct rows without repeats |
| Database.RowsCount | src/controllers/userController.js:28-32 | over distinct rows, the filtered scan has as many rows as COUNT(*) reports |
| Outcomes.HttpStatus | src/controllers/userController.js:92-150 | every error answers a status between 400 and 500, and exactly the internal errors answer 500 |
| Schema.ColumnText | src/models/Task.js:176-180 | a value becomes a NULL text exactly when it is null |
| Schema.OptionValue | src/models/Task.js:176-180 | an optional column's value is written back as its own text |
| Validation.ValidEmailShape | src/controllers/authController.js:19-20 | an email the pattern accepts holds exactly one '@' and no white space |
| Validation.EmailPatternExamples | src/controllers/authController.js:19-20 | the pattern accepts "ana@exemplo.com" and refuses an address without a dot after the '@', with an empty local part, with the dot first in the domain, with a space, and with two '@' |
| Validation.AtSplit | src/controllers/authController.js:19-20 | for an address with a single '@', the pattern matches exactly when the part before it is non-empty plain characters and the part after is plain characters with an inner dot |
| Validation.NormalizeIdempotent | src/controllers/authController.js:52 | normalising a normalised email changes nothing, so the stored form is the form a later lookup of it computes |
| Validation.PasswordBoundary | src/controllers/authController.js:27-33 | a five-character password is refused and a six-character one accepted |
| Validation.NormalizedEmailMatches | src/controllers/authController.js:19-52 | normalising a matching email only lower-cases it, and the result still matches |
| Validation.LowerKeepsMatch | src/controllers/authController.js:52 | lower-casing a matching email keeps it matching |
| Validation.TrimSpaceless | src/controllers/authController.js:52 | trim leaves a string without white space unchanged |
| Validation.CheckNewUser | src/controllers/authController.js:11-33 | 400 "Dados obrigatórios" when name, email or password is falsy, then "Email inválido", then "Senha fraca"; passes exactly when all three checks pass |
| Validation.Prepared | src/controllers/authController.js:50-55 | the stored account has the trimmed name, the lower-cased email, which still matches, and the password and role as given |
| Validation.UserFieldsShape | src/controllers/authController.js:171-195 | the update object names each of name, email and password at most once, holds a field's prepared value exactly when the body's field is truthy, and is empty exactly when none is |
| Validation.CatchEmailInUse | src/controllers/authController.js:69-79 | the message "Email já está em uso" becomes the 409 "Email já existe"; anything else the handler's own 500 |
| UserModel.ToJson | src/models/User.js:161-164 | the public form carries every field of the row except the password hash |
| UserModel.ToJsonHidesHash | src/models/User.js:161-164 | two rows that differ only in the hash have the same public form |
| UserModel.WithoutHash | src/models/User.js:39-46 | the queries that do not select password_hash return a row without it, whose public form is unchanged |
| UserModel.Create | src/models/User.js:16-36 | an email held by another user fails with "Email já está em uso" and stores nothing; otherwise exactly the new row, with role member unless given and the new hash, is stored and returned without the hash |
| UserModel.FindById | src/models/User.js:39-46 | found exactly when the row exists, returned without the hash |
| UserModel.FindByEmail | src/models/User.js:49-56 | found exactly when some user has that email, and it is that full row |
| UserModel.FindAll | src/models/User.js:59-69 | limit defaults to 50 and offset to 0; a negative one fails; otherwise at most `limit` users, newest first by creation, each a stored user without the hash, and a first page at least as large as the table lists every user |
| UserModel.FindAllPage | src/models/User.js:59-69 | the page findAll answers is bounded, newest first, free of hashes, drawn from the table, and complete when it is a large enough first page |
| UserModel.PasswordBecomesHash | src/models/User.js:78-93 | the plaintext password never reaches the written columns; a truthy one arrives as password_hash holding the new hash, and without one no hash column is written |
| UserModel.SubstitutedFrom | src/models/User.js:79-84 | the substitution brings in no key but password_hash |
| UserModel.SubstitutedHash | src/models/User.js:79-84 | with a truthy password the update object holds the new hash and its keys stay distinct |
| UserModel.ApplyUser | src/models/User.js:100-105 | the UPDATE never changes the id or creation time, and never removes a hash |
| UserModel.ApplyUserEffect | src/models/User.js:87-105 | each of name, email, role and hash holds the value the update gave it last, and keeps its value when not named |
| UserModel.SubstitutedKeeps | src/models/User.js:79-84 | every entry of the update object other than password and password_hash survives the substitution |
| UserModel.AcceptedDistinct | src/models/User.js:87-93 | the accepted entries keep distinct keys |
| UserModel.BaseFieldSurvives | src/models/User.js:72-93 | name, email and role reach the UPDATE with exactly the value the update object gave them |
| UserModel.UpdatedRow | src/models/User.js:72-108 | the row after update has the named name, email and role, the new hash exactly when the password is truthy, and everything else unchanged |
| UserModel.AcceptedNonEmpty | src/models/User.js:72-97 | an update object naming name, email or role, or with a truthy password, keeps at least one accepted column, so it never fails with "Nenhum campo válido para atualizar" |
| UserModel.Update | src/models/User.js:72-108 | no accepted key fails with "Nenhum campo válido para atualizar"; an unknown id gives null; both change nothing; otherwise exactly the row is rewritten and returned without the hash (the email conflict is the corrected behaviour, see Findings) |
| UserModel.ReplaceKeepsUsersValid | src/models/User.js:100-105 | rewriting a row with an email no one else holds keeps the emails unique |
| UserModel.UpdateConflictAsWritten | src/models/User.js:99-107 | as written, an email held by another user surfaces as the store's raw unique violation, never as "Email já está em uso" |
| UserModel.Delete | src/models/User.js:111-118 | removes the row; true exactly when it existed |
| UserModel.GetTasks | src/models/User.js:140-158 | exactly the tasks assigned to the user on an existing team, of the status when it is truthy, newest first |
| UserModel.GetTeams | src/models/User.js:126-137 | exactly the teams the user belongs to |
| TaskModel.FindById | src/models/Task.js:47-62 | a task is found exactly when its row exists and its creator and team still exist (the inner joins), and it is the stored row |
| TaskModel.NewRow | src/models/Task.js:20-27 | the inserted row has status Pendente and priority Média unless given, and every other column as passed |
| TaskModel.Create | src/models/Task.js:20-44 | exactly the new row is added, and exactly one history row is appended after the existing ones |
| TaskModel.CreationLogsOnce | src/models/Task.js:29-38 | after creation a fresh task has exactly one history row: field created, new value "Tarefa criada", reason "Criação inicial da tarefa", written by the creator |
| TaskModel.ColumnsOf | src/models/Task.js:168 | `currentTask[key]` reads the column of the same name for each of the six allowed keys |
| TaskModel.SetColumn | src/models/Task.js:191 | writing one column changes that column to the value and no other column, nor the id, team, creator or creation time |
| TaskModel.Changes | src/models/Task.js:167-168 | the loop acts on at most the given entries, only on allowed keys, and keeps their column types |
| TaskModel.Apply | src/models/Task.js:189-197 | the UPDATE never changes the id, team, creator or creation time |
| TaskModel.Update | src/models/Task.js:154-198 | an id the join does not find fails with "Tarefa não encontrada" and changes nothing; otherwise one history row per changed column is appended in order, the row becomes the updated row, and with no change the tasks are left as they were |
| TaskModel.LogChanges | src/models/Task.js:167-183 | the loop logs exactly the qualifying entries, in order, one history row each, numbered from the serial counter |
| TaskModel.LogChange | src/models/Task.js:168-181 | one pass appends one history row after those logged so far |
| TaskModel.Updated | src/models/Task.js:185-197 | the row update leaves keeps the id, team, creator and creation time |
| TaskModel.UpdatedColumn | src/models/Task.js:154-198 | after update every allowed column the update names holds the submitted value and every other column keeps its value |
| TaskModel.ChangeEntriesSnoc | src/models/Task.js:174-181 | logging one more change appends exactly its history row |
| TaskModel.ChangesExact | src/models/Task.js:167-168 | the loop acts exactly on the entries with an allowed key whose value strictly differs from the stored one |
| TaskModel.ChangesTyped | src/models/Task.js:167-168 | the changes keep the update's distinct keys and column types, and each names a key of the update |
| TaskModel.ApplyEffect | src/models/Task.js:189-195 | after the UPDATE every changed column holds its submitted value and every other column keeps its value |
| TaskModel.NoChangeNoEffect | src/models/Task.js:185-187 | with no qualifying entry the loop acts on nothing, so the current task is returned unchanged |
| TaskModel.ResubmitIsNoChange | src/models/Task.js:168 | re-submitting the stored value of any column but due_date is not a change |
| TaskModel.DueDateAlwaysChanges | src/models/Task.js:168 | a submitted Date counts as changed even when equal to the stored one, because `!==` compares objects |
| TaskModel.StatusReason | src/models/Task.js:254 | the reason is the given one when truthy, otherwise "Status alterado de <old> para <new>" |
| TaskModel.Task.AssignTo | src/models/Task.js:211-235 | when the row exists: the assignee is written, one reassignment row with the previous assignee is appended, the snapshot is refreshed, true; otherwise nothing changes and false |
| TaskModel.Task.ChangeStatus | src/models/Task.js:238-262 | when the row exists: the status is written, one status row with the given or generated reason is appended, the snapshot is refreshed, true; otherwise nothing changes and false |
| TaskModel.SingleFieldWritersAlwaysLog | src/models/Task.js:211-262 | setting the current assignee or status again is no change for update, yet assignTo and changeStatus log a row whose old and new values coincide |
| TaskModel.Delete | src/models/Task.js:201-208 | the row is removed and the result is true exactly when it existed |
| TaskModel.FindAll | src/models/Task.js:65-116 | a negative LIMIT/OFFSET fails; otherwise at most `limit` tasks, newest first, each a row of the table matching every truthy filter with creator and team present; the page is the `[offset, offset + limit)` slice of the whole ordered listing, and a first page at least as large as the table lists every matching task |
| TaskModel.FindAllSound | src/models/Task.js:65-116 | every row of a findAll page is a row of the table that matches the truthy filters and has its creator and team |
| TaskModel.FindAllWindow | src/models/Task.js:111-112 | a findAll page is the LIMIT/OFFSET slice of the whole listing in ORDER BY created_at DESC order |
| TaskModel.FindAllComplete | src/models/Task.js:65-116 | a first page at least as large as the table lists every task the WHERE clause accepts |
| TaskModel.FindByUserId | src/models/Task.js:119-151 | a negative LIMIT/OFFSET fails; otherwise at most `limit` tasks, newest first, each a row of the table assigned to the user and matching the truthy status and team filters with creator and team present; a first page at least as large as the table lists every such task |
| TaskModel.FindByUserIdSound | src/models/Task.js:119-151 | every row of a findByUserId page is a row of the table its WHERE clause accepts |
| TaskModel.FindByUserIdComplete | src/models/Task.js:119-151 | a first findByUserId page at least as large as the table lists every task assigned to the user that matches the filters |
| TaskModel.DaysRemaining | src/models/Task.js:287-294 | null exactly without a due date; otherwise the ceiling of the remaining milliseconds over 86400000 |
| TaskModel.NeverOverdue | src/models/Task.js:281-284 | a task without a due date, or a Concluído task, is never overdue |
| TaskModel.DaysRemainingSign | src/models/Task.js:281-294 | an overdue task has no days left, and a task due in the future has at least one |
| TaskModel.EditRights | src/models/Task.js:270-278 | an admin may edit every task, anyone else exactly the tasks they created or are assigned; changing title, description, status, priority or due date never changes who may edit |
| TaskModel.OverdueStaysOverdue | src/models/Task.js:281-284 | an overdue task stays overdue as time goes on, and is no longer overdue once Concluído |
| TaskHistoryModel.Create | src/models/TaskHistory.js:16-29 | exactly one row, numbered by the serial counter, is appended after every existing row |
| TaskHistoryModel.AppendKeepsEntries | src/models/TaskHistory.js:16-29 | an append keeps every earlier row at its place and adds only the new one, at the end |
| TaskHistoryModel.Page | src/models/TaskHistory.js:44-105 | the shared LIMIT/OFFSET page of the four per-key queries: defaults 100 and 0, failure exactly for a negative bound, at most `limit` rows, newest first, only accepted rows of the ledger, and every accepted row on a large enough first page |
| TaskHistoryModel.FindByTaskId | src/models/TaskHistory.js:45-57 | limit defaults to 100 and offset to 0; a negative one fails; otherwise at most `limit` rows, newest first, each of that task and by an existing author; a large enough first page holds every such row |
| TaskHistoryModel.FindByChangedBy | src/models/TaskHistory.js:60-73 | limit defaults to 100 and offset to 0; a negative one fails; otherwise at most `limit` rows, newest first, only the user's rows on tasks that still exist; a large enough first page holds every such row |
| TaskHistoryModel.FindByField | src/models/TaskHistory.js:76-89 | limit defaults to 100 and offset to 0; a negative one fails; otherwise at most `limit` rows, newest first, only the rows about that column, by existing authors and on existing tasks; a large enough first page holds every such row |
| TaskHistoryModel.FindByTeamId | src/models/TaskHistory.js:92-105 | limit defaults to 100 and offset to 0; a negative one fails; otherwise at most `limit` rows, newest first, only the rows on existing tasks of that team, by existing authors; a large enough first page holds every such row |
| TaskHistoryModel.GetRecentActivity | src/models/TaskHistory.js:108-124 | a negative limit fails; otherwise at most `limit` rows (50 by default), newest first, each a row of the ledger with its author, task and team present; a limit at least as large as the ledger lists every such row |
| TaskHistoryModel.RecentPage | src/models/TaskHistory.js:108-124 | every row of the page is a ledger row with its author, task and team present, and a limit at least as large as the ledger lists every such row |
| TaskHistoryModel.RetentionExact | src/models/TaskHistory.js:198-208 | the sweep keeps exactly the rows at or after the cutoff and removes only older ones; removed and kept rows add up to the whole ledger |
| TaskHistoryModel.DeleteOldHistory | src/models/TaskHistory.js:198-208 | the ledger becomes the rows at or after `now` minus `daysOld` days (365 by default), and the count returned is the number removed |
| TaskHistoryModel.ShownOrEmpty | src/models/TaskHistory.js:228 | a missing or empty value shows as "vazio"; any other is shown as it is; the text is never empty |
| TaskHistoryModel.FormattedChange | src/models/TaskHistory.js:211-229 | the creation row reads "Criação: <new>"; any other reads "<label>: <old or vazio> → <new or vazio>" |
| TaskHistoryModel.LabelFallback | src/models/TaskHistory.js:212-222 | a column outside the fixed map is shown under its own name; a known one under a different, non-empty label |
| TaskHistoryModel.ToJson | src/models/TaskHistory.js:232-237 | the JSON holds the row itself and `formatted_change` equal to getFormattedChange |
| TeamModel.AddMember | src/models/Team.js:115-128 | fails with "Usuário já é membro deste time" exactly when the pair is already there, and then changes nothing; otherwise adds exactly that pair; afterwards the user is a member |
| TeamModel.RemoveMember | src/models/Team.js:131-138 | true exactly when the pair existed; afterwards that pair is gone and every other pair is unchanged |
| TeamModel.MembershipUpdates | src/models/Team.js:115-162 | isMember after adding a pair holds for exactly that pair besides the earlier members; after removing it, for exactly the earlier members but that pair |
| TeamModel.AddThenRemove | src/models/Team.js:115-138 | adding a new member and removing it again restores the membership relation |
| TeamModel.GetMembers | src/models/Team.js:141-152 | exactly the members of the team: each listed row is an existing member without the password hash, and every existing member is listed |
| TeamModel.Create | src/models/Team.js:14-32 | exactly the new team is added and exactly its creator becomes a member |
| TeamModel.Delete | src/models/Team.js:105-112 | removes the row; true exactly when it existed |
| TeamModel.ApplyTeam | src/models/Team.js:94-99 | the UPDATE never changes the id, the creator or the creation time |
| TeamModel.ApplyTeamEffect | src/models/Team.js:81-99 | name and description hold the last value the update gave them, and keep their value when not named |
| TeamModel.Update | src/models/Team.js:74-102 | no allowed key fails with "Nenhum campo válido para atualizar" and changes nothing; an unknown id gives null and changes nothing; otherwise exactly that row is rewritten with the allowed entries and returned |
| TeamModel.FindById | src/models/Team.js:35-42 | found exactly when the row exists, and it is that row |
| TeamModel.FindAll | src/models/Team.js:45-56 | a negative LIMIT/OFFSET fails; otherwise at most `limit` teams, newest first, each a row of the table with its creator present; a first page at least as large as the table lists every such team |
| TeamModel.FindAllSound | src/models/Team.js:45-56 | every team on a findAll page is a row of the table whose creator exists |
| TeamModel.FindAllComplete | src/models/Team.js:45-56 | a first findAll page at least as large as the table lists every team whose creator exists |
| TeamModel.FindByUserId | src/models/Team.js:59-71 | exactly the teams the user belongs to whose creator exists: each listed team is one, and every one is listed |
| TeamModel.GetTasks | src/models/Team.js:165-192 | exactly the team's tasks whose creator exists and that match the truthy status and assignee filters, newest first |
| TeamModel.GetStats | src/models/Team.js:195-209 | the three status counts add up to at most the total, active members are at most the total, and a team without tasks has all counts zero |
| TeamModel.StatusCountsBound | src/models/Team.js:197-201 | the three status counts are disjoint parts of the total |
| TeamModel.AssigneesBound | src/models/Team.js:202 | a set of tasks has no more distinct assignees than tasks |
| AuthMiddleware.ExtractToken | src/middleware/auth.js:7-8 | a token, when there is one, is a non-empty piece without spaces; no header or an empty header yields none |
| AuthMiddleware.BearerToken | src/middleware/auth.js:8 | for every header of the form "scheme token[ rest]" the token is exactly the second space-separated piece |
| AuthMiddleware.NoSpaceNoToken | src/middleware/auth.js:8-15 | a header without a space carries no token, so authenticateToken answers 401 "Token de acesso requerido" |
| AuthMiddleware.Authenticate | src/middleware/auth.js:5-53 | no token gives 401 "Token de acesso requerido"; success exactly when the token verifies to an existing user, whose row without the hash is returned; a token verified for a vanished user and a JsonWebTokenError are 401 "Token inválido" (with their two messages), a TokenExpiredError is 401 "Token expirado", and the 500 happens exactly for any other error |
| AuthMiddleware.AuthenticateToken | src/middleware/auth.js:29-31 | `req.user` is set to the authenticated user exactly on success and left as it was on every failure |
| AuthMiddleware.GeneratePayload | src/middleware/auth.js:165-170 | the payload carries exactly the user's id, email and role |
| AuthMiddleware.IssuedTokenAuthenticates | src/middleware/auth.js:5-31 | a bearer token that verifies to the payload of an existing user authenticates that same user |
| AuthMiddleware.AllowedRoles | src/middleware/auth.js:65 | a single role is treated as a one-element list |
| AuthMiddleware.RequireRole | src/middleware/auth.js:56-77 | 401 without a user; passes exactly when the user's role is listed; otherwise 403 "Acesso negado" naming the roles |
| AuthMiddleware.RequireAdminExact | src/middleware/auth.js:80 | requireAdmin passes exactly the admins and answers everyone else with the 403 naming the role admin |
| AuthMiddleware.RequireOwnershipOrAdmin | src/middleware/auth.js:83-109 | 401 without a user; passes exactly for an admin or for the user whose id is the target from params or body; otherwise 403 "Você só pode acessar seus próprios recursos" |
| AuthMiddleware.TeamMembership | src/middleware/auth.js:112-152 | 401 without a user; an admin passes with no team lookup; otherwise 400 without a team id, 404 for an unknown team, 403 "Você não é membro deste time" for a non-member, and success exactly for a member of an existing team, whose row is returned |
| AuthMiddleware.RequireTeamMembership | src/middleware/auth.js:145-154 | `req.team` is set to the team only on a member's success; admins and failures leave it unchanged |
| AuthController.SessionOf | src/controllers/authController.js:57-64 | the answer carries the public user and the payload of the token issued for it |
| AuthController.RegisterGate | src/routes/auth.js:12-24 | a body not asking for `admin` reaches register with no user; one asking for it gets authenticateToken's error (401 "Token de acesso requerido" without a token), then requireAdmin's 403 for a non-admin, and otherwise reaches register with that admin |
| AuthController.GatedRegisterRole | src/routes/auth.js:12-24 | behind the route's gate register's own admin rule never refuses, and an admin request is granted admin |
| AuthController.RegisterRole | src/controllers/authController.js:35-47 | the granted role is always admin or member; admin exactly when admin is requested by an authenticated admin; the 403 exactly when admin is requested by anyone else |
| AuthController.RegisterInput | src/controllers/authController.js:10-55 | the field checks come first and their error is the answer; success exactly when the fields pass and the role rule grants a role; the account then has the trimmed name, normalised email and granted role |
| AuthController.OnlyAdminMintsAdmin | src/controllers/authController.js:36-47 | every registration that yields an admin account was requested by an authenticated admin |
| AuthController.Register | src/controllers/authController.js:6-81 | a failed check leaves the users unchanged and answers its error; a taken email leaves them unchanged and answers 409 "Email já existe"; otherwise exactly the new row is added and the answer is that user with its token payload |
| AuthController.Login | src/controllers/authController.js:84-130 | 400 without email or password; 401 "Credenciais inválidas" for an unknown normalised email; success exactly when the user exists and the password matches its hash, answering that user's session |
| AuthController.LoginFailsUniformly | src/controllers/authController.js:97-112 | when every stored user has a hash, every failure of a login with both fields is the same 401 "Credenciais inválidas", whether the email or the password was wrong |
| AuthController.RegisteredEmailLogsIn | src/controllers/authController.js:52 | a user stored under the normalisation of a typed email logs in with that typed email and the matching password |
| AuthController.ProfileUpdates | src/controllers/authController.js:168-202 | a bad email is 400 "Email inválido", then a short password 400 "Senha fraca"; success exactly when both pass and at least one field was sent, and the update object is then exactly the prepared name, email and password |
| AuthController.ProfileEffect | src/controllers/authController.js:172-205 | the updated row has the trimmed name, normalised email and new hash for the fields sent, everything else unchanged; in particular the role never changes |
| AuthController.UpdateProfile | src/controllers/authController.js:166-234 | a failed check answers its 400; after the checks, an unknown caller is the 404 "Usuário não encontrado", an email held by another user the 409 "Email já existe" (corrected, see Findings; the source answers 500, ProfileConflictAsWrittenIs500), and otherwise the update succeeds; every failure changes nothing, and success replaces exactly the caller's row and answers it without the hash |
| AuthController.ProfileConflictAsWrittenIs500 | src/controllers/authController.js:219-232 | as User.update is written, a taken email reaches the handler as the raw unique violation and is answered 500, while the message its catch tests for would have given 409 |
| UserController.GetAllUsers | src/controllers/userController.js:6-51 | fails (500) exactly when the LIMIT or the OFFSET `(page - 1) * limit` is negative; otherwise at most `limit` users, each a user of the table the role filter accepts shown without its hash, the count of all accepted users and `pages = ceil(total / limit)` |
| UserController.ListedUsers | src/controllers/userController.js:12-25 | the page the query returns holds at most `limit` users, each accepted by the role filter and shown without its hash |
| UserController.ShownUsers | src/controllers/userController.js:35 | one public form per row, in order, each the row's `toJSON` |
| UserController.ListedUsersSound | src/controllers/userController.js:14-24 | rows of the table that pass the role filter, shown without their hashes, are listed users |
| UserController.AllUsersPaged | src/controllers/userController.js:8-40 | with a positive limit every accepted user is on the page its position gives, in the slot its position gives, and that page is between 1 and the reported `pages` |
| UserController.AllUsersCount | src/controllers/userController.js:28-32 | over distinct rows COUNT(*) is the length of the listing the pages cut |
| UserController.AllUsersWindow | src/controllers/userController.js:8-25 | a page at a non-negative offset is the slice `[offset, offset + limit)` of the newest-first listing, without hashes |
| UserController.CreateUserInput | src/controllers/userController.js:87-122 | the common checks fail first with their error; then a role other than admin or member is 400; it passes exactly when both pass, with the prepared name, email and password and role member when absent |
| UserController.CreateUserRoles | src/controllers/userController.js:89-122 | the role passes exactly when it is absent, admin or member; an absent role becomes member, a null or empty one is refused |
| UserController.CreateUser | src/controllers/userController.js:87-152 | a failing check stores nothing and answers its error; a taken email is the 409 and stores nothing; otherwise exactly the new row is added and returned without its hash |
| UserController.AdminUpdates | src/controllers/userController.js:169-212 | a bad truthy email, then a short truthy password, then an unknown truthy role, then nothing given, each answers its 400 in that order; otherwise the update object is the prepared fields |
| UserController.AdminUpdateEffect | src/controllers/userController.js:172-215 | the written row keeps id and creation time, takes each truthy field as prepared (the password as its hash) and keeps every other column |
| UserController.RowFromFields | src/models/User.js:72-108 | an update object whose last values are the prepared fields yields the row with exactly those columns changed |
| UserController.AdminFieldsShape | src/controllers/userController.js:169-205 | the object has distinct keys, the role entry exactly when the role is truthy, the profile entries unchanged, and is empty exactly when no field is truthy |
| UserController.RoleEntryShape | src/controllers/userController.js:197-205 | appending the role entry to entries that hold no role keeps the keys distinct, makes role's value the given one, and changes no other key's value |
| UserController.UpdateUser | src/controllers/userController.js:155-237 | an unknown id is the 404 before any validation; a failing check answers its 400; after the checks an email held by another user is the 409 "Email já existe" (corrected, see Findings; the source answers 500, UpdateConflictAsWrittenIs500) and otherwise the update succeeds; every failure changes nothing, and success replaces exactly that row by the updated one and returns it without the hash |
| UserController.UpdateConflictAsWrittenIs500 | src/controllers/userController.js:222-235 | as User.update is written, a taken email reaches the handler as the raw unique violation and is answered 500 "Erro ao atualizar usuário", while the message its catch tests for would have given 409 |
| UserController.DeleteCheck | src/controllers/userController.js:244-259 | an unknown id is the 404, the acting admin's own id the 400, and it passes exactly for another existing user |
| UserController.NoSelfDeletion | src/controllers/userController.js:253-259 | the acting admin's own id never passes; the answer is 404 or 400 |
| UserController.DeleteUser | src/controllers/userController.js:240-282 | a failing guard changes nothing; a passing one removes exactly that row; the acting admin's row is present after exactly when before |
| UserController.GetUserTasks | src/controllers/userController.js:285-330 | the 404 exactly for an unknown user; otherwise the user without its hash, only the user's tasks on the requested team, at most `limit` of them, the listing's length as total and `ceil(total / limit)` pages |
| UserController.EveryUserTaskOnSomePage | src/controllers/userController.js:301-319 | with a positive limit every task of the filtered listing is on the page and slot its position gives, and that page is between 1 and the reported `pages` |
| TaskController.ViewTask | src/controllers/taskController.js:76-99 | an unknown task is the 404; the task is returned exactly when it exists and the actor is an admin, a member of its team, its assignee or its creator; otherwise the handler's 403 |
| TaskController.GetTaskById | src/controllers/taskController.js:76-119 | succeeds exactly when the task exists and is visible; fails only with 404 or 403; returns the stored task, its own history entries, and whether the actor may edit it, whether it is overdue and its days remaining |
| TaskController.GetTaskHistory | src/controllers/taskController.js:542-593 | succeeds exactly when the task exists and is visible and the page bounds are not negative; returns the task's id, title and status and at most `limit` of its own history entries, newest first |
| TaskController.EditorsCanView | src/controllers/taskController.js:89-99 | whoever may edit a task may see it |
| TaskController.HistoryFollowsTaskAccess | src/controllers/taskController.js:558-568 | for valid page bounds the history is open to exactly those who may open the task |
| TaskController.CheckTaskInput | src/controllers/taskController.js:122-165 | a missing title or team, then a title shorter than three characters after trimming, then an unknown status, then an unknown priority, each answers its 400 in that order; it passes exactly when none applies |
| TaskController.OmittedChoicesDefault | src/controllers/taskController.js:124-132 | an omitted status becomes Pendente and an omitted priority Média, and both pass; a null one is not defaulted and is refused |
| TaskController.CreateTaskInput | src/controllers/taskController.js:122-227 | in the source's order: the input checks with their 400s, an unknown team the 404, a non-admin outside the team the 403, an unknown assignee the 404, an assignee outside the team (for a non-admin) the 400, an unparsable due date the 400; it passes exactly when none applies; the new task has the trimmed title, the trimmed description or null, the actor as creator, the assignee exactly as sent (an empty string included, undefined and null as NULL), the status and priority as sent or Pendente and Média when omitted |
| TaskController.CreateTask | src/controllers/taskController.js:122-241 | a failing chain changes nothing; otherwise exactly the new row is stored and one creation entry is appended to the history |
| TaskController.TaskSteps | src/controllers/taskController.js:266-344 | the six conditional assignments follow the six update columns in order, each with a value that column takes |
| TaskController.TaskUpdates | src/controllers/taskController.js:244-351 | in the source's order: the 404 for an unknown task, the 403 for an actor who may not edit it, then a short title, an invalid status, an invalid priority, an unknown assignee (404), an assignee outside the task's team for a non-admin, an unparsable due date, each with its error (the field checks are TaskController.FieldChecks), and the 400 "Nenhum dado para atualizar" for an empty object; it passes exactly when none applies and the result is the update object |
| TaskController.FieldChecks | src/controllers/taskController.js:269-339 | the field checks of an update in the source's order, each with its error: a short title, an invalid status, an invalid priority, an unknown assignee (404), an assignee outside the team for a non-admin, an unparsable due date; it passes exactly when none of them applies |
| TaskController.TaskUpdatesShape | src/controllers/taskController.js:266-354 | an accepted update object is for an existing task and names distinct columns with values they take |
| TaskController.TaskFieldsShape | src/controllers/taskController.js:266-344 | the update object names only allowed columns, each once, each with a value its column takes |
| TaskController.FollowsColumnsDistinct | src/models/Task.js:154-183 | statements that follow the allowed columns name them in order, pairwise different |
| TaskController.AssignedColumns | src/controllers/taskController.js:266-344 | any statement list that follows the allowed columns builds an object with distinct allowed keys and well-typed values |
| TaskController.StepListShape | src/controllers/taskController.js:266-344 | six statements over the update columns whose values have the columns' kinds follow the allowed columns |
| TaskController.AllowedFieldsDistinct | src/models/Task.js:154-183 | the allowed columns of update are pairwise different |
| TaskController.StepEffect | src/models/Task.js:154-198 | after update, each statement's column holds the assigned value when its condition holds and keeps its old value otherwise |
| TaskController.UpdatedTitle | src/controllers/taskController.js:269-277 | a truthy title is stored trimmed; otherwise the title is kept |
| TaskController.UpdatedDescription | src/controllers/taskController.js:279-281 | a given description is stored trimmed, a given falsy one clears it, an absent one keeps it |
| TaskController.UpdatedStatus | src/controllers/taskController.js:283-292 | a truthy status is stored as sent; otherwise the status is kept |
| TaskController.UpdatedPriority | src/controllers/taskController.js:294-303 | a truthy priority is stored as sent; otherwise the priority is kept |
| TaskController.UpdatedAssignee | src/controllers/taskController.js:305-329 | a given assignee is stored as sent, null unassigning; an absent one keeps it |
| TaskController.UpdatedDueDate | src/controllers/taskController.js:331-344 | a truthy due date is stored parsed, a given falsy one clears it, an absent one keeps it |
| TaskController.UpdateTask | src/controllers/taskController.js:244-368 | a failing chain changes nothing; otherwise exactly that row is replaced by the updated one, one history entry per changed column is appended, and the updated row is answered |
| TaskController.UpdateKeepsVocabulary | src/controllers/taskController.js:283-303 | an accepted update of a task whose status and priority are valid leaves them valid |
| TaskController.DeleteGate | src/controllers/taskController.js:371-390 | an unknown task is the 404; it passes exactly for an admin or the creator, and only for someone who may edit |
| TaskController.DeleteNarrowerThanEdit | src/controllers/taskController.js:384-390 | whoever may delete may edit, and an assignee who is neither creator nor admin may edit but not delete |
| TaskController.DeleteTask | src/controllers/taskController.js:371-413 | a failing gate changes nothing; a passing one removes exactly that task |
| TaskController.AssignGate | src/controllers/taskController.js:416-464 | in the source's order: a missing user id is the 400, an unknown task the 404, an actor who may not edit it the 403, an unknown user the 404, a user outside the task's team (for a non-admin) the 400; it passes exactly when none applies, with the task |
| TaskController.AssignTask | src/controllers/taskController.js:416-482 | a failing gate changes nothing; otherwise the task's assignee becomes the user, one reassignment entry is appended even when the assignee was already that user, and the user is answered without its hash |
| TaskController.StatusGate | src/controllers/taskController.js:485-521 | in the source's order: a missing status, then an unknown status, each its 400 before the task is read; then an unknown task the 404 and an actor who may not edit it the 403; it passes exactly when none applies, with the task |
| TaskController.ChangeTaskStatus | src/controllers/taskController.js:485-539 | a failing gate changes nothing; otherwise the task's status becomes the given one, one status entry with the given or generated reason is appended, and the answer is the new status, one of the three |
| TaskListing.FlattenMembers | src/controllers/taskController.js:38-42 | a row is gathered exactly when it is on one of the pages |
| TaskListing.Concat | src/controllers/taskController.js:38-42 | the push loop gathers the rows of every page, page after page |
| TaskListing.Contains | src/controllers/taskController.js:47 | `find` succeeds exactly when a gathered row carries the id |
| TaskListing.Merge | src/controllers/taskController.js:38-50 | both loops together yield the team pages' rows followed by the assigned rows whose id is not yet present |
| TaskListing.AddMissingContract | src/controllers/taskController.js:44-50 | the gathered rows stay in front in their order; every row comes from one of the two lists; every assigned row's id is present afterwards; unique ids stay unique |
| TaskListing.TeamIds | src/controllers/taskController.js:30-31 | one id per team of the member, each a team the member belongs to |
| TaskListing.TeamPages | src/controllers/taskController.js:39-42 | one findAll page per team, each of at most `limit` rows |
| TaskListing.GetAllTasksAsWritten | src/controllers/taskController.js:8-72 | fails (500) exactly when the LIMIT or the OFFSET is negative; otherwise answers the rows, the page and limit echoed, and the rows' count as total; an admin gets the `[offset, offset + limit)` slice of the whole findAll listing, only matching rows of the table, and on a first page at least as large as the table every matching task |
| TaskListing.DoublePagingEmptiesLaterPages | src/controllers/taskController.js:39-53 | as written, a member of one team with nothing assigned gets an empty list on every page from the second on, however many tasks the team has |
| TaskListing.LaterPageOffset | src/controllers/taskController.js:20 | from page 2 on the offset skips at least one whole page |
| TaskListing.LaterPageEmpty | src/controllers/taskController.js:39-53 | one team page and no assigned tasks leave nothing once the offset is applied again |
| TaskListing.AsWrittenMemberPage | src/controllers/taskController.js:36-54 | as written, a member of some team gets the slice `[offset, offset + limit)` of the merged already-paged rows |
| TaskListing.NothingAssigned | src/models/Task.js:119-151 | with no task assigned to the user, findByUserId returns nothing |
| TaskListing.OnePageSkipped | src/controllers/taskController.js:53 | a single page of at most `limit` rows is emptied by a slice starting at `offset >= limit` |
| TaskListing.GetAllTasks | src/controllers/taskController.js:8-72 | the corrected listing: fails exactly when the LIMIT or the OFFSET is negative; otherwise at most `limit` rows, total their count, page and limit echoed; an admin gets the `[offset, offset + limit)` slice of the whole findAll listing, only matching rows, and on a large first page every matching task |
| TaskListing.MemberRows | src/controllers/taskController.js:33-54 | a member's page holds at most `limit` rows |
| TaskListing.MemberPagesCoverListing | src/controllers/taskController.js:36-54 | with the offset applied once, every row of the member listing is on the page and slot its position gives |
| TaskListing.MemberPage | src/controllers/taskController.js:36-54 | with the offset applied once, a member of some team gets the slice `[offset, offset + limit)` of the whole merged listing |
| TaskListing.InsertBy | src/controllers/taskController.js:620-621 | inserting adds exactly the one row to the multiset of rows |
| TaskListing.SortBy | src/controllers/taskController.js:620-621 | the sort is a permutation of its input |
| TaskListing.SortByAllTies | src/controllers/taskController.js:620-621 | a comparator that finds every pair equal leaves the rows in place |
| TaskListing.TeamStats | src/controllers/taskController.js:613-617 | one statistics list per team, in the member's team order, each the team's own |
| TaskListing.MemberActivityAsWritten | src/controllers/taskController.js:613-622 | as written, at most `limit` rows for a non-negative limit |
| TaskListing.AsWrittenKeepsTeamOrder | src/controllers/taskController.js:613-622 | as written the sort compares two missing `changed_at` values and changes nothing: the answer is the first `limit` rows team by team |
| TaskListing.AsWrittenNotNewestFirst | src/controllers/taskController.js:613-622 | two teams with one change each, the older in the first team, give the older change first: the answer is not newest first |
| TaskListing.MemberActivity | src/controllers/taskController.js:613-622 | the corrected member branch: at most `limit` rows, newest day first, each a row of one of the member's teams |
| TaskListing.StatsRowFromTeams | src/controllers/taskController.js:613-617 | a concatenated row comes from one of the teams' statistics |
| TaskListing.MemberActivityComplete | src/controllers/taskController.js:613-622 | with room for all of them, every team's row is shown exactly as often as the teams hold it |
| TaskListing.GetRecentActivityAsWritten | src/controllers/taskController.js:596-633 | fails only for an admin with a negative limit; an admin gets history entries, a member statistics rows, at most `limit` of them |
| TaskListing.GetRecentActivity | src/controllers/taskController.js:596-633 | the corrected handler: an admin gets at most `limit` history entries newest first; a member gets at most `limit` statistics rows of their teams, newest day first |
| TeamController.ReadGate | src/controllers/teamController.js:49-70 | an unknown team is the 404; the team passes exactly for an admin or a member; otherwise the 403 |
| TeamController.ReadGateAgreesWithMiddleware | src/middleware/auth.js:112-162 | for a non-admin the handlers' gate lets a user through exactly when requireTeamMembership does, for the same team id, and both find the same team |
| TeamController.GetTeamById | src/controllers/teamController.js:49-92 | fails exactly when the gate fails, with its error; otherwise the team, its members as getMembers lists them (every member, none without membership, no hash), its task count, its first five tasks newest first, and the statistics of getStats |
| TeamController.GetTeamMembers | src/controllers/teamController.js:355-398 | fails exactly when the gate fails, with its error; otherwise the team and exactly its members, each without the password hash |
| TeamController.GetTeamStats | src/controllers/teamController.js:458-505 | fails exactly when the gate fails, with its error; otherwise the team, the statistics of getStats (per-status counts that add up to at most the total, assignees at most the total) and the number of members |
| TeamController.GetTeamTasks | src/controllers/teamController.js:401-455 | fails exactly when the gate fails, with its error; otherwise only the team's tasks matching the filters, at most `limit` of them, and `ceil(total / limit)` pages |
| TeamController.EveryTeamTaskOnSomePage | src/controllers/teamController.js:401-455 | with a positive limit every matching task is on the page and slot its position gives, and that page is between 1 and the reported `pages` |
| TeamController.GetAllTeams | src/controllers/teamController.js:7-46 | fails only for an admin with a negative LIMIT or OFFSET; an admin gets at most `limit` teams, each a team whose creator exists, all of them on a first page at least as large as the table, and the count of all teams; anyone else gets exactly the teams they belong to whose creator exists, unpaged, their number as total; `pages = ceil(total / limit)` |
| TeamController.TeamInput | src/controllers/teamController.js:95-119 | a missing name is the 400, a trimmed name under two characters the other 400; it passes exactly otherwise, with the trimmed name and the trimmed description or null |
| TeamController.StoredNameStable | src/controllers/teamController.js:107-119 | an accepted name is trimmed and long enough, so submitting it again is accepted unchanged |
| TeamController.CreateTeam | src/controllers/teamController.js:95-133 | a failing check changes nothing; otherwise exactly the new team is stored, with the calling admin as creator and as a member |
| TeamController.TeamUpdates | src/controllers/teamController.js:136-172 | an unknown team is the 404; a short truthy name, else an empty update, is its 400; it passes exactly otherwise, with a truthy name's entry and a present description's entry |
| TeamController.UpdatesAllowed | src/models/Team.js:74-102 | the updates name only the allowed columns and never set the name to null |
| TeamController.UpdatedTeam | src/controllers/teamController.js:153-175 | a truthy name replaces the name trimmed; a present description replaces the description trimmed or null; id, creator and creation time stay |
| TeamController.UpdateTeam | src/controllers/teamController.js:136-189 | a failing check changes nothing; otherwise exactly that team is replaced by the updated one and answered |
| TeamController.StoreTeamUpdates | src/models/Team.js:74-102 | updates with allowed columns for an existing team replace exactly that row by the updated one |
| TeamController.ActiveTasks | src/controllers/teamController.js:206-209 | a row is kept exactly when it is a given row whose status is not Concluído |
| TeamController.NoActiveTasks | src/controllers/teamController.js:206-209 | no active task comes back exactly when every task getTasks matches is concluded |
| TeamController.DeleteTeamGate | src/controllers/teamController.js:192-215 | an unknown team is the 404; it passes exactly when no returned task is active; otherwise the 400 carries the number of active tasks |
| TeamController.DeletedTeamsHadNoActiveTasks | src/controllers/teamController.js:192-215 | the gate passes exactly when the team exists and each of its tasks whose creator exists is concluded |
| TeamController.DeleteTeam | src/controllers/teamController.js:192-237 | a failing gate changes nothing; a passing one removes exactly that team |
| TeamController.RemoveMemberGate | src/controllers/teamController.js:298-330 | an unknown team is the 404, a non-member the 404 "Usuário não é membro"; it passes exactly for a member with no active task; otherwise the 400 carries the number of active tasks |
| TeamController.RemovedMembersHadNoActiveTasks | src/controllers/teamController.js:298-330 | the gate passes exactly when the user is a member and each team task assigned to them whose creator exists is concluded |
| TeamController.RemoveMember | src/controllers/teamController.js:298-352 | a failing gate changes nothing; a passing one removes exactly that membership |
| TeamController.AddMemberGate | src/controllers/teamController.js:240-277 | a missing user id, then an unknown team, then an unknown user, then an existing membership, each answers its error in that order; it passes exactly otherwise |
| TeamController.AddMember | src/controllers/teamController.js:240-295 | a failing gate changes nothing; otherwise exactly that membership is added and the user is answered without its hash |
| TeamController.AddThenRemoveMember | src/controllers/teamController.js:240-352 | a member just added with no active task may be removed, and removing restores the membership relation |

## Left out

- The database engine is left out: SQL text, placeholders, connection pooling, query logging and transactions. Tables are abstract maps and sets, and queries have the meanings given in the module overview above.
- Scan order is left out. The order in which a scan meets the rows of a table is left to the store (`Database.Rows`).
- Ties under ORDER BY are left out. Rows with equal timestamps keep their scan order in the model, but PostgreSQL may return them in any order.
- `ORDER BY name` is not modelled:
  - `Team.findByUserId`, `User.getTeams` and `Team.getMembers` sort by name;
  - the model states only which rows they return.
- TeamModel.GetMembers: returns each member's user row without the hash, so it carries the user's `created_at` and not the membership's `tm.joined_at` that the source selects (src/models/Team.js:142). The team_members table holds only the pairs in this model, with no join time.
- Cascades are left out:
  - deleting a user, team or task removes only its own row;
  - the schema's foreign-key cascades are not part of this model.
- bcrypt and jsonwebtoken are foreign libraries, so they are parameters:
  - hashing is `hash`;
  - `User.verifyPassword` is `compare`;
  - token checking is `verify`.

  The model states only what the code does with their results.
- `generateToken` is modelled only up to its payload (`AuthMiddleware.GeneratePayload`). `verifyToken` in `src/middleware/auth.js` wraps the jwt library and is not modelled.
- Date parsing and rendering are left out:
  - `new Date(text)` is the `parse` parameter;
  - the text a Date becomes in a history column is carried with the date;
  - the clock is the `now` argument.
- `TaskHistory.getActivityStatsByUser` and the `DATE()` grouping of `getActivityStatsByTeam` are left out. Both depend on the database's time zone. The per-team statistics are the `stats` parameter of `TaskListing.GetRecentActivity`.
- `TaskHistoryModel.DeleteOldHistory`: `setDate(getDate() - daysOld)` is modelled as subtracting `daysOld` times 86 400 000 ms, so daylight-saving shifts are ignored.
- Non-string JSON values (numbers, booleans, objects) are left out: request fields are undefined, null or strings. A `page` or `limit` that is not a number is left out with them, and so is `parseInt` of such text.
- A `limit` of 0 is not a finite page count: `Math.ceil(total / 0)` is not a finite number, and JSON renders it as null. The model's `pages` is then None (`JsRuntime.CeilQuotient`).
- The ordering quirk of `Task.update` is kept, but its failure mode is not. Task.update writes its history rows before issuing the UPDATE (src/models/Task.js:174-190), and the model keeps that order. An UPDATE that fails after the history rows were written is not modelled, because the store is assumed not to fail between statements. Concurrent requests are not modelled either.
- `Task.update` requires well-typed values: the model's `Task.update` requires the values of `updates` to fit their columns. The controllers always pass such values; the table schema itself is not part of this model.
- Unmodelled handlers and helpers:
  - handlers: `getProfile`, `verifyToken` and `logout` in authController, and `getUserById` and `getUserTeams` in userController;
  - helpers: `Task.getHistory` and `TaskHistory.findById`.

  These are lookups that add no rule of their own. Their parts are modelled: `UserModel.FindById`, `UserModel.GetTeams`, `UserModel.GetTasks` and `TaskHistoryModel.FindByTaskId`.
- `TaskController.CreateTaskInput`: an `assigned_to` of "" reaches the INSERT as the empty string, as in the source. Whether the column's type then rejects it, which the handler would answer 500, depends on the table schema, which is not part of this model.
- The composition of middleware per route is not modelled beyond `AuthController.RegisterGate`. `GetAllUsers`, `CreateUser`, `UpdateUser` and `GetUserTasks` in `UserController` are stated without the `authenticateToken`/`requireAdmin` chain of src/routes/users.js, which is `AuthMiddleware.AuthenticateToken` followed by `AuthMiddleware.RequireRole`.
- The default pagination of the listings is not modelled: `UserController.GetAllUsers`, `UserController.GetUserTasks`, `TeamController.GetAllTeams`, `TeamController.GetTeamTasks`, `TaskController.GetTaskHistory` and `TaskListing.GetAllTasks` take `page` and `limit` as given, so the source's `page = 1, limit = 50` for an omitted query field is the caller's value. The model helpers that do default their arguments (`UserModel.FindAll`, the `TaskHistoryModel` queries, `TaskListing.ActivityLimit`) model those defaults.
- LowerChar: lower-cases only the ASCII capitals and the Latin-1 capitals U+00C0 to U+00DE. `toLowerCase` lowers every Unicode capital, such as Greek and Cyrillic ones, by the Unicode case mapping, which is not part of this model.
- ToLower: states that each character is lower-cased in place and the length is kept. Under the full Unicode mapping some characters lower to two code units ('İ' becomes 'i' followed by U+0307), so the source's result can be longer.
- StrongPassword: counts characters (code points). JavaScript's `.length` counts UTF-16 code units, so a password of three characters outside the Basic Multilingual Plane (three emoji) has length 6 and passes in the source, but the model refuses it.
- LongEnough: counts characters the same way, so the title check (three characters) and the team-name check (two characters) differ from the source for characters outside the Basic Multilingual Plane.
- The 500 answers of unexpected exceptions are not modelled beyond the failures of the store that the model names. Console logging is also left out.
- `TeamController.GetAllTeams`: the member branch is returned unpaged, with `total` its length, as the source does. The model does not correct this.
- `TeamController.DeleteTeamGate`: the active-task count comes from `team.getTasks()`, whose join drops tasks whose creator no longer exists. The model keeps that: such tasks do not block a deletion.

## Findings

| source | as written | input that shows it | evidently intended | confidence | as-written member | corrected member |
|---|---|---|---|---|---|---|
| src/models/User.js:99-107 | `User.update` issues the UPDATE without translating a unique violation, so the "Email já está em uso" branches of `updateProfile` (src/controllers/authController.js:222) and `updateUser` (src/controllers/userController.js:225) never match and a taken email is answered 500 | user A updates their email to the email user B already has | the shortcut `create` takes: a taken email is "Email já está em uso", answered 409 "Email já existe", and nothing changes | not executed | UserModel.UpdateConflictAsWritten | UserModel.Update |
| src/controllers/taskController.js:40-53 | a member's team pages are fetched with the request's LIMIT and OFFSET and the merged list is sliced by `[offset, offset + limit)` again, so the offset is applied twice | a member of one team with 60 tasks and none assigned, page 2, limit 50: the answer is empty | the offset applied once: page 2 shows rows 50 to 59 of the member listing | not executed | TaskListing.DoublePagingEmptiesLaterPages | TaskListing.MemberPagesCoverListing |
| src/controllers/taskController.js:613-622 | a member's activity rows are statistics rows with a `change_date` and no `changed_at`; the comparator compares two invalid dates, sort sees every pair as equal, and the rows stay team by team | two teams with one change each, the older change in the first team: the older change comes first | the newest rows first, by their change date | not executed | TaskListing.AsWrittenNotNewestFirst | TaskListing.GetRecentActivity |
