# SQL session store, modelled in Dafny

This project models the SQL-backed store for login sessions in
`store/sql_session_store.go`. The store keeps one `Session` row per login in
the `Sessions` table. It can:

- create a session;
- look one up by Id or Token;
- list a user's sessions;
- delete sessions by key, by user, all at once, or because they expired;
- update the last-activity time, the roles or the device binding;
- count the sessions that have not yet expired.

Sessions returned to a caller are decorated with the user's active team
memberships, fetched from the team store.

The model has five modules:

- `Wrappers` (`wrappers.dfy`): `Option` and `Result`.
- `Rows` (`rows.dfy`): `Filter` and `UpdateWhere` on a sequence of rows. These
  are the meanings of `DELETE ... WHERE` and `UPDATE ... SET ... WHERE`. The
  module also holds their lemmas: filtering preserves order, is idempotent and
  composes.
- `Sessions` (`session.dfy`): the `Session`, `TeamMember` and `AppError`
  records, and `ActiveMembers`, the rule "keep the memberships whose
  `DeleteAt == 0`, in order".
- `SessionQueries` (`session_queries.dfy`): the row set each SQL statement
  touches, as a function of the table, with the lemmas that state what the
  store promises. For example, cleanup is idempotent and spares other users;
  `GetSessions`'s rows are sorted; the count is strict.
- `SqlSessions` (`sql_session_store.dfy`): the class `SqlSessionStore`. It owns
  the table as a `seq<Session>` field and has one method per store operation.
  Beside the class, the decoration loops are two module-level methods,
  `AttachActiveMembers` and `AttachToAll`.

Each store method returns what the Go goroutine sends on its one-slot channel:

- `Some(Ok(data))` or `Some(Err(appError))` when a result is sent;
- `None` on the paths where the goroutine returns without ever sending.

Those paths are:

- an insert failure in `Save`;
- a team-store failure in `Save`, `Get` and `GetSessions`.

A caller of `Save`, `Get` or `GetSessions` that waits on the channel on these
paths waits forever, because the goroutine neither sends nor closes it
(store/sql_session_store.go:62-64, 69-71, 106-108, 149-151).

What the environment decides is passed in as a parameter:

- `now` stands in for `model.GetMillis()`.
- An `Option<string>` per SQL statement is the driver's error message, or
  `None` on success. A failed statement leaves the table unchanged.
- `teams: string -> Result<seq<TeamMember>, string>` stands in for
  `GetTeamsForUser`. It is a function of the user id because `Get` asks for the
  user of whichever row it found.
- `preSave: Session -> Session` stands in for `Session.PreSave`.

`Valid()` is the class invariant. It says that Id is the table's primary key,
which the store declares with `SetKeys(false, "Id")`, and that no stored row
carries team members, because `TeamMembers` is not a column. Every mutating
method preserves it. Because Id is the key, an insert whose Id is already
present fails like any other insert failure.

## Model

| member | source | states |
|---|---|---|
| SqlSessions.SqlSessionStore.constructor | store/sql_session_store.go:16-30 | the store opens over the rows the Sessions table already holds, unchanged; any table whose Ids are distinct and whose rows carry no team members is accepted |
| SqlSessions.SqlSessionStore.Valid | store/sql_session_store.go:20 | the class invariant: Id is the table's primary key (no two rows share an Id), and no stored row carries team members because TeamMembers is not a column |
| Rows.Filter | store/sql_session_store.go:177 | the meaning of `DELETE ... WHERE`: the result never has more rows than the table, every kept row comes from the table and fails the delete condition, and every table row that fails it is kept |
| Rows.UpdateWhere | store/sql_session_store.go:250 | the meaning of `UPDATE ... SET ... WHERE`: the length is unchanged, each row the condition selects is rewritten and every other row is left as it is |
| SessionQueries.HasId | store/sql_session_store.go:62 | some row already holds the Id, so the insert of a session with that Id violates the primary key and fails |
| SqlSessions.SqlSessionStore.Save | store/sql_session_store.go:40-87 | a non-empty Id is refused with the "existing" error and the table is left untouched; otherwise the stamped session's user is cleaned up (if that statement succeeds), the persisted row is appended exactly when the insert succeeds and its Id is not already present, and the result is the stamped session with its user's active members, or nothing at all after an insert or team-store failure |
| SqlSessions.SqlSessionStore.Get | store/sql_session_store.go:89-126 | a failed query or no row with that Id or Token gives the "get" error (with or without the driver message); otherwise some row whose Id or Token equals the key is returned decorated with its user's active members, or nothing is delivered if the team store fails |
| SqlSessions.SqlSessionStore.GetSessions | store/sql_session_store.go:128-169 | the table becomes the cleaned-up table; on team-store failure nothing is delivered; a failed query still waits for the team store and then delivers the "get_sessions" error; otherwise the result is exactly the user's remaining rows (as a multiset), sorted by LastActivityAt non-increasing, all carrying the same active-member sequence, and none expired when cleanup succeeded |
| SqlSessions.SqlSessionStore.Remove | store/sql_session_store.go:171-187 | on success the table loses exactly the rows whose Id or Token equals the key, and nothing else; the result carries no data and no error |
| SqlSessions.SqlSessionStore.RemoveAllSessions | store/sql_session_store.go:189-205 | on success the table is empty; on failure it is unchanged and the error is delivered |
| SqlSessions.SqlSessionStore.PermanentDeleteSessionsByUser | store/sql_session_store.go:207-223 | on success the table loses exactly the user's rows; on failure it is unchanged |
| SqlSessions.SqlSessionStore.CleanUpExpiredSessions | store/sql_session_store.go:225-242 | on success the table loses exactly the user's rows with ExpiresAt non-zero and before now, and the user id is delivered |
| SqlSessions.SqlSessionStore.UpdateLastActivityAt | store/sql_session_store.go:244-261 | on success only LastActivityAt of the row with that Id changes and the session id is delivered; the error carries only the session id |
| SqlSessions.SqlSessionStore.UpdateRoles | store/sql_session_store.go:263-279 | on success only Roles of every row of that user changes and the user id is delivered |
| SqlSessions.SqlSessionStore.UpdateDeviceId | store/sql_session_store.go:281-297 | on success only DeviceId and ExpiresAt of the row with that Id change and the device id is delivered |
| SqlSessions.SqlSessionStore.AnalyticsSessionCount | store/sql_session_store.go:299-323 | the delivered count is the number of rows with ExpiresAt strictly greater than now, or the driver error |
| SqlSessions.AttachActiveMembers | store/sql_session_store.go:73-79 | the decoration loop leaves every column alone and sets TeamMembers to exactly the active members, in order |
| SqlSessions.AttachToAll | store/sql_session_store.go:153-161 | every listed session gets the same active-member sequence from the one team-store answer; nothing else changes, and the order and length are kept |
| Sessions.ActiveMembers | store/sql_session_store.go:110-116 | every kept membership has DeleteAt == 0 and comes from the input; every input membership with DeleteAt == 0 is kept |
| Sessions.ActiveMembersOfAppend | store/sql_session_store.go:75-79 | filtering distributes over concatenation, so the original order is preserved |
| Sessions.ActiveMembersOfOne | store/sql_session_store.go:76-78 | a single membership is kept exactly when its DeleteAt is 0 |
| Sessions.ActiveMembersExample | store/sql_session_store.go:73-79 | of a live and a deleted membership exactly the live one is kept |
| SessionQueries.Matching | store/sql_session_store.go:98 | the candidate rows for Get are exactly the rows whose Id or Token equals the key |
| SessionQueries.RowsOfUser | store/sql_session_store.go:142 | the selected rows are exactly the rows with that UserId |
| SessionQueries.CleanedUp | store/sql_session_store.go:231 | the rows kept by cleanup are exactly those that are not (owned by the user and expired) |
| SessionQueries.WithoutKey | store/sql_session_store.go:177 | the rows kept by Remove are exactly those whose Id and Token both differ from the key |
| SessionQueries.WithoutUser | store/sql_session_store.go:213 | the rows kept are exactly those of other users |
| SessionQueries.WithActivity | store/sql_session_store.go:250 | the table keeps its length; the row with the Id gets the new LastActivityAt, every other field and row is unchanged |
| SessionQueries.WithRoles | store/sql_session_store.go:268 | the table keeps its length; the user's rows get the new Roles, every other field and row is unchanged |
| SessionQueries.WithDevice | store/sql_session_store.go:286 | the table keeps its length; the row with the Id gets the new DeviceId and ExpiresAt, every other field and row is unchanged |
| SessionQueries.LiveCount | store/sql_session_store.go:305-310 | the count never exceeds the number of rows |
| SessionQueries.LiveCountIsSizeOfLiveRows | store/sql_session_store.go:305-310 | the count equals the number of rows with ExpiresAt > now |
| SessionQueries.LiveCountBoundary | store/sql_session_store.go:310 | the comparison is strict: with now >= 0, a row with ExpiresAt 0 or equal to now adds nothing, while a row expiring later adds one |
| SessionQueries.LiveCountExample | store/sql_session_store.go:305-315 | rows expiring at now-1, now+1000 and never count 1 |
| SessionQueries.CleanUpKeepsLiveCount | store/sql_session_store.go:231 | cleanup never changes the analytics count, because an expired row is never live |
| SessionQueries.InsertByActivity | store/sql_session_store.go:142 | insertion adds exactly one row, keeps the others, and starts with the new row or the old first row |
| SessionQueries.InsertKeepsSorted | store/sql_session_store.go:142 | insertion keeps a LastActivityAt-descending sequence descending |
| SessionQueries.SortByActivity | store/sql_session_store.go:142 | the result is a permutation of the input, sorted by LastActivityAt non-increasing |
| SessionQueries.UserSessions | store/sql_session_store.go:142-146 | GetSessions' rows are sorted, are a permutation of the user's rows, and all belong to the user and to the table |
| SessionQueries.UserSessionsOrderExample | store/sql_session_store.go:142 | sessions with LastActivityAt 100, 300, 200 are listed as 300, 200, 100 |
| SessionQueries.NoExpiredAfterCleanUp | store/sql_session_store.go:133-146 | after the cleanup at now, no listed session is expired at now |
| SessionQueries.FilterKeepsIdsUnique | store/sql_session_store.go:20 | deleting rows keeps Id a key |
| SessionQueries.SameIdsKeepIdsUnique | store/sql_session_store.go:20 | an update that leaves every Id alone keeps Id a key |
| SessionQueries.UpdatesKeepIdentity | store/sql_session_store.go:250-290 | none of the three updates changes the number of rows or any row's Id, Token or UserId |
| SessionQueries.CleanUpIdempotent | store/sql_session_store.go:231 | a second cleanup at the same time deletes nothing |
| SessionQueries.CleanUpSparesOtherUsers | store/sql_session_store.go:231 | cleanup for one user leaves every other user's rows exactly as they were, in order |
| SessionQueries.CleanUpWithoutExpired | store/sql_session_store.go:231 | cleanup of a user with no expired row deletes nothing |
| SessionQueries.CleanUpExample | store/sql_session_store.go:231 | of an expired and a never-expiring session of the user, cleanup deletes exactly the expired one |
| SessionQueries.LookupSymmetry | store/sql_session_store.go:98-103 | a stored row is a candidate both for its Id and for its Token; when no other row has either key as its Id or Token, it is the only candidate for each, so by Get's contract Get by its Id or by its Token returns exactly that row, decorated |
| SessionQueries.RemoveThenGetFindsNothing | store/sql_session_store.go:98-101 | after Remove(k) no row matches k, so Get(k) reports not found, and every non-matching row survives |
| SessionQueries.RemoveWithoutMatch | store/sql_session_store.go:177-180 | Remove of a key that matches nothing deletes nothing |
| SessionQueries.RemoveIdempotent | store/sql_session_store.go:177 | a second Remove of the same key deletes nothing more |
| SessionQueries.DeleteByUserIsComplete | store/sql_session_store.go:213 | after the delete the user has no rows, and every other user keeps all of theirs |

## Left out

- Goroutines, `StoreChannel` and `close`: each operation is a direct method call, and its `Option` result says whether anything would be sent. Interleavings of concurrent operations are not modelled.
- Table registration, column maximum sizes and index creation (`NewSqlSessionStore`, `CreateIndexesIfNotExists`) set up the schema and have no behaviour here, apart from the primary key on Id, which `Valid()` keeps.
- SQL execution: each statement's meaning is applied to one in-memory table, and a backend failure is a parameter.
- The choice between master and replica connections: `Get`, `GetSessions` and `AnalyticsSessionCount` read the replica, while cleanup, the deletes, the updates and the insert write the master. The model has one table for both, so a replica that lags the master is not modelled. `SessionQueries.NoExpiredAfterCleanUp`, the last clause of `GetSessions`' contract and `SessionQueries.RemoveThenGetFindsNothing` hold only because of that merge.
- String comparison in the WHERE clauses is exact equality. The backend's collation is not modelled. Under a collation that ignores case or trailing spaces, `Id = ?`, `Token = ?` and `UserId = ?` (:98, :142, :177, :213, :231, :250, :268, :286) also match keys that differ in case or trailing spaces. The same holds for the primary key on Id (:19), which such a collation would make reject at :62 an insert whose Id differs from a stored one only in case. `HasId` compares Ids exactly.
- `Session.PreSave`, `GetTeamsForUser` and `model.GetMillis` are not part of this model. They become the `preSave` function, the `teams` function and the `now` parameter, so the uniqueness of the Ids and Tokens that `PreSave` generates is not modelled. Token is not a key of the table, so nothing keeps it unique.
- Logging through `l4g.Error` and message localisation: an error is an `AppError` holding the operation name, the reason code and the details string the code builds.
- Aliasing: in `Save`, `PreSave` and the decoration loop (:74-79) update the caller's own `Session` object in place. In `Get` (:111-116) and `GetSessions` (:153-161) the loops decorate objects that `Select` has just loaded. The model returns new values in all three cases.
- Timestamps are unbounded integers. The 64-bit width of `int64` and of the BIGINT columns is not modelled.
- `model.Session` is not part of this model. The record has the columns the store names, and `Props` is an opaque string.
- SqlSessions.SqlSessionStore.Get: like `LIMIT 1` without `ORDER BY`, it promises some matching row, never a particular one.
- SqlSessions.SqlSessionStore.GetSessions: like `ORDER BY LastActivityAt DESC`, it does not fix the order of rows with equal LastActivityAt.
