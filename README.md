# Routine lifecycle of the workout backend, modelled in Dafny

The backend keeps workout routines in MySQL. A routine belongs to a user. It is either
recommended (`is_custom = 0`) or custom (`is_custom = 1`). It lists its exercises through join
rows in `routine_exercises`, and each join row carries a completion flag. This project models the
routine data-access layer (`routineDao`) and the routine service (`routineService`) that sits
on top of it:

- `tables.dfy` (module `Tables`) holds the rows of the three tables and the invariant the schema
  keeps: unique ids, foreign keys, and one join row per (routine, exercise) pair. It also holds
  the errors the service can end in, and the pure functions that state what each write does to
  the tables, with the lemmas about them.
- `queries.dfy` (module `Queries`) holds what each read returns:
  - the routine detail with its totals;
  - the list of custom routines, with MySQL's `TIME_FORMAT(SEC_TO_TIME(..), "%i:%s")` written out;
    it is sorted newest first and paginated;
  - the history row;
  - the custom-flag check.
- `routine_dao.dfy` (module `RoutineDao`) holds the class `RoutineStore`. Its `routines` and
  `routineExercises` tables are fields, and so are the two auto-increment counters.
  - Each write is a method proved against its pure description in `Tables`, and keeps the table
    invariant.
  - The creation write runs inside one transaction that rolls back on failure.
  - Each read is a function over the fields.
- `routine_service.dfy` (module `RoutineService`) holds the five service operations as methods
  over a store:
  - each checks its input in the source's order, then calls the store;
  - each returns `Ok(value)`, or `Err` with the HTTP status and code the service throws, a
    `TypeError` (a property read of `undefined`), or a `SqlError` (a statement MySQL rejects).
  - The module also holds the creation scenario of the repository's own tests.

Parameters stand in for the environment:
- the clock is a `now` argument;
- the exercise catalog and the users table are read-only `const` fields of the store;
- `userDao.findById` and `exerciseDao.getExercisesListByIds` are lookups in those fields.

Three behaviours of the code differ from what its names and error codes suggest; the model
follows the code:
- As written, `routinesByUser` fails for every user (see "## Findings"). In the corrected
  version, a user with no custom routines gets an empty list, not `NO_CUSTOM_ROUTINES`: that
  branch tests an array, and an array is always truthy.
- `saveToCustom` on a routine that does not exist, or belongs to someone else, fails with a
  `TypeError`, not `NOT_SAVED`: `customCheck` returns `undefined` there. `NOT_SAVED` cannot be
  reached, because after the update an existing row always reads `is_custom = 1`.
- The premium flags of the catalog in the creation scenario are those the repository's tests
  insert: exercises 3, 6, 7, 9 and 10 are premium, exercise 1 is not.

## Model

| member | source | states |
|---|---|---|
| RoutineDao.RoutineStore.CreateRoutineInTransaction | src/models/routineDao.js:49-80 | the insert commits exactly when the user exists, the list is non-empty and has no repeats, and every id is in the catalog. On commit it returns the old counter as the new id, appends the routine row and one join row per id in order (each not completed), and advances both counters; the routine's join rows are then exactly the appended ones. Otherwise it returns false and both tables are as before. The invariant is kept either way |
| RoutineDao.RoutineStore.InsertExerciseRows | src/models/routineDao.js:63-72 | the single insert of the join rows succeeds iff the list is non-empty, every id is a catalog exercise and no id repeats; then exactly one row per id is appended in order, with consecutive row ids. A failed statement leaves the join table as it was; the row counter never goes back |
| Tables.CountersAdvance | src/models/routineDao.js:74-78 | after a rollback, counters that have moved forward still keep the table invariant |
| RoutineDao.RoutineStore.UpdateCompletedExerciseStatusByRoutineId | src/models/routineDao.js:169-181 | with a non-empty list, the routine's join rows are flagged completed exactly when their exercise is listed, and all other rows are unchanged. An empty list (`IN ()`) is the SQL error and changes nothing. The invariant is kept |
| RoutineDao.RoutineStore.ToCustom | src/models/routineDao.js:150-157 | the routines table becomes `Promote` of the old one; join rows are untouched; the invariant is kept |
| RoutineDao.RoutineStore.FindRoutineByRoutineId | src/models/routineDao.js:38-47 | a row is returned iff it is a join row of the routine; the result is empty iff the routine has no join row |
| RoutineDao.RoutineStore.CheckExerciseIdsInRoutine | src/models/routineDao.js:107-116 | an empty id list is a SQL error; otherwise a row is returned iff it is a join row of the routine whose exercise is listed, and the number of rows is the number of distinct listed ids linked to the routine |
| RoutineDao.RoutineStore.GetExerciseByRoutineId | src/models/routineDao.js:3-36 | at most one row, none iff the routine has no exercise. The totals are the sums of per-set cost times set count over the routine's rows. The set of exercise ids is exactly the routine's exercises. Each entry carries that routine's completion flag for its exercise, and the custom flag is the `is_custom` of the routine with that id |
| RoutineDao.RoutineStore.JoinedIsRoutineRows | src/models/routineDao.js:27-30 | under the exercise foreign key, joining with the catalog keeps every join row of the routine |
| RoutineDao.RoutineStore.CustomCheck | src/models/routineDao.js:159-167 | some flag iff the user owns a routine with that id, and the flag is that row's `is_custom` |
| RoutineDao.RoutineStore.RoutinesByUser | src/models/routineDao.js:118-148 | a missing limit or offset is a SQL error. Otherwise the page of `Queries.CustomRoutinesPage`: exactly `min(limit, n - offset)` summaries (none past the end), newest first. Each is the summary (names, set counts, duration) of a custom routine of the user with at least one exercise, under the updated date when there is one and the created date otherwise |
| RoutineDao.RoutineStore.GetRoutineHistoryByDate | src/models/routineDao.js:82-105 | nothing iff the user has no routine created in `[start, end)`; otherwise a routine of the user in that window. Its exercise list is `[NULL]` exactly when the routine has no join row (the left join); otherwise it holds no `NULL`, and its ids are exactly the routine's linked exercise ids |
| Tables.Filter | src/models/routineDao.js:30 | a `WHERE` clause: a row is kept iff it satisfies the condition, and no row is invented |
| Tables.CreateAccepted | src/models/routineDao.js:53-72 | the creation commits iff the user exists (foreign key on `user_id`), the `VALUES` list is non-empty, every id is a catalog exercise (foreign key on `exercise_id`) and no id repeats. The last rests on a unique key on (routine_id, exercise_id) in the schema, which is not part of this model |
| Tables.LinkRows | src/models/routineDao.js:63-70 | the inserted join rows: one per requested id, in order, under the new routine id, with consecutive row ids and not completed |
| Tables.CreatePreservesValid | src/models/routineDao.js:53-72 | appending the new routine and its join rows keeps uniqueness, the foreign keys and the per-pair uniqueness |
| Tables.CreateKeepsRoutinesValid | src/models/routineDao.js:53-62 | the inserted routine row, under the next auto-increment id and owned by an existing user, keeps routine ids unique and below the counter |
| Tables.CreateKeepsLinksValid | src/models/routineDao.js:63-72 | the inserted join rows, for catalog exercises without repeats, keep row ids unique, both foreign keys, and the (routine, exercise) key |
| Tables.LinkRowsExtend | src/models/routineDao.js:63-65 | one more id in the `VALUES` list adds exactly one join row at the end, with the next row id |
| Tables.CreatedRoutineRows | src/models/routineDao.js:63-72 | after creation, the rows of the new routine are exactly the appended join rows (used by the store's creation to state what `findRoutineByRoutineId` then returns) |
| Tables.MarkCompleted | src/models/routineDao.js:177-178 | one row under the update: a row of the routine gets `completed` = whether its exercise is listed; any other row is unchanged |
| Tables.CompletionOverwrite | src/models/routineDao.js:175-180 | only the completion flag can change, and only on rows of the routine, where it is true iff the exercise is listed; the table length is kept |
| Tables.CompletionOverwriteLastWins | src/models/routineDao.js:175-180 | a second overwrite erases the first: the flags depend only on the last list |
| Tables.CompletionOverwriteIdempotent | src/models/routineDao.js:175-180 | overwriting twice with the same list equals overwriting once |
| Tables.CompletionPreservesValid | src/models/routineDao.js:175-180 | the overwrite keeps the table invariant |
| Tables.Promote | src/models/routineDao.js:151-155 | exactly the user's row with that id gets `is_custom = 1`, all other fields and rows unchanged; a routine the user does not own leaves the table as it was |
| Tables.PromotePreservesValid | src/models/routineDao.js:151-155 | promotion keeps the table invariant |
| Tables.PromoteIdempotent | src/models/routineDao.js:151-155 | promoting twice equals promoting once |
| Tables.MatchedRowsCount | src/models/routineDao.js:107-116 | under per-pair uniqueness, the rows matched by `routine_id = ? AND exercise_id IN (?)` are as many as the distinct listed ids linked to the routine |
| Tables.CardinalityCheckExact | src/services/routineService.js:53-59 | the count check passes iff the list has no repeated id and every listed id belongs to the routine |
| Tables.ElemsCount | src/services/routineService.js:58 | a list has as many distinct elements as entries iff it has no repeats |
| Tables.MappedSelection | src/models/routineDao.js:9-25 | a projected row is in the result iff it is the projection of a selected row |
| Queries.Joined | src/models/routineDao.js:27-30 | the rows joined with the catalog all have a catalog exercise |
| Queries.CustomFlagById | src/models/routineDao.js:26-29 | the routine's custom flag is present iff the routine exists, and it is that row's flag |
| Queries.Weighted | src/models/routineDao.js:7-8 | `SUM(cost * set_counts)` over the joined rows, each costed by its catalog exercise (also the sum at line 128) |
| Queries.EntryOf | src/models/routineDao.js:11-24 | one `JSON_OBJECT` of the detail: the catalog fields of the row's exercise and the row's completion flag |
| Queries.WeightedOfLinkRows | src/models/routineDao.js:7-8 | the summed cost of freshly created join rows is the summed cost of the requested exercise ids |
| Queries.WeightedAppend | src/models/routineDao.js:7-8 | `SUM` over a union of rows is the sum of the two sums |
| Queries.WeightedOnlyExercises | src/models/routineDao.js:7-8 | `SUM` depends only on the exercise of each row, not on its completion flag |
| Queries.DetailOf | src/models/routineDao.js:3-36 | grouping gives at most one row, none iff the routine has no joined row, with aligned id and exercise lists |
| Queries.DetailLinksExactly | src/models/routineDao.js:9-25 | an id is listed iff it is a catalog exercise of the routine; each entry's id, name and premium flag are the catalog's, and its completion flag is that of a join row of the routine |
| Queries.DetailIdsExactly | src/models/routineDao.js:9-30 | when every join row's exercise exists, the detail's id list holds exactly the routine's linked exercise ids |
| Queries.DetailHasCustomFlag | src/models/routineDao.js:26-29 | when every join row refers to an existing routine, the detail's custom flag is present and is the `is_custom` of a routine row with that id |
| Queries.CreatedJoin | src/models/routineDao.js:49-80 | right after a creation, the join of the new routine finds exactly the inserted rows, in the model's table order |
| Queries.CreatedRoutineDetail | src/models/routineDao.js:49-80 | right after a creation, the detail of the new routine lists exactly the requested ids, in the model's table order (under MySQL, the same ids as a multiset), none completed, with totals equal to the requested exercises' costs and the requested custom flag |
| Queries.CustomFlagOfLast | src/models/routineDao.js:55-58 | a newly inserted routine reads back its own custom flag |
| Queries.CompletionKeepsTotals | src/models/routineDao.js:169-181 | marking exercises completed changes neither the totals nor the id list (in the model's table order) of any routine's detail, and afterwards each entry is completed iff its id was listed |
| Queries.JoinedCompletion | src/models/routineDao.js:175-180 | after the overwrite the routine's joined rows are the same rows in the same (model's table) order, each completed iff its exercise is listed |
| Queries.Clip | src/models/routineDao.js:127 | `SEC_TO_TIME` keeps a total up to 838:59:59 and clips anything longer to it |
| Queries.MinutesSeconds | src/models/routineDao.js:126-130 | the formatted duration is always `mm:ss`, with two digits each and tens of minutes and of seconds below 6 |
| Queries.DigitRoundTrip | src/models/routineDao.js:130 | a decimal digit reads back as itself |
| Queries.SplitSeconds | src/models/routineDao.js:126-130 | seconds within the hour are minutes times sixty plus seconds |
| Queries.FieldsRoundTrip | src/models/routineDao.js:130 | two-digit minutes and seconds fields read back as minutes times sixty plus seconds |
| Queries.SecondsFieldsRoundTrip | src/models/routineDao.js:126-130 | the `%i` and `%s` fields of a time read back as its seconds within the hour |
| Queries.MinutesSecondsRoundTrip | src/models/routineDao.js:126-130 | parsing `mm:ss` back gives the clipped total modulo one hour: `SEC_TO_TIME` clips at 838:59:59 and `%i` drops the hours |
| Queries.MinutesSecondsUnderAnHour | src/models/routineDao.js:126-130 | below one hour the format loses nothing |
| Queries.MinutesSecondsDropsHours | src/models/routineDao.js:126-130 | a routine one hour longer shows the same duration |
| Queries.EffectiveDate | src/models/routineDao.js:132 | the updated date when there is one, the created date otherwise |
| Queries.Listed | src/models/routineDao.js:134-139 | a routine is listed iff it belongs to the user, is custom, and has a row in both inner joins |
| Queries.SummaryOf | src/models/routineDao.js:121-133 | the grouped row of one routine: id, name, exercise names and set counts of its joined rows, the formatted total duration and the effective date |
| Queries.CustomSummaries | src/models/routineDao.js:134-141 | a summary is listed iff it is the summary of a custom routine of the user with at least one joined exercise |
| Queries.SummaryIsListed | src/models/routineDao.js:139 | each summary is the summary of a custom routine of the user with an exercise, under its effective date |
| Queries.PageIsListed | src/models/routineDao.js:121-141 | each summary on a page is the summary of a custom routine of the user with an exercise, under its effective date |
| Queries.InsertByDate | src/models/routineDao.js:142-143 | inserting into a newest-first list keeps it sorted and adds exactly that element |
| Queries.SortByDateDesc | src/models/routineDao.js:142-143 | the result is newest first and a permutation of the input |
| Queries.PageWithin | src/models/routineDao.js:142-144 | a page of the ordered list holds only listed summaries |
| Queries.Paginate | src/models/routineDao.js:144 | `LIMIT l OFFSET o` returns exactly `min(l, n - o)` rows, the ones at positions `o`, `o + 1`, … |
| Queries.PaginateSorted | src/models/routineDao.js:142-144 | a page of a sorted list is sorted |
| Queries.CustomRoutinesPage | src/models/routineDao.js:118-148 | the page is `LIMIT limit OFFSET offset` of some newest-first permutation of all listed summaries (MySQL orders equal dates as it likes); it holds exactly `min(limit, n - offset)` of them, none past the end, and is newest first |
| Queries.WholePageIsPermutation | src/models/routineDao.js:142-144 | with offset 0 and a limit equal to the number of listed routines, the page is a permutation of all listed summaries |
| Queries.LeftJoinedExercises | src/models/routineDao.js:87-92 | the aggregated exercise list is never empty. It is `[NULL]` exactly when the routine has no join row; otherwise it has one non-null entry per join row, and its ids are exactly the routine's linked exercise ids |
| Queries.SomeIdsAreLinked | src/models/routineDao.js:87-92 | the ids of the routine's selected join rows are exactly its linked exercise ids |
| Queries.RoutineRowsExist | src/models/routineDao.js:92 | `WHERE routine_id = id` selects a row iff the routine has a join row |
| Queries.InWindow | src/models/routineDao.js:93-98 | the routine belongs to the user and was created in `[startDate, endDate)` |
| Queries.HistoryByDate | src/models/routineDao.js:82-105 | nothing iff no routine of the user lies in the window; otherwise the first routine of the user inside it, with that routine's left-joined exercise list |
| Queries.CustomFlag | src/models/routineDao.js:159-167 | a flag iff the user owns the routine, and it is that row's flag |
| Queries.PromoteThenCheck | src/services/routineService.js:75-76 | after promotion, the check reads 1 when the user owns the routine and nothing otherwise |
| RoutineService.GetExerciseByRoutineId | src/services/routineService.js:4-17 | an absent or null id gives 400 "not input routine id(path parameter)"; an id without join rows gives 400 "not exist routine id in DB"; otherwise exactly one detail row, the store's |
| RoutineService.IsInputEmpty | src/services/routineService.js:25 | the field is absent or null |
| RoutineService.IsIntegers | src/services/routineService.js:30 | every list element is an integer |
| RoutineService.IsPremiumContent | src/services/routineService.js:34-35 | some requested id that the catalog holds is a premium exercise; ids not in the catalog are not fetched and play no part |
| RoutineService.AsInts | src/services/routineService.js:30-31 | integer request values map one to one onto the ids |
| RoutineService.CreateRoutineGuard | src/services/routineService.js:19-38 | in order: a missing user is a TypeError; a missing list is KEY_ERROR; an empty list is "EMPTY_INPUT: exercises"; a non-integer element is KEY_ERROR; a premium exercise requested on the free tier is 403 UNAUTHORIZED. Each error holds iff its condition does, and the request passes (with its integer list) iff the user exists, the list is non-empty and all integers, and it holds no premium exercise when the user is on the free tier |
| RoutineService.PremiumRefusalIsMonotone | src/services/routineService.js:34-38 | a free-tier request refused for premium content stays refused, however many further ids are added |
| RoutineService.CreateRoutine | src/services/routineService.js:19-48 | a failed check returns its error with both tables and both counters unchanged, since no statement is sent. A checked list that the insert rejects gives 400 "ERROR" with the tables unchanged. Otherwise the new id is returned, the routine and its join rows are appended, and the invariant is kept |
| RoutineService.UpdateCompletedExerciseStatus | src/services/routineService.js:50-62 | a missing list is KEY_ERROR; an empty list is the SQL error of `IN ()`. Otherwise it succeeds iff the ids have no repeats and all belong to the routine, and then the flags are overwritten. Failures are INVALID_INPUT with the table unchanged. Only the join table can change; the routines table and the counters never do |
| RoutineService.RoutinesByUserAsWritten | src/services/routineService.js:64-72 | without pagination arguments, the list of routines fails for every user |
| RoutineService.RoutinesByUser | src/services/routineService.js:64-72 | with pagination passed through, it always succeeds with the store's page `Queries.CustomRoutinesPage`: exactly `min(limit, n - offset)` summaries of custom routines of the user, newest first, and possibly none |
| RoutineService.SaveToCustom | src/services/routineService.js:74-82 | the routines table is promoted; nothing else changes, counters included. It succeeds iff the user owned the routine; otherwise it fails with a TypeError, never NOT_SAVED |
| RoutineService.FreeTierNonPremiumRequestPasses | tests/routines/routines.creatRoutine.test.js:56-82 | the free-tier user's request for exercises 1, 2 and 4 passes every check and is accepted by the insert, as recommended or as custom |
| RoutineService.CreationScenario | tests/routines/routines.creatRoutine.test.js:56-82 | on a fresh store with the tests' users and exercises, the recommended and the custom creation of exercises 1, 2 and 4 get routine ids 1 and 2, with three join rows each |
| RoutineService.FreeTierPremiumRequestRefused | src/services/routineService.js:36-38 | the free-tier user asking for premium exercise 3 is refused with 403 |
| RoutineService.SubscribedPremiumRequestPasses | src/services/routineService.js:36-38 | the subscribed user may ask for premium exercise 3 |

## Left out

- Controllers, routing, authentication and the login flow are not modelled. The HTTP status
  and code of an error are modelled as the service throws them; the controllers render them.
- `console.log` calls and the logging of rolled-back errors are not modelled.
- The order of `JSON_ARRAYAGG` is not fixed by MySQL. The model uses table order for the
  exercise lists, and for which routine the history query returns first when several lie in
  the window. Queries.CreatedRoutineDetail, Queries.CompletionKeepsTotals,
  Queries.CreatedJoin and Queries.JoinedCompletion compare lists as sequences in that order;
  under MySQL only their multisets are fixed.
- RoutineService.IsFalsy: the path id reaches the service as a string, so only an absent or
  null id is falsy. A path id `"0"` is truthy and goes on to the lookup, which finds no row; the
  model's integer id 0 does the same.
- Only the detail columns the model reasons about are kept: video and thumbnail URLs,
  description, category and counts per set are left out. `SUM` results come back from the
  driver as strings; they are kept as numbers.
- The creation insert is built by string interpolation over the id list. The model treats that
  list as integers, which is all `createRoutine` lets through; other element kinds and
  non-array inputs are collapsed into `NotInt` or a missing field.
- Routine ids, user ids and exercise ids are integers; path parameters are strings in the
  source. `isCustom` is any integer, with no check, as in the source.
- Timestamps are naturals supplied by the caller (`now`), and `updated_at` is never set by the
  modelled writes. The schema's `ON UPDATE` behaviour is not part of this model, so
  `toCustom` leaves `updated_at` as it was.
- The schema is not part of this model. The model assumes the foreign keys on `user_id`,
  `routine_id` and `exercise_id` and the unique key on (routine_id, exercise_id) that the
  table invariant names.
- Concurrency is not modelled: each operation runs alone. Transaction isolation, and the race in
  which `NOT_SAVED` could appear, are therefore outside the model.
- RoutineDao.RoutineStore.CreateRoutineInTransaction: on rollback it only promises that both
  counters do not decrease, not how far InnoDB advances them.
- The `routineName` argument of the store's creation is modelled; the service always passes
  none, as it does.
- `userDao.findById` and `exerciseDao.getExercisesListByIds` are not part of this model; they
  are lookups in the store's users table and catalog.

## Findings

| source | as written | input that shows it | evidently intended | confidence | as-written member | corrected member |
|---|---|---|---|---|---|---|
| src/services/routineService.js:65 | `routinesByUser(userId)` calls the store without `limit` and `offset`, so the statement ends in `LIMIT NULL OFFSET NULL`, which MySQL rejects | any user id, e.g. user 1 of the tests | pass a limit and an offset, and return the page | medium; not executed; it depends on the driver rendering `undefined` as `NULL` | RoutineService.RoutinesByUserAsWritten | RoutineService.RoutinesByUser |
