# Task manager core, modelled in Dafny

This project models four pieces of sequential logic from a personal task-manager back end (Node.js, MySQL), and proves what they promise.

1. **The in-memory SQL engine** of the test suite (`DBMock`, tests/utils/dbmock.js), over a parsed statement tree:
   - `resetDatabase`;
   - `insert`, with its NOT NULL, default, auto-increment and foreign-key passes;
   - `evaluateCondition`;
   - the select, COUNT and update branches of `query`.

   Modules: DbValue, DbWhere, DbInsert, DbUpdate, DbMock, with their `*Props` modules of lemmas.
2. **The task service** (services/taskmanager/taskService.js) over the three MySQL tables it uses (module TaskDb): `getTaskById`, `createTask`, `getOrCreateMiscellaneousProject`, `updateTask`, `archiveTask`, `completeTask` with its successor rule, and `getAllTasks` with its query builder.
   - Modules: TaskService, TaskServiceProps.
   - Supporting modules:
     - IsoTime, IsoTimeProps: the `toISOString` text of a due date, and how MySQL reads it back.
     - Tables: WHERE scans over one table.
     - Decimal: digits and numerals.
3. **The client service** (services/taskmanager/clientService.js): `getAllClients`, `getClientById`, `createClient`, `updateClient`, `archiveClient` with its active-project guard, and `deleteClient`.
   - Modules: ClientService, ClientServiceProps.
4. **The DMARC report classification** (background/dmarc.js):
   - `isdmarc`;
   - the file-name dispatch of `unarchiveBuffer`;
   - the SPF and DKIM folds, the default disposition, the severity and the action flag;
   - the record id, and the per-record loop.

   Modules: Text, Dmarc, DmarcProps.

### How the model is built

- **Stateful code.** Code that changes state is a method on a class: `DbMock.DBMock` for the engine, `TaskDb.Db` for the service tables. Each method is proved against a function of the state before the call: the engine's methods against its functions of the schema and tables, the services' methods through `Db.Snapshot()`. The lemmas of the `*Props` modules then state what those functions promise.
- **Values.**
  - A record field holds a JavaScript value (`DbValue.Value`: undefined, null, integer, NaN or string).
  - A DATETIME column holds a time value in milliseconds, or NULL.
- **Foreign libraries.**
  - The recurrence library (`later`) is a pair of function parameters (`TaskService.Recurrence`): does the expression parse, and what is the next occurrence after an anchor.
  - The decompressors of `fflate` are function parameters too (`Dmarc.Decompressors`).

### Behaviour worth knowing

- **The code as written.** Every operation runs the code as written. Where a row of "## Findings" names a defect, the corrected definition stands beside the operation, with its own lemmas and one relating the two.
- **completeTask:**
  - Completing a completed task completes it again.
  - The successor INSERT lists 14 columns against a VALUES row of 13 items, which MySQL refuses with error 1136 whatever the values. So a task with a schedule expression is marked Completed, and then the call rejects, with either the error of calculateNextDueDate or that refusal. No successor is ever stored.
  - With the INSERT corrected, the successor would copy the client, estimate, energy, effort and impact as well as the descriptive fields, and its start date would be its due date.
- **updateTask:** a completed task can be updated, and any status text is stored.
- **Miscellaneous project:** it is created without a client.
- **archiveClient** reads the COUNT reply through `[0]['COUNT(*)']`:
  - On the mysql2 driver the reply is `[rows, fields]`, so the guard reads `undefined` and never refuses.
  - On the test double both statements go through its shared placeholder counter. Only the first row of each table reads the id; the later rows read `undefined`.
- **createTask:** the status column is not given, so the stored status is the table default, 'Next Action'.

## Model

| member | source | states |
|---|---|---|
| DbMock.DBMock.constructor | tests/utils/dbmock.js:5-8 | a new engine has an empty schema and no tables |
| DbMock.DBMock.LoadSchema | tests/utils/dbmock.js:10-13 | the schema is taken as given and every one of its tables is emptied |
| DbMock.DBMock.ResetDatabase | tests/utils/dbmock.js:15-20 | every table of the schema maps to an empty row list, no other table exists, and the schema is unchanged |
| DbMock.DBMock.Insert | tests/utils/dbmock.js:22-76 | on error no table changes; on success exactly one row, the completed one, is appended to that table and the receipt carries its key and affectedRows 1 |
| DbMock.DBMock.Select | tests/utils/dbmock.js:124-150 | read-only; the rows the filter keeps with one placeholder counter from 0 shared by all rows, in table order, their count for COUNT(*), the empty shape, or the first row's error |
| DbMock.DBMock.Update | tests/utils/dbmock.js:124-191 | the tables and the result are those of the update function of the old tables, whose WHERE clause goes on with the counter the SET items left, shared by all rows |
| DbMock.DBMock.Query | tests/utils/dbmock.js:120-195 | dispatches on the statement kind; an unknown kind throws 'not implemented' and changes nothing |
| DbMock.DBMock.MatchRows | tests/utils/dbmock.js:165-169 | the match flags and the counter are those of the filter as written, from the given start |
| DbMock.ColumnsRow | tests/utils/dbmock.js:129-133 | the row an INSERT builds has exactly the listed columns as keys |
| DbMock.AllUpdated | tests/utils/dbmock.js:171-189 | once the update loop has covered every row, the table is the one with every flagged row assigned; with no flagged row, it is unchanged |
| DbMock.FirstFailure | tests/utils/dbmock.js:171-189 | when the first flagged row throws, no earlier row has changed and that row is the first flagged one |
| DbMock.SelectSpec | tests/utils/dbmock.js:138-150 | the select branch: a table with no rows list is a TypeError; otherwise the filter as written with the counter from 0, then the COUNT reply, the empty shape or the rows; DbMock.DBMock.Select is proved against it |
| DbValue.Get | tests/utils/dbmock.js:44 | a field a row lacks reads as undefined |
| DbValue.Lookup | tests/utils/dbmock.js:30 | finds a column of that name, or reports that no column has it |
| DbValue.LookupFindsNames | tests/utils/dbmock.js:30 | a column is found exactly when its name is among the table's field names |
| DbWhere.StrOrder | tests/utils/dbmock.js:98-105 | JavaScript string order, by UTF-16 code unit: 0 exactly for equal strings, otherwise -1 or 1 |
| DbWhere.Units | tests/utils/dbmock.js:98-105 | a character is one code unit below U+10000, otherwise two, and it is two exactly when the first is a high surrogate |
| DbWhere.UnitsInjective | tests/utils/dbmock.js:98-105 | distinct characters have distinct code units |
| DbWhere.CodeUnitsInjective | tests/utils/dbmock.js:98-105 | distinct strings have distinct code-unit sequences, so string equality and code-unit equality coincide |
| DbWhere.UnitOrder | tests/utils/dbmock.js:98-105 | the lexicographic order of code-unit sequences is 0 exactly for equal sequences, otherwise -1 or 1 |
| DbWhere.Segments | tests/utils/dbmock.js:107 | splitting a LIKE pattern at '%' gives at least one segment, none holding a '%' |
| DbWhere.Compare | tests/utils/dbmock.js:93-115 | the comparison switch: `=` and `!=` strict, the relational operators in JavaScript order, LIKE an unanchored regular expression whose pattern must be a string (otherwise TypeError), IS only against null, any other operator throws; DbWhereProps.EqualityIsStrict, RelationalOperators, LikeContains, IsAcceptsOnlyNull and UnsupportedThrows state each case |
| DbWhere.EvalThreaded | tests/utils/dbmock.js:78-118 | `evaluateCondition` as written, the counter of `() => values[index++]` carried through: a `?` takes the next value, and a short circuit leaves the placeholders of the skipped operand untaken; DbWhereProps.ThreadedWithinSlots, ThreadedAgreesWithPositional, ThreadedWithoutPlaceholders and SkippedPlaceholderShiftsLaterOnes relate it to positional binding |
| DbWhere.EvalAt | tests/utils/dbmock.js:78-118 | the corrected evaluator: the k-th placeholder of the clause reads `values[base + k]` whatever AND and OR skip; DbWhereProps.AndShortCircuits and OrShortCircuits state its connectives |
| DbWhere.MatchFlags | tests/utils/dbmock.js:140-144 | one match flag per row when evaluation succeeds |
| DbWhere.FlagsThreaded | tests/utils/dbmock.js:140-144 | as written, one match flag per row when the filter succeeds |
| DbWhere.FilterThreaded | tests/utils/dbmock.js:138-144 | the filter as written: exactly the rows FlagsThreaded flags, in table order, and the counter after the last row; DbWhereProps.FilterWithoutPlaceholders and SharedCounterMissesLaterRows relate it to FilterAt |
| DbWhere.FilterAt | tests/utils/dbmock.js:138-144 | the corrected filter; DbWhereProps.FilterAtExact: exactly the rows whose condition holds, in table order, or the first row's error |
| DbWhere.TrueIndices | tests/utils/dbmock.js:165-171 | the flagged indices are at most as many as the flags, each below their number |
| DbWhereProps.AndShortCircuits | tests/utils/dbmock.js:82-84 | AND is true iff both sides are, and a false left side decides it whatever the right side is |
| DbWhereProps.OrShortCircuits | tests/utils/dbmock.js:86-88 | OR is false iff both sides are, and a true left side decides it whatever the right side is |
| DbWhereProps.IsAcceptsOnlyNull | tests/utils/dbmock.js:108-111 | `IS NULL` holds iff the column is null or undefined; IS with any other right-hand value throws |
| DbWhereProps.UnsupportedThrows | tests/utils/dbmock.js:112-117 | any other operator, or any node that is not a binary expression, throws |
| DbWhereProps.EqualityIsStrict | tests/utils/dbmock.js:94-97 | `=` and `!=` are strict equality and its negation: NaN equals nothing |
| DbWhereProps.RelationalOperators | tests/utils/dbmock.js:98-105 | numbers compare numerically, null counts as 0, and undefined or NaN makes every comparison false |
| DbWhereProps.BmpStringsByCode | tests/utils/dbmock.js:98-105 | two characters below U+10000 compare by their codes under `<` and `>` |
| DbWhereProps.AstralBelowLastBmp | tests/utils/dbmock.js:98-105 | U+1F600 is a greater character than U+FFFF but orders below it as a string, its first code unit being the surrogate 0xD83D |
| DbWhereProps.SegmentsWithoutPercent | tests/utils/dbmock.js:107 | a pattern without '%' is a single segment |
| DbWhereProps.SegmentsAround | tests/utils/dbmock.js:107 | splitting distributes over a joining '%' |
| DbWhereProps.LikeWithoutWildcard | tests/utils/dbmock.js:106-107 | a LIKE pattern without '%' matches exactly the texts that contain it, the regex being unanchored |
| DbWhereProps.LikeLoneWildcard | tests/utils/dbmock.js:106-107 | the pattern '%' matches every text |
| DbWhereProps.SegmentsOfContains | tests/utils/dbmock.js:107 | '%x%' splits into an empty segment, x and an empty segment |
| DbWhereProps.LikeContains | tests/utils/dbmock.js:106-107 | '%x%' matches exactly the texts containing x |
| DbWhereProps.ContainsMatches | tests/utils/dbmock.js:106-107 | an occurrence of x is a match of '%x%' at that position |
| DbWhereProps.MatchedContains | tests/utils/dbmock.js:106-107 | a match of '%x%' contains an occurrence of x |
| DbWhereProps.ThreadedWithinSlots | tests/utils/dbmock.js:91 | the engine's evaluator takes at most as many placeholders as the clause holds |
| DbWhereProps.ThreadedAgreesWithPositional | tests/utils/dbmock.js:91 | when no placeholder was skipped, the shared-counter evaluator agrees with positional binding |
| DbWhereProps.ThreadedWithoutPlaceholders | tests/utils/dbmock.js:82-91 | a clause without placeholders takes none, and the evaluator as written then agrees with positional binding, errors included |
| DbWhereProps.FlagsThreadedErrorPersists | tests/utils/dbmock.js:140-144 | as written, once a prefix of the rows throws, the whole filter throws that error |
| DbWhereProps.FlagsWithoutPlaceholders | tests/utils/dbmock.js:140-144 | without placeholders in the WHERE clause, the flags as written are the positional ones and the counter does not move |
| DbWhereProps.FilterWithoutPlaceholders | tests/utils/dbmock.js:138-144 | without placeholders in the WHERE clause, the filter as written keeps exactly the rows the corrected filter keeps |
| DbWhereProps.SharedCounterMissesLaterRows | tests/utils/dbmock.js:124-143 | with the counter shared across rows, `task_id = ?` with [2] over rows 1 and 2 finds nothing, while positional binding finds row 2 |
| DbWhereProps.SkippedPlaceholderShiftsLaterOnes | tests/utils/dbmock.js:82-91 | a short circuit leaves a placeholder untaken, so the next one reads the wrong value |
| DbWhereProps.MatchFlagsExact | tests/utils/dbmock.js:140-144 | flags exist iff no row's condition throws, and each flag is whether that row's condition holds |
| DbWhereProps.MatchFlagsFirstError | tests/utils/dbmock.js:140-144 | a failing filter reports the error of the first row, in table order, whose condition throws |
| DbWhereProps.TrueIndicesExact | tests/utils/dbmock.js:140-144 | the flagged indices are strictly ascending, and an index is listed iff its flag is set |
| DbWhereProps.NoHitsNoFlags | tests/utils/dbmock.js:148 | the empty result means no row matched |
| DbWhereProps.FirstHit | tests/utils/dbmock.js:171-189 | the first set flag is the first flagged index |
| DbWhereProps.FirstFlagged | tests/utils/dbmock.js:171-189 | the first flagged index is set and every flag before it is clear |
| DbWhereProps.MatchFlagsErrorPersists | tests/utils/dbmock.js:140-144 | once a prefix of the rows throws, the whole filter throws that error |
| DbWhereProps.KeepExact | tests/utils/dbmock.js:140 | the kept rows are the flagged rows, one per flagged index, in order |
| DbWhereProps.FilterAtExact | tests/utils/dbmock.js:138-150 | with positional binding, select returns exactly the rows whose condition holds, in table order, or the first error |
| DbWhereProps.FilterWithoutWhere | tests/utils/dbmock.js:141 | without WHERE every row is kept |
| DbInsertProps.ApplyDefaultsErrorPersists | tests/utils/dbmock.js:36-53 | once a column fails the NOT NULL pass, the pass fails with that error |
| DbInsertProps.ForeignKeysErrorPersists | tests/utils/dbmock.js:61-72 | once a column fails the foreign-key pass, the pass fails with that error |
| DbInsert.ApplyDefaults | tests/utils/dbmock.js:36-53 | the NOT NULL pass over the columns in declaration order; DbInsertProps.ApplyDefaultsSucceeds, ApplyDefaultsValues, ApplyDefaultsKeys and ApplyDefaultsFirstError state its outcome |
| DbInsert.ForeignKeys | tests/utils/dbmock.js:61-72 | the foreign-key pass over the columns in declaration order; DbInsertProps.ForeignKeysOk, ForeignKeysFirstUnmet and ForeignKeysExact state its outcome |
| DbInsert.InsertRow | tests/utils/dbmock.js:22-76 | the row `insert` stores, or what it throws: unknown table, unknown field, NOT NULL, key, foreign keys, in that order; DbInsertProps.InsertSteps, InsertStored, InsertRejects and InsertKeepsKeysUnique state its outcome |
| DbInsertProps.ApplyDefaultsSucceeds | tests/utils/dbmock.js:36-53 | the NOT NULL pass succeeds iff every non-nullable missing column other than the auto-increment key has a default |
| DbInsertProps.ApplyDefaultsValues | tests/utils/dbmock.js:44-47 | each column that needed a value holds its default; every other field keeps the row's value |
| DbInsertProps.ApplyDefaultsKeys | tests/utils/dbmock.js:36-53 | the pass keeps every field of the row and adds only columns |
| DbInsertProps.ApplyDefaultsFirstError | tests/utils/dbmock.js:45-50 | a failing pass names the first column, in declaration order, that cannot be filled |
| DbInsertProps.MaxKeyExact | tests/utils/dbmock.js:57 | `Math.max(0, ...keys)` is a number iff every key converts to one; it is then at least 0 and every key, and equal to 0 or to some key |
| DbInsertProps.NextKeyFresh | tests/utils/dbmock.js:56-58 | the new key is at least 1 and above every existing key, or NaN when some key is not a number |
| DbInsertProps.ForeignKeysOk | tests/utils/dbmock.js:61-72 | the foreign-key pass succeeds iff every column's reference is met |
| DbInsertProps.ForeignKeysFirstUnmet | tests/utils/dbmock.js:61-72 | a failing pass names the first column, in declaration order, whose reference is not met, with the error for its case |
| DbInsertProps.ForeignKeysExact | tests/utils/dbmock.js:61-72 | the pass succeeds iff every reference is met; otherwise it reports the first column whose reference fails |
| DbInsertProps.InsertSteps | tests/utils/dbmock.js:22-76 | a stored row went through the table, field, NOT NULL, key and foreign-key steps in that order |
| DbInsertProps.InsertStored | tests/utils/dbmock.js:36-75 | the stored row has only the table's columns; each holds the offered value or its default; the key holds the next key; no NOT NULL column is missing and every reference is met |
| DbInsertProps.LookupDistinct | tests/utils/dbmock.js:30 | with distinct column names, the column found is the only one bearing that name |
| DbInsertProps.InsertRejects | tests/utils/dbmock.js:23-53 | an unknown table, a field that is no column, or a column that cannot be filled makes insert throw |
| DbInsertProps.InsertKeepsKeysUnique | tests/utils/dbmock.js:56-58 | on a table with numeric distinct keys, the new key is above all others, so the keys stay numeric and distinct |
| DbUpdate.Assignments | tests/utils/dbmock.js:160-163 | one assignment per SET item |
| DbUpdate.FirstBad | tests/utils/dbmock.js:173-184 | the first assignment refused (unknown column or ENUM value outside the list), with every earlier one accepted |
| DbUpdate.UpdateFlagged | tests/utils/dbmock.js:171-189 | the updated table has as many rows as before |
| DbUpdate.UpdateTable | tests/utils/dbmock.js:152-191 | the update as written: the WHERE clause goes on with the counter the SET items left, shared by all rows; DbUpdateProps.UpdateAsWrittenSucceeds, UpdateWithoutPlaceholders and SharedCounterUpdatesNothing state it |
| DbUpdate.UpdateTableAt | tests/utils/dbmock.js:152-191 | the corrected update, each row binding its placeholders by position after those of the SET items; DbUpdateProps.UpdateSucceeds, UpdateRefused, UpdateNoMatch and UpdateWhereFails state it |
| DbUpdate.UpdateSpec | tests/utils/dbmock.js:152-191 | an unknown table throws with nothing changed; otherwise only that table changes, to the rows of UpdateTable; DbMock.DBMock.Update is proved against it |
| DbUpdateProps.AssignmentAt | tests/utils/dbmock.js:160-163 | the i-th SET item takes its literal, or `values[k]` when it is the k-th `?` |
| DbUpdateProps.AssignmentsExact | tests/utils/dbmock.js:160-163 | each SET item takes its literal, or `values[k]` when it is the k-th `?` |
| DbUpdateProps.AssignAllUntouched | tests/utils/dbmock.js:187 | a field no assignment names keeps its value |
| DbUpdateProps.AssignAllLastWins | tests/utils/dbmock.js:187 | a column holds the value of the last assignment to it |
| DbUpdateProps.AssignAllKeys | tests/utils/dbmock.js:187 | the row gains exactly the assigned columns |
| DbUpdateProps.UpdateWithoutPlaceholders | tests/utils/dbmock.js:152-191 | without placeholders in the WHERE clause, the update as written and the corrected one give the same rows and result |
| DbUpdateProps.UpdateAsWrittenSucceeds | tests/utils/dbmock.js:165-191 | as written, when the filter does not throw and every assignment is accepted, each flagged row gets every assignment, the others are unchanged, and affectedRows is the number of rows the filter keeps |
| DbUpdateProps.RenameFlagsAsWritten | tests/utils/dbmock.js:124-169 | as written, `client_id = ?` after one SET placeholder compares client 1 with values[1] and client 2 with values[2]: neither matches, and the counter ends at 3 |
| DbUpdateProps.RenameFlagsPositional | tests/utils/dbmock.js:165-169 | bound by position, both clients are compared with values[1] = 2: only client 2 matches |
| DbUpdateProps.SharedCounterUpdatesNothing | tests/utils/dbmock.js:124-169 | as written, `SET client_name = ? WHERE client_id = ?` with ["n", 2] over clients 1 and 2 changes nothing and affects 0 rows |
| DbUpdateProps.PositionalRenamesSecondClient | tests/utils/dbmock.js:152-191 | the same statement, corrected, affects 1 row |
| DbUpdateProps.UpdateWhereFails | tests/utils/dbmock.js:165-169 | corrected update: a WHERE clause that throws leaves the table as it was and reports the first row's error |
| DbUpdateProps.UpdateNoMatch | tests/utils/dbmock.js:165-191 | corrected update: with no matching row nothing changes and 0 rows are affected |
| DbUpdateProps.UpdateSucceeds | tests/utils/dbmock.js:165-191 | corrected update: matching rows get every assignment, other rows are unchanged, and affectedRows is the number of rows the same WHERE selects |
| DbUpdateProps.AssignMatchingRefused | tests/utils/dbmock.js:171-184 | a refused assignment throws at the first matching row, after the assignments before it |
| DbUpdateProps.UpdateRefused | tests/utils/dbmock.js:171-184 | corrected update: a refused assignment throws its error and only the first matching row has changed, carrying the earlier assignments |
| DbUpdateProps.FlagsAreMatches | tests/utils/dbmock.js:165-169 | with positional binding, the first set flag is a matching row and every row before it does not match |
| Decimal.NatToString | services/taskmanager/taskService.js:193 | a numeral is a non-empty string of digits |
| Decimal.PadDigits | services/taskmanager/taskService.js:193 | zero-padding to w places gives w digits |
| Decimal.ParseNatToString | services/taskmanager/taskService.js:193 | reading a numeral gives its number back |
| Decimal.NatToStringInjective | background/dmarc.js:72 | distinct numbers have distinct numerals |
| Decimal.ParsePadDigits | services/taskmanager/taskService.js:193 | reading a padded numeral gives its number back |
| Decimal.PadParseDigits | services/taskmanager/taskService.js:193 | a digit string is the padding of the number it denotes |
| IsoTime.YearWalk | services/taskmanager/taskService.js:193 | the year holding a day count, and the day within that year |
| IsoTime.MonthWalk | services/taskmanager/taskService.js:193 | the month holding a day of the year, and the day within that month |
| IsoTime.Fields | services/taskmanager/taskService.js:193 | the calendar reading of a time value is valid and denotes that time value again |
| IsoTime.FieldsMillis | services/taskmanager/taskService.js:193 | the millisecond field is the time value modulo 1000 |
| IsoTime.YearText | services/taskmanager/taskService.js:193 | four digits for years 0 to 9999, otherwise a sign and digits |
| IsoTime.ToIsoString | services/taskmanager/taskService.js:193 | `toISOString` throws exactly for time values beyond 8.64e15 ms |
| IsoTime.IndexOf | services/taskmanager/taskService.js:193 | the first index of the character, or the length |
| IsoTime.DueDateText | services/taskmanager/taskService.js:193 | fails exactly when `toISOString` does; otherwise 19 characters |
| IsoTime.ParseDateTime | services/taskmanager/taskService.js:168-169 | a DATETIME read from text is a whole second |
| IsoTimeProps.StampLayout | services/taskmanager/taskService.js:193 | where each field sits in the 19-character stamp |
| IsoTimeProps.StampSeparator | services/taskmanager/taskService.js:193 | with a four-digit year, the first 'T' is the date/time separator |
| IsoTimeProps.DueDateTextShape | services/taskmanager/taskService.js:193 | the due-date text is the stamp of the time's fields with a space |
| IsoTimeProps.ParseStamp | services/taskmanager/taskService.js:168-169 | a stamp reads back as its own fields, to the second |
| IsoTimeProps.WholeSecond | services/taskmanager/taskService.js:168-169 | reading back to the second moves the time value back by its milliseconds |
| IsoTimeProps.DueDateTextRoundTrip | services/taskmanager/taskService.js:193 | the text of a next occurrence with a four-digit year reads back as that time truncated to the second |
| IsoTimeProps.DueDateTextUnreadable | services/taskmanager/taskService.js:193 | a year outside 0..9999 is written with a sign, which MySQL does not read as a DATETIME |
| IsoTimeProps.DueDateTextReadable | services/taskmanager/taskService.js:193 | the text exists iff the time is within range, and reads back iff the year has four digits |
| Tables.FirstIndex | services/taskmanager/taskService.js:145-146 | the first row satisfying the clause, or none |
| Tables.Select | services/taskmanager/clientService.js:4 | a WHERE scan keeps no more rows than the table has; Tables.SelectMembers, SelectAppend, SelectWhole and SelectDistinct state which rows, in which order |
| Tables.SelectMembers | services/taskmanager/clientService.js:4 | a row is selected iff it is in the table and satisfies the clause |
| Tables.SelectAppend | services/taskmanager/clientService.js:4 | selecting keeps table order |
| Tables.SelectWhole | services/taskmanager/clientService.js:37-38 | every row is selected iff every row satisfies the clause |
| Tables.SelectDistinct | services/taskmanager/clientService.js:37 | selecting rows with distinct keys leaves rows with distinct keys |
| Tables.FindFirst | services/taskmanager/taskService.js:145-146 | the scan returns the first matching row |
| Tables.SelectWhere | services/taskmanager/clientService.js:4 | the scan returns the selected rows in table order |
| Tables.CountWhere | services/taskmanager/clientService.js:29 | the count is the number of selected rows |
| TaskDb.Param | services/taskmanager/taskService.js:67-75 | undefined is sent as NULL; any other value as itself |
| TaskDb.DateParam | services/taskmanager/taskService.js:67-75 | a missing date is NULL; a stored date is the reading of the text given |
| TaskDb.ValidState | services/taskmanager/taskService.js:63-83 | the tables' invariant: ids positive, below the AUTO_INCREMENT counter and distinct within their table, name columns set; each `*Valid` lemma proves an operation keeps it |
| TaskDb.Db.constructor | services/taskmanager/taskService.js:2 | the tables start empty, with counters at 1, in a valid state |
| TaskService.GetTaskById | services/taskmanager/taskService.js:27-30 | the first task with the id, or none exactly when no task has it |
| TaskService.GetOrCreateMiscellaneousProject | services/taskmanager/taskService.js:33-49 | the new state and id are those of the find-or-insert function of the old state |
| TaskService.EnsureMisc | services/taskmanager/taskService.js:33-49 | the find-or-insert of the Miscellaneous project; TaskServiceProps.EnsureMiscOutcome, EnsureMiscIdempotent and EnsureMiscValid state it |
| TaskService.NewestRowFound | services/taskmanager/taskService.js:79-83 | the select by insert id finds the row just inserted |
| TaskService.CreateTask | services/taskmanager/taskService.js:52-84 | the new state and result are those of the createTask function of the old state |
| TaskService.CreateTaskSpec | services/taskmanager/taskService.js:52-84 | createTask's steps in source order: the required fields, the project, the due date, the insert; TaskServiceProps.CreateTaskOutcome and CreateTaskValid state its outcome |
| TaskService.InsertTask | services/taskmanager/taskService.js:63-83 | the task is appended under the next id, the counter advances, and the select by that id returns it |
| TaskService.UpdateTask | services/taskmanager/taskService.js:87-132 | the new state and result are those of the updateTask function of the old state |
| TaskService.UpdateTaskSpec | services/taskmanager/taskService.js:87-132 | no row with the id changes nothing and gives null; otherwise the NOT NULL name and the two dates are checked before the row is rewritten; TaskServiceProps.UpdateTaskOutcome and UpdateTaskValid state it |
| TaskService.ArchiveTask | services/taskmanager/taskService.js:135-141 | the new state and flag are those of the archiveTask function of the old state |
| TaskService.ArchiveTaskSpec | services/taskmanager/taskService.js:135-141 | the first active row with the id is archived; TaskServiceProps.ArchiveTaskOutcome, ArchiveTaskTwice and ArchiveTaskValid state it |
| TaskService.CompleteTask | services/taskmanager/taskService.js:144-180 | the new state and result are those of completeTask as written (CompleteTaskSpec) on the old state |
| TaskService.CompleteTaskSpec | services/taskmanager/taskService.js:144-180 | completeTask as written: unknown id gives null; otherwise the row is marked Completed, then the successor step of SpawnAsWritten runs; TaskServiceProps.CompleteTaskOutcome, CompleteTaskAsWrittenVsIntended and CompleteTaskValid state it |
| TaskService.CompleteTaskIntended | services/taskmanager/taskService.js:144-180 | the corrected half, with the successor step of SpawnSpec; TaskServiceProps.CompleteTaskIntendedOutcome and CompleteTaskIntendedValid state it |
| TaskService.SpawnAsWritten | services/taskmanager/taskService.js:153-177 | the successor step as written: nothing without a schedule expression, then the error of calculateNextDueDate, then the refusal of a 13-item VALUES row for 14 columns; TaskServiceProps.SpawnAsWrittenStoresNothing states it |
| TaskService.NextDueDate | services/taskmanager/taskService.js:182-194 | `calculateNextDueDate`: an expression that does not parse throws; the anchor is the due date or now; no occurrence is a TypeError; otherwise the due-date text of the occurrence; TaskServiceProps.SuccessorSpawned and SuccessorRefused state it |
| TaskService.Successor | services/taskmanager/taskService.js:156-176 | the successor row the corrected INSERT stores (as written none is stored); TaskServiceProps.SuccessorSpawned states its fields |
| TaskService.SpawnSpec | services/taskmanager/taskService.js:153-177 | the corrected successor step, with one VALUES item per column: nothing without a schedule expression; otherwise the successor, or the error; TaskServiceProps.NoExpressionNoSuccessor, SuccessorSpawned and SuccessorRefused state it |
| TaskService.ApplySpawn | services/taskmanager/taskService.js:154-179 | after the completion: a failed step keeps it and reports the error; a stored successor, which only the corrected step gives, is appended under the next id; the completed task is returned otherwise |
| TaskService.FilterParams | services/taskmanager/taskService.js:9-20 | every parameter is a truthy filter value |
| TaskService.CountCharAppend | services/taskmanager/taskService.js:10 | placeholder counts add up over concatenation |
| TaskService.OnePlaceholder | services/taskmanager/taskService.js:10 | each filter clause adds one placeholder |
| TaskService.BaseHasNoPlaceholder | services/taskmanager/taskService.js:6 | the base query has no placeholder |
| TaskService.AppendFilter | services/taskmanager/taskService.js:9-12 | one clause and one parameter are appended, keeping placeholders and parameters equal in number |
| TaskService.BuildTaskQuery | services/taskmanager/taskService.js:5-21 | the parameters in clause order, as many as the query has placeholders |
| TaskService.TaskFilter | services/taskmanager/taskService.js:6-20 | the parenthesised condition, the corrected half; TaskServiceProps.SelectedExactly and AsWrittenAgreesUnlessNull state it |
| TaskService.MatchesAsWritten | services/taskmanager/taskService.js:6-20 | the condition as MySQL reads it, AND binding tighter than OR; TaskServiceProps.SelectedAsWritten and ArchivedNullBypassesFilters state it |
| TaskService.GetAllTasks | services/taskmanager/taskService.js:5-24 | the tasks the query text as built selects, in table order, with AND binding tighter than OR |
| TaskServiceProps.EnsureMiscOutcome | services/taskmanager/taskService.js:33-49 | other tables are unchanged, the id is that of the first Miscellaneous project, and one is created only when none existed |
| TaskServiceProps.EnsureMiscIdempotent | services/taskmanager/taskService.js:33-49 | a second call finds the same project and changes nothing |
| TaskServiceProps.EnsureMiscValid | services/taskmanager/taskService.js:44-48 | the tables stay valid: ids fresh and distinct, names set |
| TaskServiceProps.CreateTaskOutcome | services/taskmanager/taskService.js:52-84 | a missing name or context is refused with nothing changed; on success exactly one task is appended, with the next id, the name and context given, status 'Next Action', not archived, and the given project or a Miscellaneous one; at most one Miscellaneous project ever exists beyond those there were |
| TaskServiceProps.CreateTaskValid | services/taskmanager/taskService.js:63-76 | the tables stay valid |
| TaskServiceProps.UpdateTaskOutcome | services/taskmanager/taskService.js:87-132 | null iff no task has the id; errors change nothing; on success only that task changes: it takes the given name and status and keeps its id, schedule expression and archived flag; the echo is the data plus task_id |
| TaskServiceProps.UpdateTaskValid | services/taskmanager/taskService.js:105-129 | the tables stay valid |
| TaskServiceProps.ArchiveTaskOutcome | services/taskmanager/taskService.js:135-141 | true iff an unarchived task of that id existed; that row alone becomes archived and none of that id stays active |
| TaskServiceProps.ArchiveTaskTwice | services/taskmanager/taskService.js:135-141 | a second archive returns false and changes nothing |
| TaskServiceProps.ArchiveTaskValid | services/taskmanager/taskService.js:136-139 | the tables stay valid |
| TaskServiceProps.CompleteTaskOutcome | services/taskmanager/taskService.js:144-180 | as written: unknown id gives null and no change; otherwise only that row changes, to Completed, and no row is added; the call resolves, to the task as it was before, exactly when it has no schedule expression |
| TaskServiceProps.SpawnAsWrittenStoresNothing | services/taskmanager/taskService.js:153-177 | the successor step as written never stores a row: it succeeds only without a schedule expression; a recurring task gets the error of calculateNextDueDate or else the column-count refusal, which it always gets where the corrected step would store a successor; without that refusal it is the corrected step |
| TaskServiceProps.CompleteTaskAsWrittenVsIntended | services/taskmanager/taskService.js:144-180 | for a known id: a recurring task with a computable next due date is refused for column count after its completion; in particular whenever the corrected call adds a successor, the call as written rejects and adds none; without that refusal the two calls agree |
| TaskServiceProps.CompleteTaskIntendedOutcome | services/taskmanager/taskService.js:144-180 | corrected: unknown id gives null and no change; otherwise the row is Completed, other rows are unchanged, the task as it was before is returned, and a successor is added exactly when SpawnSpec stores one |
| TaskServiceProps.NoExpressionNoSuccessor | services/taskmanager/taskService.js:154 | a task without a schedule expression spawns nothing |
| TaskServiceProps.SuccessorSpawned | services/taskmanager/taskService.js:154-176 | with the INSERT corrected, the successor copies the descriptive, project, client, context, priority, estimate, energy, effort and impact fields, has status 'Next Action', and its due and start dates are the next occurrence after the due date (or now), to the second |
| TaskServiceProps.SuccessorRefused | services/taskmanager/taskService.js:183-194 | with the INSERT corrected, spawning fails exactly on an expression that does not parse, on no next occurrence, or on an occurrence MySQL cannot read back; as written SpawnAsWrittenStoresNothing adds the column-count refusal |
| TaskServiceProps.CompleteTaskValid | services/taskmanager/taskService.js:151-176 | as written, the tables stay valid |
| TaskServiceProps.CompleteTaskIntendedValid | services/taskmanager/taskService.js:151-176 | corrected, the tables stay valid, the successor included |
| TaskServiceProps.AsWrittenAgreesUnlessNull | services/taskmanager/taskService.js:6-20 | on rows whose archived flag is not NULL, the query as written selects as intended |
| TaskServiceProps.ArchivedNullBypassesFilters | services/taskmanager/taskService.js:6-20 | as written, a row with archived NULL passes whatever the filters |
| TaskServiceProps.StatusFilterLetsNullFlaggedRowThrough | services/taskmanager/taskService.js:6-11 | concretely: filter status 'Next Action' returns a Completed task whose archived flag is NULL |
| TaskServiceProps.NoFiltersActiveTasks | services/taskmanager/taskService.js:5-24 | without filters: exactly the active tasks, and no parameters |
| TaskServiceProps.FilterParamsOrder | services/taskmanager/taskService.js:9-20 | one parameter per truthy filter, in the order status, priority, due date |
| TaskServiceProps.SelectedExactly | services/taskmanager/taskService.js:5-24 | with the parenthesised condition, a task is returned iff it is active and satisfies every filter |
| TaskServiceProps.SelectedAsWritten | services/taskmanager/taskService.js:5-24 | as written, a task is returned iff its archived flag is NULL, or it is 0 and the task satisfies every filter |
| TaskServiceProps.SelectAgreeing | services/taskmanager/taskService.js:22 | two conditions that agree on every row select the same rows |
| TaskServiceProps.AsWrittenSelectsIntended | services/taskmanager/taskService.js:5-24 | on a table with no NULL archived flag, the query as written returns exactly what the parenthesised one does, in the same order |
| ClientService.GetAllClients | services/taskmanager/clientService.js:3-6 | the unarchived clients, in table order |
| ClientService.GetClientById | services/taskmanager/clientService.js:8-11 | the first client with the id, or none exactly when no client has it |
| ClientService.CreateClient | services/taskmanager/clientService.js:13-17 | the new state and result are those of the createClient function of the old state |
| ClientService.CreateClientSpec | services/taskmanager/clientService.js:13-17 | the NOT NULL check on the name, then the insert; ClientServiceProps.CreateClientOutcome and CreateClientValid state it |
| ClientService.UpdateClient | services/taskmanager/clientService.js:19-26 | the new state and result are those of the updateClient function of the old state |
| ClientService.UpdateClientSpec | services/taskmanager/clientService.js:19-26 | no row with the id gives null before the NOT NULL check; ClientServiceProps.UpdateClientOutcome, UpdateClientIdempotent and UpdateClientValid state it |
| ClientService.ArchiveClient | services/taskmanager/clientService.js:28-34 | the new state and result are those of archiveClient as written on the pool in use: on the driver the guard reads the reply as written; on the test double both statements are evaluated by its engine, `DBMock.MatchRows` with the shared placeholder counter |
| ClientService.ArchiveClientSpec | services/taskmanager/clientService.js:28-34 | the corrected half: refused while the client has an active project, otherwise the UPDATE; ClientServiceProps.ArchiveClientOutcome, ArchiveClientTwice and ArchiveClientValid state it |
| ClientService.ArchiveClientAsWritten | services/taskmanager/clientService.js:28-34 | archiveClient as written on the pool in use; ClientServiceProps.ArchiveClientOnDriver and ArchiveClientOnMock state it for each pool |
| ClientService.ArchiveOnDriver | services/taskmanager/clientService.js:28-34 | on the mysql2 reply the guard reads `undefined`; ClientServiceProps.ArchiveClientOnDriver states the outcome |
| ClientService.ArchiveOnMock | services/taskmanager/clientService.js:28-34 | on the test double: the COUNT and the UPDATE with the engine's shared-counter flags; ClientServiceProps.ArchiveClientOnMock states the outcome |
| ClientService.MockFlags | tests/utils/dbmock.js:138-144 | one flag per row: the row's `client_id` strictly equals `values[i + k]`, and `archived` is null, undefined or 0 |
| ClientService.ThreadedActiveOfRow | tests/utils/dbmock.js:78-111 | for `client_id = ? AND (archived IS NULL OR archived = 0)` one row never throws and takes exactly one `?`, the first comparison always being evaluated |
| ClientService.ThreadedActiveOf | tests/utils/dbmock.js:138-144 | the engine's filter for that clause never throws, row k reads `values[i + k]`, and the counter ends past one `?` per row |
| ClientService.ArchiveFlagged | tests/utils/dbmock.js:171-189 | `SET archived = 1` on the flagged clients; the table keeps its length |
| ClientService.DeleteClient | services/taskmanager/clientService.js:36-39 | the new state and flag are those of the deleteClient function of the old state |
| ClientService.DeleteClientSpec | services/taskmanager/clientService.js:36-39 | every row with the id removed, and whether one was; ClientServiceProps.DeleteClientOutcome and DeleteClientValid state it |
| ClientServiceProps.GetAllClientsExactly | services/taskmanager/clientService.js:3-6 | a client is listed iff it is in the table with archived NULL or 0 |
| ClientServiceProps.CreateClientOutcome | services/taskmanager/clientService.js:13-17 | a missing name is refused by NOT NULL with nothing changed; otherwise one client is appended with the next id, the echo carries that id and the fields as given, and the new client is listed |
| ClientServiceProps.CreateClientValid | services/taskmanager/clientService.js:15 | the tables stay valid |
| ClientServiceProps.UpdateClientOutcome | services/taskmanager/clientService.js:19-26 | null iff no client has the id; a missing name is refused; otherwise that row alone takes name and contact, and the echo is the id with the fields as given |
| ClientServiceProps.UpdateClientIdempotent | services/taskmanager/clientService.js:19-26 | repeating the update changes nothing and answers the same |
| ClientServiceProps.UpdateClientValid | services/taskmanager/clientService.js:21-24 | the tables stay valid |
| ClientServiceProps.ArchiveClientRowOutcome | services/taskmanager/clientService.js:32-33 | the UPDATE archives the first unarchived client with the id, if any, reports whether it did, and changes nothing else |
| ClientServiceProps.ArchiveClientRowLeavesNoneActive | services/taskmanager/clientService.js:32-33 | with client ids distinct, no client with the id is active after the UPDATE |
| ClientServiceProps.ArchiveClientOutcome | services/taskmanager/clientService.js:28-34 | the intended archiveClient is refused, with nothing changed, iff the client has an active project; true iff an unarchived client of that id existed; only that row changes |
| ClientServiceProps.ArchiveClientLeavesNoneActive | services/taskmanager/clientService.js:32-33 | after archiving, no client of that id is active |
| ClientServiceProps.ArchiveClientTwice | services/taskmanager/clientService.js:28-34 | a second archive returns false and changes nothing |
| ClientServiceProps.ArchiveClientValid | services/taskmanager/clientService.js:32 | the tables stay valid |
| ClientServiceProps.DriverReplyGuardNeverFires | services/taskmanager/clientService.js:29-30 | on the driver's `[rows, fields]` reply, the guard reads undefined whatever the count |
| ClientServiceProps.ArchiveClientOnMock | services/taskmanager/clientService.js:28-34 | on the test double, only the first row of each table reads the id: the call refuses iff the first project is an active one of the client or a later active project has no `client_id`; otherwise it archives the first client alone, when that one has the id and is active, and returns whether it did |
| ClientServiceProps.KeptSome | tests/utils/dbmock.js:146-147 | `results.length` is positive iff some row is flagged |
| ClientServiceProps.MockGuard | services/taskmanager/clientService.js:29-30 | on the test double the guard fires iff the first project is an active one of the client, or a later active project has no `client_id` |
| ClientServiceProps.MockUpdate | services/taskmanager/clientService.js:32-33 | on the test double the UPDATE archives the first client alone, when it has the id and is active, and affectedRows > 0 iff it did |
| ClientServiceProps.ArchiveClientOnMockAgrees | services/taskmanager/clientService.js:28-34 | where no column holds `undefined` and the first row of each table carries the verdict, archiveClient on the test double is the intended one |
| ClientServiceProps.MockMissesLaterProject | services/taskmanager/clientService.js:29-30 | concretely: client 1 whose only active project is the second row is archived on the test double |
| ClientServiceProps.LaterProjectRefused | services/taskmanager/clientService.js:29-31 | that same call is refused as intended |
| ClientServiceProps.MockMissesLaterClient | services/taskmanager/clientService.js:32-33 | concretely: client 1 in the second row is not archived on the test double, which returns false |
| ClientServiceProps.LaterClientArchived | services/taskmanager/clientService.js:32-33 | that same client is archived as intended, and the call returns true |
| ClientServiceProps.LaterProjectValid | services/taskmanager/clientService.js:13-17 | the state of MockMissesLaterProject keeps TaskDb.ValidState, ids distinct and below the counters |
| ClientServiceProps.LaterClientValid | services/taskmanager/clientService.js:13-17 | the state of MockMissesLaterClient keeps TaskDb.ValidState, ids distinct and below the counters |
| ClientServiceProps.ArchiveClientOnDriver | services/taskmanager/clientService.js:28-34 | on the driver, archiveClient as written never refuses: true iff an unarchived client with the id existed, no such client is left, and the tables stay valid |
| ClientServiceProps.MockReplyGuardAgrees | services/taskmanager/clientService.js:29-30 | on the test double's reply, the guard fires iff the count is positive |
| ClientServiceProps.ActiveProjectDoesNotStopArchive | services/taskmanager/clientService.js:29-33 | concretely: a client with an active project is archived as written and refused as intended |
| ClientServiceProps.DeleteClientOutcome | services/taskmanager/clientService.js:36-39 | true iff a client had the id; exactly the other clients remain; other tables are unchanged |
| ClientServiceProps.DeleteClientValid | services/taskmanager/clientService.js:37 | the tables stay valid |
| Text.Lower | background/dmarc.js:46-48 | ASCII capitals become small letters; nothing else changes |
| Text.Lowercase | background/dmarc.js:46-48 | every character lower-cased, length kept |
| Text.AfterLastDot | background/dmarc.js:26 | the longest dot-free suffix: preceded by a '.' unless it is the whole name |
| Text.IncludesAt | background/dmarc.js:46-48 | `includes` is true iff the text occurs at some position |
| Text.IncludesFolded | background/dmarc.js:46-48 | lower-casing then `includes` is a case-blind search |
| Dmarc.IsDmarc | background/dmarc.js:45-49 | the sender name, sender address or subject, lower-cased, contains "dmarc"; DmarcProps.IsDmarcExactly and IsDmarcIgnoresCase state it |
| Dmarc.Extension | background/dmarc.js:26 | the lower-cased text after the last '.', holding no dot |
| Dmarc.GzKey | background/dmarc.js:35 | the name without its last three characters, or empty for a shorter name |
| Dmarc.UnarchiveBuffer | background/dmarc.js:25-43 | 'zip' unzips; 'gz' gunzips into one file named by the key; any other extension is refused with 'Unsupported file format' |
| Dmarc.AuthResult | background/dmarc.js:77-78 | the fold is 'pass' or 'fail' |
| Dmarc.FailsAsWritten | background/dmarc.js:77-78 | `obj.result === 'fail'`, true only of a bare text, which xml2js never gives; DmarcProps.AuthResultAsWrittenPasses states the consequence |
| Dmarc.Fails | background/dmarc.js:77-78 | the corrected test, the result element's text is 'fail'; DmarcProps.AuthResultFails states the fold with it |
| Dmarc.ResultText | background/dmarc.js:77-78 | the text of the entry's result element, when it has one |
| Dmarc.Disposition | background/dmarc.js:76-84 | a given non-empty disposition is kept; otherwise 'pass' iff both checks pass, else 'fail' |
| Dmarc.Classify | background/dmarc.js:85-90 | High for the refused disposition, quarantine or both checks failing; otherwise Medium for one failing check or disposition none; otherwise Low; DmarcProps.DerivedDispositionSeverity and SeverityMonotone state it |
| Dmarc.SeverityAsWritten | background/dmarc.js:85-90 | the severity with the refused disposition spelt 'rejected'; DmarcProps.RejectedMessageRatedLow and SeverityAgreesElsewhere state it |
| Dmarc.SeverityOf | background/dmarc.js:85-90 | the severity with 'reject', the corrected half; DmarcProps.SeverityAgreesElsewhere relates the two |
| Dmarc.ActionRequired | background/dmarc.js:91 | High, or more than 1000 messages; DmarcProps.RecordClassified states it of every record |
| Dmarc.RecordId | background/dmarc.js:72 | the report id, a '-', then the index |
| Dmarc.RecordOf | background/dmarc.js:71-91 | under either reading of the results, a record is built iff its SPF and DKIM lists exist, with the id of its index |
| Dmarc.Written | background/dmarc.js:69-96 | no more records are written than there are elements |
| Dmarc.ProcessReport | background/dmarc.js:69-96 | the loop writes the records, read as written, of the report's elements, in order |
| DmarcProps.IsDmarcExactly | background/dmarc.js:45-49 | a message is a report iff "dmarc" occurs, in any case, in the sender name, address or subject |
| DmarcProps.IsDmarcIgnoresCase | background/dmarc.js:45-49 | lower-casing the message first does not change the verdict |
| DmarcProps.AfterLastDotAppend | background/dmarc.js:26 | the extension of `name.ext` is ext |
| DmarcProps.GzArchiveNamesItsFile | background/dmarc.js:33-35 | `name.gz`, in any case, unpacks to one file called name |
| DmarcProps.GzKeyDropsExtension | background/dmarc.js:33-35 | for a gz name, the key plus '.' and the two-letter extension is the name |
| DmarcProps.DotlessNameIsExtension | background/dmarc.js:26 | a name without a dot is its own extension |
| DmarcProps.BareGzNameGivesEmptyKey | background/dmarc.js:26-35 | the name "GZ" is taken for gzip and unpacks under the empty name |
| DmarcProps.AuthResultFails | background/dmarc.js:77-78 | 'fail' iff some entry fails; 'pass' iff none does, also for an empty list |
| DmarcProps.AuthResultAsWrittenPasses | background/dmarc.js:77-78 | as written, the fold gives 'pass' for every list xml2js can produce |
| DmarcProps.FailingEntryPassesAsWritten | background/dmarc.js:77-78 | concretely: a failing entry is 'pass' as written and 'fail' as intended |
| DmarcProps.DerivedDispositionSeverity | background/dmarc.js:83-90 | without a reported disposition, High iff both checks fail, Medium iff exactly one does, Low iff both pass |
| DmarcProps.SeverityMonotone | background/dmarc.js:85-90 | a check turning from pass to fail never lowers the severity |
| DmarcProps.SeverityAgreesElsewhere | background/dmarc.js:85 | as written and as intended agree except on 'reject' and 'rejected' |
| DmarcProps.RejectedMessageRatedLow | background/dmarc.js:85-90 | concretely: a rejected message with both checks passing is Low as written and High as intended |
| DmarcProps.RecordClassified | background/dmarc.js:71-91 | under either reading, SPF and DKIM are 'fail' iff some entry fails; the severity is that of the disposition and results; action_required iff High or more than 1000 messages |
| DmarcProps.RecordAsWrittenPasses | background/dmarc.js:71-91 | as written, a record xml2js can deliver reports SPF and DKIM 'pass', and its disposition and severity follow from the reported disposition alone |
| DmarcProps.RecordsAgree | background/dmarc.js:71-91 | where no entry fails and the disposition is neither 'reject' nor 'rejected', the two readings build the same record |
| DmarcProps.WrittenAsWrittenPasses | background/dmarc.js:69-96 | as written, every record the loop writes reports SPF and DKIM 'pass' |
| DmarcProps.RecordIdsDistinct | background/dmarc.js:72 | records at different indices get different ids |
| DmarcProps.WrittenFrom | background/dmarc.js:69-72 | every written record carries the id of one of the elements |
| DmarcProps.WrittenIdsDistinct | background/dmarc.js:69-72 | the records written for one report have distinct ids |
| DmarcProps.WrittenHas | background/dmarc.js:69-95 | the record built for an element is among those written |
| DmarcProps.WrittenOnly | background/dmarc.js:69-95 | each written record was built from one of the elements |
| DmarcProps.WrittenComplete | background/dmarc.js:69-95 | every record that can be built is written, and only those |

## Left out

- **SQL and DDL parsing.** `node-sql-parser` and `generateSchemaFromDDL` with its file read (tests/utils/dbmock.js:1-2, 121-122, 198-273) are not modelled. Statements arrive as a parsed tree, and the schema as a value.
- **Number and string coercion.** DbValue.ToNumber: strings compare as NaN against numbers, and `Math.max` reads a string key as NaN. JavaScript's numeric-string coercion is not modelled.
- **LIKE and regular-expression syntax.** DbWhere.RegexTest: a LIKE pattern is read with '%' as the only special character. Other regular-expression syntax in a pattern is not interpreted.
- **Caller-visible mutation.** `insert` also writes defaults and the key into the caller's row object. `createTask` writes `project_id` into the caller's `taskData` (services/taskmanager/taskService.js:60). That aliasing is not modelled; only the stored rows are.
- **Database coercions, defaults and driver behaviour:**
  - **Values.** MySQL's type coercion and case-insensitive collation are not modelled. TaskService.SqlEquals equates a digit string with its number and nothing else.
  - **Table definitions.** These are not part of the repository's service code. The model assumes:
    - name columns are NOT NULL;
    - task status defaults to 'Next Action' and `archived` defaults to 0;
    - other columns default to NULL;
    - AUTO_INCREMENT counters start at 1.
  - **Foreign keys and cascades** of the real tables are not modelled (deleteClient removes the row unconditionally).
- **Time zones.** DATETIME values are taken as UTC readings; the mysql2 local-time-zone conversion is not modelled. `updated_at = NOW()` is not modelled.
- **Ids and route parameters.** Ids are integers; the string route parameters the controllers pass are not modelled.
- TaskDb.DateParam / IsoTime.ParseDateTime: only 'YYYY-MM-DD HH:MM:SS' text is read as a DATETIME. The date-only text (midnight), the 'T' separator and the fractional seconds MySQL also accepts are refused as invalid, in the date parameters of createTask and updateTask and in the `due_date` filter of getAllTasks.
- **The recurrence library and the clock.** `later.parse.text` and `later.schedule(...).next` are the parameters of TaskService.Recurrence. `Date.now()` is the parameter `now`.
- **Decompression, decoding and mail.** In unarchiveBuffer, the decompressors are parameters: `fflate` is not part of this model, and neither is its ZIP member order. The base64 decoding of the attachment and the choice of `Object.values(fileobject)[0]` are not modelled; Dmarc.UnarchiveBuffer takes the decoded bytes.
- **The background loop.** `runBackgroundDMARC` is not modelled: the cron tick, the `running` flag, the Graph mail calls, xml2js parsing, console logging and `deleteEmail`. Dmarc.ProcessReport models its per-record loop, with the written records collected instead of sent to `writeDMARCRecord`.
- **Malformed report elements.** Dmarc.RecordOf: of the ways building one record can throw, only a missing SPF or DKIM list is modelled (the record is then skipped). The other report fields are taken as present.
- **message_count.** Dmarc.RecordXml holds it as an integer. A non-numeric count, which compares as NaN with 1000, is not modelled.
- **Date range.** The record timestamp is `begin * 1000` as an integer; `new Date` range limits are not modelled.
- **Unicode case mapping.** Text.Lower lower-cases only ASCII capitals. `toLowerCase` on other letters is not modelled.
- **Email fields.** Dmarc.Email holds strings. A message without a sender name, address or subject makes `isdmarc` throw and abort the tick; that is not modelled.
- DbInsert.InsertRow: a row key that names no column throws `RowFieldDoesNotExist(table)`. The message of dbmock.js also names the first such key in the row's insertion order; rows are maps here, without that order, so the key is not carried.
- DbMock.DBMock.Query: `values` is always a list. A call that omits it, as the INSERT of getOrCreateMiscellaneousProject does (services/taskmanager/taskService.js:44-47), makes the engine throw a TypeError at the first inserted column or `?` it reads. That is not modelled.
- **The services on the test double.** Of the service operations, only archiveClient is modelled on the test double as well as on the MySQL server behind mysql2. The others are modelled on the server's replies only; on the test double the no-match reply `[[[]]]` makes getClientById return `[]` and getAllClients `[[]]`, and the successor INSERT of completeTask binds its 13 values to the first 13 of its 14 columns, one column off from `status` on. None of that is modelled.
- **Other services.** The controllers, routes, other CRUD services, analytics, e-mail and scheduler code are not modelled.

## Findings

| source | as written | input that shows it | evidently intended | confidence | as-written member | corrected member |
|---|---|---|---|---|---|---|
| tests/utils/dbmock.js:124-168 | one placeholder counter `index` serves every row of a filter and every `?`. A short circuit leaves a `?` untaken | `WHERE task_id = ?` with [2] over rows with ids 1 and 2 selects nothing; `UPDATE ... SET client_name = ? WHERE client_id = ?` with ["n", 2] over clients 1 and 2 affects 0 rows; archiveClient(1) on the test double archives client 1 whose active project is the second project row, and does not archive client 1 when it is the second client row; `(x = ? AND y = ?) OR z = ?` with [1, 0, 5] on x=0, y=0, z=5 is false | each row is evaluated with `?` bound by position | not executed | DbWhere.FilterThreaded (DbWhereProps.SharedCounterMissesLaterRows, DbWhereProps.SkippedPlaceholderShiftsLaterOnes), DbUpdate.UpdateTable (DbUpdateProps.SharedCounterUpdatesNothing), ClientService.ArchiveOnMock (ClientServiceProps.MockMissesLaterProject, ClientServiceProps.MockMissesLaterClient) | DbWhere.FilterAt (DbWhereProps.FilterAtExact), DbUpdate.UpdateTableAt (DbUpdateProps.UpdateSucceeds, DbUpdateProps.PositionalRenamesSecondClient), ClientService.ArchiveClientSpec (ClientServiceProps.LaterProjectRefused, ClientServiceProps.LaterClientArchived) |
| background/dmarc.js:77-78 | `obj.result === 'fail'` compares xml2js's array `['fail']` with a string, so it is never true | an SPF entry whose result is fail gives spf_result 'pass' | compare the element's text, `obj.result[0]` | not executed | Dmarc.FailsAsWritten (DmarcProps.AuthResultAsWrittenPasses, DmarcProps.FailingEntryPassesAsWritten, DmarcProps.WrittenAsWrittenPasses) | Dmarc.Fails (DmarcProps.AuthResultFails) |
| background/dmarc.js:85 | the severity test looks for the disposition 'rejected'. Appendix C of RFC 7489 names the values none, quarantine and reject | disposition 'reject' with both checks passing is rated Low | 'reject' rates High | not executed | Dmarc.SeverityAsWritten (DmarcProps.RejectedMessageRatedLow) | Dmarc.SeverityOf (DmarcProps.SeverityAgreesElsewhere, DmarcProps.RecordClassified, DmarcProps.RecordsAgree) |
| services/taskmanager/clientService.js:29-30 | the reply is not destructured. On the mysql2 reply `[rows, fields]`, `count[0]['COUNT(*)']` is undefined, so the guard never fires | a client with one active project is archived | refuse when the count is positive | not executed | ClientService.ArchiveClientAsWritten (ClientServiceProps.DriverReplyGuardNeverFires, ClientServiceProps.ArchiveClientOnDriver, ClientServiceProps.ActiveProjectDoesNotStopArchive) | ClientService.ArchiveClientSpec (ClientServiceProps.ArchiveClientOutcome) |
| services/taskmanager/taskService.js:6-20 | the filters are appended after `archived IS NULL OR archived = 0` without parentheses, and AND binds tighter than OR, so a row with archived NULL passes every filter | filter status 'Next Action' returns a Completed task whose archived flag is NULL | `(archived IS NULL OR archived = 0) AND ...` | not executed | TaskService.MatchesAsWritten (TaskServiceProps.ArchivedNullBypassesFilters, TaskServiceProps.StatusFilterLetsNullFlaggedRowThrough) | TaskService.TaskFilter (TaskServiceProps.SelectedExactly, TaskServiceProps.AsWrittenSelectsIntended) |
| services/taskmanager/taskService.js:157-160 | the successor INSERT lists 14 columns and its VALUES row has 13 items (12 `?` and "Next Action"), so MySQL refuses it with error 1136 before reading a value | completing a task whose schedule expression has a next occurrence marks it Completed and rejects; no successor is stored | one VALUES item per column, the successor stored | not executed | TaskService.SpawnAsWritten (TaskServiceProps.SpawnAsWrittenStoresNothing, TaskServiceProps.CompleteTaskOutcome, TaskServiceProps.CompleteTaskAsWrittenVsIntended) | TaskService.SpawnSpec (TaskServiceProps.SuccessorSpawned, TaskServiceProps.CompleteTaskIntendedOutcome) |
