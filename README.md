# LIU-Tentor-API store and request handler, modelled in Dafny

LIU-Tentor-API caches exam statistics for Linköping University courses in three SQLite tables:
`course`, `module` (one row per examination module and date) and `grade` (one row per grade
and module). This project models the store on in-memory tables:

- the course lookup, which upper-cases the code it is given;
- the join of course, modules and grades into the nested `FormattedCourseData` document;
- the refresh, which rewrites one course from an upstream statistics payload;
- the seeding of the course table with the sentinel timestamp `-1`;
- the 24-hour staleness rule;
- the `GET /api/courses` and `GET /api/courses/:course_code` routes.

Each table is a sequence of rows in table order. Both `module` and `grade` carry an
AUTOINCREMENT counter, and ids are never reused. Every SQL statement is one atomic, sequential
update of those sequences. The repository holds two copies of the store logic, and both are
modelled:

- `src/database.ts`, in module `Database`, upper-cases the code in its reads, its UPDATE and
  its INSERTs, but not in its DELETE.
- `src/utils.ts`, in module `Utils`, keys every statement and its read on the code exactly as
  given. The route handler of `src/index.ts`, in module `Index`, uses this copy and hands it
  the stored, already upper-case code.

The start-up block of `src/index.ts:14-28` repeats the seeding of `src/database.ts:18-27`
statement for statement. Both are `Database.Store.SeedCourses`.

The remaining files hold the shared parts:

- `types.dfy` has the row and document shapes of `src/types.ts` and the statistics payload.
- `text.dfy` has `toUpperCase`, restricted to ASCII.
- `tables.dfy` has the in-memory tables, with each statement written as a pure function. It
  also has the specification of a refresh, `AfterRefresh`, and the reference join `Join`.

The connection is a class `Database.Store` with one field per table and one per counter. Its
methods issue the statements. The refresh is a method with the two nested insert loops of the
source, proved equal to `AfterRefresh`. The join and the lookups are functions. Lemmas relate
the two: a refresh followed by a read gives back the payload, a refresh leaves other courses
alone, and the tables stay consistent.

Facts about the source that the model keeps:

- The refresh runs in no transaction and issues no DELETE on `grade` (`src/database.ts:141-172`,
  `src/utils.ts:86-105`). Grade rows of deleted modules stay in the `grade` table for good.
  Fresh module ids guarantee that they never attach to a new module
  (`Tables.AfterRefreshConsistent`).
- A course is stale when `ts + 86_400_000 < now`, strictly less (`src/index.ts:85`). A course
  exactly 24 hours old is served without a refresh.
- Seeding runs only when the course table is empty (`src/database.ts:20`, `src/index.ts:20`).
- The only route parameter is the course code. There is no force-refresh flag and no route
  that serves several courses at once.
- The test for the `-1` sentinel never succeeds; see Findings.

The clock (`Date.now()`) becomes a parameter. The request handler reads it twice: `now` for the
staleness test (`src/index.ts:85`), and `refreshedAt`, no earlier than `now`, for the timestamp
that the refresh's UPDATE stores after the upstream request has come back (`src/utils.ts:86`).
The upstream statistics request becomes the parameter `fetched: Option<seq<Stat>>`, where `None`
stands for a non-2xx response. The course-code list fetched at start-up becomes the parameter
`fetchedCodes`.

## Model

| member | source | states |
|---|---|---|
| Text.Upper | src/database.ts:48 | `toUpperCase` on ASCII: same length, no lower-case letter left, lower-case letters mapped to their capitals, every other character kept |
| Text.UpperIdempotent | src/index.ts:70 | upper-casing an already upper-cased code changes nothing |
| Tables.FindCourse | src/database.ts:48-56 | `db.get` on `course_code = ?`: a found row is in the table and has exactly that code; absent iff no row has the code |
| Tables.Db | src/database.ts:9-17 | definition: the `course`, `module` and `grade` tables in table order, with the AUTOINCREMENT counters of `module` and `grade` |
| Tables.UniqueCodes | src/database.ts:10 | definition: `course_code` is the PRIMARY KEY, so no two course rows share a code |
| Tables.Consistent | src/database.ts:10-16 | definition: the invariant of the store: unique course codes, every module and grade id below its AUTOINCREMENT counter, and every grade's module id one already handed out |
| Tables.ModuleRowsFor | src/database.ts:147-152 | definition: the rows of the module INSERTs, one per payload element in order, with consecutive ids |
| Tables.GradeRows | src/database.ts:165-172 | definition: the rows of the inner grade loop, one per grade entry in order, all pointing at one module id, with consecutive ids |
| Tables.AppendStat | src/database.ts:147-172 | definition: one iteration of the outer loop in closed form: the module row, then its grade rows, and both counters advanced |
| Tables.AppendStats | src/database.ts:147-173 | definition: the whole outer loop in closed form: the module and grade rows of every payload element, in order |
| Tables.FormatModule | src/database.ts:99-110 | definition: the per-module `map` callback: the module's code, date and its own grade rows projected |
| Tables.ModulesOf | src/database.ts:63 | definition: `SELECT * FROM module WHERE course_code = ?`, the module rows of one code in table order |
| Tables.OtherModules | src/database.ts:145 | definition: the module rows that `DELETE FROM module WHERE course_code = ?` leaves, in table order |
| Tables.GradesOf | src/database.ts:78 | definition: `SELECT * FROM grade WHERE module_id = ?`, the grade rows of one module id in table order |
| Tables.Project | src/database.ts:105-109 | definition: each grade row projected to `(grade, gradeOrder, quantity)`, in order |
| Tables.FormatModules | src/database.ts:98-111 | definition: per module row, in order, its code, date and its own grade rows projected |
| Tables.AfterRefresh | src/database.ts:141-172 | definition: the tables after a refresh: course row updated, module rows of the delete key removed, then per payload element one module row and its grade rows appended, with consecutive fresh ids |
| Tables.SeedRows | src/database.ts:22-25 | definition: the course rows after one INSERT per fetched code into an empty table, a code already present being refused by the primary key |
| Tables.Filter | src/database.ts:63 | a `SELECT ... WHERE` never returns more rows than the table holds |
| Tables.FilterMembers | src/database.ts:63-71 | a selection holds exactly the rows of the table that satisfy its condition |
| Tables.FilterAppend | src/database.ts:63-71 | a selection keeps table order: selecting from `a + b` is selecting from `a`, then from `b` |
| Tables.UpdateCourseRows | src/database.ts:141-144 | the UPDATE gives the rows with the key the new names and timestamp, leaves every other row as it was, and moves no row |
| Tables.GradeRowsFor | src/database.ts:147-172 | the grade rows of a payload number the sum of its grade lists; each points at one of the payload's new module ids and has a fresh grade id |
| Tables.Join | src/database.ts:91-120 | the nested document is absent iff the course is unknown; otherwise it carries the exact code and one entry per module row of the course |
| Tables.FindAfterUpdate | src/database.ts:141-144 | after the UPDATE, the key finds the updated row, and every other code finds what it found before |
| Tables.ModulesOfAfterDelete | src/database.ts:145 | the DELETE removes every module of its key and leaves every other course's module list as it was |
| Tables.ModulesOfInserted | src/database.ts:148-152 | the inserted module rows all belong to the insert key and to no other course |
| Tables.GradesOfNewModule | src/database.ts:153-172 | the grades of the k-th new module id are exactly the k-th payload element's grades, in order, with consecutive fresh ids |
| Tables.GradesOfOldModule | src/database.ts:165-172 | a refresh adds no grade row to any module id handed out before it |
| Tables.FormatOldModules | src/database.ts:98-111 | a module that existed before a refresh is formatted with the same grades after it |
| Tables.FormatNewModules | src/database.ts:147-172 | the module rows a refresh inserts format back to exactly the payload's modules |
| Tables.JoinAfterRefresh | src/database.ts:141-172 | after a refresh keyed on the course's code, the document has the payload's title, `now`, and the surviving old modules followed by the payload's modules with their grades |
| Tables.JoinOtherAfterRefresh | src/database.ts:141-172 | a refresh leaves the document of every course it is not keyed on unchanged |
| Tables.AfterRefreshConsistent | src/database.ts:12-17 | a refresh keeps codes unique and ids below their counters; every new module id exceeds every existing module id and every module id a grade refers to |
| Database.RefreshOutcome | src/database.ts:135-176 | definition: what `update_course_data` comes to: `true`, `false` for a failed fetch, or the exception thrown on an empty payload |
| Database.GetCourseData | src/database.ts:46-59 | the found row has the upper-cased code; absent iff no row has the upper-cased code |
| Database.CaseInsensitiveLookup | src/database.ts:46-59 | a lookup with any letter case equals the lookup with the upper-cased code; `tdde05` and `TDDE05` give the same answer |
| Database.GetModuleData | src/database.ts:61-74 | exactly the module rows whose course code is the upper-cased argument |
| Database.GetGradeData | src/database.ts:76-89 | exactly the grade rows of the module id |
| Database.GetFormattedCourseData | src/database.ts:91-120 | absent iff the course is unknown; otherwise the row's code, names and timestamp, and per module row of the course, in order, its code, date and its own grade rows projected (an empty module list for a course without modules) |
| Database.RefreshRoundTrip | src/database.ts:135-176 | after a refresh of a known upper-case code, the document is exactly the payload: its title, `now`, and its modules in order, each with its grades |
| Database.RefreshWithLowerCaseKeepsOldModules | src/database.ts:141-152 | with a code that is not upper case, the course keeps its previous modules, followed by the payload's |
| Database.RefreshTouchesOnlyItsCourse | src/database.ts:141-173 | the grade table only grows; the module rows of other courses are untouched; the course's module rows are the surviving old ones, then one new row per payload element |
| Database.RefreshRoundTripAnyCase | src/database.ts:141-152 | with every statement keyed on the upper-cased code, the round trip holds for a code in any letter case |
| Database.RefreshLeavesOtherCourses | src/database.ts:141-173 | a refresh leaves the document of every other course unchanged |
| Database.SeedRowsSpec | src/database.ts:18-27 | seeding gives one row per distinct fetched code, with no names and timestamp `-1`, and no code twice |
| Database.Store.constructor | src/database.ts:9-17 | freshly created tables are empty, with both counters at 1 |
| Database.Store.UpdateCourse | src/database.ts:141-144 | the UPDATE statement changes the course table as `UpdateCourseRows` says and nothing else |
| Database.Store.DeleteModules | src/database.ts:145 | the DELETE statement removes the key's module rows and nothing else |
| Database.Store.InsertModule | src/database.ts:148-164 | the module INSERT appends one row with the next id, returns that id (`last_insert_rowid`), and advances the counter |
| Database.Store.InsertGrade | src/database.ts:166-171 | the grade INSERT appends one row with the next id pointing at the given module, and advances the counter |
| Database.Store.InsertGrades | src/database.ts:165-172 | the inner loop appends one grade row per entry, in order, with consecutive ids |
| Database.Store.InsertStat | src/database.ts:147-172 | one outer iteration appends the module row and then its grade rows pointing at the new id |
| Database.Store.WriteStatistics | src/database.ts:141-173 | the statements of a refresh, in order, bring the tables to `AfterRefresh` and keep them consistent |
| Database.Store.InsertCourse | src/database.ts:22-25 | the course INSERT adds a row with timestamp `-1` iff the code is not yet present |
| Database.Store.UpdateCourseData | src/database.ts:135-176 | no payload: `false`, tables untouched; empty payload: throws before any write; otherwise the tables become `AfterRefresh` with UPDATE/INSERT on the upper-cased code and DELETE on the raw code |
| Database.Store.UpdateCourseDataIntended | src/database.ts:135-176 | the same refresh with the DELETE on the upper-cased code too |
| Database.Store.SeedCourses | src/database.ts:18-27 | an empty course table is seeded with `SeedRows` of the fetched codes; a non-empty one is left as it is |
| Utils.ModuleIds | src/utils.ts:21 | definition: the ids of the course's module rows, in order, the parameters of the `IN` list |
| Utils.OfAnyModule | src/utils.ts:22 | definition: the condition `module_id IN (...)` over those ids |
| Utils.GetCourseData | src/utils.ts:3-48 | exact-code lookup: absent iff no row has exactly this code; otherwise the row's fields and one entry per module row of the course |
| Utils.GradesOfSelected | src/utils.ts:21-35 | narrowing the grades to the `IN` list of the course's module ids and then filtering by one of them gives that module's grades |
| Utils.GetCourseDataIsJoin | src/utils.ts:17-43 | the `IN` selection followed by the per-module `filter` is the nested document of the course: each module gets exactly its own grades in order |
| Utils.AgreesWithDatabase | src/utils.ts:3-48 | on the upper-cased code, the join of `utils.ts` and `get_formated_course_data` of `database.ts` give the same document |
| Utils.RefreshRoundTrip | src/utils.ts:77-110 | after a refresh under a code stored exactly as given (no case folding), the read under that code gives exactly the payload |
| Utils.UpdateCourseData | src/utils.ts:77-110 | no payload: `false`, tables untouched; empty payload: throws before any write; otherwise `true`, and the tables become `AfterRefresh` with every statement on the code as given |
| Index.DAY | src/index.ts:84 | definition: `time_before_course_update`, 24 hours in milliseconds |
| Index.StaleAsWritten | src/index.ts:84-85 | definition: the staleness test as it behaves, `ts + 86 400 000 < now`, the `=== -1` test never holding |
| Index.Stale | src/index.ts:84-85 | definition: the staleness test as intended, the sentinel `-1` or strictly more than 24 hours old |
| Index.CourseCodes | src/index.ts:58-60 | definition: the `course_code` of every course row, in table order |
| Index.SentinelMissedAsWritten | src/index.ts:85 | a never-refreshed row (`-1`) with the clock at 0 is stale by the intended rule but not by the rule as it behaves |
| Index.SeededCoursesAreStale | src/index.ts:85 | with the sentinel test in place, every seeded course row is refreshed on its first request at any clock value |
| Index.StaleAgreesAfterFirstDay | src/index.ts:84-85 | from 86 400 000 ms after the epoch on, the two staleness rules take the same decision |
| Index.FreshForOneDay | src/index.ts:84-85 | a row refreshed at `t` is fresh up to and including `t + 24 h`, stale after that, and stays stale |
| Index.CourseCodesListed | src/index.ts:52-63 | `/api/courses` lists exactly the codes the lookup finds, each once |
| Index.ListAfterSeeding | src/index.ts:52-63 | after seeding, `/api/courses` lists every fetched code exactly once and nothing else |
| Index.Response | src/index.ts:65-98 | definition: the route's answers: 400 (:67), 404 (:78), 503 (:87), no answer when the refresh never settles, or the document (:96) |
| Index.HandleCourseRequest | src/index.ts:65-98 | empty code: 400; unknown upper-cased code: 404; both without any write. Fresh course: the stored document, no write. Stale course (by the corrected rule `Index.Stale`): 503 without a write if the fetch failed; no answer and no write for an empty payload; otherwise the tables are refreshed with the later clock reading `refreshedAt` and the served document is exactly the payload with that timestamp |

## Left out

- SQL errors: each statement, and each read, is modelled only on its success path, apart from the refused course INSERT of the next line. In `database.ts` a failing `run` rejects; in `utils.ts` `run` logs and resolves; the reads resolve `null`. The 500 responses of `index.ts` go with them. The second 404 of the route handler (`src/index.ts:92-95`) is reachable only through a failed read, so the model has no path to it.
- Database.Store.InsertCourse: a fetched code that is already present makes the seeding INSERT fail on the primary key of `course`; the model keeps only that statement's effect on the table (no row added, `Tables.SeedRows` likewise), not the statement error itself.
- Interleaving: the sqlite3 callbacks, `db.serialize`, `Promise.all` and two requests refreshing the same course at once are left out. `last_insert_rowid()` is the id the model's module INSERT returns.
- An empty statistics payload. `data[0].courseTitle` throws before any statement. In `database.ts` the returned promise rejects (`Crashed`). In `utils.ts` the exception escapes an `async` promise executor, so the promise never settles and the route never answers (`Unanswered`). The unhandled rejection this also raises, and what it does to the Node process, is not modelled.
- The HTTP client: `src/liuapi.ts` and `src/utils.ts:112-154`, with the headers, the API key and JSON decoding, are not part of this model. Their results are the parameters `fetched` and `fetchedCodes`. A payload that is not an array of statistics is not modelled.
- Express plumbing: the rate limiter, CORS, analytics, `GET /` and `app.listen`.
- Column types: `last_updated_timestamp` is a TEXT column. The model stores it as an integer and folds `parseInt` into that choice. The served `lastUpdatedTimestamp` is therefore an integer rather than the stored string.
- Index.HandleCourseRequest: decides staleness by the corrected rule `Index.Stale`, which refreshes a `-1` row at any clock value; the code as written differs from it only while the clock is within one day of the epoch (`Index.StaleAgreesAfterFirstDay`).
- Text.Upper: covers ASCII letters only, not the full Unicode case mapping of `toUpperCase`.
- Integers are unbounded. JavaScript numbers and SQLite's 64-bit row ids do not overflow at any realistic size.

## Findings

| source | as written | input that shows it | evidently intended | confidence | as-written member | corrected member |
|---|---|---|---|---|---|---|
| src/index.ts:85 | `row_data.last_updated_timestamp === -1` compares the value of a TEXT column, which reads back as the string `"-1"`, with the number `-1`, so the test never succeeds; only the 24-hour comparison decides | a seeded row with timestamp `-1` and a clock reading `now = 0`: the row is served unrefreshed, with no names and no modules | a row carrying the `-1` sentinel is always refreshed | medium (visible only with a clock within one day of the epoch), not executed | Index.SentinelMissedAsWritten | Index.SeededCoursesAreStale |
| src/database.ts:145 | the DELETE is keyed on `course_code` as given, while the UPDATE and the INSERTs of the same refresh use `course_code.toUpperCase()` | a refresh called with `tdde05` for the stored course `TDDE05` that already has modules: the old module rows stay, and the course lists them followed by the payload's modules | the DELETE also uses the upper-cased code, so a refresh replaces the course's modules in any letter case | high, not executed | Database.RefreshWithLowerCaseKeepsOldModules | Database.RefreshRoundTripAnyCase |
