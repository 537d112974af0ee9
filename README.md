# Student Course Management API — a Dafny model

This project models the core of a small HTTP service that keeps students,
courses and the enrollments linking them, and proves properties of that
model. The service is written in Python (FastAPI over SQLAlchemy). The
model covers five things:

- **Tables** (`models.dfy`). The three tables are rows, and `Db` is a value holding them.
  - Students and courses get generated ids.
  - Student emails are unique.
  - An enrollment is keyed by its (student, course) pair and points at existing rows.
  - `WellFormed` states these table constraints, and lemmas prove that each insertion the handlers make preserves them.
  - The relationships `Student.courses` and `Course.students` are the functions `CoursesOf` and `StudentsOf`. They follow the enrollments table in both directions.
- **Records** (`schemas.dfy`). These are the request and response records and their projections from rows. The nested shapes go one level deep.
- **Handlers** (`handlers.dfy`).
  - The three creation endpoints are methods of the class `Store`. Its three `seq` fields are the tables, and each method changes them in place the way the session does.
  - Duplicate emails are rolled back.
  - Enroll checks, in order:
    1. the student exists;
    2. the course exists;
    3. the pair is not already enrolled.
  - The read endpoints are functions of the tables:
    - lookups by id with their not-found errors;
    - offset/limit pagination.
- **Startup** (`database.dfy`):
  - the connection URL taken from `DATABASE_URL`, or the default SQLite file when it is unset or empty;
  - the masked URL written to the log;
  - the rewrite of the legacy `postgres://` scheme;
  - the driver arguments chosen from the URL;
  - the retry loop that opens the engine;
  - the fallback to a second SQLite file.
- **Scenarios** (`scenarios.dfy`). These replay the cases of the service's test suite against a fresh `Store`.

`text.dfy` models Python string operations:

- the ones the URL handling calls: `find` (behind `split`), `split` on one character, `startswith`, substring `in` and `replace(..., 1)`;
- `rfind`, which the corrected masking uses;
- `join`, which states the round trip of `split`.

`wrappers.dfy` holds `Option` and `Result`.

The service stores data in SQLite unless `DATABASE_URL` names another database, so
the model follows SQLite's behaviour:

- **Generated ids.** A new id is one more than the largest id stored, or 1 when the table is empty. Nothing is ever deleted, so ids ascend in table order.
- **Pagination.** A negative `skip` counts as 0, and a negative `limit` means no limit.
- **Foreign keys.** SQLite does not enforce them, so in the model they are an invariant (`WellFormed`). The enroll handler's existence checks keep it.

Two points of the code are easy to misread:

- The code does not check that a student's name or a course's title is non-empty, so the model allows empty ones.
- `get_engine` makes at most `max_retries` attempts in total, not one attempt plus `max_retries` retries.

## Model

| member | source | states |
|---|---|---|
| Models.StudentIdsUnique | app/models.py:8 | no two student rows share an id |
| Models.CourseIdsUnique | app/models.py:19 | no two course rows share an id |
| Models.NextStudentId | app/models.py:8 | the generated student id is positive and greater than every stored id |
| Models.NextCourseId | app/models.py:19 | the generated course id is positive and greater than every stored id |
| Models.FindStudent | app/main.py:83 | the lookup by id finds nothing exactly when no row has the id; otherwise it yields a stored row with that id |
| Models.FindCourse | app/main.py:103 | the lookup by id finds nothing exactly when no row has the id; otherwise it yields a stored row with that id |
| Models.FindEnrollment | app/main.py:126-129 | the lookup by pair finds nothing exactly when the pair is not enrolled; otherwise it yields a stored row with that pair |
| Models.FindStudentAt | app/models.py:8 | with unique ascending ids, looking up a stored row's id yields that very row |
| Models.FindCourseAt | app/models.py:19 | with unique ascending ids, looking up a stored row's id yields that very row |
| Models.CoursesOf | app/models.py:14 | a course is listed for a student exactly when it is stored and an enrollment links the two; the list is no longer than the table |
| Models.StudentsOf | app/models.py:25 | a student is listed for a course exactly when it is stored and an enrollment links the two; the list is no longer than the table |
| Models.CoursesOfKeys | app/models.py:14 | over a table with ascending positive ids, a student's courses keep them: each course is listed once, in ascending id order |
| Models.StudentsOfKeys | app/models.py:25 | over a table with ascending positive ids, a course's students keep them: each student is listed once, in ascending id order |
| Models.CourseKeysTail | app/models.py:19 | dropping the first course keeps the key invariant, and every later course has a larger id |
| Models.StudentKeysTail | app/models.py:8 | dropping the first student keeps the key invariant, and every later student has a larger id |
| Models.CourseKeysCons | app/models.py:19 | a course whose positive id is below every id of an ascending table keeps it ascending in front |
| Models.StudentKeysCons | app/models.py:8 | a student whose positive id is below every id of an ascending table keeps it ascending in front |
| Models.RelationshipSymmetric | app/models.py:14-25 | the two relationships are each other's back-population: c is among s's courses iff s is among c's students |
| Models.EnrolledAppend | app/models.py:27-32 | after appending an enrollment row, a pair is enrolled iff it was before or it is the new row's pair |
| Models.EnrollmentLinksBoth | app/main.py:135-143 | a new enrollment puts the course in the student's courses and the student in the course's students |
| Models.EnrollmentKeepsOtherStudents | app/main.py:135-143 | a new enrollment leaves the course list of every other student unchanged |
| Models.NoEnrollmentNoCourses | app/models.py:14 | a student named by no enrollment has no courses |
| Models.NoEnrollmentNoStudents | app/models.py:25 | a course named by no enrollment has no students |
| Models.UnknownStudentHasNoCourses | app/models.py:30 | in well-formed tables an id with no student row has no courses |
| Models.UnknownCourseHasNoStudents | app/models.py:31 | in well-formed tables an id with no course row has no students |
| Models.UniqueEmailsAppend | app/models.py:10 | appending a student keeps emails unique iff its email was not taken |
| Models.HasStudentAppend | app/main.py:71-75 | after an append, an id is present iff it was before or is the new row's id |
| Models.HasCourseAppend | app/main.py:95-98 | after an append, an id is present iff it was before or is the new row's id |
| Models.AddStudentKeepsConstraints | app/main.py:71-76 | inserting a student with the next id and an unused email keeps every table constraint |
| Models.AddCourseKeepsConstraints | app/main.py:95-99 | inserting a course with the next id keeps every table constraint |
| Models.AddEnrollmentKeepsConstraints | app/main.py:116-143 | inserting an enrollment that passed the three checks keeps every table constraint, foreign keys and pair uniqueness included |
| Schemas.StudentsOut | app/schemas.py:13-18 | the response records are the stored rows, same length and order; a record is listed iff its row is |
| Schemas.CoursesOut | app/schemas.py:28-33 | the response records are the stored rows, same length and order; a record is listed iff its row is |
| Schemas.EnrollmentsOut | app/schemas.py:43-48 | the response records are the stored rows, same length and order |
| Handlers.PageStart | app/main.py:90 | the offset equals `skip` when `skip` is within the table, 0 when `skip` is negative, and the table's end when `skip` is past it |
| Handlers.Page | app/main.py:90 | a page is a contiguous run of the table starting at the offset; it has at most `limit` items; it is shorter than `limit` only at the table's end; it is empty when `skip` is past the end |
| Handlers.PagesConcatenate | app/main.py:89-90 | the page of n items at k followed by the page of m items at k+n is the page of n+m items at k |
| Handlers.DefaultPageIsWholeTable | app/main.py:89 | with the default skip 0 and limit 100, a table of at most 100 rows is listed whole |
| Handlers.ListStudents | app/main.py:88-91 | item i of the listing is the stored student at offset+i; at most `limit` items; fewer only when the table ends (all remaining rows for a negative `limit`); empty past the end |
| Handlers.ListCourses | app/main.py:108-111 | item i of the listing is the stored course at offset+i; at most `limit` items; fewer only when the table ends (all remaining rows for a negative `limit`); empty past the end |
| Handlers.ListEnrollments | app/main.py:146-149 | item i of the listing is the stored enrollment at offset+i; at most `limit` items; fewer only when the table ends (all remaining rows for a negative `limit`); empty past the end |
| Handlers.GetStudent | app/main.py:81-86 | 404 "Student not found" iff no row has the id; otherwise the row's fields and exactly the courses the student is enrolled in, each once and in ascending id order when the database is well formed |
| Handlers.GetCourse | app/main.py:101-106 | 404 "Course not found" iff no row has the id; otherwise the row's fields and exactly the students enrolled in the course, each once and in ascending id order when the database is well formed |
| Handlers.CreatedStudentReadsBack | app/main.py:69-86 | a freshly created student reads back with its fields and an empty course list |
| Handlers.CreatedCourseReadsBack | app/main.py:93-106 | a freshly created course reads back with its fields and an empty student list |
| Handlers.EnrollmentShowsOnBothSides | app/main.py:113-144 | after enrolling, the course appears in the student's detail and the student in the course's detail |
| Handlers.Store.constructor | app/models.py:5-32 | a new store has three empty tables that satisfy every constraint |
| Handlers.Store.CreateStudent | app/main.py:69-79 | a taken email gives 400 "Email already registered" and leaves the store unchanged; otherwise the row with a fresh positive id is appended and returned; other tables untouched; constraints kept |
| Handlers.Store.CreateCourse | app/main.py:93-99 | the row with a fresh positive id is appended and returned; other tables untouched; constraints kept |
| Handlers.Store.EnrollStudent | app/main.py:113-144 | unknown student gives 404 "Student not found", else unknown course gives 404 "Course not found", else an existing pair gives 400 "Student already enrolled in this course"; in these three cases nothing changes; otherwise the row dated today is appended and returned; constraints kept |
| Scenarios.CreateStudentScenario | app/tests/test_api.py:42-51 | a first student gets id 1 and is returned with the name and email sent |
| Scenarios.DuplicateEmailScenario | app/main.py:77-79 | a second student with the same email is refused and only the first is listed |
| Scenarios.CreateCourseScenario | app/tests/test_api.py:53-62 | a first course gets id 1 and is returned with the title and description sent |
| Scenarios.EnrollScenario | app/tests/test_api.py:64-91 | enrolling returns the pair dated today and the student's detail lists the course |
| Scenarios.TwoStudentsListed | app/tests/test_api.py:123-130 | a course with two enrolled students lists both |
| Scenarios.SeedAliceAndBob | app/tests/test_api.py:95-103 | two students created in a fresh store get ids 1 and 2 |
| Scenarios.SeedDataScience | app/tests/test_api.py:95-110 | two students and a course created in a fresh store get ids 1, 2 and 1 |
| Scenarios.SeedAliceEnrolled | app/tests/test_api.py:112-115 | enrolling Alice in the course stores exactly that enrollment |
| Scenarios.CourseWithStudentsScenario | app/tests/test_api.py:93-130 | after enrolling two students in one course the course's detail lists both |
| Scenarios.SeedWebDevelopment | app/main.py:69-99 | a student and a course created in a fresh store both get id 1 |
| Scenarios.EnrollUnknownScenario | app/main.py:115-123 | student check before course check: unknown both gives "Student not found", unknown course gives "Course not found", nothing stored |
| Scenarios.EnrollTwiceScenario | app/main.py:125-132 | enrolling the same pair twice is refused the second time and one row is stored |
| Text.Find | app/database.py:18-21 | the first index of the character, or -1 exactly when it does not occur |
| Text.RFind | app/database.py:18-22 | the last index of the character, or -1 exactly when it does not occur |
| Text.Split | app/database.py:19-21 | `split` gives at least one piece; two or more exactly when the separator occurs; the first piece is the text before the first separator and the second the text between the first and the second |
| Text.After | app/database.py:19-22 | the text before the first separator, the separator and the text after it make up the whole text |
| Text.SplitPiecesLackSeparator | app/database.py:19-21 | no piece of a split holds the separator |
| Text.JoinSplit | app/database.py:19-21 | joining the pieces of a split with the separator gives back the text |
| Text.SplitJoin | app/database.py:19-21 | splitting pieces joined by a separator they do not hold gives back the pieces |
| Text.FindSub | app/database.py:50 | the first occurrence of a substring, or -1 exactly when it does not occur |
| Text.ReplaceFirst | app/database.py:35 | replacing the first occurrence leaves text without the pattern unchanged and swaps a leading pattern for the replacement |
| Database.MaskUrl | app/database.py:16-23 | as written: unchanged URL without '@' or without ':' before the first '@'; otherwise the text before the first ':', the mask, and the text between the first and second '@' |
| Database.MaskUrlLeaksPasswordFragment | app/database.py:18-22 | for every URL whose credentials hold two '@' (a `user@server` user name or a password holding '@'), the masking shows the text between the two '@' and not the host |
| Database.MaskCredentials | app/database.py:16-23 | corrected masking: everything between the first ':' and the last '@' is replaced by the mask, and what follows holds no '@' |
| Database.MaskCredentialsHidesPassword | app/database.py:18-22 | with the corrected masking, the same URLs log the scheme, the mask and the host |
| Database.LoggedUrl | app/database.py:16-25 | a URL is logged exactly when `DATABASE_URL` is set and non-empty, masked as written; otherwise a warning |
| Database.LoggedUrlCorrected | app/database.py:16-25 | the same log line with the corrected masking |
| Database.LoggedUrlLeaksCredentials | app/database.py:16-23 | a set `DATABASE_URL` whose credentials hold two '@' is logged with the text between them; the corrected log shows the host |
| Database.ConfiguredUrl | app/database.py:13-30 | unset or empty `DATABASE_URL` gives the default SQLite URL; any other value is used as given |
| Database.NormalizeScheme | app/database.py:32-35 | a leading "postgres://" becomes "postgresql://"; other URLs are kept; no result starts with the legacy prefix, and none is shorter than its input |
| Database.NormalizeSchemeIdempotent | app/database.py:32-35 | rewriting twice equals rewriting once |
| Database.DatabaseUrl | app/database.py:27-35 | the URL connected with is never empty and never has the legacy scheme; unset or empty means the default SQLite file, and a set value is used after the `postgres://` rewrite |
| Database.ConnectArgsFor | app/database.py:46-55 | PostgreSQL URLs get sslmode "require" iff they mention render.com, "prefer" otherwise; SQLite URLs disable the same-thread check; other URLs get no arguments |
| Database.NoDomainInPrefix | app/database.py:33-50 | no occurrence of "render.com" starts inside either PostgreSQL scheme prefix |
| Database.DomainAfterPrefix | app/database.py:33-50 | whether "render.com" occurs is decided by the text after the scheme prefix |
| Database.LegacyUrlGetsSslMode | app/database.py:32-51 | a legacy "postgres://" URL would get no driver arguments; once rewritten it gets sslmode "require" iff it mentions render.com |
| Database.GetEngine | app/database.py:38-87 | an engine iff one of the first `max_retries` attempts succeeds; it is the first successful attempt's engine with the URL's driver arguments; on failure exactly `max_retries` attempts (none if not positive); one sleep between consecutive attempts |
| Database.CreateEngine | app/database.py:89-100 | the fallback SQLite engine iff all five attempts fail, after four sleeps; otherwise the primary engine, the number of sleeps naming the attempt that succeeded |

## Left out

- **Handled outside the model:**
  - The HTTP layer: routing, status codes on success, JSON encoding, CORS and request validation.
  - The global handler that turns database errors into 500 responses.
- **Endpoints not modelled:**
  - `read_root` reports the environment and logs environment variables.
  - `health_check` runs `SELECT 1` on a session.

  Both are I/O with nothing to prove.
- **Outside this model:**
  - `app/simple.py` is a separate demonstration app.
  - Table creation at import time (`create_all`).
  - Session management (`get_db`).
- **Email validation and normalisation.** `EmailStr` (app/schemas.py:8) is a library type. It rejects malformed addresses, and it also normalises the address before the handler runs: the domain is lower-cased, surrounding whitespace is stripped, and a `Name <addr>` form is cut down to the address. `StudentCreate.email` stands for that already-normalised string. Neither the validation nor the normalisation is modelled, so two requests that differ only in those respects (for example `a@example.com` and `a@Example.COM`) are distinct emails in the model, whereas the service's unique index (app/models.py:10) treats them as one and answers the second with 400 "Email already registered".
- **Logging.** Logging is left out, except for which URL is logged.
- **Outcome of each connection attempt.** Creating the engine and running `SELECT 1` are outside the model, so each attempt's outcome is an input. Any failure, whatever its cause, is a failed attempt.
- **Pool options.** Pre-ping, recycle, pool size and overflow are left out.
- **Sleeps.** `time.sleep(retry_interval)` is counted, not timed.
- **Unreachable `except` at startup.** The `except` branch around startup (app/database.py:96-100) is not modelled: `get_engine` catches every exception itself.
- **`last_exception`.** It is written but never read, so it is not modelled.
- **`Database.LoggedUrlCorrected`.** It is not what the service logs. `Database.LoggedUrl` models the log as written, with `Database.MaskUrl`. The corrected log exists only to state the intended masking, as the Findings row explains.
- **Other database engines.** PostgreSQL behaviour is not modelled:
  - its sequences, which consume an id even when the insert is rolled back;
  - its errors on negative `skip`/`limit`.

  The model follows SQLite.
- **Row order.** Neither the listings (app/main.py:90, 110, 148) nor the relationships (app/models.py:14, 25) have an `ORDER BY`, so SQL leaves the order of the rows unspecified. The model's choice is table order, which is insertion order.
- **Integer width.** Ids, `skip` and `limit` are unbounded integers in the model. SQLite's INTEGER is a signed 64-bit value, so the driver refuses to bind a value outside that range, and the request ends in a 500 that is not modelled. The model instead answers 404, 400 or a listing.
- **Concurrency.** Concurrent requests are not modelled: each handler call runs alone against the tables.
- **Enrollment date.** The date is an input (`today`), not read from the clock.
- **Schema defaults.** The defaults of `description` and of the nested lists are explicit values (`None`, `[]`) in the records.

## Findings

| source | as written | input that shows it | evidently intended | confidence | as-written member | corrected member |
|---|---|---|---|---|---|---|
| app/database.py:18-22 | the URL is split at every '@' and the piece after the first '@' is logged | `postgresql://u@srv:secret@host/db` (a `user@server` user name) is logged as `postgresql:****@srv:secret`, the whole password | mask everything up to the last '@' and log the host: `postgresql:****@host/db` | high; not executed | Database.MaskUrlLeaksPasswordFragment | Database.MaskCredentials |
