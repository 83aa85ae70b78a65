# Gymnastics program manager — a Dafny model

This project models the domain layer of a small PHP application for gymnastics clubs:
- the programs a coach offers;
- the gymnasts enrolled in them;
- attendance at sessions, and progress notes with scores;
- the user accounts that log in to the application.

The application keeps four tables: programs, enrolments, attendance and progress.
- Every write operation of `index.php` first builds an ordered list of error messages, and touches a table only when that list is empty.
- Deletes rely on the database's foreign-key cascade.
- `calculateProgress` turns attended sessions into a capped percentage.
- `filterPrograms` combines a substring search with a skill-level match and counts each program's enrolments.
- The read helpers return joined rows, some ordered latest-date first.

`login.php` registers users, with trimmed fields and eight accumulating checks, the last of them for uniqueness. It also logs them in by setting the session.

Layout:
- `php.dfy` (module `Php`) models the PHP built-ins the code leans on:
  - `empty()`, which is true for `""` and `"0"`;
  - `is_numeric` with a numeric comparison, read as a parse to `Option<int>`;
  - `trim()`;
  - `LIKE '%t%'`, read as substring containment.
- `checks.dfy` (module `Checks`) holds the accumulate-then-write pattern. `Failures` is the message list a sequence of checks produces, and `Report` is one step of it.
- `ordering.dfy` (module `Ordering`) gives row order:
  - ids in ascending order, for results with no `ORDER BY`;
  - a stable `ORDER BY date DESC`.
- `gym.dfy` (module `Gym`) holds the pure part of the domain:
  - rows and checks;
  - the error list of each operation;
  - the consistency invariant and the two cascades;
  - the progress and attendance-rate arithmetic;
  - the filter and the ordered reads.
- `gym_store.dfy` (module `GymStore`) is the class `Store`. Its four map fields and four AUTO_INCREMENT counters are updated in place by the seven write operations and read by `FilterPrograms`. Its invariant `Valid` says:
  - every row passed its checks;
  - every foreign key points at a live row;
  - every id lies below its counter.
- `auth.dfy` (module `Auth`) covers registration and login:
  - the error lists of both branches;
  - the class `Accounts`, with the users table, its counter and the session as fields.

`password_hash`, `password_verify` and the `FILTER_VALIDATE_EMAIL` check are library calls. They are parameters of the model: `hash`, `verify` and `isEmail`.

## Model

| member | source | states |
|---|---|---|
| Gym.ProgramErrorsReported | index.php:21-27 | each of the six program messages is in the error list exactly when its field check fails: name, description, coach and contact empty; duration not a positive number; skill level not one of SKILL_LEVELS |
| Gym.ProgramErrorsOrder | index.php:21-31 | the messages appear in the fixed order name, description, coach, contact, duration, skill level, and the list is empty exactly when all six checks pass |
| GymStore.Store.CheckProgram | index.php:21-27 | the step-by-step accumulation yields exactly the program error list, and it is empty exactly when all six checks pass |
| GymStore.Store.AddProgram | index.php:19-39 | fails with the ordered error list and changes nothing, or inserts exactly one checked row under the next id, returns that id, and keeps the tables consistent |
| GymStore.Store.InsertProgram | index.php:34-36 | inserting a checked program under the counter keeps the invariant and changes no other table |
| GymStore.Store.EditProgram | index.php:44-71 | an unknown id gives exactly ["Program not found"] without field checks; otherwise the six checks as in addProgram; on success only that row's six fields change |
| GymStore.Store.DeleteProgram | index.php:76-89 | an unknown id gives "Program not found" and changes nothing; a live id is removed with its enrolments and their attendance and progress rows (the cascade), after which the id is unknown, so a second delete is not found |
| Gym.RemoveProgramCascades | index.php:84-86 | the program cascade keeps every foreign key live, removes exactly the program, its enrolments and their attendance and progress rows, and leaves every other row as it was |
| Gym.EnrolmentErrorsSpec | index.php:96-118 | name, age (numeric and within [5,100]), experience level and program existence are reported exactly when they fail; the level mismatch is reported exactly when those pass and the levels differ, and then alone; the list is empty exactly when the enrolment may be written |
| Gym.EnrolmentErrorsOrder | index.php:96-118 | the enrolment messages keep the order name, age, level, program, mismatch |
| GymStore.Store.CheckEnrolment | index.php:96-112 | the accumulation of the four field checks yields exactly their error list, empty exactly when all four pass |
| GymStore.Store.EnrolGymnast | index.php:94-134 | fails with exactly the enrolment error list and changes nothing, or inserts exactly one enrolment whose level matches its program, returns its id and a message naming the gymnast and the program |
| GymStore.Store.InsertEnrolment | index.php:121-123 | inserting a checked enrolment of a live program keeps the invariant and changes no other table |
| Gym.EnrolmentMessageNotifies | index.php:130-133 | the success message contains "New enrolment: <name> has enrolled in <program name>" |
| GymStore.Store.DeleteEnrolment | index.php:139-152 | an unknown id gives "Enrolment not found" and changes nothing; a live id is removed with its attendance and progress rows, after which it is unknown |
| Gym.RemoveEnrolmentCascades | index.php:147-149 | the enrolment cascade keeps the tables consistent, removes exactly the enrolment and the rows that refer to it, and leaves every other row as it was |
| Gym.AttendanceErrorsSpec | index.php:159-171 | "Session date is required" and "Enrolment not found" are reported exactly when the date is empty and the enrolment is missing, in that order; the row is written only when both pass |
| GymStore.Store.CheckAttendance | index.php:159-167 | the accumulation of the two attendance checks yields exactly their error list, empty exactly when both pass |
| GymStore.Store.MarkAttendance | index.php:157-178 | fails with exactly the attendance error list and changes nothing, or appends exactly one attendance row with `attended` stored as 1 or 0 |
| GymStore.Store.InsertAttendance | index.php:174-175 | inserting a dated 0/1 row of a live enrolment keeps the invariant and changes no other table |
| Gym.ProgressErrorsSpec | index.php:185-199 | date, notes, score (numeric and within [0,100]) and enrolment existence are reported exactly when they fail, in that order; the record is written only when all pass |
| GymStore.Store.CheckProgress | index.php:185-195 | the accumulation of the four progress checks yields exactly their error list, empty exactly when all pass |
| GymStore.Store.RecordProgress | index.php:183-206 | fails with exactly the progress error list and changes nothing, or appends exactly one progress record holding the parsed score |
| GymStore.Store.InsertProgress | index.php:202-203 | inserting a checked record of a live enrolment keeps the invariant and changes no other table |
| Gym.RoundedPercent | index.php:231 | the result is the integer nearest to 100·part/whole, halves rounded up |
| Gym.RoundedPercentMonotonic | index.php:231 | a larger share never rounds to a smaller percentage |
| Gym.RoundedPercentOfWhole | index.php:231 | a part no larger than the whole rounds to at most 100, a part at least the whole to at least 100, and 0 to 0 |
| Gym.ProgressPercentMonotonic | index.php:230-234 | the capped percentage never decreases as the attended count grows |
| Gym.ProgressPercentBounds | index.php:230-234 | the capped percentage lies in [0,100], is 0 with no attended session and 100 once the attended sessions reach a positive duration |
| Gym.CalculateProgress | index.php:211-235 | for a found enrolment with a positive duration the progress is min(100, the nearest integer to 100·attended/duration), counting attended = 1 rows only; it is 0 for an unknown enrolment, a non-positive duration or no attended session, lies in [0,100], and is 100 once the attended sessions reach the duration |
| Gym.AttendanceNeverLowersProgress | index.php:223-231 | adding an attendance row never lowers any enrolment's progress |
| Gym.AttendanceRate | index.php:542-544 | over a non-empty table the rate is the nearest integer to 100·attended/total (halves up); it lies in [0,100], is 0 with no attended session or no rows, and 100 when every row is attended |
| Gym.ProgramQuery | index.php:250-277 | one row per program satisfying every WHERE fragment, carrying the program and its number of enrolments, in ascending id order |
| GymStore.Store.FilterPrograms | index.php:249-278 | a program is listed exactly when it passes the search (name, description or coach name contains the term, when given) AND the exact level match (when given), with its enrolment count; with both filters empty every program is listed |
| Ordering.Select | index.php:250-277 | the rows a query selects are exactly the ids the row picker accepts, each with its value, in ascending id order |
| Gym.AttendanceRecords | index.php:283-287 | exactly the attendance rows of the given enrolment, each once, latest session date first |
| Ordering.SortByDateDesc | index.php:284 | the result is ordered latest date first and is a permutation of the input |
| Ordering.InsertKeepsOrder | index.php:284 | inserting a row into a latest-first list keeps it latest-first |
| Ordering.SortKeepsUniqueIds | index.php:284 | sorting neither duplicates nor merges rows |
| Ordering.DateLeqTotal | index.php:284 | any two date strings are ordered one way or the other |
| Ordering.DateLeqTransitive | index.php:284 | the date order is transitive |
| Gym.AllEnrolments | index.php:301-306 | exactly the enrolments whose program exists, each with that program's name, in id order |
| Gym.AllProgress | index.php:311-319 | exactly the progress records joined to their enrolment and program, each once, latest session first |
| Gym.AllProgressJoin | index.php:312-315 | a listed progress row carries its record, the gymnast of its enrolment and the name of that enrolment's program |
| Php.ParseNumericRoundTrip | index.php:26 | the decimal text of any integer is numeric and parses back to that integer |
| Php.TrimSpec | login.php:28-32 | trim keeps a contiguous middle part that neither starts nor ends with a strippable character, and drops only strippable characters |
| Php.TrimIdempotent | login.php:28-32 | trimming a trimmed string changes nothing |
| Checks.FailuresSpec | index.php:21-31 | the accumulated errors keep the checks' order, contain exactly the messages of failed checks, and are empty exactly when no check fails |
| Checks.FailuresSnoc | index.php:21-27 | running one more check appends its message exactly when it fails |
| Checks.Report | index.php:22 | one accumulation step appends the message of a failed check and leaves the list as it was otherwise |
| Auth.RegistrationChecksReported | login.php:35-56 | each of the eight registration messages is reported exactly when its check fails |
| Auth.RegistrationChecksOrder | login.php:35-56 | the messages keep the order username, email, password, full name, email format, length, mismatch, duplicate; the list is empty exactly when all eight pass |
| Auth.RegistrationErrorsSpec | login.php:27-56 | over the submitted form: username, email and full name are checked after trimming, the passwords untrimmed; a 5-character password fails the length check and a 6-character one passes; a clash with any user's username or email is reported |
| Auth.BlankEmailReportedTwice | login.php:35-42 | a blank email is reported both as missing and as malformed |
| Auth.RegistrationKeepsAccountsUnique | login.php:52-64 | inserting after a check with no error keeps usernames and emails unique |
| Auth.Accounts.CheckRegistration | login.php:35-56 | the step-by-step accumulation yields exactly the eight checks' error list, empty exactly when all pass |
| Auth.Accounts.ValidateRegistration | login.php:27-56 | trimming, the existence lookup and the checks yield exactly the registration error list for the submitted form |
| Auth.Accounts.Register | login.php:27-68 | fails with exactly the registration errors and changes nothing, or inserts one user with the trimmed fields, the hash of the password and the default role, keeping accounts unique |
| Auth.Accounts.InsertUser | login.php:60-61 | inserting a non-clashing user under the counter keeps the invariant and leaves the session alone |
| Auth.LoginChecksErrors | login.php:75-76 | the login form reports a missing username, then a missing password |
| Auth.FindUser | login.php:79-81 | the lookup finds a user with that username, or reports that there is none |
| Auth.FindUniqueUser | login.php:79-81 | with unique usernames the lookup finds the one user of that name |
| Auth.LoginSpec | login.php:71-96 | login is granted exactly when both fields are given and a user of that username verifies the password, and then to that user; empty fields give exactly the required-field errors with no lookup; otherwise the one message "Invalid username or password" for an unknown user and a wrong password alike |
| Auth.LoginGranted | login.php:79-84 | a complete form whose user is found and verifies is granted to that user |
| Auth.RegisterThenLogin | login.php:27-96 | a freshly registered user logs in with the same username and password when verify accepts its own hash |
| Auth.Accounts.Login | login.php:71-96 | the outcome is the login decision; on success the session holds the user's id, username, full name, role and logged-in flag; on failure the session is unchanged; the users table never changes |

## Left out

- HTML, CSS and JavaScript rendering, tab switching and the unescaped echo of messages are presentation only.
- Session start, the login guard, redirects, `exit` and logout are HTTP plumbing. Login's session writes are modelled as one record field.
- The PDO connection, the SQL text and `CREATE TABLE` are not modelled. Tables are maps, queries are functions over them, and foreign-key cascades are spelled out as `RemoveProgram` and `RemoveEnrolment`.
- The POST dispatch of `index.php` is not modelled. Its values, including defaults such as an empty string, are passed directly as string parameters.
- `password_hash`, `password_verify` and `FILTER_VALIDATE_EMAIL` are uninterpreted function parameters. The salt of `password_hash` and the hash format are not modelled.
- Floating-point division and PHP `round` become exact integer rounding, halves up. For non-negative values this is what `round` computes on exact arithmetic; float error is not modelled.
- `LIKE` collation, case-insensitivity and `%`/`_` inside the search term are not modelled. The search is plain substring containment.
- `is_numeric` is modelled for optionally signed decimal integers. Decimals, exponents, surrounding whitespace and hexadecimal strings are not modelled, so they are treated as non-numeric.
- Form ids that are not numbers are modelled as ids not in the table.
- `strlen` counts characters here, not bytes, so multi-byte passwords are not modelled.
- MySQL's case-insensitive comparison in the uniqueness lookup and the `UNIQUE` constraints is not modelled. Usernames and emails compare exactly.
- `DATE` normalisation is not modelled. Session dates are the submitted strings, ordered character by character, which is chronological for `YYYY-MM-DD`.
- Ties between equal dates come out in ascending id order; the database does not fix this order.
- Rows without `ORDER BY` come out in ascending id order.
- Races between the validation reads and the writes are not modelled: each operation is atomic here.
- A failing `INSERT` ("Registration failed. Please try again.") is a database fault and is not modelled.
- The `recordedAt`, `created_at` and `updated_at` timestamps are clock values and are not modelled.
- `getProgramEnrolments` and `getAllPrograms` are one-line selects outside the modelled core.
- `attended` is the submitted checkbox value, a string, with "" when absent. It is stored as 0 exactly when PHP's truthiness makes it false, which is `empty()`.
- Gym.AttendanceRate: requires every stored `attended` to be 0 or 1, which the store's invariant guarantees; only then does `SUM(attended)` equal the number of attended rows.
- markAttendance checks only the session date and the enrolment. Notes and score belong to recordProgress, and the model follows the code.
