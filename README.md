# surprise — a verified model of the quiz back end's route handlers

"surprise" is an Express/MySQL back end for timed quizzes. A user uploads a
PDF, receives a generated set of multiple-choice questions, and starts a
timed test over a snapshot of that set. The test gets a random id and a
six-hex-digit password. Other users join the test with the id and password
until it expires; the owner can regenerate single questions in the meantime,
and the change reaches the owner's unexpired tests. A users table holds
profile columns that are read and written one at a time.

This project models those handlers in Dafny as atomic steps over one
`Store.Database` object. It holds four tables:

- `users`, a map from uid to a user row with its five profile columns;
- `tests`, the sessions in insertion order (tid, owner uid, password,
  question snapshot, expiry time in milliseconds);
- `history`, the join records (tid, uid, joined, joined-at);
- `mcqFiles`, the map from uid to stored question set, which stands in for
  the per-user `./mcqs/<uid>.json` files.

`Database.Valid()` states the database invariant that the handlers preserve:

- test ids are distinct (the UNIQUE constraint);
- every test and history row refers to an existing user, and every history row to an existing test (the foreign keys);
- at most one history row exists per (tid, uid) pair;
- every stored or snapshotted question has four options and an answer index in [0, 4).

The clock (`Date.now()`), the fresh test id (`uuidv4()`), the three random
password bytes (`crypto.randomBytes(3)`) and the draw of `Math.random()` are
parameters. An HTTP error reply is an `Outcomes.Error` value whose `Status()`
is the code the route sends; a missing or falsy request field is the empty
string or `None`.

Modules:

- `outcomes.dfy` (`Outcomes`) holds the option and result types and the error taxonomy.
- `encoding.dfy` (`Encoding`) holds the hex encoding of the password bytes and the decimal rendering of the clock in a regenerated question's text, each with its inverse.
- `store.dfy` (`Store`) holds the rows, the `Database` class and the SQL queries the handlers run.
- `test_routes.dfy` (`TestRoutes`) models start-test, is-test-active and join-test.
- `mcq_routes.dfy` (`McqRoutes`) models question-set generation and regenerate-question.
- `user_routes.dfy` (`UserRoutes`) models the five get- and five set- profile routes, once over a column selector.
- `scenarios.dfy` (`Scenarios`) drives the handlers through a typical life of a test using only their contracts:
  - a second start-test returns the first test's credentials;
  - a join succeeds before expiry and is refused after it;
  - a repeated join keeps one history row;
  - a test keeps its snapshot when the owner regenerates the whole set;
  - a regenerated question reaches a later join;
  - an out-of-range index is refused.

start-test answers 400, not 409, when the user already has an active test
(routes/test.js:45); `ActiveTestExists` has status 400.

## Model

| member | source | states |
|---|---|---|
| TestRoutes.StartTest | routes/test.js:15-86 | Checks in order: uid and a non-zero expiry given (400); user exists (404); no unexpired test of the user (400 with the first such test's id and password); a question set is stored (404); a tid already in the table fails the UNIQUE constraint (500). Every refusal leaves the tests table unchanged. On success exactly one row is appended, with the stored set, the hex password of the three bytes (length 6) and expiry now + minutes·60·1000. The database invariant is kept. |
| TestRoutes.StartedTestIsOnlyActive | routes/test.js:37-50 | After a start at `now` with no earlier active test, the new test is the owner's only active test at every time before its expiry, so a retry in that window is refused with its credentials. |
| TestRoutes.ActiveTestsAppend | routes/test.js:38-41 | The active tests of a table with one more row are the old active tests followed by the new row when it is active. |
| TestRoutes.InsertKeepsValid | routes/test.js:70-73 | Inserting a row with a fresh tid keeps test ids distinct, adds exactly that id, and keeps every history row's tid present. |
| TestRoutes.IsTestActive | routes/test.js:93-116 | 400 exactly when the uid is missing; otherwise true if and only if some test of the user has expiry_time > now. Reads state only. |
| TestRoutes.MarkJoined | routes/test.js:166-169 | Same length; exactly the rows of the (tid, uid) pair become joined at now, and every other row is unchanged. |
| TestRoutes.JoinTest | routes/test.js:123-182 | Checks in order: three fields given (400); a test matches id and password (401); that test has expiry_time > now (400, so a test expiring exactly at now is refused). An insert for a uid not in users fails the foreign key (500). Every refusal leaves history unchanged. On success the history is the upsert of the pair, and the reply carries the test's questions and expiry. The tests table is never written, and the database invariant is kept. |
| TestRoutes.Upsert | routes/test.js:153-170 | The history table after a join (the pair's rows marked joined, or one joined row inserted when it has none) holds a row for the pair joined at now. Its further properties are stated by `TestRoutes.UpsertRecordsJoin` and `TestRoutes.UpsertKeepsJoinsDistinct`. |
| TestRoutes.UpsertRecordsJoin | routes/test.js:153-170 | After the upsert the pair has exactly one row, and it is joined at now. Rows of other pairs are unchanged. The table grows by one only when the pair had no row. |
| TestRoutes.UpsertKeepsJoinsDistinct | routes/test.js:158-170 | The upsert never creates a second row for any (tid, uid) pair. |
| Store.ActiveTests | routes/test.js:38-41 | `SELECT … WHERE uid = ? AND expiry_time > ?`: a row is in the result if and only if it is in the table and is the user's with expiry after now. A non-empty result starts with the first such row in table order. |
| Store.FindTest | routes/test.js:134-137 | `SELECT … WHERE tid = ? AND password = ?`: none if and only if no row matches both. Otherwise a matching row of the table. |
| Store.WithField | routes/user.js:175-178 | Setting one profile column yields that column equal to the value. The other four columns, username, email, password hash and creation time are unchanged. |
| Store.Database.constructor | config/database.js:22-63 | A database over an initial users table with empty tests, history and question files satisfies the invariant. |
| McqRoutes.MockQuestions | routes/mcq.js:38-69 | The mock set has exactly three questions, each with four options and an answer in [0, 4), whatever the PDF. |
| McqRoutes.GenerateMcqs | routes/mcq.js:35-81 | The stored set of uid becomes the mock set, overwriting any earlier one. Other users' sets are untouched, and the result is the set stored. |
| McqRoutes.GenerateAndGetMcq | routes/mcq.js:88-120 | Checks in order: uid (400), uploaded file (400), user exists (404). Refusals store nothing. Otherwise the mock set is stored for uid and returned. No table changes. |
| McqRoutes.RegeneratedQuestion | routes/mcq.js:161-170 | The new question has four options and an answer in [0, 4) for any draw in [0, 1). Its text is "Updated question " followed by exactly `Decimal(now)`, the digits of the clock reading without a leading zero, which parse back to the reading. |
| McqRoutes.RegenerateQuestion | routes/mcq.js:127-190 | Checks in order: uid given and index defined, so index 0 is accepted (400); user exists (404); set stored (404); 0 ≤ index < length (400). Every refusal leaves the stored sets and the tests table unchanged. On success only element `index` is replaced, by the regenerated question; the length and all other elements are kept. The file of uid holds the result, the tests table is the patch of the old one, and the database invariant is kept. |
| McqRoutes.PatchActive | routes/mcq.js:178-182 | `UPDATE tests SET questions = ? WHERE uid = ? AND expiry_time > ?`: same length; exactly the rows of uid with expiry after now get the new set, and every other row is unchanged. |
| McqRoutes.PatchActiveScope | routes/mcq.js:178-182 | After the patch every active test of uid carries the new set. No other user's active tests change, at any time. |
| McqRoutes.JoinSeesRegenerated | routes/mcq.js:178-182 | A join after the patch finds the same row as before. It carries the new set exactly when it is uid's and was active at the regeneration. |
| McqRoutes.PatchActiveKeepsSessions | routes/mcq.js:178-182 | The patch keeps the set of test ids and their distinctness: no session's id changes. |
| McqRoutes.PatchActiveKeepsValid | routes/mcq.js:172-182 | The patch with a well-formed set keeps the tests table's part of the database invariant. |
| UserRoutes.OrNull | routes/user.js:30 | `value \|\| null` is non-null if and only if the value is a non-empty string, and then it is that value. |
| UserRoutes.Lookup | routes/user.js:19-30 | Non-null if and only if the uid has a row whose column is a non-empty string, and then it is that column. |
| UserRoutes.GetProfileField | routes/user.js:11-159 | 400 if and only if the uid is missing. Null for an unknown uid. Otherwise the non-empty column value or null. Reads state only. |
| UserRoutes.SetProfile | routes/user.js:175-178 | `UPDATE users SET <column> = ? WHERE uid = ?`: the same uids; only the row of uid changes, and only in that column. Without such a row the table is unchanged. |
| UserRoutes.GetAfterSet | routes/user.js:166-186 | A get after a set of the same column returns the value set. Every other (uid, column) reads as before. |
| UserRoutes.SetProfileField | routes/user.js:166-294 | With uid or value missing: 400 and no change. For an existing row, a value whose content other than trailing spaces exceeds 255 characters fails the VARCHAR(255) column (config/database.js:29-33), and the catch answers 500 with no change. Otherwise the row's column stores the value, cut to 255 characters when only spaces lie beyond them, and the reply echoes the value as sent. For an unknown uid the reply echoes the value and the table is unchanged. The database invariant is kept. |
| Store.FitsColumnIffSpacesBeyond | config/database.js:29-33 | A VARCHAR(255) profile column accepts a value if and only if every character past the 255th is a space. |
| Store.Fit | config/database.js:29-33 | A value of at most 255 characters is stored whole. A longer accepted value is stored as exactly its first 255 characters, beyond which it holds only spaces. |
| Encoding.Hex | routes/test.js:64 | Two lowercase hex digits per byte, so three bytes give a six-character password. |
| Encoding.UnhexHex | routes/test.js:64 | Decoding the hex password gives back the bytes it was made from. |
| Encoding.HexInjective | routes/test.js:64 | Different random bytes give different passwords. |
| Encoding.Decimal | routes/mcq.js:162 | A clock reading renders as a non-empty string of decimal digits without a leading zero. |
| Encoding.ParseDecimalOfDecimal | routes/mcq.js:162 | The rendered clock reading parses back to the reading. |

## Left out

- routes/auth.js (signup, login) is not part of this model. It is bcrypt hashing and comparison, a foreign library, plus one INSERT or SELECT.
- app.js is not part of this model: middleware, router mounting, directory bootstrapping, and the unused in-memory session maps.
- The multer upload and its PDF mime-type filter are not modelled: `GenerateAndGetMcq` receives the saved path or `None`.
- File-system I/O and JSON serialisation are not modelled: a question set is a value in `mcqFiles`, and the write/read round trip is taken as exact.
- Failures of the file system or of the database connection are not modelled. The 500 replies modelled are those the handlers' own inputs provoke: a duplicate test id, a joiner missing from users, and a profile value whose content other than trailing spaces exceeds 255 characters.
- UserRoutes.SetProfileField: follows MySQL's strict SQL mode. There, excess trailing spaces are cut with a note, as in every mode, and any other content past 255 characters fails the UPDATE. Under a non-strict mode the server would instead store the first 255 characters of any value; that is not modelled. A too-wide value for a uid with no row is taken to match no row and succeed, since no row receives it.
- Each handler is one atomic step. The check-then-insert races between concurrent requests are not modelled.
- `Date.now()`, `uuidv4()`, `crypto.randomBytes(3)` and `Math.random()` are parameters. Their randomness and the uniqueness of generated ids are not modelled: a clashing tid takes the UNIQUE-violation path.
- MySQL's default case-insensitive string comparison is not modelled: uid, tid and password match by exact string equality.
- TestRoutes.StartTest: takes `expiry` as an integer number of minutes. The model does not capture `parseInt` of a string, the truthiness of the string "0", or the NaN expiry a non-numeric string produces.
- Numbers are unbounded integers. JavaScript's 53-bit number precision and MySQL's BIGINT range for `expiry_time` are not modelled.
- McqRoutes.RegenerateQuestion: takes the index as an integer or `None` (undefined). A null, fractional or string index, which JavaScript compares and indexes loosely, is not modelled.
- McqRoutes.RegenerateQuestion: the two `Date.now()` calls, one for the question text and one for the UPDATE, are modelled as one clock reading.
- TestRoutes.JoinTest: `joined_at` is set to the handler's `now`. The database's own CURRENT_TIMESTAMP clock, and the insert path's reliance on the column default, are modelled as that same reading.
- The `created_at` columns of users and tests and the auto-increment `id` columns are left out or kept unchanged; no handler reads them.
- The JSON shape of replies (`{ active: … }`, `{ success: true, name }`, the error messages) is reduced to the `Result` values.
