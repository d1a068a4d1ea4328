# Task manager backend: a Dafny model

This project models the core of a small task-manager web service. The
service is written in JavaScript on Express and Sequelize, over PostgreSQL.
The model covers:

- **The task handlers.** These list, read, create, patch the status of,
  update and delete a user's tasks.
- **The hourly sweep.** It alerts the owners of tasks that fell due in the
  last hour and deletes those tasks.
- **The email validator** used at signup.
- **The address guard** of the due-task mailer.
- **The signup and login chains.**
- **Bearer-token parsing** in the authentication middleware.
- **The two table schemas.**

## Modules

| module | file | what it models |
|---|---|---|
| `Js` | js.dfy | JavaScript values and runtime pieces the handlers rely on: truthiness, `??`, `String(v)` (arrays through `join`), `trim()`, ASCII `toLowerCase()`, `startsWith()`, `split(" ")` |
| `Http` | http.dfy | A handler's answer: an HTTP code with a payload, or an error kind |
| `Models` | models.dfy | The Task and User rows, and the Task attribute object (its repeated `status` key). Also what the schema accepts: the ENUM, notEmpty, TEXT and VARCHAR(255) columns, and `new Date(v)` |
| `Db` | store.dfy | A class holding the two tables, with the Sequelize calls the core uses. Its invariant covers primary keys, column constraints, the foreign key and unique emails |
| `Validation` | validation.dfy | `validateEmail`: each group of its regular expression as a predicate |
| `SendEmail` | send_email.dfy | `sendDueTaskEmail`: the "Not Set" date, the unanchored address guard, the message, and a mailer class that records what it is handed |
| `DueTasks` | check_due_tasks.dfy | `isPastDue`, the sweep's window, and one sweep cycle as a loop over the query's rows |
| `TaskControllers` | task_controllers.dfy | The six task handlers |
| `AuthControllers` | auth_controllers.dfy | `signup` and `login` |
| `Middleware` | middleware.dfy | `verifyAccessToken` |

## Modelling conventions

- **Request bodies.** Request bodies are JSON values (`Js.JsValue`),
  arrays included. Every check on `!x`, `typeof x` and `x ?? y` is written
  out over them.
- **Replies.** Every controller returns `Http.Reply`: `Done(code, payload)`
  or `Refused(code, kind)`. The middleware returns `Middleware.Outcome`
  instead: `Answered(code, kind)` or `Passed`. The message text is not
  modelled.
- **The database.** The tables are the `Db.Store` class. Its fields are
  updated in place, and every handler keeps `Store.Valid()`.
- **Schema rejections.** A row the schema refuses becomes the `None` result
  of `Store.CreateTask`, `Store.UpdateTask` or `Store.CreateUser`. This is
  where Sequelize throws, and the handler's catch block answers 500.
- **Ids and times.** Ids are naturals taken from a counter. Times are
  integers of milliseconds.
- **Parameters for what the code cannot see.** The following are passed in
  as parameters:
  - the clock;
  - JavaScript's date-string parser;
  - bcrypt;
  - the token signer and `jwt.verify`;
  - the mail transport's failures;
  - faults of the sweep's query and deletes.

### Behaviours worth knowing

- **Email lookup.** Signup's duplicate check and login's lookup compare
  emails exactly, with case significant.
- **Patch statuses.** `patchTaskStatus` checks the status against a list
  that spells "inprogress"; the ENUM column spells "inProgress". See
  Findings.
- **Non-owner delete.** `deleteTask` looks the task up by id and owner
  together, so a task the caller does not own answers 404.
- **Delete eligibility.** No task can be deleted through `deleteTask`. See
  Findings.

## Model

| member | source | states |
|---|---|---|
| `Js.Trim` | controllers/taskControllers.js:93 | trim() yields a slice of the input with only whitespace cut at both ends; it is empty exactly when the input is all whitespace |
| `Js.TrimIdempotent` | controllers/taskControllers.js:93 | trimming twice is trimming once |
| `Js.TrimLowerCommute` | controllers/taskControllers.js:93 | `s.trim().toLowerCase()` equals `s.toLowerCase().trim()` |
| `Js.ToLower` | utils/validation.js:9-10 | toLowerCase keeps the length and maps each character by itself |
| `Js.ToJsString` | utils/validation.js:9 | String(v) is the string itself for strings, an array's elements joined by commas for arrays, and text without '@' for every other value |
| `Js.SingletonArrayString` | utils/validation.js:9 | a one-element array has its element's String() form (null and undefined give "") |
| `Js.ArrayStringIsJoin` | utils/validation.js:9 | an array's String() is its elements' forms joined by commas, null and undefined as "" |
| `Js.ArrayStringSplits` | utils/validation.js:9 | splitting an array's String() at commas gives back each element's form, when none holds a comma |
| `Js.SplitOfJoin` | middlewares/index.js:13 | `split(c)` undoes joining with c when no field holds c |
| `Js.SplitCons` | middlewares/index.js:13 | a separator-free prefix and one separator split off as the first field |
| `Js.NullishIsFalsy` | controllers/taskControllers.js:153-155 | a value `??` replaces is always falsy, and a truthy value is never replaced |
| `Js.SplitJoin` | middlewares/index.js:13 | joining the fields of `split(c)` with c gives the string back |
| `Js.SplitSecond` | middlewares/index.js:13 | when the separator occurs, field [1] is what lies between its first and second occurrence |
| `Models.ParseStatus` | models/Task.js:40-43 | a string the ENUM column accepts is the exact spelling of the status it stores |
| `Models.ParseStatusName` | models/Task.js:40-43 | every status is read back from its spelling as itself |
| `Models.ObjectLiteral` | models/Task.js:9-44 | the keys of an object literal are exactly the keys of its entries |
| `Models.LastKeyWins` | models/Task.js:36-43 | a key not repeated later holds its entry's value: the last entry of a repeated key wins |
| `Models.StatusColumnIsEnum` | models/Task.js:36-43 | the status column in effect is the ENUM with default "pending", never the BOOLEAN written before it |
| `Models.ParseStatusMatchesSchema` | models/Task.js:41 | a status string is stored exactly when it is one of the ENUM values in effect |
| `Models.StoredText` | models/Task.js:25-31 | the TEXT column takes strings, numbers and booleans in their String() form and refuses null, a missing value, objects and arrays |
| `Models.NewDate` | controllers/taskControllers.js:111 | `new Date(v)` lies within ±8.64e15 ms; a number in that range is its own instant; null is the epoch; a missing value is an Invalid Date |
| `Models.ObjectDateParsesString` | controllers/taskControllers.js:111 | `new Date` of an object or an array parses that value's String() form |
| `Models.SingletonArrayDate` | controllers/taskControllers.js:111 | `new Date(["2024-06-01"])` is `new Date("2024-06-01")` |
| `Models.ValidateTask` | models/Task.js:16-43 | a row is accepted exactly when its description has a non-blank text form and its status is absent (default pending) or an ENUM spelling; the row holds those values |
| `Db.Store.FindTask` | controllers/taskControllers.js:31-33 | `findOne({ where: { id, userId } })` finds the task only when that user owns it |
| `Db.Store.FindAll` | controllers/taskControllers.js:10-12 | findAll returns exactly the ids of the rows meeting the condition, each once |
| `Db.Store.FindUserByEmail` | controllers/authControllers.js:38 | finds a user exactly when one is registered under that exact email |
| `Db.Store.CreateTask` | controllers/taskControllers.js:108-112 | create fails exactly when the schema or the foreign key refuses the row; otherwise adds it under a fresh id and keeps the invariant |
| `Db.Store.UpdateTask` | controllers/taskControllers.js:152-156 | update stores the validated row in place, or changes nothing when validation fails |
| `Db.Store.DestroyTask` | controllers/taskControllers.js:183 | destroy removes that row and nothing else |
| `Db.Store.CreateUser` | controllers/authControllers.js:52 | create fails exactly on a blank or overlong field, an email isEmail refuses, or an email already taken; otherwise adds one user |
| `Db.Store.DestroyUser` | models/Task.js:16-24 | deleting a user removes exactly that user's tasks with it (ON DELETE CASCADE) |
| `Validation.DotJoinedShape` | utils/validation.js:12 | `c+(\.c+)*` is exactly: class characters and dots, no dot at either end and no two dots in a row |
| `Validation.HostNameShape` | utils/validation.js:12 | `([a-z0-9-]+\.)+[a-z]{2,}` is exactly: dot-separated labels, then a dot and at least two letters |
| `Validation.HostNameEnd` | utils/validation.js:12 | a host name is at least four characters long and ends in two letters |
| `Validation.DomainNoAt` | utils/validation.js:12 | neither domain form contains '@' |
| `Validation.SplitAtLastAt` | utils/validation.js:12 | with an '@'-free domain, the anchored pattern accepts `local@domain` exactly when the local part and domain match |
| `Validation.OnlyAt` | utils/validation.js:12 | in `local@domain` the last '@' is the one before the domain |
| `Validation.ValidateEmailIgnoresCase` | utils/validation.js:9-10 | an input and its lower-case form are accepted alike |
| `Validation.NonStringsRejected` | utils/validation.js:9 | a non-string that is not an array (null becomes "null") is always rejected |
| `Validation.SingletonArrayValidated` | utils/validation.js:9-12 | a one-element array is accepted exactly when its element is |
| `Validation.ArrayAccepted` | utils/validation.js:9-12 | `["a@b.co"]` is accepted |
| `Validation.TwoElementArrayRejected` | utils/validation.js:9-12 | two addresses in an array join with a comma, which no local part admits, so they are rejected |
| `Validation.LocalPartNoComma` | utils/validation.js:12 | outside quotes a local part holds no comma |
| `Validation.NoDotRejected` | utils/validation.js:12 | "a@localhost" is rejected |
| `Validation.ShortTopLevelRejected` | utils/validation.js:12 | "a@b.c" is rejected: the last label needs two letters |
| `Validation.HostAccepted` | utils/validation.js:12 | "a@b.co" is accepted |
| `Validation.UpperCaseAccepted` | utils/validation.js:9-12 | "A@B.CO" is accepted |
| `Validation.JoinDigitGroups` | utils/validation.js:12 | groups of one to three digits joined by dots form that many groups |
| `Validation.IpLiteralAccepted` | utils/validation.js:12 | any four groups of one to three digits in brackets form a domain; there is no 0-255 range check |
| `Validation.QuotedExample` | utils/validation.js:12 | a quoted local part may hold spaces and '@' |
| `SendEmail.FormatDue` | utils/sendEmail.js:31-36 | the date line is "Not Set" exactly when `new Date(dueDate)` is invalid, and otherwise the instant |
| `SendEmail.MissingDueDateNotSet` | utils/sendEmail.js:31-36 | a missing date renders as "Not Set", null as the epoch |
| `SendEmail.AddressGuardMarks` | utils/sendEmail.js:38 | `/\S+@\S+\.\S+/` matches somewhere exactly when there is an '@' with a non-space before it, then non-spaces up to a '.', then a non-space |
| `SendEmail.GuardUnanchored` | utils/sendEmail.js:38 | text before and after a matching address does not stop the match |
| `SendEmail.GuardExample` | utils/sendEmail.js:38 | "x a@b.c y" passes the guard |
| `SendEmail.GuardNeedsAtThenDot` | utils/sendEmail.js:38 | whatever passes holds an '@' and a later '.' |
| `SendEmail.MarksIgnoreCase` | utils/sendEmail.js:38 | lowercasing does not move the guard's marks |
| `SendEmail.ValidatedEmailPassesGuard` | utils/sendEmail.js:38 | every address validateEmail accepts passes the mail guard |
| `SendEmail.DueTaskMail` | utils/sendEmail.js:38-54 | a message is built exactly when `to` is non-empty and passes the guard; it goes to `to` with the fixed subject, the task and the date line |
| `SendEmail.Mailer.SendDueTaskEmail` | utils/sendEmail.js:29-61 | the call always returns normally; it hands the transport exactly the message of DueTaskMail, and a transport failure only loses that delivery |
| `DueTasks.PastDueStays` | cron/checkDueTasks.js:10-11 | a past-due date stays past due as time goes on |
| `DueTasks.SelectedIsDue` | cron/checkDueTasks.js:18-28 | a selected task is due at or before the cycle's instant |
| `DueTasks.ConsecutiveCyclesCover` | cron/checkDueTasks.js:18-28 | two cycles an hour apart select every unfinished task due between them, and one due at the boundary twice |
| `DueTasks.OwnerEmail` | cron/checkDueTasks.js:29 | the included owner email is present exactly when the owner row exists |
| `DueTasks.Emailed` | cron/checkDueTasks.js:38-42 | the rows that reach the alert are exactly the rows whose owner has an email |
| `DueTasks.RunSpec` | cron/checkDueTasks.js:37-55 | a cycle alerts and then deletes the emailed rows in query order; a throwing delete ends it after that row's alert, and earlier deletions stay |
| `DueTasks.NoEmailUntouched` | cron/checkDueTasks.js:38-42 | a task whose owner has no email is never deleted |
| `DueTasks.AbortedStays` | cron/checkDueTasks.js:21-58 | once the cycle has stopped, later rows change nothing |
| `DueTasks.ValidStoreRowsHaveEmail` | cron/checkDueTasks.js:38-42 | in a valid store every task's owner has a non-empty email, so the skip branch is never taken |
| `DueTasks.RowsOf` | cron/checkDueTasks.js:22-30 | each row carries the stored task for its id and that task's owner email |
| `DueTasks.ProcessRow` | cron/checkDueTasks.js:38-54 | one iteration: a row with an owner email is mailed, then its task is destroyed unless the destroy throws; the store and mailer keep tracking the outcome |
| `DueTasks.SelectedRows` | cron/checkDueTasks.js:22-30 | the query's rows are the selected tasks, each exactly once, each with its stored value and its owner's email |
| `DueTasks.ProcessRows` | cron/checkDueTasks.js:37-55 | the loop leaves the outcome of RunSpec: it deletes exactly those tasks, and the mailer records exactly those alerts and mails |
| `DueTasks.SweepCycle` | cron/checkDueTasks.js:18-58 | a failing query changes nothing; otherwise the rows are exactly the selected tasks, and the cycle's effect on the store and the mailer is that of its rows |
| `TaskControllers.NormalizeIdempotent` | controllers/taskControllers.js:93 | a normalised description is its own normal form |
| `TaskControllers.NormalizeIgnoresCase` | controllers/taskControllers.js:92-93 | descriptions that differ only in case normalise alike |
| `TaskControllers.NormalizeBlank` | controllers/taskControllers.js:93 | the normal form passes notEmpty exactly when the description is not blank |
| `TaskControllers.StatusListsDisagree` | controllers/taskControllers.js:53 | patch accepts "inprogress", which the ENUM refuses, and refuses "inProgress"; put's list is exactly the ENUM |
| `TaskControllers.DueDateField` | controllers/taskControllers.js:111 | a falsy date keeps the fallback; only a truthy one can be invalid; a number in range is that instant |
| `TaskControllers.PatchChangesOnlyStatus` | controllers/taskControllers.js:69-70 | saving a patched status changes the status and nothing else, except that "inprogress" is refused |
| `TaskControllers.PatchNeverStoresInProgress` | controllers/taskControllers.js:53-70 | no patch leaves a task in progress |
| `TaskControllers.PutKeepsOmittedStatus` | controllers/taskControllers.js:155 | a null or missing status keeps the stored status, and only the description can then make the update fail |
| `TaskControllers.PutKeepsOmittedDescription` | controllers/taskControllers.js:153 | a null or missing description keeps the stored description, and only the status can then make the update fail |
| `TaskControllers.PutKeepsOmittedDueDate` | controllers/taskControllers.js:154 | a falsy dueDate keeps the stored date |
| `TaskControllers.PutKeepsRawDescription` | controllers/taskControllers.js:153 | put stores a new description as sent, neither trimmed nor lowercased |
| `TaskControllers.DeleteGuardAsWritten` | controllers/taskControllers.js:180 | as written the guard refuses unfinished tasks and throws for completed ones; it never lets a deletion through |
| `TaskControllers.DeleteGuardInScope` | controllers/taskControllers.js:180 | with isPastDue in scope the guard lets exactly the completed, past-due tasks through |
| `TaskControllers.TasksAt` | controllers/taskControllers.js:10-12 | the listed tasks are the stored rows of the found ids, in order |
| `TaskControllers.OwnTasksListed` | controllers/taskControllers.js:10-20 | the listed tasks are exactly the caller's rows, each once, and the list is empty exactly when the caller has none |
| `TaskControllers.GetTasks` | controllers/taskControllers.js:7-25 | only the caller's tasks, all of them, each once; 404 with an empty list exactly when there are none |
| `TaskControllers.GetTask` | controllers/taskControllers.js:27-47 | the task comes back exactly when the caller owns it; otherwise 400 |
| `TaskControllers.PatchStatusWith` | controllers/taskControllers.js:50-77 | list check (400), existence (404), ownership (403), then a status-only save or 500; a refusal changes nothing |
| `TaskControllers.PatchTaskStatus` | controllers/taskControllers.js:50-77 | "inProgress" is refused with 400 and "inprogress" ends in 500; any other accepted status is written alone |
| `TaskControllers.PatchTaskStatusIntended` | controllers/taskControllers.js:137 | with the ENUM list every accepted status is written and there is no 500 |
| `TaskControllers.PutStatusWritten` | controllers/taskControllers.js:137-155 | every status of the ENUM list is saved as that status |
| `TaskControllers.PostTask` | controllers/taskControllers.js:80-121 | falsy description 400, non-string 500, duplicate 400; success exactly for a non-blank string, no duplicate, a valid date and an existing owner; creates one pending task with the normal form |
| `TaskControllers.CreateOwnTask` | controllers/taskControllers.js:108-115 | after the duplicate check, the created task is the owner's only one with that description |
| `TaskControllers.UniqueAfterCreate` | controllers/taskControllers.js:96-112 | adding a description the owner does not yet use leaves one task with it |
| `TaskControllers.PutTask` | controllers/taskControllers.js:125-164 | nothing to update 400 and bad status 400 before the lookup, 404 for a non-owner, then the merged row or 500; a refusal changes nothing |
| `TaskControllers.DeleteWithGuard` | controllers/taskControllers.js:167-190 | 404, then the guard: 400 when it holds, 500 when it throws, otherwise that task alone is destroyed |
| `TaskControllers.DeleteTask` | controllers/taskControllers.js:167-190 | as written: no task is ever removed; 404, 400 for unfinished tasks, 500 for completed ones |
| `TaskControllers.DeleteTaskIntended` | controllers/taskControllers.js:180-185 | with isPastDue imported, the caller's task is deleted exactly when completed and past due |
| `AuthControllers.SignupRefusal` | controllers/authControllers.js:14-34 | the pre-store checks pass exactly for three present strings with a password of four or more characters and a valid email; missing fields are reported first |
| `AuthControllers.ShortPasswordRefused` | controllers/authControllers.js:25-28 | a password under four characters is refused |
| `AuthControllers.NumericPasswordRefused` | controllers/authControllers.js:20-22 | a number sent as the password is refused as not a string |
| `AuthControllers.Signup` | controllers/authControllers.js:8-59 | checks in source order; once the pre-store checks pass and the email is free, every failure (a falsy hash or a refused create) answers 500; success exactly when all pass and the row is accepted, adding exactly one user that holds the hash |
| `AuthControllers.Login` | controllers/authControllers.js:62-98 | email without password answers 200 with status false; missing email 400; unknown 400; a registered string email with a non-string password 500 (bcrypt.compare throws); a string password the stored hash refuses 400 with the wrong-password kind; success exactly when the password matches the stored hash, with a token minted for the user's id |
| `AuthControllers.OnlyUserWithEmail` | models/User.js:17-24 | emails are unique, so the user found by email is the only one |
| `Middleware.BearerToken` | middlewares/index.js:9-13 | a token exists exactly when the header starts with "Bearer "; it is the text after the first space up to the next |
| `Middleware.BearerRoundTrip` | middlewares/index.js:13 | "Bearer " plus a space-free token yields the token |
| `Middleware.BearerFirstField` | middlewares/index.js:13 | "Bearer a b" yields "a" |
| `Middleware.BearerDoubleSpace` | middlewares/index.js:13 | "Bearer  x" yields "" |
| `Middleware.LowerCaseSchemeRefused` | middlewares/index.js:9 | "bearer " is refused: the prefix test is case-sensitive |
| `Middleware.VerifyAccessToken` | middlewares/index.js:6-35 | 400, then 401 for a refused token, then 401 for a payload without an id (findByPk(undefined) resolves to null without a query), then 500 for a failing lookup or 401 for an unknown id; on success req.user is the stored user and next() runs exactly once |

## Left out

- **Express wiring and bootstrap.** Routing, Swagger comments, helmet, cors, compression, rate limiting, connecting and syncing the database, and `process.exit` are not logic the core depends on.
- **The express-validator chains on the auth routes.** The controllers never read their results, so they have no effect.
- **Logging.** The logger is left out.
- **profileControllers.js.** It is a single store read and is not part of this model.
- **The scheduler.** node-cron and overlapping asynchronous cycles are left out; one cycle is one call of `DueTasks.SweepCycle` at a given instant.
- **Date parsing and formatting.** JavaScript date-string parsing is a parameter. The `toLocaleString` rendering in the Africa/Lagos time zone is replaced by the instant itself.
- **External libraries.**
  - bcrypt hashing and comparison, JWT signing and verification, and Sequelize's `isEmail` are parameters.
  - `validateObjectId` (a uuid wrapper) is not modelled; the handlers never call it.
- **Malformed ids.** The handlers pass `req.params.id` straight to `findOne` and `findByPk`. A malformed id, which PostgreSQL refuses for the UUID column (500), is not modelled: ids are naturals from a counter.
- **The mail transport.** Its set-up and `transporter.verify` are I/O. A transport failure is a parameter, and the sender address (read from the environment) is not part of `SendEmail.Mail`.
- **Store errors.** A failure of the store's connection or of a query inside the handlers (their catch blocks for arbitrary errors) is not modelled. Only these store faults are modelled:
  - faults of the sweep's query and deletes;
  - the middleware's lookup failure;
  - schema and constraint rejections.
- **The `createdAt` and `updatedAt` columns** are not modelled.
- **`Js.ToJsString`** writes every integer in full. JavaScript writes a number of 1e21 or more in exponent form (`String(1e21)` is "1e+21"), so a description that large is stored with different text. `Js.JsValue` numbers are also unbounded, while a JavaScript number holds integers exactly only up to 2^53.
- **`Models.NewDate`** and the `dueDate` column accept every instant within ±8.64e15 ms. PostgreSQL's timestamptz column starts in 4713 BC (about -2.1e14 ms), so an earlier due date that the model stores (201) would make the insert fail (500).
- **`Js.ToLower`** maps ASCII letters only; full Unicode case mapping is not modelled. `Js.JsValue` numbers are integers: fractions, NaN and infinities are not modelled.
- **Character counts.** Password length and VARCHAR(255) count Dafny characters (Unicode scalar values), not UTF-16 code units.
- **`Validation.NonStringsRejected`** covers the non-strings other than arrays, because an array's String() is the comma-join of its elements and can be a valid address; arrays are covered by `Validation.SingletonArrayValidated` and `Validation.TwoElementArrayRejected`.
- **Object members.** An object's members are not modelled: every object converts to "[object Object]", which is what String() gives for the plain objects a JSON body holds.
- **`Models.ValidateTask`.** It refuses any status that is not a string. A null status would be allowed by the column, but the handlers never write one.
- **`AuthControllers.Login`.** A present email that is not a string is modelled as a failing lookup (500); the SQL Sequelize would generate for it is not modelled.
- **The response bodies' message text.** It is reduced to `Http.ErrorKind`; the JSON status flag is the `Done`/`Refused` distinction (except the 404 of getTasks, which carries `status: true` and is `Done(404, [])`).

## Findings

| source | as written | input that shows it | evidently intended | confidence | as-written member | corrected member |
|---|---|---|---|---|---|---|
| controllers/taskControllers.js:180 | the guard calls `isPastDue`, which is never imported into this file (line 4 only runs the cron module); for a completed task the call throws and the handler answers 500, so no task is ever deleted | a completed, past-due task owned by the caller: the answer is 500 and the task stays | `isPastDue` in scope, so the guard as parsed (`status !== "completed" \|\| !isPastDue(dueDate)`) lets exactly completed, past-due tasks be deleted | high; not executed | `TaskControllers.DeleteTask` | `TaskControllers.DeleteTaskIntended` |
| controllers/taskControllers.js:53 | the allowed list spells "inprogress", but the ENUM column and putTask spell "inProgress" | status "inProgress" is refused with 400; status "inprogress" passes the check and the save throws (500) | the ENUM spellings, as in putTask's list at line 137 | high; not executed | `TaskControllers.PatchTaskStatus` | `TaskControllers.PatchTaskStatusIntended` |

The error message of the delete guard ("neither completed nor past due")
suggests a looser rule: delete when completed *or* past due. The corrected
member keeps the guard as the code parses it and adds only the missing
import.
