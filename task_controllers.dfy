/** The task request handlers (controllers/taskControllers.js). Each runs
    for an authenticated caller `uid` (req.user.id) against the store and
    answers with an HTTP code and either a payload or an error kind. The
    request body's fields arrive as JSON values. */
module TaskControllers {
  import opened Js
  import opened Http
  import opened Models
  import opened Db
  import DueTasks

  // ---------------------------------------------------------------------
  // The pure pieces of the handlers

  /** `s.trim().toLowerCase()`: the stored form of a new description. */
  function Normalize(s: string): string {
    ToLower(Trim(s))
  }

  /** Normalising is idempotent, so a stored description is its own
      normal form. */
  lemma NormalizeIdempotent(s: string)
    ensures Normalize(Normalize(s)) == Normalize(s)
  {
    var t := Trim(s);
    TrimLowerCommute(t);
    TrimIdempotent(s);
    ToLowerIdempotent(t);
  }

  /** Descriptions that differ only in letter case normalise alike. */
  lemma NormalizeIgnoresCase(s: string)
    ensures Normalize(ToLower(s)) == Normalize(s)
  {
    TrimLowerCommute(s);
    ToLowerIdempotent(Trim(s));
  }

  /** A description normalises to a blank string exactly when it is blank,
      which is when the schema's notEmpty rejects the new row. */
  lemma NormalizeBlank(s: string)
    ensures NotEmpty(Normalize(s)) <==> !Blank(s)
  {
    var t := Trim(s);
    if t != [] {
      LowerKeepsWhitespace(t[0]);
      assert !IsJsWhitespace(Normalize(s)[0]);
    }
  }

  /** `list.includes(v)` for a list of strings (SameValueZero: only a string
      can equal a string). */
  predicate Includes(list: seq<string>, v: JsValue) {
    v.Str? && v.s in list
  }

  /** The statuses patchTaskStatus accepts. */
  const PatchStatuses: seq<string> := ["pending", "completed", "inprogress", "cancelled"]

  /** The statuses putTask accepts: the ENUM's own spellings. */
  const PutStatuses: seq<string> := ["pending", "completed", "inProgress", "cancelled"]

  /** The two lists disagree on one spelling: patch accepts "inprogress",
      which the ENUM column refuses, and refuses "inProgress", which the
      column accepts; put agrees with the column. */
  lemma StatusListsDisagree()
    ensures Includes(PatchStatuses, Str("inprogress")) && ParseStatus("inprogress").None?
    ensures !Includes(PatchStatuses, Str("inProgress")) && ParseStatus("inProgress") == Some(InProgress)
    ensures forall s :: Includes(PutStatuses, Str(s)) <==> ParseStatus(s).Some?
    ensures forall s | s in PatchStatuses && s != "inprogress" :: ParseStatus(s).Some?
  {
    assert PatchStatuses[2] == "inprogress";
    assert "inprogress" != "inProgress" by { assert "inprogress"[2] != "inProgress"[2]; }
    assert "inProgress" !in PatchStatuses by {
      forall k | 0 <= k < |PatchStatuses| ensures PatchStatuses[k] != "inProgress" {
        assert PatchStatuses[k][2] != "inProgress"[2] || PatchStatuses[k][0] != 'i';
      }
    }
  }

  /** The value of a date field after the handler's `dueDate ? new Date(dueDate) : otherwise`,
      or None when the date is invalid (Sequelize then refuses the row). */
  function DueDateField(v: JsValue, otherwise: Option<int>, parse: string -> Option<int>): (r: Option<Option<int>>)
    ensures !Truthy(v) ==> r == Some(otherwise)
    ensures r.None? ==> Truthy(v)
    ensures v.Num? && v.n != 0 && -MaxTime <= v.n <= MaxTime ==> r == Some(Some(v.n))
  {
    if !Truthy(v) then Some(otherwise)
    else match NewDate(v, parse)
      case None => None
      case Some(ms) => Some(Some(ms))
  }

  /** The fields `task.status = status; task.save()` writes: the stored row
      with only its status replaced. */
  function WithStatus(t: Task, status: JsValue): TaskFields {
    TaskFields(t.userId, Str(t.description), t.dueDate, status)
  }

  /** Patching a valid row to an accepted status changes the status and
      nothing else, except that "inprogress" is refused by the column. */
  lemma PatchChangesOnlyStatus(t: Task, s: string)
    requires TaskRowValid(t) && s in PatchStatuses
    ensures s == "inprogress" ==> ValidateTask(t.id, WithStatus(t, Str(s))).None?
    ensures s != "inprogress" ==>
              && ParseStatus(s).Some?
              && ValidateTask(t.id, WithStatus(t, Str(s))) == Some(t.(status := ParseStatus(s).value))
  {
    StatusListsDisagree();
  }

  /** Whatever a patch is asked for, it never leaves a task in progress. */
  lemma PatchNeverStoresInProgress(t: Task, s: string)
    requires TaskRowValid(t) && s in PatchStatuses
    ensures match ValidateTask(t.id, WithStatus(t, Str(s)))
            case Some(t') => t'.status != InProgress
            case None => true
  {
    PatchChangesOnlyStatus(t, s);
  }

  /** The body fields of putTask are all falsy. */
  predicate NoUpdateFields(description: JsValue, dueDate: JsValue, status: JsValue) {
    !Truthy(description) && !Truthy(dueDate) && !Truthy(status)
  }

  /** The fields putTask passes to task.update: `description ?? task.description`,
      the date already merged, and `status ?? task.status`. */
  function Merged(t: Task, description: JsValue, dueDate: Option<int>, status: JsValue): TaskFields {
    TaskFields(t.userId,
               if Nullish(description) then Str(t.description) else description,
               dueDate,
               if Nullish(status) then Str(StatusName(t.status)) else status)
  }

  /** A put that omits the status (null or missing) keeps the stored one,
      and the status can then never be why the update is refused. */
  lemma PutKeepsOmittedStatus(t: Task, description: JsValue, dueDate: Option<int>, status: JsValue)
    requires TaskRowValid(t) && Nullish(status)
    ensures var f := Merged(t, description, dueDate, status);
            var r := ValidateTask(t.id, f);
            && (r.Some? <==> StoredText(f.description).Some? && NotEmpty(StoredText(f.description).value))
            && (r.Some? ==> r.value.status == t.status)
  {
    ParseStatusName(t.status);
    StatusListsDisagree();
  }

  /** A put that omits the description keeps the stored one, and only the
      status can then make the update fail. */
  lemma PutKeepsOmittedDescription(t: Task, description: JsValue, dueDate: Option<int>, status: JsValue)
    requires TaskRowValid(t) && Nullish(description)
    ensures var r := ValidateTask(t.id, Merged(t, description, dueDate, status));
            && (r.Some? <==> Nullish(status) || (status.Str? && status.s in StatusValues))
            && (r.Some? ==> r.value.description == t.description)
  {
    ParseStatusName(t.status);
    StatusListsDisagree();
  }

  /** A put whose dueDate is falsy keeps the stored date. */
  lemma PutKeepsOmittedDueDate(t: Task, description: JsValue, dueDate: JsValue, status: JsValue,
                               parse: string -> Option<int>)
    requires !Truthy(dueDate)
    ensures DueDateField(dueDate, t.dueDate, parse) == Some(t.dueDate)
    ensures var r := ValidateTask(t.id, Merged(t, description, t.dueDate, status));
            r.Some? ==> r.value.dueDate == t.dueDate
  {
  }

  /** A put that names a new description and keeps the rest stores that
      description exactly as sent: it is neither trimmed nor lowercased, so
      the normal form postTask keeps is not an invariant of the store. */
  lemma PutKeepsRawDescription(t: Task, s: string)
    requires TaskRowValid(t) && NotEmpty(s)
    ensures ValidateTask(t.id, Merged(t, Str(s), t.dueDate, Undefined)) == Some(t.(description := s))
  {
    ParseStatusName(t.status);
    StatusListsDisagree();
  }

  /** The outcome of evaluating an expression: a value, or a thrown error. */
  datatype Eval<T> = Value(v: T) | Throws

  /** The guard `task.status !== "completed" || "cancelled" && !isPastDue(task.dueDate)`.
      `&&` binds tighter than `||`, and "cancelled" is truthy, so the right
      operand comes down to `!isPastDue(task.dueDate)`. `isPastDue` is a
      free name in the handler's module unless `pastDueInScope` holds, and
      calling it then throws a ReferenceError. */
  function DeleteGuard(t: Task, now: int, pastDueInScope: bool): Eval<bool> {
    if StatusName(t.status) != "completed" then Value(true)
    else if !Truthy(Str("cancelled")) then Value(false)
    else if !pastDueInScope then Throws
    else Value(!DueTasks.IsPastDue(t.dueDate, now))
  }

  /** As written: an unfinished task is refused and a completed one throws,
      so the guard never lets a deletion through. */
  lemma DeleteGuardAsWritten(t: Task, now: int)
    ensures t.status != Completed <==> DeleteGuard(t, now, false) == Value(true)
    ensures t.status == Completed <==> DeleteGuard(t, now, false) == Throws
    ensures DeleteGuard(t, now, false) != Value(false)
  {
    StatusNameCompleted(t.status);
  }

  /** With isPastDue in scope the guard lets exactly the completed tasks
      whose due date has passed through. */
  lemma DeleteGuardInScope(t: Task, now: int)
    ensures DeleteGuard(t, now, true) == Value(!(t.status == Completed && DueTasks.IsPastDue(t.dueDate, now)))
  {
    StatusNameCompleted(t.status);
  }

  lemma StatusNameCompleted(st: Status)
    ensures StatusName(st) == "completed" <==> st == Completed
  {
    if st != Completed {
      assert StatusName(st)[0] != 'c' || StatusName(st)[1] != 'o';
    }
  }

  // ---------------------------------------------------------------------
  // The handlers

  /** The tasks stored under `ids`, in that order. */
  function TasksAt(tasks: map<Id, Task>, ids: seq<Id>): (r: seq<Task>)
    requires forall i | 0 <= i < |ids| :: ids[i] in tasks
    ensures |r| == |ids| && forall i | 0 <= i < |ids| :: r[i] == tasks[ids[i]]
  {
    seq(|ids|, i requires 0 <= i < |ids| => tasks[ids[i]])
  }

  /** The ids of exactly the caller's tasks, each once, list exactly the
      caller's task rows, each once. */
  lemma OwnTasksListed(tasks: map<Id, Task>, ids: seq<Id>, uid: Id)
    requires forall id | id in tasks :: tasks[id].id == id
    requires forall id :: id in ids <==> id in tasks && tasks[id].userId == uid
    requires forall i, j | 0 <= i < j < |ids| :: ids[i] != ids[j]
    ensures forall i | 0 <= i < |ids| :: ids[i] in tasks
    ensures var r := TasksAt(tasks, ids);
            && (forall t :: t in r <==> t in tasks.Values && t.userId == uid)
            && (forall i, j | 0 <= i < j < |r| :: r[i] != r[j])
            && (r == [] <==> forall id | id in tasks :: tasks[id].userId != uid)
  {
    assert forall i | 0 <= i < |ids| :: ids[i] in ids;
    var r := TasksAt(tasks, ids);
    forall t | t in tasks.Values && t.userId == uid ensures t in r {
      var id :| id in tasks && tasks[id] == t;
      var i :| 0 <= i < |ids| && ids[i] == id;
      assert r[i] == t;
    }
    if r != [] {
      assert ids[0] in tasks && tasks[ids[0]].userId == uid;
    }
  }

  /** getTasks: the caller's tasks, in the order the database returns them;
      none is answered with 404 and an empty list (but `status: true`). */
  method GetTasks(db: Store, uid: Id) returns (r: Reply<seq<Task>>)
    requires db.Valid()
    ensures r.Done?
    ensures r.code == 404 <==> forall id | id in db.tasks :: db.tasks[id].userId != uid
    ensures r.code == 200 || r.code == 404
    ensures forall t :: t in r.value <==> t in db.tasks.Values && t.userId == uid
    ensures forall i, j | 0 <= i < j < |r.value| :: r.value[i] != r.value[j]
  {
    var ids := db.FindAll((t: Task) => t.userId == uid);
    OwnTasksListed(db.tasks, ids, uid);
    var found := TasksAt(db.tasks, ids);
    if |found| == 0 {
      return Done(404, []);
    }
    r := Done(200, found);
  }

  /** getTask: the caller's task with that id; a missing task, or one owned
      by someone else, is answered with 400. */
  method GetTask(db: Store, uid: Id, id: Id) returns (r: Reply<Task>)
    ensures r.Done? <==> id in db.tasks && db.tasks[id].userId == uid
    ensures r.Done? ==> r == Done(200, db.tasks[id])
    ensures r.Refused? ==> r == Refused(400, NotFound)
  {
    match db.FindTask(id, uid)
    case None => r := Refused(400, NotFound);
    case Some(t) => r := Done(200, t);
  }

  /** The shape of patchTaskStatus for a list of accepted statuses: the
      status is checked against the list before anything is read; then the
      task must exist (404) and belong to the caller (403); then only its
      status is written, and a value the ENUM refuses makes the save throw
      (500). */
  method PatchStatusWith(db: Store, uid: Id, id: Id, status: JsValue, allowed: seq<string>) returns (r: Reply<Task>)
    requires db.Valid()
    modifies db
    ensures db.Valid() && db.users == old(db.users) && db.nextId == old(db.nextId)
    ensures !Includes(allowed, status) ==> r == Refused(400, InvalidStatus)
    ensures Includes(allowed, status) && id !in old(db.tasks) ==> r == Refused(404, NotFound)
    ensures Includes(allowed, status) && id in old(db.tasks) && old(db.tasks)[id].userId != uid ==>
              r == Refused(403, Forbidden)
    ensures Includes(allowed, status) && id in old(db.tasks) && old(db.tasks)[id].userId == uid ==>
              match ValidateTask(id, WithStatus(old(db.tasks)[id], status))
              case Some(t) => r == Done(200, t) && db.tasks == old(db.tasks)[id := t]
              case None => r == Refused(500, InternalError)
    ensures r.Refused? ==> db.tasks == old(db.tasks)
  {
    if !Includes(allowed, status) {
      return Refused(400, InvalidStatus);
    }
    if id !in db.tasks {
      return Refused(404, NotFound);
    }
    var task := db.tasks[id];
    if task.userId != uid {
      return Refused(403, Forbidden);
    }
    var saved := db.UpdateTask(id, WithStatus(task, status));
    match saved
    case None => r := Refused(500, InternalError);
    case Some(t) => r := Done(200, t);
  }

  /** patchTaskStatus as written, with "inprogress" in its list: the ENUM
      spelling "inProgress" is refused with 400 before the lookup, and
      "inprogress" reaches the save, which throws (500) and changes nothing;
      every other accepted status is written and nothing else changes. */
  method PatchTaskStatus(db: Store, uid: Id, id: Id, status: JsValue) returns (r: Reply<Task>)
    requires db.Valid()
    modifies db
    ensures db.Valid() && db.users == old(db.users) && db.nextId == old(db.nextId)
    ensures !Includes(PatchStatuses, status) ==> r == Refused(400, InvalidStatus) && db.tasks == old(db.tasks)
    ensures status == Str("inProgress") ==> r == Refused(400, InvalidStatus)
    ensures Includes(PatchStatuses, status) && (id !in old(db.tasks) || old(db.tasks)[id].userId != uid) ==>
              db.tasks == old(db.tasks) &&
              r == (if id !in old(db.tasks) then Refused(404, NotFound) else Refused(403, Forbidden))
    ensures Includes(PatchStatuses, status) && id in old(db.tasks) && old(db.tasks)[id].userId == uid ==>
              var t := old(db.tasks)[id];
              if status.s == "inprogress" then r == Refused(500, InternalError) && db.tasks == old(db.tasks)
              else && r == Done(200, t.(status := ParseStatus(status.s).value))
                   && db.tasks == old(db.tasks)[id := r.value]
                   && r.value.status != InProgress
  {
    StatusListsDisagree();
    if id in db.tasks && status.Str? && status.s in PatchStatuses {
      PatchChangesOnlyStatus(db.tasks[id], status.s);
    }
    r := PatchStatusWith(db, uid, id, status, PatchStatuses);
  }

  /** patchTaskStatus with the ENUM's own spellings, the list putTask uses:
      every accepted status is written for the owner, and the save never
      throws. */
  method PatchTaskStatusIntended(db: Store, uid: Id, id: Id, status: JsValue) returns (r: Reply<Task>)
    requires db.Valid()
    modifies db
    ensures db.Valid() && db.users == old(db.users) && db.nextId == old(db.nextId)
    ensures !Includes(PutStatuses, status) ==> r == Refused(400, InvalidStatus) && db.tasks == old(db.tasks)
    ensures Includes(PutStatuses, status) && (id !in old(db.tasks) || old(db.tasks)[id].userId != uid) ==>
              db.tasks == old(db.tasks) &&
              r == (if id !in old(db.tasks) then Refused(404, NotFound) else Refused(403, Forbidden))
    ensures Includes(PutStatuses, status) && id in old(db.tasks) && old(db.tasks)[id].userId == uid ==>
              var t := old(db.tasks)[id];
              && ParseStatus(status.s).Some?
              && r == Done(200, t.(status := ParseStatus(status.s).value))
              && db.tasks == old(db.tasks)[id := r.value]
    ensures r.Refused? ==> r.code != 500
  {
    StatusListsDisagree();
    if id in db.tasks && status.Str? && status.s in PutStatuses {
      PutStatusWritten(db.tasks[id], status.s);
    }
    r := PatchStatusWith(db, uid, id, status, PutStatuses);
  }

  /** Every status of the ENUM list is written as that status. */
  lemma PutStatusWritten(t: Task, s: string)
    requires TaskRowValid(t) && s in PutStatuses
    ensures ParseStatus(s).Some?
    ensures ValidateTask(t.id, WithStatus(t, Str(s))) == Some(t.(status := ParseStatus(s).value))
  {
    StatusListsDisagree();
  }

  /** postTask: a falsy description is refused with 400; a truthy one that
      is not a string has no trim() and the handler answers 500; otherwise
      the normalised description must not already be one of the caller's
      tasks (400), the date must be valid and the row must pass the schema
      (else 500), and the new task is created with status pending (201). */
  method PostTask(db: Store, uid: Id, description: JsValue, dueDate: JsValue, parse: string -> Option<int>)
    returns (r: Reply<Task>)
    requires db.Valid()
    modifies db
    ensures db.Valid() && db.users == old(db.users)
    ensures !Truthy(description) ==> r == Refused(400, MissingDescription)
    ensures Truthy(description) && !description.Str? ==> r == Refused(500, InternalError)
    ensures Truthy(description) && description.Str? &&
              old(db.HasTaskWithDescription(uid, Normalize(description.s))) ==>
              r == Refused(400, DuplicateTask)
    ensures r.Done? <==>
              && description.Str? && !Blank(description.s)
              && !old(db.HasTaskWithDescription(uid, Normalize(description.s)))
              && DueDateField(dueDate, None, parse).Some?
              && uid in old(db.users)
    ensures r.Done? ==>
              && r.code == 201
              && r.value == Task(r.value.id, uid, Normalize(description.s),
                                 DueDateField(dueDate, None, parse).value, Pending)
              && r.value.id !in old(db.tasks)
              && db.tasks == old(db.tasks)[r.value.id := r.value]
              && (forall id | id in db.tasks && db.tasks[id].userId == uid &&
                              db.tasks[id].description == r.value.description :: id == r.value.id)
    ensures r.Refused? ==> db.tasks == old(db.tasks) && db.nextId == old(db.nextId)
  {
    if !Truthy(description) {
      return Refused(400, MissingDescription);
    }
    if !description.Str? {
      return Refused(500, InternalError);
    }
    var normalized := Normalize(description.s);
    NormalizeBlank(description.s);
    if db.HasTaskWithDescription(uid, normalized) {
      return Refused(400, DuplicateTask);
    }
    var due := DueDateField(dueDate, None, parse);
    if due.None? {
      return Refused(500, InternalError);
    }
    r := CreateOwnTask(db, uid, normalized, due.value);
  }

  /** The Task.create step of postTask once the duplicate check has passed:
      the row is refused (500) when its description is blank or the owner
      does not exist, and otherwise becomes the owner's only task with that
      description. */
  method CreateOwnTask(db: Store, uid: Id, description: string, due: Option<int>) returns (r: Reply<Task>)
    requires db.Valid() && !db.HasTaskWithDescription(uid, description)
    modifies db
    ensures db.Valid() && db.users == old(db.users)
    ensures r.Done? <==> NotEmpty(description) && uid in old(db.users)
    ensures r.Done? ==>
              && r.code == 201
              && r.value == Task(r.value.id, uid, description, due, Pending)
              && r.value.id !in old(db.tasks)
              && db.tasks == old(db.tasks)[r.value.id := r.value]
              && (forall id | id in db.tasks && db.tasks[id].userId == uid &&
                              db.tasks[id].description == description :: id == r.value.id)
    ensures r.Refused? ==> r == Refused(500, InternalError) && db.tasks == old(db.tasks) && db.nextId == old(db.nextId)
  {
    var created := db.CreateTask(TaskFields(uid, Str(description), due, Undefined));
    match created
    case None => r := Refused(500, InternalError);
    case Some(t) =>
      UniqueAfterCreate(old(db.tasks), db.tasks, t);
      r := Done(201, t);
  }

  /** Adding a task whose description its owner does not yet use leaves it
      the owner's only task with that description. */
  lemma UniqueAfterCreate(tasks: map<Id, Task>, after: map<Id, Task>, t: Task)
    requires !exists id | id in tasks :: tasks[id].userId == t.userId && tasks[id].description == t.description
    requires after == tasks[t.id := t]
    ensures forall id | id in after && after[id].userId == t.userId && after[id].description == t.description ::
              id == t.id
  {
  }

  /** putTask: 400 when there is nothing to update or a truthy status is
      not one of the ENUM spellings, both before the lookup; 404 unless the
      caller owns the task (there is no separate 403); then the merged
      fields are written, unnormalised and without a duplicate check, and a
      row the schema refuses or an invalid date makes the handler answer 500. */
  method PutTask(db: Store, uid: Id, id: Id, description: JsValue, dueDate: JsValue, status: JsValue,
                 parse: string -> Option<int>)
    returns (r: Reply<Task>)
    requires db.Valid()
    modifies db
    ensures db.Valid() && db.users == old(db.users) && db.nextId == old(db.nextId)
    ensures NoUpdateFields(description, dueDate, status) ==> r == Refused(400, NothingToUpdate)
    ensures !NoUpdateFields(description, dueDate, status) && Truthy(status) && !Includes(PutStatuses, status) ==>
              r == Refused(400, InvalidStatus)
    ensures !NoUpdateFields(description, dueDate, status) && (!Truthy(status) || Includes(PutStatuses, status)) ==>
              if id !in old(db.tasks) || old(db.tasks)[id].userId != uid then r == Refused(404, NotFound)
              else
                var t := old(db.tasks)[id];
                match DueDateField(dueDate, t.dueDate, parse)
                case None => r == Refused(500, InternalError)
                case Some(due) =>
                  match ValidateTask(id, Merged(t, description, due, status))
                  case Some(t') => r == Done(200, t') && db.tasks == old(db.tasks)[id := t']
                  case None => r == Refused(500, InternalError)
    ensures r.Refused? ==> db.tasks == old(db.tasks)
  {
    if NoUpdateFields(description, dueDate, status) {
      return Refused(400, NothingToUpdate);
    }
    if Truthy(status) && !Includes(PutStatuses, status) {
      return Refused(400, InvalidStatus);
    }
    match db.FindTask(id, uid)
    case None => r := Refused(404, NotFound);
    case Some(task) =>
      var due := DueDateField(dueDate, task.dueDate, parse);
      if due.None? {
        return Refused(500, InternalError);
      }
      var updated := db.UpdateTask(id, Merged(task, description, due.value, status));
      match updated
      case None => r := Refused(500, InternalError);
      case Some(t) => r := Done(200, t);
  }

  /** The shared shape of deleteTask: find the caller's task (404), evaluate
      the guard (400 when it holds, 500 when it throws), then destroy. */
  method DeleteWithGuard(db: Store, uid: Id, id: Id, now: int, pastDueInScope: bool) returns (r: Reply<()>)
    requires db.Valid()
    modifies db`tasks
    ensures db.Valid()
    ensures id !in old(db.tasks) || old(db.tasks)[id].userId != uid ==> r == Refused(404, NotFound)
    ensures id in old(db.tasks) && old(db.tasks)[id].userId == uid ==>
              match DeleteGuard(old(db.tasks)[id], now, pastDueInScope)
              case Throws => r == Refused(500, InternalError)
              case Value(refuse) => if refuse then r == Refused(400, NotDeletable) else r == Done(200, ())
    ensures r.Done? ==> db.tasks == old(db.tasks) - {id}
    ensures r.Refused? ==> db.tasks == old(db.tasks)
  {
    match db.FindTask(id, uid)
    case None => r := Refused(404, NotFound);
    case Some(task) =>
      match DeleteGuard(task, now, pastDueInScope)
      case Throws => r := Refused(500, InternalError);
      case Value(refuse) =>
        if refuse {
          r := Refused(400, NotDeletable);
        } else {
          db.DestroyTask(id);
          r := Done(200, ());
        }
  }

  /** deleteTask as written, where isPastDue is not in scope: an unfinished
      task is refused with 400, a completed one makes the guard throw (500),
      and no task is ever deleted. */
  method DeleteTask(db: Store, uid: Id, id: Id, now: int) returns (r: Reply<()>)
    requires db.Valid()
    modifies db`tasks
    ensures db.Valid() && db.tasks == old(db.tasks)
    ensures r.Refused?
    ensures id !in db.tasks || db.tasks[id].userId != uid ==> r.code == 404
    ensures id in db.tasks && db.tasks[id].userId == uid ==>
              (r.code == 400 <==> db.tasks[id].status != Completed) &&
              (r.code == 500 <==> db.tasks[id].status == Completed)
  {
    if id in db.tasks {
      DeleteGuardAsWritten(db.tasks[id], now);
    }
    r := DeleteWithGuard(db, uid, id, now, false);
  }

  /** deleteTask with isPastDue imported: the caller's task is deleted
      exactly when it is completed and past due; otherwise it stays (400). */
  method DeleteTaskIntended(db: Store, uid: Id, id: Id, now: int) returns (r: Reply<()>)
    requires db.Valid()
    modifies db`tasks
    ensures db.Valid()
    ensures id !in old(db.tasks) || old(db.tasks)[id].userId != uid ==> r == Refused(404, NotFound)
    ensures id in old(db.tasks) && old(db.tasks)[id].userId == uid ==>
              var t := old(db.tasks)[id];
              if t.status == Completed && DueTasks.IsPastDue(t.dueDate, now)
              then r == Done(200, ()) && db.tasks == old(db.tasks) - {id}
              else r == Refused(400, NotDeletable) && db.tasks == old(db.tasks)
  {
    if id in db.tasks {
      DeleteGuardInScope(db.tasks[id], now);
    }
    r := DeleteWithGuard(db, uid, id, now, true);
  }
}
