/** The hourly due-task sweep (cron/checkDueTasks.js): select the tasks
    that fell due during the last hour and are not completed, and for each
    one whose owner has an email, send the alert and delete the task. One
    try block covers the whole cycle. */
module DueTasks {
  import opened Js
  import opened Models
  import opened Db
  import opened SendEmail

  /** 60 * 60 * 1000 milliseconds. */
  const HourMs: int := 3600000

  /** isPastDue(dueDate) with Date.now() passed in as `now`: false for a
      missing date, otherwise whether the date is strictly before now. */
  predicate IsPastDue(dueDate: Option<int>, now: int) {
    dueDate.Some? && dueDate.value < now
  }

  /** Once past due, a task stays past due as time goes on. */
  lemma PastDueStays(dueDate: Option<int>, now: int, later: int)
    requires IsPastDue(dueDate, now) && now <= later
    ensures IsPastDue(dueDate, later)
  {
  }

  /** The query's where clause: dueDate BETWEEN now - 1h AND now (both ends
      included; NULL never matches) and status <> 'completed'. */
  predicate Selected(t: Task, now: int) {
    && t.dueDate.Some? && now - HourMs <= t.dueDate.value <= now
    && t.status != Completed
  }

  /** A selected task is past due, or due at exactly the cycle's instant. */
  lemma SelectedIsDue(t: Task, now: int)
    requires Selected(t, now)
    ensures IsPastDue(t.dueDate, now) || t.dueDate == Some(now)
    ensures IsPastDue(t.dueDate, now + 1)
  {
  }

  /** Two cycles an hour apart leave no gap: every due date in the two
      hours they span falls in one of their windows, and a due date at the
      shared boundary falls in both. */
  lemma ConsecutiveCyclesCover(t: Task, now: int)
    requires t.dueDate.Some? && now - HourMs <= t.dueDate.value <= now + HourMs
    requires t.status != Completed
    ensures Selected(t, now) || Selected(t, now + HourMs)
    ensures t.dueDate == Some(now) ==> Selected(t, now) && Selected(t, now + HourMs)
  {
  }

  /** A task as the query returns it, with the owner's email from the
      included User row (None when there is no such row). */
  datatype Row = Row(task: Task, email: Option<string>)

  /** `task.User?.email` is truthy. */
  predicate HasEmail(row: Row) {
    row.email.Some? && row.email.value != ""
  }

  /** The owner's email, as the include of the User model reads it. */
  function OwnerEmail(users: map<Id, User>, t: Task): (r: Option<string>)
    ensures r.Some? <==> t.userId in users
    ensures r.Some? ==> r.value == users[t.userId].email
  {
    if t.userId in users then Some(users[t.userId].email) else None
  }

  /** The due-date argument passed on to sendDueTaskEmail. */
  function DueArgOf(dueDate: Option<int>): DueArg {
    match dueDate
    case Some(ms) => DateValue(ms)
    case None => Plain(Null)
  }

  /** The alert sent for a row. */
  function AlertOf(row: Row): Alert
    requires HasEmail(row)
  {
    Alert(row.email.value, row.task.description, DueArgOf(row.task.dueDate))
  }

  /** What one cycle did: the tasks deleted, in order; the alerts sent, in
      order; and whether an exception ended the cycle early. */
  datatype Outcome = Outcome(deleted: seq<Id>, alerts: seq<Alert>, aborted: bool)

  /** The loop body for one row, after the rows before it left `o`. */
  function Step(o: Outcome, row: Row, destroyFails: Id -> bool): Outcome {
    if !HasEmail(row) then o
    else if destroyFails(row.task.id) then Outcome(o.deleted, o.alerts + [AlertOf(row)], true)
    else Outcome(o.deleted + [row.task.id], o.alerts + [AlertOf(row)], false)
  }

  /** The cycle over `rows`, in query order, stopping at the first exception. */
  function Run(rows: seq<Row>, destroyFails: Id -> bool): Outcome
    decreases |rows|
  {
    if rows == [] then Outcome([], [], false)
    else
      var o := Run(rows[..|rows| - 1], destroyFails);
      if o.aborted then o else Step(o, rows[|rows| - 1], destroyFails)
  }

  /** The rows that get an alert and a deletion when nothing fails. */
  function Emailed(rows: seq<Row>): (r: seq<Row>)
    ensures forall i | 0 <= i < |r| :: HasEmail(r[i]) && r[i] in rows
    ensures forall row | row in rows && HasEmail(row) :: row in r
    decreases |rows|
  {
    if rows == [] then []
    else
      var init := Emailed(rows[..|rows| - 1]);
      var last := rows[|rows| - 1];
      assert forall row | row in rows && row != last :: row in rows[..|rows| - 1];
      if HasEmail(last) then init + [last] else init
  }

  function Ids(rows: seq<Row>): (r: seq<Id>)
    ensures |r| == |rows|
    ensures forall i | 0 <= i < |rows| :: r[i] == rows[i].task.id
  {
    seq(|rows|, i requires 0 <= i < |rows| => rows[i].task.id)
  }

  function Alerts(rows: seq<Row>): (r: seq<Alert>)
    requires forall i | 0 <= i < |rows| :: HasEmail(rows[i])
    ensures |r| == |rows|
    ensures forall i | 0 <= i < |rows| :: r[i] == AlertOf(rows[i])
  {
    seq(|rows|, i requires 0 <= i < |rows| => AlertOf(rows[i]))
  }

  /** `o` is what a cycle does to the rows with an email `e`: it works
      through them in order, alerting and then deleting each; when a deletion
      throws, the cycle ends after that row's alert and the rows deleted
      before it stay deleted. */
  predicate Conforms(o: Outcome, e: seq<Row>, destroyFails: Id -> bool)
    requires forall i | 0 <= i < |e| :: HasEmail(e[i])
  {
    && (!o.aborted ==> o.deleted == Ids(e) && o.alerts == Alerts(e))
    && (o.aborted ==> && |o.deleted| < |e|
                      && o.deleted == Ids(e[..|o.deleted|])
                      && o.alerts == Alerts(e[..|o.deleted| + 1])
                      && destroyFails(e[|o.deleted|].task.id))
  }

  lemma {:induction false} RunSpec(rows: seq<Row>, destroyFails: Id -> bool)
    ensures Conforms(Run(rows, destroyFails), Emailed(rows), destroyFails)
    decreases |rows|
  {
    if rows != [] {
      var init := rows[..|rows| - 1];
      var last := rows[|rows| - 1];
      RunSpec(init, destroyFails);
      var o, e := Run(init, destroyFails), Emailed(init);
      if o.aborted {
        AbortedConforms(o, e, Emailed(rows), destroyFails);
      } else if HasEmail(last) {
        StepConforms(o, e, last, destroyFails);
      }
    }
  }

  lemma AbortedConforms(o: Outcome, e: seq<Row>, e': seq<Row>, destroyFails: Id -> bool)
    requires forall i | 0 <= i < |e'| :: HasEmail(e'[i])
    requires |e| <= |e'| && e'[..|e|] == e
    requires Conforms(o, e, destroyFails) && o.aborted
    ensures Conforms(o, e', destroyFails)
  {
    var n := |o.deleted|;
    assert e'[..n + 1] == e[..n + 1];
    assert e'[..n] == e[..n];
  }

  lemma StepConforms(o: Outcome, e: seq<Row>, last: Row, destroyFails: Id -> bool)
    requires forall i | 0 <= i < |e| :: HasEmail(e[i])
    requires HasEmail(last)
    requires Conforms(o, e, destroyFails) && !o.aborted
    ensures Conforms(Step(o, last, destroyFails), e + [last], destroyFails)
  {
    var e' := e + [last];
    assert e'[..|e|] == e;
    assert e'[..|e| + 1] == e';
    assert Ids(e') == Ids(e) + [last.task.id];
    assert Alerts(e') == Alerts(e) + [AlertOf(last)];
  }

  /** A row whose owner has no email is neither alerted nor deleted. */
  lemma NoEmailUntouched(rows: seq<Row>, destroyFails: Id -> bool, i: nat)
    requires i < |rows| && !HasEmail(rows[i])
    requires forall a, b | 0 <= a < b < |rows| :: rows[a].task.id != rows[b].task.id
    ensures rows[i].task.id !in Run(rows, destroyFails).deleted
  {
    RunSpec(rows, destroyFails);
    var e := Emailed(rows);
    forall j | 0 <= j < |e| ensures e[j].task.id != rows[i].task.id {
      var k :| 0 <= k < |rows| && rows[k] == e[j];
      assert k != i;
    }
  }

  /** Once a cycle has stopped, later rows change nothing. */
  lemma {:induction false} AbortedStays(rows: seq<Row>, destroyFails: Id -> bool, i: nat)
    requires i <= |rows| && Run(rows[..i], destroyFails).aborted
    ensures Run(rows, destroyFails) == Run(rows[..i], destroyFails)
    decreases |rows| - i
  {
    if i < |rows| {
      assert rows[..i + 1][..i] == rows[..i];
      AbortedStays(rows, destroyFails, i + 1);
    } else {
      assert rows[..i] == rows;
    }
  }

  /** In a store that keeps its invariant every task has an owner with a
      non-empty email, so the no-email branch of the loop is never taken. */
  lemma ValidStoreRowsHaveEmail(users: map<Id, User>, t: Task)
    requires t.userId in users && UserRowValid(users[t.userId])
    ensures HasEmail(Row(t, OwnerEmail(users, t)))
  {
  }

  /** The mails the transport is handed for a sequence of alerts. */
  function Handed(alerts: seq<Alert>, parse: string -> Option<int>): seq<Mail>
    decreases |alerts|
  {
    if alerts == [] then []
    else
      var a := alerts[|alerts| - 1];
      Handed(alerts[..|alerts| - 1], parse)
        + (match DueTaskMail(a.to, a.task, a.due, parse) case Some(m) => [m] case None => [])
  }

  /** The mails among those that the transport accepts. */
  function Delivered(alerts: seq<Alert>, parse: string -> Option<int>, undeliverable: set<string>): seq<Mail>
    decreases |alerts|
  {
    if alerts == [] then []
    else
      var a := alerts[|alerts| - 1];
      Delivered(alerts[..|alerts| - 1], parse, undeliverable)
        + (match DueTaskMail(a.to, a.task, a.due, parse)
           case Some(m) => if a.to in undeliverable then [] else [m]
           case None => [])
  }

  /** The store after deleting `ids`. */
  function Without(tasks: map<Id, Task>, ids: seq<Id>): map<Id, Task> {
    map id | id in tasks && id !in ids :: tasks[id]
  }

  /** The rows the query returns for `ids`: each task with its owner's email. */
  function RowsOf(tasks: map<Id, Task>, users: map<Id, User>, ids: seq<Id>): (r: seq<Row>)
    requires forall i | 0 <= i < |ids| :: ids[i] in tasks
    requires forall id | id in tasks :: tasks[id].id == id
    ensures Ids(r) == ids
    ensures forall i | 0 <= i < |r| ::
              r[i].task == tasks[ids[i]] && r[i].email == OwnerEmail(users, r[i].task)
  {
    var r := seq(|ids|, i requires 0 <= i < |ids| => Row(tasks[ids[i]], OwnerEmail(users, tasks[ids[i]])));
    r
  }

  lemma WithoutSnoc(tasks: map<Id, Task>, ids: seq<Id>, id: Id)
    ensures Without(tasks, ids + [id]) == Without(tasks, ids) - {id}
  {
  }

  lemma HandedSnoc(alerts: seq<Alert>, a: Alert, parse: string -> Option<int>, undeliverable: set<string>)
    ensures Handed(alerts + [a], parse) == Handed(alerts, parse)
              + (match DueTaskMail(a.to, a.task, a.due, parse) case Some(m) => [m] case None => [])
    ensures Delivered(alerts + [a], parse, undeliverable) == Delivered(alerts, parse, undeliverable)
              + (match DueTaskMail(a.to, a.task, a.due, parse)
                 case Some(m) => if a.to in undeliverable then [] else [m]
                 case None => [])
  {
    assert (alerts + [a])[..|alerts|] == alerts;
  }

  /** The store and the mailer reflect `o`, starting from the store's
      tasks `tasks0` and the mailer's logs `calls0`, `handed0`, `delivered0`. */
  ghost predicate Tracks(db: Store, mailer: Mailer, o: Outcome, tasks0: map<Id, Task>,
                         calls0: seq<Alert>, handed0: seq<Mail>, delivered0: seq<Mail>,
                         parse: string -> Option<int>, undeliverable: set<string>)
    reads db, mailer
  {
    && db.tasks == Without(tasks0, o.deleted)
    && mailer.calls == calls0 + o.alerts
    && mailer.handed == handed0 + Handed(o.alerts, parse)
    && mailer.delivered == delivered0 + Delivered(o.alerts, parse, undeliverable)
  }

  /** The loop body for one row: mail the owner when there is an address,
      then destroy the task unless the destroy throws. */
  method ProcessRow(db: Store, mailer: Mailer, o: Outcome, row: Row, parse: string -> Option<int>,
                    destroyFails: Id -> bool, undeliverable: set<string>,
                    ghost tasks0: map<Id, Task>, ghost calls0: seq<Alert>,
                    ghost handed0: seq<Mail>, ghost delivered0: seq<Mail>)
    returns (next: Outcome)
    requires db.Valid()
    requires Tracks(db, mailer, o, tasks0, calls0, handed0, delivered0, parse, undeliverable)
    modifies db, mailer
    ensures db.Valid() && db.users == old(db.users) && db.nextId == old(db.nextId)
    ensures next == Step(o, row, destroyFails)
    ensures Tracks(db, mailer, next, tasks0, calls0, handed0, delivered0, parse, undeliverable)
  {
    next := o;
    if row.email.Some? && row.email.value != "" {
      var a := AlertOf(row);
      assert a == Alert(row.email.value, row.task.description, DueArgOf(row.task.dueDate));
      mailer.SendDueTaskEmail(a.to, a.task, a.due, parse, a.to in undeliverable);
      HandedSnoc(o.alerts, a, parse, undeliverable);
      var alerts := o.alerts + [a];
      assert mailer.calls == calls0 + alerts;
      assert mailer.handed == handed0 + Handed(alerts, parse);
      assert mailer.delivered == delivered0 + Delivered(alerts, parse, undeliverable);
      if destroyFails(row.task.id) {
        next := Outcome(o.deleted, alerts, true);
      } else {
        db.DestroyTask(row.task.id);
        WithoutSnoc(tasks0, o.deleted, row.task.id);
        next := Outcome(o.deleted + [row.task.id], alerts, false);
      }
    }
  }

  /** The loop of one cycle over the rows the query returned. */
  method ProcessRows(db: Store, mailer: Mailer, rows: seq<Row>, parse: string -> Option<int>,
                     destroyFails: Id -> bool, undeliverable: set<string>)
    returns (outcome: Outcome)
    requires db.Valid()
    modifies db, mailer
    ensures db.Valid() && db.users == old(db.users) && db.nextId == old(db.nextId)
    ensures outcome == Run(rows, destroyFails)
    ensures db.tasks == Without(old(db.tasks), outcome.deleted)
    ensures mailer.calls == old(mailer.calls) + outcome.alerts
    ensures mailer.handed == old(mailer.handed) + Handed(outcome.alerts, parse)
    ensures mailer.delivered == old(mailer.delivered) + Delivered(outcome.alerts, parse, undeliverable)
  {
    ghost var tasks0, calls0, handed0, delivered0 := db.tasks, mailer.calls, mailer.handed, mailer.delivered;
    outcome := Outcome([], [], false);
    assert db.tasks == Without(tasks0, []);
    var i := 0;
    while i < |rows| && !outcome.aborted
      invariant 0 <= i <= |rows|
      invariant outcome == Run(rows[..i], destroyFails)
      invariant db.Valid() && db.users == old(db.users) && db.nextId == old(db.nextId)
      invariant Tracks(db, mailer, outcome, tasks0, calls0, handed0, delivered0, parse, undeliverable)
      decreases |rows| - i
    {
      assert rows[..i + 1][..i] == rows[..i];
      outcome := ProcessRow(db, mailer, outcome, rows[i], parse, destroyFails, undeliverable,
                            tasks0, calls0, handed0, delivered0);
      i := i + 1;
    }
    if outcome.aborted {
      AbortedStays(rows, destroyFails, i);
    } else {
      assert rows[..i] == rows;
    }
  }

  /** One run of the scheduled callback at instant `now`. The query throws
      when `queryFails`; the destroy of task `id` throws when
      `destroyFails(id)`; the transport refuses mail to `undeliverable`
      addresses. Returns the rows the query produced, in its order, and what
      the cycle did. */
  method SweepCycle(db: Store, mailer: Mailer, now: int, parse: string -> Option<int>,
                    queryFails: bool, destroyFails: Id -> bool, undeliverable: set<string>)
    returns (rows: seq<Row>, outcome: Outcome)
    requires db.Valid()
    modifies db, mailer
    ensures db.Valid() && db.users == old(db.users) && db.nextId == old(db.nextId)
    ensures queryFails ==> rows == [] && outcome == Outcome([], [], true)
    ensures !queryFails ==>
              && (forall id :: id in Ids(rows) <==> id in old(db.tasks) && Selected(old(db.tasks)[id], now))
              && (forall a, b | 0 <= a < b < |rows| :: rows[a].task.id != rows[b].task.id)
              && (forall i | 0 <= i < |rows| ::
                    && rows[i].task == old(db.tasks)[rows[i].task.id]
                    && rows[i].email == OwnerEmail(old(db.users), rows[i].task))
              && outcome == Run(rows, destroyFails)
    ensures db.tasks == Without(old(db.tasks), outcome.deleted)
    ensures mailer.calls == old(mailer.calls) + outcome.alerts
    ensures mailer.handed == old(mailer.handed) + Handed(outcome.alerts, parse)
    ensures mailer.delivered == old(mailer.delivered) + Delivered(outcome.alerts, parse, undeliverable)
  {
    if queryFails {
      rows, outcome := [], Outcome([], [], true);
      assert db.tasks == Without(db.tasks, []);
      return;
    }
    var ids := db.FindAll(t => Selected(t, now));
    assert forall i | 0 <= i < |ids| :: ids[i] in ids;
    rows := RowsOf(db.tasks, db.users, ids);
    SelectedRows(db.tasks, db.users, ids, now);
    outcome := ProcessRows(db, mailer, rows, parse, destroyFails, undeliverable);
  }

  /** The rows built for the ids the query selected are the selected tasks,
      each once, each with its owner's email. */
  lemma SelectedRows(tasks: map<Id, Task>, users: map<Id, User>, ids: seq<Id>, now: int)
    requires forall id :: id in ids <==> id in tasks && Selected(tasks[id], now)
    requires forall i, j | 0 <= i < j < |ids| :: ids[i] != ids[j]
    requires forall id | id in tasks :: tasks[id].id == id
    ensures forall i | 0 <= i < |ids| :: ids[i] in tasks
    ensures var rows := RowsOf(tasks, users, ids);
            && (forall id :: id in Ids(rows) <==> id in tasks && Selected(tasks[id], now))
            && (forall a, b | 0 <= a < b < |rows| :: rows[a].task.id != rows[b].task.id)
            && (forall i | 0 <= i < |rows| ::
                  && rows[i].task == tasks[rows[i].task.id]
                  && rows[i].email == OwnerEmail(users, rows[i].task))
  {
    assert forall i | 0 <= i < |ids| :: ids[i] in ids;
    var rows := RowsOf(tasks, users, ids);
    assert Ids(rows) == ids;
  }
}
