/** The two Sequelize models: the rows of the `tasks` and `users` tables and
    the column constraints that every stored row satisfies. */
module Models {
  import opened Js

  /** Primary keys. The model generates them from a counter (see Db.Store);
      the UUID format is not modelled. */
  type Id = nat

  /** The values of the `status` ENUM column. */
  datatype Status = Pending | Completed | InProgress | Cancelled

  /** The spelling of each status in the database ENUM. */
  function StatusName(st: Status): string {
    match st
    case Pending => "pending"
    case Completed => "completed"
    case InProgress => "inProgress"
    case Cancelled => "cancelled"
  }

  /** How PostgreSQL reads a string into the ENUM column: only the exact,
      case-sensitive spellings are accepted. */
  function ParseStatus(s: string): (r: Option<Status>)
    ensures r.Some? ==> StatusName(r.value) == s
  {
    if s == "pending" then Some(Pending)
    else if s == "completed" then Some(Completed)
    else if s == "inProgress" then Some(InProgress)
    else if s == "cancelled" then Some(Cancelled)
    else None
  }

  /** Every status is read back as itself. */
  lemma ParseStatusName(st: Status)
    ensures ParseStatus(StatusName(st)) == Some(st)
  {
  }

  // ---------------------------------------------------------------------
  // The attribute object passed to sequelize.define("Task", {...})

  datatype ColumnType = Uuid | Text | VarChar(length: nat) | Date | Boolean | Enum(values: seq<string>)
  datatype DefaultValue = NoDefault | UuidV4 | Now | BoolValue(b: bool) | TextValue(s: string)
  datatype Column = Column(kind: ColumnType, allowNull: bool, notEmpty: bool, default: DefaultValue)

  /** The entries of the Task attribute object literal, in source order.
      `status` is written twice: first as a BOOLEAN, then as the ENUM. */
  function TaskAttributes(): seq<(string, Column)> {
    [ ("id", Column(Uuid, false, false, UuidV4)),
      ("userId", Column(Uuid, false, false, NoDefault)),
      ("description", Column(Text, false, true, NoDefault)),
      ("dueDate", Column(Date, true, false, NoDefault)),
      ("status", Column(Boolean, true, false, BoolValue(false))),
      ("status", Column(Enum(StatusValues), true, false, TextValue("pending")))
    ]
  }

  /** The object an object literal evaluates to: entries are added left to
      right, so a repeated key keeps the value of its last entry. */
  function ObjectLiteral<V>(entries: seq<(string, V)>): (m: map<string, V>)
    ensures forall k :: k in m <==> exists i | 0 <= i < |entries| :: entries[i].0 == k
    decreases |entries|
  {
    if entries == [] then map[]
    else
      var m := ObjectLiteral(entries[..|entries| - 1]);
      var last := entries[|entries| - 1];
      assert forall i | 0 <= i < |entries| - 1 :: entries[..|entries| - 1][i] == entries[i];
      m[last.0 := last.1]
  }

  /** Last key wins: a key whose entry at index i is not repeated later maps
      to that entry's value. */
  lemma {:induction false} LastKeyWins<V>(entries: seq<(string, V)>, i: nat)
    requires i < |entries|
    requires forall j | i < j < |entries| :: entries[j].0 != entries[i].0
    ensures ObjectLiteral(entries)[entries[i].0] == entries[i].1
    decreases |entries|
  {
    if i < |entries| - 1 {
      var init := entries[..|entries| - 1];
      assert init[i] == entries[i];
      LastKeyWins(init, i);
    }
  }

  /** The status column in effect: the ENUM of the four spellings with
      default "pending"; the BOOLEAN definition before it is overwritten. */
  lemma StatusColumnIsEnum()
    ensures var col := ObjectLiteral(TaskAttributes())["status"];
            && col.kind == Enum(StatusValues)
            && col.kind != Boolean
            && col.default == TextValue("pending")
            && ParseStatus(col.default.s) == Some(Pending)
  {
    LastKeyWins(TaskAttributes(), 5);
  }

  /** A string is accepted by the status column exactly when it is one of the
      ENUM values in effect. */
  lemma ParseStatusMatchesSchema(s: string)
    ensures ParseStatus(s).Some? <==> s in ObjectLiteral(TaskAttributes())["status"].kind.values
  {
    StatusColumnIsEnum();
  }

  // ---------------------------------------------------------------------
  // Rows

  /** A row of the `tasks` table. createdAt/updatedAt are not modelled. */
  datatype Task = Task(id: Id, userId: Id, description: string, dueDate: Option<int>, status: Status)

  /** A row of the `users` table; `password` holds the bcrypt hash. */
  datatype User = User(id: Id, name: string, email: string, password: string, joiningTime: int)

  /** Sequelize's notEmpty validator rejects strings made only of whitespace. */
  predicate NotEmpty(s: string) {
    !Blank(s)
  }

  /** DataTypes.STRING is VARCHAR(255) in PostgreSQL. */
  const VarCharLength: nat := 255

  /** The constraints on a stored task beyond its field types. */
  predicate TaskRowValid(t: Task) {
    NotEmpty(t.description)
  }

  /** The constraints on a stored user beyond its field types. The email
      validator (isEmail) is outside the model; it rejects the empty string. */
  predicate UserRowValid(u: User) {
    && NotEmpty(u.name) && |u.name| <= VarCharLength
    && u.email != "" && |u.email| <= VarCharLength
    && NotEmpty(u.password) && |u.password| <= VarCharLength
  }

  /** The text a TEXT column stores for a value: strings as they are,
      numbers and booleans in their String() form; null, a missing value,
      objects and arrays are rejected (allowNull is false, and Sequelize
      refuses an array or an object for a text column). */
  function StoredText(v: JsValue): (r: Option<string>)
    ensures r.Some? <==> v.Str? || v.Num? || v.Bool?
    ensures r.Some? ==> r.value == ToJsString(v)
  {
    if v.Str? || v.Num? || v.Bool? then Some(ToJsString(v)) else None
  }

  /** The largest magnitude of a time value, in milliseconds (TimeClip). */
  const MaxTime: int := 8_640_000_000_000_000

  /** The instant `new Date(v)` denotes, or None for an Invalid Date.
      Date-string parsing is a parameter: the model does not implement it. */
  function NewDate(v: JsValue, parse: string -> Option<int>): (r: Option<int>)
    ensures r.Some? ==> -MaxTime <= r.value <= MaxTime
    ensures v.Num? ==> (r.Some? <==> -MaxTime <= v.n <= MaxTime)
    ensures v.Num? && r.Some? ==> r.value == v.n
    ensures v.Null? ==> r == Some(0)
    ensures v.Undefined? ==> r.None?
  {
    var t := match v
      case Undefined => None
      case Null => Some(0)
      case Bool(b) => Some(if b then 1 else 0)
      case Num(n) => Some(n)
      case Str(s) => parse(s)
      case Object => parse(ToJsString(v))
      case Array(_) => parse(ToJsString(v));
    if t.Some? && -MaxTime <= t.value <= MaxTime then t else None
  }

  /** An object or array argument is converted to its String() form and
      that string is parsed. */
  lemma ObjectDateParsesString(v: JsValue, parse: string -> Option<int>)
    requires v.Object? || v.Array?
    ensures NewDate(v, parse) == NewDate(Str(ToJsString(v)), parse)
  {
  }

  /** So `new Date(["2024-06-01"])` is `new Date("2024-06-01")`. */
  lemma SingletonArrayDate(s: string, parse: string -> Option<int>)
    ensures NewDate(Array([Str(s)]), parse) == NewDate(Str(s), parse)
  {
    ObjectDateParsesString(Array([Str(s)]), parse);
    SingletonArrayString(Str(s));
  }

  /** The attribute values a handler passes to Task.create or task.update,
      before Sequelize and PostgreSQL check them. */
  datatype TaskFields = TaskFields(userId: Id, description: JsValue, dueDate: Option<int>, status: JsValue)

  /** The status spellings of the ENUM column. */
  const StatusValues: seq<string> := ["pending", "completed", "inProgress", "cancelled"]

  /** The row the store would hold for `f`, or None when the schema rejects
      it: a description with no non-blank text form, or a status that is
      neither absent (the default applies) nor one of the ENUM spellings. */
  function ValidateTask(id: Id, f: TaskFields): (r: Option<Task>)
    ensures r.Some? <==>
              && StoredText(f.description).Some? && NotEmpty(StoredText(f.description).value)
              && (f.status.Undefined? || (f.status.Str? && f.status.s in StatusValues))
    ensures r.Some? ==>
              && r.value.id == id && r.value.userId == f.userId
              && Some(r.value.description) == StoredText(f.description) && r.value.dueDate == f.dueDate
              && TaskRowValid(r.value)
    ensures r.Some? && f.status.Undefined? ==> r.value.status == Pending
    ensures r.Some? && f.status.Str? ==> StatusName(r.value.status) == f.status.s
  {
    match StoredText(f.description)
    case None => None
    case Some(text) =>
      if !NotEmpty(text) then None
      else if f.status.Undefined? then Some(Task(id, f.userId, text, f.dueDate, Pending))
      else if !f.status.Str? then None
      else match ParseStatus(f.status.s)
        case None => None
        case Some(st) => Some(Task(id, f.userId, text, f.dueDate, st))
  }
}
