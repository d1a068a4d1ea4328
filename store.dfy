/** The PostgreSQL database behind the two Sequelize models, reduced to the
    operations the handlers and the sweep use: findAll / findOne / findByPk,
    create, update (save) and destroy, with the schema's validation, the
    foreign key with ON DELETE CASCADE and the unique email. */
module Db {
  import opened Js
  import opened Models

  class Store {
    var users: map<Id, User>
    var tasks: map<Id, Task>
    /** Ids handed out so far are below nextId: the model of UUIDV4 defaults. */
    var nextId: Id

    /** The database's invariant: rows sit under their own primary key, every
        id was generated, every row passes its column constraints, every task
        references an existing user and no two users share an email. */
    ghost predicate Valid()
      reads this
    {
      && (forall id | id in users :: users[id].id == id && id < nextId && UserRowValid(users[id]))
      && (forall id | id in tasks ::
            tasks[id].id == id && id < nextId && TaskRowValid(tasks[id]) && tasks[id].userId in users)
      && (forall a, b | a in users && b in users && users[a].email == users[b].email :: a == b)
    }

    constructor ()
      ensures Valid() && users == map[] && tasks == map[]
    {
      users, tasks, nextId := map[], map[], 0;
    }

    /** Task.findOne({ where: { id, userId } }): the task with that id, only
        when its owner is userId. */
    function FindTask(id: Id, userId: Id): (r: Option<Task>)
      reads this
      ensures r.Some? ==> id in tasks && r.value == tasks[id] && r.value.userId == userId
      ensures r.None? ==> id !in tasks || tasks[id].userId != userId
    {
      if id in tasks && tasks[id].userId == userId then Some(tasks[id]) else None
    }

    /** Task.findOne({ where: { userId, description } }) found a row. */
    predicate HasTaskWithDescription(userId: Id, description: string)
      reads this
    {
      exists id | id in tasks :: tasks[id].userId == userId && tasks[id].description == description
    }

    /** Task.findAll({ where }): the ids of exactly the tasks satisfying the
        condition, each once, in an order the database chooses. */
    method FindAll(where: Task -> bool) returns (ids: seq<Id>)
      ensures forall id :: id in ids <==> id in tasks && where(tasks[id])
      ensures forall i, j | 0 <= i < j < |ids| :: ids[i] != ids[j]
    {
      ids := [];
      var rest := tasks.Keys;
      while rest != {}
        invariant rest <= tasks.Keys
        invariant forall id :: id in ids <==> id in tasks && id !in rest && where(tasks[id])
        invariant forall i, j | 0 <= i < j < |ids| :: ids[i] != ids[j]
        decreases rest
      {
        var id :| id in rest;
        if where(tasks[id]) {
          ids := ids + [id];
        }
        rest := rest - {id};
      }
    }

    /** User.findOne({ where: { email } }): the user registered under exactly
        this (case-sensitive) email, if any. */
    method FindUserByEmail(email: string) returns (u: Option<User>)
      ensures u.Some? <==> exists id | id in users :: users[id].email == email
      ensures u.Some? ==> u.value in users.Values && u.value.email == email
    {
      if id :| id in users && users[id].email == email {
        u := Some(users[id]);
      } else {
        u := None;
      }
    }

    /** Task.create(fields): None when validation or the foreign key rejects
        the row (Sequelize throws); otherwise the new row under a fresh id. */
    method CreateTask(f: TaskFields) returns (r: Option<Task>)
      requires Valid()
      modifies this
      ensures Valid() && users == old(users)
      ensures r.None? <==> ValidateTask(old(nextId), f).None? || f.userId !in users
      ensures r.None? ==> tasks == old(tasks) && nextId == old(nextId)
      ensures r.Some? ==> && r == ValidateTask(r.value.id, f)
                          && r.value.id !in old(tasks) && r.value.id !in old(users)
                          && tasks == old(tasks)[r.value.id := r.value]
    {
      var row := ValidateTask(nextId, f);
      if row.None? || f.userId !in users {
        return None;
      }
      tasks := tasks[nextId := row.value];
      nextId := nextId + 1;
      r := row;
    }

    /** task.update(fields) / task.save() on the stored row `id`: None when
        validation rejects the new values, and then nothing changes. */
    method UpdateTask(id: Id, f: TaskFields) returns (r: Option<Task>)
      requires Valid() && id in tasks && f.userId == tasks[id].userId
      modifies this
      ensures Valid() && users == old(users) && nextId == old(nextId)
      ensures r == ValidateTask(id, f)
      ensures r.None? ==> tasks == old(tasks)
      ensures r.Some? ==> tasks == old(tasks)[id := r.value]
    {
      r := ValidateTask(id, f);
      if r.Some? {
        tasks := tasks[id := r.value];
      }
    }

    /** task.destroy(): the row is gone, nothing else changes. */
    method DestroyTask(id: Id)
      requires Valid()
      modifies this`tasks
      ensures Valid()
      ensures tasks == old(tasks) - {id}
    {
      tasks := tasks - {id};
    }

    /** User.create({ name, email, password }): the row is rejected (Sequelize
        throws) unless it passes the column constraints, the isEmail
        validator and the unique index on email. */
    method CreateUser(name: string, email: string, password: string, joiningTime: int, isEmail: string -> bool)
      returns (r: Option<User>)
      requires Valid()
      modifies this
      ensures Valid() && tasks == old(tasks)
      ensures r.None? <==>
                || !UserRowValid(User(old(nextId), name, email, password, joiningTime))
                || !isEmail(email)
                || exists id | id in old(users) :: old(users)[id].email == email
      ensures r.None? ==> users == old(users) && nextId == old(nextId)
      ensures r.Some? ==> && r.value == User(r.value.id, name, email, password, joiningTime)
                          && r.value.id !in old(users) && r.value.id !in old(tasks)
                          && users == old(users)[r.value.id := r.value]
    {
      var u := User(nextId, name, email, password, joiningTime);
      if !UserRowValid(u) || !isEmail(email) || exists id | id in users :: users[id].email == email {
        return None;
      }
      users := users[nextId := u];
      nextId := nextId + 1;
      r := Some(u);
    }

    /** Deleting a user: ON DELETE CASCADE removes every task the user owns. */
    method DestroyUser(id: Id)
      requires Valid()
      modifies this
      ensures Valid() && nextId == old(nextId)
      ensures users == old(users) - {id}
      ensures tasks == map t | t in old(tasks) && old(tasks)[t].userId != id :: old(tasks)[t]
    {
      var kept := map t | t in tasks && tasks[t].userId != id :: tasks[t];
      var users' := users - {id};
      forall t | t in kept
        ensures kept[t].id == t && t < nextId && TaskRowValid(kept[t]) && kept[t].userId in users'
      {
        assert kept[t] == tasks[t];
      }
      users := users';
      tasks := kept;
    }
  }
}
