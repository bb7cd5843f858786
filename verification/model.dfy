/** The persistent state the request handlers work on: a table of users and a
    table of tasks, as the handlers see them through the object-relational mapper.

    Users are never deleted, so a user's id is its position in `users` (ids are
    assigned in insertion order, counting from 0 here). Tasks can be deleted, so
    they live in a map keyed by id, with `nextTaskId` standing for the
    database's auto-increment counter.

    The password credential is a type parameter `C`: the model says nothing
    about how it is derived. Hashing is a pair of uninterpreted functions
    supplied by the caller (see `Hasher`). */
module Model {
  import opened Wrappers

  type UserId = nat
  type TaskId = nat

  /** The random salt the hashing library draws when a password is set. */
  type Salt = nat

  datatype User<C> = User(username: string, credential: C, isAdmin: bool)

  /** `description` is nullable in the table; only the add-task route creates
      tasks here, and it always stores a string. */
  datatype Task = Task(title: string, description: Option<string>, status: string, owner: UserId)

  datatype Store<C> = Store(users: seq<User<C>>, tasks: map<TaskId, Task>, nextTaskId: TaskId)

  /** The password-hashing library behind `User.set_password` and
      `User.check_password`: `derive` turns a salt and a plaintext into a
      stored credential, `check` compares a plaintext with a credential. */
  datatype Hasher<!C> = Hasher(derive: (Salt, string) -> C, check: (C, string) -> bool)

  /** The library's promise that a credential accepts the password it was derived from. */
  ghost predicate AcceptsOwnPassword<C>(h: Hasher<C>) {
    forall salt: Salt, pw: string :: h.check(h.derive(salt, pw), pw)
  }

  /** The library's promise that a credential rejects every other password
      (true of a cryptographic hash up to collisions). */
  ghost predicate RejectsOtherPasswords<C>(h: Hasher<C>) {
    forall salt: Salt, pw: string, other: string :: other != pw ==> !h.check(h.derive(salt, pw), other)
  }

  /** Some user is registered under `name`. */
  predicate UsernameTaken<C>(users: seq<User<C>>, name: string) {
    exists i :: 0 <= i < |users| && users[i].username == name
  }

  /** The lowest id at or after `from` whose username is `name`. */
  function FindFrom<C>(users: seq<User<C>>, name: string, from: nat): (r: Option<UserId>)
    requires from <= |users|
    decreases |users| - from
    ensures r.Some? ==> from <= r.value < |users| && users[r.value].username == name
    ensures r.Some? ==> forall j :: from <= j < r.value ==> users[j].username != name
    ensures r.None? ==> forall j :: from <= j < |users| ==> users[j].username != name
  {
    if from == |users| then None
    else if users[from].username == name then Some(from)
    else FindFrom(users, name, from + 1)
  }

  /** `User.query.filter_by(username=name).first()`: the first user, in id
      order, registered under `name`, if any. */
  function FindByUsername<C>(users: seq<User<C>>, name: string): (r: Option<UserId>)
    ensures r.Some? <==> UsernameTaken(users, name)
    ensures r.Some? ==> r.value < |users| && users[r.value].username == name
    ensures r.Some? ==> forall j :: 0 <= j < r.value ==> users[j].username != name
  {
    FindFrom(users, name, 0)
  }

  /** `Task.query.filter_by(user_id=u)`: the tasks owned by `u`, keyed by id. */
  function TasksOf(tasks: map<TaskId, Task>, u: UserId): map<TaskId, Task> {
    map t | t in tasks && tasks[t].owner == u :: tasks[t]
  }

  /** No two users share a username (the table's unique index). */
  ghost predicate UniqueUsernames<C>(users: seq<User<C>>) {
    forall i, j :: 0 <= i < j < |users| ==> users[i].username != users[j].username
  }

  /** Every task's owner is an existing user (the foreign key). */
  ghost predicate OwnersExist<C>(s: Store<C>) {
    forall t :: t in s.tasks ==> s.tasks[t].owner < |s.users|
  }

  /** Every task id was handed out by the counter, so the next one is fresh. */
  ghost predicate IdsBelowCounter<C>(s: Store<C>) {
    forall t :: t in s.tasks ==> t < s.nextTaskId
  }

  /** The store's relational invariants. */
  ghost predicate Valid<C>(s: Store<C>) {
    && UniqueUsernames(s.users)
    && OwnersExist(s)
    && IdsBelowCounter(s)
  }
}
