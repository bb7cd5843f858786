/** Per-user isolation: no request changes the tasks of a user other than
    the caller, no outcome depends on another user's tasks beyond which ids
    exist and the next task id, and only admins see the user table. */
module Isolation {
  import opened Wrappers
  import opened Model
  import opened Routes
  import opened Server

  /** A request whose authenticated caller is not `v` leaves `v`'s tasks
      exactly as they were: none changed, none removed, none added. */
  lemma StepKeepsOthersTasks<C>(s: Store<C>, h: Hasher<C>, identity: Option<UserId>, req: Request, v: UserId)
    requires Valid(s)
    requires CurrentUser(s, identity) != Some(v)
    ensures TasksOf(Step(s, h, identity, req).store.tasks, v) == TasksOf(s.tasks, v)
  {
  }

  /** Whatever requests run, as long as no login presents `v`'s username
      with a password `v`'s credential accepts and the session does not start
      as `v`, `v`'s tasks end up as they began. Failed guesses at `v`'s
      password are allowed. */
  lemma {:induction false} RunKeepsOthersTasks<C>(s: Store<C>, h: Hasher<C>, identity: Option<UserId>,
                                                  reqs: seq<Request>, v: UserId)
    requires Valid(s)
    requires v < |s.users|
    requires identity != Some(v)
    requires forall i ::
               (0 <= i < |reqs| && reqs[i].LoginRequest? &&
                reqs[i].username == Some(s.users[v].username) && reqs[i].password.Some?) ==>
               !h.check(s.users[v].credential, reqs[i].password.value)
    ensures TasksOf(Run(s, h, identity, reqs).store.tasks, v) == TasksOf(s.tasks, v)
    decreases |reqs|
  {
    if reqs != [] {
      var r := Step(s, h, identity, reqs[0]);
      StepKeepsOthersTasks(s, h, identity, reqs[0], v);
      assert r.store.users[v] == s.users[v];
      assert r.identity != Some(v);
      forall i | 0 <= i < |reqs[1..]| && reqs[1..][i].LoginRequest? &&
                 reqs[1..][i].username == Some(r.store.users[v].username) && reqs[1..][i].password.Some?
        ensures !h.check(r.store.users[v].credential, reqs[1..][i].password.value)
      {
        assert reqs[1..][i] == reqs[i + 1];
      }
      RunKeepsOthersTasks(r.store, h, r.identity, reqs[1..], v);
    }
  }

  /** Two stores that agree on the users, on which task ids exist, on the
      next task id and on the tasks of the session's user look the same to
      that session. */
  ghost predicate SameView<C>(s1: Store<C>, s2: Store<C>, identity: Option<UserId>) {
    && s1.users == s2.users
    && s1.tasks.Keys == s2.tasks.Keys
    && s1.nextTaskId == s2.nextTaskId
    && (identity.Some? ==> TasksOf(s1.tasks, identity.value) == TasksOf(s2.tasks, identity.value))
  }

  /** What one request returns depends on other users' tasks only through
      which task ids exist and the next task id: an unknown id is "not found"
      while another user's id is "can't update"/"can't delete", and the id of a
      newly added task counts every user's tasks. Nothing more of them shows. */
  lemma StepRevealsOnlyOwnTasks<C>(s1: Store<C>, s2: Store<C>, h: Hasher<C>, identity: Option<UserId>, req: Request)
    requires SameView(s1, s2, identity)
    ensures Step(s1, h, identity, req).outcome == Step(s2, h, identity, req).outcome
    ensures Step(s1, h, identity, req).identity == Step(s2, h, identity, req).identity
  {
    if (req.UpdateTaskRequest? || req.DeleteTaskRequest?) && CurrentUser(s1, identity).Some? && req.id in s1.tasks {
      var u := identity.value;
      assert s1.tasks[req.id].owner == u <==> req.id in TasksOf(s1.tasks, u);
      assert s2.tasks[req.id].owner == u <==> req.id in TasksOf(s2.tasks, u);
    }
  }

  /** Two task tables with the same ids and the same tasks of `u`, edited
      identically at `id` and left alone elsewhere, still agree on `u`'s tasks. */
  lemma SameOwnTasksAfterEdit(t1: map<TaskId, Task>, t2: map<TaskId, Task>,
                              t1': map<TaskId, Task>, t2': map<TaskId, Task>, u: UserId, id: TaskId)
    requires t1.Keys == t2.Keys && TasksOf(t1, u) == TasksOf(t2, u)
    requires t1'.Keys == t2'.Keys && t1'.Keys - {id} == t1.Keys - {id}
    requires id in t1' ==> t1'[id] == t2'[id]
    requires forall t :: t in t1' && t != id ==> t in t1 && t1'[t] == t1[t] && t2'[t] == t2[t]
    ensures TasksOf(t1', u) == TasksOf(t2', u)
  {
    forall t | t in t1' && t != id
      ensures t1'[t].owner == u <==> t2'[t].owner == u
      ensures t1'[t].owner == u ==> t1'[t] == t2'[t]
    {
      assert t1[t].owner == u <==> t in TasksOf(t1, u);
      assert t2[t].owner == u <==> t in TasksOf(t2, u);
      if t1[t].owner == u {
        assert TasksOf(t1, u)[t] == t1[t];
      }
    }
    assert TasksOf(t1', u).Keys == TasksOf(t2', u).Keys;
  }

  /** A request made without logging in keeps two stores that look the same
      to the session looking the same, and leaves the identity alike. */
  lemma StepKeepsSameView<C>(s1: Store<C>, s2: Store<C>, h: Hasher<C>, identity: Option<UserId>, req: Request)
    requires SameView(s1, s2, identity)
    requires !req.LoginRequest?
    ensures var r1 := Step(s1, h, identity, req);
            var r2 := Step(s2, h, identity, req);
            r1.identity == r2.identity && SameView(r1.store, r2.store, r1.identity)
  {
    match req
    case AddTaskRequest(title, description) =>
      AddTaskKeepsSameView(s1, s2, identity, title, description);
    case UpdateTaskRequest(id, status) =>
      UpdateKeepsSameView(s1, s2, identity, id, status);
    case DeleteTaskRequest(id) =>
      DeleteKeepsSameView(s1, s2, identity, id);
    case _ =>
  }

  /** Adding a task keeps two stores that look the same to the session alike. */
  lemma AddTaskKeepsSameView<C>(s1: Store<C>, s2: Store<C>, identity: Option<UserId>,
                                title: Option<string>, description: Option<string>)
    requires SameView(s1, s2, identity)
    ensures var r1 := AddTask(s1, identity, title, description);
            var r2 := AddTask(s2, identity, title, description);
            r1.identity == r2.identity && SameView(r1.store, r2.store, r1.identity)
  {
    var r1 := AddTask(s1, identity, title, description);
    var r2 := AddTask(s2, identity, title, description);
    if CurrentUser(s1, identity).Some? && title.Some? {
      SameOwnTasksAfterEdit(s1.tasks, s2.tasks, r1.store.tasks, r2.store.tasks, identity.value, s1.nextTaskId);
    }
  }

  /** An owner's task is the same task in two stores that look the same to
      the owner, and a task of someone else is someone else's in both. */
  lemma SameOwnership<C>(s1: Store<C>, s2: Store<C>, identity: Option<UserId>, id: TaskId)
    requires SameView(s1, s2, identity)
    requires identity.Some? && id in s1.tasks
    ensures id in s2.tasks
    ensures s1.tasks[id].owner == identity.value <==> s2.tasks[id].owner == identity.value
    ensures s1.tasks[id].owner == identity.value ==> s1.tasks[id] == s2.tasks[id]
  {
    var u := identity.value;
    assert s1.tasks[id].owner == u <==> id in TasksOf(s1.tasks, u);
    assert s2.tasks[id].owner == u <==> id in TasksOf(s2.tasks, u);
    if s1.tasks[id].owner == u {
      assert TasksOf(s1.tasks, u)[id] == s1.tasks[id];
    }
  }

  /** Updating a task keeps two stores that look the same to the session alike. */
  lemma UpdateKeepsSameView<C>(s1: Store<C>, s2: Store<C>, identity: Option<UserId>, id: TaskId, status: Option<string>)
    requires SameView(s1, s2, identity)
    ensures var r1 := UpdateTask(s1, identity, id, status);
            var r2 := UpdateTask(s2, identity, id, status);
            r1.identity == r2.identity && SameView(r1.store, r2.store, r1.identity)
  {
    var r1 := UpdateTask(s1, identity, id, status);
    var r2 := UpdateTask(s2, identity, id, status);
    if CurrentUser(s1, identity).Some? && id in s1.tasks {
      SameOwnership(s1, s2, identity, id);
      if s1.tasks[id].owner == identity.value {
        SameOwnTasksAfterEdit(s1.tasks, s2.tasks, r1.store.tasks, r2.store.tasks, identity.value, id);
      }
    }
  }

  /** Deleting a task keeps two stores that look the same to the session alike. */
  lemma DeleteKeepsSameView<C>(s1: Store<C>, s2: Store<C>, identity: Option<UserId>, id: TaskId)
    requires SameView(s1, s2, identity)
    ensures var r1 := DeleteTask(s1, identity, id);
            var r2 := DeleteTask(s2, identity, id);
            r1.identity == r2.identity && SameView(r1.store, r2.store, r1.identity)
  {
    var r1 := DeleteTask(s1, identity, id);
    var r2 := DeleteTask(s2, identity, id);
    if CurrentUser(s1, identity).Some? && id in s1.tasks {
      SameOwnership(s1, s2, identity, id);
      if s1.tasks[id].owner == identity.value {
        SameOwnTasksAfterEdit(s1.tasks, s2.tasks, r1.store.tasks, r2.store.tasks, identity.value, id);
      }
    }
  }

  /** Over any run of requests that never logs in, two stores that look the
      same to the session give it the same outcome at every request, and end
      in the same identity and in stores that still look the same. */
  lemma {:induction false} RunRevealsOnlyOwnTasks<C>(s1: Store<C>, s2: Store<C>, h: Hasher<C>,
                                                     identity: Option<UserId>, reqs: seq<Request>)
    requires SameView(s1, s2, identity)
    requires forall i :: 0 <= i < |reqs| ==> !reqs[i].LoginRequest?
    ensures Replies(s1, h, identity, reqs) == Replies(s2, h, identity, reqs)
    ensures Run(s1, h, identity, reqs).identity == Run(s2, h, identity, reqs).identity
    ensures SameView(Run(s1, h, identity, reqs).store, Run(s2, h, identity, reqs).store,
                     Run(s1, h, identity, reqs).identity)
    decreases |reqs|
  {
    if reqs != [] {
      var r1 := Step(s1, h, identity, reqs[0]);
      var r2 := Step(s2, h, identity, reqs[0]);
      StepRevealsOnlyOwnTasks(s1, s2, h, identity, reqs[0]);
      StepKeepsSameView(s1, s2, h, identity, reqs[0]);
      forall i | 0 <= i < |reqs[1..]|
        ensures !reqs[1..][i].LoginRequest?
      {
        assert reqs[1..][i] == reqs[i + 1];
      }
      RunRevealsOnlyOwnTasks(r1.store, r2.store, h, r1.identity, reqs[1..]);
    }
  }

  /** The user table is shown only to an authenticated admin. */
  lemma OnlyAdminsSeeUsers<C>(s: Store<C>, h: Hasher<C>, identity: Option<UserId>, req: Request)
    ensures var o := Step(s, h, identity, req).outcome;
            o.Render? && o.page.AdminDashboard? <==>
              req.AdminRequest? && CurrentUser(s, identity).Some? && s.users[identity.value].isAdmin
  {
  }
}
