/** Consequences of the handlers that span more than one request: the
    register/login round trip, duplicate registration, the all-or-nothing
    login, adding then listing, and deleting then looking up. */
module Properties {
  import opened Wrappers
  import opened Model
  import opened Routes
  import opened Server

  /** Login succeeds exactly when some user has that username and a
      credential accepting the password, and then the identity is that user.
      An unknown username and a wrong password are not told apart. */
  lemma LoginSucceedsIff<C>(s: Store<C>, h: Hasher<C>, identity: Option<UserId>, name: string, password: string)
    requires UniqueUsernames(s.users)
    ensures var r := Login(s, h, identity, Post, Some(name), Some(password));
            && (r.outcome == Redirect(HomeView, None) <==> exists u: UserId :: Authenticates(s, h, u, name, password))
            && (forall u: UserId :: Authenticates(s, h, u, name, password) ==> r.identity == Some(u))
            && (r.outcome != Redirect(HomeView, None) ==>
                  r.identity == identity && r.outcome == Render(LoginPage, Some(InvalidLoginMsg)))
  {
  }

  /** Registering a fresh username and then logging in with it: the same
      password makes the new user the identity, any other password is refused. */
  lemma RegisterThenLogin<C>(s: Store<C>, h: Hasher<C>, identity: Option<UserId>, name: string,
                             password: string, attempt: string, salt: Salt)
    requires Valid(s)
    requires !UsernameTaken(s.users, name)
    ensures var r1 := Register(s, h, identity, Post, Some(name), Some(password), salt);
            var r2 := Login(r1.store, h, r1.identity, Post, Some(name), Some(attempt));
            && (AcceptsOwnPassword(h) && attempt == password ==>
                  r2.identity == Some(|s.users|) && r2.outcome == Redirect(HomeView, None))
            && (RejectsOtherPasswords(h) && attempt != password ==>
                  r2.identity == identity && r2.outcome == Render(LoginPage, Some(InvalidLoginMsg)))
  {
    var r1 := Register(s, h, identity, Post, Some(name), Some(password), salt);
    var u := |s.users|;
    assert r1.store.users[u] == User(name, h.derive(salt, password), false);
    assert UniqueUsernames(r1.store.users) by {
      assert Valid(Step(s, h, identity, RegisterRequest(Post, Some(name), Some(password), salt)).store);
    }
    LoginSucceedsIff(r1.store, h, identity, name, attempt);
  }

  /** Registering the same username twice: the second attempt is refused
      with "Username already exists!" and only the first user is added. */
  lemma DuplicateRegistrationRejected<C>(s: Store<C>, h: Hasher<C>, identity: Option<UserId>, name: string,
                                         first: string, second: string, salt1: Salt, salt2: Salt)
    requires Valid(s)
    requires !UsernameTaken(s.users, name)
    ensures var r1 := Register(s, h, identity, Post, Some(name), Some(first), salt1);
            var r2 := Register(r1.store, h, r1.identity, Post, Some(name), Some(second), salt2);
            && r2.outcome == Redirect(RegisterView, Some(DuplicateUsernameMsg))
            && r2.store.users == s.users + [User(name, h.derive(salt1, first), false)]
            && UniqueUsernames(r2.store.users)
  {
    var r1 := Register(s, h, identity, Post, Some(name), Some(first), salt1);
    assert r1.store.users[|s.users|].username == name;
    assert UniqueUsernames(r1.store.users) by {
      assert Valid(Step(s, h, identity, RegisterRequest(Post, Some(name), Some(first), salt1)).store);
    }
  }

  /** A task added by a signed-in user appears in that user's listing with
      the given title, status "Pending" and the given or empty description. */
  lemma AddThenList<C>(s: Store<C>, identity: Option<UserId>, title: string, description: Option<string>)
    requires Valid(s)
    requires CurrentUser(s, identity).Some?
    ensures var r1 := AddTask(s, identity, Some(title), description);
            var r2 := ListTasks(r1.store, r1.identity);
            && r2.outcome.Render? && r2.outcome.page.TaskList?
            && s.nextTaskId in r2.outcome.page.tasks
            && r2.outcome.page.tasks[s.nextTaskId] ==
                 Task(title, Some(description.GetOr("")), DefaultStatus, identity.value)
            && |r2.outcome.page.tasks| == |TasksOf(s.tasks, identity.value)| + 1
  {
    var u := identity.value;
    var r1 := AddTask(s, identity, Some(title), description);
    var before := TasksOf(s.tasks, u);
    var after := TasksOf(r1.store.tasks, u);
    assert s.nextTaskId !in before;
    assert after.Keys == before.Keys + {s.nextTaskId};
  }

  /** After the owner deletes a task, the id is gone: deleting it again and
      updating it are both "not found", and nothing else changes. */
  lemma DeleteThenNotFound<C>(s: Store<C>, identity: Option<UserId>, id: TaskId, status: Option<string>)
    requires CurrentUser(s, identity).Some?
    requires id in s.tasks && s.tasks[id].owner == identity.value
    ensures var r1 := DeleteTask(s, identity, id);
            && r1.outcome == Redirect(TasksView, None)
            && DeleteTask(r1.store, r1.identity, id) == Response(r1.store, identity, NotFound)
            && UpdateTask(r1.store, r1.identity, id, status) == Response(r1.store, identity, NotFound)
  {
  }

  /** Status is a free label with no lifecycle: the owner can move a task to
      any status and back to "Pending" by giving no status at all. */
  lemma StatusRoundTrip<C>(s: Store<C>, identity: Option<UserId>, id: TaskId, newStatus: string)
    requires CurrentUser(s, identity).Some?
    requires id in s.tasks && s.tasks[id].owner == identity.value
    ensures var r1 := UpdateTask(s, identity, id, Some(newStatus));
            var r2 := UpdateTask(r1.store, r1.identity, id, None);
            && r1.store.tasks[id].status == newStatus
            && r2.store.tasks == s.tasks[id := s.tasks[id].(status := DefaultStatus)]
  {
  }
}
