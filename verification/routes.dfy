/** The request handlers of the task tracker as pure transitions.

    Each handler receives the store, the session's identity (the user id the
    session cookie names, or none) and the request's parameters, and returns
    the new store, the new identity and an outcome. The flashed message is a
    field of the outcome rather than a global queue. A missing required form
    field (a `KeyError` on `request.form[...]`) is a `BadRequest`; the
    `login_required` guard is `LoginRequired`. */
module Routes {
  import opened Wrappers
  import opened Model

  const DuplicateUsernameMsg := "Username already exists!"
  const RegisteredMsg := "Registered successfully! Please log in."
  const InvalidLoginMsg := "Invalid username or password."
  const CantUpdateMsg := "You can't update this task."
  const CantDeleteMsg := "You can't delete this task."
  const AdminsOnlyMsg := "Access denied. Admins only!"

  /** The status a new task gets, and the one an update sets when no status is given. */
  const DefaultStatus := "Pending"

  datatype Verb = Get | Post

  /** The views a redirect can point at. */
  datatype Endpoint = HomeView | RegisterView | LoginView | TasksView

  datatype Page<C> =
    | HomePage
    | RegisterPage
    | LoginPage
    | TaskList(tasks: map<TaskId, Task>)
    | AdminDashboard(users: seq<User<C>>)

  datatype Outcome<C> =
    | Render(page: Page<C>, flash: Option<string>)
    | Redirect(target: Endpoint, flash: Option<string>)
    | NotFound
    | BadRequest
    | LoginRequired

  datatype Response<C> = Response(store: Store<C>, identity: Option<UserId>, outcome: Outcome<C>)

  /** The authenticated user: the session's id when it names an existing
      user; an id naming no user loads as anonymous. */
  function CurrentUser<C>(s: Store<C>, identity: Option<UserId>): (r: Option<UserId>)
    ensures r.Some? <==> identity.Some? && identity.value < |s.users|
    ensures r.Some? ==> r == identity
  {
    if identity.Some? && identity.value < |s.users| then identity else None
  }

  /** `user` is registered under `name` and its credential accepts `password`. */
  predicate Authenticates<C>(s: Store<C>, h: Hasher<C>, user: UserId, name: string, password: string) {
    user < |s.users| && s.users[user].username == name && h.check(s.users[user].credential, password)
  }

  function Home<C>(s: Store<C>, identity: Option<UserId>): Response<C> {
    Response(s, identity, Render(HomePage, None))
  }

  /** `register`: a GET shows the form; a POST with a taken username is
      refused with a message, otherwise it appends one non-admin user whose
      credential is derived from the password, and redirects to the login view. */
  function Register<C>(s: Store<C>, h: Hasher<C>, identity: Option<UserId>, verb: Verb,
                       username: Option<string>, password: Option<string>, salt: Salt): (r: Response<C>)
    ensures r.identity == identity
    ensures r.store.tasks == s.tasks && r.store.nextTaskId == s.nextTaskId
    ensures verb == Get ==> r.store == s && r.outcome == Render(RegisterPage, None)
    ensures verb == Post && (username.None? || password.None?) ==> r.store == s && r.outcome == BadRequest
    ensures verb == Post && username.Some? && password.Some? && UsernameTaken(s.users, username.value) ==>
              r.store == s && r.outcome == Redirect(RegisterView, Some(DuplicateUsernameMsg))
    ensures verb == Post && username.Some? && password.Some? && !UsernameTaken(s.users, username.value) ==>
              && r.store.users == s.users + [User(username.value, h.derive(salt, password.value), false)]
              && r.outcome == Redirect(LoginView, Some(RegisteredMsg))
  {
    match verb
    case Get => Response(s, identity, Render(RegisterPage, None))
    case Post =>
      if username.None? || password.None? then
        Response(s, identity, BadRequest)
      else if FindByUsername(s.users, username.value).Some? then
        Response(s, identity, Redirect(RegisterView, Some(DuplicateUsernameMsg)))
      else
        var user := User(username.value, h.derive(salt, password.value), false);
        Response(s.(users := s.users + [user]), identity, Redirect(LoginView, Some(RegisteredMsg)))
  }

  /** `login`: a POST whose username names a user whose credential accepts
      the password makes that user the identity and redirects home; any other
      POST re-renders the form with one message for both an unknown user and a
      wrong password. The store is never modified. */
  function Login<C>(s: Store<C>, h: Hasher<C>, identity: Option<UserId>, verb: Verb,
                    username: Option<string>, password: Option<string>): (r: Response<C>)
    ensures r.store == s
    ensures r.outcome.Redirect? ==>
              && verb == Post && username.Some? && password.Some?
              && r.outcome == Redirect(HomeView, None)
              && r.identity.Some?
              && Authenticates(s, h, r.identity.value, username.value, password.value)
    ensures !r.outcome.Redirect? ==> r.identity == identity
    ensures verb == Get ==> r.outcome == Render(LoginPage, None)
    ensures verb == Post && (username.None? || password.None?) ==> r.outcome == BadRequest
    ensures verb == Post && username.Some? && password.Some? && !r.outcome.Redirect? ==>
              r.outcome == Render(LoginPage, Some(InvalidLoginMsg))
    ensures verb == Post && username.Some? && password.Some? && !UsernameTaken(s.users, username.value) ==>
              r.outcome == Render(LoginPage, Some(InvalidLoginMsg))
  {
    match verb
    case Get => Response(s, identity, Render(LoginPage, None))
    case Post =>
      if username.None? || password.None? then
        Response(s, identity, BadRequest)
      else
        var found := FindByUsername(s.users, username.value);
        if found.Some? && h.check(s.users[found.value].credential, password.value) then
          Response(s, found, Redirect(HomeView, None))
        else
          Response(s, identity, Render(LoginPage, Some(InvalidLoginMsg)))
  }

  /** `logout`: an authenticated caller loses the identity and goes home. */
  function Logout<C>(s: Store<C>, identity: Option<UserId>): (r: Response<C>)
    ensures r.store == s
    ensures CurrentUser(s, identity).None? ==> r.identity == identity && r.outcome == LoginRequired
    ensures CurrentUser(s, identity).Some? ==> r.identity.None? && r.outcome == Redirect(HomeView, None)
  {
    if CurrentUser(s, identity).None? then Response(s, identity, LoginRequired)
    else Response(s, None, Redirect(HomeView, None))
  }

  /** `tasks`: the caller's own tasks, and no one else's. */
  function ListTasks<C>(s: Store<C>, identity: Option<UserId>): (r: Response<C>)
    ensures r.store == s && r.identity == identity
    ensures CurrentUser(s, identity).None? ==> r.outcome == LoginRequired
    ensures CurrentUser(s, identity).Some? ==>
              && r.outcome.Render? && r.outcome.flash.None? && r.outcome.page.TaskList?
              && (forall t :: t in r.outcome.page.tasks <==> t in s.tasks && s.tasks[t].owner == identity.value)
              && (forall t :: t in r.outcome.page.tasks ==> r.outcome.page.tasks[t] == s.tasks[t])
  {
    match CurrentUser(s, identity)
    case None => Response(s, identity, LoginRequired)
    case Some(u) => Response(s, identity, Render(TaskList(TasksOf(s.tasks, u)), None))
  }

  /** `add_task`: inserts one task owned by the caller, status "Pending",
      description as given or empty, under the next id; nothing else changes.
      The title must be present but may be empty. */
  function AddTask<C>(s: Store<C>, identity: Option<UserId>, title: Option<string>,
                      description: Option<string>): (r: Response<C>)
    ensures r.identity == identity && r.store.users == s.users
    ensures CurrentUser(s, identity).None? ==> r.store == s && r.outcome == LoginRequired
    ensures CurrentUser(s, identity).Some? && title.None? ==> r.store == s && r.outcome == BadRequest
    ensures CurrentUser(s, identity).Some? && title.Some? ==>
              var id := s.nextTaskId;
              && r.outcome == Redirect(TasksView, None)
              && r.store.nextTaskId == id + 1
              && r.store.tasks.Keys == s.tasks.Keys + {id}
              && r.store.tasks[id].title == title.value
              && r.store.tasks[id].description == Some(if description.Some? then description.value else "")
              && r.store.tasks[id].status == DefaultStatus
              && r.store.tasks[id].owner == identity.value
              && (forall t :: t in s.tasks && t != id ==> r.store.tasks[t] == s.tasks[t])
    ensures IdsBelowCounter(s) && CurrentUser(s, identity).Some? && title.Some? ==>
              s.nextTaskId !in s.tasks && |r.store.tasks| == |s.tasks| + 1
  {
    match CurrentUser(s, identity)
    case None => Response(s, identity, LoginRequired)
    case Some(u) =>
      if title.None? then Response(s, identity, BadRequest)
      else
        var task := Task(title.value, Some(description.GetOr("")), DefaultStatus, u);
        var s' := s.(tasks := s.tasks[s.nextTaskId := task], nextTaskId := s.nextTaskId + 1);
        Response(s', identity, Redirect(TasksView, None))
  }

  /** `update_task`: an unknown id is not found before ownership is looked
      at; a caller who does not own the task is refused with a message; the
      owner's update replaces the status, with any string, "Pending" when
      none is given, and touches nothing else. */
  function UpdateTask<C>(s: Store<C>, identity: Option<UserId>, id: TaskId, status: Option<string>): (r: Response<C>)
    ensures r.identity == identity && r.store.users == s.users && r.store.nextTaskId == s.nextTaskId
    ensures CurrentUser(s, identity).None? ==> r.store == s && r.outcome == LoginRequired
    ensures CurrentUser(s, identity).Some? && id !in s.tasks ==> r.store == s && r.outcome == NotFound
    ensures CurrentUser(s, identity).Some? && id in s.tasks && s.tasks[id].owner != identity.value ==>
              r.store == s && r.outcome == Redirect(TasksView, Some(CantUpdateMsg))
    ensures CurrentUser(s, identity).Some? && id in s.tasks && s.tasks[id].owner == identity.value ==>
              && r.outcome == Redirect(TasksView, None)
              && r.store.tasks.Keys == s.tasks.Keys
              && r.store.tasks[id].status == (if status.Some? then status.value else DefaultStatus)
              && r.store.tasks[id].title == s.tasks[id].title
              && r.store.tasks[id].description == s.tasks[id].description
              && r.store.tasks[id].owner == s.tasks[id].owner
              && (forall t :: t in s.tasks && t != id ==> r.store.tasks[t] == s.tasks[t])
  {
    match CurrentUser(s, identity)
    case None => Response(s, identity, LoginRequired)
    case Some(u) =>
      if id !in s.tasks then Response(s, identity, NotFound)
      else if s.tasks[id].owner != u then Response(s, identity, Redirect(TasksView, Some(CantUpdateMsg)))
      else
        var task := s.tasks[id].(status := status.GetOr(DefaultStatus));
        Response(s.(tasks := s.tasks[id := task]), identity, Redirect(TasksView, None))
  }

  /** `delete_task`: same resolution and ownership checks as an update; the
      owner's delete removes exactly that id. */
  function DeleteTask<C>(s: Store<C>, identity: Option<UserId>, id: TaskId): (r: Response<C>)
    ensures r.identity == identity && r.store.users == s.users && r.store.nextTaskId == s.nextTaskId
    ensures CurrentUser(s, identity).None? ==> r.store == s && r.outcome == LoginRequired
    ensures CurrentUser(s, identity).Some? && id !in s.tasks ==> r.store == s && r.outcome == NotFound
    ensures CurrentUser(s, identity).Some? && id in s.tasks && s.tasks[id].owner != identity.value ==>
              r.store == s && r.outcome == Redirect(TasksView, Some(CantDeleteMsg))
    ensures CurrentUser(s, identity).Some? && id in s.tasks && s.tasks[id].owner == identity.value ==>
              && r.outcome == Redirect(TasksView, None)
              && r.store.tasks.Keys == s.tasks.Keys - {id}
              && (forall t :: t in r.store.tasks ==> r.store.tasks[t] == s.tasks[t])
  {
    match CurrentUser(s, identity)
    case None => Response(s, identity, LoginRequired)
    case Some(u) =>
      if id !in s.tasks then Response(s, identity, NotFound)
      else if s.tasks[id].owner != u then Response(s, identity, Redirect(TasksView, Some(CantDeleteMsg)))
      else Response(s.(tasks := s.tasks - {id}), identity, Redirect(TasksView, None))
  }

  /** `admin_dashboard`: all users for an admin; a message and a redirect home
      for anyone else. The store is never modified. */
  function AdminDashboardRoute<C>(s: Store<C>, identity: Option<UserId>): (r: Response<C>)
    ensures r.store == s && r.identity == identity
    ensures CurrentUser(s, identity).None? ==> r.outcome == LoginRequired
    ensures CurrentUser(s, identity).Some? && !s.users[identity.value].isAdmin ==>
              r.outcome == Redirect(HomeView, Some(AdminsOnlyMsg))
    ensures r.outcome.Render? <==> CurrentUser(s, identity).Some? && s.users[identity.value].isAdmin
    ensures r.outcome.Render? ==> r.outcome == Render(AdminDashboard(s.users), None)
  {
    match CurrentUser(s, identity)
    case None => Response(s, identity, LoginRequired)
    case Some(u) =>
      if !s.users[u].isAdmin then Response(s, identity, Redirect(HomeView, Some(AdminsOnlyMsg)))
      else Response(s, identity, Render(AdminDashboard(s.users), None))
  }
}
