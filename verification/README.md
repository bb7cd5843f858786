# Task tracker request handling, modelled in Dafny

This project models the request handlers of a small multi-user task tracker:
users register and log in, each user creates, lists, updates and deletes their
own tasks, and an admin can see every user. Each handler is a pure transition
over an immutable store:

- the **store** (`Model.Store`) holds the user table as a sequence indexed by
  user id, the task table as a map from task id to task, and the next task id;
- the **identity** is passed explicitly as `Option<UserId>`, standing for the
  user id in the session cookie, instead of an ambient current user;
- each handler returns the new store, the new identity and an **outcome**
  (`Routes.Outcome`): a rendered page, a redirect to a view, "not found",
  "bad request" or the login-required redirect. The flashed message is a
  field of the rendered page or redirect instead of a global queue.

Passwords are opaque. The credential is a type parameter `C`, and the hashing
library is a `Model.Hasher` record of two uninterpreted functions: `derive`
makes a credential from a salt and a password, and `check` compares a password
with a credential. The model says nothing about how they work. The round-trip
lemmas take the library's two promises as hypotheses
(`AcceptsOwnPassword`, `RejectsOtherPasswords`).

Modules, one per concern:

- `wrappers.dfy` (`Wrappers`): `Option`.
- `model.dfy` (`Model`): users, tasks, the store, the hasher, the username
  lookup and the store invariants (`Valid`): unique usernames, every task's
  owner exists, every task id lies below the counter.
- `routes.dfy` (`Routes`): `register`, `login`, `logout`, `tasks`,
  `add_task`, `update_task`, `delete_task` and `admin_dashboard`. Each is a
  function whose contract states the outcome and the store change for every
  branch.
- `server.dfy` (`Server`): dispatch of one request (`Step`) and a run of
  requests handled one at a time (`Run`). It also proves that the invariants
  hold after every request and that users are never removed or changed.
- `isolation.dfy` (`Isolation`): per-user non-interference.
  - No request changes another user's tasks.
  - No outcome depends on another user's tasks, except through which task
    ids exist and the next task id. This holds for one request, and for any
    run of requests that does not log in.
  - Only admins see the user table.
- `properties.dfy` (`Properties`): properties spanning several requests.
  - Register then log in.
  - Duplicate registration.
  - Login succeeds exactly when the username and password match.
  - Add a task, then list.
  - Delete a task, then look it up.
  - Change a status and change it back.

The model follows the code:

- A task title only has to be present in the form. An empty title is accepted.
- No handler checks that a task's owner exists. The owner is always the
  authenticated caller, and `CurrentUser` only resolves ids of existing users.
  The invariant `OwnersExist` is therefore proved, not checked.
- A failed login re-renders the login form with the message. It does not
  redirect.

Two consequences are worth noting. Both let a caller learn something about
other users' tasks:

- `update_task` and `delete_task` answer "not found" for an unknown id, but
  "can't update"/"can't delete" for another user's id. So a caller can learn
  which task ids exist.
- `add_task` gives a new task the next id of a counter that all users share.
  So the id of the caller's new task shows how many tasks have been created
  in total.

`Isolation.StepRevealsOnlyOwnTasks` proves that, within one request, these
are the only things a caller learns about other users' tasks.
`Isolation.RunRevealsOnlyOwnTasks` proves the same for any run of requests
that does not log in. A login can switch the session to another user, whose
own tasks that session then sees.

## Model

| member | source | states |
|---|---|---|
| `Model.FindByUsername` | app/routes.py:18 | the lookup finds a user iff one is registered under the name; the user it finds has that name and no lower id has it |
| `Routes.Register` | app/routes.py:12-30 | GET shows the form; a missing field is a bad request; a taken name leaves the store unchanged with "Username already exists!" and a redirect to register; a fresh name appends exactly one non-admin user with a credential derived from the password, changes no existing user or task, and redirects to login with the success message |
| `Routes.Login` | app/routes.py:32-44 | the store never changes; a redirect home happens only for a POST, and the new identity is then a user with that username whose credential accepts the password; otherwise the identity is unchanged, a POST with a missing field is a bad request, and a POST with both fields gets "Invalid username or password."; an unknown name always fails |
| `Routes.Logout` | app/routes.py:46-50 | an anonymous caller is sent to log in; an authenticated caller loses the identity and is redirected home; the store never changes |
| `Routes.ListTasks` | app/routes.py:52-56 | an authenticated caller sees exactly the tasks whose owner is the caller, with their stored contents, and no other task; the store never changes |
| `Routes.AddTask` | app/routes.py:58-66 | an anonymous caller or a missing title changes nothing; otherwise the task with the next counter id becomes one owned by the caller, with status "Pending" and the description given or "" when absent; no other task changes, and the caller is redirected to the task list; on a store whose task ids all lie below the counter, which every valid store satisfies, that id is fresh and the table grows by exactly one |
| `Routes.UpdateTask` | app/routes.py:68-79 | an unknown id is not found before ownership is checked; a non-owner gets "You can't update this task." with the store unchanged; the owner's update sets only that task's status, to any given string or "Pending" when absent, and leaves every other field and task unchanged |
| `Routes.DeleteTask` | app/routes.py:81-91 | an unknown id is not found before ownership is checked; a non-owner gets "You can't delete this task." with the store unchanged; the owner's delete removes exactly that id and leaves every other task unchanged |
| `Routes.AdminDashboardRoute` | app/routes.py:93-101 | the user listing is rendered iff the caller is an authenticated admin, and then it lists all users; a non-admin gets "Access denied. Admins only!" and a redirect home; the store never changes |
| `Server.Step` | app/routes.py:8-101 | every request keeps the store invariants (unique usernames, existing owners, fresh task ids); it appends at most one user and never changes existing users; apart from login, a request leaves the session's user id as it was or clears it; a stale session id can come to name a user registered later, without a login |
| `Server.Run` | app/routes.py:12-101 | over any sequence of requests, usernames stay unique, every task's owner exists, and no user is removed or changed |
| `Isolation.StepKeepsOthersTasks` | app/routes.py:58-91 | a request whose authenticated caller is not user v leaves v's tasks exactly as they were: none is added, removed or changed |
| `Isolation.RunKeepsOthersTasks` | app/routes.py:38-91 | in any sequence of requests, starting from a session that is not v's, in which no login presents v's username with a password v's credential accepts, v's tasks end exactly as they began; failed guesses at v's password are allowed |
| `Isolation.StepRevealsOnlyOwnTasks` | app/routes.py:52-91 | within one request: two stores that agree on users, on which task ids exist, on the next task id and on the caller's own tasks give the caller the same outcome and identity |
| `Isolation.StepKeepsSameView` | app/routes.py:46-91 | a request other than login, handled in two stores that look the same to the session, leaves the same identity and two stores that still look the same to it |
| `Isolation.RunRevealsOnlyOwnTasks` | app/routes.py:46-101 | over any run of requests without a login, two stores that look the same to the session give it the same outcome at every request, the same final identity, and final stores that still look the same |
| `Server.Replies` | app/routes.py:8-101 | handling a run of requests yields exactly one outcome per request |
| `Server.RepliesAreStepOutcomes` | app/routes.py:8-101 | outcome i of a run is the outcome request i gets in the store and session the requests before it leave behind |
| `Isolation.OnlyAdminsSeeUsers` | app/routes.py:96-101 | a request renders the user table iff it is the admin request of an authenticated admin |
| `Properties.LoginSucceedsIff` | app/routes.py:38-44 | with unique usernames, login redirects home iff some user has that username and a credential accepting the password, and then the identity is exactly that user; otherwise the identity is unchanged and the one message "Invalid username or password." is shown |
| `Properties.RegisterThenLogin` | app/routes.py:22-41 | after a fresh registration, logging in with the same password makes the new user the identity, and any other password is refused, given the hashing library's promises |
| `Properties.DuplicateRegistrationRejected` | app/routes.py:18-20 | registering a name twice adds one user only; the second attempt gets "Username already exists!" and usernames stay unique |
| `Properties.AddThenList` | app/routes.py:55-66 | a task added by a signed-in user appears in that user's listing, with the given title, status "Pending" and the given or empty description, and the listing grows by exactly one |
| `Properties.DeleteThenNotFound` | app/routes.py:84-91 | after the owner deletes a task, deleting or updating that id again is "not found" and changes nothing |
| `Properties.StatusRoundTrip` | app/routes.py:76-77 | the status is a free label: the owner can set any string and then return it to "Pending" by giving none, which restores the task map except for the status |

## Left out

- Template rendering, `url_for`, HTTP status codes and following redirects are presentation. Outcomes are an abstract datatype.
- The home page (`app/routes.py:8-10`) only renders a template. It appears in `Server.Step` without a contract of its own.
- Session cookies and the `login_required` redirect belong to the login library. They appear as `Routes.CurrentUser` and the `LoginRequired` outcome. An id that names no user loads as anonymous. The message the library flashes is not modelled.
- Password hashing belongs to the user model's `set_password`/`check_password`, which are not part of this model. The credential is opaque, and the random salt is a field of the register request.
- Database sessions, commits and the unique-index `IntegrityError` are not modelled. Neither is the race between two concurrent registrations of one name. Requests are handled one at a time, and the duplicate-name check in the handler is the only guard.
- Task ids come from a counter that never reuses an id. How the database really assigns ids is not modelled. User ids are positions in the user table and start at 0, not 1.
- Tasks created outside the handlers can have no description. The `Option` description allows such tasks in a store, but no handler creates one.
- The test files and fixtures are not modelled.
