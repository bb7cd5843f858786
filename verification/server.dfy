/** Dispatch of one request to its handler, and a run of requests handled one
    at a time against the shared store. */
module Server {
  import opened Wrappers
  import opened Model
  import opened Routes

  /** One request, with the form fields and query parameters its handler reads.
      `salt` is the randomness the hashing library would draw while registering. */
  datatype Request =
    | HomeRequest
    | RegisterRequest(verb: Verb, username: Option<string>, password: Option<string>, salt: Salt)
    | LoginRequest(verb: Verb, username: Option<string>, password: Option<string>)
    | LogoutRequest
    | TasksRequest
    | AddTaskRequest(title: Option<string>, description: Option<string>)
    | UpdateTaskRequest(id: TaskId, status: Option<string>)
    | DeleteTaskRequest(id: TaskId)
    | AdminRequest

  /** The state carried from one request to the next. */
  datatype Session<C> = Session(store: Store<C>, identity: Option<UserId>)

  /** Handles one request. Users are only ever appended, at most one per
      request; the identity changes only by logging in or out; the store's
      invariants are kept. */
  function Step<C>(s: Store<C>, h: Hasher<C>, identity: Option<UserId>, req: Request): (r: Response<C>)
    ensures s.users <= r.store.users && |r.store.users| <= |s.users| + 1
    ensures s.nextTaskId <= r.store.nextTaskId
    ensures !req.LoginRequest? ==> r.identity == identity || r.identity.None?
    ensures Valid(s) ==> Valid(r.store)
  {
    match req
    case HomeRequest => Home(s, identity)
    case RegisterRequest(verb, username, password, salt) => Register(s, h, identity, verb, username, password, salt)
    case LoginRequest(verb, username, password) => Login(s, h, identity, verb, username, password)
    case LogoutRequest => Logout(s, identity)
    case TasksRequest => ListTasks(s, identity)
    case AddTaskRequest(title, description) => AddTask(s, identity, title, description)
    case UpdateTaskRequest(id, status) => UpdateTask(s, identity, id, status)
    case DeleteTaskRequest(id) => DeleteTask(s, identity, id)
    case AdminRequest => AdminDashboardRoute(s, identity)
  }

  /** Handles `reqs` in order. No user is ever removed or changed, and a
      store that satisfies the invariants still satisfies them afterwards. */
  function Run<C>(s: Store<C>, h: Hasher<C>, identity: Option<UserId>, reqs: seq<Request>): (r: Session<C>)
    decreases |reqs|
    ensures s.users <= r.store.users
    ensures s.nextTaskId <= r.store.nextTaskId
    ensures Valid(s) ==> Valid(r.store)
  {
    if reqs == [] then Session(s, identity)
    else
      var r := Step(s, h, identity, reqs[0]);
      Run(r.store, h, r.identity, reqs[1..])
  }

  /** The outcomes the caller sees while `reqs` are handled in order, one per
      request. */
  function Replies<C>(s: Store<C>, h: Hasher<C>, identity: Option<UserId>, reqs: seq<Request>): (r: seq<Outcome<C>>)
    decreases |reqs|
    ensures |r| == |reqs|
    ensures reqs != [] ==> r[0] == Step(s, h, identity, reqs[0]).outcome
  {
    if reqs == [] then []
    else
      var r := Step(s, h, identity, reqs[0]);
      [r.outcome] + Replies(r.store, h, r.identity, reqs[1..])
  }

  /** Reply `i` of a run is what request `i` gets in the state the requests
      before it leave behind. */
  lemma {:induction false} RepliesAreStepOutcomes<C>(s: Store<C>, h: Hasher<C>, identity: Option<UserId>,
                                                     reqs: seq<Request>)
    ensures forall i :: 0 <= i < |reqs| ==>
              Replies(s, h, identity, reqs)[i] ==
              Step(Run(s, h, identity, reqs[..i]).store, h, Run(s, h, identity, reqs[..i]).identity, reqs[i]).outcome
    decreases |reqs|
  {
    if reqs != [] {
      var r := Step(s, h, identity, reqs[0]);
      RepliesAreStepOutcomes(r.store, h, r.identity, reqs[1..]);
      forall i | 0 <= i < |reqs|
        ensures Replies(s, h, identity, reqs)[i] ==
                Step(Run(s, h, identity, reqs[..i]).store, h, Run(s, h, identity, reqs[..i]).identity, reqs[i]).outcome
      {
        if i == 0 {
          assert reqs[..0] == [];
        } else {
          assert reqs[..i][0] == reqs[0];
          assert reqs[..i][1..] == reqs[1..][..i - 1];
          assert reqs[1..][i - 1] == reqs[i];
        }
      }
    }
  }
}
