/** The user session slice: one record of authentication status, the
    status of the transition in flight and the role, changed only by four
    actions (react-redux-saga-boilerplate/src/store/slices/user.ts). */
module UserSlice {
  import opened Options

  /** The three status values the slice uses. */
  datatype Status = Idle | Running | Ready

  datatype UserState = UserState(isAuthenticated: bool, status: Status, role: Option<string>)

  /** The actions the slice handles; `Login` carries the action's payload,
      which becomes the role (it may be `null`). */
  datatype Action = Login(payload: Option<string>) | LoginSuccess | LogOut | LogOutSuccess

  /** `userState`: not authenticated, idle, no role. */
  const InitialState: UserState := UserState(false, Idle, None)

  /** The reducer: the state after one action. Whatever the state before,
      the state after is consistent; `Login` and `LogOut` leave the
      authentication flag alone, the two success actions leave the role
      alone. */
  function Reduce(s: UserState, a: Action): (r: UserState)
    ensures Consistent(r)
    ensures !a.Login? ==> r.role == s.role
    ensures a.Login? || a.LogOut? ==> r.isAuthenticated == s.isAuthenticated && r.status == Running
  {
    match a
    case Login(role) => s.(status := Running, role := role)
    case LoginSuccess => s.(isAuthenticated := true, status := Ready)
    case LogOut => s.(status := Running)
    case LogOutSuccess => s.(isAuthenticated := false, status := Idle)
  }

  /** Ready only when authenticated, idle only when not. */
  predicate Consistent(s: UserState) {
    (s.status == Ready ==> s.isAuthenticated) && (s.status == Idle ==> !s.isAuthenticated)
  }

  /** The state after dispatching `acts` in order, starting from `s`. */
  function Run(s: UserState, acts: seq<Action>): UserState
    decreases |acts|
  {
    if acts == [] then s else Run(Reduce(s, acts[0]), acts[1..])
  }

  /** Dispatching one more action applies the reducer to the state reached. */
  lemma {:induction false} RunSnoc(s: UserState, acts: seq<Action>, a: Action)
    ensures Run(s, acts + [a]) == Reduce(Run(s, acts), a)
    decreases |acts|
  {
    if acts == [] {
      assert [a][1..] == [];
    } else {
      assert (acts + [a])[1..] == acts[1..] + [a];
      RunSnoc(Reduce(s, acts[0]), acts[1..], a);
    }
  }

  /** Each action is idempotent: dispatching it twice in a row gives the
      same state as dispatching it once. */
  lemma ReduceIdempotent(s: UserState, a: Action)
    ensures Reduce(Reduce(s, a), a) == Reduce(s, a)
  {
  }

  /** Every sequence of actions keeps a consistent state consistent. */
  lemma {:induction false} RunPreservesConsistent(s: UserState, acts: seq<Action>)
    requires Consistent(s)
    ensures Consistent(Run(s, acts))
    decreases |acts|
  {
    if acts != [] {
      RunPreservesConsistent(Reduce(s, acts[0]), acts[1..]);
    }
  }

  /** Every state reachable from the initial state is consistent. */
  lemma ReachableIsConsistent(acts: seq<Action>)
    ensures Consistent(Run(InitialState, acts))
  {
    RunPreservesConsistent(InitialState, acts);
  }

  /** The payload of the last `Login` in `acts`, or `role` when there is
      none. */
  function LastLoginRole(role: Option<string>, acts: seq<Action>): Option<string>
    decreases |acts|
  {
    if acts == [] then role
    else LastLoginRole(if acts[0].Login? then acts[0].payload else role, acts[1..])
  }

  /** Nothing but `Login` changes the role: after a run it is the payload
      of the run's last `Login`, or the role before the run. In particular
      `logOutSuccess` does not clear it. */
  lemma {:induction false} RoleIsLastLogin(s: UserState, acts: seq<Action>)
    ensures Run(s, acts).role == LastLoginRole(s.role, acts)
    decreases |acts|
  {
    if acts != [] {
      RoleIsLastLogin(Reduce(s, acts[0]), acts[1..]);
    }
  }

  /** The status each action sets. */
  function StatusAfter(a: Action): Status {
    match a
    case Login(_) => Running
    case LoginSuccess => Ready
    case LogOut => Running
    case LogOutSuccess => Idle
  }

  /** Every action sets the status outright, so the status after a
      non-empty run is fixed by its last action alone. */
  lemma {:induction false} StatusIsLastAction(s: UserState, acts: seq<Action>)
    requires acts != []
    ensures Run(s, acts).status == StatusAfter(acts[|acts| - 1])
  {
    var init := acts[..|acts| - 1];
    var last := acts[|acts| - 1];
    assert acts == init + [last];
    RunSnoc(s, init, last);
  }

  /** A sequence of actions that reaches a given consistent state. */
  function Witness(s: UserState): seq<Action> {
    match s.status
    case Idle => [Login(s.role), LogOutSuccess]
    case Ready => [Login(s.role), LoginSuccess]
    case Running =>
      if s.isAuthenticated then [Login(s.role), LoginSuccess, LogOut] else [Login(s.role)]
  }

  lemma WitnessReaches(s: UserState)
    requires Consistent(s)
    ensures Run(InitialState, Witness(s)) == s
  {
    var w := Witness(s);
    var afterLogin := Reduce(InitialState, Login(s.role));
    assert Run(InitialState, w) == Run(afterLogin, w[1..]);
    if |w| == 1 {
    } else {
      var afterTwo := Reduce(afterLogin, w[1]);
      assert Run(afterLogin, w[1..]) == Run(afterTwo, w[2..]);
      if |w| == 3 {
        assert Run(afterTwo, w[2..]) == Reduce(afterTwo, LogOut);
      }
    }
  }

  /** Some sequence of actions leads from the initial state to `s`. */
  ghost predicate Reachable(s: UserState) {
    exists acts :: Run(InitialState, acts) == s
  }

  /** The reachable states are exactly the consistent ones. */
  lemma ReachableIffConsistent(s: UserState)
    ensures Reachable(s) <==> Consistent(s)
  {
    if Reachable(s) {
      var acts :| Run(InitialState, acts) == s;
      ReachableIsConsistent(acts);
    }
    if Consistent(s) {
      WitnessReaches(s);
    }
  }

  /** The slice's state cell and its four case reducers, each one update of
      the draft's fields. */
  class UserStore {
    var isAuthenticated: bool
    var status: Status
    var role: Option<string>

    function State(): UserState
      reads this
    {
      UserState(isAuthenticated, status, role)
    }

    /** The store starts at `userState`. */
    constructor ()
      ensures State() == InitialState
    {
      isAuthenticated := false;
      status := Idle;
      role := None;
    }

    /** `login`: status becomes running and the role becomes the payload;
        authentication is unchanged. */
    method Login(payload: Option<string>)
      modifies this
      ensures status == Running && role == payload
      ensures isAuthenticated == old(isAuthenticated)
      ensures State() == Reduce(old(State()), Action.Login(payload))
      ensures Consistent(State())
    {
      status := Running;
      role := payload;
    }

    /** `loginSuccess`: authenticated and ready; the role is unchanged. */
    method LoginSuccess()
      modifies this
      ensures isAuthenticated && status == Ready
      ensures role == old(role)
      ensures State() == Reduce(old(State()), Action.LoginSuccess)
      ensures Consistent(State())
    {
      isAuthenticated := true;
      status := Ready;
    }

    /** `logOut`: status becomes running; authentication and role are
        unchanged. */
    method LogOut()
      modifies this
      ensures status == Running
      ensures isAuthenticated == old(isAuthenticated) && role == old(role)
      ensures State() == Reduce(old(State()), Action.LogOut)
      ensures Consistent(State())
    {
      status := Running;
    }

    /** `logOutSuccess`: not authenticated and idle; the role is kept, not
        cleared. */
    method LogOutSuccess()
      modifies this
      ensures !isAuthenticated && status == Idle
      ensures role == old(role)
      ensures State() == Reduce(old(State()), Action.LogOutSuccess)
      ensures Consistent(State())
    {
      isAuthenticated := false;
      status := Idle;
    }
  }

  /** A login followed by its success, from the initial state. */
  method LoginScenario()
  {
    var store := new UserStore();
    store.Login(Some("recruiter"));
    assert store.State() == UserState(false, Running, Some("recruiter"));
    store.LoginSuccess();
    assert store.State() == UserState(true, Ready, Some("recruiter"));
    store.LogOutSuccess();
    assert store.State() == UserState(false, Idle, Some("recruiter"));
  }
}
