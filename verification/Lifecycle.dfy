/** Ordered start-up, rollback and shutdown of `LifecycleManager`.

    Every call of a service's `start` or `stop` is an event of a trace. `Safe` says what
    a trace must look like at each event: successful starts and stop attempts of a
    service alternate, a service starts only over its running dependencies, and none is
    stopped under a running dependent. `RunIsSafe` proves it of every run of the manager,
    whichever starts and stops raise; `FailedStartTrace` and `StartThenStopTrace` give the
    traces outright, and `StatesFollowCalls` says what the states then show.

    The manager is modelled twice: as a value, with a function for each of its operations
    (`AfterRegister`, `AfterStartAll`, `AfterStopAll`), over which runs are defined; and as
    the class `LifecycleManager` with the fields and loops of the original, whose methods
    are proved equal to these functions. The trace is a ghost field of the class. Services
    are registered by name, also while the manager is started, and a registered service may
    name dependencies that are not registered: only those that are constrain the order. */
module Lifecycle {
  import opened ServiceGraph

  // `failed` stands for an `error` that is not None; the time stamps are left out.
  datatype ServiceState = ServiceState(started: bool, failed: bool)

  datatype Event =
    | Registered(service: Service)
    | StartCall(name: string, ok: bool)
    | StopCall(name: string, ok: bool)

  // ---------- Traces ----------

  function Known(t: seq<Event>): Registry {
    if t == [] then map[]
    else
      var g := Known(t[..|t| - 1]);
      match t[|t| - 1]
      case Registered(s) => g[s.name := s]
      case _ => g
  }

  function RunningNext(running: set<string>, e: Event): set<string> {
    match e
    case Registered(_) => running
    case StartCall(n, ok) => if ok then running + {n} else running
    case StopCall(n, _) => running - {n}
  }

  /** A service runs from a successful start to the next attempt to stop it. */
  function Running(t: seq<Event>): set<string> {
    if t == [] then {} else RunningNext(Running(t[..|t| - 1]), t[|t| - 1])
  }

  ghost predicate SafeNext(t: seq<Event>, e: Event) {
    var g, running := Known(t), Running(t);
    match e
    case Registered(s) => s.name !in g
    case StartCall(n, _) =>
      n in g && n !in running && forall d <- g[n].dependencies :: d in g ==> d in running
    case StopCall(n, _) =>
      n in g && n in running && forall s | Edge(g, s, n) && s != n :: s !in running
  }

  ghost predicate Safe(t: seq<Event>) {
    t != [] ==> Safe(t[..|t| - 1]) && SafeNext(t[..|t| - 1], t[|t| - 1])
  }

  /** A safe trace that registered exactly `g` and leaves `running` running. */
  ghost predicate Trace(t: seq<Event>, g: Registry, running: set<string>) {
    Known(t) == g && Running(t) == running && Safe(t)
  }

  lemma Snoc(t: seq<Event>, e: Event)
    ensures Known(t + [e]) == (if e.Registered? then Known(t)[e.service.name := e.service] else Known(t))
    ensures Running(t + [e]) == RunningNext(Running(t), e)
    ensures Safe(t + [e]) <==> Safe(t) && SafeNext(t, e)
  {
    assert (t + [e])[..|t|] == t;
  }

  /** The successful starts and the stop attempts of one service, in order. */
  function Lifeline(t: seq<Event>, name: string): seq<Event> {
    if t == [] then []
    else
      var rest := Lifeline(t[..|t| - 1], name);
      match t[|t| - 1]
      case StartCall(n, ok) => if n == name && ok then rest + [t[|t| - 1]] else rest
      case StopCall(n, _) => if n == name then rest + [t[|t| - 1]] else rest
      case Registered(_) => rest
  }

  /** In a safe trace each service's successful starts and stop attempts alternate,
      beginning with a start. */
  lemma {:induction false} LifelineAlternates(t: seq<Event>, name: string)
    requires Safe(t)
    ensures forall i | 0 <= i < |Lifeline(t, name)| :: Lifeline(t, name)[i].StartCall? <==> i % 2 == 0
    ensures name in Running(t) <==> |Lifeline(t, name)| % 2 == 1
  {
    if t != [] {
      LifelineAlternates(t[..|t| - 1], name);
    }
  }

  function StartCalls(names: seq<string>): seq<Event> {
    seq(|names|, i requires 0 <= i < |names| => StartCall(names[i], true))
  }

  function StopAttempt(name: string, raising: set<string>): Event {
    StopCall(name, name !in raising)
  }

  /** Attempts to stop the services in reverse order; those in `raising` raise. */
  function StopCalls(names: seq<string>, raising: set<string>): seq<Event> {
    seq(|names|, i requires 0 <= i < |names| =>
      StopAttempt(names[|names| - 1 - i], raising))
  }

  function Elements(names: seq<string>): set<string> {
    set n | n in names
  }

  /** Every dependency in the list comes before its dependents. */
  ghost predicate Layered(g: Registry, names: seq<string>) {
    && Distinct(names)
    && (forall n <- names :: n in g)
    && forall i, j | 0 <= i <= j < |names| :: !Edge(g, names[i], names[j])
  }

  lemma TopologicalIsLayered(g: Registry, names: seq<string>)
    requires Topological(g, names)
    ensures Layered(g, names)
  {
    forall i, j | 0 <= i <= j < |names| ensures !Edge(g, names[i], names[j]) {
      assert names[j] !in names[..i];
    }
  }

  lemma {:induction false} StartsAreSafe(t: seq<Event>, g: Registry, names: seq<string>, k: nat)
    requires k <= |names| && Trace(t, g, {}) && Topological(g, names)
    ensures Trace(t + StartCalls(names[..k]), g, Elements(names[..k]))
  {
    if k == 0 {
      assert t + StartCalls(names[..0]) == t;
    } else {
      StartsAreSafe(t, g, names, k - 1);
      StartMoreIsSafe(t, g, names, k);
    }
  }

  lemma StartMoreIsSafe(t: seq<Event>, g: Registry, names: seq<string>, k: nat)
    requires 0 < k <= |names| && Topological(g, names)
    ensures Trace(t + StartCalls(names[..k - 1]), g, Elements(names[..k - 1])) ==>
      Trace(t + StartCalls(names[..k]), g, Elements(names[..k]))
  {
    StartCallsMore(t, names, k);
    if Trace(t + StartCalls(names[..k - 1]), g, Elements(names[..k - 1])) {
      StartIsSafe(t + StartCalls(names[..k - 1]), g, names, k - 1, true);
    }
  }

  lemma StartCallsMore(t: seq<Event>, names: seq<string>, k: nat)
    requires 0 < k <= |names|
    ensures t + StartCalls(names[..k]) == t + StartCalls(names[..k - 1]) + [StartCall(names[k - 1], true)]
    ensures Elements(names[..k]) == Elements(names[..k - 1]) + {names[k - 1]}
  {
    assert names[..k] == names[..k - 1] + [names[k - 1]];
  }

  lemma StartIsSafe(t: seq<Event>, g: Registry, names: seq<string>, k: nat, ok: bool)
    requires k < |names| && Topological(g, names) && Trace(t, g, Elements(names[..k]))
    ensures Trace(t + [StartCall(names[k], ok)], g, Elements(names[..k]) + if ok then {names[k]} else {})
  {
    forall d <- g[names[k]].dependencies | d in g ensures d in Running(t) {
      assert Edge(g, names[k], d);
    }
    Snoc(t, StartCall(names[k], ok));
  }

  lemma StopIsSafe(t: seq<Event>, g: Registry, names: seq<string>, ok: bool)
    requires names != [] && Trace(t, g, Elements(names)) && Layered(g, names)
    ensures var init, last := names[..|names| - 1], names[|names| - 1];
      Trace(t + [StopCall(last, ok)], g, Elements(init)) && Layered(g, init)
  {
    var init, last := names[..|names| - 1], names[|names| - 1];
    forall s | Edge(g, s, last) ensures s !in Elements(names) {
      forall i | 0 <= i < |names| ensures names[i] != s { assert !Edge(g, names[i], last); }
    }
    assert Elements(names) - {last} == Elements(init);
    Snoc(t, StopCall(last, ok));
  }

  lemma {:induction false} StopsAreSafe(t: seq<Event>, g: Registry, names: seq<string>, raising: set<string>)
    requires Trace(t, g, Elements(names)) && Layered(g, names)
    ensures Trace(t + StopCalls(names, raising), g, {})
    decreases |names|
  {
    if names == [] {
      assert t + StopCalls(names, raising) == t;
    } else {
      var init, last := names[..|names| - 1], names[|names| - 1];
      var e := StopAttempt(last, raising);
      StopIsSafe(t, g, names, last !in raising);
      StopsAreSafe(t + [e], g, init, raising);
      assert t + StopCalls(names, raising) == t + [e] + StopCalls(init, raising);
    }
  }

  // ---------- The manager on values ----------

  datatype Manager = Manager(
    services: Registry, registered: seq<string>, states: map<string, ServiceState>,
    started: bool, startupOrder: seq<string>, calls: seq<Event>)

  datatype StartResult =
    | Started(names: seq<string>)
    | CircularDependency(at: string)
    | StartFailed(name: string)

  ghost predicate Tables(m: Manager) {
    && (forall n <- m.services :: m.services[n].name == n)
    && (forall n :: n in m.registered <==> n in m.services)
    && m.states.Keys == m.services.Keys
  }

  /** The services that `stop_all` will go through are distinct and marked started. */
  ghost predicate Ready(m: Manager) {
    && Tables(m)
    && (m.started ==> Distinct(m.startupOrder) && forall n <- m.startupOrder :: n in m.states && m.states[n].started)
  }

  ghost predicate Valid(m: Manager) {
    && Ready(m)
    && Trace(m.calls, m.services, if m.started then Elements(m.startupOrder) else {})
    && (m.started ==> Layered(m.services, m.startupOrder))
  }

  const EMPTY := Manager(map[], [], map[], false, [], [])

  function AfterRegister(m: Manager, s: Service): Manager {
    if s.name in m.services then m
    else m.(services := m.services[s.name := s],
            registered := m.registered + [s.name],
            states := m.states[s.name := ServiceState(false, false)],
            calls := m.calls + [Registered(s)])
  }

  /** The position of the first service whose start raises. */
  function FirstRaising(names: seq<string>, raising: set<string>): (k: nat)
    ensures k <= |names|
    ensures forall i | 0 <= i < k :: names[i] !in raising
    ensures k < |names| ==> names[k] in raising
  {
    if names == [] || names[0] in raising then 0 else 1 + FirstRaising(names[1..], raising)
  }

  function MarkStarted(states: map<string, ServiceState>, names: set<string>): map<string, ServiceState> {
    map n | n in states :: if n in names then states[n].(started := true) else states[n]
  }

  /** A stop that raises leaves `started` set. */
  function MarkStopped(states: map<string, ServiceState>, names: set<string>, raising: set<string>): map<string,
        ServiceState> {
    map n | n in states :: if n in names - raising then states[n].(started := false) else states[n]
  }

  function MarkFailed(states: map<string, ServiceState>, names: set<string>): map<string, ServiceState> {
    map n | n in states :: if n in names then states[n].(failed := true) else states[n]
  }

  /** The manager after every service of `order` started. */
  function AllUp(m: Manager, order: seq<string>): Manager {
    m.(states := MarkStarted(m.states, Elements(order)), started := true, startupOrder := order,
       calls := m.calls + StartCalls(order))
  }

  /** The manager after the start of `name` raised with `up` started, and their rollback. */
  function RolledBack(m: Manager, up: seq<string>, name: string, stopRaises: set<string>): Manager {
    m.(states := MarkStopped(MarkFailed(MarkStarted(m.states, Elements(up)), {name}), Elements(up), stopRaises),
       calls := m.calls + StartCalls(up) + [StartCall(name, false)] + StopCalls(up, stopRaises))
  }

  /** `start_all` when the services of `startRaises` raise from `start` and those of
      `stopRaises` raise from the rollback's `stop`. */
  function AfterStartAll(m: Manager, startRaises: set<string>, stopRaises: set<string>): (Manager, StartResult)
    requires Tables(m)
  {
    if m.started then (m, Started([]))
    else
      match Resolve(m.services, m.registered)
      case Circular(at) => (m, CircularDependency(at))
      case Order(order) =>
        var k := FirstRaising(order, startRaises);
        if k == |order| then (AllUp(m, order), Started(order))
        else (RolledBack(m, order[..k], order[k], stopRaises), StartFailed(order[k]))
  }

  /** The names in reverse order, without those whose stop raised. */
  function StoppedInReverse(names: seq<string>, raising: set<string>): seq<string> {
    if names == [] then []
    else StoppedInReverse(names[1..], raising) + (if names[0] in raising then [] else [names[0]])
  }

  /** `stop_all`, with the names it reports as stopped. */
  function AfterStopAll(m: Manager, stopRaises: set<string>): (Manager, seq<string>)
  {
    if !m.started then (m, [])
    else
      var names := Elements(m.startupOrder);
      (m.(states := StatesAfterStops(m.states, names, stopRaises),
          started := false,
          calls := m.calls + StopCalls(m.startupOrder, stopRaises)),
       StoppedInReverse(m.startupOrder, stopRaises))
  }

  // ---------- Every run is safe ----------

  lemma {:induction false} RegisterKeepsValid(m: Manager, s: Service)
    requires Valid(m)
    ensures Valid(AfterRegister(m, s))
  {
    if s.name !in m.services {
      Snoc(m.calls, Registered(s));
      var m' := AfterRegister(m, s);
      if m.started {
        forall i, j | 0 <= i <= j < |m.startupOrder| ensures !Edge(m'.services, m.startupOrder[i], m.startupOrder[j]) {
          assert !Edge(m.services, m.startupOrder[i], m.startupOrder[j]);
        }
      }
    }
  }

  lemma AllUpIsValid(m: Manager, order: seq<string>)
    requires Valid(m) && !m.started && Topological(m.services, order)
    ensures Valid(AllUp(m, order))
  {
    assert order[..|order|] == order;
    StartsAreSafe(m.calls, m.services, order, |order|);
    TopologicalIsLayered(m.services, order);
  }

  lemma LayeredPrefix(g: Registry, names: seq<string>, k: nat)
    requires k <= |names| && Layered(g, names)
    ensures Layered(g, names[..k])
  {
    var up := names[..k];
    forall i, j | 0 <= i <= j < |up| ensures !Edge(g, up[i], up[j]) {
      assert !Edge(g, names[i], names[j]);
    }
  }

  lemma RolledBackIsValid(m: Manager, order: seq<string>, k: nat, stopRaises: set<string>)
    requires Valid(m) && !m.started && Topological(m.services, order) && k < |order|
    ensures Valid(RolledBack(m, order[..k], order[k], stopRaises))
  {
    StartsAreSafe(m.calls, m.services, order, k);
    var t := m.calls + StartCalls(order[..k]);
    StartIsSafe(t, m.services, order, k, false);
    TopologicalIsLayered(m.services, order);
    LayeredPrefix(m.services, order, k);
    StopsAreSafe(t + [StartCall(order[k], false)], m.services, order[..k], stopRaises);
  }

  lemma StartAllKeepsValid(m: Manager, startRaises: set<string>, stopRaises: set<string>)
    requires Valid(m)
    ensures Valid(AfterStartAll(m, startRaises, stopRaises).0)
  {
    var r := Resolve(m.services, m.registered);
    ResolveMeaning(m.services, m.registered);
    if !m.started && r.Order? {
      var k := FirstRaising(r.names, startRaises);
      if k == |r.names| {
        AllUpIsValid(m, r.names);
      } else {
        RolledBackIsValid(m, r.names, k, stopRaises);
      }
    }
  }

  lemma StopAllKeepsValid(m: Manager, stopRaises: set<string>)
    requires Valid(m)
    ensures Valid(AfterStopAll(m, stopRaises).0)
  {
    if m.started { StopsAreSafe(m.calls, m.services, m.startupOrder, stopRaises); }
  }

  datatype Operation =
    | DoRegister(service: Service)
    | DoStartAll(startRaises: set<string>, stopRaises: set<string>)
    | DoStopAll(stopRaises: set<string>)

  /** The manager after a run of operations on a new one. */
  ghost function Run(ops: seq<Operation>): (m: Manager)
    ensures Valid(m)
  {
    if ops == [] then EMPTY
    else
      var m := Run(ops[..|ops| - 1]);
      match ops[|ops| - 1]
      case DoRegister(s) => RegisterKeepsValid(m, s); AfterRegister(m, s)
      case DoStartAll(startRaises, stopRaises) =>
        StartAllKeepsValid(m, startRaises, stopRaises); AfterStartAll(m, startRaises, stopRaises).0
      case DoStopAll(stopRaises) => StopAllKeepsValid(m, stopRaises); AfterStopAll(m, stopRaises).0
  }

  /** Over any run, with any starts and stops raising: each service's successful starts
      and stop attempts alternate; at every start all its registered dependencies run;
      at every stop attempt nothing that depends on it runs. */
  lemma RunIsSafe(ops: seq<Operation>, i: nat)
    requires i < |Run(ops).calls|
    ensures var t := Run(ops).calls;
      && SafeNext(t[..i], t[i])
      && forall name, k | 0 <= k < |Lifeline(t, name)| :: Lifeline(t, name)[k].StartCall? <==> k % 2 == 0
  {
    var t := Run(ops).calls;
    SafeAt(t, i);
    forall name ensures forall k | 0 <= k < |Lifeline(t, name)| :: Lifeline(t, name)[k].StartCall? <==> k % 2 == 0 {
      LifelineAlternates(t, name);
    }
  }

  lemma {:induction false} SafeAt(t: seq<Event>, i: nat)
    requires Safe(t) && i < |t|
    ensures SafeNext(t[..i], t[i])
  {
    if i < |t| - 1 {
      SafeAt(t[..|t| - 1], i);
      assert t[..|t| - 1][..i] == t[..i];
    }
  }

  /** If the start of service k of the order raises, the calls are exactly the starts of
      services 0 to k and then the stops of k-1 down to 0. */
  lemma FailedStartTrace(m: Manager, order: seq<string>, k: nat, startRaises: set<string>, stopRaises: set<string>,
        m': Manager, r: StartResult)
    requires Valid(m) && !m.started && Resolve(m.services, m.registered) == Order(order)
    requires k < |order| && order[k] in startRaises && forall i | 0 <= i < k :: order[i] !in startRaises
    requires (m', r) == AfterStartAll(m, startRaises, stopRaises)
    ensures r == StartFailed(order[k]) && !m'.started && Running(m'.calls) == {}
    ensures |m'.calls| == |m.calls| + 2 * k + 1 && m.calls <= m'.calls
    ensures forall i | 0 <= i < k :: m'.calls[|m.calls| + i] == StartCall(order[i], true)
    ensures m'.calls[|m.calls| + k] == StartCall(order[k], false)
    ensures forall i | 0 <= i < k :: m'.calls[|m.calls| + 2 * k - i] == StopAttempt(order[i], stopRaises)
  {
    FailedStart(m, order, k, startRaises, stopRaises, m', r);
    FailedCalls(m.calls, m'.calls, order, k, stopRaises);
  }

  lemma FailedStart(m: Manager, order: seq<string>, k: nat, startRaises: set<string>, stopRaises: set<string>,
        m': Manager, r: StartResult)
    requires Valid(m) && !m.started && Resolve(m.services, m.registered) == Order(order)
    requires k < |order| && order[k] in startRaises && forall i | 0 <= i < k :: order[i] !in startRaises
    requires (m', r) == AfterStartAll(m, startRaises, stopRaises)
    ensures r == StartFailed(order[k]) && !m'.started && Running(m'.calls) == {}
    ensures m'.calls
         == m.calls + StartCalls(order[..k]) + [StartCall(order[k], false)] + StopCalls(order[..k], stopRaises)
  {
    StartAllKeepsValid(m, startRaises, stopRaises);
    assert FirstRaising(order, startRaises) == k;
  }

  lemma FailedCalls(t: seq<Event>, after: seq<Event>, order: seq<string>, k: nat, raising: set<string>)
    requires k < |order|
    requires after == t + StartCalls(order[..k]) + [StartCall(order[k], false)] + StopCalls(order[..k], raising)
    ensures |after| == |t| + 2 * k + 1 && t <= after
    ensures forall i | 0 <= i < k :: after[|t| + i] == StartCall(order[i], true)
    ensures after[|t| + k] == StartCall(order[k], false)
    ensures forall i | 0 <= i < k :: after[|t| + 2 * k - i] == StopAttempt(order[i], raising)
  {
  }

  /** A successful `start_all` and then `stop_all`: every service is started in order
      and stopped in reverse order, also when stops raise. */
  lemma {:induction false} StartThenStopTrace(m: Manager, startRaises: set<string>, stopRaises: set<string>,
        up: Manager, order: seq<string>,
      stopRaises': set<string>, down: Manager, stopped: seq<string>)
    requires Valid(m) && !m.started
    requires (up, Started(order)) == AfterStartAll(m, startRaises, stopRaises)
    requires (down, stopped) == AfterStopAll(up, stopRaises')
    ensures Resolve(m.services, m.registered) == Order(order) && forall n <- order :: n !in startRaises
    ensures m.calls <= down.calls && |down.calls| == |m.calls| + 2 * |order|
    ensures forall i | 0 <= i < |order| :: down.calls[|m.calls| + i] == StartCall(order[i], true)
    ensures forall i | 0 <= i < |order| :: down.calls[|down.calls| - 1 - i] == StopAttempt(order[i], stopRaises')
    ensures forall n :: n in stopped <==> n in order && n !in stopRaises'
    ensures forall n <- order :: n in down.states && down.states[n].started == (n in stopRaises')
  {
    StartedUp(m, startRaises, stopRaises, up, order);
    DownCalls(m, order, stopRaises', down, stopped);
    DownStates(m, order, stopRaises', down, stopped);
    StoppedNames(order, stopRaises');
  }

  lemma StartedUp(m: Manager, startRaises: set<string>, stopRaises: set<string>, up: Manager, order: seq<string>)
    requires Tables(m) && !m.started && (up, Started(order)) == AfterStartAll(m, startRaises, stopRaises)
    ensures Resolve(m.services, m.registered) == Order(order) && up == AllUp(m, order)
    ensures forall n <- order :: n in m.states && n !in startRaises
  {
    ResolvedNames(m);
  }

  lemma DownCalls(m: Manager, order: seq<string>, raising: set<string>, down: Manager, stopped: seq<string>)
    requires (down, stopped) == AfterStopAll(AllUp(m, order), raising)
    ensures m.calls <= down.calls && |down.calls| == |m.calls| + 2 * |order|
    ensures forall i | 0 <= i < |order| :: down.calls[|m.calls| + i] == StartCall(order[i], true)
    ensures forall i | 0 <= i < |order| :: down.calls[|down.calls| - 1 - i] == StopAttempt(order[i], raising)
  {
    UpAndDown(m.calls, down.calls, order, raising);
  }

  lemma UpAndDown(t: seq<Event>, after: seq<Event>, order: seq<string>, raising: set<string>)
    requires after == t + StartCalls(order) + StopCalls(order, raising)
    ensures t <= after && |after| == |t| + 2 * |order|
    ensures forall i | 0 <= i < |order| :: after[|t| + i] == StartCall(order[i], true)
    ensures forall i | 0 <= i < |order| :: after[|after| - 1 - i] == StopAttempt(order[i], raising)
  {
    var stops := StopCalls(order, raising);
    forall i | 0 <= i < |order| ensures after[|after| - 1 - i] == StopAttempt(order[i], raising) {
      assert after[|after| - 1 - i] == stops[|order| - 1 - i];
    }
  }

  lemma DownStates(m: Manager, order: seq<string>, raising: set<string>, down: Manager, stopped: seq<string>)
    requires (down, stopped) == AfterStopAll(AllUp(m, order), raising) && forall n <- order :: n in m.states
    ensures stopped == StoppedInReverse(order, raising)
    ensures forall n <- order :: n in down.states && down.states[n].started == (n in raising)
  {
  }

  /** The names reported are those whose stop did not raise, the last started first. */
  lemma {:induction false} StoppedNames(names: seq<string>, raising: set<string>)
    ensures var stopped := StoppedInReverse(names, raising);
      && (forall n :: n in stopped <==> n in names && n !in raising)
      && forall i, j | 0 <= i < j < |stopped| :: Precedes(names, stopped[j], stopped[i])
  {
    if names != [] {
      var rest := names[1..];
      var before := StoppedInReverse(rest, raising);
      StoppedNames(rest, raising);
      assert names == [names[0]] + rest;
      forall a, b | Precedes(rest, a, b) ensures Precedes(names, a, b) {
        var i, j :| 0 <= i < j < |rest| && rest[i] == a && rest[j] == b;
        assert names[i + 1] == a && names[j + 1] == b;
      }
      forall i | 0 <= i < |before| ensures Precedes(names, names[0], before[i]) {
        assert before[i] in rest;
        var j :| 0 <= j < |rest| && rest[j] == before[i];
        assert names[0] == names[0] && names[j + 1] == before[i];
      }
    }
  }

  // ---------- What the states say ----------

  /** How `start_all` ends: with the circular dependency if there is one, else with the name
      of a service whose start raises, else with every registered service started. */
  lemma StartAllOutcome(m: Manager, startRaises: set<string>, stopRaises: set<string>)
    requires Tables(m) && !m.started
    ensures var r, raises := AfterStartAll(m, startRaises, stopRaises).1, exists n <- startRaises :: n in m.services;
      && (r.CircularDependency? <==> Cyclic(m.services))
      && (r.CircularDependency? ==> Reaches(m.services, r.at, r.at))
      && (r.StartFailed? <==> !Cyclic(m.services) && raises)
      && (r.StartFailed? ==> r.name in m.services && r.name in startRaises)
      && (r.Started? ==> forall n :: n in r.names <==> n in m.services)
  {
    ResolveMeaning(m.services, m.registered);
  }

  /** If the start of service k raises, the states say so: of services 0 to k-1 only those
      whose stop raised are still marked started, service k is marked failed, and nothing
      else changed. */
  lemma FailedStartStates(m: Manager, order: seq<string>, k: nat, startRaises: set<string>, stopRaises: set<string>,
        m': Manager, r: StartResult)
    requires Valid(m) && !m.started && Resolve(m.services, m.registered) == Order(order)
    requires k < |order| && order[k] in startRaises && forall i | 0 <= i < k :: order[i] !in startRaises
    requires (m', r) == AfterStartAll(m, startRaises, stopRaises)
    ensures m'.states.Keys == m.states.Keys && forall n <- order :: n in m.states
    ensures forall i | 0 <= i < k ::
      m'.states[order[i]] == ServiceState(order[i] in stopRaises, m.states[order[i]].failed)
    ensures m'.states[order[k]] == ServiceState(m.states[order[k]].started, true)
    ensures forall n <- m.states | n !in order[..k + 1] :: m'.states[n] == m.states[n]
    ensures m' == m.(states := m'.states, calls := m'.calls)
  {
    FailedIsRolledBack(m, order, k, startRaises, stopRaises);
    UpAndFailing(order, k);
    RolledBackStates(m.states, order[..k], order[k], stopRaises);
  }

  lemma FailedIsRolledBack(m: Manager, order: seq<string>, k: nat, startRaises: set<string>, stopRaises: set<string>)
    requires Tables(m) && !m.started && Resolve(m.services, m.registered) == Order(order)
    requires k < |order| && order[k] in startRaises && forall i | 0 <= i < k :: order[i] !in startRaises
    ensures AfterStartAll(m, startRaises, stopRaises)
         == (RolledBack(m, order[..k], order[k], stopRaises), StartFailed(order[k]))
    ensures Distinct(order) && forall n <- order :: n in m.states
  {
    assert FirstRaising(order, startRaises) == k;
    ResolvedNames(m);
  }

  lemma UpAndFailing(order: seq<string>, k: nat)
    requires k < |order| && Distinct(order)
    ensures order[k] !in order[..k] && order[..k + 1] == order[..k] + [order[k]]
    ensures forall i | 0 <= i < k :: order[..k][i] == order[i] && order[i] in order[..k]
    ensures forall n <- order[..k] :: n in order
  {
  }

  lemma RolledBackStates(states: map<string, ServiceState>, up: seq<string>, name: string, raising: set<string>)
    requires name in states && name !in up && forall n <- up :: n in states
    ensures var after := MarkStopped(MarkFailed(MarkStarted(states, Elements(up)), {name}), Elements(up), raising);
      && after.Keys == states.Keys
      && (forall n <- up :: after[n] == ServiceState(n in raising, states[n].failed))
      && after[name] == ServiceState(states[name].started, true)
      && forall n <- states | n !in up + [name] :: after[n] == states[n]
  {
  }

  /** After a successful start every service is marked started, and nothing else changed. */
  lemma StartedStates(m: Manager, startRaises: set<string>, stopRaises: set<string>, up: Manager, order: seq<string>)
    requires Tables(m) && !m.started && (up, Started(order)) == AfterStartAll(m, startRaises, stopRaises)
    ensures up.started && up.startupOrder == order && up.states.Keys == m.states.Keys
    ensures forall n <- m.states :: n in order && up.states[n] == ServiceState(true, m.states[n].failed)
    ensures up == m.(states := up.states, calls := up.calls, started := true, startupOrder := order)
  {
    StartedUp(m, startRaises, stopRaises, up, order);
    ResolveMeaning(m.services, m.registered);
  }

  /** After a stop the services of the start-up order are marked stopped, but those whose
      stop raised still started and failed, and nothing else changed. */
  lemma StoppedStates(m: Manager, stopRaises: set<string>, down: Manager, stopped: seq<string>)
    requires Ready(m) && m.started && (down, stopped) == AfterStopAll(m, stopRaises)
    ensures !down.started && down.states.Keys == m.states.Keys
    ensures forall n <- m.startupOrder ::
      n in m.states && down.states[n] == ServiceState(n in stopRaises, n in stopRaises || m.states[n].failed)
    ensures forall n <- m.states | n !in m.startupOrder :: down.states[n] == m.states[n]
    ensures down == m.(states := down.states, calls := down.calls, started := false)
  {
  }

  /** Whether the last call of a service that did not raise was a start. */
  function LastStarted(t: seq<Event>, name: string): bool {
    t != [] &&
      var before := LastStarted(t[..|t| - 1], name);
      match t[|t| - 1]
      case Registered(_) => before
      case StartCall(n, ok) => if n == name && ok then true else before
      case StopCall(n, ok) => if n == name && ok then false else before
  }

  function Registrations(t: seq<Event>): seq<string> {
    if t == [] then []
    else
      var before := Registrations(t[..|t| - 1]);
      match t[|t| - 1]
      case Registered(s) => before + [s.name]
      case _ => before
  }

  /** The services are listed as they were registered, and each is marked by its calls. */
  ghost predicate Follows(m: Manager) {
    && m.registered == Registrations(m.calls)
    && (forall n <- m.states :: m.states[n].started == LastStarted(m.calls, n))
    && forall n | LastStarted(m.calls, n) :: n in m.states
  }

  lemma {:induction false} StartCallsMark(t: seq<Event>, names: seq<string>, name: string)
    ensures LastStarted(t + StartCalls(names), name) == (name in names || LastStarted(t, name))
    ensures Registrations(t + StartCalls(names)) == Registrations(t)
  {
    if names == [] {
      assert t + StartCalls(names) == t;
    } else {
      var init, last := names[..|names| - 1], names[|names| - 1];
      StartCallsMark(t, init, name);
      assert t + StartCalls(names) == t + StartCalls(init) + [StartCall(last, true)];
      assert (t + StartCalls(names))[..|t| + |init|] == t + StartCalls(init);
      assert names == init + [last];
    }
  }

  lemma {:induction false} StopCallsMark(t: seq<Event>, names: seq<string>, raising: set<string>, name: string)
    ensures LastStarted(t + StopCalls(names, raising), name)
         == (LastStarted(t, name) && (name !in names || name in raising))
    ensures Registrations(t + StopCalls(names, raising)) == Registrations(t)
  {
    if names == [] {
      assert t + StopCalls(names, raising) == t;
    } else {
      var first, rest := names[0], names[1..];
      StopCallsMark(t, rest, raising, name);
      assert t + StopCalls(names, raising) == t + StopCalls(rest, raising) + [StopAttempt(first, raising)];
      assert (t + StopCalls(names, raising))[..|t| + |rest|] == t + StopCalls(rest, raising);
      assert names == [first] + rest;
    }
  }

  lemma OneMore(t: seq<Event>, e: Event, name: string)
    requires e.StartCall? ==> !e.ok
    requires !e.StopCall?
    ensures LastStarted(t + [e], name) == LastStarted(t, name)
    ensures Registrations(t + [e]) == if e.Registered? then Registrations(t) + [e.service.name] else Registrations(t)
  {
    assert (t + [e])[..|t|] == t;
  }

  lemma RegisterFollows(m: Manager, s: Service)
    requires Tables(m) && Follows(m)
    ensures Follows(AfterRegister(m, s))
  {
    forall n ensures LastStarted(m.calls + [Registered(s)], n) == LastStarted(m.calls, n) {
      OneMore(m.calls, Registered(s), n);
    }
    OneMore(m.calls, Registered(s), s.name);
  }

  lemma AllUpFollows(m: Manager, order: seq<string>)
    requires Follows(m) && forall n <- order :: n in m.states
    ensures Follows(AllUp(m, order))
  {
    var calls := m.calls + StartCalls(order);
    StartCallsMark(m.calls, order, "");
    forall n ensures LastStarted(calls, n) == (n in order || LastStarted(m.calls, n)) {
      StartCallsMark(m.calls, order, n);
    }
  }

  lemma RolledBackMark(t: seq<Event>, up: seq<string>, failing: string, raising: set<string>, name: string)
    ensures var calls := t + StartCalls(up) + [StartCall(failing, false)] + StopCalls(up, raising);
      && LastStarted(calls, name) == (if name in up then name in raising else LastStarted(t, name))
      && Registrations(calls) == Registrations(t)
  {
    StartCallsMark(t, up, name);
    OneMore(t + StartCalls(up), StartCall(failing, false), name);
    StopCallsMark(t + StartCalls(up) + [StartCall(failing, false)], up, raising, name);
  }

  lemma RolledBackFollows(m: Manager, up: seq<string>, name: string, stopRaises: set<string>)
    requires Follows(m) && (forall n <- up :: n in m.states) && name !in up
    ensures Follows(RolledBack(m, up, name, stopRaises))
  {
    var m' := RolledBack(m, up, name, stopRaises);
    RolledBackMark(m.calls, up, name, stopRaises, "");
    forall n
      ensures LastStarted(m'.calls, n) == (if n in up then n in stopRaises else LastStarted(m.calls, n))
    {
      RolledBackMark(m.calls, up, name, stopRaises, n);
    }
  }

  lemma StartAllFollows(m: Manager, startRaises: set<string>, stopRaises: set<string>)
    requires Tables(m) && Follows(m)
    ensures Follows(AfterStartAll(m, startRaises, stopRaises).0)
  {
    ResolvedNames(m);
    var r := Resolve(m.services, m.registered);
    if !m.started && r.Order? {
      var k := FirstRaising(r.names, startRaises);
      if k == |r.names| {
        AllUpFollows(m, r.names);
      } else {
        RolledBackFollows(m, r.names[..k], r.names[k], stopRaises);
      }
    }
  }

  lemma StopAllFollows(m: Manager, stopRaises: set<string>)
    requires Ready(m) && Follows(m)
    ensures Follows(AfterStopAll(m, stopRaises).0)
  {
    if m.started {
      var calls := m.calls + StopCalls(m.startupOrder, stopRaises);
      StopCallsMark(m.calls, m.startupOrder, stopRaises, "");
      forall n
        ensures LastStarted(calls, n) == (LastStarted(m.calls, n) && (n !in m.startupOrder || n in stopRaises))
      {
        StopCallsMark(m.calls, m.startupOrder, stopRaises, n);
      }
    }
  }

  /** Over any run, whichever starts and stops raise: the services are listed in the order
      they were registered, and one is marked started exactly when the last of its calls
      that did not raise was a start. */
  lemma {:induction false} StatesFollowCalls(ops: seq<Operation>)
    ensures Follows(Run(ops))
  {
    if ops != [] {
      var m := Run(ops[..|ops| - 1]);
      StatesFollowCalls(ops[..|ops| - 1]);
      match ops[|ops| - 1]
      case DoRegister(s) => RegisterFollows(m, s);
      case DoStartAll(startRaises, stopRaises) => StartAllFollows(m, startRaises, stopRaises);
      case DoStopAll(stopRaises) => StopAllFollows(m, stopRaises);
    }
  }

  // ---------- Steps of the loops ----------

  lemma ResolvedNames(m: Manager)
    requires Tables(m)
    ensures var r := Resolve(m.services, m.registered);
      r.Order? ==> Distinct(r.names) && forall n <- r.names :: n in m.states
  {
    ResolveMeaning(m.services, m.registered);
  }

  /** One iteration of `start_all`. */
  lemma StartedMore(states: map<string, ServiceState>, calls: seq<Event>, order: seq<string>, i: nat)
    requires i < |order| && order[i] in states
    ensures var s := MarkStarted(states, Elements(order[..i]));
      && order[i] in s
      && s[order[i] := s[order[i]].(started := true)] == MarkStarted(states, Elements(order[..i + 1]))
      && calls + StartCalls(order[..i]) + [StartCall(order[i], true)] == calls + StartCalls(order[..i + 1])
      && order[..i + 1] == order[..i] + [order[i]]
  {
    assert order[..i + 1] == order[..i] + [order[i]];
    assert StartCalls(order[..i + 1]) == StartCalls(order[..i]) + [StartCall(order[i], true)];
  }

  function StatesAfterStops(states: map<string, ServiceState>, names: set<string>, raising: set<string>): map<string,
        ServiceState> {
    MarkFailed(MarkStopped(states, names, raising), names * raising)
  }

  lemma StoppedOneMore(states: map<string, ServiceState>, names: set<string>, raising: set<string>, name: string)
    requires name in states && name !in names
    ensures var s := StatesAfterStops(states, names, raising);
      && name in s && s[name] == states[name]
      && s[name := if name in raising then s[name].(failed := true) else s[name].(started := false)]
         == StatesAfterStops(states, {name} + names, raising)
  {
  }

  lemma StoppedCallsMore(order: seq<string>, raising: set<string>, i: nat)
    requires i < |order|
    ensures StopCalls(order, raising)[..|order| - i]
         == StopCalls(order, raising)[..|order| - (i + 1)] + [StopAttempt(order[i], raising)]
    ensures StoppedInReverse(order[i..], raising)
         == StoppedInReverse(order[i + 1..], raising) + (if order[i] in raising then [] else [order[i]])
    ensures Elements(order[i..]) == {order[i]} + Elements(order[i + 1..])
  {
    assert order[i..] == [order[i]] + order[i + 1..];
  }

  /** One iteration of `stop_all`. */
  lemma StoppedMore(states: map<string, ServiceState>, order: seq<string>, raising: set<string>, i: nat)
    requires i < |order| && order[i] in states && Distinct(order)
    ensures var s, n := StatesAfterStops(states, Elements(order[i + 1..]), raising), order[i];
      && n in s && s[n] == states[n]
      && StatesAfterStops(states, Elements(order[i..]), raising)
         == s[n := if n in raising then s[n].(failed := true) else s[n].(started := false)]
  {
    StoppedCallsMore(order, raising, i);
    assert order[i] !in Elements(order[i + 1..]) by {
      forall j | i + 1 <= j < |order| ensures order[j] != order[i] {}
    }
    StoppedOneMore(states, Elements(order[i + 1..]), raising, order[i]);
  }

  // ---------- The manager on mutable state ----------

  class LifecycleManager {
    var services: Registry
    var registered: seq<string>              // insertion order of the dictionary
    var states: map<string, ServiceState>
    var started: bool
    var startupOrder: seq<string>
    ghost var calls: seq<Event>

    ghost function Abstract(): Manager
      reads this
    {
      Manager(services, registered, states, started, startupOrder, calls)
    }

    constructor ()
      ensures Abstract() == EMPTY
    {
      services, registered, states := map[], [], map[];
      started, startupOrder, calls := false, [], [];
    }

    method Register(service: Service) returns (duplicate: bool)
      requires Ready(Abstract())
      modifies this
      ensures Abstract() == AfterRegister(old(Abstract()), service)
      ensures duplicate <==> service.name in old(services)
      ensures duplicate ==> Abstract() == old(Abstract())
      ensures !duplicate ==>
        && services == old(services)[service.name := service] && registered == old(registered) + [service.name]
        && states == old(states)[service.name := ServiceState(false, false)]
    {
      ghost var m := Abstract();
      if service.name in services {
        return true;
      }
      services := services[service.name := service];
      registered := registered + [service.name];
      states := states[service.name := ServiceState(false, false)];
      calls := calls + [Registered(service)];
      return false;
    }

    /** The loop of `start_all`, up to the first service whose `start` raises. */
    method StartInOrder(order: seq<string>, startRaises: set<string>) returns (startedServices: seq<string>)
      requires Elements(order) <= states.Keys
      modifies this`states, this`calls
      ensures var k := FirstRaising(order, startRaises);
        && startedServices == order[..k]
        && states == (var up := MarkStarted(old(states), Elements(order[..k]));
             if k == |order| then up else MarkFailed(up, {order[k]}))
        && calls == (var begun := old(calls) + StartCalls(order[..k]);
             if k == |order| then begun else begun + [StartCall(order[k], false)])
    {
      startedServices := [];
      for i := 0 to |order|
        invariant startedServices == order[..i] && forall j | 0 <= j < i :: order[j] !in startRaises
        invariant states == MarkStarted(old(states), Elements(order[..i]))
        invariant calls == old(calls) + StartCalls(order[..i])
      {
        var name := order[i];
        StartedMore(old(states), old(calls), order, i);
        if name in startRaises {
          calls := calls + [StartCall(name, false)];
          states := states[name := states[name].(failed := true)];
          return;
        }
        calls := calls + [StartCall(name, true)];
        states := states[name := states[name].(started := true)];
        startedServices := startedServices + [name];
      }
    }

    method StartAll(startRaises: set<string>, stopRaises: set<string>) returns (r: StartResult)
      requires Ready(Abstract())
      modifies this
      ensures (Abstract(), r) == AfterStartAll(old(Abstract()), startRaises, stopRaises)
      ensures old(started) || r.CircularDependency? ==> Abstract() == old(Abstract())
      ensures old(started) ==> r == Started([])
    {
      if started {
        return Started([]);
      }
      ResolvedNames(Abstract());
      var outcome := ResolveStartupOrder(services, registered);
      if outcome.Circular? {
        return CircularDependency(outcome.at);
      }
      var order := outcome.names;
      var startedServices := StartInOrder(order, startRaises);
      assert order[..|order|] == order;
      if |startedServices| < |order| {
        Rollback(startedServices, stopRaises);
        return StartFailed(order[|startedServices|]);
      }
      started := true;
      startupOrder := startedServices;
      return Started(startedServices);
    }

    method Rollback(names: seq<string>, raising: set<string>)
      requires Elements(names) <= states.Keys
      modifies this`states, this`calls
      ensures states == MarkStopped(old(states), Elements(names), raising)
      ensures calls == old(calls) + StopCalls(names, raising)
    {
      for i := |names| downto 0
        invariant states == MarkStopped(old(states), Elements(names[i..]), raising)
        invariant calls == old(calls) + StopCalls(names, raising)[..|names| - i]
      {
        var name := names[i];
        StoppedCallsMore(names, raising, i);
        var ok := name !in raising;
        calls := calls + [StopCall(name, ok)];
        if ok {
          states := states[name := states[name].(started := false)];
        }
      }
    }

    /** The attempt to stop one service in `stop_all`. */
    method StopOne(name: string, stopRaises: set<string>) returns (ok: bool)
      requires name in states
      modifies this`states, this`calls
      ensures ok == (name !in stopRaises) && calls == old(calls) + [StopAttempt(name, stopRaises)]
      ensures states == old(states)[name := if name in stopRaises then old(states)[name].(failed := true)
                                            else old(states)[name].(started := false)]
    {
      ok := name !in stopRaises;
      calls := calls + [StopCall(name, ok)];
      if ok {
        states := states[name := states[name].(started := false)];
      } else {
        states := states[name := states[name].(failed := true)];
      }
    }

    /** The loop of `stop_all`. */
    method StopInReverse(stopRaises: set<string>) returns (stopped: seq<string>)
      requires Distinct(startupOrder) && forall n <- startupOrder :: n in states && states[n].started
      modifies this`states, this`calls
      ensures states == StatesAfterStops(old(states), Elements(startupOrder), stopRaises)
      ensures calls == old(calls) + StopCalls(startupOrder, stopRaises)
      ensures stopped == StoppedInReverse(startupOrder, stopRaises)
    {
      stopped := [];
      for i := |startupOrder| downto 0
        invariant states == StatesAfterStops(old(states), Elements(startupOrder[i..]), stopRaises)
        invariant calls == old(calls) + StopCalls(startupOrder, stopRaises)[..|startupOrder| - i]
        invariant stopped == StoppedInReverse(startupOrder[i..], stopRaises)
      {
        var name := startupOrder[i];
        StoppedMore(old(states), startupOrder, stopRaises, i);
        StoppedCallsMore(startupOrder, stopRaises, i);
        if !states[name].started {
          continue;
        }
        var ok := StopOne(name, stopRaises);
        if ok {
          stopped := stopped + [name];
        }
      }
      assert startupOrder[0..] == startupOrder;
    }

    method StopAll(stopRaises: set<string>) returns (stopped: seq<string>)
      requires Ready(Abstract())
      modifies this
      ensures (Abstract(), stopped) == AfterStopAll(old(Abstract()), stopRaises)
      ensures !old(started) ==> Abstract() == old(Abstract()) && stopped == []
    {
      if !started {
        return [];
      }
      stopped := StopInReverse(stopRaises);
      started := false;
    }
  }
}
