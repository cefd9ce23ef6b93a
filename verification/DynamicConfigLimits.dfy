/** Why the convergence theorem of `DynamicConfig` has its hypotheses: for each, a run of
    any set of instances that breaks it and ends with every queue drained and an instance
    reading a value that the hash does not hold.

    `PolicyConvergesExactly` makes them exact: of a policy that says which instances may
    write a key, split a read of it, or read it inside an operation of their own, it says
    exactly when every run converges.

    The runs are written as acts, each a step or a publish with its delivery to all. Of a
    state between acts, where all queues are empty, a `View` keeps what matters of one key:
    which instances have it cached, have an operation on it in flight or hold a value they
    have read, and what the hash has. `PlayShows` proves that playing acts on views is what
    their steps do to states, so that a run is worked out on small maps; `PlayedSticks` turns
    the last view of one into the disagreement of its last state. A policy that allows the
    acts of a run allows its steps (`AllObey`), and a run that ends in disagreement refutes
    the convergence of every such policy (`StuckBreaks`). */
module DynamicConfigLimits {
  import opened Options
  import opened DynamicConfig

  // ---------- One key in all instances ----------

  /** All that matters of a state with empty queues: of one key, the instances that have it
      cached, operate on it and hold a value they have read, and the hash value. */
  datatype View = View(cached: map<Id, Value>, ops: map<Id, Op>, held: map<Id, Value>, stored: Option<Value>)

  ghost predicate Idle(s: State, ids: set<Id>) {
    s.caches.Keys == ids && s.inboxes.Keys == ids && forall n <- ids :: s.inboxes[n] == []
  }

  predicate At(s: State, k: string, v: View, n: Id) {
    && (n in s.caches ==> Find(s.caches[n], k) == Find(v.cached, n))
    && OpOf(s, n, k) == Find(v.ops, n) && Find(s.fetched, (n, k)) == Find(v.held, n)
  }

  ghost predicate Shows(s: State, ids: set<Id>, k: string, v: View) {
    && Idle(s, ids) && Find(s.hash, k) == v.stored && (forall n :: At(s, k, v, n))
    && forall o <- s.inFlight :: o.1 == k
  }

  /** What an instance does between two deliveries to all; `Tell` publishes and delivers. */
  datatype Act = Set(id: Id, value: Value) | Remove(id: Id) | Write(id: Id) | Tell(id: Id)
    | Read(id: Id) | Fetch(id: Id) | Store(id: Id)

  /** The messages of an operation, and who has what of the key once they are handled. */
  function Announcement(i: Id, k: string, op: Op): Message {
    if op.Setting? || op.SetWritten? then SetMessage(i, k, op.value) else DeleteMessage(i, k)
  }

  function Heeded(cached: map<Id, Value>, ids: set<Id>, m: Message, k: string): map<Id, Value> {
    map n | n in ids && NextValue(n, Find(cached, n), m, k).Some? :: NextValue(n, Find(cached, n), m, k).value
  }

  function Do(v: View, ids: set<Id>, k: string, act: Act): View {
    var i := act.id;
    match act
    case Set(_, a) => if i in v.ops then v else v.(cached := v.cached[i := a], ops := v.ops[i := Setting(a)])
    case Remove(_) => if i in v.ops then v else v.(cached := v.cached - {i}, ops := v.ops[i := Deleting])
    case Write(_) =>
      if i in v.ops && v.ops[i].Setting? then
        v.(ops := v.ops[i := SetWritten(v.ops[i].value)], stored := Some(v.ops[i].value))
      else if i in v.ops && v.ops[i].Deleting? then v.(ops := v.ops[i := DeleteWritten], stored := None)
      else v
    case Tell(_) =>
      if i in v.ops then v.(cached := Heeded(v.cached, ids, Announcement(i, k, v.ops[i]), k), ops := v.ops - {i}) else v
    case Read(_) => if i !in v.cached && v.stored.Some? then v.(cached := v.cached[i := v.stored.value]) else v
    case Fetch(_) => if i !in v.cached && v.stored.Some? then v.(held := v.held[i := v.stored.value]) else v
    case Store(_) => if i in v.held then v.(cached := v.cached[i := v.held[i]], held := v.held - {i}) else v
  }

  function Steps(act: Act, k: string, order: seq<Id>): seq<Step> {
    match act
    case Set(i, a) => [BeginSet(i, k, a)]
    case Remove(i) => [BeginDelete(i, k)]
    case Write(i) => [WriteHash(i, k)]
    case Tell(i) => [Publish(i, k)] + Deliveries(order)
    case Read(i) => [Get(i, k)]
    case Fetch(i) => [FetchRead(i, k)]
    case Store(i) => [FetchStore(i, k)]
  }

  // What a sequence of acts does, and the steps it stands for.

  function Play(v: View, ids: set<Id>, k: string, acts: seq<Act>): View {
    if acts == [] then v else Do(Play(v, ids, k, acts[..|acts| - 1]), ids, k, acts[|acts| - 1])
  }

  function AllSteps(acts: seq<Act>, k: string, order: seq<Id>): seq<Step> {
    if acts == [] then [] else AllSteps(acts[..|acts| - 1], k, order) + Steps(acts[|acts| - 1], k, order)
  }

  /** Instances that exist, and tell only of what they have written. */
  predicate CanDo(v: View, ids: set<Id>, act: Act) {
    act.id in ids && (act.Tell? ==> act.id in v.ops && (v.ops[act.id].SetWritten? || v.ops[act.id].DeleteWritten?))
  }

  predicate CanPlay(v: View, ids: set<Id>, k: string, acts: seq<Act>) {
    acts != [] ==>
      var init := acts[..|acts| - 1];
      CanPlay(v, ids, k, init) && CanDo(Play(v, ids, k, init), ids, acts[|acts| - 1])
  }

  // ---------- Runs of the system ----------

  lemma {:induction false} RunConcat(s: State, first: seq<Step>, rest: seq<Step>)
    ensures Run(s, first + rest) == Run(Run(s, first), rest)
    decreases |first|
  {
    if first == [] {
      assert [] + rest == rest;
    } else {
      assert (first + rest)[1..] == first[1..] + rest;
      RunConcat(Apply(s, first[0]), first[1..], rest);
    }
  }

  lemma RunOne(s: State, step: Step)
    ensures Run(s, [step]) == Apply(s, step)
  {
    assert [step][1..] == [];
  }

  /** `order` lists the instances, each once. */
  ghost predicate Lists(order: seq<Id>, ids: set<Id>) {
    && (forall n :: n in order <==> n in ids)
    && forall x, y | 0 <= x < y < |order| :: order[x] != order[y]
  }

  lemma {:induction false} ListOf(ids: set<Id>) returns (order: seq<Id>)
    ensures Lists(order, ids)
    decreases |ids|
  {
    order := [];
    if ids != {} {
      var n :| n in ids;
      var rest := ListOf(ids - {n});
      order := [n] + rest;
    }
  }

  function Deliveries(order: seq<Id>): seq<Step> {
    if order == [] then [] else Deliveries(order[..|order| - 1]) + [Deliver(order[|order| - 1])]
  }

  /** `t` is `s` with `m`, queued everywhere, handled by the instances of `done`. */
  ghost predicate Handled(s: State, t: State, m: Message, done: seq<Id>) {
    && t.hash == s.hash && t.inFlight == s.inFlight && t.fetched == s.fetched
    && t.caches.Keys == s.caches.Keys && t.inboxes.Keys == s.caches.Keys
    && (forall n <- t.inboxes :: t.inboxes[n] == if n in done then [] else [m])
    && forall n <- t.caches :: t.caches[n] == if n in done then Handle(n, s.caches[n], m) else s.caches[n]
  }

  lemma DeliverNext(s: State, t: State, m: Message, done: seq<Id>, n: Id)
    requires n in s.caches && n !in done
    ensures Handled(s, t, m, done) ==> Handled(s, AfterDeliver(t, n), m, done + [n])
  {
    if Handled(s, t, m, done) { assert t.inboxes[n] == [m] && [m][1..] == []; }
  }

  lemma DeliveriesMore(s: State, before: seq<Id>, n: Id)
    ensures Run(s, Deliveries(before + [n])) == AfterDeliver(Run(s, Deliveries(before)), n)
  {
    assert (before + [n])[..|before|] == before;
    RunConcat(s, Deliveries(before), [Deliver(n)]);
    RunOne(Run(s, Deliveries(before)), Deliver(n));
  }

  lemma {:induction false} DeliverAll(s: State, m: Message, order: seq<Id>)
    requires s.caches.Keys == s.inboxes.Keys && (forall n <- s.inboxes :: s.inboxes[n] == [m])
    requires forall n <- order :: n in s.caches
    requires forall x, y | 0 <= x < y < |order| :: order[x] != order[y]
    ensures Handled(s, Run(s, Deliveries(order)), m, order)
  {
    if order != [] {
      var before, n := order[..|order| - 1], order[|order| - 1];
      assert order == before + [n] && n !in before;
      DeliverAll(s, m, before);
      DeliverNext(s, Run(s, Deliveries(before)), m, before, n);
      DeliveriesMore(s, before, n);
    }
  }

  lemma PublishedToAll(s: State, ids: set<Id>, i: Id, k: string, m: Message)
    requires Idle(s, ids) && Announced(s, i, k) == Some(m)
    ensures var t := AfterPublish(s, i, k);
      t.caches.Keys == ids && t.inboxes.Keys == ids && forall n <- t.inboxes :: t.inboxes[n] == [m]
  {
    assert [] + [m] == [m];
  }

  lemma BeginShows(s: State, ids: set<Id>, k: string, v: View, i: Id, a: Value)
    requires Shows(s, ids, k, v) && i in ids
    ensures Shows(AfterBeginSet(s, i, k, a), ids, k, Do(v, ids, k, Set(i, a)))
  {
    forall n ensures At(AfterBeginSet(s, i, k, a), k, Do(v, ids, k, Set(i, a)), n) {
      assert At(s, k, v, n) && At(s, k, v, i);
    }
  }

  lemma RemoveShows(s: State, ids: set<Id>, k: string, v: View, i: Id)
    requires Shows(s, ids, k, v) && i in ids
    ensures Shows(AfterBeginDelete(s, i, k), ids, k, Do(v, ids, k, Remove(i)))
  {
    forall n ensures At(AfterBeginDelete(s, i, k), k, Do(v, ids, k, Remove(i)), n) {
      assert At(s, k, v, n) && At(s, k, v, i);
    }
  }

  lemma WriteAt(s: State, ids: set<Id>, k: string, v: View, i: Id, n: Id)
    requires At(s, k, v, i) && At(s, k, v, n)
    ensures At(AfterWriteHash(s, i, k), k, Do(v, ids, k, Write(i)), n)
  {
  }

  lemma WriteShows(s: State, ids: set<Id>, k: string, v: View, i: Id)
    requires Shows(s, ids, k, v) && i in ids
    ensures Shows(AfterWriteHash(s, i, k), ids, k, Do(v, ids, k, Write(i)))
  {
    assert At(s, k, v, i);
    forall n ensures At(AfterWriteHash(s, i, k), k, Do(v, ids, k, Write(i)), n) {
      assert At(s, k, v, n);
      WriteAt(s, ids, k, v, i, n);
    }
  }

  lemma ReadShows(s: State, ids: set<Id>, k: string, v: View, i: Id)
    requires Shows(s, ids, k, v) && i in ids
    ensures Shows(AfterGet(s, i, k), ids, k, Do(v, ids, k, Read(i)))
  {
    assert At(s, k, v, i);
    forall n ensures At(AfterGet(s, i, k), k, Do(v, ids, k, Read(i)), n) { assert At(s, k, v, n); }
  }

  lemma FetchShows(s: State, ids: set<Id>, k: string, v: View, i: Id)
    requires Shows(s, ids, k, v) && i in ids
    ensures Shows(AfterFetchRead(s, i, k), ids, k, Do(v, ids, k, Fetch(i)))
  {
    assert At(s, k, v, i);
    forall n ensures At(AfterFetchRead(s, i, k), k, Do(v, ids, k, Fetch(i)), n) { assert At(s, k, v, n); }
  }

  lemma StoreShows(s: State, ids: set<Id>, k: string, v: View, i: Id)
    requires Shows(s, ids, k, v) && i in ids
    ensures Shows(AfterFetchStore(s, i, k), ids, k, Do(v, ids, k, Store(i)))
  {
    assert At(s, k, v, i);
    forall n ensures At(AfterFetchStore(s, i, k), k, Do(v, ids, k, Store(i)), n) { assert At(s, k, v, n); }
  }

  lemma HandledAt(s: State, t: State, ids: set<Id>, k: string, v: View, i: Id, m: Message, n: Id)
    requires At(s, k, v, n) && s.caches.Keys == ids && t.caches.Keys == ids
    requires t.inFlight == s.inFlight - {(i, k)} && t.fetched == s.fetched
    requires n in ids ==> t.caches[n] == Handle(n, s.caches[n], m)
    ensures At(t, k, v.(cached := Heeded(v.cached, ids, m, k), ops := v.ops - {i}), n)
  {
  }

  lemma HandledShows(s: State, t: State, ids: set<Id>, k: string, v: View, i: Id, m: Message, order: seq<Id>)
    requires Shows(s, ids, k, v) && Announced(s, i, k) == Some(m) && Lists(order, ids)
    requires Handled(AfterPublish(s, i, k), t, m, order)
    ensures Shows(t, ids, k, v.(cached := Heeded(v.cached, ids, m, k), ops := v.ops - {i}))
  {
    forall n ensures At(t, k, v.(cached := Heeded(v.cached, ids, m, k), ops := v.ops - {i}), n) {
      assert At(s, k, v, n);
      HandledAt(s, t, ids, k, v, i, m, n);
    }
  }

  lemma TellHandles(s: State, ids: set<Id>, k: string, i: Id, m: Message, order: seq<Id>)
    requires Idle(s, ids) && Announced(s, i, k) == Some(m) && Lists(order, ids)
    ensures Handled(AfterPublish(s, i, k), Run(s, Steps(Tell(i), k, order)), m, order)
  {
    PublishedToAll(s, ids, i, k, m);
    RunConcat(s, [Publish(i, k)], Deliveries(order));
    RunOne(s, Publish(i, k));
    DeliverAll(AfterPublish(s, i, k), m, order);
  }

  lemma TellShows(s: State, ids: set<Id>, k: string, v: View, i: Id, order: seq<Id>)
    requires Shows(s, ids, k, v) && CanDo(v, ids, Tell(i)) && Lists(order, ids)
    ensures Shows(Run(s, Steps(Tell(i), k, order)), ids, k, Do(v, ids, k, Tell(i)))
  {
    assert At(s, k, v, i);
    var m := Announcement(i, k, v.ops[i]);
    TellHandles(s, ids, k, i, m, order);
    HandledShows(s, Run(s, Steps(Tell(i), k, order)), ids, k, v, i, m, order);
  }

  lemma ActShows(s: State, ids: set<Id>, k: string, v: View, act: Act, order: seq<Id>)
    requires Shows(s, ids, k, v) && CanDo(v, ids, act) && Lists(order, ids)
    ensures Shows(Run(s, Steps(act, k, order)), ids, k, Do(v, ids, k, act))
  {
    if act.Tell? {
      TellShows(s, ids, k, v, act.id, order);
    } else {
      StepShows(s, ids, k, v, act, order);
      RunOne(s, Steps(act, k, order)[0]);
    }
  }

  lemma StepShows(s: State, ids: set<Id>, k: string, v: View, act: Act, order: seq<Id>)
    requires Shows(s, ids, k, v) && act.id in ids && !act.Tell?
    ensures Shows(Apply(s, Steps(act, k, order)[0]), ids, k, Do(v, ids, k, act))
  {
    match act
    case Set(i, a) => BeginShows(s, ids, k, v, i, a);
    case Remove(i) => RemoveShows(s, ids, k, v, i);
    case Write(i) => WriteShows(s, ids, k, v, i);
    case Read(i) => ReadShows(s, ids, k, v, i);
    case Fetch(i) => FetchShows(s, ids, k, v, i);
    case Store(i) => StoreShows(s, ids, k, v, i);
  }

  /** The steps of some acts lead where the acts do. */
  lemma {:induction false} PlayShows(s: State, ids: set<Id>, k: string, v: View, acts: seq<Act>, order: seq<Id>)
    requires Shows(s, ids, k, v) && CanPlay(v, ids, k, acts) && Lists(order, ids)
    ensures Shows(Run(s, AllSteps(acts, k, order)), ids, k, Play(v, ids, k, acts))
  {
    if acts != [] {
      var init, act := acts[..|acts| - 1], acts[|acts| - 1];
      PlayShows(s, ids, k, v, init, order);
      RunConcat(s, AllSteps(init, k, order), Steps(act, k, order));
      ActShows(Run(s, AllSteps(init, k, order)), ids, k, Play(v, ids, k, init), act, order);
    }
  }

  /** One act more. */
  lemma Next(v: View, ids: set<Id>, k: string, acts: seq<Act>, act: Act)
    requires CanPlay(v, ids, k, acts) && CanDo(Play(v, ids, k, acts), ids, act)
    ensures CanPlay(v, ids, k, acts + [act])
    ensures Play(v, ids, k, acts + [act]) == Do(Play(v, ids, k, acts), ids, k, act)
  {
    assert (acts + [act])[..|acts|] == acts;
  }

  function Fresh(hash: Cache, k: string): View {
    View(map[], map[], map[], Find(hash, k))
  }

  // ---------- Disagreement ----------

  /** With no operation in flight and the queues drained, one instance reads `a` where the
      hash has something else. */
  ghost predicate Stuck(s: State, j: Id, k: string, a: Value) {
    && Quiescent(s) && j in s.caches && Find(s.hash, k) != Some(a)
    && forall fallback :: Lookup(s.caches[j], s.hash, k, fallback) == a
  }

  /** The acts end with one instance stuck with `a`. */
  predicate Sticks(v: View, j: Id, a: Value) {
    v.ops == map[] && Find(v.cached, j) == Some(a) && v.stored != Some(a)
  }

  function Played(ids: set<Id>, hash: Cache, acts: seq<Act>, k: string, order: seq<Id>): State {
    Run(Start(ids, hash), AllSteps(acts, k, order))
  }

  lemma SticksIsStuck(s: State, ids: set<Id>, k: string, v: View, j: Id, a: Value)
    requires Shows(s, ids, k, v) && Sticks(v, j, a) && j in ids
    ensures Stuck(s, j, k, a)
  {
    forall n: Id ensures (n, k) !in s.inFlight { assert At(s, k, v, n); }
    assert At(s, k, v, j);
    assert s.inFlight.Keys == {};
  }

  lemma PlayedSticks(ids: set<Id>, hash: Cache, acts: seq<Act>, k: string, order: seq<Id>, j: Id, a: Value)
    requires j in ids && Lists(order, ids) && CanPlay(Fresh(hash, k), ids, k, acts)
    requires Sticks(Play(Fresh(hash, k), ids, k, acts), j, a)
    ensures Stuck(Played(ids, hash, acts, k, order), j, k, a)
    ensures Find(Played(ids, hash, acts, k, order).hash, k) == Play(Fresh(hash, k), ids, k, acts).stored
  {
    PlayShows(Start(ids, hash), ids, k, Fresh(hash, k), acts, order);
    SticksIsStuck(Played(ids, hash, acts, k, order), ids, k, Play(Fresh(hash, k), ids, k, acts), j, a);
  }

  /** The rest of an operation after its local update. */
  lemma Finish(v: View, ids: set<Id>, k: string, acts: seq<Act>, i: Id)
    requires CanPlay(v, ids, k, acts) && i in ids && i in Play(v, ids, k, acts).ops
    requires Play(v, ids, k, acts).ops[i].Setting? || Play(v, ids, k, acts).ops[i].Deleting?
    ensures var before, after := Play(v, ids, k, acts), Play(v, ids, k, acts + [Write(i)] + [Tell(i)]);
      && CanPlay(v, ids, k, acts + [Write(i)] + [Tell(i)])
      && after == View(Heeded(before.cached, ids, Announcement(i, k, before.ops[i]), k), before.ops - {i}, before.held,
           if before.ops[i].Setting? then Some(before.ops[i].value) else None)
  {
    Next(v, ids, k, acts, Write(i));
    Next(v, ids, k, acts + [Write(i)], Tell(i));
  }

  function TwoWriters(i: Id, j: Id, a: Value, b: Value): seq<Act> {
    [Set(i, a)] + [Set(j, b)] + [Write(i)] + [Tell(i)] + [Write(j)] + [Tell(j)]
  }

  /** Two writers of one key, between whose local updates nothing is delivered: the peer's
      message overwrites the later local write, the own message is dropped, and that instance
      disagrees with the hash for good. */
  lemma TwoWritersDiverge(ids: set<Id>, hash: Cache, order: seq<Id>, i: Id, j: Id, k: string, a: Value, b: Value)
    requires i in ids && j in ids && i != j && Lists(order, ids) && k != "" && a != b
    ensures var s := Played(ids, hash, TwoWriters(i, j, a, b), k, order);
      Stuck(s, j, k, a) && Find(s.hash, k) == Some(b)
  {
    var v, begun := Fresh(hash, k), [Set(i, a)] + [Set(j, b)];
    assert [] + [Set(i, a)] == [Set(i, a)];
    Next(v, ids, k, [], Set(i, a));
    Next(v, ids, k, [Set(i, a)], Set(j, b));
    Finish(v, ids, k, begun, i);
    Finish(v, ids, k, begun + [Write(i)] + [Tell(i)], j);
    PlayedSticks(ids, hash, TwoWriters(i, j, a, b), k, order, j, a);
  }

  /** A `get` between the local removal and the hash removal of its own instance's `delete`
      caches the deleted value again. */
  lemma GetInsideOwnDelete(ids: set<Id>, hash: Cache, order: seq<Id>, i: Id, k: string)
    requires i in ids && Lists(order, ids) && k in hash
    ensures var s := Played(ids, hash, [Remove(i)] + [Read(i)] + [Write(i)] + [Tell(i)], k, order);
      Stuck(s, i, k, hash[k]) && k !in s.hash
  {
    var v, read := Fresh(hash, k), [Remove(i)] + [Read(i)];
    assert [] + [Remove(i)] == [Remove(i)];
    Next(v, ids, k, [], Remove(i));
    Next(v, ids, k, [Remove(i)], Read(i));
    Finish(v, ids, k, read, i);
    PlayedSticks(ids, hash, read + [Write(i)] + [Tell(i)], k, order, i, hash[k]);
  }

  /** A `get` that reads the hash before a peer's `delete` and stores the value after the
      peer's message keeps the deleted value. */
  lemma GetAcrossPeerDelete(ids: set<Id>, hash: Cache, order: seq<Id>, i: Id, j: Id, k: string)
    requires i in ids && j in ids && i != j && Lists(order, ids) && k in hash
    ensures var s := Played(ids, hash, [Fetch(j)] + [Remove(i)] + [Write(i)] + [Tell(i)] + [Store(j)], k, order);
      Stuck(s, j, k, hash[k]) && k !in s.hash
  {
    var v := Fresh(hash, k);
    assert [] + [Fetch(j)] == [Fetch(j)];
    Next(v, ids, k, [], Fetch(j));
    HeldAcross(ids, hash, order, [Fetch(j)], i, j, k, hash[k]);
  }

  /** A `delete` of a value that some instance holds sticks there. */
  lemma HeldAcross(ids: set<Id>, hash: Cache, order: seq<Id>, acts: seq<Act>, i: Id, j: Id, k: string, h: Value)
    requires CanPlay(Fresh(hash, k), ids, k, acts) && i in ids && j in ids && Lists(order, ids)
    requires var v := Play(Fresh(hash, k), ids, k, acts); v.ops == map[] && Find(v.held, j) == Some(h)
    ensures var s := Played(ids, hash, acts + [Remove(i)] + [Write(i)] + [Tell(i)] + [Store(j)], k, order);
      Stuck(s, j, k, h) && k !in s.hash
  {
    var v, removed := Fresh(hash, k), acts + [Remove(i)];
    Next(v, ids, k, acts, Remove(i));
    Finish(v, ids, k, removed, i);
    Next(v, ids, k, removed + [Write(i)] + [Tell(i)], Store(j));
    PlayedSticks(ids, hash, removed + [Write(i)] + [Tell(i)] + [Store(j)], k, order, j, h);
  }

  /** The first set of a key, which a peer reads before it is told, and a delete. */
  function PeerSplit(i: Id, j: Id, a: Value): seq<Act> {
    [Set(i, a)] + [Write(i)] + [Fetch(j)] + [Tell(i)] + [Remove(i)] + [Write(i)] + [Tell(i)] + [Store(j)]
  }

  /** So a peer that may split a read can be left with any value, whatever the hash held. */
  lemma PeerSplitSticks(ids: set<Id>, hash: Cache, order: seq<Id>, i: Id, j: Id, k: string, a: Value)
    requires i in ids && j in ids && i != j && Lists(order, ids)
    ensures Stuck(Played(ids, hash, PeerSplit(i, j, a), k, order), j, k, a)
  {
    var v, told := Fresh(hash, k), [Set(i, a)] + [Write(i)] + [Fetch(j)] + [Tell(i)];
    assert [] + [Set(i, a)] == [Set(i, a)];
    Next(v, ids, k, [], Set(i, a));
    Next(v, ids, k, [Set(i, a)], Write(i));
    Next(v, ids, k, [Set(i, a)] + [Write(i)], Fetch(j));
    Next(v, ids, k, [Set(i, a)] + [Write(i)] + [Fetch(j)], Tell(i));
    HeldAcross(ids, hash, order, told, i, j, k, a);
  }

  /** A set of a key, done. */
  lemma SetDone(ids: set<Id>, hash: Cache, i: Id, k: string, a: Value)
    requires i in ids
    ensures var v, acts := Fresh(hash, k), [Set(i, a)] + [Write(i)] + [Tell(i)];
      && CanPlay(v, ids, k, acts)
      && Play(v, ids, k, acts) == View(Heeded(map[i := a], ids, SetMessage(i, k, a), k), map[], map[], Some(a))
  {
    assert [] + [Set(i, a)] == [Set(i, a)];
    Next(Fresh(hash, k), ids, k, [], Set(i, a));
    Finish(Fresh(hash, k), ids, k, [Set(i, a)], i);
  }

  function SetThenDelete(i: Id, a: Value): seq<Act> {
    [Set(i, a)] + [Write(i)] + [Tell(i)] + [Remove(i)]
  }

  /** A read inside the instance's own `delete`, whatever the hash held. */
  lemma CarelessReadSticks(ids: set<Id>, hash: Cache, order: seq<Id>, i: Id, k: string, a: Value)
    requires i in ids && Lists(order, ids)
    ensures Stuck(Played(ids, hash, SetThenDelete(i, a) + [Read(i)] + [Write(i)] + [Tell(i)], k, order), i, k, a)
  {
    var v, acts := Fresh(hash, k), SetThenDelete(i, a);
    SetDone(ids, hash, i, k, a);
    Next(v, ids, k, [Set(i, a)] + [Write(i)] + [Tell(i)], Remove(i));
    Next(v, ids, k, acts, Read(i));
    Finish(v, ids, k, acts + [Read(i)], i);
    PlayedSticks(ids, hash, acts + [Read(i)] + [Write(i)] + [Tell(i)], k, order, i, a);
  }

  /** A read split around the instance's own `delete`. */
  lemma OwnSplitSticks(ids: set<Id>, hash: Cache, order: seq<Id>, i: Id, k: string, a: Value)
    requires i in ids && Lists(order, ids)
    ensures Stuck(Played(ids, hash, SetThenDelete(i, a) + [Fetch(i)] + [Write(i)] + [Tell(i)] + [Store(i)], k, order),
      i, k, a)
  {
    var v, acts := Fresh(hash, k), SetThenDelete(i, a);
    SetDone(ids, hash, i, k, a);
    Next(v, ids, k, [Set(i, a)] + [Write(i)] + [Tell(i)], Remove(i));
    Next(v, ids, k, acts, Fetch(i));
    Finish(v, ids, k, acts + [Fetch(i)], i);
    Next(v, ids, k, acts + [Fetch(i)] + [Write(i)] + [Tell(i)], Store(i));
    PlayedSticks(ids, hash, acts + [Fetch(i)] + [Write(i)] + [Tell(i)] + [Store(i)], k, order, i, a);
  }

  function EmptyKeyRun(i: Id, j: Id, a: Value, b: Value): seq<Act> {
    [Set(i, a)] + [Write(i)] + [Tell(i)] + [Read(j)] + [Set(i, b)] + [Write(i)] + [Tell(i)]
  }

  /** The empty key, which the listener never updates: a run with one writer and an atomic,
      harmless read after which a peer reads an old value for good. */
  lemma EmptyKeyDiverges(ids: set<Id>, hash: Cache, order: seq<Id>, i: Id, j: Id, a: Value, b: Value)
    requires i in ids && j in ids && i != j && Lists(order, ids) && a != b
    ensures var s := Played(ids, hash, EmptyKeyRun(i, j, a, b), "", order);
      Stuck(s, j, "", a) && Find(s.hash, "") == Some(b)
  {
    var v, first := Fresh(hash, ""), [Set(i, a)] + [Write(i)] + [Tell(i)];
    SetDone(ids, hash, i, "", a);
    Next(v, ids, "", first, Read(j));
    Next(v, ids, "", first + [Read(j)], Set(i, b));
    Finish(v, ids, "", first + [Read(j)] + [Set(i, b)], i);
    PlayedSticks(ids, hash, EmptyKeyRun(i, j, a, b), "", order, j, a);
  }

  /** Between its local update and its hash write the writer is ahead of the hash, with all
      its queues drained: the exception in `EveryStateIsConverging`. */
  lemma WriterIsAhead(ids: set<Id>, hash: Cache, w: Id, key: string, v: Value)
    requires w in ids && Find(hash, key) != Some(v)
    ensures var s := Run(Start(ids, hash), [BeginSet(w, key, v)]);
      && w in s.caches && w in s.inboxes && s.inboxes[w] == []
      && Outcome(s, w, w, key) == Some(v) && Outcome(s, w, w, key) !in {None, Find(s.hash, key)}
      && Target(s, w, key) == Some(v)
  {
    RunOne(Start(ids, hash), BeginSet(w, key, v));
  }

  // ---------- Who may do what ----------

  /** What instances may do with a key: change it; read it in two steps; read it, also when
      that is not harmless. */
  datatype Policy = Policy(writers: set<Id>, splitters: set<Id>, careless: set<Id>)

  predicate Breaches(s: State, p: Policy, key: string, step: Step) {
    match step
    case BeginSet(i, k, _) => k == key && i !in p.writers
    case BeginDelete(i, k) => k == key && i !in p.writers
    case Get(i, k) => k == key && i !in p.careless && !Harmless(s, i, key)
    case FetchRead(i, k) => k == key && i !in p.splitters
    case _ => false
  }

  predicate ObeysRun(s: State, p: Policy, key: string, steps: seq<Step>)
    decreases |steps|
  {
    steps != [] ==> !Breaches(s, p, key, steps[0]) && ObeysRun(Apply(s, steps[0]), p, key, steps[1..])
  }

  lemma {:induction false} ObeysConcat(s: State, p: Policy, key: string, first: seq<Step>, rest: seq<Step>)
    ensures ObeysRun(s, p, key, first + rest) <==> ObeysRun(s, p, key, first) && ObeysRun(Run(s, first), p, key, rest)
    decreases |first|
  {
    if first == [] {
      assert [] + rest == rest;
    } else {
      assert (first + rest)[1..] == first[1..] + rest;
      ObeysConcat(Apply(s, first[0]), p, key, first[1..], rest);
    }
  }

  /** An act whose steps the policy allows in every state. */
  predicate May(p: Policy, act: Act) {
    match act
    case Set(i, _) => i in p.writers
    case Remove(i) => i in p.writers
    case Read(i) => i in p.careless
    case Fetch(i) => i in p.splitters
    case _ => true
  }

  lemma {:induction false} DeliveriesObey(s: State, p: Policy, key: string, order: seq<Id>)
    ensures ObeysRun(s, p, key, Deliveries(order))
  {
    if order != [] {
      var before, last := order[..|order| - 1], [Deliver(order[|order| - 1])];
      DeliveriesObey(s, p, key, before);
      assert last[1..] == [];
      ObeysConcat(s, p, key, Deliveries(before), last);
    }
  }

  lemma ActObeys(s: State, p: Policy, key: string, act: Act, order: seq<Id>)
    requires May(p, act)
    ensures ObeysRun(s, p, key, Steps(act, key, order))
  {
    var first := [Steps(act, key, order)[0]];
    assert first[1..] == [] && ObeysRun(s, p, key, first);
    if act.Tell? {
      DeliveriesObey(Run(s, first), p, key, order);
      ObeysConcat(s, p, key, first, Deliveries(order));
    }
  }

  lemma AllStepsMore(acts: seq<Act>, act: Act, k: string, order: seq<Id>)
    ensures AllSteps(acts + [act], k, order) == AllSteps(acts, k, order) + Steps(act, k, order)
  {
    assert (acts + [act])[..|acts|] == acts;
  }

  lemma MoreObeys(s: State, p: Policy, key: string, acts: seq<Act>, act: Act, order: seq<Id>)
    requires May(p, act)
    ensures ObeysRun(s, p, key, AllSteps(acts, key, order)) ==> ObeysRun(s, p, key, AllSteps(acts + [act], key, order))
  {
    AllStepsMore(acts, act, key, order);
    ActObeys(Run(s, AllSteps(acts, key, order)), p, key, act, order);
    ObeysConcat(s, p, key, AllSteps(acts, key, order), Steps(act, key, order));
  }

  lemma {:induction false} ActsObey(s: State, p: Policy, key: string, acts: seq<Act>, m: nat, n: nat, order: seq<Id>)
    requires m <= n <= |acts| && forall x | m <= x < n :: May(p, acts[x])
    ensures ObeysRun(s, p, key, AllSteps(acts[..m], key, order)) ==>
      ObeysRun(s, p, key, AllSteps(acts[..n], key, order))
  {
    if m < n {
      var init := acts[..n - 1];
      ActsObey(s, p, key, acts, m, n - 1, order);
      assert acts[..n] == init + [acts[n - 1]];
      MoreObeys(s, p, key, init, acts[n - 1], order);
    }
  }

  lemma AllObey(s: State, p: Policy, key: string, acts: seq<Act>, order: seq<Id>)
    requires forall act <- acts :: May(p, act)
    ensures ObeysRun(s, p, key, AllSteps(acts, key, order))
  {
    ActsObey(s, p, key, acts, 0, |acts|, order);
    assert acts[..|acts|] == acts;
  }

  /** Every instance reads the hash value, or the default if there is none. */
  ghost predicate Agreed(s: State, key: string) {
    forall i <- s.caches, fallback ::
      Lookup(s.caches[i], s.hash, key, fallback) == if key in s.hash then s.hash[key] else fallback
  }

  ghost predicate PolicyConverges(ids: set<Id>, hash: Cache, p: Policy, key: string) {
    forall steps | ObeysRun(Start(ids, hash), p, key, steps) && Quiescent(Run(Start(ids, hash), steps)) ::
      Agreed(Run(Start(ids, hash), steps), key)
  }

  // ---------- Policies that converge ----------

  /** A key that nobody writes: reads can only find what is in the hash. */
  ghost predicate Unwritten(s: State, key: string, v: Option<Value>) {
    && Find(s.hash, key) == v && s.caches.Keys == s.inboxes.Keys
    && (forall i :: (i, key) !in s.inFlight)
    && (forall i :: (i, key) in s.fetched ==> Some(s.fetched[(i, key)]) == v)
    && (forall i <- s.caches :: Find(s.caches[i], key) in {None, v})
    && forall i <- s.inboxes :: forall m <- s.inboxes[i] :: m.ReloadAll? || m.key != key
  }

  lemma UnwrittenCache(s: State, p: Policy, key: string, v: Option<Value>, step: Step, i: Id)
    requires Unwritten(s, key, v) && p.writers == {} && !Breaches(s, p, key, step) && i in s.caches
    ensures i in Apply(s, step).caches && Find(Apply(s, step).caches[i], key) in {None, v}
  {
    assert Find(s.caches[i], key) in {None, v};
    if step.Deliver? && i in s.inboxes && s.inboxes[i] != [] { assert s.inboxes[i][0] in s.inboxes[i]; }
  }

  lemma UnwrittenQueue(s: State, p: Policy, key: string, v: Option<Value>, step: Step, i: Id)
    requires Unwritten(s, key, v) && p.writers == {} && !Breaches(s, p, key, step) && i in s.inboxes
    ensures i in Apply(s, step).inboxes && forall m <- Apply(s, step).inboxes[i] :: m.ReloadAll? || m.key != key
  {
    assert forall m <- s.inboxes[i] :: m.ReloadAll? || m.key != key;
    if step.Publish? { assert OpOf(s, step.id, key) == None; }
  }

  lemma UnwrittenRest(s: State, p: Policy, key: string, v: Option<Value>, step: Step)
    requires Unwritten(s, key, v) && p.writers == {} && !Breaches(s, p, key, step)
    ensures var after := Apply(s, step);
      && Find(after.hash, key) == v
      && (forall i :: (i, key) !in after.inFlight)
      && (forall i :: (i, key) in after.fetched ==> Some(after.fetched[(i, key)]) == v)
  {
  }

  lemma UnwrittenStays(s: State, p: Policy, key: string, v: Option<Value>, step: Step)
    requires Unwritten(s, key, v) && p.writers == {} && !Breaches(s, p, key, step)
    ensures Unwritten(Apply(s, step), key, v)
  {
    StepStays(s, step);
    UnwrittenRest(s, p, key, v, step);
    var after := Apply(s, step);
    forall i <- after.caches ensures Find(after.caches[i], key) in {None, v} {
      UnwrittenCache(s, p, key, v, step, i);
    }
    forall i <- after.inboxes ensures forall m <- after.inboxes[i] :: m.ReloadAll? || m.key != key {
      UnwrittenQueue(s, p, key, v, step, i);
    }
  }

  lemma {:induction false} UnwrittenRun(s: State, p: Policy, key: string, v: Option<Value>, steps: seq<Step>)
    requires Unwritten(s, key, v) && p.writers == {} && ObeysRun(s, p, key, steps)
    ensures Unwritten(Run(s, steps), key, v)
    decreases |steps|
  {
    if steps != [] {
      UnwrittenStays(s, p, key, v, steps[0]);
      UnwrittenRun(Apply(s, steps[0]), p, key, v, steps[1..]);
    }
  }

  /** One writer, of a key that others hear of, no split reads, and no careless read by the
      writer. */
  ghost predicate Careful(ids: set<Id>, p: Policy, key: string) {
    var listeners := if key == "" then ids else p.writers;
    p.splitters == {} && p.writers !! p.careless && forall i <- p.writers, j <- listeners :: i == j
  }

  /** A read by an instance that does not write is harmless. */
  lemma OthersAreHarmless(s: State, writer: Id, key: string, i: Id)
    requires Shape(s, writer, key) && i != writer
    ensures Harmless(s, i, key)
  {
  }

  lemma {:induction false} CarefulIsDisciplined(s: State, ids: set<Id>, p: Policy, writer: Id, key: string,
      steps: seq<Step>)
    requires ObeysRun(s, p, key, steps) && p.writers == {writer} && Careful(ids, p, key)
    requires Invariant(s, writer, key) && Heard(s.caches.Keys, writer, key)
    ensures DisciplinedRun(s, writer, key, steps)
    decreases |steps|
  {
    if steps != [] {
      var step := steps[0];
      if step.Get? && step.id in p.careless { OthersAreHarmless(s, writer, key, step.id); }
      assert Disciplined(s, writer, key, step);
      StepKeeps(s, writer, key, step);
      StepStays(s, step);
      CarefulIsDisciplined(Apply(s, step), ids, p, writer, key, steps[1..]);
    }
  }

  lemma CarefulConverges(ids: set<Id>, hash: Cache, p: Policy, writer: Id, key: string, steps: seq<Step>)
    requires p.writers == {writer} && writer in ids && Careful(ids, p, key)
    requires ObeysRun(Start(ids, hash), p, key, steps) && Quiescent(Run(Start(ids, hash), steps))
    ensures Agreed(Run(Start(ids, hash), steps), key)
  {
    var s0 := Start(ids, hash);
    assert s0.caches.Keys == ids && Heard(ids, writer, key);
    CarefulIsDisciplined(s0, ids, p, writer, key, steps);
    RunKeeps(s0, writer, key, steps);
    var s := Run(s0, steps);
    forall i <- s.caches, fallback
      ensures Lookup(s.caches[i], s.hash, key, fallback) == if key in s.hash then s.hash[key] else fallback
    {
      assert Converging(s, writer, i, key);
    }
  }

  // ---------- Policies that do not ----------

  lemma StuckBreaks(ids: set<Id>, hash: Cache, p: Policy, key: string, steps: seq<Step>, i: Id)
    requires ObeysRun(Start(ids, hash), p, key, steps) && Stuck(Run(Start(ids, hash), steps), i, key, "a")
    ensures !PolicyConverges(ids, hash, p, key)
  {
    var s := Run(Start(ids, hash), steps);
    assert Lookup(s.caches[i], s.hash, key, "b") == "a";
  }

  lemma TwoWritersBreak(ids: set<Id>, hash: Cache, p: Policy, key: string, i: Id, j: Id)
    requires key != "" && p.writers <= ids && i in p.writers && j in p.writers && i != j
    ensures !PolicyConverges(ids, hash, p, key)
  {
    var order := ListOf(ids);
    var acts := TwoWriters(i, j, "a", "b");
    var steps := AllSteps(acts, key, order);
    TwoWritersDiverge(ids, hash, order, i, j, key, "a", "b");
    AllObey(Start(ids, hash), p, key, acts, order);
    StuckBreaks(ids, hash, p, key, steps, j);
  }

  lemma EmptyKeyBreaks(ids: set<Id>, hash: Cache, p: Policy, i: Id, j: Id)
    requires p.writers <= ids && i in p.writers && j in ids && i != j
    ensures !PolicyConverges(ids, hash, p, "")
  {
    var order := ListOf(ids);
    var steps := AllSteps(EmptyKeyRun(i, j, "a", "b"), "", order);
    EmptyKeyDiverges(ids, hash, order, i, j, "a", "b");
    EmptyKeyRunObeys(ids, hash, p, order, i, j, "a", "b");
    StuckBreaks(ids, hash, p, "", steps, j);
  }

  /** A read by an instance without an operation in flight. */
  lemma IdleReadObeys(s: State, ids: set<Id>, k: string, v: View, p: Policy, j: Id, order: seq<Id>)
    requires Shows(s, ids, k, v) && j in ids && j !in v.ops
    ensures ObeysRun(s, p, k, Steps(Read(j), k, order))
  {
    assert At(s, k, v, j);
    assert [Get(j, k)][1..] == [];
  }

  /** A read among acts that the policy allows. */
  lemma ReadObeys(s: State, p: Policy, k: string, first: seq<Act>, j: Id, last: seq<Act>, order: seq<Id>)
    requires (forall act <- first :: May(p, act)) && forall act <- last :: May(p, act)
    requires ObeysRun(Run(s, AllSteps(first, k, order)), p, k, Steps(Read(j), k, order))
    ensures ObeysRun(s, p, k, AllSteps(first + [Read(j)] + last, k, order))
  {
    AllObey(s, p, k, first, order);
    ObeysConcat(s, p, k, AllSteps(first, k, order), Steps(Read(j), k, order));
    AllStepsMore(first, Read(j), k, order);
    var all := first + [Read(j)] + last;
    assert all[..|first| + 1] == first + [Read(j)] && all[..|all|] == all;
    forall x | |first| < x < |all| ensures May(p, all[x]) { assert all[x] in last; }
    ActsObey(s, p, k, all, |first| + 1, |all|, order);
  }

  lemma EmptyKeyReadObeys(ids: set<Id>, hash: Cache, p: Policy, order: seq<Id>, i: Id, j: Id, a: Value)
    requires i in ids && j in ids && Lists(order, ids)
    ensures ObeysRun(Played(ids, hash, [Set(i, a)] + [Write(i)] + [Tell(i)], "", order), p, "",
      Steps(Read(j), "", order))
  {
    var v, first := Fresh(hash, ""), [Set(i, a)] + [Write(i)] + [Tell(i)];
    SetDone(ids, hash, i, "", a);
    PlayShows(Start(ids, hash), ids, "", v, first, order);
    IdleReadObeys(Played(ids, hash, first, "", order), ids, "", Play(v, ids, "", first), p, j, order);
  }

  /** The run on the empty key needs no more than one writer. */
  lemma EmptyKeyRunObeys(ids: set<Id>, hash: Cache, p: Policy, order: seq<Id>, i: Id, j: Id, a: Value, b: Value)
    requires i in ids && j in ids && i != j && Lists(order, ids) && i in p.writers
    ensures ObeysRun(Start(ids, hash), p, "", AllSteps(EmptyKeyRun(i, j, a, b), "", order))
  {
    var first, last := [Set(i, a)] + [Write(i)] + [Tell(i)], [Set(i, b)] + [Write(i)] + [Tell(i)];
    EmptyKeyReadObeys(ids, hash, p, order, i, j, a);
    ReadObeys(Start(ids, hash), p, "", first, j, last, order);
    assert EmptyKeyRun(i, j, a, b) == first + [Read(j)] + last;
  }

  lemma SplitterBreaks(ids: set<Id>, hash: Cache, p: Policy, key: string, i: Id, j: Id)
    requires i in ids && j in ids && i in p.writers && j in p.splitters
    ensures !PolicyConverges(ids, hash, p, key)
  {
    var order := ListOf(ids);
    var acts := if i == j then SetThenDelete(i, "a") + [Fetch(i)] + [Write(i)] + [Tell(i)] + [Store(i)]
                else PeerSplit(i, j, "a");
    var steps := AllSteps(acts, key, order);
    if i == j {
      OwnSplitSticks(ids, hash, order, i, key, "a");
    } else {
      PeerSplitSticks(ids, hash, order, i, j, key, "a");
    }
    AllObey(Start(ids, hash), p, key, acts, order);
    StuckBreaks(ids, hash, p, key, steps, j);
  }

  lemma CarelessWriterBreaks(ids: set<Id>, hash: Cache, p: Policy, key: string, i: Id)
    requires i in ids && i in p.writers && i in p.careless
    ensures !PolicyConverges(ids, hash, p, key)
  {
    var order := ListOf(ids);
    var acts := SetThenDelete(i, "a") + [Read(i)] + [Write(i)] + [Tell(i)];
    var steps := AllSteps(acts, key, order);
    CarelessReadSticks(ids, hash, order, i, key, "a");
    AllObey(Start(ids, hash), p, key, acts, order);
    StuckBreaks(ids, hash, p, key, steps, i);
  }

  lemma NotCarefulBreaks(ids: set<Id>, hash: Cache, p: Policy, key: string, w: Id)
    requires p.writers <= ids && p.splitters <= ids && w in p.writers && !Careful(ids, p, key)
    ensures !PolicyConverges(ids, hash, p, key)
  {
    if j :| j in p.splitters {
      SplitterBreaks(ids, hash, p, key, w, j);
    } else if i :| i in p.writers && i in p.careless {
      CarelessWriterBreaks(ids, hash, p, key, i);
    } else {
      assert p.splitters == {};
      var i, j :| i in p.writers && j in (if key == "" then ids else p.writers) && i != j;
      if key == "" {
        EmptyKeyBreaks(ids, hash, p, i, j);
      } else {
        TwoWritersBreak(ids, hash, p, key, i, j);
      }
    }
  }

  /** All runs within a policy converge exactly if nobody writes the key; or nobody may split
      a read of it, at most one instance writes it, without careless reads of its own, and
      it is not the empty key or there is no other instance. */
  lemma PolicyConvergesExactly(ids: set<Id>, hash: Cache, p: Policy, key: string)
    requires p.writers <= ids && p.splitters <= ids
    ensures PolicyConverges(ids, hash, p, key) <==> p.writers == {} || Careful(ids, p, key)
  {
    if p.writers != {} && !Careful(ids, p, key) {
      var w :| w in p.writers;
      NotCarefulBreaks(ids, hash, p, key, w);
    } else {
      forall steps | ObeysRun(Start(ids, hash), p, key, steps) && Quiescent(Run(Start(ids, hash), steps))
        ensures Agreed(Run(Start(ids, hash), steps), key)
      {
        if p.writers == {} {
          UnwrittenRun(Start(ids, hash), p, key, Find(hash, key), steps);
        } else {
          var w :| w in p.writers;
          assert p.writers == {w};
          CarefulConverges(ids, hash, p, w, key, steps);
        }
      }
    }
  }
}
