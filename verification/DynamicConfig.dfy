/** Replication of runtime settings: every instance of `DynamicConfigService` keeps a
    local cache, one Redis hash holds the overrides, and a publish/subscribe channel
    carries updates to all instances, which drop their own.

    `set` and `delete` are three separate steps each (cache, hash, publish), a read may
    run at any point between them, and each instance drains its own FIFO queue: the
    state machine below interleaves these steps. `EveryStateIsConverging` is its
    invariant over all runs, `QuiescentInstancesAgree` the convergence it gives;
    `GetAllShowsTheSet` says what is seen before that. Module `DynamicConfigLimits` has one
    run for each hypothesis that shows it is needed. */
module DynamicConfig {
  import opened Options

  type Id = nat
  type Value = string   // a JSON value, as text
  type Cache = map<string, Value>

  datatype Message =
    | SetMessage(source: Id, key: string, value: Value)
    | DeleteMessage(source: Id, key: string)
    | ReloadAll(source: Id)

  // ---------- One instance ----------

  /** What one message does to the value cached under `key`: own messages are dropped,
      and so are messages about the empty key. */
  function NextValue(self: Id, cached: Option<Value>, m: Message, key: string): Option<Value> {
    if m.source == self then cached
    else match m
      case SetMessage(_, k, v) => if k == key && k != "" then Some(v) else cached
      case DeleteMessage(_, k) => if k == key && k != "" then None else cached
      case ReloadAll(_) => None
  }

  /** One iteration of the listener loop. */
  function Handle(self: Id, cache: Cache, m: Message): (after: Cache)
    ensures forall key :: Find(after, key) == NextValue(self, Find(cache, key), m, key)
  {
    if m.source == self then cache
    else match m
      case SetMessage(_, k, v) => if k != "" then cache[k := v] else cache
      case DeleteMessage(_, k) => if k != "" then cache - {k} else cache
      case ReloadAll(_) => map[]
  }

  /** The value cached under `key` once all of `messages` are handled. */
  function Eventually(self: Id, cached: Option<Value>, messages: seq<Message>, key: string): Option<Value>
    decreases |messages|
  {
    if messages == [] then cached
    else Eventually(self, NextValue(self, cached, messages[0], key), messages[1..], key)
  }

  lemma {:induction false} EventuallyAppend(self: Id, cached: Option<Value>, first: seq<Message>, rest: seq<Message>,
        key: string)
    ensures Eventually(self, cached, first + rest, key)
         == Eventually(self, Eventually(self, cached, first, key), rest, key)
    decreases |first|
  {
    if first == [] {
      assert [] + rest == rest;
    } else {
      EventuallyAppend(self, NextValue(self, cached, first[0], key), first[1..], rest, key);
      assert (first + rest)[1..] == first[1..] + rest;
    }
  }

  lemma EventuallyOne(self: Id, cached: Option<Value>, m: Message, key: string)
    ensures Eventually(self, cached, [m], key) == NextValue(self, cached, m, key)
  {
    assert [m][1..] == [];
  }

  /** A message between others acts on what those before it lead to. */
  lemma EventuallyBetween(self: Id, cached: Option<Value>, first: seq<Message>, m: Message, rest: seq<Message>,
        key: string)
    ensures var before := Eventually(self, cached, first, key);
      && Eventually(self, cached, first + rest, key) == Eventually(self, before, rest, key)
      && Eventually(self, cached, first + [m] + rest, key)
         == Eventually(self, NextValue(self, before, m, key), rest, key)
  {
    EventuallyAppend(self, cached, first, rest, key);
    EventuallyAppend(self, cached, first + [m], rest, key);
    EventuallyAppend(self, cached, first, [m], key);
    EventuallyOne(self, Eventually(self, cached, first, key), m, key);
  }

  /** Starting from nothing cached can only make the outcome nothing. */
  lemma {:induction false} EventuallyFromNothing(self: Id, cached: Option<Value>, messages: seq<Message>, key: string)
    ensures var e := Eventually(self, cached, messages, key);
      e == Eventually(self, None, messages, key) || (e == cached && Eventually(self, None, messages, key) == None)
    decreases |messages|
  {
    if messages != [] {
      EventuallyFromNothing(self, NextValue(self, cached, messages[0], key), messages[1..], key);
      EventuallyFromNothing(self, NextValue(self, None, messages[0], key), messages[1..], key);
    }
  }

  /** Messages that all come from the instance itself, if they name the key at all. */
  lemma {:induction false} EventuallyOwn(self: Id, cached: Option<Value>, messages: seq<Message>, key: string)
    requires forall m <- messages :: m.ReloadAll? || m.key != key || m.source == self
    ensures Eventually(self, cached, messages, key) in {None, cached}
    decreases |messages|
  {
    if messages != [] {
      EventuallyOwn(self, NextValue(self, cached, messages[0], key), messages[1..], key);
    }
  }

  /** The result of `get` when nothing else runs inside it. */
  function Lookup(cache: Cache, hash: Cache, key: string, fallback: Value): Value {
    if key in cache then cache[key] else if key in hash then hash[key] else fallback
  }

  function CacheAfterGet(cache: Cache, hash: Cache, key: string): Cache {
    if key !in cache && key in hash then cache[key := hash[key]] else cache
  }

  /** The current value that `get_all` lists for a supported key or a key of the hash. */
  function Listed(cache: Cache, hash: Cache, supported: Cache, key: string): Value
    requires key in supported || key in hash
  {
    if key in hash then hash[key]
    else if key in cache then cache[key]
    else supported[key]
  }

  // ---------- The replicated system ----------

  /** Where an operation on one key is: after its local update, or after its hash write. */
  datatype Op = Setting(value: Value) | SetWritten(value: Value) | Deleting | DeleteWritten

  datatype State = State(
    caches: map<Id, Cache>,
    inboxes: map<Id, seq<Message>>,
    hash: Cache,
    inFlight: map<(Id, string), Op>,
    fetched: map<(Id, string), Value>)

  datatype Step =
    | BeginSet(id: Id, key: string, value: Value)
    | BeginDelete(id: Id, key: string)
    | WriteHash(id: Id, key: string)
    | Publish(id: Id, key: string)
    | Deliver(id: Id)
    | Get(id: Id, key: string)
    | FetchRead(id: Id, key: string)     // a `get` that missed its cache has read the hash
    | FetchStore(id: Id, key: string)    // and later stores what it read
    | RequestReload(source: Id)

  function Broadcast(inboxes: map<Id, seq<Message>>, m: Message): map<Id, seq<Message>> {
    map i | i in inboxes :: inboxes[i] + [m]
  }

  // Each step; one that is not possible changes nothing.

  function AfterBegin(s: State, i: Id, k: string, op: Op, cached: Cache): State {
    if i !in s.caches || (i, k) in s.inFlight then s
    else s.(caches := s.caches[i := cached], inFlight := s.inFlight[(i, k) := op])
  }

  function AfterBeginSet(s: State, i: Id, k: string, v: Value): State {
    AfterBegin(s, i, k, Setting(v), if i in s.caches then s.caches[i][k := v] else map[])
  }

  function AfterBeginDelete(s: State, i: Id, k: string): State {
    AfterBegin(s, i, k, Deleting, if i in s.caches then s.caches[i] - {k} else map[])
  }

  function OpOf(s: State, i: Id, k: string): Option<Op> {
    Find(s.inFlight, (i, k))
  }

  function AfterWriteHash(s: State, i: Id, k: string): State {
    match OpOf(s, i, k)
    case Some(Setting(v)) => s.(hash := s.hash[k := v], inFlight := s.inFlight[(i, k) := SetWritten(v)])
    case Some(Deleting) => s.(hash := s.hash - {k}, inFlight := s.inFlight[(i, k) := DeleteWritten])
    case _ => s
  }

  /** The message an operation is about to publish. */
  function Announced(s: State, i: Id, k: string): Option<Message> {
    match OpOf(s, i, k)
    case Some(SetWritten(v)) => Some(SetMessage(i, k, v))
    case Some(DeleteWritten) => Some(DeleteMessage(i, k))
    case _ => None
  }

  function AfterPublish(s: State, i: Id, k: string): State {
    match Announced(s, i, k)
    case Some(m) => s.(inboxes := Broadcast(s.inboxes, m), inFlight := s.inFlight - {(i, k)})
    case None => s
  }

  function AfterDeliver(s: State, i: Id): State {
    if i !in s.caches || i !in s.inboxes || s.inboxes[i] == [] then s
    else s.(caches := s.caches[i := Handle(i, s.caches[i], s.inboxes[i][0])],
            inboxes := s.inboxes[i := s.inboxes[i][1..]])
  }

  function AfterGet(s: State, i: Id, k: string): State {
    if i !in s.caches then s else s.(caches := s.caches[i := CacheAfterGet(s.caches[i], s.hash, k)])
  }

  function AfterFetchRead(s: State, i: Id, k: string): State {
    if i !in s.caches || k in s.caches[i] || k !in s.hash then s
    else s.(fetched := s.fetched[(i, k) := s.hash[k]])
  }

  function AfterFetchStore(s: State, i: Id, k: string): State {
    if i !in s.caches || (i, k) !in s.fetched then s
    else s.(caches := s.caches[i := s.caches[i][k := s.fetched[(i, k)]]], fetched := s.fetched - {(i, k)})
  }

  function AfterRequestReload(s: State, source: Id): State {
    s.(inboxes := Broadcast(s.inboxes, ReloadAll(source)))
  }

  function Apply(s: State, step: Step): State {
    match step
    case BeginSet(i, k, v) => AfterBeginSet(s, i, k, v)
    case BeginDelete(i, k) => AfterBeginDelete(s, i, k)
    case WriteHash(i, k) => AfterWriteHash(s, i, k)
    case Publish(i, k) => AfterPublish(s, i, k)
    case Deliver(i) => AfterDeliver(s, i)
    case Get(i, k) => AfterGet(s, i, k)
    case FetchRead(i, k) => AfterFetchRead(s, i, k)
    case FetchStore(i, k) => AfterFetchStore(s, i, k)
    case RequestReload(source) => AfterRequestReload(s, source)
  }

  /** The system when all instances have just started. */
  function Start(ids: set<Id>, hash: Cache): State {
    State(map i | i in ids :: map[], map i | i in ids :: [], hash, map[], map[])
  }

  function Run(s: State, steps: seq<Step>): State
    decreases |steps|
  {
    if steps == [] then s else Run(Apply(s, steps[0]), steps[1..])
  }

  // ---------- Convergence of one key ----------

  /** The value an instance must converge to: the hash value; or, between its own local
      update and its hash write, the value it is about to write. */
  function Target(s: State, i: Id, key: string): Option<Value> {
    if (i, key) !in s.inFlight then Find(s.hash, key)
    else match s.inFlight[(i, key)]
      case Setting(v) => Some(v)
      case Deleting => None
      case _ => Find(s.hash, key)
  }

  /** A `get` of this instance leaves nothing behind that lasts: it finds the key cached,
      or nothing or the right value in the hash, or a peer's reload is still queued. It can
      fail only inside the instance's own operation, before the hash is written. */
  predicate Harmless(s: State, i: Id, key: string) {
    i in s.caches && i in s.inboxes ==>
      || key in s.caches[i]
      || Find(s.hash, key) in {None, Target(s, i, key)}
      || exists m <- s.inboxes[i] :: m.ReloadAll? && m.source != i
  }

  /** The hypotheses on one step, about one key: only its writer changes it, and a read of
      it is atomic and harmless. Other keys are free. */
  predicate Disciplined(s: State, writer: Id, key: string, step: Step) {
    match step
    case BeginSet(i, k, _) => k == key ==> i == writer
    case BeginDelete(i, k) => k == key ==> i == writer
    case Get(i, k) => k == key ==> Harmless(s, i, key)
    case FetchRead(_, k) => k != key
    case _ => true
  }

  predicate DisciplinedRun(s: State, writer: Id, key: string, steps: seq<Step>)
    decreases |steps|
  {
    steps != [] ==>
      Disciplined(s, writer, key, steps[0]) && DisciplinedRun(Apply(s, steps[0]), writer, key, steps[1..])
  }

  /** The message about the key that its writer has still to publish. */
  function Unpublished(s: State, writer: Id, key: string): seq<Message> {
    match Announced(s, writer, key)
    case Some(m) => [m]
    case None => []
  }

  /** What the instance holds after the messages queued and about to be queued. */
  function Outcome(s: State, writer: Id, i: Id, key: string): Option<Value>
    requires i in s.caches && i in s.inboxes
  {
    Eventually(i, Find(s.caches[i], key), s.inboxes[i] + Unpublished(s, writer, key), key)
  }

  predicate Converging(s: State, writer: Id, i: Id, key: string)
    requires i in s.caches && i in s.inboxes
  {
    Outcome(s, writer, i, key) in {None, Target(s, i, key)}
  }

  predicate FromWriter(messages: seq<Message>, writer: Id, key: string) {
    forall m <- messages :: m.ReloadAll? || m.key != key || m.source == writer
  }

  predicate Written(s: State, writer: Id, key: string) {
    (writer, key) in s.inFlight ==> match s.inFlight[(writer, key)]
      case SetWritten(v) => Find(s.hash, key) == Some(v)
      case DeleteWritten => key !in s.hash
      case _ => true
  }

  ghost predicate Shape(s: State, writer: Id, key: string) {
    && s.caches.Keys == s.inboxes.Keys
    && (forall i :: (i, key) !in s.fetched)
    && (forall i <- s.inboxes :: FromWriter(s.inboxes[i], writer, key))
    && (forall i :: (i, key) in s.inFlight ==> i == writer && i in s.caches)
    && Written(s, writer, key)
  }

  /** Instances that do not write the key hear of its changes: the listener ignores the empty
      key, so it may only change where there is no other instance. */
  predicate Heard(ids: set<Id>, writer: Id, key: string) {
    key != "" || writer !in ids || ids == {writer}
  }

  ghost predicate Invariant(s: State, writer: Id, key: string) {
    Shape(s, writer, key) && forall i <- s.caches :: Converging(s, writer, i, key)
  }

  /** A begin by another instance, or of another key. */
  lemma OtherBeginKeeps(s: State, writer: Id, key: string, i0: Id, k0: string, op: Op, cached: Cache, i: Id)
    requires op.Setting? || op.Deleting?
    requires i0 in s.caches && (i0 == i ==> Find(cached, key) == Find(s.caches[i0], key))
    requires i in s.caches && i in s.inboxes && Converging(s, writer, i, key)
    requires (k0 == key ==> i0 == writer) && !(k0 == key && i0 == i)
    ensures var after := AfterBegin(s, i0, k0, op, cached);
      i in after.caches && i in after.inboxes && Converging(after, writer, i, key)
  {
    var after := AfterBegin(s, i0, k0, op, cached);
    assert Target(after, i, key) == Target(s, i, key);
    if k0 == key && (i0, k0) !in s.inFlight { assert Unpublished(s, writer, key) == []; }
    assert Unpublished(after, writer, key) == Unpublished(s, writer, key);
  }

  /** A begin by the writer: its queue names the key only in messages of its own. */
  lemma OwnBeginKeeps(s: State, writer: Id, key: string, op: Op, cached: Cache)
    requires (op.Setting? && Find(cached, key) == Some(op.value)) || (op.Deleting? && Find(cached, key) == None)
    requires writer in s.caches && writer in s.inboxes && Converging(s, writer, writer, key)
    requires FromWriter(s.inboxes[writer], writer, key)
    ensures var after := AfterBegin(s, writer, key, op, cached);
      writer in after.caches && writer in after.inboxes && Converging(after, writer, writer, key)
  {
    if (writer, key) !in s.inFlight {
      var after := AfterBegin(s, writer, key, op, cached);
      assert Unpublished(after, writer, key) == [] && Target(after, writer, key) == Find(cached, key);
      assert s.inboxes[writer] + [] == s.inboxes[writer];
      EventuallyOwn(writer, Find(cached, key), s.inboxes[writer], key);
    }
  }

  lemma BeginSetKeeps(s: State, writer: Id, key: string, i0: Id, k0: string, v: Value, i: Id)
    requires Invariant(s, writer, key) && (k0 == key ==> i0 == writer) && i in s.caches
    ensures var after := AfterBeginSet(s, i0, k0, v);
      i in after.caches && i in after.inboxes && Converging(after, writer, i, key)
  {
    assert Converging(s, writer, i, key);
    if i0 in s.caches {
      if k0 == key && i0 == i {
        OwnBeginKeeps(s, writer, key, Setting(v), s.caches[i0][k0 := v]);
      } else {
        OtherBeginKeeps(s, writer, key, i0, k0, Setting(v), s.caches[i0][k0 := v], i);
      }
    }
  }

  lemma BeginDeleteKeeps(s: State, writer: Id, key: string, i0: Id, k0: string, i: Id)
    requires Invariant(s, writer, key) && (k0 == key ==> i0 == writer) && i in s.caches
    ensures var after := AfterBeginDelete(s, i0, k0);
      i in after.caches && i in after.inboxes && Converging(after, writer, i, key)
  {
    assert Converging(s, writer, i, key);
    if i0 in s.caches {
      if k0 == key && i0 == i {
        OwnBeginKeeps(s, writer, key, Deleting, s.caches[i0] - {k0});
      } else {
        OtherBeginKeeps(s, writer, key, i0, k0, Deleting, s.caches[i0] - {k0}, i);
      }
    }
  }

  /** The hash write of the key, whose message is now about to be published. */
  lemma HashWritten(s: State, s': State, writer: Id, key: string, m: Message, i: Id)
    requires i in s.caches && i in s.inboxes && Converging(s, writer, i, key)
    requires s'.caches == s.caches && s'.inboxes == s.inboxes
    requires Unpublished(s, writer, key) == [] && Unpublished(s', writer, key) == [m]
    requires NextValue(i, Target(s, i, key), m, key) in {None, Target(s', i, key)}
    requires NextValue(i, None, m, key) in {None, Target(s', i, key)}
    ensures Converging(s', writer, i, key)
  {
    var cached, inbox := Find(s.caches[i], key), s.inboxes[i];
    assert inbox + [] == inbox;
    EventuallyAppend(i, cached, inbox, [m], key);
    EventuallyOne(i, Eventually(i, cached, inbox, key), m, key);
  }

  lemma OwnWriteKeeps(s: State, writer: Id, key: string, i: Id)
    requires (key != "" || i == writer) && i in s.caches && i in s.inboxes && Converging(s, writer, i, key)
    requires (i, key) in s.inFlight ==> i == writer
    ensures var after := AfterWriteHash(s, writer, key);
      i in after.caches && i in after.inboxes && Converging(after, writer, i, key)
  {
    var s' := AfterWriteHash(s, writer, key);
    if s' != s { HashWritten(s, s', writer, key, Unpublished(s', writer, key)[0], i); }
  }

  lemma OtherWriteKeeps(s: State, writer: Id, key: string, i0: Id, k0: string, i: Id)
    requires k0 != key && i in s.caches && i in s.inboxes && Converging(s, writer, i, key)
    ensures var after := AfterWriteHash(s, i0, k0);
      i in after.caches && i in after.inboxes && Converging(after, writer, i, key)
  {
    var s' := AfterWriteHash(s, i0, k0);
    assert Target(s', i, key) == Target(s, i, key) && Unpublished(s', writer, key) == Unpublished(s, writer, key);
  }

  lemma WriteHashKeeps(s: State, writer: Id, key: string, i0: Id, k0: string, i: Id)
    requires key != "" || i == writer || (writer, key) !in s.inFlight
    requires Invariant(s, writer, key) && i in s.caches
    ensures var after := AfterWriteHash(s, i0, k0);
      i in after.caches && i in after.inboxes && Converging(after, writer, i, key)
  {
    assert Converging(s, writer, i, key);
    if k0 == key {
      if i0 == writer && (writer, key) in s.inFlight { OwnWriteKeeps(s, writer, key, i); }
    } else {
      OtherWriteKeeps(s, writer, key, i0, k0, i);
    }
  }

  lemma PublishKeeps(s: State, writer: Id, key: string, i0: Id, k0: string, i: Id)
    requires Invariant(s, writer, key) && i in s.caches
    ensures var after := AfterPublish(s, i0, k0);
      i in after.caches && i in after.inboxes && Converging(after, writer, i, key)
  {
    var s' := AfterPublish(s, i0, k0);
    assert Converging(s, writer, i, key);
    if Announced(s, i0, k0).Some? {
      var m := Announced(s, i0, k0).value;
      var cached, inbox, u := Find(s.caches[i], key), s.inboxes[i], Unpublished(s, writer, key);
      if k0 == key {
        assert u == [m] && inbox + [m] + [] == inbox + u;
      } else {
        EventuallyBetween(i, cached, inbox, m, u, key);
      }
      assert Outcome(s', writer, i, key) == Outcome(s, writer, i, key);
    }
  }

  lemma RequestReloadKeeps(s: State, writer: Id, key: string, source: Id, i: Id)
    requires Invariant(s, writer, key) && i in s.caches
    ensures var after := AfterRequestReload(s, source);
      i in after.caches && i in after.inboxes && Converging(after, writer, i, key)
  {
    assert Converging(s, writer, i, key);
    var cached, inbox, u := Find(s.caches[i], key), s.inboxes[i], Unpublished(s, writer, key);
    EventuallyBetween(i, cached, inbox, ReloadAll(source), u, key);
    EventuallyFromNothing(i, Eventually(i, cached, inbox, key), u, key);
  }

  lemma OwnDeliveryKeeps(s: State, writer: Id, key: string, i: Id)
    requires i in s.caches && i in s.inboxes && s.inboxes[i] != [] && Converging(s, writer, i, key)
    ensures var after := AfterDeliver(s, i);
      i in after.caches && i in after.inboxes && Converging(after, writer, i, key)
  {
    var after, inbox, u := AfterDeliver(s, i), s.inboxes[i], Unpublished(s, writer, key);
    assert (inbox + u)[1..] == inbox[1..] + u;
    assert Find(after.caches[i], key) == NextValue(i, Find(s.caches[i], key), inbox[0], key);
    assert Outcome(after, writer, i, key) == Outcome(s, writer, i, key);
  }

  lemma DeliverKeeps(s: State, writer: Id, key: string, i0: Id, i: Id)
    requires Invariant(s, writer, key) && i in s.caches
    ensures var after := AfterDeliver(s, i0);
      i in after.caches && i in after.inboxes && Converging(after, writer, i, key)
  {
    assert Converging(s, writer, i, key);
    if i0 == i {
      if s.inboxes[i] != [] { OwnDeliveryKeeps(s, writer, key, i); }
    } else {
      assert Outcome(AfterDeliver(s, i0), writer, i, key) == Outcome(s, writer, i, key);
    }
  }

  /** Among messages of its own and reloads, an instance that holds a value keeps it
      exactly when no peer's reload is there. */
  lemma {:induction false} OwnMessagesKeep(self: Id, v: Value, messages: seq<Message>, key: string)
    requires FromWriter(messages, self, key)
    ensures Eventually(self, Some(v), messages, key)
         == if exists m <- messages :: m.ReloadAll? && m.source != self then None else Some(v)
    decreases |messages|
  {
    if messages != [] {
      var rest := messages[1..];
      assert messages == [messages[0]] + rest;
      if messages[0].ReloadAll? && messages[0].source != self {
        EventuallyOwn(self, None, rest, key);
      } else {
        OwnMessagesKeep(self, v, rest, key);
      }
    }
  }

  /** A `get` of the key keeps an instance converging exactly when it is harmless. */
  lemma GetKeepsExactly(s: State, writer: Id, key: string, i: Id)
    requires Invariant(s, writer, key) && i in s.caches
    ensures var after := AfterGet(s, i, key);
      i in after.caches && i in after.inboxes && (Converging(after, writer, i, key) <==> Harmless(s, i, key))
  {
    assert Converging(s, writer, i, key);
    var inbox, u := s.inboxes[i], Unpublished(s, writer, key);
    if key !in s.caches[i] && key in s.hash {
      EventuallyFromNothing(i, Some(s.hash[key]), inbox + u, key);
      if i == writer && Target(s, i, key) != Find(s.hash, key) {
        assert inbox + u == inbox;
        OwnMessagesKeep(i, s.hash[key], inbox, key);
      }
    }
  }

  lemma GetKeeps(s: State, writer: Id, key: string, i0: Id, k0: string, i: Id)
    requires Invariant(s, writer, key) && (k0 == key ==> Harmless(s, i0, key)) && i in s.caches
    ensures var after := AfterGet(s, i0, k0);
      i in after.caches && i in after.inboxes && Converging(after, writer, i, key)
  {
    assert Converging(s, writer, i, key);
    if k0 == key && i0 == i { GetKeepsExactly(s, writer, key, i); }
  }

  lemma FetchReadKeeps(s: State, writer: Id, key: string, i0: Id, k0: string, i: Id)
    requires Invariant(s, writer, key) && i in s.caches
    ensures var after := AfterFetchRead(s, i0, k0);
      i in after.caches && i in after.inboxes && Converging(after, writer, i, key)
  {
    assert Converging(s, writer, i, key);
  }

  lemma FetchStoreKeeps(s: State, writer: Id, key: string, i0: Id, k0: string, i: Id)
    requires Invariant(s, writer, key) && i in s.caches
    ensures var after := AfterFetchStore(s, i0, k0);
      i in after.caches && i in after.inboxes && Converging(after, writer, i, key)
  {
    assert Converging(s, writer, i, key);
    if k0 == key { assert (i0, key) !in s.fetched; }
  }

  lemma ConvergingKept(s: State, writer: Id, key: string, step: Step, i: Id)
    requires Heard(s.caches.Keys, writer, key) && Invariant(s, writer, key) && Disciplined(s, writer, key, step)
    requires i in s.caches
    ensures i in Apply(s, step).caches && i in Apply(s, step).inboxes && Converging(Apply(s, step), writer, i, key)
  {
    match step
    case BeginSet(i0, k0, v) => BeginSetKeeps(s, writer, key, i0, k0, v, i);
    case BeginDelete(i0, k0) => BeginDeleteKeeps(s, writer, key, i0, k0, i);
    case WriteHash(i0, k0) => WriteHashKeeps(s, writer, key, i0, k0, i);
    case Publish(i0, k0) => PublishKeeps(s, writer, key, i0, k0, i);
    case Deliver(i0) => DeliverKeeps(s, writer, key, i0, i);
    case Get(i0, k0) => GetKeeps(s, writer, key, i0, k0, i);
    case FetchRead(i0, k0) => FetchReadKeeps(s, writer, key, i0, k0, i);
    case FetchStore(i0, k0) => FetchStoreKeeps(s, writer, key, i0, k0, i);
    case RequestReload(source) => RequestReloadKeeps(s, writer, key, source, i);
  }

  lemma StepStays(s: State, step: Step)
    ensures Apply(s, step).caches.Keys == s.caches.Keys && Apply(s, step).inboxes.Keys == s.inboxes.Keys
  {
  }

  lemma QueuesKept(s: State, writer: Id, key: string, step: Step, i: Id)
    requires Shape(s, writer, key) && Disciplined(s, writer, key, step) && i in s.inboxes
    ensures i in Apply(s, step).inboxes && FromWriter(Apply(s, step).inboxes[i], writer, key)
  {
    assert FromWriter(s.inboxes[i], writer, key);
  }

  lemma FlightKept(s: State, writer: Id, key: string, step: Step)
    requires Shape(s, writer, key) && Disciplined(s, writer, key, step)
    ensures var after := Apply(s, step);
      && (forall i :: (i, key) !in after.fetched)
      && (forall i :: (i, key) in after.inFlight ==> i == writer && i in s.caches)
  {
  }

  lemma WrittenKept(s: State, writer: Id, key: string, step: Step)
    requires Shape(s, writer, key) && Disciplined(s, writer, key, step)
    ensures Written(Apply(s, step), writer, key)
  {
  }

  lemma ShapeKept(s: State, writer: Id, key: string, step: Step)
    requires Shape(s, writer, key) && Disciplined(s, writer, key, step)
    ensures Shape(Apply(s, step), writer, key)
  {
    StepStays(s, step);
    FlightKept(s, writer, key, step);
    WrittenKept(s, writer, key, step);
    var after := Apply(s, step).inboxes;
    forall i <- after ensures FromWriter(after[i], writer, key) {
      QueuesKept(s, writer, key, step, i);
    }
  }

  lemma StepKeeps(s: State, writer: Id, key: string, step: Step)
    requires Heard(s.caches.Keys, writer, key) && Invariant(s, writer, key) && Disciplined(s, writer, key, step)
    ensures Invariant(Apply(s, step), writer, key)
  {
    ShapeKept(s, writer, key, step);
    StepStays(s, step);
    forall i <- s.caches ensures Converging(Apply(s, step), writer, i, key) {
      ConvergingKept(s, writer, key, step, i);
    }
  }

  lemma {:induction false} RunKeeps(s: State, writer: Id, key: string, steps: seq<Step>)
    requires Heard(s.caches.Keys, writer, key) && Invariant(s, writer, key) && DisciplinedRun(s, writer, key, steps)
    ensures Invariant(Run(s, steps), writer, key) && Run(s, steps).caches.Keys == s.caches.Keys
    decreases |steps|
  {
    if steps != [] {
      StepKeeps(s, writer, key, steps[0]);
      StepStays(s, steps[0]);
      RunKeeps(Apply(s, steps[0]), writer, key, steps[1..]);
    }
  }

  /** In every reachable state, the pending and about-to-be-published messages bring each
      instance to nothing or to the hash value; the one exception is the writer between
      its local update and its hash write, which then holds what it is about to write. */
  lemma EveryStateIsConverging(ids: set<Id>, hash: Cache, writer: Id, key: string, steps: seq<Step>, i: Id)
    requires DisciplinedRun(Start(ids, hash), writer, key, steps) && i in ids && Heard(ids, writer, key)
    ensures var s := Run(Start(ids, hash), steps);
      i in s.caches && i in s.inboxes && Outcome(s, writer, i, key) in {None, Target(s, i, key)}
  {
    assert Start(ids, hash).caches.Keys == ids;
    RunKeeps(Start(ids, hash), writer, key, steps);
    assert Converging(Run(Start(ids, hash), steps), writer, i, key);
  }

  ghost predicate Quiescent(s: State) {
    s.inFlight == map[] && forall i <- s.inboxes :: s.inboxes[i] == []
  }

  /** Once no operation is in flight and the queues are drained, `get` on every instance
      returns the hash value, or the default if there is none, and `get_all` lists that
      same value for every supported key and every key of the hash. */
  lemma QuiescentInstancesAgree(ids: set<Id>, hash: Cache, writer: Id, key: string, steps: seq<Step>, i: Id,
      fallback: Value, supported: Cache)
    requires DisciplinedRun(Start(ids, hash), writer, key, steps) && Quiescent(Run(Start(ids, hash), steps))
    requires i in ids && Heard(ids, writer, key)
    requires key in supported ==> supported[key] == fallback
    ensures var s := Run(Start(ids, hash), steps);
      && i in s.caches
      && Lookup(s.caches[i], s.hash, key, fallback) == (if key in s.hash then s.hash[key] else fallback)
      && (key in supported || key in s.hash ==>
            Listed(s.caches[i], s.hash, supported, key) == Lookup(s.caches[i], s.hash, key, fallback))
  {
    EveryStateIsConverging(ids, hash, writer, key, steps, i);
  }

  // ---------- What `get_all` shows while messages are queued ----------

  /** A step that can change what one instance has cached under the key. */
  predicate Touches(step: Step, i: Id, key: string) {
    match step
    case BeginSet(j, k, _) => j == i && k == key
    case BeginDelete(j, k) => j == i && k == key
    case Deliver(j) => j == i
    case FetchStore(j, k) => j == i && k == key
    case _ => false
  }

  predicate WritesHash(step: Step, key: string) {
    step.WriteHash? && step.key == key
  }

  lemma OneStep(s: State, step: Step, i: Id, key: string)
    ensures !WritesHash(step, key) ==> Find(Apply(s, step).hash, key) == Find(s.hash, key)
    ensures i in s.caches && !Touches(step, i, key) && key in s.caches[i] ==>
      i in Apply(s, step).caches && Find(Apply(s, step).caches[i], key) == Find(s.caches[i], key)
  {
  }

  lemma {:induction false} HashStays(s: State, steps: seq<Step>, key: string)
    requires forall step <- steps :: !WritesHash(step, key)
    ensures Find(Run(s, steps).hash, key) == Find(s.hash, key) && Run(s, steps).caches.Keys == s.caches.Keys
    decreases |steps|
  {
    if steps != [] {
      assert steps == [steps[0]] + steps[1..];
      StepStays(s, steps[0]);
      assert steps[0] in steps;
      OneStep(s, steps[0], 0, key);
      HashStays(Apply(s, steps[0]), steps[1..], key);
    }
  }

  /** An operation waits for its own hash write. */
  lemma {:induction false} OpStays(s: State, steps: seq<Step>, i: Id, key: string)
    requires WriteHash(i, key) !in steps
    requires var op := OpOf(s, i, key); op.Some? && (op.value.Setting? || op.value.Deleting?)
    ensures OpOf(Run(s, steps), i, key) == OpOf(s, i, key) && Run(s, steps).caches.Keys == s.caches.Keys
    decreases |steps|
  {
    if steps != [] {
      assert steps == [steps[0]] + steps[1..];
      StepStays(s, steps[0]);
      assert OpOf(Apply(s, steps[0]), i, key) == OpOf(s, i, key);
      OpStays(Apply(s, steps[0]), steps[1..], i, key);
    }
  }

  lemma {:induction false} CachedStays(s: State, steps: seq<Step>, i: Id, key: string)
    requires i in s.caches && key in s.caches[i] && forall step <- steps :: !Touches(step, i, key)
    ensures i in Run(s, steps).caches && Find(Run(s, steps).caches[i], key) == Some(s.caches[i][key])
    decreases |steps|
  {
    if steps != [] {
      assert steps == [steps[0]] + steps[1..];
      assert steps[0] in steps;
      OneStep(s, steps[0], i, key);
      CachedStays(Apply(s, steps[0]), steps[1..], i, key);
    }
  }

  /** A run around one operation: its local update, its hash write and no later one of the
      key, with any steps of any instances before and after the write. */
  function Around(s: State, begin: Step, between: seq<Step>, w: Id, key: string, later: seq<Step>): State {
    Run(Apply(Run(Apply(s, begin), between), WriteHash(w, key)), later)
  }

  lemma AroundWrite(s: State, begin: Step, between: seq<Step>, w: Id, key: string, later: seq<Step>)
    requires w in s.caches && (w, key) !in s.inFlight
    requires begin == BeginDelete(w, key) || (begin.BeginSet? && begin == BeginSet(w, key, begin.value))
    requires WriteHash(w, key) !in between && forall step <- later :: !WritesHash(step, key)
    ensures var t := Around(s, begin, between, w, key, later);
      t.caches.Keys == s.caches.Keys && Find(t.hash, key) == if begin.BeginSet? then Some(begin.value) else None
  {
    var begun := Apply(s, begin);
    OpStays(begun, between, w, key);
    HashStays(Apply(Run(begun, between), WriteHash(w, key)), later, key);
  }

  /** From the writer's hash write on, whatever else runs and whichever messages are still
      queued, `get_all` lists the written value on every instance. */
  lemma GetAllShowsTheSet(s: State, w: Id, key: string, v: Value, between: seq<Step>, later: seq<Step>, i: Id,
        supported: Cache)
    requires w in s.caches && (w, key) !in s.inFlight && i in s.caches
    requires WriteHash(w, key) !in between && forall step <- later :: !WritesHash(step, key)
    ensures var t := Around(s, BeginSet(w, key, v), between, w, key, later);
      i in t.caches && key in t.hash && Listed(t.caches[i], t.hash, supported, key) == v
  {
    AroundWrite(s, BeginSet(w, key, v), between, w, key, later);
  }

  /** After a delete it lists what the instance still has cached, and the default where
      that is nothing. */
  lemma GetAllShowsTheDelete(s: State, w: Id, key: string, between: seq<Step>, later: seq<Step>, i: Id,
        supported: Cache)
    requires w in s.caches && (w, key) !in s.inFlight && i in s.caches && key in supported
    requires WriteHash(w, key) !in between && forall step <- later :: !WritesHash(step, key)
    ensures var t := Around(s, BeginDelete(w, key), between, w, key, later);
      && i in t.caches && key !in t.hash
      && (key in t.caches[i] ==> Listed(t.caches[i], t.hash, supported, key) == t.caches[i][key])
      && (key !in t.caches[i] ==> Listed(t.caches[i], t.hash, supported, key) == supported[key])
  {
    AroundWrite(s, BeginDelete(w, key), between, w, key, later);
  }

  /** Meanwhile `get` on an instance that has an old value cached, and to which nothing was
      delivered, still returns that one. */
  lemma GetIsStillOld(s: State, begin: Step, w: Id, key: string, between: seq<Step>, later: seq<Step>, i: Id,
        fallback: Value)
    requires i != w && i in s.caches && key in s.caches[i]
    requires begin == BeginDelete(w, key) || (begin.BeginSet? && begin == BeginSet(w, key, begin.value))
    requires forall step <- between + later :: !Touches(step, i, key)
    ensures var t := Around(s, begin, between, w, key, later);
      i in t.caches && Lookup(t.caches[i], t.hash, key, fallback) == s.caches[i][key]
  {
    var begun := Apply(s, begin);
    assert forall step <- between :: step in between + later;
    assert forall step <- later :: step in between + later;
    CachedStays(begun, between, i, key);
    CachedStays(Apply(Run(begun, between), WriteHash(w, key)), later, i, key);
  }

  // ---------- The service on mutable state ----------

  /** The shared hash, and one queue for each subscribed instance. */
  class Redis {
    var hash: Cache
    var inboxes: map<Id, seq<Message>>

    constructor (hash: Cache, ids: set<Id>)
      ensures this.hash == hash && inboxes == Start(ids, hash).inboxes
    {
      this.hash := hash;
      inboxes := map i | i in ids :: [];
    }

    method HSet(key: string, value: Value)
      modifies this`hash
      ensures hash == old(hash)[key := value]
    {
      hash := hash[key := value];
    }

    method HDel(key: string)
      modifies this`hash
      ensures hash == old(hash) - {key}
    {
      hash := hash - {key};
    }

    method PublishMessage(m: Message)
      modifies this`inboxes
      ensures inboxes == Broadcast(old(inboxes), m)
      ensures inboxes.Keys == old(inboxes).Keys && forall i <- inboxes :: inboxes[i] == old(inboxes)[i] + [m]
    {
      inboxes := Broadcast(inboxes, m);
    }
  }

  /** The three steps of an undisturbed `set`, as the class below runs them. */
  lemma UndisturbedSet(s: State, i: Id, k: string, v: Value)
    requires i in s.caches && (i, k) !in s.inFlight
    ensures Apply(Apply(Apply(s, BeginSet(i, k, v)), WriteHash(i, k)), Publish(i, k))
         == s.(caches := s.caches[i := s.caches[i][k := v]], hash := s.hash[k := v],
               inboxes := Broadcast(s.inboxes, SetMessage(i, k, v)))
  {
    var begun := AfterBeginSet(s, i, k, v);
    assert AfterPublish(AfterWriteHash(begun, i, k), i, k).inFlight == s.inFlight;
  }

  /** And those of an undisturbed `delete`. */
  lemma UndisturbedDelete(s: State, i: Id, k: string)
    requires i in s.caches && (i, k) !in s.inFlight
    ensures Apply(Apply(Apply(s, BeginDelete(i, k)), WriteHash(i, k)), Publish(i, k))
         == s.(caches := s.caches[i := s.caches[i] - {k}], hash := s.hash - {k},
               inboxes := Broadcast(s.inboxes, DeleteMessage(i, k)))
  {
    var begun := AfterBeginDelete(s, i, k);
    assert AfterPublish(AfterWriteHash(begun, i, k), i, k).inFlight == s.inFlight;
  }

  datatype Row = Row(key: string, value: Value, default: Option<Value>, overridden: bool)

  /** A row of `get_all`: the hash over the cache over the default. */
  predicate Effective(r: Row, cache: Cache, hash: Cache, defaults: Cache) {
    && (r.key in defaults || r.key in hash)
    && r.value == (if r.key in hash then hash[r.key] else if r.key in cache then cache[r.key] else defaults[r.key])
    && r.default == Find(defaults, r.key)
    && r.overridden == (r.key in hash || (r.key in defaults && r.key in cache))
  }

  class DynamicConfigService {
    const id: Id
    const supported: seq<string>   // the supported keys, each with its default
    const defaults: Cache
    var localCache: Cache

    constructor (id: Id, supported: seq<string>, defaults: Cache)
      ensures this.id == id && this.supported == supported && this.defaults == defaults && localCache == map[]
    {
      this.id, this.supported, this.defaults := id, supported, defaults;
      localCache := map[];
    }

    /** `get` with nothing else running inside it; `fallback` is the attribute of the
        static settings, or the caller's default. */
    method GetValue(redis: Redis, key: string, fallback: Value) returns (value: Value)
      modifies this`localCache
      ensures value == Lookup(old(localCache), redis.hash, key, if key in defaults then defaults[key] else fallback)
      ensures localCache == CacheAfterGet(old(localCache), redis.hash, key)
      ensures key in old(localCache) ==> value == old(localCache)[key] && localCache == old(localCache)
      ensures key !in old(localCache) && key in redis.hash ==>
        value == redis.hash[key] && localCache == old(localCache)[key := value]
      ensures key !in old(localCache) && key !in redis.hash ==>
        value == (if key in defaults then defaults[key] else fallback) && localCache == old(localCache)
    {
      if key in localCache {
        return localCache[key];
      }
      if key in redis.hash {
        var parsed := redis.hash[key];
        localCache := localCache[key := parsed];
        return parsed;
      }
      return if key in defaults then defaults[key] else fallback;
    }

    /** `set` with no step of another instance between its three steps. */
    method SetValue(redis: Redis, key: string, value: Value) returns (ok: bool)
      modifies this`localCache, redis
      ensures ok
      ensures localCache == old(localCache)[key := value] && redis.hash == old(redis.hash)[key := value]
      ensures redis.inboxes == Broadcast(old(redis.inboxes), SetMessage(id, key, value))
      ensures forall i <- old(redis.inboxes) ::
        i in redis.inboxes && redis.inboxes[i] == old(redis.inboxes)[i] + [SetMessage(id, key, value)]
    {
      localCache := localCache[key := value];
      redis.HSet(key, value);
      redis.PublishMessage(SetMessage(id, key, value));
      return true;
    }

    /** `delete`, likewise. */
    method DeleteValue(redis: Redis, key: string) returns (ok: bool)
      modifies this`localCache, redis
      ensures ok
      ensures localCache == old(localCache) - {key} && redis.hash == old(redis.hash) - {key}
      ensures redis.inboxes == Broadcast(old(redis.inboxes), DeleteMessage(id, key))
      ensures forall i <- old(redis.inboxes) ::
        i in redis.inboxes && redis.inboxes[i] == old(redis.inboxes)[i] + [DeleteMessage(id, key)]
    {
      localCache := localCache - {key};
      redis.HDel(key);
      redis.PublishMessage(DeleteMessage(id, key));
      return true;
    }

    /** The listener loop over the messages received so far. */
    method Listen(messages: seq<Message>)
      modifies this`localCache
      ensures forall key :: Find(localCache, key) == Eventually(id, Find(old(localCache), key), messages, key)
    {
      for i := 0 to |messages|
        invariant forall key :: Eventually(id, Find(old(localCache), key), messages, key)
                             == Eventually(id, Find(localCache, key), messages[i..], key)
      {
        var m := messages[i];
        ghost var before := localCache;
        assert messages[i..][1..] == messages[i + 1..];
        if m.source != id {
          match m {
            case SetMessage(_, k, v) => if k != "" { localCache := localCache[k := v]; }
            case DeleteMessage(_, k) => if k != "" { localCache := localCache - {k}; }
            case ReloadAll(_) => localCache := map[];
          }
        }
        assert localCache == Handle(id, before, m);
      }
    }

    function SupportedRow(overrides: Cache, key: string): Row
      requires key in defaults
      reads this`localCache
    {
      Row(key, Listed(localCache, overrides, defaults, key), Some(defaults[key]),
          key in overrides || key in localCache)
    }

    /** The loop over the supported keys. */
    method SupportedRows(overrides: Cache) returns (rows: seq<Row>)
      requires forall k :: k in supported <==> k in defaults
      ensures |rows| == |supported| && forall i | 0 <= i < |rows| :: rows[i].key == supported[i]
      ensures forall r <- rows :: Effective(r, localCache, overrides, defaults)
    {
      rows := [];
      for i := 0 to |supported|
        invariant |rows| == i && forall j | 0 <= j < i :: rows[j].key == supported[j]
        invariant forall r <- rows :: Effective(r, localCache, overrides, defaults)
      {
        rows := rows + [SupportedRow(overrides, supported[i])];
      }
    }

    /** The loop over the keys of the hash, for those that are not supported. */
    method CustomRows(overrides: Cache) returns (rows: seq<Row>)
      ensures forall r <- rows :: r.key in overrides.Keys - defaults.Keys
      ensures forall r <- rows :: Effective(r, localCache, overrides, defaults)
      ensures forall k <- overrides | k !in defaults :: exists r <- rows :: r.key == k
      ensures forall i, j | 0 <= i < j < |rows| :: rows[i].key != rows[j].key
    {
      rows := [];
      var rest := overrides.Keys - defaults.Keys;
      while rest != {}
        invariant rest <= overrides.Keys - defaults.Keys
        invariant forall r <- rows :: r.key in overrides.Keys - defaults.Keys - rest
        invariant forall r <- rows :: Effective(r, localCache, overrides, defaults)
        invariant forall k <- overrides | k !in defaults :: k in rest || exists r <- rows :: r.key == k
        invariant forall i, j | 0 <= i < j < |rows| :: rows[i].key != rows[j].key
      {
        var k :| k in rest;
        assert forall i | 0 <= i < |rows| :: rows[i] in rows;
        ghost var before := rows;
        rows := rows + [Row(k, overrides[k], None, true)];
        assert rows[|before|] in rows && forall r <- before :: r in rows;
        rest := rest - {k};
      }
    }

    /** `get_all`: the supported keys in their order, then the other keys of the hash. */
    method GetAll(redis: Redis) returns (rows: seq<Row>)
      requires forall k :: k in supported <==> k in defaults
      requires forall i, j | 0 <= i < j < |supported| :: supported[i] != supported[j]
      ensures forall i, j | 0 <= i < j < |rows| :: rows[i].key != rows[j].key
      ensures forall k :: (exists r <- rows :: r.key == k) <==> k in defaults || k in redis.hash
      ensures |rows| >= |supported| && forall i | 0 <= i < |supported| :: rows[i].key == supported[i]
      ensures forall r <- rows :: Effective(r, localCache, redis.hash, defaults)
    {
      var known := SupportedRows(redis.hash);
      var custom := CustomRows(redis.hash);
      rows := known + custom;
      RowsTogether(known, custom, supported, redis.hash.Keys - defaults.Keys);
    }
  }

  /** The rows of two disjoint groups of keys. */
  lemma RowsTogether(known: seq<Row>, custom: seq<Row>, supported: seq<string>, others: set<string>)
    requires |known| == |supported| && forall i | 0 <= i < |known| :: known[i].key == supported[i]
    requires forall i, j | 0 <= i < j < |supported| :: supported[i] != supported[j]
    requires forall i, j | 0 <= i < j < |custom| :: custom[i].key != custom[j].key
    requires forall r <- custom :: r.key in others
    requires forall k <- others :: k !in supported && exists r <- custom :: r.key == k
    ensures var rows := known + custom;
      && (forall i, j | 0 <= i < j < |rows| :: rows[i].key != rows[j].key)
      && (forall k :: (exists r <- rows :: r.key == k) <==> k in supported || k in others)
  {
    var rows := known + custom;
    assert forall i | 0 <= i < |custom| :: custom[i] in custom;
    forall i, j | 0 <= i < |known| && 0 <= j < |custom| ensures known[i].key != custom[j].key {
      assert supported[i] in supported;
    }
    forall k ensures (exists r <- rows :: r.key == k) <==> k in supported || k in others {
      if k in supported {
        var i :| 0 <= i < |supported| && supported[i] == k;
        assert known[i] in rows;
      }
      if k in others {
        var r :| r in custom && r.key == k;
        assert r in rows;
      }
      if r :| r in rows && r.key == k {
        if r in known {
          var i :| 0 <= i < |known| && known[i] == r;
          assert supported[i] == k;
        }
      }
    }
  }
}
