/**
  `request` and `indicate` running side by side: any number of requests, any number of threads that
  deliver messages. Inside the mutex every statement is a step of its own.
 */
module DataService {
  import opened Handlers
  import opened Options

  type Tid = nat
  type Message = nat

  datatype Pc =
    // request
    | Begin
    | Emplacing            // holds the mutex
    | Emplaced             // holds the mutex
    | Arming | Waiting     // through the handle, without the mutex
    | Waited
    | Removing             // holds the mutex
    | Removed              // holds the mutex, the receiver is destroyed
    | Returned
    // indicate
    | Listening
    | Scanning(k: nat, message: Message)     // holds the mutex, as do the next three
    | Calling(node: Node, message: Message)
    | Disarming(node: Node, message: Message)
    | Leaving(served: bool)

  datatype Holder = Nobody | Held(thread: Tid)

  // One call of `indicate`: the message, the receivers in list order, those whose callback and `disarm` have run, the
  // result.
  datatype Delivery = Delivery(
    message: Message, receivers: seq<Id>, called: seq<Id>, disarmed: seq<Id>, served: Option<bool>)

  // A request registers the receiver that bears its thread's number; `freed` are the receivers destroyed, `accepts`
  // is what the predicates of the receivers say of the messages, `log` the deliveries so far.
  datatype State = State(
    mutex: Holder, list: Service, pc: map<Tid, Pc>, freed: set<Id>, accepts: iset<(Id, Message)>, log: seq<Delivery>)

  predicate Init(s: State) {
    && s.mutex == Nobody && s.list == Service([], map[], map[]) && s.freed == {} && s.log == []
    && forall t <- s.pc :: s.pc[t] in {Begin, Listening}
  }

  predicate Delivers(pc: Pc) {
    pc.Scanning? || pc.Calling? || pc.Disarming? || pc.Leaving?
  }

  predicate Critical(pc: Pc) {
    pc in {Emplacing, Emplaced, Removing, Removed} || Delivers(pc)
  }

  // A request between its registration and its removal.
  predicate Registered(pc: Pc) {
    pc in {Emplaced, Arming, Waiting, Waited, Removing}
  }

  // What a step may depend on: the node that the allocator returns, the message to be delivered.
  datatype Choice = Choice(node: Node, message: Message)

  predicate Enabled(s: State, t: Tid, c: Choice) {
    t in s.pc &&
    match s.pc[t]
    case Begin => s.mutex == Nobody
    case Waited => s.mutex == Nobody
    case Listening => s.mutex == Nobody
    case Emplacing => Handlers.Enabled(s.list, Register(t, c.node))
    case Removing => Handlers.Enabled(s.list, Remove(t))
    case Calling(n, _) => n in s.list.content && s.log != []
    case Disarming(n, _) => n in s.list.content && s.log != []
    case Leaving(_) => s.log != []
    case Returned => false
    case _ => true
  }

  // Requests finish in the reverse order of their registration.
  predicate InOrder(s: State, t: Tid, c: Choice)
    requires Enabled(s, t, c)
  {
    s.pc[t] == Removing ==> s.list.it[t] == s.list.buffer[0]
  }

  function At(s: State, t: Tid, pc: Pc): State {
    s.(pc := s.pc[t := pc])
  }

  // The delivery in progress is the last.
  function Logged(s: State, d: Delivery): State
    requires s.log != []
  {
    s.(log := s.log[|s.log| - 1 := d])
  }

  function Current(s: State): Delivery
    requires s.log != []
  {
    s.log[|s.log| - 1]
  }

  function Step(s: State, t: Tid, c: Choice): State
    requires Linked(s.list) && Enabled(s, t, c)
  {
    match s.pc[t]
    case Begin => At(s, t, Emplacing).(mutex := Held(t))
    case Emplacing => At(s, t, Emplaced).(list := Apply(s.list, Register(t, c.node)))
    case Emplaced => At(s, t, Arming).(mutex := Nobody)
    case Arming => At(s, t, Waiting)
    case Waiting => At(s, t, Waited)
    case Waited => At(s, t, Removing).(mutex := Held(t))
    case Removing => At(s, t, Removed).(list := Apply(s.list, Remove(t)),
        freed := s.freed + {s.list.content[s.list.it[t]]})
    case Removed => At(s, t, Returned).(mutex := Nobody)
    case Returned => s
    case Listening =>
      At(s, t, Scanning(0, c.message)).(mutex := Held(t),
          log := s.log + [Delivery(c.message, Receivers(s.list), [], [], None)])
    case Scanning(k, m) =>
      if k >= |s.list.buffer| then At(s, t, Leaving(false))
      else if (s.list.content[s.list.buffer[k]], m) in s.accepts then At(s, t, Calling(s.list.buffer[k], m))
      else At(s, t, Scanning(k + 1, m))
    case Calling(n, m) =>
      var d := Current(s);
      At(Logged(s, d.(called := d.called + [s.list.content[n]])), t, Disarming(n, m))
    case Disarming(n, m) =>
      var d := Current(s);
      At(Logged(s, d.(disarmed := d.disarmed + [s.list.content[n]])), t, Leaving(true))
    case Leaving(served) =>
      At(Logged(s, Current(s).(served := Some(served))), t, Listening).(mutex := Nobody)
  }

  type Schedule = seq<(Tid, Choice)>

  // Every step of the schedule is possible, and removals are in order.
  ghost predicate Follows(s: State, schedule: Schedule)
    decreases |schedule|
  {
    schedule == [] ||
    var (t, c) := schedule[0];
    Linked(s.list) && Enabled(s, t, c) && InOrder(s, t, c) && Follows(Step(s, t, c), schedule[1..])
  }

  ghost function Run(s: State, schedule: Schedule): State
    requires Follows(s, schedule)
    decreases |schedule|
  {
    if schedule == [] then s
    else var (t, c) := schedule[0]; Run(Step(s, t, c), schedule[1..])
  }

  // --------------------------------------------------------------- invariant

  ghost predicate Exclusive(s: State) {
    && (s.mutex.Held? ==> s.mutex.thread in s.pc)
    && forall t <- s.pc :: Critical(s.pc[t]) <==> s.mutex == Held(t)
  }

  ghost predicate Handles(s: State) {
    forall t: Tid :: t in s.list.it <==> t in s.pc && Registered(s.pc[t])
  }

  ghost predicate InUse(s: State) {
    forall t <- s.pc :: s.pc[t].Calling? || s.pc[t].Disarming? ==> s.pc[t].node in s.list.content
  }

  ghost predicate Freed(s: State) {
    forall t <- s.freed :: t in s.pc && s.pc[t] in {Removed, Returned}
  }

  // A receiver just registered is the newest.
  ghost predicate InFront(s: State) {
    forall t <- s.pc :: s.pc[t] == Emplaced ==>
        t in s.list.it && s.list.buffer != [] && s.list.it[t] == s.list.buffer[0]
  }

  ghost predicate InLog(s: State) {
    forall t <- s.pc :: Delivers(s.pc[t]) ==> s.log != []
  }

  ghost predicate Inv(s: State) {
    AllOwn(s.list) && Exclusive(s) && Handles(s) && InUse(s) && Freed(s) && InFront(s) && InLog(s)
  }

  lemma InitInv(s: State)
    requires Init(s)
    ensures Inv(s)
  {}

  // What a step leaves alone.
  lemma StepFrame(s: State, t: Tid, c: Choice)
    requires Linked(s.list) && Enabled(s, t, c)
    ensures var s' := Step(s, t, c);
      && s'.pc.Keys == s.pc.Keys
      && (forall u <- s.pc :: u != t ==> s'.pc[u] == s.pc[u])
      && (s.pc[t] !in {Emplacing, Removing} ==> s'.list == s.list)
      && (s.pc[t] != Removing ==> s'.freed == s.freed)
      && s'.accepts == s.accepts && |s.log| <= |s'.log|
  {}

  // How a step moves the mutex.
  lemma StepMutex(s: State, t: Tid, c: Choice)
    requires Linked(s.list) && Enabled(s, t, c)
    ensures var s' := Step(s, t, c);
      && (Critical(s.pc[t]) && Critical(s'.pc[t]) ==> s'.mutex == s.mutex)
      && (Critical(s.pc[t]) && !Critical(s'.pc[t]) ==> s'.mutex == Nobody)
      && (!Critical(s.pc[t]) && Critical(s'.pc[t]) ==> s.mutex == Nobody && s'.mutex == Held(t))
      && (!Critical(s.pc[t]) && !Critical(s'.pc[t]) ==> s'.mutex == s.mutex)
  {}

  lemma StepExclusive(s: State, t: Tid, c: Choice)
    requires Inv(s) && Enabled(s, t, c) && InOrder(s, t, c)
    ensures Exclusive(Step(s, t, c))
  {
    StepFrame(s, t, c);
    StepMutex(s, t, c);
    KeepsExclusive(s, Step(s, t, c), t);
  }

  lemma KeepsExclusive(s: State, s': State, t: Tid)
    requires Exclusive(s) && t in s.pc && s'.pc.Keys == s.pc.Keys
    requires forall u <- s.pc :: u != t ==> s'.pc[u] == s.pc[u]
    requires Critical(s.pc[t]) && Critical(s'.pc[t]) ==> s'.mutex == s.mutex
    requires Critical(s.pc[t]) && !Critical(s'.pc[t]) ==> s'.mutex == Nobody
    requires !Critical(s.pc[t]) && Critical(s'.pc[t]) ==> s.mutex == Nobody && s'.mutex == Held(t)
    requires !Critical(s.pc[t]) && !Critical(s'.pc[t]) ==> s'.mutex == s.mutex
    ensures Exclusive(s')
  {}

  lemma StepOwn(s: State, t: Tid, c: Choice)
    requires Inv(s) && Enabled(s, t, c) && InOrder(s, t, c)
    ensures AllOwn(Step(s, t, c).list)
  {
    if s.pc[t] == Emplacing { KeepsIff(s.list, Register(t, c.node)); }
    if s.pc[t] == Removing { KeepsIff(s.list, Remove(t)); }
  }

  // How a step moves the registrations.
  lemma StepRegistered(s: State, t: Tid, c: Choice)
    requires Linked(s.list) && Enabled(s, t, c)
    ensures var s' := Step(s, t, c);
      && (s.pc[t] == Emplacing ==> s'.list.it.Keys == s.list.it.Keys + {t} && Registered(s'.pc[t]))
      && (s.pc[t] == Removing ==> s'.list.it.Keys == s.list.it.Keys - {t} && !Registered(s'.pc[t]))
      && (s.pc[t] !in {Emplacing, Removing} ==> Registered(s'.pc[t]) == Registered(s.pc[t]))
  {}

  lemma StepHandles(s: State, t: Tid, c: Choice)
    requires Inv(s) && Enabled(s, t, c) && InOrder(s, t, c)
    ensures Handles(Step(s, t, c))
  {
    StepFrame(s, t, c);
    StepRegistered(s, t, c);
    KeepsHandles(s, Step(s, t, c), t);
  }

  lemma KeepsHandles(s: State, s': State, t: Tid)
    requires Handles(s) && t in s.pc && s'.pc.Keys == s.pc.Keys
    requires forall u <- s.pc :: u != t ==> s'.pc[u] == s.pc[u]
    requires
      || (s'.list.it.Keys == s.list.it.Keys + {t} && Registered(s'.pc[t]))
      || (s'.list.it.Keys == s.list.it.Keys - {t} && !Registered(s'.pc[t]))
      || (s'.list.it == s.list.it && Registered(s'.pc[t]) == Registered(s.pc[t]))
    ensures Handles(s')
  {
    forall u: Tid ensures u in s'.list.it <==> u in s'.pc && Registered(s'.pc[u]) {
      assert u in s'.list.it <==> u in s'.list.it.Keys;
      assert u in s.list.it <==> u in s.list.it.Keys;
      assert u in s'.pc <==> u in s.pc by { assert u in s'.pc.Keys <==> u in s.pc.Keys; }
    }
  }

  // The node a delivering thread works on.
  lemma StepNode(s: State, t: Tid, c: Choice)
    requires Inv(s) && Enabled(s, t, c)
    ensures var pc' := Step(s, t, c).pc[t];
      pc'.Calling? || pc'.Disarming? ==> s.pc[t] !in {Emplacing, Removing} && pc'.node in s.list.content
  {}

  lemma StepInUse(s: State, t: Tid, c: Choice)
    requires Inv(s) && Enabled(s, t, c) && InOrder(s, t, c)
    ensures InUse(Step(s, t, c))
  {
    StepFrame(s, t, c);
    StepNode(s, t, c);
    KeepsInUse(s, Step(s, t, c), t);
  }

  lemma KeepsInUse(s: State, s': State, t: Tid)
    requires Exclusive(s) && InUse(s) && t in s.pc && s'.pc.Keys == s.pc.Keys
    requires forall u <- s.pc :: u != t ==> s'.pc[u] == s.pc[u]
    requires s.pc[t] !in {Emplacing, Removing} ==> s'.list == s.list
    requires s'.pc[t].Calling? || s'.pc[t].Disarming? ==>
        s.pc[t] !in {Emplacing, Removing} && s'.pc[t].node in s.list.content
    ensures InUse(s')
  {
    forall u <- s'.pc | s'.pc[u].Calling? || s'.pc[u].Disarming? ensures s'.pc[u].node in s'.list.content {
      assert u in s.pc by { assert u in s'.pc.Keys; }
      if u != t {
        assert s.mutex == Held(u);
        assert !Critical(s.pc[t]);
      }
    }
  }

  lemma StepFreed(s: State, t: Tid, c: Choice)
    requires Inv(s) && Enabled(s, t, c) && InOrder(s, t, c)
    ensures Freed(Step(s, t, c))
  {
    StepFrame(s, t, c);
    StepKills(s, t, c);
    KeepsFreed(s, Step(s, t, c), t);
  }

  lemma StepKills(s: State, t: Tid, c: Choice)
    requires Inv(s) && Enabled(s, t, c)
    ensures var s' := Step(s, t, c);
      && (s.pc[t] == Removing ==> s'.freed == s.freed + {t})
      && (s.pc[t] in {Removing, Removed, Returned} ==> s'.pc[t] in {Removed, Returned})
  {}

  lemma KeepsFreed(s: State, s': State, t: Tid)
    requires Freed(s) && t in s.pc && s'.pc.Keys == s.pc.Keys
    requires forall u <- s.pc :: u != t ==> s'.pc[u] == s.pc[u]
    requires s'.freed == s.freed || (s'.freed == s.freed + {t} && s.pc[t] == Removing)
    requires s.pc[t] in {Removing, Removed, Returned} ==> s'.pc[t] in {Removed, Returned}
    ensures Freed(s')
  {
    forall u <- s'.freed ensures u in s'.pc && s'.pc[u] in {Removed, Returned} {
      assert u == t || u in s.freed;
      assert u in s'.pc.Keys;
    }
  }

  lemma StepEmplaces(s: State, t: Tid, c: Choice)
    requires Linked(s.list) && Enabled(s, t, c)
    ensures var z := Step(s, t, c);
      && (z.pc[t] == Emplaced <==> s.pc[t] == Emplacing)
      && (s.pc[t] == Emplacing ==> t in z.list.it && z.list.buffer != [] && z.list.it[t] == z.list.buffer[0])
  {}

  lemma StepInFront(s: State, t: Tid, c: Choice)
    requires Inv(s) && Enabled(s, t, c)
    ensures InFront(Step(s, t, c))
  {
    var z := Step(s, t, c);
    StepFrame(s, t, c);
    StepEmplaces(s, t, c);
    forall u <- z.pc | z.pc[u] == Emplaced
      ensures u in z.list.it && z.list.buffer != [] && z.list.it[u] == z.list.buffer[0]
    {
      assert u in s.pc by { assert u in z.pc.Keys; }
      if u != t {
        assert s.mutex == Held(u);
        assert !Critical(s.pc[t]);
      }
    }
  }

  lemma StepInLog(s: State, t: Tid, c: Choice)
    requires Inv(s) && Enabled(s, t, c)
    ensures InLog(Step(s, t, c))
  {
    var z := Step(s, t, c);
    StepFrame(s, t, c);
    assert Delivers(z.pc[t]) ==> z.log != [];
    forall u <- z.pc | Delivers(z.pc[u]) ensures z.log != [] {
      assert u in s.pc by { assert u in z.pc.Keys; }
    }
  }

  lemma StepInv(s: State, t: Tid, c: Choice)
    requires Inv(s) && Enabled(s, t, c) && InOrder(s, t, c)
    ensures Inv(Step(s, t, c))
  {
    StepExclusive(s, t, c);
    StepOwn(s, t, c);
    StepHandles(s, t, c);
    StepInUse(s, t, c);
    StepFreed(s, t, c);
    StepInFront(s, t, c);
    StepInLog(s, t, c);
  }

  lemma {:induction false} RunInv(s: State, schedule: Schedule)
    requires Inv(s) && Follows(s, schedule)
    ensures Inv(Run(s, schedule))
    decreases |schedule|
  {
    if schedule != [] {
      var (t, c) := schedule[0];
      StepInv(s, t, c);
      RunInv(Step(s, t, c), schedule[1..]);
    }
  }

  // ------------------------------------------------------------------ main results

  // The request whose receiver a delivering thread is working on.
  ghost predicate Serves(s: State, t: Tid, id: Id) {
    && t in s.pc && (s.pc[t].Calling? || s.pc[t].Disarming?)
    && s.pc[t].node in s.list.content && s.list.content[s.pc[t].node] == id
  }

  // No callback or disarm works on the receiver of `id`.
  ghost predicate Untouched(s: State, id: Id) {
    forall t: Tid :: !Serves(s, t, id)
  }

  /**
    At every moment of every run, a callback or a `disarm` in progress belongs to a request that has not
    returned, and whose SyncInfo is not freed.
   */
  lemma ServedIsAlive(s0: State, schedule: Schedule, t: Tid)
    requires Init(s0) && Follows(s0, schedule)
    ensures var s := Run(s0, schedule);
      t in s.pc && (s.pc[t].Calling? || s.pc[t].Disarming?) ==>
        exists id: Id ::
          Serves(s, t, id) && id in s.pc && Registered(s.pc[id]) && s.pc[id] != Removing && id !in s.freed
  {
    InitInv(s0);
    RunInv(s0, schedule);
    var s := Run(s0, schedule);
    if t in s.pc && (s.pc[t].Calling? || s.pc[t].Disarming?) {
      ServedAlive(s, t);
    }
  }

  lemma ServedAlive(s: State, t: Tid)
    requires Inv(s) && t in s.pc && (s.pc[t].Calling? || s.pc[t].Disarming?)
    ensures exists id: Id ::
      Serves(s, t, id) && id in s.pc && Registered(s.pc[id]) && s.pc[id] != Removing && id !in s.freed
  {
    var id := s.list.content[s.pc[t].node];
    assert id in s.list.it;
    assert s.mutex == Held(t);
    assert Serves(s, t, id);
  }

  lemma ReturnedUntouched(s: State, id: Id)
    requires Inv(s) && id in s.pc && s.pc[id] == Returned
    ensures Untouched(s, id)
  {}

  lemma ReturnedStays(s: State, t: Tid, c: Choice, id: Id)
    requires Linked(s.list) && Enabled(s, t, c) && id in s.pc && s.pc[id] == Returned
    ensures id in Step(s, t, c).pc && Step(s, t, c).pc[id] == Returned
  {}

  /** Once a request has returned, no callback and no `disarm` of it is ever in progress again. */
  lemma {:induction false} NeverAgain(s: State, schedule: Schedule, id: Id)
    requires Inv(s) && Follows(s, schedule) && id in s.pc && s.pc[id] == Returned
    ensures Untouched(Run(s, schedule), id)
    decreases |schedule|
  {
    if schedule == [] {
      ReturnedUntouched(s, id);
    } else {
      var (t, c) := schedule[0];
      StepInv(s, t, c);
      ReturnedStays(s, t, c, id);
      NeverAgain(Step(s, t, c), schedule[1..], id);
    }
  }

  // ------------------------------------------------------- which receiver is served

  // The first receiver of a list that accepts a message, or the length of the list.
  function FirstOf(accepts: iset<(Id, Message)>, r: seq<Id>, m: Message): (k: nat)
    ensures k <= |r|
    ensures forall j :: 0 <= j < k ==> (r[j], m) !in accepts
    ensures k < |r| ==> (r[k], m) in accepts
  {
    if r == [] || (r[0], m) in accepts then 0 else 1 + FirstOf(accepts, r[1..], m)
  }

  // The callback and the `disarm` of the first receiver that accepts the message have run, each once, and of no other.
  ghost predicate ServesFirst(accepts: iset<(Id, Message)>, d: Delivery) {
    var k := FirstOf(accepts, d.receivers, d.message);
    d.called == d.disarmed == if k < |d.receivers| then [d.receivers[k]] else []
  }

  // It has ended, and told whether there was one.
  ghost predicate Ended(accepts: iset<(Id, Message)>, d: Delivery) {
    ServesFirst(accepts, d) && d.served == Some(FirstOf(accepts, d.receivers, d.message) < |d.receivers|)
  }

  // How far the thread that holds the mutex has come with the last delivery.
  ghost predicate Delivering(s: State, pc: Pc)
    requires Linked(s.list) && s.log != []
  {
    var d := Current(s);
    var k := FirstOf(s.accepts, d.receivers, d.message);
    && d.receivers == Receivers(s.list) && d.served == None
    && d.disarmed <= d.called
    && match pc
       case Scanning(i, m) => m == d.message && i <= k && d.called == d.disarmed == []
       case Calling(n, m) => m == d.message && k < |d.receivers| && n == s.list.buffer[k]
           && d.called == d.disarmed == []
       case Disarming(n, m) =>
         && m == d.message && k < |d.receivers| && n == s.list.buffer[k]
         && d.called == [d.receivers[k]] && d.disarmed == []
       case Leaving(served) => ServesFirst(s.accepts, d) && (served <==> k < |d.receivers|)
       case _ => true
  }

  // All deliveries but the one in progress have ended.
  ghost predicate EndedBefore(s: State, n: nat) {
    n <= |s.log| && forall i :: 0 <= i < n ==> Ended(s.accepts, s.log[i])
  }

  ghost predicate LogOk(s: State)
    requires Linked(s.list)
  {
    match s.mutex
    case Held(t) =>
      if t in s.pc && Delivers(s.pc[t]) then s.log != [] && EndedBefore(s, |s.log| - 1) && Delivering(s, s.pc[t])
      else EndedBefore(s, |s.log|)
    case Nobody => EndedBefore(s, |s.log|)
  }

  lemma KeptEnded(s: State, z: State, n: nat)
    requires n <= |s.log| <= |z.log| && z.accepts == s.accepts && forall i :: 0 <= i < n ==> z.log[i] == s.log[i]
    ensures EndedBefore(s, n) ==> EndedBefore(z, n)
  {}

  // Only the last delivery has changed.
  ghost predicate Shorter(s: State, z: State) {
    && z.list == s.list && z.accepts == s.accepts && |z.log| == |s.log| > 0
    && forall i :: 0 <= i < |s.log| - 1 ==> z.log[i] == s.log[i]
  }

  lemma ScanStep(s: State, t: Tid, c: Choice)
    requires Linked(s.list) && t in s.pc && s.pc[t].Scanning? && s.log != [] && Delivering(s, s.pc[t])
    ensures var z := Step(s, t, c); Shorter(s, z) && Delivers(z.pc[t]) && Delivering(z, z.pc[t])
  {
    var k := s.pc[t].k;
    if k < |s.list.buffer| {
      assert Receivers(s.list)[k] == s.list.content[s.list.buffer[k]];
    }
  }

  lemma ServeStep(s: State, t: Tid, c: Choice)
    requires Linked(s.list) && Enabled(s, t, c) && (s.pc[t].Calling? || s.pc[t].Disarming?)
    requires s.log != [] && Delivering(s, s.pc[t])
    ensures var z := Step(s, t, c); Shorter(s, z) && Delivers(z.pc[t]) && Delivering(z, z.pc[t])
  {
    hide FirstOf;
    var k := FirstOf(s.accepts, Current(s).receivers, Current(s).message);
    assert Receivers(s.list)[k] == s.list.content[s.list.buffer[k]];
  }

  lemma LeaveStep(s: State, t: Tid, c: Choice)
    requires Linked(s.list) && Enabled(s, t, c) && s.pc[t].Leaving? && s.log != [] && Delivering(s, s.pc[t])
    ensures var z := Step(s, t, c); Shorter(s, z) && z.mutex == Nobody && Ended(s.accepts, Current(z))
  {
    hide FirstOf;
  }

  // What a step of the delivering thread gives, by how far it has come.
  lemma DeliveryMoves(s: State, t: Tid, c: Choice)
    requires Linked(s.list) && Enabled(s, t, c) && Delivers(s.pc[t]) && s.log != [] && Delivering(s, s.pc[t])
    ensures var z := Step(s, t, c);
      && Shorter(s, z)
      && if s.pc[t].Leaving? then z.mutex == Nobody && Ended(s.accepts, Current(z))
         else Delivers(z.pc[t]) && Delivering(z, z.pc[t])
  {
    if s.pc[t].Scanning? { ScanStep(s, t, c); }
    else if s.pc[t].Leaving? { LeaveStep(s, t, c); }
    else { ServeStep(s, t, c); }
  }

  lemma DeliveryStep(s: State, t: Tid, c: Choice)
    requires Inv(s) && LogOk(s) && Enabled(s, t, c) && Delivers(s.pc[t])
    ensures LogOk(Step(s, t, c))
  {
    assert s.mutex == Held(t);
    var z := Step(s, t, c);
    DeliveryMoves(s, t, c);
    StepFrame(s, t, c);
    StepMutex(s, t, c);
    hide FirstOf, Ended, Delivering, Step, Exclusive, Handles, InUse, Freed, InFront, Linked, Enabled;
    KeptEnded(s, z, |s.log| - 1);
    assert t in z.pc by { assert t in z.pc.Keys; }
  }

  lemma ListenStep(s: State, t: Tid, c: Choice)
    requires Linked(s.list) && Enabled(s, t, c) && s.pc[t] == Listening
    ensures var z := Step(s, t, c);
      && z.list == s.list && z.mutex == Held(t) && z.log != [] && z.log[..|z.log| - 1] == s.log
      && Delivers(z.pc[t]) && Delivering(z, z.pc[t])
  {
    hide FirstOf;
  }

  lemma OtherStep(s: State, t: Tid, c: Choice)
    requires Inv(s) && LogOk(s) && Enabled(s, t, c) && InOrder(s, t, c) && !Delivers(s.pc[t])
    ensures Linked(Step(s, t, c).list) && LogOk(Step(s, t, c))
  {
    StepOwn(s, t, c);
    if s.pc[t] == Listening { ListenLog(s, t, c); } else { QuietLog(s, t, c); }
  }

  lemma ListenLog(s: State, t: Tid, c: Choice)
    requires Inv(s) && LogOk(s) && Enabled(s, t, c) && s.pc[t] == Listening
    ensures LogOk(Step(s, t, c))
  {
    var z := Step(s, t, c);
    ListenStep(s, t, c);
    StepFrame(s, t, c);
    hide FirstOf, Ended, Delivering, Step, Exclusive, Handles, InUse, Freed, InFront;
    assert forall i :: 0 <= i < |s.log| ==> z.log[i] == z.log[..|z.log| - 1][i];
    KeptEnded(s, z, |s.log|);
    assert t in z.pc by { assert t in z.pc.Keys; }
  }

  lemma QuietLog(s: State, t: Tid, c: Choice)
    requires Inv(s) && LogOk(s) && Enabled(s, t, c) && !Delivers(s.pc[t]) && s.pc[t] != Listening
    requires Linked(Step(s, t, c).list)
    ensures LogOk(Step(s, t, c))
  {
    var z := Step(s, t, c);
    QuietStep(s, t, c);
    StepFrame(s, t, c);
    StepMutex(s, t, c);
    assert t in z.pc by { assert t in z.pc.Keys; }
    hide Step, Enabled, LogOk;
    if s.mutex.Held? && s.mutex.thread != t {
      HeldElsewhere(s, t, s.mutex.thread);
      assert s.mutex.thread in z.pc by { assert s.mutex.thread in z.pc.Keys; }
    }
    LogKeeps(s, z, t);
  }

  // While another thread holds the mutex.
  lemma HeldElsewhere(s: State, t: Tid, u: Tid)
    requires Exclusive(s) && s.mutex == Held(u) && t in s.pc && t != u
    ensures u in s.pc && !Critical(s.pc[t])
  {}

  lemma LogKeeps(s: State, z: State, t: Tid)
    requires Linked(s.list) && Linked(z.list) && LogOk(s) && z.log == s.log && z.accepts == s.accepts
    requires t in s.pc && t in z.pc && !Delivers(s.pc[t]) && !Delivers(z.pc[t])
    requires
      if s.mutex.Held? && s.mutex.thread != t then
        var u := s.mutex.thread;
        z.mutex == s.mutex && z.list == s.list && u in s.pc && u in z.pc && z.pc[u] == s.pc[u]
      else z.mutex == Nobody || z.mutex == Held(t)
    ensures LogOk(z)
  {
    hide Ended, FirstOf, Linked;
    KeptEnded(s, z, |s.log|);
    if s.log != [] { KeptEnded(s, z, |s.log| - 1); }
  }

  lemma QuietStep(s: State, t: Tid, c: Choice)
    requires Linked(s.list) && Enabled(s, t, c) && !Delivers(s.pc[t]) && s.pc[t] != Listening
    ensures var z := Step(s, t, c);
      && z.log == s.log && !Delivers(z.pc[t])
      && (s.pc[t] !in {Emplacing, Removing} ==> z.list == s.list) && (Delivers(z.pc[t]) ==> Delivers(s.pc[t]))
  {}

  lemma {:induction false} RunLog(s: State, schedule: Schedule)
    requires Inv(s) && LogOk(s) && Follows(s, schedule)
    ensures Inv(Run(s, schedule)) && LogOk(Run(s, schedule))
    decreases |schedule|
  {
    if schedule != [] {
      var (t, c) := schedule[0];
      StepInv(s, t, c);
      if Delivers(s.pc[t]) { DeliveryStep(s, t, c); } else { OtherStep(s, t, c); }
      RunLog(Step(s, t, c), schedule[1..]);
    }
  }

  // The delivery in progress is of that message, and `id` the first receiver of the list that accepts it.
  ghost predicate IsServing(s: State, m: Message, id: Id)
    requires Linked(s.list) && s.log != []
  {
    var d := Current(s);
    var k := FirstOf(s.accepts, d.receivers, m);
    d.message == m && d.served == None && d.receivers == Receivers(s.list) && k < |d.receivers| && id == d.receivers[k]
  }

  lemma ServedIsFirst(s: State, t: Tid, id: Id)
    requires Inv(s) && LogOk(s) && Serves(s, t, id)
    ensures s.log != [] && IsServing(s, s.pc[t].message, id)
  {
    hide FirstOf;
    assert s.mutex == Held(t);
    var d := Current(s);
    var k := FirstOf(s.accepts, d.receivers, d.message);
    assert Receivers(s.list)[k] == s.list.content[s.list.buffer[k]];
  }

  /**
    Which receiver a message goes to: in every run a delivery that has ended ran the callback and then the `disarm` of
    the first receiver of the list that accepts the message, each once, and of no other, and told whether there was one.
    One that has not ended is the last, and works on none but that receiver.
   */
  lemma FirstIsServed(s0: State, schedule: Schedule)
    requires Init(s0) && Follows(s0, schedule)
    ensures var s := Run(s0, schedule);
      && Linked(s.list)
      && (forall d <- s.log :: d.disarmed <= d.called && (d.served.Some? ==> Ended(s.accepts, d)))
      && (forall i :: 0 <= i < |s.log| && s.log[i].served == None ==>
            i == |s.log| - 1 && s.mutex.Held? && s.mutex.thread in s.pc && Delivers(s.pc[s.mutex.thread]))
      && (forall t: Tid, id: Id :: Serves(s, t, id) ==>
            s.log != [] && IsServing(s, s.pc[t].message, id))
  {
    InitInv(s0);
    RunLog(s0, schedule);
    hide FirstOf;
    var s := Run(s0, schedule);
    forall t: Tid, id: Id | Serves(s, t, id) ensures s.log != [] && IsServing(s, s.pc[t].message, id) {
      ServedIsFirst(s, t, id);
    }
    forall d <- s.log ensures d.disarmed <= d.called && (d.served.Some? ==> Ended(s.accepts, d)) {
      var i :| 0 <= i < |s.log| && s.log[i] == d;
    }
  }

  /** While a request is waiting, its handle leads to a node of the list that holds its own receiver, not freed. */
  lemma HandleIsGood(s0: State, schedule: Schedule, t: Tid)
    requires Init(s0) && Follows(s0, schedule)
    ensures var s := Run(s0, schedule);
      t in s.pc && s.pc[t] in {Arming, Waiting, Waited, Removing} ==>
        t in s.list.it && s.list.it[t] in s.list.buffer && s.list.it[t] in s.list.content
        && s.list.content[s.list.it[t]] == t && t !in s.freed
  {
    InitInv(s0);
    RunInv(s0, schedule);
  }

  // ------------------------------------------------------- removals out of turn

  /**
    A step from a good state leads to a good state exactly if it is no removal, or one of the newest live
    registration.
   */
  lemma StepInvIff(s: State, t: Tid, c: Choice)
    requires Inv(s) && Enabled(s, t, c)
    ensures Inv(Step(s, t, c)) <==> InOrder(s, t, c)
  {
    if InOrder(s, t, c) {
      StepInv(s, t, c);
    } else {
      KeepsIff(s.list, Remove(t));
    }
  }

  // A request holds the mutex to remove its receiver, although a younger one is registered.
  ghost predicate OutOfTurn(s: State) {
    && s.mutex.Held? && s.mutex.thread in s.pc && s.pc[s.mutex.thread] == Removing
    && s.mutex.thread in s.list.it && s.list.buffer != [] && s.list.it[s.mutex.thread] != s.list.buffer[0]
  }

  // The allocator always has a node to give.
  lemma FreshNode(buffer: seq<Node>) returns (n: Node)
    ensures n !in buffer
  {
    n := 0;
    var i := 0;
    while i < |buffer|
      invariant 0 <= i <= |buffer|
      invariant forall j :: 0 <= j < i ==> buffer[j] < n
    {
      if buffer[i] >= n { n := buffer[i] + 1; }
      i := i + 1;
    }
  }

  lemma HolderMoves(s: State, t: Tid) returns (c: Choice)
    requires Inv(s) && s.mutex == Held(t)
    ensures t in s.pc && Enabled(s, t, c)
    ensures InOrder(s, t, c) <==> !OutOfTurn(s)
  {
    var n := FreshNode(s.list.buffer);
    c := Choice(n, 0);
    assert Critical(s.pc[t]);
    if s.pc[t] == Removing { assert s.list.it[t] in s.list.buffer; }
  }

  /** The thread that holds the mutex can take a step in order exactly if it is not about to remove out of turn. */
  lemma HolderMovesIff(s: State, t: Tid)
    requires Inv(s) && s.mutex == Held(t)
    ensures (exists c :: Enabled(s, t, c) && InOrder(s, t, c)) <==> !OutOfTurn(s)
  {
    var c := HolderMoves(s, t);
    forall d | Enabled(s, t, d) ensures InOrder(s, t, d) <==> InOrder(s, t, c) {}
  }

  /**
    No deadlock: unless a removal out of turn is about to happen, while a request has not returned some thread can
    take a step in order.
   */
  lemma NoDeadlock(s: State, t: Tid) returns (u: Tid, c: Choice)
    requires Inv(s) && t in s.pc && s.pc[t] != Returned && !OutOfTurn(s)
    ensures Enabled(s, u, c) && InOrder(s, u, c)
  {
    if s.mutex.Held? {
      u := s.mutex.thread;
      c := HolderMoves(s, u);
    } else {
      u := t;
      c := Choice(0, 0);
    }
  }

  /** A removal out of turn blocks everything: in order, the mutex is never released and no request returns. */
  lemma {:induction false} OutOfTurnStays(s: State, schedule: Schedule, id: Tid)
    requires Inv(s) && OutOfTurn(s) && Follows(s, schedule) && id in s.pc
    ensures var z := Run(s, schedule);
      OutOfTurn(z) && z.mutex == s.mutex && id in z.pc && (z.pc[id] == Returned ==> s.pc[id] == Returned)
    decreases |schedule|
  {
    if schedule != [] {
      var (t, c) := schedule[0];
      StepInv(s, t, c);
      OutOfTurnStep(s, t, c, id);
      OutOfTurnStays(Step(s, t, c), schedule[1..], id);
    }
  }

  lemma OutOfTurnStep(s: State, t: Tid, c: Choice, id: Tid)
    requires Inv(s) && OutOfTurn(s) && Enabled(s, t, c) && InOrder(s, t, c) && id in s.pc
    ensures var z := Step(s, t, c);
      OutOfTurn(z) && z.mutex == s.mutex && id in z.pc && (z.pc[id] == Returned ==> s.pc[id] == Returned)
  {
    assert t != s.mutex.thread;
    assert !Critical(s.pc[t]);
    StepFrame(s, t, c);
    StepMutex(s, t, c);
    assert id in Step(s, t, c).pc.Keys;
  }

  // ------------------------------------------------------------------------ draining

  // Threads in the middle of something.
  ghost function Busy(s: State): set<Tid> {
    set t <- s.pc | !AtEase(s.pc[t])
  }

  // Steps left, when the scan goes through the whole list.
  function Remaining(s: State, t: Tid): nat
    requires t in s.pc
  {
    match s.pc[t]
    case Emplacing => 9 case Emplaced => 8 case Arming => 7 case Waiting => 6 case Waited => 5
    case Removing => 4 case Removed => 3
    case Scanning(k, _) => 4 + (if k < |s.list.buffer| then |s.list.buffer| - k else 0)
    case Calling(_, _) => 3 case Disarming(_, _) => 2 case Leaving(_) => 1
    case Begin => 0 case Returned => 0 case Listening => 0
  }

  // Whose turn it is: the holder of the mutex, or else the newest registered request.
  ghost predicate HasTurn(s: State, t: Tid) {
    && t in Busy(s)
    && match s.mutex
       case Held(u) => t == u
       case Nobody => t in s.list.it && s.list.buffer != [] && s.list.it[t] == s.list.buffer[0]
  }

  lemma BusyTurn(s: State) returns (t: Tid)
    requires Inv(s) && Busy(s) != {}
    ensures HasTurn(s, t)
  {
    if s.mutex.Held? {
      t := s.mutex.thread;
    } else {
      var u :| u in Busy(s);
      assert u in s.list.it && s.list.it[u] in s.list.buffer;
      t := s.list.content[s.list.buffer[0]];
      assert s.list.buffer[0] in s.list.buffer;
    }
  }

  // A step of the thread whose turn it is, and whose turn is next.
  lemma TurnStep(s: State, t: Tid) returns (c: Choice)
    requires Inv(s) && !OutOfTurn(s) && HasTurn(s, t)
    ensures Enabled(s, t, c) && InOrder(s, t, c) && !OutOfTurn(Step(s, t, c))
    ensures Busy(Step(s, t, c)) == Busy(s) - {t} ||
            (Busy(Step(s, t, c)) == Busy(s) && HasTurn(Step(s, t, c), t)
                && Remaining(Step(s, t, c), t) < Remaining(s, t))
  {
    if s.mutex.Held? {
      c := HolderMoves(s, t);
    } else {
      c := Choice(0, 0);
    }
    StepFrame(s, t, c);
    TurnBusy(s, t, c);
  }

  predicate AtEase(pc: Pc) {
    pc in {Begin, Returned, Listening}
  }

  lemma BusyFrame(s: State, z: State, t: Tid)
    requires t in s.pc && z.pc.Keys == s.pc.Keys && forall u <- s.pc :: u != t ==> z.pc[u] == s.pc[u]
    ensures Busy(z) == if AtEase(z.pc[t]) then Busy(s) - {t} else Busy(s) + {t}
  {
    forall u: Tid ensures u in Busy(z) <==> u in (if AtEase(z.pc[t]) then Busy(s) - {t} else Busy(s) + {t}) {
      assert u in z.pc <==> u in s.pc by { assert u in z.pc.Keys <==> u in s.pc.Keys; }
    }
  }

  lemma TurnRank(s: State, t: Tid, c: Choice)
    requires Linked(s.list) && Enabled(s, t, c) && !AtEase(s.pc[t])
    ensures AtEase(Step(s, t, c).pc[t]) || Remaining(Step(s, t, c), t) < Remaining(s, t)
  {}

  // Where a thread that is busy, but not inside the mutex, came from.
  lemma TurnOutside(s: State, t: Tid, c: Choice)
    requires Linked(s.list) && Enabled(s, t, c) && !AtEase(s.pc[t])
    ensures var z := Step(s, t, c);
      !AtEase(z.pc[t]) && !Critical(z.pc[t]) ==> s.pc[t] in {Emplaced, Arming, Waiting} && z.list == s.list
    ensures Step(s, t, c).pc[t] == Removing ==> s.pc[t] == Waited
  {}

  lemma TurnBusy(s: State, t: Tid, c: Choice)
    requires Inv(s) && HasTurn(s, t) && Enabled(s, t, c) && InOrder(s, t, c)
    ensures !OutOfTurn(Step(s, t, c))
    ensures var z := Step(s, t, c);
      if AtEase(z.pc[t]) then Busy(z) == Busy(s) - {t}
      else Busy(z) == Busy(s) && HasTurn(z, t) && Remaining(z, t) < Remaining(s, t)
  {
    var z := Step(s, t, c);
    StepFrame(s, t, c);
    StepMutex(s, t, c);
    BusyFrame(s, z, t);
    TurnRank(s, t, c);
    TurnOutside(s, t, c);
    StepExclusive(s, t, c);
    hide Step, Remaining, Busy;
    TurnKept(s, z, t);
  }

  lemma TurnKept(s: State, z: State, t: Tid)
    requires Inv(s) && Exclusive(z) && HasTurn(s, t) && t in z.pc
    requires !AtEase(z.pc[t]) && !Critical(z.pc[t]) ==> s.pc[t] in {Emplaced, Arming, Waiting} && z.list == s.list
    requires z.pc[t] == Removing ==> s.pc[t] == Waited && z.list == s.list
    requires z.mutex == Held(t) || z.mutex == Nobody
    ensures !AtEase(z.pc[t]) ==> HasTurn(z, t)
    ensures !OutOfTurn(z)
  {}

  // z is at rest: nobody is in the middle of anything, the mutex is free, no receiver is left; nobody has begun since
  // s.
  ghost predicate Drained(s: State, z: State) {
    && Busy(z) == {} && z.mutex == Nobody && z.list.buffer == []
    && forall u <- s.pc :: u in z.pc && (s.pc[u].Begin? <==> z.pc[u].Begin?)
  }

  lemma DrainedBefore(s: State, next: State, z: State, t: Tid)
    requires t in Busy(s) && next.pc.Keys == s.pc.Keys && !next.pc[t].Begin?
    requires forall u <- s.pc :: u != t ==> next.pc[u] == s.pc[u]
    requires Drained(next, z)
    ensures Drained(s, z)
  {
    forall u <- s.pc ensures u in z.pc && (s.pc[u].Begin? <==> z.pc[u].Begin?) {
      assert u in next.pc.Keys;
    }
  }

  // The next turn: that of the same thread, or of another if it is done.
  lemma NextTurn(s: State, t: Tid) returns (c: Choice, u: Tid)
    requires Inv(s) && !OutOfTurn(s) && HasTurn(s, t)
    ensures Enabled(s, t, c) && InOrder(s, t, c)
    ensures var next := Step(s, t, c);
      && Inv(next) && !OutOfTurn(next) && (Busy(next) != {} ==> HasTurn(next, u))
      && next.pc.Keys == s.pc.Keys && !next.pc[t].Begin? && (forall v <- s.pc :: v != t ==> next.pc[v] == s.pc[v])
      && (Busy(next) < Busy(s) || (Busy(next) == Busy(s) && u == t && Remaining(next, t) < Remaining(s, t)))
  {
    c := TurnStep(s, t);
    var next := Step(s, t, c);
    StepInv(s, t, c);
    StepFrame(s, t, c);
    NotBegun(s, t, c);
    u := t;
    if Busy(next) != Busy(s) && Busy(next) != {} { u := BusyTurn(next); }
  }

  lemma NotBegun(s: State, t: Tid, c: Choice)
    requires Linked(s.list) && Enabled(s, t, c)
    ensures !Step(s, t, c).pc[t].Begin?
  {}

  lemma {:induction false} DrainFrom(s: State, t: Tid) returns (schedule: Schedule)
    requires Inv(s) && !OutOfTurn(s) && (Busy(s) != {} ==> HasTurn(s, t))
    ensures Follows(s, schedule) && Drained(s, Run(s, schedule))
    decreases Busy(s), if t in s.pc then Remaining(s, t) else 0
  {
    if Busy(s) == {} {
      schedule := [];
      IdleIsEmpty(s);
    } else {
      var c, u := NextTurn(s, t);
      var next := Step(s, t, c);
      var rest := DrainFrom(next, u);
      schedule := [(t, c)] + rest;
      OneMore(s, t, c, rest);
      DrainedBefore(s, next, Run(next, rest), t);
    }
  }

  lemma OneMore(s: State, t: Tid, c: Choice, rest: Schedule)
    requires Linked(s.list) && Enabled(s, t, c) && InOrder(s, t, c) && Follows(Step(s, t, c), rest)
    ensures Follows(s, [(t, c)] + rest) && Run(s, [(t, c)] + rest) == Run(Step(s, t, c), rest)
  {
    assert ([(t, c)] + rest)[1..] == rest;
  }

  /**
    Unless a removal out of turn is about to happen, whatever has begun can be finished in order: there is such a
    schedule, after which the mutex is free and the list empty.
   */
  lemma Drain(s: State) returns (schedule: Schedule)
    requires Inv(s) && !OutOfTurn(s)
    ensures Follows(s, schedule) && Drained(s, Run(s, schedule))
  {
    var t: Tid := 0;
    if Busy(s) != {} { t := BusyTurn(s); }
    schedule := DrainFrom(s, t);
  }

  lemma IdleIsEmpty(s: State)
    requires Inv(s) && Busy(s) == {}
    ensures s.mutex == Nobody && s.list.buffer == []
  {
    HolderBusy(s);
    FrontBusy(s);
  }

  lemma HolderBusy(s: State)
    requires Inv(s)
    ensures s.mutex.Held? ==> s.mutex.thread in Busy(s)
  {}

  lemma FrontBusy(s: State)
    requires Inv(s)
    ensures s.list.buffer != [] ==> s.list.buffer[0] in s.list.content && s.list.content[s.list.buffer[0]] in Busy(s)
  {
    if s.list.buffer != [] { assert s.list.buffer[0] in s.list.buffer; }
  }

  // ------------------------------------------------------------------ a run that is stuck

  ghost predicate Leads(s: State, schedule: Schedule, z: State) {
    Follows(s, schedule) && Run(s, schedule) == z
  }

  lemma {:induction false} LeadsOn(s: State, xs: Schedule, m: State, t: Tid, c: Choice)
    requires Leads(s, xs, m) && Linked(m.list) && Enabled(m, t, c) && InOrder(m, t, c)
    ensures Leads(s, xs + [(t, c)], Step(m, t, c))
    decreases |xs|
  {
    var ys := xs + [(t, c)];
    if xs == [] {
      assert ys[1..] == [];
    } else {
      LeadsOn(Step(s, xs[0].0, xs[0].1), xs[1..], m, t, c);
      assert ys[0] == xs[0] && ys[1..] == xs[1..] + [(t, c)];
    }
  }

  const NONE: Service := Service([], map[], map[])
  const OLD: Service := Service([0], map[0 := 0], map[0 := 0])
  const BOTH: Service := Service([1, 0], map[0 := 0, 1 := 1], map[0 := 0, 1 := 1])

  // The states of a run of two overlapping requests, of which the older stops waiting first.
  function Overlap(k: nat): State {
    var (mutex, list, p, q) :=
      if k < 3 then
        if k == 0 then (Nobody, NONE, Begin, Begin) else if k == 1 then (Held(0), NONE, Emplacing, Begin)
        else (Held(0), OLD, Emplaced, Begin)
      else if k < 6 then
        if k == 3 then (Nobody, OLD, Arming, Begin) else if k == 4 then (Held(1), OLD, Arming, Emplacing)
        else (Held(1), BOTH, Arming, Emplaced)
      else
        if k == 6 then (Nobody, BOTH, Arming, Arming) else if k == 7 then (Nobody, BOTH, Waiting, Arming)
        else if k == 8 then (Nobody, BOTH, Waited, Arming) else (Held(0), BOTH, Removing, Arming);
    State(mutex, list, map[0 := p, 1 := q], {}, iset{}, [])
  }

  // Whose step comes next.
  function Mover(k: nat): Tid {
    if 3 <= k < 6 then 1 else 0
  }

  ghost predicate OverlapMoves(k: nat) {
    var s, t, c := Overlap(k), Mover(k), Choice(Mover(k), 0);
    Linked(s.list) && Enabled(s, t, c) && InOrder(s, t, c) && Step(s, t, c) == Overlap(k + 1)
  }

  lemma OverlapFirst(k: nat)
    requires k < 3
    ensures OverlapMoves(k)
  {}

  lemma OverlapSecond(k: nat)
    requires 3 <= k < 5
    ensures OverlapMoves(k)
  {
    hide Receivers, Logged, Current;
  }

  lemma OverlapThird(k: nat)
    requires 5 <= k < 7
    ensures OverlapMoves(k)
  {
    hide Receivers, Logged, Current;
  }

  lemma OverlapLast(k: nat)
    requires 7 <= k < 9
    ensures OverlapMoves(k)
  {
    hide Receivers, Logged, Current;
  }

  lemma {:induction false} OverlapLeads(k: nat) returns (schedule: Schedule)
    requires k <= 9
    ensures Leads(Overlap(0), schedule, Overlap(k))
  {
    if k == 0 {
      schedule := [];
    } else {
      var before := OverlapLeads(k - 1);
      if k <= 3 { OverlapFirst(k - 1); } else if k <= 5 { OverlapSecond(k - 1); }
      else if k <= 7 { OverlapThird(k - 1); } else { OverlapLast(k - 1); }
      LeadsOn(Overlap(0), before, Overlap(k - 1), Mover(k - 1), Choice(Mover(k - 1), 0));
      schedule := before + [(Mover(k - 1), Choice(Mover(k - 1), 0))];
    }
  }

  /**
    Two overlapping requests of which the older stops waiting first: steps in order lead to the point where it is
    about to remove out of turn.
   */
  lemma OutOfTurnReachable() returns (s0: State, schedule: Schedule)
    ensures Init(s0) && Follows(s0, schedule) && OutOfTurn(Run(s0, schedule))
  {
    s0 := Overlap(0);
    schedule := OverlapLeads(9);
  }
}
