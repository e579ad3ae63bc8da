/**
  Synchronous requests over the serial link: the semaphore, mutex and condition variable of one
  subsystem, any number of callers, the thread that receives, and a peer that answers each request once.
  Waits neither time out nor wake without cause.
 */
module MtHelper {
  import opened Options

  type Tid = nat

  // A call of mtSend with a return buffer or a callback.
  datatype Call = Call(rspCmdId: nat, hasBuffer: bool, hasCallback: bool)

  predicate Valid(c: Call) {
    c.hasBuffer || c.hasCallback
  }

  // The fields of the resource; buffers, callbacks, statuses and messages are named by the call they belong to.
  datatype Resource = Resource(
    returnBuffer: Option<Tid>, callback: Option<Tid>, request: Tid, rspCmdId: nat, sendStatus: Tid, response: Tid)

  datatype Client =
    | Start                 // sem_wait
    | Filling(k: nat)       // the assignments to the resource
    | Spawned               // sendThread: lock
    | Sending               // mtBuildAndSendCmd, mutex held
    | Entering              // pthread_cond_timedwait, mutex held
    | Blocked
    | Relocking
    | Unlocking             // mutex held
    | Posting               // sem_post
    | Returned

  datatype Receiver =
    | Idle
    | Checking(x: Tid)      // rspCmdId against the command id
    | Storing(x: Tid)
    | Trying                // sem_trywait
    | GivingBack            // sem_post
    | Locking               // recvThread: lock
    | Delivering            // mutex held
    | Signalling            // mutex held
    | Releasing             // mutex held
    | Joining

  datatype Holder = Nobody | Sender(t: Tid) | Recv

  datatype State = State(
    calls: map<Tid, Call>, pc: map<Tid, Client>, r: Receiver,
    sem: nat, mutex: Holder, res: Resource,
    wire: set<Tid>,           // requests the peer has not answered
    arrived: seq<Tid>,        // answers not yet received
    rtn: map<Tid, int>,       // the status variable of each call
    stored: map<Tid, Tid>,    // whose answer a call's buffer holds
    called: map<Tid, Tid>,    // whose answer a call's callback got
    owner: Option<Tid>)       // auxiliary: who took the semaphore

  ghost predicate Init(s: State) {
    && (forall t <- s.calls :: Valid(s.calls[t]))
    && s.pc == (map t | t in s.calls :: Start) && s.rtn == (map t | t in s.calls :: -1)
    && s.r == Idle && s.sem == 1 && s.mutex == Nobody && s.wire == {} && s.arrived == []
    && s.stored == map[] && s.called == map[] && s.owner == None
  }

  // A signal may wake any one caller that is blocked.
  datatype Agent = Caller(t: Tid) | Receives(wakes: Tid) | Answers(t: Tid)

  predicate IsBlocked(s: State, t: Tid) {
    t in s.pc && s.pc[t] == Blocked
  }

  predicate Enabled(s: State, a: Agent) {
    match a
    case Answers(t) => t in s.wire
    case Receives(w) => (
      match s.r
      case Idle => s.arrived != []
      case Locking => s.mutex == Nobody
      case Signalling => IsBlocked(s, w) || forall u <- s.pc :: !IsBlocked(s, u)
      case _ => true
    )
    case Caller(t) =>
      t in s.pc && t in s.calls &&
      match s.pc[t]
      case Start => s.sem > 0
      case Spawned => s.mutex == Nobody
      case Relocking => s.mutex == Nobody
      case Blocked => false
      case Returned => false
      case _ => true
  }

  // Assignment number k of mtSend.
  function Fill(res: Resource, t: Tid, c: Call, k: nat): Resource {
    if k == 0 then res.(returnBuffer := if c.hasBuffer then Some(t) else None)
    else if k == 1 then res.(callback := if c.hasCallback then Some(t) else None)
    else if k == 2 then res.(request := t)
    else if k == 3 then res.(rspCmdId := c.rspCmdId)
    else res.(sendStatus := t)
  }

  function CallerNext(pc: Client): Client {
    match pc
    case Start => Filling(0)
    case Filling(k) => if k >= 4 then Spawned else Filling(k + 1)
    case Spawned => Sending
    case Sending => Entering
    case Entering => Blocked
    case Relocking => Unlocking
    case Unlocking => Posting
    case Posting => Returned
    case _ => pc
  }

  function CallerStep(s: State, t: Tid): State
    requires Enabled(s, Caller(t))
  {
    var pc := s.pc[t];
    s.(pc := s.pc[t := CallerNext(pc)],
       sem := if pc.Start? then s.sem - 1 else if pc.Posting? then s.sem + 1 else s.sem,
       owner := if pc.Start? then Some(t) else if pc.Posting? then None else s.owner,
       res := if pc.Filling? then Fill(s.res, t, s.calls[t], pc.k) else s.res,
       mutex := if pc.Spawned? || pc.Relocking? then Sender(t) else if pc.Entering? || pc.Unlocking? then Nobody
           else s.mutex,
       wire := if pc.Sending? then s.wire + {s.res.request} else s.wire)
  }

  // What recvThread does before it signals.
  function Deliver(s: State): State {
    match s.res.callback
    case None => (
      match s.res.returnBuffer
      case None => s.(rtn := s.rtn[s.res.sendStatus := 1])
      case Some(b) => s.(stored := s.stored[b := s.res.response], rtn := s.rtn[s.res.sendStatus := 0])
    )
    case Some(c) => s.(called := s.called[c := s.res.response], rtn := s.rtn[s.res.sendStatus := 0])
  }

  // pthread_cond_signal.
  function Signal(s: State, w: Tid): State {
    if IsBlocked(s, w) then s.(pc := s.pc[w := Relocking]) else s
  }

  function ReceiverNext(s: State, w: Tid): Receiver
    requires Enabled(s, Receives(w))
  {
    match s.r
    case Idle => Checking(s.arrived[0])
    case Checking(x) => if x in s.calls && s.calls[x].rspCmdId == s.res.rspCmdId then Storing(x) else Idle
    case Storing(x) => Trying
    case Trying => if s.sem > 0 then GivingBack else Locking
    case GivingBack => Idle
    case Locking => Delivering
    case Delivering => Signalling
    case Signalling => Releasing
    case Releasing => Joining
    case Joining => Idle
  }

  function ReceiverEffect(s: State, w: Tid): State
    requires Enabled(s, Receives(w))
  {
    if s.r.Delivering? then Deliver(s)
    else if s.r.Signalling? then Signal(s, w)
    else
      s.(arrived := if s.r.Idle? then s.arrived[1..] else s.arrived,
         res := if s.r.Storing? then s.res.(response := s.r.x) else s.res,
         sem := if s.r.Trying? && s.sem > 0 then s.sem - 1 else if s.r.GivingBack? then s.sem + 1 else s.sem,
         mutex := if s.r.Locking? then Recv else if s.r.Releasing? then Nobody else s.mutex)
  }

  function ReceiverStep(s: State, w: Tid): State
    requires Enabled(s, Receives(w))
  {
    ReceiverEffect(s, w).(r := ReceiverNext(s, w))
  }

  function Step(s: State, a: Agent): State
    requires Enabled(s, a)
  {
    match a
    case Caller(t) => CallerStep(s, t)
    case Receives(w) => ReceiverStep(s, w)
    case Answers(t) => s.(wire := s.wire - {t}, arrived := s.arrived + [t])
  }

  // --------------------------------------------------------------- invariant

  // The fields assigned so far are those of call t.
  predicate Filled(res: Resource, t: Tid, c: Call, k: nat) {
    && (k > 0 ==> res.returnBuffer == if c.hasBuffer then Some(t) else None)
    && (k > 1 ==> res.callback == if c.hasCallback then Some(t) else None)
    && (k > 2 ==> res.request == t)
    && (k > 3 ==> res.rspCmdId == c.rspCmdId)
    && (k > 4 ==> res.sendStatus == t)
  }

  // Call t got status 0 and its own answer.
  predicate Answered(s: State, t: Tid) {
    && t in s.calls && t in s.rtn && s.rtn[t] == 0
    && (s.calls[t].hasCallback ==> t in s.called && s.called[t] == t)
    && (!s.calls[t].hasCallback ==> t in s.stored && s.stored[t] == t)
  }

  predicate NothingUnderWay(s: State) {
    s.wire == {} && s.arrived == [] && s.r in {Idle, Joining}
  }

  // Where the one message is, before it is delivered.
  predicate UnderWay(s: State, t: Tid) {
    || (s.wire == {t} && s.arrived == [] && s.r in {Idle, Joining})
    || (s.wire == {} && s.arrived == [t] && s.r in {Idle, Joining})
    || (s.wire == {} && s.arrived == []
        && (s.r in {Checking(t), Storing(t)} || (s.r in {Trying, Locking} && s.res.response == t)))
  }

  // The owner's progress against that of its message.
  predicate Phase(s: State, t: Tid, pc: Client) {
    match pc
    case Filling(k) => k <= 4 && NothingUnderWay(s)
    case Spawned => NothingUnderWay(s)
    case Sending => NothingUnderWay(s)
    case Entering => UnderWay(s, t)
    case Blocked =>
      || UnderWay(s, t)
      || (s.wire == {} && s.arrived == [] && s.res.response == t
          && (s.r == Delivering || (s.r == Signalling && Answered(s, t))))
    case Relocking => s.wire == {} && s.arrived == [] && s.r in {Releasing, Joining, Idle} && Answered(s, t)
    case Unlocking => NothingUnderWay(s) && Answered(s, t)
    case Posting => NothingUnderWay(s) && Answered(s, t)
    case _ => false
  }

  predicate FilledBy(s: State, t: Tid, pc: Client)
    requires t in s.calls
  {
    Filled(s.res, t, s.calls[t], if pc.Filling? then pc.k else 5)
  }

  predicate MutexOf(s: State, t: Tid, pc: Client) {
    s.mutex ==
      if pc in {Sending, Entering, Unlocking} then Sender(t)
      else if s.r in {Delivering, Signalling, Releasing} then Recv
      else Nobody
  }

  predicate OwnerOk(s: State) {
    match s.owner
    case None => s.sem == 1 && s.mutex == Nobody && NothingUnderWay(s)
    case Some(t) =>
      && s.sem == 0 && t in s.pc && t in s.calls
      && Phase(s, t, s.pc[t]) && FilledBy(s, t, s.pc[t]) && MutexOf(s, t, s.pc[t])
  }

  predicate CallerOk(s: State, t: Tid)
    requires t in s.pc
  {
    s.owner == Some(t) || s.pc[t] == Start || (s.pc[t] == Returned && Answered(s, t))
  }

  ghost predicate Inv(s: State) {
    && s.pc.Keys == s.calls.Keys && (forall t <- s.calls :: Valid(s.calls[t]))
    && (forall t <- s.pc :: CallerOk(s, t))
    && OwnerOk(s)
  }

  lemma InitInv(s: State)
    requires Init(s)
    ensures Inv(s)
  {}

  lemma CallerTakes(s: State, t: Tid)
    requires Inv(s) && Enabled(s, Caller(t)) && s.pc[t] == Start
    ensures OwnerOk(CallerStep(s, t))
  {}

  lemma CallerFills(s: State, t: Tid)
    requires Inv(s) && Enabled(s, Caller(t)) && s.pc[t].Filling?
    ensures OwnerOk(CallerStep(s, t))
  {}

  lemma CallerSends(s: State, t: Tid)
    requires Inv(s) && Enabled(s, Caller(t)) && s.pc[t] in {Spawned, Sending, Entering}
    ensures OwnerOk(CallerStep(s, t))
  {}

  lemma CallerWakes(s: State, t: Tid)
    requires Inv(s) && Enabled(s, Caller(t)) && s.pc[t] in {Relocking, Unlocking, Posting}
    ensures OwnerOk(CallerStep(s, t))
  {}

  // What a caller's step leaves alone.
  lemma CallerFrame(s: State, t: Tid)
    requires Enabled(s, Caller(t))
    ensures var s' := CallerStep(s, t);
      && s'.calls == s.calls && s'.rtn == s.rtn && s'.stored == s.stored && s'.called == s.called
      && t in s'.pc && forall u <- s'.pc :: u in s.pc && (u != t ==> s'.pc[u] == s.pc[u])
  {}

  lemma CallerKeys(s: State, t: Tid)
    requires Enabled(s, Caller(t))
    ensures forall u <- s.pc :: u in CallerStep(s, t).pc
  {}

  // Only the owner moves, or a caller that becomes the owner.
  lemma CallerOwns(s: State, t: Tid)
    requires Inv(s) && Enabled(s, Caller(t))
    ensures if s.pc[t] == Start then s.owner == None else s.owner == Some(t)
  {
    assert CallerOk(s, t);
  }

  lemma CallerOwner(s: State, t: Tid)
    requires Enabled(s, Caller(t))
    ensures var s' := CallerStep(s, t);
      && s'.owner == (if s.pc[t] == Start then Some(t) else if s.pc[t] == Posting then None else s.owner)
      && (s.pc[t] == Posting ==> s'.pc[t] == Returned)
  {}

  lemma CallerOthers(s: State, t: Tid)
    requires Inv(s) && Enabled(s, Caller(t))
    ensures var s' := CallerStep(s, t);
      s'.pc.Keys == s'.calls.Keys && s'.calls == s.calls && forall u <- s'.pc :: CallerOk(s', u)
  {
    CallerFrame(s, t);
    CallerKeys(s, t);
    CallerOwns(s, t);
    CallerOwner(s, t);
    CallersKept(s, CallerStep(s, t), t);
  }

  lemma CallersKept(s: State, s': State, t: Tid)
    requires Inv(s) && t in s.pc
    requires s'.calls == s.calls && s'.rtn == s.rtn && s'.stored == s.stored && s'.called == s.called
    requires t in s'.pc && (forall u <- s'.pc :: u in s.pc && (u != t ==> s'.pc[u] == s.pc[u]))
        && forall u <- s.pc :: u in s'.pc
    requires s.owner == None || s.owner == Some(t)
    requires s'.owner == Some(t)
        || (s'.owner == None && s.owner == Some(t) && s.pc[t] == Posting && s'.pc[t] == Returned)
    ensures s'.pc.Keys == s'.calls.Keys && forall u <- s'.pc :: CallerOk(s', u)
  {
    forall u <- s'.pc ensures CallerOk(s', u) {
      assert u == t || CallerOk(s, u);
    }
  }

  lemma CallerInv(s: State, t: Tid)
    requires Inv(s) && Enabled(s, Caller(t))
    ensures Inv(Step(s, Caller(t)))
  {
    CallerOthers(s, t);
    match s.pc[t] {
      case Start => CallerTakes(s, t);
      case Filling(_) => CallerFills(s, t);
      case Spawned => CallerSends(s, t);
      case Sending => CallerSends(s, t);
      case Entering => CallerSends(s, t);
      case _ => CallerWakes(s, t);
    }
  }

  lemma ReceiverTakes(s: State, w: Tid)
    requires Inv(s) && Enabled(s, Receives(w)) && (s.r in {Idle, Trying, GivingBack} || s.r.Checking? || s.r.Storing?)
    ensures OwnerOk(ReceiverStep(s, w))
  {}

  lemma ReceiverLocks(s: State, w: Tid)
    requires Inv(s) && Enabled(s, Receives(w)) && s.r == Locking
    ensures OwnerOk(ReceiverStep(s, w))
  {}

  // Only the owner can be blocked, so a signal wakes the owner.
  lemma WakesOwner(s: State, w: Tid)
    requires Inv(s) && Enabled(s, Receives(w)) && s.r == Signalling
    ensures s.owner == Some(w) && IsBlocked(s, w)
  {
    if IsBlocked(s, w) {
      assert CallerOk(s, w);
    }
  }

  // The owner gets its own answer, through the callback if there is one, else into its buffer.
  lemma DeliverAnswers(s: State, t: Tid)
    requires t in s.calls && Valid(s.calls[t]) && Filled(s.res, t, s.calls[t], 5) && s.res.response == t
    ensures var s' := Deliver(s);
      Answered(s', t) && s'.res == s.res && s'.calls == s.calls && s'.pc == s.pc && s'.owner == s.owner
    ensures var s' := Deliver(s);
      s'.sem == s.sem && s'.mutex == s.mutex && s'.wire == s.wire && s'.arrived == s.arrived && s'.r == s.r
  {}

  lemma ReceiverDelivers(s: State, w: Tid)
    requires Inv(s) && Enabled(s, Receives(w)) && s.r == Delivering
    ensures OwnerOk(ReceiverStep(s, w))
  {
    if s.owner.Some? { DeliverAnswers(s, s.owner.value); }
  }

  lemma ReceiverSignals(s: State, w: Tid)
    requires Inv(s) && Enabled(s, Receives(w)) && s.r == Signalling
    ensures OwnerOk(ReceiverStep(s, w))
  {
    WakesOwner(s, w);
  }

  lemma ReceiverEnds(s: State, w: Tid)
    requires Inv(s) && Enabled(s, Receives(w)) && s.r in {Releasing, Joining}
    ensures OwnerOk(ReceiverStep(s, w))
  {}

  // What a step of the receiver leaves alone: everything of a call that is not the owner.
  lemma ReceiverFrame(s: State, w: Tid, u: Tid)
    requires Enabled(s, Receives(w)) && s.r != Delivering && u in s.pc && (s.r == Signalling ==> u != w)
    ensures var s' := ReceiverStep(s, w);
      u in s'.pc && s'.pc[u] == s.pc[u] && s'.rtn == s.rtn && s'.stored == s.stored && s'.called == s.called
  {}

  lemma DeliverFrame(s: State, u: Tid)
    requires Inv(s) && s.r == Delivering && u in s.pc && s.owner != Some(u) && Answered(s, u)
    ensures Answered(Deliver(s), u)
  {}

  lemma ReceiverKeys(s: State, w: Tid)
    requires Enabled(s, Receives(w))
    ensures var s' := ReceiverStep(s, w);
      s'.calls == s.calls && s'.pc.Keys == s.pc.Keys && s'.owner == s.owner
  {
    if s.r == Signalling { SignalKeys(s, w); }
    else if s.r == Delivering { DeliverKeys(s); }
    else { QuietKeys(s, w); }
  }

  lemma SignalKeys(s: State, w: Tid)
    ensures var s' := Signal(s, w);
      s'.calls == s.calls && s'.pc.Keys == s.pc.Keys && s'.owner == s.owner
  {}

  lemma DeliverKeys(s: State)
    ensures var s' := Deliver(s);
      s'.calls == s.calls && s'.pc == s.pc && s'.owner == s.owner
  {}

  lemma QuietKeys(s: State, w: Tid)
    requires Enabled(s, Receives(w)) && s.r !in {Delivering, Signalling}
    ensures var s' := ReceiverStep(s, w);
      s'.calls == s.calls && s'.pc == s.pc && s'.owner == s.owner
  {}

  lemma ReceiverOther(s: State, w: Tid, u: Tid)
    requires Inv(s) && Enabled(s, Receives(w)) && u in s.pc && s.owner != Some(u)
    ensures u in ReceiverStep(s, w).pc && CallerOk(ReceiverStep(s, w), u)
  {
    ReceiverKeys(s, w);
    assert CallerOk(s, u);
    if s.r == Delivering {
      if s.pc[u] == Returned { DeliverFrame(s, u); }
    } else {
      if s.r == Signalling { WakesOwner(s, w); }
      ReceiverFrame(s, w, u);
    }
  }

  lemma ReceiverOthers(s: State, w: Tid)
    requires Inv(s) && Enabled(s, Receives(w))
    ensures var s' := ReceiverStep(s, w);
      s'.pc.Keys == s'.calls.Keys && s'.calls == s.calls && forall u <- s'.pc :: CallerOk(s', u)
  {
    ReceiverKeys(s, w);
    var s' := ReceiverStep(s, w);
    forall u <- s'.pc ensures CallerOk(s', u) {
      assert u in s.pc by { assert u in s'.pc.Keys; }
      if s.owner != Some(u) { ReceiverOther(s, w, u); }
    }
  }

  lemma ReceiverInv(s: State, w: Tid)
    requires Inv(s) && Enabled(s, Receives(w))
    ensures Inv(Step(s, Receives(w)))
  {
    ReceiverOthers(s, w);
    if s.r == Locking { ReceiverLocks(s, w); }
    else if s.r == Delivering { ReceiverDelivers(s, w); }
    else if s.r == Signalling { ReceiverSignals(s, w); }
    else if s.r in {Releasing, Joining} { ReceiverEnds(s, w); }
    else { ReceiverTakes(s, w); }
  }

  lemma AnswersInv(s: State, t: Tid)
    requires Inv(s) && Enabled(s, Answers(t))
    ensures Inv(Step(s, Answers(t)))
  {}

  lemma StepInv(s: State, a: Agent)
    requires Inv(s) && Enabled(s, a)
    ensures Inv(Step(s, a))
  {
    match a {
      case Caller(t) => CallerInv(s, t);
      case Receives(w) => ReceiverInv(s, w);
      case Answers(t) => AnswersInv(s, t);
    }
  }

  // ------------------------------------------------------------------------ runs

  // Every step of the schedule is possible.
  ghost predicate Follows(s: State, schedule: seq<Agent>)
    decreases |schedule|
  {
    schedule == [] || (Enabled(s, schedule[0]) && Follows(Step(s, schedule[0]), schedule[1..]))
  }

  ghost function Run(s: State, schedule: seq<Agent>): State
    requires Follows(s, schedule)
    decreases |schedule|
  {
    if schedule == [] then s else Run(Step(s, schedule[0]), schedule[1..])
  }

  lemma {:induction false} RunInv(s: State, schedule: seq<Agent>)
    requires Inv(s) && Follows(s, schedule)
    ensures Inv(Run(s, schedule))
    decreases |schedule|
  {
    if schedule != [] {
      StepInv(s, schedule[0]);
      RunInv(Step(s, schedule[0]), schedule[1..]);
    }
  }

  // Request t is sent and its answer not yet delivered.
  predicate InFlight(s: State, t: Tid) {
    t in s.wire || t in s.arrived || s.r == Checking(t) || s.r == Storing(t) ||
    (s.r in {Trying, Locking, Delivering} && s.res.response == t)
  }

  /** At most one request is in flight, and it is that of the caller that holds the semaphore and waits. */
  lemma OneInFlight(s0: State, schedule: seq<Agent>, t: Tid, u: Tid)
    requires Init(s0) && Follows(s0, schedule)
    ensures var s := Run(s0, schedule);
      InFlight(s, t) && InFlight(s, u) ==> t == u && t in s.pc && s.pc[t] in {Entering, Blocked}
  {
    InitInv(s0);
    RunInv(s0, schedule);
    InFlightOwner(Run(s0, schedule), t);
    InFlightOwner(Run(s0, schedule), u);
  }

  lemma InFlightOwner(s: State, t: Tid)
    requires Inv(s)
    ensures InFlight(s, t) ==> s.owner == Some(t) && s.pc[t] in {Entering, Blocked}
  {}

  /**
    The signal never precedes the wait: when it is given, the caller whose answer it announces is in the condition
    variable.
   */
  lemma SignalMeetsWait(s0: State, schedule: seq<Agent>)
    requires Init(s0) && Follows(s0, schedule)
    ensures var s := Run(s0, schedule);
      s.r == Signalling ==>
        s.owner.Some? && IsBlocked(s, s.owner.value) && Answered(s, s.owner.value)
        && forall t: Tid :: IsBlocked(s, t) ==> s.owner == Some(t)
  {
    InitInv(s0);
    RunInv(s0, schedule);
    BlockedOwns(Run(s0, schedule));
  }

  lemma BlockedOwns(s: State)
    requires Inv(s)
    ensures forall t: Tid :: IsBlocked(s, t) ==> s.owner == Some(t)
  {
    forall t: Tid | IsBlocked(s, t) ensures s.owner == Some(t) {
      assert CallerOk(s, t);
    }
  }

  /** A call that has returned did so with status 0, and its buffer or callback got the answer to its own request. */
  lemma OwnAnswer(s0: State, schedule: seq<Agent>, t: Tid)
    requires Init(s0) && Follows(s0, schedule)
    ensures var s := Run(s0, schedule);
      t in s.pc && s.pc[t] == Returned ==> Answered(s, t)
  {
    InitInv(s0);
    RunInv(s0, schedule);
    var s := Run(s0, schedule);
    if t in s.pc && s.pc[t] == Returned { ReturnedAnswered(s, t); }
  }

  lemma ReturnedAnswered(s: State, t: Tid)
    requires Inv(s) && t in s.pc && s.pc[t] == Returned
    ensures Answered(s, t)
  {
    assert CallerOk(s, t);
  }

  // -------------------------------------------------------------------- progress

  // Someone can move on behalf of the owner.
  lemma OwnerMoves(s: State, t: Tid) returns (a: Agent)
    requires Inv(s) && s.owner == Some(t)
    ensures Enabled(s, a)
  {
    if s.wire != {} {
      var u :| u in s.wire;
      return Answers(u);
    }
    if s.arrived != [] || s.r != Idle {
      if Enabled(s, Receives(t)) { return Receives(t); }
    }
    return Caller(t);
  }

  /** No deadlock: while a call has not returned, some step is possible. */
  lemma NoDeadlock(s: State, t: Tid) returns (a: Agent)
    requires Inv(s) && t in s.pc && s.pc[t] != Returned
    ensures Enabled(s, a)
  {
    if s.owner.Some? {
      a := OwnerMoves(s, s.owner.value);
    } else {
      assert CallerOk(s, t);
      a := Caller(t);
    }
  }

  function CallerRank(pc: Client): nat {
    match pc
    case Start => 31
    case Filling(k) => if k <= 4 then 30 - k else 25
    case Spawned => 25 case Sending => 24 case Entering => 13 case Blocked => 12
    case Relocking => 11 case Unlocking => 10 case Posting => 9 case Returned => 0
  }

  function ReceiverRank(r: Receiver): nat {
    match r
    case Idle => 0 case Joining => 1 case GivingBack => 1 case Releasing => 2 case Signalling => 3 case Delivering => 4
    case Locking => 5 case Trying => 6 case Storing(_) => 7 case Checking(_) => 8
  }

  function Waiting(s: State): set<Tid> {
    set t | t in s.pc && s.pc[t] == Start
  }

  function OwnerRank(s: State): nat {
    (if s.owner.Some? && s.owner.value in s.pc then CallerRank(s.pc[s.owner.value]) else 0)
    + (if s.wire == {} then 0 else 10) + 9 * |s.arrived| + ReceiverRank(s.r)
  }

  /** The number of steps that can still happen. */
  function Work(s: State): nat {
    31 * |Waiting(s)| + OwnerRank(s)
  }

  lemma CallerWork(s: State, t: Tid)
    requires Enabled(s, Caller(t))
    ensures s.pc[t] == Start ==> Waiting(CallerStep(s, t)) == Waiting(s) - {t} && t in Waiting(s)
    ensures s.pc[t] != Start ==> Waiting(CallerStep(s, t)) == Waiting(s)
  {
    CallerFrame(s, t);
    CallerKeys(s, t);
    assert CallerStep(s, t).pc[t] == CallerNext(s.pc[t]);
  }

  lemma CallerRanks(s: State, t: Tid)
    requires Inv(s) && Enabled(s, Caller(t))
    ensures OwnerRank(CallerStep(s, t)) < OwnerRank(s) + if s.pc[t] == Start then 31 else 0
  {
    CallerOwns(s, t);
  }

  lemma DeliverRank(s: State)
    ensures var s' := Deliver(s); s'.wire == s.wire && s'.arrived == s.arrived && s'.pc == s.pc && s'.owner == s.owner
  {}

  lemma SignalRank(s: State, w: Tid)
    requires s.r == Signalling
    ensures var s' := Signal(s, w).(r := Releasing); OwnerRank(s') < OwnerRank(s)
  {}

  lemma QuietRank(s: State, w: Tid)
    requires Inv(s) && Enabled(s, Receives(w)) && s.r !in {Delivering, Signalling}
    ensures OwnerRank(ReceiverStep(s, w)) < OwnerRank(s)
  {}

  lemma ReceiverRanks(s: State, w: Tid)
    requires Inv(s) && Enabled(s, Receives(w))
    ensures OwnerRank(ReceiverStep(s, w)) < OwnerRank(s)
  {
    if s.r == Delivering { DeliverRank(s); }
    else if s.r == Signalling { SignalRank(s, w); }
    else { QuietRank(s, w); }
  }

  lemma ReceiverWaiting(s: State, w: Tid)
    requires Inv(s) && Enabled(s, Receives(w))
    ensures Waiting(ReceiverStep(s, w)) == Waiting(s)
  {
    if s.r == Signalling { SignalWaiting(s, w); }
    else if s.r == Delivering { DeliverKeys(s); }
    else { QuietKeys(s, w); }
  }

  lemma SignalWaiting(s: State, w: Tid)
    ensures Waiting(Signal(s, w)) == Waiting(s)
  {}

  lemma StepWork(s: State, a: Agent)
    requires Inv(s) && Enabled(s, a)
    ensures Work(Step(s, a)) < Work(s)
  {
    match a {
      case Caller(t) =>
        CallerWork(s, t);
        CallerRanks(s, t);
        assert s.pc[t] == Start ==> |Waiting(s)| == |Waiting(s) - {t}| + 1;
      case Receives(w) =>
        ReceiverRanks(s, w);
        ReceiverWaiting(s, w);
      case Answers(t) =>
        assert Waiting(Step(s, a)) == Waiting(s);
    }
  }

  lemma {:induction false} RunWork(s: State, schedule: seq<Agent>)
    requires Inv(s) && Follows(s, schedule)
    ensures |schedule| + Work(Run(s, schedule)) <= Work(s)
    decreases |schedule|
  {
    if schedule != [] {
      StepInv(s, schedule[0]);
      StepWork(s, schedule[0]);
      RunWork(Step(s, schedule[0]), schedule[1..]);
    }
  }

  /** Every run is finite, and one that cannot go on has answered every call. */
  lemma AllAnswered(s0: State, schedule: seq<Agent>)
    requires Init(s0) && Follows(s0, schedule)
    ensures |schedule| <= Work(s0)
    ensures var s := Run(s0, schedule);
      (forall a :: !Enabled(s, a)) ==> forall t <- s0.calls :: t in s.pc && s.pc[t] == Returned && Answered(s, t)
  {
    InitInv(s0);
    RunInv(s0, schedule);
    RunWork(s0, schedule);
    CallsStay(s0, schedule);
    var s := Run(s0, schedule);
    if forall a :: !Enabled(s, a) {
      forall t <- s0.calls ensures t in s.pc && s.pc[t] == Returned && Answered(s, t) {
        assert t in s.calls.Keys;
        if s.pc[t] != Returned { var a := NoDeadlock(s, t); }
        ReturnedAnswered(s, t);
      }
    }
  }

  lemma {:induction false} CallsStay(s: State, schedule: seq<Agent>)
    requires Inv(s) && Follows(s, schedule)
    ensures Run(s, schedule).calls == s.calls
    decreases |schedule|
  {
    if schedule != [] {
      StepInv(s, schedule[0]);
      if schedule[0].Receives? { ReceiverKeys(s, schedule[0].wakes); }
      CallsStay(Step(s, schedule[0]), schedule[1..]);
    }
  }
}
