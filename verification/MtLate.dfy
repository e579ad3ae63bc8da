/**
  Synchronous requests whose wait may time out.  The peer may then answer late, when the next call of the subsystem is
  under way; responses are told apart by their command alone.  The steps are those of MtHelper and the end of a wait.
 */
module MtLate {
  import opened Options
  import opened MtHelper

  datatype Move = Take(agent: Agent) | TimeOut(t: Tid)

  predicate Possible(s: State, m: Move) {
    match m
    case Take(a) => Enabled(s, a)
    case TimeOut(t) => IsBlocked(s, t)
  }

  function Do(s: State, m: Move): State
    requires Possible(s, m)
  {
    match m
    case Take(a) => Step(s, a)
    case TimeOut(t) => s.(pc := s.pc[t := Relocking])
  }

  // --------------------------------------------------------------- invariant

  predicate Sent(pc: Client) {
    pc in {Entering, Blocked, Relocking, Unlocking, Posting, Returned}
  }

  predicate SentBy(s: State, x: Tid) {
    x in s.pc && Sent(s.pc[x])
  }

  // The answer that the receiver has matched by its command, not delivered yet.
  predicate Matched(s: State, x: Tid) {
    s.r == Storing(x) || (s.r in {Trying, Locking, Delivering} && s.res.response == x)
  }

  // The answer in the receiver's hands.
  predicate InHand(s: State, x: Tid) {
    s.r == Checking(x) || Matched(s, x)
  }

  predicate HoldsMutex(r: Receiver) {
    r in {Delivering, Signalling, Releasing}
  }

  // The fields, the mutex and the semaphore are those of the owner, or free.
  predicate Owned(s: State) {
    match s.owner
    case None => s.sem == (if s.r == GivingBack then 0 else 1) && s.mutex == (if HoldsMutex(s.r) then Recv else Nobody)
    case Some(t) =>
      && s.sem == 0 && s.r != GivingBack && t in s.pc && t in s.calls && s.pc[t] !in {Start, Returned}
      && (s.pc[t].Filling? ==> s.pc[t].k <= 4)
      && FilledBy(s, t, s.pc[t]) && MutexOf(s, t, s.pc[t])
      && (s.pc[t] in {Sending, Entering, Unlocking} ==> !HoldsMutex(s.r))
  }

  predicate OthersIdle(s: State) {
    forall u <- s.pc :: s.owner == Some(u) || s.pc[u] in {Start, Returned}
  }

  // What is under way was sent, and what is not answered has not arrived.
  ghost predicate Flow(s: State) {
    && (forall x <- s.wire :: SentBy(s, x) && x !in s.arrived && !InHand(s, x))
    && (forall x <- s.arrived :: SentBy(s, x))
    && (forall x: Tid :: InHand(s, x) ==> SentBy(s, x))
  }

  ghost predicate Sane(s: State) {
    s.pc.Keys == s.calls.Keys && Owned(s) && OthersIdle(s) && Flow(s)
  }

  lemma InitSane(s: State)
    requires Init(s)
    ensures Sane(s)
  {}

  lemma CallerOwned(s: State, t: Tid)
    requires Sane(s) && Enabled(s, Caller(t))
    ensures Owned(CallerStep(s, t))
  {
    hide Flow;
    assert s.owner == Some(t) || s.pc[t] in {Start, Returned};
  }

  lemma CallerOthersIdle(s: State, t: Tid)
    requires Sane(s) && Enabled(s, Caller(t))
    ensures OthersIdle(CallerStep(s, t)) && CallerStep(s, t).pc.Keys == s.pc.Keys
  {
    hide Flow;
    assert s.owner == Some(t) || s.pc[t] in {Start, Returned};
  }

  lemma CallerFlow(s: State, t: Tid)
    requires Sane(s) && Enabled(s, Caller(t))
    ensures Flow(CallerStep(s, t))
  {
    assert s.owner == Some(t) || s.pc[t] in {Start, Returned};
    var s' := CallerStep(s, t);
    assert forall x: Tid :: SentBy(s, x) ==> SentBy(s', x);
    assert forall x: Tid :: InHand(s', x) <==> InHand(s, x);
    assert s.pc[t] == Sending ==> s.res.request == t && !SentBy(s, t) && SentBy(s', t);
  }

  lemma DeliverLeaves(s: State)
    ensures Deliver(s).(rtn := s.rtn, stored := s.stored, called := s.called) == s
  {}

  lemma SignalLeaves(s: State, w: Tid)
    ensures var z := Signal(s, w);
      && z.(pc := s.pc) == s && z.pc.Keys == s.pc.Keys
      && forall u <- s.pc :: z.pc[u] == if IsBlocked(s, w) && u == w then Relocking else s.pc[u]
  {}

  // A delivery changes neither the owner's fields nor the flow.
  lemma DeliverSane(s: State, w: Tid)
    requires Sane(s) && Enabled(s, Receives(w)) && s.r == Delivering
    ensures Sane(ReceiverStep(s, w))
  {
    DeliverLeaves(s);
    hide Deliver;
    var s' := ReceiverStep(s, w);
    assert s'.(rtn := s.rtn, stored := s.stored, called := s.called, r := s.r) == s;
    assert forall x: Tid :: SentBy(s', x) <==> SentBy(s, x);
  }

  lemma SignalSane(s: State, w: Tid)
    requires Sane(s) && Enabled(s, Receives(w)) && s.r == Signalling
    ensures Sane(ReceiverStep(s, w))
  {
    SignalLeaves(s, w);
    if IsBlocked(s, w) { assert s.owner == Some(w); }
    hide Signal;
    var s' := ReceiverStep(s, w);
    assert forall x: Tid :: SentBy(s', x) <==> SentBy(s, x);
  }

  lemma QuietOwned(s: State, w: Tid)
    requires Sane(s) && Enabled(s, Receives(w)) && s.r !in {Delivering, Signalling}
    ensures var s' := ReceiverStep(s, w); s'.pc == s.pc && s'.calls == s.calls && Owned(s') && OthersIdle(s')
  {
    hide Flow;
  }

  lemma QuietFlow(s: State, w: Tid)
    requires Sane(s) && Enabled(s, Receives(w)) && s.r !in {Delivering, Signalling}
    ensures Flow(ReceiverStep(s, w))
  {
    hide Owned, OthersIdle;
    var s' := ReceiverStep(s, w);
    assert forall x: Tid :: SentBy(s, x) <==> SentBy(s', x);
    assert forall x: Tid :: InHand(s', x) ==> InHand(s, x) || (s.r == Idle && x == s.arrived[0]);
  }

  lemma ReceiverSane(s: State, w: Tid)
    requires Sane(s) && Enabled(s, Receives(w))
    ensures Sane(ReceiverStep(s, w))
  {
    if s.r == Delivering {
      DeliverSane(s, w);
    } else if s.r == Signalling {
      SignalSane(s, w);
    } else {
      QuietOwned(s, w);
      QuietFlow(s, w);
    }
  }

  lemma AnswersSane(s: State, t: Tid)
    requires Sane(s) && Enabled(s, Answers(t))
    ensures Sane(Step(s, Answers(t)))
  {
    var s' := Step(s, Answers(t));
    assert forall x: Tid :: InHand(s', x) <==> InHand(s, x);
    assert forall x: Tid :: SentBy(s', x) <==> SentBy(s, x);
  }

  lemma TimeOutSane(s: State, t: Tid)
    requires Sane(s) && IsBlocked(s, t)
    ensures Sane(Do(s, TimeOut(t)))
  {
    var s' := Do(s, TimeOut(t));
    assert s.owner == Some(t);
    assert forall x: Tid :: InHand(s', x) <==> InHand(s, x);
    assert forall x: Tid :: SentBy(s', x) <==> SentBy(s, x);
  }

  /** Every step, the end of a wait included, keeps the invariant. */
  lemma DoSane(s: State, m: Move)
    requires Sane(s) && Possible(s, m)
    ensures Sane(Do(s, m))
  {
    match m
    case TimeOut(t) => TimeOutSane(s, t);
    case Take(a) => {
      match a
      case Caller(t) => CallerOwned(s, t); CallerOthersIdle(s, t); CallerFlow(s, t);
      case Receives(w) => ReceiverSane(s, w);
      case Answers(t) => AnswersSane(s, t);
    }
  }

  /**
    A matched answer is delivered exactly if some call owns the semaphore when it is tried.  Otherwise the receiver
    gives the semaphore back, and nothing but its own position has changed.
   */
  lemma DeliveredIff(s: State, w: Tid)
    requires Sane(s) && s.r == Trying
    ensures ReceiverStep(s, w).r == Locking <==> s.owner.Some?
    ensures s.owner.Some? ==> ReceiverStep(s, w) == s.(r := Locking)
    ensures s.owner.None? ==> ReceiverStep(ReceiverStep(s, w), w) == s.(r := Idle)
  {
    hide Flow, OthersIdle;
  }

  // Every move of the schedule is possible.
  ghost predicate Runs(s: State, moves: seq<Move>)
    decreases |moves|
  {
    moves == [] || (Possible(s, moves[0]) && Runs(Do(s, moves[0]), moves[1..]))
  }

  ghost function After(s: State, moves: seq<Move>): State
    requires Runs(s, moves)
    decreases |moves|
  {
    if moves == [] then s else After(Do(s, moves[0]), moves[1..])
  }

  // ------------------------------------------------------------- whose answer it is

  // What call t has been given so far is the answer to its own request; with status 0 it has been given it.
  predicate Own(s: State, t: Tid) {
    && (t in s.stored ==> s.stored[t] == t) && (t in s.called ==> s.called[t] == t)
    && (t in s.rtn && s.rtn[t] == 0 ==> Answered(s, t))
  }

  // Request x was sent for the same response as that of call t.
  predicate Alike(s: State, x: Tid, t: Tid) {
    x in s.calls && t in s.calls && s.calls[x].rspCmdId == s.calls[t].rspCmdId
  }

  // An answer that call t would take: not its own, but for the same response, or already matched by the receiver.
  ghost predicate Stray(s: State, t: Tid, x: Tid) {
    x != t && (Matched(s, x) || (Alike(s, x, t) && (x in s.wire || x in s.arrived || s.r == Checking(x))))
  }

  ghost predicate Clean(s: State, t: Tid) {
    forall x: Tid :: !Stray(s, t, x)
  }

  // The wait of t has begun, and nothing has been received since.
  predicate Begun(s: State, t: Tid) {
    s.owner == Some(t) && t in s.pc && s.pc[t] == Blocked && s.mutex == Nobody && t in s.wire
  }

  predicate Waits(pc: Client) {
    pc in {Blocked, Relocking, Unlocking, Posting}
  }

  ghost predicate Safe(s: State, t: Tid) {
    s.owner == Some(t) && t in s.pc && Waits(s.pc[t]) && Clean(s, t) && Own(s, t)
  }

  lemma CallerSafe(s: State, t: Tid, u: Tid)
    requires Sane(s) && Safe(s, t) && Enabled(s, Caller(u))
    ensures var s' := CallerStep(s, u); if s'.owner == Some(t) then Safe(s', t) else s'.pc[t] == Returned
  {
    hide Flow;
    assert u == t;
    var s' := CallerStep(s, u);
    assert forall x: Tid :: Stray(s', t, x) ==> Stray(s, t, x);
  }

  lemma SameOwn(s: State, s': State, t: Tid)
    requires s'.stored == s.stored && s'.called == s.called && s'.rtn == s.rtn && s'.calls == s.calls
    ensures Own(s', t) <==> Own(s, t)
  {}

  lemma ReceiverSafe(s: State, t: Tid, w: Tid)
    requires Sane(s) && Safe(s, t) && Enabled(s, Receives(w)) && s.r != Delivering
    ensures Safe(ReceiverStep(s, w), t)
  {
    var s' := ReceiverStep(s, w);
    SameOwn(s, s', t);
    hide Flow, Own, Answered;
    forall x: Tid | Stray(s', t, x) ensures Stray(s, t, x) {
      if s.r.Checking? { assert s.res.rspCmdId == s.calls[t].rspCmdId; }
    }
  }

  // What is delivered to the call that waits is its own answer.
  lemma DeliverSafe(s: State, t: Tid, w: Tid)
    requires Sane(s) && Safe(s, t) && s.r == Delivering && Valid(s.calls[t])
    ensures Safe(ReceiverStep(s, w), t)
  {
    hide Flow;
    var s' := ReceiverStep(s, w);
    assert !Stray(s, t, s.res.response);
    assert s.res.response == t;
    assert forall x: Tid :: Stray(s', t, x) ==> Stray(s, t, x);
  }

  lemma MoveSafe(s: State, t: Tid, m: Move)
    requires Sane(s) && Safe(s, t) && Possible(s, m) && Valid(s.calls[t])
    ensures var s' := Do(s, m); t in s'.pc && if s'.owner == Some(t) then Safe(s', t) else s'.pc[t] == Returned
  {
    match m
    case TimeOut(u) => assert forall x: Tid :: Stray(Do(s, m), t, x) ==> Stray(s, t, x);
    case Take(a) => {
      match a
      case Caller(u) => CallerSafe(s, t, u);
      case Receives(w) => if s.r == Delivering { DeliverSafe(s, t, w); } else { ReceiverSafe(s, t, w); }
      case Answers(u) => assert forall x: Tid :: Stray(Do(s, m), t, x) ==> Stray(s, t, x);
    }
  }

  lemma ReturnedStays(s: State, t: Tid, m: Move)
    requires Possible(s, m) && t in s.pc && s.pc[t] == Returned
    ensures var s' := Do(s, m); t in s'.pc && s'.pc[t] == Returned
  {
    match m
    case TimeOut(u) =>
    case Take(a) => {
      match a
      case Caller(u) => CallerFrame(s, u);
      case Receives(w) => assert s.r == Signalling ==> !IsBlocked(s, t);
      case Answers(u) =>
    }
  }

  lemma {:induction false} NeverOwnsAgain(s: State, t: Tid, moves: seq<Move>)
    requires Sane(s) && Runs(s, moves) && t in s.pc && s.pc[t] == Returned
    ensures After(s, moves).owner != Some(t)
    decreases |moves|
  {
    if moves != [] {
      DoSane(s, moves[0]);
      ReturnedStays(s, t, moves[0]);
      NeverOwnsAgain(Do(s, moves[0]), t, moves[1..]);
    }
  }

  lemma CallsStay(s: State, m: Move)
    requires Possible(s, m)
    ensures Do(s, m).calls == s.calls
  {
    if m.Take? && m.agent.Receives? {
      DeliverLeaves(s);
      SignalLeaves(s, m.agent.wakes);
      hide Deliver, Signal;
    }
  }

  // Whatever is done until call t gives the semaphore back, it is given its own answer only.
  ghost predicate OwnInEveryRun(s: State, t: Tid) {
    forall moves :: Runs(s, moves) && After(s, moves).owner == Some(t) ==> Own(After(s, moves), t)
  }

  /**
    A call whose wait began with nothing stray under way is given its own answer only, in every run until it returns.
   */
  lemma {:induction false} AlwaysOwn(s: State, t: Tid, moves: seq<Move>)
    requires Sane(s) && Safe(s, t) && Valid(s.calls[t]) && Runs(s, moves)
    ensures After(s, moves).owner == Some(t) ==> Own(After(s, moves), t)
    decreases |moves|
  {
    if moves != [] {
      var s' := Do(s, moves[0]);
      DoSane(s, moves[0]);
      MoveSafe(s, t, moves[0]);
      CallsStay(s, moves[0]);
      if s'.owner == Some(t) { AlwaysOwn(s', t, moves[1..]); } else { NeverOwnsAgain(s', t, moves[1..]); }
    }
  }

  // ------------------------------------------------------------- the stray answer

  // A run that leads call t to the point where it gives the semaphore back with what is not its own.
  ghost predicate Misled(s: State, t: Tid, moves: seq<Move>) {
    Runs(s, moves) &&
    var z := After(s, moves); z.owner == Some(t) && t in z.pc && z.pc[t] == Posting && !Own(z, t)
  }

  lemma Onward(s: State, t: Tid, m: Move, rest: seq<Move>)
    requires Possible(s, m) && Misled(Do(s, m), t, rest)
    ensures Misled(s, t, [m] + rest)
  {
    assert ([m] + rest)[0] == m && ([m] + rest)[1..] == rest;
  }

  function WaitRank(pc: Client): nat {
    if pc == Blocked then 9 else if pc == Relocking then 6 else if pc == Unlocking then 3 else 0
  }

  function EndRank(r: Receiver): nat {
    if r == Signalling then 2 else if r == Releasing then 1 else 0
  }

  // What has been given to a call stays until it gives the semaphore back.
  lemma {:induction false} GivesBack(s: State, t: Tid) returns (moves: seq<Move>)
    requires Sane(s) && s.owner == Some(t) && Waits(s.pc[t]) && !Own(s, t) && s.r != Delivering
    ensures Misled(s, t, moves)
    decreases WaitRank(s.pc[t]) + EndRank(s.r)
  {
    if s.pc[t] == Posting {
      moves := [];
    } else {
      var m := EndMove(s, t);
      DoSane(s, m);
      var rest := GivesBack(Do(s, m), t);
      Onward(s, t, m, rest);
      moves := [m] + rest;
    }
  }

  lemma EndMove(s: State, t: Tid) returns (m: Move)
    requires Sane(s) && s.owner == Some(t) && Waits(s.pc[t]) && !Own(s, t) && s.r != Delivering && s.pc[t] != Posting
    ensures Possible(s, m)
    ensures var z := Do(s, m);
      && z.owner == Some(t) && t in z.pc && Waits(z.pc[t]) && !Own(z, t) && z.r != Delivering
      && WaitRank(z.pc[t]) + EndRank(z.r) < WaitRank(s.pc[t]) + EndRank(s.r)
  {
    hide Flow;
    if s.r in {Signalling, Releasing} {
      m := Take(Receives(t));
      assert forall u <- s.pc :: u != t ==> s.pc[u] in {Start, Returned};
    } else if s.pc[t] == Blocked {
      m := TimeOut(t);
    } else {
      m := Take(Caller(t));
    }
  }

  // The answer in the receiver's hands, not that of t, is delivered to t.
  lemma Delivered(s: State, t: Tid)
    requires Sane(s) && s.owner == Some(t) && Valid(s.calls[t]) && s.pc[t] == Blocked
    requires s.r == Delivering && s.res.response != t
    ensures Enabled(s, Receives(t))
    ensures var z := ReceiverStep(s, t);
      z.owner == Some(t) && t in z.pc && z.pc[t] == Blocked && z.r == Signalling && !Own(z, t)
  {
    hide Flow;
  }

  function HandRank(r: Receiver): nat {
    match r
    case Checking(_) => 5 case Storing(_) => 4 case Trying => 3 case Locking => 2 case Joining => 1 case _ => 0
  }

  // The next move towards the delivery of a stray answer.
  lemma StrayMove(s: State, t: Tid, x: Tid) returns (m: Move, y: Tid)
    requires Sane(s) && Begun(s, t) && Stray(s, t, x) && s.r != Locking
    ensures Possible(s, m)
    ensures var z := Do(s, m);
      && Begun(z, t) && Stray(z, t, y) && z.calls == s.calls
      && (x in s.wire || y !in z.wire)
      && (|z.arrived| < |s.arrived| || (z.arrived == s.arrived && HandRank(z.r) < HandRank(s.r))
          || (x in s.wire && y !in z.wire))
  {
    y := x;
    if s.r == Idle && s.arrived == [] {
      m := Take(Answers(x));
    } else {
      m := Take(Receives(t));
      if s.r.Checking? && Alike(s, s.r.x, t) { y := s.r.x; }
    }
  }

  lemma {:induction false} StrayArrives(s: State, t: Tid, x: Tid) returns (moves: seq<Move>)
    requires Sane(s) && Begun(s, t) && Valid(s.calls[t]) && Stray(s, t, x)
    ensures Misled(s, t, moves)
    decreases if x in s.wire then 1 else 0, |s.arrived|, HandRank(s.r)
  {
    if s.r == Locking {
      moves := StrayDelivered(s, t);
    } else {
      var m, y := StrayMove(s, t, x);
      DoSane(s, m);
      var rest := StrayArrives(Do(s, m), t, y);
      Onward(s, t, m, rest);
      moves := [m] + rest;
    }
  }

  lemma StrayDelivered(s: State, t: Tid) returns (moves: seq<Move>)
    requires Sane(s) && Begun(s, t) && Valid(s.calls[t]) && s.r == Locking
    ensures Misled(s, t, moves)
  {
    hide Misled, Sane, Own;
    var m := Take(Receives(t));
    LockTaken(s, t);
    var locked := Do(s, m);
    DoSane(s, m);
    Delivered(locked, t);
    DoSane(locked, m);
    var rest := GivesBack(Do(locked, m), t);
    Onward(locked, t, m, rest);
    Onward(s, t, m, [m] + rest);
    moves := [m] + ([m] + rest);
  }

  lemma LockTaken(s: State, t: Tid)
    requires Sane(s) && Begun(s, t) && s.r == Locking
    ensures Enabled(s, Receives(t))
    ensures var z := ReceiverStep(s, t);
      && z.owner == Some(t) && t in z.pc && z.pc[t] == Blocked && z.calls == s.calls
      && z.r == Delivering && z.res.response != t
  {
    assert InHand(s, s.res.response);
  }

  lemma Refuted(s: State, t: Tid, moves: seq<Move>)
    requires Misled(s, t, moves)
    ensures !OwnInEveryRun(s, t)
  {
    assert After(s, moves).owner == Some(t);
  }

  /**
    A call whose wait has begun is given its own answer only, in every run, exactly if nothing else has been given to it
    before and no answer of an earlier call that it would take is still under way: unanswered, arrived, in
    the receiver's hands for the same response, or matched there already, for whatever response.
   */
  lemma OwnAnswerIff(s: State, t: Tid)
    requires Sane(s) && Begun(s, t) && Valid(s.calls[t])
    ensures OwnInEveryRun(s, t) <==> Clean(s, t) && Own(s, t)
  {
    if Clean(s, t) && Own(s, t) {
      forall moves | Runs(s, moves) && After(s, moves).owner == Some(t) ensures Own(After(s, moves), t) {
        AlwaysOwn(s, t, moves);
      }
    } else {
      var moves: seq<Move>;
      if !Own(s, t) {
        moves := GivesBack(s, t);
      } else {
        var x :| Stray(s, t, x);
        moves := StrayArrives(s, t, x);
      }
      Refuted(s, t, moves);
    }
  }

  // ------------------------------------------------------------- a late answer

  lemma {:induction false} AfterSplit(s: State, a: seq<Move>, b: seq<Move>)
    requires Runs(s, a) && Runs(After(s, a), b)
    ensures Runs(s, a + b) && After(s, a + b) == After(After(s, a), b)
    decreases |a|
  {
    if a == [] {
      assert a + b == b;
    } else {
      assert (a + b)[0] == a[0] && (a + b)[1..] == a[1..] + b;
      AfterSplit(Do(s, a[0]), a[1..], b);
    }
  }

  // A single move in front.
  lemma First(s: State, m: Move, rest: seq<Move>)
    requires Possible(s, m) && Runs(Do(s, m), rest)
    ensures Runs(s, [m] + rest) && After(s, [m] + rest) == After(Do(s, m), rest)
  {
    assert ([m] + rest)[0] == m && ([m] + rest)[1..] == rest;
  }

  // Nothing but call t has moved, and nothing has been received.
  ghost predicate OnlyMoved(s: State, z: State, t: Tid) {
    && z.calls == s.calls && z.r == s.r == Idle && z.arrived == s.arrived && s.wire <= z.wire <= s.wire + {t}
    && t in z.pc && forall u <- s.pc :: u != t ==> u in z.pc && z.pc[u] == s.pc[u]
  }

  // Call t can begin, or is on its way to the wait, while the receiver is idle.
  predicate OnItsWay(s: State, t: Tid) {
    t in s.pc && s.r == Idle &&
    if s.pc[t] == Start then s.owner == None
    else
      && s.owner == Some(t)
      && (s.pc[t].Filling? || s.pc[t] in {Spawned, Sending} || (s.pc[t] == Entering && t in s.wire))
  }

  lemma WayStep(s: State, t: Tid)
    requires Sane(s) && OnItsWay(s, t)
    ensures Enabled(s, Caller(t))
    ensures var z := CallerStep(s, t);
      && OnlyMoved(s, z, t) && CallerRank(z.pc[t]) < CallerRank(s.pc[t])
      && if s.pc[t] == Entering then Begun(z, t) else OnItsWay(z, t)
  {
    hide Flow;
  }

  lemma {:induction false} ToWait(s: State, t: Tid) returns (moves: seq<Move>)
    requires Sane(s) && OnItsWay(s, t)
    ensures Runs(s, moves) && Begun(After(s, moves), t) && OnlyMoved(s, After(s, moves), t) && Sane(After(s, moves))
    decreases CallerRank(s.pc[t])
  {
    var m := Take(Caller(t));
    var z := CallerStep(s, t);
    WayStep(s, t);
    DoSane(s, m);
    hide Sane;
    var rest: seq<Move> := [];
    if s.pc[t] != Entering {
      rest := ToWait(z, t);
    }
    First(s, m, rest);
    moves := [m] + rest;
  }

  lemma EndStep(s: State, t: Tid)
    requires Sane(s) && s.r == Idle && s.owner == Some(t) && s.pc[t] in {Relocking, Unlocking, Posting}
    ensures Enabled(s, Caller(t))
    ensures var z := CallerStep(s, t);
      && OnlyMoved(s, z, t) && CallerRank(z.pc[t]) < CallerRank(s.pc[t])
      && if s.pc[t] == Posting then z.owner == None else z.owner == Some(t) && z.pc[t] in {Unlocking, Posting}
  {
    hide Flow;
  }

  lemma {:induction false} ToEnd(s: State, t: Tid) returns (moves: seq<Move>)
    requires Sane(s) && s.r == Idle && s.owner == Some(t) && s.pc[t] in {Relocking, Unlocking, Posting}
    ensures Runs(s, moves) && OnlyMoved(s, After(s, moves), t) && After(s, moves).owner == None && Sane(After(s, moves))
    decreases CallerRank(s.pc[t])
  {
    var m := Take(Caller(t));
    EndStep(s, t);
    DoSane(s, m);
    hide Sane;
    var rest: seq<Move> := [];
    if s.pc[t] != Posting {
      rest := ToEnd(CallerStep(s, t), t);
    }
    First(s, m, rest);
    moves := [m] + rest;
  }

  /**
    So of any two calls for the same response the second can be misled: the first times out, the peer answers it when
    the second has begun to wait, and the second gives the semaphore back with what is not its own.
   */
  lemma LateAnswer(s: State, t: Tid, u: Tid) returns (moves: seq<Move>)
    requires Init(s) && t in s.calls && u in s.calls && t != u && Alike(s, t, u)
    ensures Misled(s, u, moves)
  {
    InitSane(s);
    var first := ToWait(s, t);
    var waits := After(s, first);
    DoSane(waits, TimeOut(t));
    var late := Do(waits, TimeOut(t));
    var second := ToEnd(late, t);
    var ended := After(late, second);
    First(waits, TimeOut(t), second);
    AfterSplit(s, first, [TimeOut(t)] + second);
    var third := ToWait(ended, u);
    var begun := After(ended, third);
    assert Stray(begun, u, t);
    var fourth := StrayArrives(begun, u, t);
    AfterSplit(ended, third, fourth);
    AfterSplit(s, first + ([TimeOut(t)] + second), third + fourth);
    moves := first + ([TimeOut(t)] + second) + (third + fourth);
  }
}
