/**
  The rendezvous of a request with its response: the requester calls `arm` and then `wait_for`, the
  thread that delivers the response calls `disarm`, any number of times.  Every read or write of a
  flag is one step; waits may time out or wake without cause.
 */
module SyncInfo {

  // The requester, by the statement it executes next.
  datatype Waiter =
    | ArmSync | ArmRdy        // arm
    | CheckSync               // if (!sync) return false
    | Lock                    // unique_lock
    | Test                    // the predicate, mutex held
    | Blocked                 // in the condition variable, mutex released
    | Relock                  // notified or woken without cause
    | TimedOut                // likewise, the time is over
    | LastTest
    | Done(result: bool)

  // The deliverer.
  datatype Disarmer =
    | Idle
    | Check                   // if (!sync) return
    | ClearSync | SetRdy
    | Acquire | Notify | Release

  datatype Holder = Free | WaiterHolds | DisarmerHolds

  // served: a disarm that found the flag set has returned.
  datatype State = State(sync: bool, rdy: bool, m: Holder, w: Waiter, d: Disarmer, served: bool)

  const INIT := State(false, false, Free, ArmSync, Idle, false)

  datatype Move = WaiterMoves | WaiterTimesOut | WaiterWakes | DisarmerMoves

  predicate Enabled(s: State, move: Move) {
    match move
    case WaiterMoves => !s.w.Blocked? && !s.w.Done? && (s.w in {Lock, Relock, TimedOut} ==> s.m == Free)
    case WaiterTimesOut => s.w == Blocked
    case WaiterWakes => s.w == Blocked
    case DisarmerMoves => s.d == Acquire ==> s.m == Free
  }

  function Step(s: State, move: Move): State
    requires Enabled(s, move)
  {
    match move
    case WaiterTimesOut => s.(w := TimedOut)
    case WaiterWakes => s.(w := Relock)
    case WaiterMoves => (
      match s.w
      case ArmSync => s.(sync := true, w := ArmRdy)
      case ArmRdy => s.(rdy := false, w := CheckSync)
      case CheckSync => s.(w := if s.sync then Lock else Done(false))
      case Lock => s.(m := WaiterHolds, w := Test)
      case Relock => s.(m := WaiterHolds, w := Test)
      case TimedOut => s.(m := WaiterHolds, w := LastTest)
      case Test => s.(m := Free, w := if s.rdy then Done(true) else Blocked)
      case LastTest => s.(m := Free, w := Done(s.rdy))
    )
    case DisarmerMoves =>
      match s.d
      case Idle => s.(d := Check)
      case Check => s.(d := if s.sync then ClearSync else Idle)
      case ClearSync => s.(sync := false, d := SetRdy)
      case SetRdy => s.(rdy := true, d := Acquire)
      case Acquire => s.(m := DisarmerHolds, d := Notify)
      case Notify => s.(w := if s.w == Blocked then Relock else s.w, d := Release)
      case Release => s.(m := Free, d := Idle, served := true)
  }

  function Run(s: State, schedule: seq<Move>): State
    decreases |schedule|
  {
    if schedule == [] then s
    else Run(if Enabled(s, schedule[0]) then Step(s, schedule[0]) else s, schedule[1..])
  }

  // The waiter found the flag set, and will not see it cleared.
  predicate Entered(s: State) {
    s.w in {Lock, Test, Blocked, Relock, TimedOut, LastTest}
  }

  // The disarmer has set `rdy`, or did so in an earlier call.
  predicate WasSet(s: State) {
    s.d in {Acquire, Notify, Release} || s.served
  }

  ghost predicate Inv(s: State) {
    && (s.m == WaiterHolds <==> s.w in {Test, LastTest})
    && (s.m == DisarmerHolds <==> s.d in {Notify, Release})
    && (s.w == ArmSync ==> !s.sync && s.d in {Idle, Check} && !s.served)
    && (s.d in {SetRdy} || WasSet(s) ==> !s.sync)
    && (s.served ==> s.d in {Idle, Check})
    && (WasSet(s) && Entered(s) ==> s.rdy)
    && (s.d == Release || s.served ==> s.w != Blocked)
  }

  lemma StepInv(s: State, move: Move)
    requires Inv(s) && Enabled(s, move)
    ensures Inv(Step(s, move))
  {}

  lemma {:induction false} RunInv(s: State, schedule: seq<Move>)
    requires Inv(s)
    ensures Inv(Run(s, schedule))
    decreases |schedule|
  {
    if schedule != [] {
      if Enabled(s, schedule[0]) { StepInv(s, schedule[0]); }
      RunInv(if Enabled(s, schedule[0]) then Step(s, schedule[0]) else s, schedule[1..]);
    }
  }

  /**
    No lost wakeup: after a disarm that found the request armed, the waiter is not left in the condition variable, and
    the next test of its predicate succeeds.
   */
  lemma NoLostWakeup(schedule: seq<Move>)
    ensures var s := Run(INIT, schedule); s.served ==> s.w != Blocked && (Entered(s) ==> s.rdy) && !s.sync
  {
    RunInv(INIT, schedule);
  }

  // How many steps of its own the waiter is from the end, if it need not block.
  function Distance(w: Waiter): nat {
    match w
    case ArmSync => 6 case ArmRdy => 5 case CheckSync => 4 case Blocked => 3
    case Lock => 2 case Relock => 2 case TimedOut => 2
    case Test => 1 case LastTest => 1 case Done(_) => 0
  }

  function WaiterSteps(n: nat): (r: seq<Move>)
    ensures |r| == n
  {
    seq(n, _ => WaiterMoves)
  }

  lemma WaiterAlone(s: State)
    requires Inv(s) && s.served && !s.w.Done?
    ensures Enabled(s, WaiterMoves)
    ensures Distance(Step(s, WaiterMoves).w) < Distance(s.w) && Step(s, WaiterMoves).served
    ensures Entered(s) ==> Entered(Step(s, WaiterMoves)) || Step(s, WaiterMoves).w == Done(true)
    ensures s.w in {ArmSync, ArmRdy, CheckSync} ==> Step(s, WaiterMoves).w in {CheckSync, Done(false)}
  {}

  /** What the waiter then returns: true if it had found the flag set, false if it comes too late to see it. */
  lemma {:induction false} WaiterReturns(s: State)
    returns (n: nat)
    requires Inv(s) && s.served
    ensures n <= Distance(s.w)
    ensures var e := Run(s, WaiterSteps(n)).w;
      e.Done? && (Entered(s) ==> e == Done(true)) && (s.w in {ArmSync, ArmRdy, CheckSync} ==> e == Done(false))
    decreases Distance(s.w)
  {
    if s.w.Done? {
      n := 0;
    } else {
      WaiterAlone(s);
      StepInv(s, WaiterMoves);
      var k := WaiterReturns(Step(s, WaiterMoves));
      n := k + 1;
      assert WaiterSteps(n)[1..] == WaiterSteps(k);
    }
  }

  // ------------------------------------------------------- what the returned value means

  ghost function StateAt(schedule: seq<Move>, n: nat): State
    requires n <= |schedule|
  {
    Run(INIT, schedule[..n])
  }

  lemma {:induction false} RunSnoc(s: State, schedule: seq<Move>, m: Move)
    ensures var z := Run(s, schedule); Run(s, schedule + [m]) == if Enabled(z, m) then Step(z, m) else z
    decreases |schedule|
  {
    if schedule == [] {
      assert ([] + [m])[0] == m && ([] + [m])[1..] == [];
    } else {
      assert (schedule + [m])[0] == schedule[0] && (schedule + [m])[1..] == schedule[1..] + [m];
      RunSnoc(if Enabled(s, schedule[0]) then Step(s, schedule[0]) else s, schedule[1..], m);
    }
  }

  lemma NextState(schedule: seq<Move>, n: nat)
    requires n < |schedule|
    ensures var s := StateAt(schedule, n);
      StateAt(schedule, n + 1) == if Enabled(s, schedule[n]) then Step(s, schedule[n]) else s
  {
    assert schedule[..n + 1] == schedule[..n] + [schedule[n]];
    RunSnoc(INIT, schedule[..n], schedule[n]);
  }

  // At step n the waiter finds the flag cleared before it has begun to wait.
  ghost predicate ComesLate(schedule: seq<Move>, n: nat) {
    n < |schedule| && schedule[n] == WaiterMoves && StateAt(schedule, n).w == CheckSync && !StateAt(schedule, n).sync
  }

  // At step n its time is over while it is blocked.
  ghost predicate Expires(schedule: seq<Move>, n: nat) {
    n < |schedule| && schedule[n] == WaiterTimesOut && StateAt(schedule, n).w == Blocked
  }

  // At step n it looks at `rdy` with the mutex held, and finds it as told.
  ghost predicate Looks(schedule: seq<Move>, n: nat, found: bool) {
    n < |schedule| && schedule[n] == WaiterMoves &&
    StateAt(schedule, n).m == WaiterHolds && StateAt(schedule, n).rdy == found
  }

  ghost predicate HasLooked(schedule: seq<Move>, n: nat, found: bool) {
    exists k: nat :: k < n && Looks(schedule, k, found)
  }

  ghost predicate HasExpired(schedule: seq<Move>, n: nat) {
    exists k: nat :: k < n && Expires(schedule, k)
  }

  ghost predicate HasComeLate(schedule: seq<Move>, n: nat) {
    exists k: nat :: k < n && ComesLate(schedule, k)
  }

  ghost predicate HasGivenUp(schedule: seq<Move>, n: nat) {
    exists k: nat :: k < n && HasExpired(schedule, k) && Looks(schedule, k, false)
  }

  // What has happened, from where the waiter stands.
  predicate Tells(w: Waiter, looked: bool, expired: bool, late: bool, gaveUp: bool) {
    && (w in {TimedOut, LastTest} ==> expired) && (expired ==> w in {TimedOut, LastTest} || w.Done?)
    && (w == Done(true) <==> looked) && (w == Done(false) <==> late || gaveUp)
  }

  lemma TellsStep(s: State, m: Move, looked: bool, expired: bool, late: bool, gaveUp: bool)
    requires Inv(s) && Tells(s.w, looked, expired, late, gaveUp)
    ensures var z, moves := if Enabled(s, m) then Step(s, m) else s, m == WaiterMoves;
      Tells(z.w, looked || (moves && s.m == WaiterHolds && s.rdy), expired || (m == WaiterTimesOut && s.w == Blocked),
            late || (moves && s.w == CheckSync && !s.sync), gaveUp
                || (expired && moves && s.m == WaiterHolds && !s.rdy))
  {}

  ghost predicate History(schedule: seq<Move>, n: nat)
    requires n <= |schedule|
  {
    Tells(StateAt(schedule, n).w, HasLooked(schedule, n, true), HasExpired(schedule, n), HasComeLate(schedule, n),
          HasGivenUp(schedule, n))
  }

  lemma OneMore(schedule: seq<Move>, n: nat)
    ensures HasLooked(schedule, n + 1, true) <==> HasLooked(schedule, n, true) || Looks(schedule, n, true)
    ensures HasExpired(schedule, n + 1) <==> HasExpired(schedule, n) || Expires(schedule, n)
    ensures HasComeLate(schedule, n + 1) <==> HasComeLate(schedule, n) || ComesLate(schedule, n)
    ensures HasGivenUp(schedule, n + 1) <==>
            HasGivenUp(schedule, n) || (HasExpired(schedule, n) && Looks(schedule, n, false))
  {}

  lemma {:induction false} HistoryHolds(schedule: seq<Move>, n: nat)
    requires n <= |schedule|
    ensures History(schedule, n)
    decreases n
  {
    if n > 0 {
      HistoryHolds(schedule, n - 1);
      OneMore(schedule, n - 1);
      NextState(schedule, n - 1);
      RunInv(INIT, schedule[..n - 1]);
      var k := n - 1;
      TellsStep(StateAt(schedule, k), schedule[k], HasLooked(schedule, k, true), HasExpired(schedule, k),
                HasComeLate(schedule, k), HasGivenUp(schedule, k));
      hide HasLooked, HasExpired, HasComeLate, HasGivenUp, Run, Step;
    }
  }

  // Every `rdy` was set by a `disarm` that found the flag set.
  lemma {:induction false} ReadyMeans(s: State, schedule: seq<Move>)
    requires s.rdy ==> WasSet(s)
    ensures var z := Run(s, schedule); z.rdy ==> WasSet(z)
    decreases |schedule|
  {
    if schedule != [] {
      ReadyMeans(if Enabled(s, schedule[0]) then Step(s, schedule[0]) else s, schedule[1..]);
    }
  }

  /**
    What the returned value of `wait_for` means, in every run. It is true exactly if the waiter has found `rdy` set,
    with the mutex held; then a `disarm` that found the request armed has set it. It is false exactly if the flag
    had been cleared before the wait began, or the time was over while the waiter was blocked and `rdy` still not
    set when it looked for the last time. Otherwise it has not returned.
   */
  lemma ReturnMeans(schedule: seq<Move>)
    ensures var s, n := Run(INIT, schedule), |schedule|;
      && (s.w == Done(true) <==> HasLooked(schedule, n, true))
      && (s.w == Done(true) ==> WasSet(s))
      && (s.w == Done(false) <==> HasComeLate(schedule, n) || HasGivenUp(schedule, n))
  {
    var n := |schedule|;
    HistoryHolds(schedule, n);
    assert schedule[..n] == schedule;
    if Run(INIT, schedule).w == Done(true) { FoundReady(INIT, schedule); }
  }

  // After the waiter has found `rdy` set it stays set.
  lemma {:induction false} FoundReady(s: State, schedule: seq<Move>)
    requires (s.rdy ==> WasSet(s)) && (s.w == Done(true) ==> s.rdy)
    ensures var z := Run(s, schedule); z.w == Done(true) ==> WasSet(z)
    decreases |schedule|
  {
    if schedule != [] {
      FoundReady(if Enabled(s, schedule[0]) then Step(s, schedule[0]) else s, schedule[1..]);
    }
  }

  /** While no response comes and the time is not over the waiter waits, however often it wakes without cause. */
  lemma {:induction false} WaitsForResponse(schedule: seq<Move>)
    requires forall m <- schedule :: m in {WaiterMoves, WaiterWakes}
    ensures !Run(INIT, schedule).w.Done?
  {
    Undisturbed(INIT, schedule);
  }

  lemma {:induction false} Undisturbed(s: State, schedule: seq<Move>)
    requires !s.rdy && !s.w.Done? && s.w !in {TimedOut, LastTest} && (s.w == ArmSync || s.sync)
    requires forall m <- schedule :: m in {WaiterMoves, WaiterWakes}
    ensures !Run(s, schedule).w.Done?
    decreases |schedule|
  {
    if schedule != [] {
      assert schedule[0] in schedule && forall m <- schedule[1..] :: m in schedule;
      Undisturbed(if Enabled(s, schedule[0]) then Step(s, schedule[0]) else s, schedule[1..]);
    }
  }

  /**
    A response that comes between the two assignments of `arm`, or before the test, is lost: the request returns false
    at once, although its flag was set and a `disarm` has been served.
   */
  lemma EarlyResponseLost()
    ensures var s := Run(INIT, [WaiterMoves, DisarmerMoves, DisarmerMoves, DisarmerMoves, DisarmerMoves, DisarmerMoves,
                                DisarmerMoves, DisarmerMoves, WaiterMoves, WaiterMoves]);
      s.served && s.w == Done(false) && !s.rdy
  {
    var a := Step(INIT, WaiterMoves);
    var b := Step(Step(Step(a, DisarmerMoves), DisarmerMoves), DisarmerMoves);
    var c := Step(Step(Step(Step(b, DisarmerMoves), DisarmerMoves), DisarmerMoves), DisarmerMoves);
    assert c == State(false, true, Free, ArmRdy, Idle, true);
    var d := Step(Step(c, WaiterMoves), WaiterMoves);
    assert d.w == Done(false);
  }
}
