/**
  The readers/writer lock `klock_c`: three semaphores created with the value one
  and a counter, shared by any number of threads.  Every semaphore operation and
  every access to the counter is one atomic step; a state is the four shared
  words together with each thread's position in the operation it is executing.
 */
module RwLock {
  import opened Sums

  type Tid = nat

  /** Where a thread stands: the statement it executes next. */
  datatype Pc =
    | Idle
    // shLockAcquire
    | RdWaitPriv | RdTryEx | RdWaitSh | RdTest | RdUnlockSh | RdWaitEx
    | RdJoinWaitSh | RdJoinBump | RdJoinPostSh   // owns exLock, joins the count
    | RdShareBump | RdSharePostSh                // other readers own exLock
    | RdPostPriv
    | Reading
    // shLockRelease
    | RelWaitSh | RelTest | RelClear | RelPostEx | RelDec | RelPostSh(rtn: int)
    // exLockAcquire
    | WrWaitEx
    | Writing
    // exLockRelease
    | WrWaitSh | WrTest | WrPostEx | WrPostSh(rtn: int)

  datatype State = State(shLockPriv: nat, shLock: nat, exLock: nat, shLockCnt: int, pc: map<Tid, Pc>)

  /** What a thread does when it is scheduled: go on, or call an acquire operation when idle. */
  datatype Choice = Go | CallShared | CallExclusive

  ghost predicate Init(s: State) {
    && s.shLockPriv == 1 && s.shLock == 1 && s.exLock == 1 && s.shLockCnt == 0
    && forall t <- s.pc :: s.pc[t] == Idle
  }

  // The semaphore a thread is about to wait for, as a test whether it may proceed.
  predicate Blocked(s: State, p: Pc) {
    match p
    case RdWaitPriv => s.shLockPriv == 0
    case RdWaitSh | RdJoinWaitSh | RelWaitSh | WrWaitSh => s.shLock == 0
    case RdWaitEx | WrWaitEx => s.exLock == 0
    case _ => false
  }

  predicate Enabled(s: State, t: Tid, c: Choice) {
    t in s.pc && if s.pc[t] == Idle then c != Go else c == Go && !Blocked(s, s.pc[t])
  }

  // The effect on the shared words of the statement at `p`, and the position after it.
  function Exec(s: State, p: Pc): (State, Pc)
    requires p != Idle && !Blocked(s, p)
  {
    match p
    case RdWaitPriv => (s.(shLockPriv := s.shLockPriv - 1), RdTryEx)
    case RdTryEx => if s.exLock == 0 then (s, RdWaitSh) else (s.(exLock := s.exLock - 1), RdJoinWaitSh)
    case RdWaitSh => (s.(shLock := s.shLock - 1), RdTest)
    case RdTest => (s, if s.shLockCnt <= 0 then RdUnlockSh else RdShareBump)
    case RdUnlockSh => (s.(shLock := s.shLock + 1), RdWaitEx)
    case RdWaitEx => (s.(exLock := s.exLock - 1), RdJoinWaitSh)
    case RdJoinWaitSh => (s.(shLock := s.shLock - 1), RdJoinBump)
    case RdJoinBump => (s.(shLockCnt := s.shLockCnt + 1), RdJoinPostSh)
    case RdJoinPostSh => (s.(shLock := s.shLock + 1), RdPostPriv)
    case RdShareBump => (s.(shLockCnt := s.shLockCnt + 1), RdSharePostSh)
    case RdSharePostSh => (s.(shLock := s.shLock + 1), RdPostPriv)
    case RdPostPriv => (s.(shLockPriv := s.shLockPriv + 1), Reading)
    case Reading => (s, RelWaitSh)
    case RelWaitSh => (s.(shLock := s.shLock - 1), RelTest)
    case RelTest =>
      (s, if s.shLockCnt == 1 then RelClear else if s.shLockCnt > 1 then RelDec else RelPostSh(-1))
    case RelClear => (s.(shLockCnt := 0), RelPostEx)
    case RelPostEx => (s.(exLock := s.exLock + 1), RelPostSh(0))
    case RelDec => (s.(shLockCnt := s.shLockCnt - 1), RelPostSh(0))
    case RelPostSh(_) => (s.(shLock := s.shLock + 1), Idle)
    case WrWaitEx => (s.(exLock := s.exLock - 1), Writing)
    case Writing => (s, WrWaitSh)
    case WrWaitSh => (s.(shLock := s.shLock - 1), WrTest)
    case WrTest => (s, if s.shLockCnt == 0 then WrPostEx else WrPostSh(-1))
    case WrPostEx => (s.(exLock := s.exLock + 1), WrPostSh(0))
    case WrPostSh(_) => (s.(shLock := s.shLock + 1), Idle)
  }

  function Step(s: State, t: Tid, c: Choice): State
    requires Enabled(s, t, c)
  {
    if s.pc[t] == Idle then
      s.(pc := s.pc[t := if c == CallShared then RdWaitPriv else WrWaitEx])
    else
      var (s', p') := Exec(s, s.pc[t]);
      s'.(pc := s.pc[t := p'])
  }

  /** Runs a schedule; an entry that names a thread that cannot move is skipped. */
  function Run(s: State, schedule: seq<(Tid, Choice)>): State
    decreases |schedule|
  {
    if schedule == [] then s
    else
      var (t, c) := schedule[0];
      Run(if Enabled(s, t, c) then Step(s, t, c) else s, schedule[1..])
  }

  // ---------------------------------------------------------------- invariant

  predicate HoldsPriv(p: Pc) {
    p.RdTryEx? || p.RdWaitSh? || p.RdTest? || p.RdUnlockSh? || p.RdWaitEx? || p.RdJoinWaitSh? ||
    p.RdJoinBump? || p.RdJoinPostSh? || p.RdShareBump? || p.RdSharePostSh? || p.RdPostPriv?
  }

  predicate HoldsSh(p: Pc) {
    p.RdTest? || p.RdUnlockSh? || p.RdJoinBump? || p.RdJoinPostSh? || p.RdShareBump? || p.RdSharePostSh? ||
    p.RelTest? || p.RelClear? || p.RelPostEx? || p.RelDec? || p.RelPostSh? ||
    p.WrTest? || p.WrPostEx? || p.WrPostSh?
  }

  // Threads that own the exLock token by themselves: writers, a reader between taking exLock and
  // bumping the count, and the last reader between clearing the count and posting exLock.
  predicate OwnsEx(p: Pc) {
    p.RdJoinWaitSh? || p.RdJoinBump? || p.RelPostEx? ||
    p.Writing? || p.WrWaitSh? || p.WrTest? || p.WrPostEx?
  }

  // Threads included in shLockCnt.
  predicate Counted(p: Pc) {
    p.RdJoinPostSh? || p.RdSharePostSh? || p.RdPostPriv? || p.Reading? ||
    p.RelWaitSh? || p.RelTest? || p.RelClear? || p.RelDec?
  }

  ghost function At(pc: map<Tid, Pc>, p: Pc -> bool): set<Tid> {
    set t <- pc | p(pc[t])
  }

  // What a position says about the count and about the value being returned.
  predicate LocalFacts(s: State, p: Pc) {
    && (p.RdShareBump? ==> s.shLockCnt > 0)
    && (p.RelClear? ==> s.shLockCnt == 1)
    && (p.RelDec? ==> s.shLockCnt > 1)
    && (p.WrPostEx? ==> s.shLockCnt == 0)
    && (p.RelPostSh? || p.WrPostSh? ==> p.rtn == 0)
  }

  ghost predicate Inv(s: State) {
    && s.shLockPriv + |At(s.pc, HoldsPriv)| == 1
    && s.shLock + |At(s.pc, HoldsSh)| == 1
    && s.exLock + |At(s.pc, OwnsEx)| + (if s.shLockCnt > 0 then 1 else 0) == 1
    && s.shLockCnt == |At(s.pc, Counted)|
    && forall t <- s.pc :: LocalFacts(s, s.pc[t])
  }

  // One thread moving changes a headcount by the difference at that thread only.
  lemma AtUpdate(pc: map<Tid, Pc>, t: Tid, p': Pc, p: Pc -> bool)
    requires t in pc
    ensures |At(pc[t := p'], p)| ==
            |At(pc, p)| - (if p(pc[t]) then 1 else 0) + (if p(p') then 1 else 0)
  {
    var rest := At(pc, p) - {t};
    assert At(pc, p) == if p(pc[t]) then rest + {t} else rest;
    assert At(pc[t := p'], p) == if p(p') then rest + {t} else rest;
  }

  lemma AtPair(pc: map<Tid, Pc>, p: Pc -> bool, t: Tid, u: Tid)
    requires t in pc && u in pc && p(pc[t]) && p(pc[u])
    ensures t != u ==> |At(pc, p)| >= 2
  {
    var rest := At(pc, p) - {t};
    assert At(pc, p) == rest + {t};
    assert t != u ==> u in rest;
  }

  lemma AtNonEmpty(pc: map<Tid, Pc>, p: Pc -> bool, t: Tid)
    requires t in pc && p(pc[t])
    ensures |At(pc, p)| >= 1
  {
    assert t in At(pc, p);
  }

  lemma AtEmpty(pc: map<Tid, Pc>, p: Pc -> bool)
    requires forall t <- pc :: !p(pc[t])
    ensures At(pc, p) == {}
  {}

  lemma InitInv(s: State)
    requires Init(s)
    ensures Inv(s)
  {
    AtEmpty(s.pc, HoldsPriv);
    AtEmpty(s.pc, HoldsSh);
    AtEmpty(s.pc, OwnsEx);
    AtEmpty(s.pc, Counted);
  }

  function Count(b: bool): nat {
    if b then 1 else 0
  }

  // What a statement does to the tokens, from the shared words and its own position alone.
  lemma ExecPriv(s: State, p: Pc)
    requires p != Idle && !Blocked(s, p)
    ensures var (s', p') := Exec(s, p);
      s'.shLockPriv + Count(HoldsPriv(p')) == s.shLockPriv + Count(HoldsPriv(p))
  {}

  lemma ExecSh(s: State, p: Pc)
    requires p != Idle && !Blocked(s, p)
    ensures var (s', p') := Exec(s, p);
      s'.shLock + Count(HoldsSh(p')) == s.shLock + Count(HoldsSh(p))
  {}

  lemma ExecCnt(s: State, p: Pc)
    requires p != Idle && !Blocked(s, p) && LocalFacts(s, p) && s.shLockCnt >= 0
    requires Counted(p) ==> s.shLockCnt >= 1
    ensures var (s', p') := Exec(s, p);
      s'.shLockCnt - Count(Counted(p')) == s.shLockCnt - Count(Counted(p))
  {}

  lemma ExecEx(s: State, p: Pc)
    requires p != Idle && !Blocked(s, p) && LocalFacts(s, p) && s.shLockCnt >= 0
    requires OwnsEx(p) ==> s.shLockCnt == 0
    ensures var (s', p') := Exec(s, p);
      s'.exLock + Count(OwnsEx(p')) + Count(s'.shLockCnt > 0) == s.exLock + Count(OwnsEx(p)) + Count(s.shLockCnt > 0)
  {}

  lemma StepPriv(s: State, t: Tid, c: Choice)
    requires Inv(s) && Enabled(s, t, c)
    ensures var s' := Step(s, t, c); s'.shLockPriv + |At(s'.pc, HoldsPriv)| == 1
  {
    if s.pc[t] != Idle { ExecPriv(s, s.pc[t]); }
    AtUpdate(s.pc, t, Step(s, t, c).pc[t], HoldsPriv);
  }

  lemma StepSh(s: State, t: Tid, c: Choice)
    requires Inv(s) && Enabled(s, t, c)
    ensures var s' := Step(s, t, c); s'.shLock + |At(s'.pc, HoldsSh)| == 1
  {
    if s.pc[t] != Idle { ExecSh(s, s.pc[t]); }
    AtUpdate(s.pc, t, Step(s, t, c).pc[t], HoldsSh);
  }

  lemma StepCnt(s: State, t: Tid, c: Choice)
    requires Inv(s) && Enabled(s, t, c)
    ensures var s' := Step(s, t, c); s'.shLockCnt == |At(s'.pc, Counted)|
  {
    if s.pc[t] != Idle {
      if Counted(s.pc[t]) { AtNonEmpty(s.pc, Counted, t); }
      ExecCnt(s, s.pc[t]);
    }
    AtUpdate(s.pc, t, Step(s, t, c).pc[t], Counted);
  }

  lemma StepEx(s: State, t: Tid, c: Choice)
    requires Inv(s) && Enabled(s, t, c)
    ensures var s' := Step(s, t, c);
      s'.exLock + |At(s'.pc, OwnsEx)| + (if s'.shLockCnt > 0 then 1 else 0) == 1
  {
    if s.pc[t] != Idle {
      if OwnsEx(s.pc[t]) { AtNonEmpty(s.pc, OwnsEx, t); }
      ExecEx(s, s.pc[t]);
    }
    AtUpdate(s.pc, t, Step(s, t, c).pc[t], OwnsEx);
  }

  lemma StepFacts(s: State, t: Tid, c: Choice, u: Tid)
    requires Inv(s) && Enabled(s, t, c) && u in s.pc
    ensures var s' := Step(s, t, c); LocalFacts(s', s'.pc[u])
  {
    assert LocalFacts(s, s.pc[u]);
    if u == t {
      if OwnsEx(s.pc[t]) { AtNonEmpty(s.pc, OwnsEx, t); }
      if Counted(s.pc[t]) { AtNonEmpty(s.pc, Counted, t); }
    } else if HoldsSh(s.pc[u]) && HoldsSh(s.pc[t]) {
      AtPair(s.pc, HoldsSh, t, u);
    }
  }

  /** Every atomic step of every thread keeps the invariant. */
  lemma StepInv(s: State, t: Tid, c: Choice)
    requires Inv(s) && Enabled(s, t, c)
    ensures Inv(Step(s, t, c))
  {
    StepPriv(s, t, c);
    StepSh(s, t, c);
    StepCnt(s, t, c);
    StepEx(s, t, c);
    var s' := Step(s, t, c);
    forall u <- s'.pc ensures LocalFacts(s', s'.pc[u]) {
      StepFacts(s, t, c, u);
    }
  }

  lemma {:induction false} RunInv(s: State, schedule: seq<(Tid, Choice)>)
    requires Inv(s)
    ensures Inv(Run(s, schedule))
    decreases |schedule|
  {
    if schedule != [] {
      var (t, c) := schedule[0];
      if Enabled(s, t, c) {
        StepInv(s, t, c);
        RunInv(Step(s, t, c), schedule[1..]);
      } else {
        RunInv(s, schedule[1..]);
      }
    }
  }

  // ------------------------------------------------------------- main results

  ghost predicate Exclusive(s: State) {
    forall t, u :: t in s.pc && u in s.pc && t != u && s.pc[t].Writing? ==>
      !s.pc[u].Writing? && !s.pc[u].Reading?
  }

  /**
    From the initial state and under every schedule of any set of threads: no writer
    coexists with a reader or another writer, the counter is the number of counted readers,
    the semaphores stay binary, and both release operations return 0.
   */
  lemma Safety(s: State, schedule: seq<(Tid, Choice)>)
    requires Init(s)
    ensures var z := Run(s, schedule);
      && Exclusive(z)
      && z.shLockCnt == |At(z.pc, Counted)|
      && z.shLockPriv <= 1 && z.shLock <= 1 && z.exLock <= 1
      && (forall t <- z.pc :: z.pc[t].WrPostSh? || z.pc[t].RelPostSh? ==> z.pc[t].rtn == 0)
  {
    InitInv(s);
    RunInv(s, schedule);
    var z := Run(s, schedule);
    forall t, u | t in z.pc && u in z.pc && t != u && z.pc[t].Writing?
      ensures !z.pc[u].Writing? && !z.pc[u].Reading?
    {
      AtNonEmpty(z.pc, OwnsEx, t);
      if z.pc[u].Writing? { AtPair(z.pc, OwnsEx, t, u); }
      if z.pc[u].Reading? { AtNonEmpty(z.pc, Counted, u); }
    }
    forall t <- z.pc ensures z.pc[t].WrPostSh? || z.pc[t].RelPostSh? ==> z.pc[t].rtn == 0 {
      assert LocalFacts(z, z.pc[t]);
    }
  }

  // Somebody who is counted by `p`.
  lemma Witness(pc: map<Tid, Pc>, p: Pc -> bool) returns (t: Tid)
    requires |At(pc, p)| >= 1
    ensures t in pc && p(pc[t])
  {
    t :| t in At(pc, p);
  }

  // A thread that needs shLock can move, or the thread that holds shLock can.
  lemma ShLockProgress(s: State, t: Tid) returns (u: Tid)
    requires Inv(s) && t in s.pc && s.pc[t] != Idle
    requires !Blocked(s, s.pc[t]) || s.pc[t].RdWaitSh? || s.pc[t].RdJoinWaitSh? || s.pc[t].RelWaitSh?
        || s.pc[t].WrWaitSh?
    ensures Enabled(s, u, Go)
  {
    u := t;
    if Blocked(s, s.pc[t]) {
      u := Witness(s.pc, HoldsSh);
    }
  }

  // A thread that needs exLock can move, or some thread on the way to giving exLock back can.
  lemma ExLockProgress(s: State, t: Tid) returns (u: Tid)
    requires Inv(s) && t in s.pc && s.pc[t] != Idle && !s.pc[t].RdWaitPriv?
    ensures Enabled(s, u, Go)
  {
    if Blocked(s, s.pc[t]) && (s.pc[t].RdWaitEx? || s.pc[t].WrWaitEx?) {
      if s.shLockCnt > 0 {
        u := Witness(s.pc, Counted);
      } else {
        u := Witness(s.pc, OwnsEx);
      }
      u := ShLockProgress(s, u);
    } else {
      u := ShLockProgress(s, t);
    }
  }

  /**
    No deadlock: while some operation is unfinished or the lock is held, some thread that is
    not idle can take a step (a thread inside its critical section may always start its release).
   */
  lemma NoDeadlock(s: State, t: Tid) returns (u: Tid)
    requires Inv(s) && t in s.pc && s.pc[t] != Idle
    ensures Enabled(s, u, Go)
  {
    if s.pc[t].RdWaitPriv? && Blocked(s, s.pc[t]) {
      u := Witness(s.pc, HoldsPriv);
      u := ExLockProgress(s, u);
    } else if s.pc[t].RdWaitPriv? {
      u := t;
    } else {
      u := ExLockProgress(s, t);
    }
  }

  // Statements left before the thread is idle again, counting the longest way.
  function Remaining(p: Pc): nat {
    match p
    case Idle => 0
    case RelPostSh(_) => 1
    case RelPostEx | RelDec => 2
    case RelClear => 3
    case RelTest => 4
    case RelWaitSh => 5
    case Reading => 6
    case RdPostPriv => 7
    case RdJoinPostSh | RdSharePostSh => 8
    case RdJoinBump | RdShareBump => 9
    case RdJoinWaitSh => 10
    case RdWaitEx => 11
    case RdUnlockSh => 12
    case RdTest => 13
    case RdWaitSh => 14
    case RdTryEx => 15
    case RdWaitPriv => 16
    case WrPostSh(_) => 1
    case WrPostEx => 2
    case WrTest => 3
    case WrWaitSh => 4
    case Writing => 5
    case WrWaitEx => 6
  }

  ghost function Work(pc: map<Tid, Pc>): nat {
    Sum(pc, Remaining)
  }

  lemma ExecUsesWork(s: State, p: Pc)
    requires p != Idle && !Blocked(s, p)
    ensures Remaining(Exec(s, p).1) < Remaining(p)
  {}

  // A step of a thread that is not idle uses up work.
  lemma StepWork(s: State, t: Tid)
    requires Enabled(s, t, Go)
    ensures Step(s, t, Go).pc.Keys == s.pc.Keys
    ensures Work(Step(s, t, Go).pc) < Work(s.pc)
  {
    var p' := Exec(s, s.pc[t]).1;
    ExecUsesWork(s, s.pc[t]);
    assert Step(s, t, Go).pc == s.pc[t := p'];
    SumUpdate(s.pc, Remaining, t, p');
  }

  ghost predicate AllIdle(s: State) {
    forall t <- s.pc :: s.pc[t] == Idle
  }

  /**
    Every unfinished operation can be finished: from every state that satisfies the invariant
    there is a schedule, without any new acquire, that ends with every thread idle and the lock
    as new.  Since each step uses up work, every schedule that keeps moving gets there.
   */
  lemma {:induction false} Drain(s: State) returns (schedule: seq<(Tid, Choice)>)
    requires Inv(s)
    ensures forall e <- schedule :: e.1 == Go
    ensures var z := Run(s, schedule);
      && z.pc.Keys == s.pc.Keys && Init(z)
    decreases Work(s.pc)
  {
    if AllIdle(s) {
      AtEmpty(s.pc, HoldsPriv);
      AtEmpty(s.pc, HoldsSh);
      AtEmpty(s.pc, OwnsEx);
      AtEmpty(s.pc, Counted);
      schedule := [];
    } else {
      var t :| t in s.pc && s.pc[t] != Idle;
      var u := NoDeadlock(s, t);
      StepInv(s, u, Go);
      StepWork(s, u);
      var rest := Drain(Step(s, u, Go));
      schedule := [(u, Go)] + rest;
      assert schedule[1..] == rest;
    }
  }

  // Every entry of the schedule is a move of a thread that is not idle.
  ghost predicate KeepsMoving(s: State, schedule: seq<(Tid, Choice)>)
    decreases |schedule|
  {
    schedule == [] ||
    (schedule[0].1 == Go && Enabled(s, schedule[0].0, Go) &&
     KeepsMoving(Step(s, schedule[0].0, Go), schedule[1..]))
  }

  /** Without new acquires the lock cannot be kept busy: the number of steps is bounded by the work at hand. */
  lemma {:induction false} NoLivelock(s: State, schedule: seq<(Tid, Choice)>)
    requires KeepsMoving(s, schedule)
    ensures |schedule| <= Work(s.pc)
    decreases |schedule|
  {
    if schedule != [] {
      StepWork(s, schedule[0].0);
      NoLivelock(Step(s, schedule[0].0, Go), schedule[1..]);
    }
  }

  // ------------------------------------------------------------- a thread alone

  // The operation thread t is in, as far as it comes while no other thread moves.
  function Finish(s: State, t: Tid): State
    requires t in s.pc
    decreases Remaining(s.pc[t])
  {
    if s.pc[t] in {Idle, Reading, Writing} || Blocked(s, s.pc[t]) then s
    else
      ExecUsesWork(s, s.pc[t]);
      Finish(Step(s, t, Go), t)
  }

  // It is a run in which t alone is scheduled.
  lemma {:induction false} FinishIsRun(s: State, t: Tid) returns (n: nat)
    requires t in s.pc
    ensures Finish(s, t) == Run(s, seq(n, _ => (t, Go)))
    decreases Remaining(s.pc[t])
  {
    if s.pc[t] in {Idle, Reading, Writing} || Blocked(s, s.pc[t]) {
      n := 0;
    } else {
      ExecUsesWork(s, s.pc[t]);
      var k := FinishIsRun(Step(s, t, Go), t);
      n := k + 1;
      var moves := seq(n, _ => (t, Go));
      assert moves[0] == (t, Go) && moves[1..] == seq(k, _ => (t, Go));
    }
  }

  function Place(s: State, t: Tid, p: Pc): State {
    s.(pc := s.pc[t := p])
  }

  lemma FinishPlace(s: State, t: Tid, p: Pc)
    ensures Finish(Place(s, t, p), t) ==
            if p in {Idle, Reading, Writing} || Blocked(s, p) then Place(s, t, p)
            else Finish(Place(Exec(s, p).0, t, Exec(s, p).1), t)
  {
    if p !in {Idle, Reading, Writing} && !Blocked(s, p) {
      var (w, q) := Exec(s, p);
      assert w.pc == s.pc && s.pc[t := p][t := q] == s.pc[t := q];
      assert Step(Place(s, t, p), t, Go) == Place(w, t, q) by { ExecPlace(s, t, p); }
    }
  }

  // A statement neither reads nor changes the positions.
  lemma ExecPlace(s: State, t: Tid, p: Pc)
    requires p != Idle && !Blocked(s, p)
    ensures !Blocked(Place(s, t, p), p)
    ensures Exec(Place(s, t, p), p).1 == Exec(s, p).1 && Exec(Place(s, t, p), p).0 == Place(Exec(s, p).0, t, p)
  {}

  // One statement on, given what it does.
  lemma Through(s: State, t: Tid, p: Pc, w: State, q: Pc)
    requires p !in {Idle, Reading, Writing} && !Blocked(s, p) && Exec(s, p) == (w, q)
    ensures Finish(Place(s, t, p), t) == Finish(Place(w, t, q), t)
  {
    FinishPlace(s, t, p);
  }

  // An operation that has ended, or is blocked.
  lemma Stopped(s: State, t: Tid, p: Pc)
    requires p in {Idle, Reading, Writing} || Blocked(s, p)
    ensures Finish(Place(s, t, p), t) == Place(s, t, p)
  {}

  lemma LeaveInner(s: State, t: Tid)
    ensures Finish(Place(s, t, RdPostPriv), t) == Place(s.(shLockPriv := s.shLockPriv + 1), t, Reading)
  {
    Through(s, t, RdPostPriv, s.(shLockPriv := s.shLockPriv + 1), Reading);
    Stopped(s.(shLockPriv := s.shLockPriv + 1), t, Reading);
  }

  // Counting oneself in, with shLock held.
  lemma Bump(s: State, t: Tid, p: Pc)
    requires p == RdJoinBump || p == RdShareBump
    ensures Finish(Place(s, t, p), t) ==
            Place(s.(shLockCnt := s.shLockCnt + 1, shLock := s.shLock + 1, shLockPriv := s.shLockPriv + 1), t, Reading)
  {
    hide Finish;
    var b := s.(shLockCnt := s.shLockCnt + 1);
    var c := b.(shLock := s.shLock + 1);
    Through(s, t, p, b, if p == RdJoinBump then RdJoinPostSh else RdSharePostSh);
    Through(b, t, if p == RdJoinBump then RdJoinPostSh else RdSharePostSh, c, RdPostPriv);
    LeaveInner(c, t);
  }

  // The way into the count once exLock is owned.
  lemma JoinAlone(s: State, t: Tid)
    ensures Finish(Place(s, t, RdJoinWaitSh), t) ==
            if s.shLock == 0 then Place(s, t, RdJoinWaitSh)
            else Place(s.(shLockCnt := s.shLockCnt + 1, shLockPriv := s.shLockPriv + 1), t, Reading)
  {
    hide Finish;
    if s.shLock > 0 {
      var a := s.(shLock := s.shLock - 1);
      Through(s, t, RdJoinWaitSh, a, RdJoinBump);
      Bump(a, t, RdJoinBump);
    } else {
      Stopped(s, t, RdJoinWaitSh);
    }
  }

  // The way into the count when exLock is taken.
  lemma ShareAlone(s: State, t: Tid)
    requires s.exLock == 0
    ensures var z := Finish(Place(s, t, RdWaitSh), t);
      if s.shLock > 0 && s.shLockCnt > 0 then
        z == Place(s.(shLockCnt := s.shLockCnt + 1, shLockPriv := s.shLockPriv + 1), t, Reading)
      else t in z.pc && z.pc[t] in {RdWaitSh, RdWaitEx} && Blocked(z, z.pc[t])
  {
    hide Finish;
    if s.shLock == 0 {
      Stopped(s, t, RdWaitSh);
    } else {
      var a := s.(shLock := s.shLock - 1);
      Through(s, t, RdWaitSh, a, RdTest);
      if s.shLockCnt > 0 {
        Through(a, t, RdTest, a, RdShareBump);
        Bump(a, t, RdShareBump);
      } else {
        Through(a, t, RdTest, a, RdUnlockSh);
        Through(a, t, RdUnlockSh, s, RdWaitEx);
        Stopped(s, t, RdWaitEx);
      }
    }
  }

  // What a reader's acquire comes to.
  ghost predicate Joined(s: State, t: Tid, z: State) {
    z == Place(s.(shLockCnt := s.shLockCnt + 1, exLock := if s.exLock > 0 then s.exLock - 1 else 0), t, Reading)
  }

  /**
    Readers share the lock.  An idle thread that calls shLockAcquire while no other thread moves becomes a reader
    exactly if the two inner semaphores are free and exLock is free or readers are counted; then it is counted, and
    takes exLock if it is the first.  Else it is blocked.
   */
  lemma ReaderAlone(s: State, t: Tid)
    requires t in s.pc && s.pc[t] == Idle
    ensures var z := Finish(Step(s, t, CallShared), t);
      if s.shLockPriv > 0 && s.shLock > 0 && (s.exLock > 0 || s.shLockCnt > 0) then Joined(s, t, z)
      else t in z.pc && z.pc[t] !in {Idle, Reading, Writing} && Blocked(z, z.pc[t])
  {
    hide Finish;
    FinishPlace(s, t, RdWaitPriv);
    if s.shLockPriv > 0 {
      var a := s.(shLockPriv := s.shLockPriv - 1);
      FinishPlace(a, t, RdTryEx);
      if s.exLock > 0 { JoinAlone(a.(exLock := s.exLock - 1), t); } else { ShareAlone(a, t); }
    }
  }

  /** A writer alone gets the lock exactly if exLock is free. */
  lemma WriterAlone(s: State, t: Tid)
    requires t in s.pc && s.pc[t] == Idle
    ensures Finish(Step(s, t, CallExclusive), t) ==
            if s.exLock > 0 then Place(s.(exLock := s.exLock - 1), t, Writing) else Place(s, t, WrWaitEx)
  {
    hide Finish;
    FinishPlace(s, t, WrWaitEx);
    if s.exLock > 0 { FinishPlace(s.(exLock := s.exLock - 1), t, Writing); }
  }

  // The test of a reader's release, with shLock held, and what follows.
  lemma ReleaseAlone(s: State, t: Tid)
    requires s.shLockCnt > 0
    ensures Finish(Place(s, t, RelTest), t) ==
            Place(s.(shLock := s.shLock + 1, shLockCnt := s.shLockCnt - 1,
                     exLock := s.exLock + if s.shLockCnt == 1 then 1 else 0), t, Idle)
  {
    hide Finish;
    var b := s.(shLockCnt := s.shLockCnt - 1);
    var c := if s.shLockCnt == 1 then b.(exLock := s.exLock + 1) else b;
    if s.shLockCnt == 1 {
      Through(s, t, RelTest, s, RelClear);
      Through(s, t, RelClear, b, RelPostEx);
      Through(b, t, RelPostEx, c, RelPostSh(0));
    } else {
      Through(s, t, RelTest, s, RelDec);
      Through(s, t, RelDec, b, RelPostSh(0));
    }
    Through(c, t, RelPostSh(0), c.(shLock := s.shLock + 1), Idle);
    Stopped(c.(shLock := s.shLock + 1), t, Idle);
  }

  /** A reader alone leaves exactly if shLock is free; the last one gives exLock back. */
  lemma ReaderLeaves(s: State, t: Tid)
    requires t in s.pc && s.pc[t] == Reading && s.shLockCnt > 0
    ensures Finish(Step(s, t, Go), t) ==
            if s.shLock > 0 then
              Place(s.(shLockCnt := s.shLockCnt - 1, exLock := s.exLock + if s.shLockCnt == 1 then 1 else 0), t, Idle)
            else Place(s, t, RelWaitSh)
  {
    hide Finish;
    if s.shLock > 0 {
      var a := s.(shLock := s.shLock - 1);
      Through(s, t, RelWaitSh, a, RelTest);
      ReleaseAlone(a, t);
    } else {
      Stopped(s, t, RelWaitSh);
    }
  }

  /** A writer alone leaves exactly if shLock is free, and gives exLock back. */
  lemma WriterLeaves(s: State, t: Tid)
    requires t in s.pc && s.pc[t] == Writing && s.shLockCnt == 0
    ensures Finish(Step(s, t, Go), t) ==
            if s.shLock > 0 then Place(s.(exLock := s.exLock + 1), t, Idle) else Place(s, t, WrWaitSh)
  {
    hide Finish;
    if s.shLock > 0 {
      var a := s.(shLock := s.shLock - 1);
      var b := a.(exLock := s.exLock + 1);
      Through(s, t, WrWaitSh, a, WrTest);
      Through(a, t, WrTest, a, WrPostEx);
      Through(a, t, WrPostEx, b, WrPostSh(0));
      Through(b, t, WrPostSh(0), b.(shLock := s.shLock), Idle);
      Stopped(b.(shLock := s.shLock), t, Idle);
    } else {
      Stopped(s, t, WrWaitSh);
    }
  }

  /** So while every thread is idle or reads, one more reader is let in at once. */
  lemma ReadersShare(s: State, t: Tid)
    requires Inv(s) && t in s.pc && s.pc[t] == Idle && forall u <- s.pc :: s.pc[u] in {Idle, Reading}
    ensures var z := Finish(Step(s, t, CallShared), t);
      z.pc == s.pc[t := Reading] && z.shLockCnt == s.shLockCnt + 1
  {
    AtEmpty(s.pc, HoldsPriv);
    AtEmpty(s.pc, HoldsSh);
    AtEmpty(s.pc, OwnsEx);
    ReaderAlone(s, t);
  }
}
