/**
  `klock_c` in the form of its source: a class with three semaphores and a counter.
  Each operation runs statement by statement, and before every statement the other
  threads take an arbitrary number of steps.  A call that finds a semaphore at zero
  returns with `done == false`, where the source would go on waiting.
 */
module KLockClass {
  import opened RwLock

  type Environment = nat -> seq<(Tid, Choice)>

  function WithoutThread(schedule: seq<(Tid, Choice)>, t: Tid): (r: seq<(Tid, Choice)>)
    ensures forall e <- r :: e.0 != t
    ensures forall e <- schedule :: e.0 != t ==> e in r
  {
    if schedule == [] then []
    else (if schedule[0].0 == t then [] else [schedule[0]]) + WithoutThread(schedule[1..], t)
  }

  lemma {:induction false} RunAppend(s: State, xs: seq<(Tid, Choice)>, ys: seq<(Tid, Choice)>)
    ensures Run(s, xs + ys) == Run(Run(s, xs), ys)
    decreases |xs|
  {
    if xs == [] {
      assert xs + ys == ys;
    } else {
      var (t, c) := xs[0];
      assert (xs + ys)[0] == xs[0] && (xs + ys)[1..] == xs[1..] + ys;
      RunAppend(if Enabled(s, t, c) then Step(s, t, c) else s, xs[1..], ys);
    }
  }

  /** Steps of the other threads leave a thread where it stands. */
  lemma {:induction false} RunOthers(s: State, schedule: seq<(Tid, Choice)>, t: Tid)
    requires t in s.pc
    requires forall e <- schedule :: e.0 != t
    ensures t in Run(s, schedule).pc && Run(s, schedule).pc[t] == s.pc[t]
    decreases |schedule|
  {
    if schedule != [] {
      var (u, c) := schedule[0];
      RunOthers(if Enabled(s, u, c) then Step(s, u, c) else s, schedule[1..], t);
    }
  }

  // No other thread moves.
  ghost predicate Quiet(env: Environment) {
    forall i :: env(i) == []
  }

  // What one statement does then: it goes through exactly if it is not blocked.
  ghost predicate Alone(s: State, t: Tid, ok: bool, z: State) {
    t in s.pc && s.pc[t] != Idle && (ok <==> !Blocked(s, s.pc[t])) && z == if ok then Step(s, t, Go) else s
  }

  // It leaves what the operation comes to.
  lemma AloneFinishes(s: State, t: Tid, ok: bool, z: State)
    requires Alone(s, t, ok, z) && s.pc[t] !in {Reading, Writing}
    ensures t in z.pc && Finish(z, t) == Finish(s, t)
  {}

  lemma FinishEnds(s: State, t: Tid)
    requires t in s.pc && (s.pc[t] in {Idle, Reading, Writing} || Blocked(s, s.pc[t]))
    ensures Finish(s, t) == s
  {}

  class KLock {
    var shLockPriv: nat
    var shLock: nat
    var exLock: nat
    var shLockCnt: int
    var pc: map<Tid, Pc>
    // The threads at the start, and every step taken since.
    ghost const origin: State
    ghost var history: seq<(Tid, Choice)>

    function Abs(): State
      reads this
    {
      State(shLockPriv, shLock, exLock, shLockCnt, pc)
    }

    // The object is in a state that the atomic steps reach from a new lock.
    ghost predicate Valid()
      reads this
    {
      Init(origin) && Abs() == Run(origin, history)
    }

    constructor (threads: set<Tid>)
      ensures Valid() && Init(Abs()) && pc.Keys == threads
    {
      shLockPriv, shLock, exLock, shLockCnt := 1, 1, 1, 0;
      pc := map t | t in threads :: Idle;
      history := [];
      origin := State(1, 1, 1, 0, map t | t in threads :: Idle);
    }

    lemma Invariant()
      requires Valid()
      ensures Inv(Abs())
    {
      InitInv(origin);
      RunInv(origin, history);
    }

    // What the other threads do between two statements of `t`.
    method Others(t: Tid, schedule: seq<(Tid, Choice)>)
      requires Valid() && t in pc
      modifies this
      ensures Valid() && t in pc && pc[t] == old(pc[t])
      ensures Abs() == Run(old(Abs()), WithoutThread(schedule, t))
      ensures schedule == [] ==> Abs() == old(Abs())
    {
      var others := WithoutThread(schedule, t);
      var s := Run(Abs(), others);
      RunOthers(Abs(), others, t);
      RunAppend(origin, history, others);
      history := history + others;
      shLockPriv, shLock, exLock, shLockCnt, pc := s.shLockPriv, s.shLock, s.exLock, s.shLockCnt, s.pc;
    }

    // The statement of `t` just executed on the shared words was the atomic step of the state machine.
    method Advance(t: Tid, c: Choice, ghost before: State, next: Pc)
      requires Init(origin) && before == Run(origin, history)
      requires Enabled(before, t, c)
      requires pc == before.pc && Abs().(pc := before.pc[t := next]) == Step(before, t, c)
      modifies this`pc, this`history
      ensures Valid() && t in pc && pc[t] == next && Abs() == Step(before, t, c)
    {
      pc := pc[t := next];
      RunAppend(origin, history, [(t, c)]);
      history := history + [(t, c)];
    }

    // sem_wait(shLockPriv)
    method WaitPriv(t: Tid, schedule: seq<(Tid, Choice)>) returns (ok: bool)
      requires Valid() && t in pc && pc[t] == RdWaitPriv
      modifies this
      ensures Valid() && t in pc
      ensures if ok then pc[t] == RdTryEx else pc[t] == RdWaitPriv && shLockPriv == 0
      ensures schedule == [] ==> Alone(old(Abs()), t, ok, Abs())
    {
      hide Init, Run;
      Others(t, schedule);
      if shLockPriv == 0 { return false; }
      ghost var b := Abs();
      shLockPriv := shLockPriv - 1;
      Advance(t, Go, b, RdTryEx);
      ok := true;
    }

    // sem_post(shLockPriv)
    method PostPriv(t: Tid, schedule: seq<(Tid, Choice)>)
      requires Valid() && t in pc && pc[t] == RdPostPriv
      modifies this
      ensures Valid() && t in pc && pc[t] == Reading
      ensures schedule == [] ==> Alone(old(Abs()), t, true, Abs())
    {
      hide Init, Run;
      Others(t, schedule);
      ghost var b := Abs();
      shLockPriv := shLockPriv + 1;
      Advance(t, Go, b, Reading);
    }

    // sem_trywait(exLock)
    method TryWaitEx(t: Tid, schedule: seq<(Tid, Choice)>) returns (ok: bool)
      requires Valid() && t in pc && pc[t] == RdTryEx
      modifies this
      ensures Valid() && t in pc && pc[t] == if ok then RdJoinWaitSh else RdWaitSh
      ensures schedule == [] ==> Alone(old(Abs()), t, true, Abs())
    {
      hide Init, Run;
      Others(t, schedule);
      ghost var b := Abs();
      if exLock == 0 {
        Advance(t, Go, b, RdWaitSh);
        return false;
      }
      exLock := exLock - 1;
      Advance(t, Go, b, RdJoinWaitSh);
      ok := true;
    }

    // sem_wait(shLock)
    method WaitSh(t: Tid, schedule: seq<(Tid, Choice)>) returns (ok: bool)
      requires Valid() && t in pc && (pc[t].RdWaitSh? || pc[t].RdJoinWaitSh? || pc[t].RelWaitSh? || pc[t].WrWaitSh?)
      modifies this
      ensures Valid() && t in pc
      ensures if ok then pc[t] == AfterWaitSh(old(pc[t])) else pc[t] == old(pc[t]) && shLock == 0
      ensures schedule == [] ==> Alone(old(Abs()), t, ok, Abs())
    {
      hide Init, Run;
      Others(t, schedule);
      if shLock == 0 { return false; }
      ghost var b := Abs();
      shLock := shLock - 1;
      Advance(t, Go, b, AfterWaitSh(pc[t]));
      ok := true;
    }

    // sem_post(shLock)
    method PostSh(t: Tid, schedule: seq<(Tid, Choice)>)
      requires Valid() && t in pc
      requires pc[t].RdUnlockSh? || pc[t].RdJoinPostSh? || pc[t].RdSharePostSh? || pc[t].RelPostSh? || pc[t].WrPostSh?
      modifies this
      ensures Valid() && t in pc && pc[t] == AfterPostSh(old(pc[t]))
      ensures schedule == [] ==> Alone(old(Abs()), t, true, Abs())
    {
      hide Init, Run;
      Others(t, schedule);
      ghost var b := Abs();
      shLock := shLock + 1;
      Advance(t, Go, b, AfterPostSh(pc[t]));
    }

    // sem_wait(exLock)
    method WaitEx(t: Tid, schedule: seq<(Tid, Choice)>) returns (ok: bool)
      requires Valid() && t in pc && (pc[t].RdWaitEx? || pc[t].WrWaitEx?)
      modifies this
      ensures Valid() && t in pc
      ensures if ok then pc[t] == (if old(pc[t]).RdWaitEx? then RdJoinWaitSh else Writing)
              else pc[t] == old(pc[t]) && exLock == 0
      ensures schedule == [] ==> Alone(old(Abs()), t, ok, Abs())
    {
      hide Init, Run;
      Others(t, schedule);
      if exLock == 0 { return false; }
      ghost var b := Abs();
      exLock := exLock - 1;
      Advance(t, Go, b, if pc[t].RdWaitEx? then RdJoinWaitSh else Writing);
      ok := true;
    }

    // sem_post(exLock)
    method PostEx(t: Tid, schedule: seq<(Tid, Choice)>)
      requires Valid() && t in pc && (pc[t].RelPostEx? || pc[t].WrPostEx?)
      modifies this
      ensures Valid() && t in pc && pc[t] == if old(pc[t]).RelPostEx? then RelPostSh(0) else WrPostSh(0)
      ensures schedule == [] ==> Alone(old(Abs()), t, true, Abs())
    {
      hide Init, Run;
      Others(t, schedule);
      ghost var b := Abs();
      exLock := exLock + 1;
      Advance(t, Go, b, if pc[t].RelPostEx? then RelPostSh(0) else WrPostSh(0));
    }

    lemma TestFacts(t: Tid)
      requires Valid() && t in pc
      ensures pc[t].RelTest? ==> shLockCnt >= 1
      ensures pc[t].WrTest? ==> shLockCnt == 0
    {
      Invariant();
      if pc[t].RelTest? { AtNonEmpty(pc, Counted, t); }
      if pc[t].WrTest? { AtNonEmpty(pc, OwnsEx, t); }
    }

    // A test of shLockCnt; the position after it says how the test came out.
    method ReadCnt(t: Tid, schedule: seq<(Tid, Choice)>) returns (cnt: int)
      requires Valid() && t in pc && (pc[t].RdTest? || pc[t].RelTest? || pc[t].WrTest?)
      modifies this
      ensures Valid() && t in pc
      ensures pc[t] == AfterTest(old(pc[t]), cnt)
      ensures old(pc[t]).RelTest? ==> cnt >= 1
      ensures old(pc[t]).WrTest? ==> cnt == 0
      ensures schedule == [] ==> Alone(old(Abs()), t, true, Abs())
    {
      hide Init, Run;
      Others(t, schedule);
      cnt := shLockCnt;
      TestFacts(t);
      ghost var b := Abs();
      Advance(t, Go, b, AfterTest(pc[t], cnt));
    }

    // An assignment to shLockCnt.
    method WriteCnt(t: Tid, schedule: seq<(Tid, Choice)>)
      requires Valid() && t in pc && (pc[t].RdJoinBump? || pc[t].RdShareBump? || pc[t].RelClear? || pc[t].RelDec?)
      modifies this
      ensures Valid() && t in pc && pc[t] == AfterWrite(old(pc[t]))
      ensures schedule == [] ==> Alone(old(Abs()), t, true, Abs())
    {
      hide Init, Run;
      Others(t, schedule);
      ghost var b := Abs();
      shLockCnt := if pc[t].RelClear? then 0 else if pc[t].RelDec? then shLockCnt - 1 else shLockCnt + 1;
      Advance(t, Go, b, AfterWrite(pc[t]));
    }

    // sem_wait(shLock); shLockCnt++; sem_post(shLock)
    method JoinCount(t: Tid, env: Environment, k: nat) returns (ok: bool)
      requires Valid() && t in pc && pc[t] == RdJoinWaitSh
      modifies this
      ensures Valid() && t in pc
      ensures if ok then pc[t] == RdPostPriv else Blocked(Abs(), pc[t])
      ensures Quiet(env) ==> Finish(Abs(), t) == Finish(old(Abs()), t)
    {
      hide Finish, Alone, Init, Run;
      ghost var a := Abs();
      ok := WaitSh(t, env(k));
      if Quiet(env) { AloneFinishes(a, t, ok, Abs()); }
      if !ok { return; }
      ghost var b := Abs();
      WriteCnt(t, env(k + 1));
      ghost var c := Abs();
      PostSh(t, env(k + 2));
      if Quiet(env) {
        AloneFinishes(b, t, true, c);
        AloneFinishes(c, t, true, Abs());
      }
    }

    // sem_post(shLock); sem_wait(exLock), and then as when exLock was free
    method LetWriterGo(t: Tid, env: Environment) returns (ok: bool)
      requires Valid() && t in pc && pc[t] == RdUnlockSh
      modifies this
      ensures Valid() && t in pc
      ensures if ok then pc[t] == RdPostPriv else Blocked(Abs(), pc[t])
      ensures Quiet(env) ==> Finish(Abs(), t) == Finish(old(Abs()), t)
    {
      hide Finish, Alone, Init, Run;
      ghost var a := Abs();
      PostSh(t, env(4));
      ghost var b := Abs();
      ok := WaitEx(t, env(5));
      if Quiet(env) {
        AloneFinishes(a, t, true, b);
        AloneFinishes(b, t, ok, Abs());
      }
      if !ok { return; }
      ok := JoinCount(t, env, 6);
    }

    // The branch of shLockAcquire taken when exLock is not free.
    method ExLockTaken(t: Tid, env: Environment) returns (ok: bool)
      requires Valid() && t in pc && pc[t] == RdWaitSh
      modifies this
      ensures Valid() && t in pc
      ensures if ok then pc[t] == RdPostPriv else Blocked(Abs(), pc[t])
      ensures Quiet(env) ==> Finish(Abs(), t) == Finish(old(Abs()), t)
    {
      hide Finish, Alone, Init, Run;
      ghost var a := Abs();
      ok := WaitSh(t, env(2));
      if Quiet(env) { AloneFinishes(a, t, ok, Abs()); }
      if !ok { return; }
      ghost var b := Abs();
      var cnt := ReadCnt(t, env(3));
      if Quiet(env) { AloneFinishes(b, t, true, Abs()); }
      if cnt <= 0 {
        ok := LetWriterGo(t, env);
      } else {
        Share(t, env);
      }
    }

    // shLockCnt++; sem_post(shLock), when readers are counted
    method Share(t: Tid, env: Environment)
      requires Valid() && t in pc && pc[t] == RdShareBump
      modifies this
      ensures Valid() && t in pc && pc[t] == RdPostPriv
      ensures Quiet(env) ==> Finish(Abs(), t) == Finish(old(Abs()), t)
    {
      hide Finish, Alone, Init, Run;
      ghost var a := Abs();
      WriteCnt(t, env(9));
      ghost var b := Abs();
      PostSh(t, env(10));
      if Quiet(env) {
        AloneFinishes(a, t, true, b);
        AloneFinishes(b, t, true, Abs());
      }
    }

    /** A call that finishes has joined the readers: nobody writes and the count includes the caller. */
    method ShLockAcquire(t: Tid, env: Environment) returns (rtn: int, done: bool)
      requires Valid() && t in pc && pc[t] == Idle
      modifies this
      ensures Valid() && t in pc
      ensures done ==> rtn == 0 && pc[t] == Reading && shLockCnt >= 1 && exLock == 0
      ensures done ==> forall u <- pc :: !pc[u].Writing?
      ensures !done ==> Blocked(Abs(), pc[t])
      ensures Quiet(env) ==>
        (done <==> old(shLockPriv) > 0 && old(shLock) > 0 && (old(exLock) > 0 || old(shLockCnt) > 0))
      ensures Quiet(env) && done ==> Joined(old(Abs()), t, Abs())
      ensures Quiet(env) && old(forall u <- pc :: pc[u] in {Idle, Reading}) ==> done
    {
      rtn := 0;
      ghost var b := Abs();
      ReaderAlone(b, t);
      if forall u <- pc :: pc[u] in {Idle, Reading} { NobodyInside(); }
      Advance(t, CallShared, b, RdWaitPriv);
      done := AcquireInner(t, env);
      ghost var c := Abs();
      if done {
        PostPriv(t, env(14));
        if Quiet(env) { AloneFinishes(c, t, true, Abs()); }
        ReaderFacts(t);
      }
      if Quiet(env) { FinishEnds(Abs(), t); }
    }

    // shLockAcquire between the call and the last statement
    method AcquireInner(t: Tid, env: Environment) returns (ok: bool)
      requires Valid() && t in pc && pc[t] == RdWaitPriv
      modifies this
      ensures Valid() && t in pc
      ensures if ok then pc[t] == RdPostPriv else Blocked(Abs(), pc[t])
      ensures Quiet(env) ==> Finish(Abs(), t) == Finish(old(Abs()), t)
    {
      ghost var a := Abs();
      ok := WaitPriv(t, env(0));
      if Quiet(env) { AloneFinishes(a, t, ok, Abs()); }
      if !ok { return; }
      ghost var b := Abs();
      var free := TryWaitEx(t, env(1));
      if Quiet(env) { AloneFinishes(b, t, true, Abs()); }
      if !free {
        ok := ExLockTaken(t, env);
      } else {
        ok := JoinCount(t, env, 11);
      }
    }

    // With nobody inside an operation the inner semaphores are free, and exLock is unless readers are counted.
    lemma NobodyInside()
      requires Valid() && forall u <- pc :: pc[u] in {Idle, Reading}
      ensures shLockPriv > 0 && shLock > 0 && (exLock > 0 || shLockCnt > 0)
    {
      Invariant();
      AtEmpty(pc, HoldsPriv);
      AtEmpty(pc, HoldsSh);
      AtEmpty(pc, OwnsEx);
    }

    lemma ReaderFacts(t: Tid)
      requires Valid() && t in pc && pc[t] == Reading
      ensures shLockCnt >= 1 && exLock == 0 && forall u <- pc :: !pc[u].Writing?
    {
      Invariant();
      AtNonEmpty(pc, Counted, t);
      Safety(origin, history);
    }

    /** A reader's release always succeeds. */
    method ShLockRelease(t: Tid, env: Environment) returns (rtn: int, done: bool)
      requires Valid() && t in pc && pc[t] == Reading
      modifies this
      ensures Valid() && t in pc
      ensures done ==> rtn == 0 && pc[t] == Idle
      ensures !done ==> Blocked(Abs(), pc[t])
      ensures Quiet(env) ==> (done <==> old(shLock) > 0)
    {
      rtn := -1;
      ghost var b := Abs();
      Advance(t, Go, b, RelWaitSh);
      done := WaitSh(t, env(0));
      if !done { return; }
      var cnt := ReadCnt(t, env(1));
      if cnt == 1 {
        WriteCnt(t, env(2));
        PostEx(t, env(3));
        rtn := 0;
      }
      if cnt > 1 {
        WriteCnt(t, env(4));
        rtn := 0;
      }
      PostSh(t, env(5));
    }

    /** A call that finishes owns the lock alone. */
    method ExLockAcquire(t: Tid, env: Environment) returns (rtn: int, done: bool)
      requires Valid() && t in pc && pc[t] == Idle
      modifies this
      ensures Valid() && t in pc
      ensures done ==> rtn == 0 && pc[t] == Writing && shLockCnt == 0 && exLock == 0
      ensures done ==> forall u <- pc :: u != t ==> !pc[u].Writing? && !pc[u].Reading?
      ensures !done ==> Blocked(Abs(), pc[t])
      ensures Quiet(env) ==> (done <==> old(exLock) > 0)
    {
      rtn := 0;
      ghost var b := Abs();
      Advance(t, CallExclusive, b, WrWaitEx);
      done := WaitEx(t, env(0));
      if !done { return; }
      WriterFacts(t);
    }

    lemma WriterFacts(t: Tid)
      requires Valid() && t in pc && pc[t] == Writing
      ensures shLockCnt == 0 && exLock == 0
      ensures forall u <- pc :: u != t ==> !pc[u].Writing? && !pc[u].Reading?
    {
      Invariant();
      AtNonEmpty(pc, OwnsEx, t);
      Safety(origin, history);
    }

    /** A writer's release always succeeds. */
    method ExLockRelease(t: Tid, env: Environment) returns (rtn: int, done: bool)
      requires Valid() && t in pc && pc[t] == Writing
      modifies this
      ensures Valid() && t in pc
      ensures done ==> rtn == 0 && pc[t] == Idle
      ensures !done ==> Blocked(Abs(), pc[t])
      ensures Quiet(env) ==> (done <==> old(shLock) > 0)
    {
      rtn := -1;
      ghost var b := Abs();
      Advance(t, Go, b, WrWaitSh);
      done := WaitSh(t, env(0));
      if !done { return; }
      var cnt := ReadCnt(t, env(1));
      if cnt == 0 {
        PostEx(t, env(2));
        rtn := 0;
      }
      PostSh(t, env(3));
    }
  }

  function AfterWaitSh(p: Pc): Pc
    requires p.RdWaitSh? || p.RdJoinWaitSh? || p.RelWaitSh? || p.WrWaitSh?
  {
    if p.RdWaitSh? then RdTest else if p.RdJoinWaitSh? then RdJoinBump else if p.RelWaitSh? then RelTest else WrTest
  }

  function AfterPostSh(p: Pc): Pc
    requires p.RdUnlockSh? || p.RdJoinPostSh? || p.RdSharePostSh? || p.RelPostSh? || p.WrPostSh?
  {
    if p.RdUnlockSh? then RdWaitEx else if p.RelPostSh? || p.WrPostSh? then Idle else RdPostPriv
  }

  function AfterTest(p: Pc, cnt: int): Pc
    requires p.RdTest? || p.RelTest? || p.WrTest?
  {
    match p
    case RdTest => if cnt <= 0 then RdUnlockSh else RdShareBump
    case RelTest => if cnt == 1 then RelClear else if cnt > 1 then RelDec else RelPostSh(-1)
    case WrTest => if cnt == 0 then WrPostEx else WrPostSh(-1)
  }

  function AfterWrite(p: Pc): Pc
    requires p.RdJoinBump? || p.RdShareBump? || p.RelClear? || p.RelDec?
  {
    match p
    case RdJoinBump => RdJoinPostSh
    case RdShareBump => RdSharePostSh
    case RelClear => RelPostEx
    case RelDec => RelPostSh(0)
  }
}
