/**
  Any number of assembler threads.  Every signal starts one; each tests the length without the lock,
  takes the lock for one critical section, and hands its packet up after it has released the lock.
  All interleavings of these steps with the arrival of bytes are covered.
 */
module MtThreads {
  import opened Wire
  import opened MtFrame
  import opened MtQueue
  import opened MtRing
  import opened MtStream
  import opened Sums

  type Tid = nat

  /** Where a thread stands, with its local `Offset`; a packet in hand is tagged with the number of its frame. */
  datatype Assembler =
    | Testing(offset: nat)
    | Passed(offset: nat)
    | Holding(offset: nat, frame: nat, packet: seq<byte>)
    | Finished

  datatype System = System(
    unsent: seq<byte>,                        // not yet read from the port
    queue: seq<byte>,                         // the ring, as a queue
    signals: nat,                             // reads whose thread is not yet started
    threads: map<Tid, Assembler>,
    taken: nat,                               // critical sections that took a frame
    delivered: seq<(nat, seq<byte>)>,         // calls of the handler, in order
    dropped: set<nat>,                        // frames dropped for their checksum
    overrun: bool
  )

  datatype Move = Arrive(n: nat) | Start(t: Tid) | Step(t: Tid)

  predicate Enabled(s: System, m: Move) {
    match m
    case Arrive(n) => n <= |s.unsent| && |s.queue| + n <= SERIAL_BUFFER_MAX
    case Start(t) => s.signals > 0 && t !in s.threads
    case Step(t) => t in s.threads && s.threads[t] != Finished
  }

  function Do(s: System, m: Move): System
    requires Enabled(s, m)
  {
    match m
    case Arrive(n) => s.(unsent := s.unsent[n..], queue := s.queue + s.unsent[..n], signals := s.signals + 1)
    case Start(t) => s.(signals := s.signals - 1, threads := s.threads[t := Testing(0)])
    case Step(t) =>
      match s.threads[t]
      case Testing(o) =>
        s.(threads := s.threads[t := if |s.queue| >= MIN_PACKET_LEN then Passed(o) else Finished])
      case Passed(o) =>
        (match TakeFrame(s.queue, o)
         case Stop => s.(threads := s.threads[t := Finished])
         case Overrun => s.(threads := s.threads[t := Finished], overrun := true)
         case Taken(p, rest, o') =>
           s.(queue := rest, threads := s.threads[t := Holding(o', s.taken, p)], taken := s.taken + 1))
      case Holding(o, i, p) =>
        var s' := s.(threads := s.threads[t := Testing(o)]);
        if XorAll(p) == 0 then s'.(delivered := s.delivered + [(i, p)]) else s'.(dropped := s.dropped + {i})
  }

  function Run(s: System, moves: seq<Move>): System
    decreases |moves|
  {
    if moves == [] then s
    else Run(if Enabled(s, moves[0]) then Do(s, moves[0]) else s, moves[1..])
  }

  ghost predicate Init(s: System, fs: seq<seq<byte>>) {
    s == System(Stream(fs, 0), [], 0, map[], 0, [], {}, false)
  }

  // --------------------------------------------------------------- invariant

  // The frames already taken, then the bytes of the queue, then those not yet arrived.
  ghost predicate Bytes(s: System, fs: seq<seq<byte>>) {
    s.taken <= |fs| && s.queue + s.unsent == Stream(fs, s.taken) && AllFit(fs, 0, s.taken)
  }

  // The next frame lies whole in the queue.
  ghost predicate WholeFrame(s: System, fs: seq<seq<byte>>) {
    s.taken < |fs| && |s.queue| >= |fs[s.taken]|
  }

  // PacketBuffer was overrun by the frame at the head of the queue, which does not fit.
  ghost predicate Overran(s: System, fs: seq<seq<byte>>) {
    s.overrun ==> WholeFrame(s, fs) && !FitsPacket(fs[s.taken])
  }

  ghost predicate Local(s: System, fs: seq<seq<byte>>, a: Assembler) {
    match a
    case Testing(o) => o == 0
    case Passed(o) => o == 0
    case Holding(o, i, p) =>
      o == 0 && i < s.taken <= |fs| && fs[i] != [] && p == fs[i][1..] && i !in s.dropped && i !in Ids(s)
    case Finished => true
  }

  ghost function Ids(s: System): set<nat> {
    set k | 0 <= k < |s.delivered| :: s.delivered[k].0
  }

  ghost predicate Held(s: System, i: nat) {
    exists t <- s.threads :: s.threads[t].Holding? && s.threads[t].frame == i
  }

  // Each frame is in the hands of at most one thread.
  ghost predicate OneHolder(s: System) {
    forall t <- s.threads, u <- s.threads ::
      (s.threads[t].Holding? && s.threads[u].Holding? && s.threads[t].frame == s.threads[u].frame) ==> t == u
  }

  ghost predicate Delivered(s: System, fs: seq<seq<byte>>) {
    && (forall k :: 0 <= k < |s.delivered| ==>
         var (i, p) := s.delivered[k]; i < s.taken <= |fs| && Sound(fs[i]) && p == fs[i][1..] && i !in s.dropped)
    && (forall k, l :: 0 <= k < l < |s.delivered| ==> s.delivered[k].0 != s.delivered[l].0)
  }

  ghost predicate Dropped(s: System, fs: seq<seq<byte>>) {
    forall i <- s.dropped :: i < s.taken <= |fs| && !Sound(fs[i])
  }

  // No frame that was taken has disappeared.
  ghost predicate Accounted(s: System) {
    forall i :: 0 <= i < s.taken ==> i in s.dropped || i in Ids(s) || Held(s, i)
  }

  ghost predicate Alive(s: System) {
    s.signals > 0 || exists t <- s.threads :: s.threads[t] != Finished
  }

  // While a whole frame is buffered somebody is going to take it, or has failed to.
  ghost predicate Served(s: System, fs: seq<seq<byte>>) {
    WholeFrame(s, fs) ==> Alive(s) || s.overrun
  }

  ghost predicate Inv(s: System, fs: seq<seq<byte>>) {
    && Bytes(s, fs)
    && (forall t <- s.threads :: Local(s, fs, s.threads[t]))
    && OneHolder(s)
    && Delivered(s, fs)
    && Dropped(s, fs)
    && Accounted(s)
    && Served(s, fs)
    && Overran(s, fs)
  }

  lemma ArriveInv(s: System, fs: seq<seq<byte>>, n: nat)
    requires Frames(fs) && Inv(s, fs) && Enabled(s, Arrive(n))
    ensures Inv(Do(s, Arrive(n)), fs)
  {
    var s' := Do(s, Arrive(n));
    assert s'.queue + s'.unsent == s.queue + s.unsent;
    assert Ids(s') == Ids(s);
    forall i | 0 <= i < s'.taken ensures i in s'.dropped || i in Ids(s') || Held(s', i) {
      if Held(s, i) {
        var t :| t in s.threads && s.threads[t].Holding? && s.threads[t].frame == i;
        assert t in s'.threads;
      }
    }
    forall t <- s'.threads ensures Local(s', fs, s'.threads[t]) {
      assert Local(s, fs, s.threads[t]);
    }
  }

  // A thread changes its position without touching a packet.
  lemma MoveInv(s: System, s': System, fs: seq<seq<byte>>, t: Tid, a: Assembler)
    requires Frames(fs) && Inv(s, fs)
    requires t in s.threads ==> !s.threads[t].Holding?
    requires !a.Holding? && Local(s, fs, a)
    requires s' == s.(threads := s.threads[t := a], signals := s'.signals, overrun := s'.overrun)
    requires Served(s', fs) && Overran(s', fs)
    ensures Inv(s', fs)
  {
    assert Ids(s') == Ids(s);
    forall i | 0 <= i < s'.taken ensures i in s'.dropped || i in Ids(s') || Held(s', i) {
      if Held(s, i) {
        var u :| u in s.threads && s.threads[u].Holding? && s.threads[u].frame == i;
        assert u in s'.threads && s'.threads[u] == s.threads[u];
      }
    }
    forall u <- s'.threads ensures Local(s', fs, s'.threads[u]) {
      if u != t { assert Local(s, fs, s.threads[u]); }
    }
  }

  // The queue holds the frame whole, or a proper prefix of it, or there is no frame left.
  lemma QueueHead(s: System, fs: seq<seq<byte>>)
    requires Frames(fs) && Bytes(s, fs)
    ensures WholeFrame(s, fs) && FitsPacket(fs[s.taken]) ==>
      var f, rest := fs[s.taken], s.queue[|fs[s.taken]|..];
      TakeFrame(s.queue, 0) == Taken(f[1..], rest, 0) && rest + s.unsent == Stream(fs, s.taken + 1)
    ensures WholeFrame(s, fs) && !FitsPacket(fs[s.taken]) ==> TakeFrame(s.queue, 0) == Overrun
    ensures !WholeFrame(s, fs) ==> TakeFrame(s.queue, 0) == Stop
    ensures s.taken == |fs| ==> s.queue == []
  {
    if s.taken < |fs| {
      var f, more := fs[s.taken], Stream(fs, s.taken + 1);
      HeadPrefix(s.queue, s.unsent, f + more);
      if |s.queue| >= |f| {
        PrefixDrop(s.queue, f, more);
        TakeWhole(f, s.queue[|f|..]);
        RestOfStream(s.queue, s.unsent, f, more);
      } else {
        PrefixCut(s.queue, f, more);
        TakePartial(f, s.queue);
      }
    }
  }

  lemma HeadPrefix(q: seq<byte>, unsent: seq<byte>, all: seq<byte>)
    requires q + unsent == all
    ensures q <= all
  {
    assert q == all[..|q|];
  }

  lemma RestOfStream(q: seq<byte>, unsent: seq<byte>, f: seq<byte>, more: seq<byte>)
    requires q + unsent == f + more && |f| <= |q|
    ensures q[|f|..] + unsent == more
  {
    TailOfMore(q, unsent, |f|);
    assert (f + more)[|f|..] == more;
  }

  lemma TakeInv(s: System, fs: seq<seq<byte>>, t: Tid)
    requires Frames(fs) && Inv(s, fs) && t in s.threads && s.threads[t].Passed?
    requires TakeFrame(s.queue, s.threads[t].offset).Taken?
    ensures Inv(Do(s, Step(t)), fs)
  {
    assert Local(s, fs, s.threads[t]);
    QueueHead(s, fs);
    var s' := Do(s, Step(t));
    var f := fs[s.taken];
    assert IsFrame(f);
    assert s'.threads == s.threads[t := Holding(0, s.taken, f[1..])];
    assert Ids(s') == Ids(s);
    assert s.taken !in s.dropped;
    assert s.taken !in Ids(s);
    forall i | 0 <= i < s'.taken ensures i in s'.dropped || i in Ids(s') || Held(s', i) {
      if i == s.taken {
        assert t in s'.threads;
      } else if Held(s, i) {
        var u :| u in s.threads && s.threads[u].Holding? && s.threads[u].frame == i;
        assert u in s'.threads && s'.threads[u] == s.threads[u];
      }
    }
    forall u <- s'.threads ensures Local(s', fs, s'.threads[u]) {
      if u != t { assert Local(s, fs, s.threads[u]); }
    }
    forall u, v | u in s'.threads && v in s'.threads && s'.threads[u].Holding? && s'.threads[v].Holding? &&
        s'.threads[u].frame == s'.threads[v].frame ensures u == v {
      if u != t { assert Local(s, fs, s.threads[u]); }
      if v != t { assert Local(s, fs, s.threads[v]); }
    }
    assert t in s'.threads && s'.threads[t] != Finished;
  }

  lemma PassInv(s: System, fs: seq<seq<byte>>, t: Tid)
    requires Frames(fs) && Inv(s, fs) && t in s.threads && s.threads[t].Passed?
    ensures Inv(Do(s, Step(t)), fs)
  {
    assert Local(s, fs, s.threads[t]);
    QueueHead(s, fs);
    if TakeFrame(s.queue, 0).Taken? {
      TakeInv(s, fs, t);
    } else {
      MoveInv(s, Do(s, Step(t)), fs, t, Finished);
    }
  }

  /**
    Whatever other threads have done since the unlocked length test, a thread that passed it takes exactly the next
    frame if that frame lies whole in the queue and fits PacketBuffer; otherwise it finishes and leaves the queue
    unchanged.
   */
  lemma StaleTest(s: System, fs: seq<seq<byte>>, t: Tid)
    requires Frames(fs) && Inv(s, fs) && t in s.threads && s.threads[t].Passed?
    ensures !WholeFrame(s, fs) ==> Do(s, Step(t)) == s.(threads := s.threads[t := Finished])
    ensures WholeFrame(s, fs) && !FitsPacket(fs[s.taken]) ==>
      Do(s, Step(t)) == s.(threads := s.threads[t := Finished], overrun := true)
    ensures WholeFrame(s, fs) && FitsPacket(fs[s.taken]) ==>
      var f := fs[s.taken];
      && s.queue == f + s.queue[|f|..]
      && Do(s, Step(t)) == s.(queue := s.queue[|f|..], taken := s.taken + 1,
                              threads := s.threads[t := Holding(0, s.taken, f[1..])])
  {
    assert Local(s, fs, s.threads[t]);
    QueueHead(s, fs);
    if WholeFrame(s, fs) {
      HeadPrefix(s.queue, s.unsent, fs[s.taken] + Stream(fs, s.taken + 1));
      PrefixDrop(s.queue, fs[s.taken], Stream(fs, s.taken + 1));
    }
  }

  // A thread hands up or drops the packet it holds.
  lemma ReleaseInv(s: System, fs: seq<seq<byte>>, t: Tid)
    requires Frames(fs) && Inv(s, fs) && t in s.threads && s.threads[t].Holding?
    ensures Inv(Do(s, Step(t)), fs)
  {
    assert Local(s, fs, s.threads[t]);
    var s' := Do(s, Step(t));
    var i := s.threads[t].frame;
    assert s'.threads == s.threads[t := Testing(0)];
    ReleaseIds(s, s', fs, t);
    forall u <- s'.threads ensures Local(s', fs, s'.threads[u]) {
      if u != t { assert Local(s, fs, s.threads[u]); }
    }
    forall j | 0 <= j < s'.taken ensures j in s'.dropped || j in Ids(s') || Held(s', j) {
      if j != i && Held(s, j) {
        var u :| u in s.threads && s.threads[u].Holding? && s.threads[u].frame == j;
        assert u in s'.threads && s'.threads[u] == s.threads[u];
      }
    }
    assert t in s'.threads && s'.threads[t] != Finished;
  }

  lemma ReleaseIds(s: System, s': System, fs: seq<seq<byte>>, t: Tid)
    requires Inv(s, fs) && t in s.threads && s.threads[t].Holding? && s' == Do(s, Step(t))
    ensures Ids(s') + s'.dropped == Ids(s) + s.dropped + {s.threads[t].frame}
    ensures Ids(s) <= Ids(s') && s.dropped <= s'.dropped
    ensures Delivered(s', fs) && Dropped(s', fs)
  {
    hide Bytes, OneHolder, Accounted, Served, Overran;
    assert Local(s, fs, s.threads[t]);
    var i, p := s.threads[t].frame, s.threads[t].packet;
    if XorAll(p) == 0 {
      IdsSnoc(s, s', i, p);
      assert Delivered(s', fs) by {
        forall k | 0 <= k < |s.delivered| ensures s.delivered[k].0 != i {
          assert s.delivered[k].0 in Ids(s);
        }
      }
    } else {
      assert Ids(s') == Ids(s);
      forall k | 0 <= k < |s.delivered| ensures s.delivered[k].0 != i {
        assert s.delivered[k].0 in Ids(s);
      }
    }
  }

  lemma IdsSnoc(s: System, s': System, i: nat, p: seq<byte>)
    requires s'.delivered == s.delivered + [(i, p)]
    ensures Ids(s') == Ids(s) + {i}
  {
    var n := |s.delivered|;
    assert s'.delivered[n] == (i, p);
    forall j | j in Ids(s) ensures j in Ids(s') {
      var k :| 0 <= k < n && s.delivered[k].0 == j;
      assert s'.delivered[k].0 == j;
    }
  }

  /** Every step keeps the invariant. */
  lemma StepInv(s: System, fs: seq<seq<byte>>, m: Move)
    requires Frames(fs) && Inv(s, fs) && Enabled(s, m)
    ensures Inv(Do(s, m), fs)
  {
    match m
    case Arrive(n) =>
      ArriveInv(s, fs, n);
    case Start(t) =>
      var s' := Do(s, m);
      assert t in s'.threads && s'.threads[t] != Finished;
      MoveInv(s, s', fs, t, Testing(0));
    case Step(t) =>
      match s.threads[t]
      case Testing(o) =>
        var s' := Do(s, m);
        assert Local(s, fs, s.threads[t]);
        QueueHead(s, fs);
        assert t in s'.threads;
        assert s.taken < |fs| ==> IsFrame(fs[s.taken]);
        MoveInv(s, s', fs, t, s'.threads[t]);
      case Passed(o) =>
        PassInv(s, fs, t);
      case Holding(o, i, p) =>
        ReleaseInv(s, fs, t);
  }

  lemma {:induction false} RunInv(s: System, fs: seq<seq<byte>>, moves: seq<Move>)
    requires Frames(fs) && Inv(s, fs)
    ensures Inv(Run(s, moves), fs)
    decreases |moves|
  {
    if moves != [] {
      if Enabled(s, moves[0]) { StepInv(s, fs, moves[0]); }
      RunInv(if Enabled(s, moves[0]) then Do(s, moves[0]) else s, fs, moves[1..]);
    }
  }

  lemma InitialInv(s: System, fs: seq<seq<byte>>)
    requires Frames(fs) && Init(s, fs)
    ensures Inv(s, fs)
  {
    assert Ids(s) == {};
    NothingBefore(Stream(fs, 0));
  }

  /**
    In every interleaving: no frame is handed up twice, only sound frames are handed up, each with its own
    bytes, and every frame taken is handed up, dropped for its checksum, or in the hands of one thread.
    PacketBuffer is overrun only by a frame that does not fit, which stays at the head of the queue.
   */
  lemma TakenOnce(s: System, fs: seq<seq<byte>>, moves: seq<Move>)
    requires Frames(fs) && Init(s, fs)
    ensures var z := Run(s, moves);
      Delivered(z, fs) && Dropped(z, fs) && OneHolder(z) && Accounted(z) && Overran(z, fs)
  {
    InitialInv(s, fs);
    RunInv(s, fs, moves);
  }

  // ------------------------------------------------------------- where runs end

  // Nothing can happen any more, but reads that move nothing.
  ghost predicate AtRest(s: System) {
    && (forall t: Tid :: !Enabled(s, Start(t)) && !Enabled(s, Step(t)))
    && (forall n: nat :: Enabled(s, Arrive(n)) ==> n == 0)
  }

  lemma UnusedTid(threads: map<Tid, Assembler>) returns (t: Tid)
    ensures t !in threads
    decreases |threads|
  {
    t := 0;
    var rest := threads;
    while rest != map[]
      invariant rest.Keys <= threads.Keys && forall u <- threads :: u in rest || u < t
      decreases |rest|
    {
      var u :| u in rest;
      if u >= t { t := u + 1; }
      rest := rest - {u};
    }
  }

  lemma RestIsQuiet(s: System)
    requires AtRest(s)
    ensures !Alive(s)
  {
    var unused := UnusedTid(s.threads);
    assert Enabled(s, Start(unused)) <==> s.signals > 0;
    forall t <- s.threads ensures s.threads[t] == Finished {
      assert !Enabled(s, Step(t));
    }
  }

  // At rest without an overrun, the whole stream has been taken.
  lemma RestIsEnd(s: System, fs: seq<seq<byte>>)
    requires Frames(fs) && Inv(s, fs) && AtRest(s) && !s.overrun
    ensures s.unsent == [] && s.queue == [] && s.taken == |fs|
  {
    RestIsQuiet(s);
    QueueHead(s, fs);
    assert Enabled(s, Arrive(1)) <==> |s.unsent| >= 1 && |s.queue| + 1 <= SERIAL_BUFFER_MAX;
    if s.taken < |fs| {
      ShortQueue(s, fs);
      StreamHead(fs, s.taken);
    }
  }

  lemma StreamHead(fs: seq<seq<byte>>, i: nat)
    requires i < |fs|
    ensures |Stream(fs, i)| >= |fs[i]|
  {}

  lemma ShortQueue(s: System, fs: seq<seq<byte>>)
    requires Frames(fs) && s.taken < |fs| && |s.queue| < |fs[s.taken]|
    ensures |s.queue| + 1 <= SERIAL_BUFFER_MAX
  {
    assert IsFrame(fs[s.taken]);
    ByteValue(fs[s.taken][1]);
  }

  // At rest every frame taken has been handed up or dropped.
  lemma RestIsDelivered(s: System, fs: seq<seq<byte>>)
    requires Frames(fs) && Inv(s, fs) && AtRest(s) && s.taken == |fs|
    ensures Ids(s) == (set i | 0 <= i < |fs| && Sound(fs[i]))
  {
    RestIsQuiet(s);
    forall i | i in Ids(s) ensures 0 <= i < |fs| && Sound(fs[i]) {
      var k :| 0 <= k < |s.delivered| && s.delivered[k].0 == i;
    }
    forall i: nat | i < |fs| && Sound(fs[i]) ensures i in Ids(s) {
      assert i in s.dropped || i in Ids(s) || Held(s, i);
    }
  }

  /**
    Where a run comes to rest, PacketBuffer has been overrun exactly if a frame of the stream does not fit.  If all
    fit, the frames handed up are exactly the sound frames of the stream, each once, with their own bytes.
   */
  lemma AllDelivered(s: System, fs: seq<seq<byte>>, moves: seq<Move>)
    requires Frames(fs) && Init(s, fs) && AtRest(Run(s, moves))
    ensures var z := Run(s, moves);
      && (z.overrun <==> !AllFit(fs, 0, |fs|))
      && (AllFit(fs, 0, |fs|) ==>
            && z.unsent == [] && z.queue == [] && z.taken == |fs|
            && Ids(z) == (set i | 0 <= i < |fs| && Sound(fs[i]))
            && Delivered(z, fs))
  {
    InitialInv(s, fs);
    RunInv(s, fs, moves);
    var z := Run(s, moves);
    if !z.overrun {
      RestIsEnd(z, fs);
      RestIsDelivered(z, fs);
    }
  }

  // Every move of the schedule is possible.
  ghost predicate Follows(s: System, moves: seq<Move>)
    decreases |moves|
  {
    moves == [] || (Enabled(s, moves[0]) && Follows(Do(s, moves[0]), moves[1..]))
  }

  function Arrivals(moves: seq<Move>): nat {
    if moves == [] then 0 else (if moves[0].Arrive? then 1 else 0) + Arrivals(moves[1..])
  }

  // Steps a thread can take without another frame.
  function Rank(a: Assembler): nat {
    match a
    case Testing(_) => 2
    case Passed(_) => 1
    case Holding(_, _, _) => 3
    case Finished => 0
  }

  /** The number of steps that can still happen without another arrival. */
  ghost function Work(s: System): nat {
    3 * (|s.queue| + |s.unsent|) + 3 * s.signals + Sum(s.threads, Rank)
  }

  // What a thread's step takes from the queue makes up for what the thread still has to do.
  lemma ThreadWork(s: System, t: Tid)
    requires Enabled(s, Step(t))
    ensures var s' := Do(s, Step(t));
      && t in s.threads && t in s'.threads && s'.threads == s.threads[t := s'.threads[t]]
      && s'.unsent == s.unsent && s'.signals == s.signals
      && 3 * |s'.queue| + Rank(s'.threads[t]) < 3 * |s.queue| + Rank(s.threads[t])
  {
    hide TakeFrame;
  }

  lemma StepWork(s: System, m: Move)
    requires Enabled(s, m)
    ensures Work(Do(s, m)) < Work(s) + if m.Arrive? then 4 else 0
  {
    match m
    case Arrive(n) =>
    case Start(t) => SumUpdate(s.threads, Rank, t, Testing(0));
    case Step(t) => ThreadWork(s, t); hide Do, Rank; SumUpdate(s.threads, Rank, t, Do(s, m).threads[t]);
  }

  /** Every run ends: the number of its moves is bounded by the bytes of the stream and the number of arrivals. */
  lemma {:induction false} RunsEnd(s: System, moves: seq<Move>)
    requires Follows(s, moves)
    ensures |moves| + Work(Run(s, moves)) <= Work(s) + 4 * Arrivals(moves)
    decreases |moves|
  {
    if moves != [] {
      StepWork(s, moves[0]);
      RunsEnd(Do(s, moves[0]), moves[1..]);
    }
  }
}
