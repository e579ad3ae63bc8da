/**
  What the flash loop of the boot loader client does, as functions of how the device answers: chunks of
  64 bytes, each written with retries and read back with retries, in three rounds.  A write that
  is not answered is repeated; a read that is not answered is judged by the response to an earlier one.
 */
module FlashRun {
  import opened Wire
  import opened Options

  const RW_LEN: nat := 64
  // Blocks that a 16-bit word address reaches, and words to a block.
  const BLOCKS: nat := 0x1000
  const BLOCK_WORDS: nat := 16

  type Block = b: seq<byte> | |b| == 64 witness seq(64, _ => 0)

  /** A device: how it answers writes and reads, counted apart. */
  datatype Answers = Answers(
    acknowledged: nat -> bool,     // whether the n-th answered write reports success
    silence: nat -> nat,           // how many writes go unanswered before it
    programmed: nat -> Block,      // what it leaves in its block
    lost: (nat, nat) -> Option<Block>,   // what an unanswered write leaves there, if it changes it
    decides: nat -> bool,          // false if the n-th read is answered with a failure
    answered: nat -> bool,         // whether a read that decides is answered, with success then
    failData: nat -> Block)        // what a failure response carries in place of data

  // ------------------------------------------------------------- the first of many

  /** How many of at most `n` numbers, from `start` on, come before the first that has the property; `n` if none has. */
  function First(p: nat -> bool, start: nat, n: nat): (f: nat)
    ensures f <= n
    decreases n, start
  {
    if n == 0 || p(start) then 0 else 1 + First(p, start + 1, n - 1)
  }

  lemma {:induction false} FirstMeaning(p: nat -> bool, start: nat, n: nat, i: nat)
    requires i < n
    ensures i < First(p, start, n) ==> !p(start + i)
    ensures i == First(p, start, n) ==> p(start + i)
    decreases n
  {
    if i > 0 && !p(start) {
      FirstMeaning(p, start + 1, n - 1, i - 1);
      assert start + 1 + (i - 1) == start + i;
    }
  }

  lemma {:induction false} FirstSplit(p: nat -> bool, start: nat, a: nat, b: nat)
    ensures First(p, start, a + b) ==
            if First(p, start, a) < a then First(p, start, a) else a + First(p, start + a, b)
    decreases a
  {
    if a > 0 && !p(start) {
      FirstSplit(p, start + 1, a - 1, b);
      assert start + 1 + (a - 1) == start + a;
    }
  }

  // Number `n` after `n` failures.
  lemma Attempt(p: nat -> bool, start: nat, n: nat)
    requires First(p, start, n) == n
    ensures !p(start + n) ==> First(p, start, n + 1) == n + 1
    ensures p(start + n) ==> forall m: nat :: m > n ==> First(p, start, m) == n
  {
    FirstSplit(p, start, n, 1);
    if p(start + n) {
      forall m: nat | m > n ensures First(p, start, m) == n {
        FirstSplit(p, start, n, m - n);
      }
    }
  }

  // Three more after `n` failures.
  lemma ThreeMore(p: nat -> bool, start: nat, n: nat)
    requires First(p, start, n) == n
    ensures
      var g := First(p, start + n, 3);
      && (g == 3 ==> First(p, start, n + 3) == n + 3)
      && (g < 3 ==> forall m: nat :: m >= n + 3 ==> First(p, start, m) == n + g)
  {
    FirstSplit(p, start, n, 3);
    forall m: nat | m >= n + 3 && First(p, start + n, 3) < 3
      ensures First(p, start, m) == n + First(p, start + n, 3)
    {
      FirstSplit(p, start, n + 3, m - (n + 3));
    }
  }

  // Number `f` is the first.
  ghost predicate FirstAt(p: nat -> bool, start: nat, f: nat) {
    p(start + f) && forall i: nat :: start <= i < start + f ==> !p(i)
  }

  lemma FirstIs(p: nat -> bool, start: nat, n: nat, f: nat)
    requires f < n
    ensures First(p, start, n) == f <==> FirstAt(p, start, f)
  {
    var g := First(p, start, n);
    forall i: nat | start <= i < start + g ensures !p(i) {
      FirstMeaning(p, start, n, i - start);
    }
    if g < n { FirstMeaning(p, start, n, g); }
    var last := p(start + g);
  }

  // --------------------------------------------------------------------- one chunk

  /**
    How far a chunk has come: whether a write was acknowledged, the answered writes and the reads so far, what the
    block holds since the acknowledgement, the data of the last response to a read, the value to be returned, whether
    the chunk is accepted.
   */
  datatype Progress = Progress(acked: bool, w: nat, r: nat, block: Block, stale: Block, rtn: int, ok: bool)

  // The write loop: three answers at most, none if there was an acknowledgement before.
  function WritePart(a: Answers, p: Progress): Progress {
    var f := First(a.acknowledged, p.w, 3);
    if p.acked then p
    else if f < 3 then p.(acked := true, w := p.w + f + 1, block := a.programmed(p.w + f))
    else p.(w := p.w + 3)
  }

  // The read loop: it ends with the first read that is not answered with a failure.
  function ReadPart(a: Answers, p: Progress, chunk: Block): Progress {
    var q := First(a.decides, p.r, 3);
    var stale := if q == 0 then p.stale else a.failData(p.r + q - 1);
    if q == 3 then p.(r := p.r + 3, stale := stale)
    else
      var data := if a.answered(p.r + q) then p.block else stale;
      p.(r := p.r + q + 1, stale := data, ok := data == chunk, rtn := if data == chunk then p.rtn else -1)
  }

  function Round(a: Answers, p: Progress, chunk: Block): Progress {
    var written := WritePart(a, p);
    if written.acked then ReadPart(a, written, chunk) else written
  }

  function Rounds(a: Answers, p: Progress, chunk: Block, n: nat): Progress
    decreases n, p
  {
    if n == 0 || p.ok then p else Rounds(a, Round(a, p, chunk), chunk, n - 1)
  }

  /** What one chunk takes over from those before it. */
  datatype Carry = Carry(w: nat, r: nat, stale: Block, rtn: int)

  function Start(c: Carry): Progress {
    Progress(false, c.w, c.r, c.stale, c.stale, c.rtn, false)
  }

  /** Three rounds for one chunk. */
  function ChunkEnd(a: Answers, c: Carry, chunk: Block): Progress {
    Rounds(a, Start(c), chunk, 3)
  }

  lemma RoundCounts(a: Answers, p: Progress, chunk: Block)
    ensures var e := Round(a, p, chunk);
      p.w <= e.w <= p.w + 3 && p.r <= e.r <= p.r + 3 && (e.rtn == p.rtn || e.rtn == -1)
  {}

  lemma {:induction false} RoundsCounts(a: Answers, p: Progress, chunk: Block, n: nat)
    ensures var e := Rounds(a, p, chunk, n);
      p.w <= e.w <= p.w + 3 * n && p.r <= e.r <= p.r + 3 * n && (e.rtn == p.rtn || e.rtn == -1)
    decreases n
  {
    if n > 0 && !p.ok {
      RoundCounts(a, p, chunk);
      RoundsCounts(a, Round(a, p, chunk), chunk, n - 1);
    }
  }

  // ------------------------------------------------------------ what acceptance means

  // The read that accepted the chunk.
  ghost predicate AcceptedBy(a: Answers, e: Progress, chunk: Block) {
    && e.acked && e.r > 0 && a.decides(e.r - 1) && e.stale == chunk
    && (a.answered(e.r - 1) ==> e.block == chunk)
  }

  lemma RoundAccepts(a: Answers, p: Progress, chunk: Block)
    requires !p.ok
    ensures Round(a, p, chunk).ok ==> AcceptedBy(a, Round(a, p, chunk), chunk)
  {
    var written := WritePart(a, p);
    var q := First(a.decides, written.r, 3);
    if q < 3 { FirstMeaning(a.decides, written.r, 3, q); }
  }

  /**
    A chunk is accepted on the response to the last read.  If that read was answered, the block holds the chunk; if it
    was not, an earlier response happened to carry the same data, and the block was not looked at.
   */
  lemma {:induction false} Accepts(a: Answers, p: Progress, chunk: Block, n: nat)
    requires !p.ok
    ensures Rounds(a, p, chunk, n).ok ==> AcceptedBy(a, Rounds(a, p, chunk, n), chunk)
    decreases n
  {
    if n > 0 {
      RoundAccepts(a, p, chunk);
      var next := Round(a, p, chunk);
      if next.ok {
        assert Rounds(a, next, chunk, n - 1) == next;
      } else {
        Accepts(a, next, chunk, n - 1);
      }
    }
  }

  // The last response before read number `n` carried the chunk, although the chunk has not been accepted:
  // it was given before the first read of the chunk, or was a failure.
  ghost predicate Echo(a: Answers, c: Carry, chunk: Block, n: nat) {
    if n <= c.r then c.stale == chunk else !a.decides(n - 1) && a.failData(n - 1) == chunk
  }

  // Read number `n` accepts the chunk, with `block` in the device.
  ghost predicate Confirms(a: Answers, c: Carry, chunk: Block, block: Block, n: nat) {
    a.decides(n) && if a.answered(n) then block == chunk else Echo(a, c, chunk, n)
  }

  // Where the reads of a number of rounds end if none of them accepts the chunk.
  function ReadsEnd(a: Answers, r: nat, rounds: nat): (end: nat)
    ensures r <= end <= r + 3 * rounds
    decreases rounds, r
  {
    if rounds == 0 then r
    else
      var q := First(a.decides, r, 3);
      ReadsEnd(a, if q < 3 then r + q + 1 else r + 3, rounds - 1)
  }

  ghost predicate Decided(a: Answers, from: nat, to: nat) {
    exists n: nat :: from <= n < to && a.decides(n)
  }

  ghost predicate NoneConfirms(a: Answers, c: Carry, chunk: Block, block: Block, to: nat) {
    forall n: nat :: c.r <= n < to ==> !Confirms(a, c, chunk, block, n)
  }

  // Some reads after the acknowledgement, none of which accepted the chunk.
  ghost predicate Reading(a: Answers, c: Carry, chunk: Block, p: Progress) {
    && p.acked && !p.ok && c.r <= p.r && (p.stale == chunk <==> Echo(a, c, chunk, p.r))
    && NoneConfirms(a, c, chunk, p.block, p.r)
    && p.rtn == if Decided(a, c.r, p.r) then -1 else c.rtn
  }

  // The last read was the first to accept the chunk.
  ghost predicate AcceptedAt(a: Answers, c: Carry, chunk: Block, e: Progress) {
    && e.acked && e.ok && c.r < e.r && e.stale == chunk
    && NoneConfirms(a, c, chunk, e.block, e.r - 1) && Confirms(a, c, chunk, e.block, e.r - 1)
    && e.rtn == if Decided(a, c.r, e.r - 1) then -1 else c.rtn
  }

  // The reads of a round before the last are failures.
  lemma FailedReads(a: Answers, c: Carry, chunk: Block, p: Progress, q: nat)
    requires Reading(a, c, chunk, p) && q == First(a.decides, p.r, 3)
    ensures NoneConfirms(a, c, chunk, p.block, p.r + q)
    ensures p.rtn == if Decided(a, c.r, p.r + q) then -1 else c.rtn
    ensures q < 3 ==> a.decides(p.r + q)
  {
    hide First, Echo;
    forall n: nat | p.r <= n < p.r + q ensures !a.decides(n) {
      FirstMeaning(a.decides, p.r, 3, n - p.r);
    }
    if q < 3 { FirstMeaning(a.decides, p.r, 3, q); }
  }

  lemma ReadRound(a: Answers, c: Carry, chunk: Block, p: Progress)
    requires Reading(a, c, chunk, p)
    ensures var e := ReadPart(a, p, chunk);
      && e.block == p.block && e.w == p.w && (if e.ok then AcceptedAt(a, c, chunk, e) else Reading(a, c, chunk, e))
      && e.r == ReadsEnd(a, p.r, 1)
  {
    var e, q := ReadPart(a, p, chunk), First(a.decides, p.r, 3);
    FailedReads(a, c, chunk, p, q);
    assert ReadsEnd(a, e.r, 0) == e.r;
    if 0 < q { FirstMeaning(a.decides, p.r, 3, q - 1); }
    LastRead(a, c, chunk, p, e, q);
  }

  lemma LastRead(a: Answers, c: Carry, chunk: Block, p: Progress, e: Progress, q: nat)
    requires Reading(a, c, chunk, p) && e == ReadPart(a, p, chunk) && q == First(a.decides, p.r, 3)
    requires NoneConfirms(a, c, chunk, p.block, p.r + q) && (q < 3 ==> a.decides(p.r + q))
    requires p.rtn == if Decided(a, c.r, p.r + q) then -1 else c.rtn
    requires q > 0 ==> !a.decides(p.r + q - 1)
    ensures if e.ok then AcceptedAt(a, c, chunk, e) else Reading(a, c, chunk, e)
  {
    hide First;
    if q < 3 {
      assert Confirms(a, c, chunk, p.block, p.r + q) <==> e.ok;
    }
  }

  lemma {:induction false} ReadRounds(a: Answers, c: Carry, chunk: Block, p: Progress, n: nat)
    requires Reading(a, c, chunk, p)
    ensures var e := Rounds(a, p, chunk, n);
      && e.block == p.block && e.w == p.w
      && (if e.ok then AcceptedAt(a, c, chunk, e) && e.r <= ReadsEnd(a, p.r, n)
          else Reading(a, c, chunk, e) && e.r == ReadsEnd(a, p.r, n))
    decreases n
  {
    if n > 0 {
      assert p.acked && !p.ok;
      hide Reading, AcceptedAt;
      ReadRound(a, c, chunk, p);
      var next := ReadPart(a, p, chunk);
      assert next == Round(a, p, chunk);
      if next.ok {
        assert Rounds(a, next, chunk, n - 1) == next;
      } else {
        ReadRounds(a, c, chunk, next, n - 1);
      }
    }
  }

  // ------------------------------------------------------------- before the reads

  // After `round` rounds without an acknowledgement.
  function Unwritten(c: Carry, round: nat): Progress {
    Start(c).(w := c.w + 3 * round)
  }

  // Right after the first acknowledgement, that of answer number `f`.
  function Written(a: Answers, c: Carry, f: nat): Progress {
    Progress(true, c.w + f + 1, c.r, a.programmed(c.w + f), c.stale, c.rtn, false)
  }

  lemma WriteRound(a: Answers, c: Carry, round: nat)
    requires round < 3 && First(a.acknowledged, c.w, 3 * round) == 3 * round
    ensures var written, f := WritePart(a, Unwritten(c, round)), First(a.acknowledged, c.w, 9);
      if written.acked then f < 9 && f / 3 == round && written == Written(a, c, f)
      else written == Unwritten(c, round + 1) && First(a.acknowledged, c.w, 3 * (round + 1)) == 3 * (round + 1)
  {
    hide First;
    ThreeMore(a.acknowledged, c.w, 3 * round);
  }

  // The rounds up to the acknowledgement leave the reads to those that follow, its own included.
  lemma {:induction false} WriteRounds(a: Answers, c: Carry, chunk: Block, round: nat)
    requires round <= 3 && First(a.acknowledged, c.w, 3 * round) == 3 * round
    ensures var e, f := Rounds(a, Unwritten(c, round), chunk, 3 - round), First(a.acknowledged, c.w, 9);
      if f < 9 then e == Rounds(a, Written(a, c, f), chunk, 3 - f / 3) else !e.ok
    decreases 3 - round
  {
    hide First;
    if round < 3 {
      WriteRound(a, c, round);
      var p := Unwritten(c, round);
      var written := WritePart(a, p);
      if written.acked {
        assert WritePart(a, written) == written && Round(a, written, chunk) == Round(a, p, chunk);
      } else {
        assert Round(a, p, chunk) == written;
        WriteRounds(a, c, chunk, round + 1);
      }
    }
  }

  lemma WrittenReading(a: Answers, c: Carry, chunk: Block, f: nat)
    ensures Reading(a, c, chunk, Written(a, c, f))
  {}

  lemma ReadingNone(a: Answers, c: Carry, chunk: Block, p: Progress)
    requires Reading(a, c, chunk, p)
    ensures NoneConfirms(a, c, chunk, p.block, p.r)
  {}

  /**
    One chunk, for every device.  It is written until the first of nine acknowledgements; then the rounds that are left
    read until the first read that accepts it.
   */
  lemma ChunkReads(a: Answers, c: Carry, chunk: Block)
    ensures var e, f := ChunkEnd(a, c, chunk), First(a.acknowledged, c.w, 9);
      if f == 9 then !e.ok
      else
        && e.block == a.programmed(c.w + f) && e.w == c.w + f + 1
        && (if e.ok then AcceptedAt(a, c, chunk, e) && e.r <= ReadsEnd(a, c.r, 3 - f / 3)
            else NoneConfirms(a, c, chunk, e.block, ReadsEnd(a, c.r, 3 - f / 3)))
  {
    hide First, Rounds, ReadsEnd, Confirms, Reading, AcceptedAt;
    WriteRounds(a, c, chunk, 0);
    FirstNone(a.acknowledged, c.w);
    var f := First(a.acknowledged, c.w, 9);
    assert Unwritten(c, 0) == Start(c);
    if f < 9 {
      WrittenReading(a, c, chunk, f);
      ReadRounds(a, c, chunk, Written(a, c, f), 3 - f / 3);
      var e := ChunkEnd(a, c, chunk);
      if !e.ok { ReadingNone(a, c, chunk, e); }
    }
  }

  lemma FirstNone(p: nat -> bool, start: nat)
    ensures First(p, start, 0) == 0
  {}

  // Some read of the rounds left after the acknowledgement accepts the chunk.
  ghost predicate SomeConfirms(a: Answers, c: Carry, chunk: Block, block: Block, rounds: nat) {
    exists n: nat :: c.r <= n < ReadsEnd(a, c.r, rounds) && Confirms(a, c, chunk, block, n)
  }

  /**
    When a chunk is accepted, for every device: if one of nine answers acknowledges a write, and one of the reads of the
    rounds that are left accepts the chunk, answered with what that write stored or compared with an echo of the chunk.
   */
  lemma AcceptedIff(a: Answers, c: Carry, chunk: Block)
    ensures var f := First(a.acknowledged, c.w, 9);
      ChunkEnd(a, c, chunk).ok <==> f < 9 && SomeConfirms(a, c, chunk, a.programmed(c.w + f), 3 - f / 3)
  {
    hide First, Confirms, ReadsEnd, ChunkEnd;
    ChunkReads(a, c, chunk);
  }

  // The chunk is accepted without having been stored.
  ghost predicate Fooled(a: Answers, c: Carry, chunk: Block) {
    var f := First(a.acknowledged, c.w, 9);
    && f < 9 && a.programmed(c.w + f) != chunk
    && exists n: nat :: c.r <= n < ReadsEnd(a, c.r, 3 - f / 3) && a.decides(n) && !a.answered(n) && Echo(a, c, chunk, n)
  }

  /**
    When a chunk is accepted although the block holds something else: if the first acknowledged write stored
    something else, and some read that gets no response follows an echo of the chunk.
   */
  lemma FooledIff(a: Answers, c: Carry, chunk: Block)
    ensures var e := ChunkEnd(a, c, chunk);
      e.ok && e.block != chunk <==> Fooled(a, c, chunk)
  {
    hide First, Echo, ReadsEnd, ChunkEnd;
    var f := First(a.acknowledged, c.w, 9);
    ChunkReads(a, c, chunk);
    AcceptedIff(a, c, chunk);
    if f < 9 {
      var block, end := a.programmed(c.w + f), ReadsEnd(a, c.r, 3 - f / 3);
      if block != chunk {
        assert forall n: nat :: Confirms(a, c, chunk, block, n) <==>
            a.decides(n) && !a.answered(n) && Echo(a, c, chunk, n);
      }
    }
  }

  // No failure response carries the chunk.
  ghost predicate NoEcho(a: Answers, chunk: Block) {
    forall n: nat :: !a.decides(n) ==> a.failData(n) != chunk
  }

  /**
    If no failure response carries the chunk, only a first read without response, behind an earlier response that
    carried the chunk, does so.
   */
  lemma FooledFirst(a: Answers, c: Carry, chunk: Block)
    requires NoEcho(a, chunk)
    ensures var f := First(a.acknowledged, c.w, 9);
      Fooled(a, c, chunk) <==>
        f < 9 && a.programmed(c.w + f) != chunk && c.stale == chunk && a.decides(c.r) && !a.answered(c.r)
  {
    var f := First(a.acknowledged, c.w, 9);
    if f < 9 {
      ReadsMove(a, c.r, 3 - f / 3);
    }
  }

  lemma ReadsMove(a: Answers, r: nat, rounds: nat)
    requires rounds > 0
    ensures r < ReadsEnd(a, r, rounds)
  {}

  /**
    What an accepted chunk reports, for every device: the value is left as it was exactly if the first read that is not
    answered with a failure already accepts the chunk.
   */
  lemma ReportIff(a: Answers, c: Carry, chunk: Block)
    requires ChunkEnd(a, c, chunk).ok && c.rtn != -1
    ensures var e, f, q := ChunkEnd(a, c, chunk), First(a.acknowledged, c.w, 9), First(a.decides, c.r, 9);
      && f < 9 && q < 9 && (e.rtn == c.rtn || e.rtn == -1)
      && (e.rtn == c.rtn <==> Confirms(a, c, chunk, a.programmed(c.w + f), c.r + q))
  {
    hide First, Echo, ReadsEnd, ChunkEnd;
    var e, q := ChunkEnd(a, c, chunk), First(a.decides, c.r, 9);
    ChunkReads(a, c, chunk);
    var n := e.r - 1;
    FirstOf(a.decides, c.r, n);
    assert !Decided(a, c.r, n) <==> c.r + q == n;
  }

  // The first of nine, if number `n` is one.
  lemma FirstOf(p: nat -> bool, start: nat, n: nat)
    requires start <= n < start + 9 && p(n)
    ensures var q := First(p, start, 9);
      start + q <= n && p(start + q) && forall i: nat :: start <= i < start + q ==> !p(i)
  {
    hide First;
    var q := First(p, start, 9);
    FirstMeaning(p, start, 9, n - start);
    if q < 9 { FirstMeaning(p, start, 9, q); }
    forall i: nat | start <= i < start + q ensures !p(i) {
      FirstMeaning(p, start, 9, i - start);
    }
  }

  /**
    If no failure response carries the chunk, that is if the read is answered or the response before it carried the
    chunk.
   */
  lemma ReportFirst(a: Answers, c: Carry, chunk: Block)
    requires ChunkEnd(a, c, chunk).ok && c.rtn != -1 && NoEcho(a, chunk)
    ensures var e, q := ChunkEnd(a, c, chunk), First(a.decides, c.r, 9);
      e.rtn == c.rtn <==> a.answered(c.r + q) || (q == 0 && c.stale == chunk)
  {
    hide First, ReadsEnd, ChunkEnd;
    var e, q := ChunkEnd(a, c, chunk), First(a.decides, c.r, 9);
    ReportIff(a, c, chunk);
    ChunkReads(a, c, chunk);
    FirstOf(a.decides, c.r, e.r - 1);
    FooledIff(a, c, chunk);
    FooledFirst(a, c, chunk);
    if q > 0 { assert !a.decides(c.r + q - 1); }
  }

  // ------------------------------------------------------- devices that answer all reads

  // Every read is answered, with success or failure.
  ghost predicate AllAnswered(a: Answers) {
    forall n: nat :: a.decides(n) ==> a.answered(n)
  }

  // The failed reads a chunk survives after `f` failed writes: three in each round that is left.
  function ReadsLeft(f: nat): nat
    requires f < 9
  {
    3 * (3 - f / 3)
  }

  // The first success is among the reads of some rounds, if it comes within three a round.
  lemma {:induction false} DecidedIn(a: Answers, r: nat, rounds: nat)
    ensures Decided(a, r, ReadsEnd(a, r, rounds)) <==> First(a.decides, r, 3 * rounds) < 3 * rounds
    decreases rounds
  {
    if rounds > 0 {
      var q := First(a.decides, r, 3);
      FirstSplit(a.decides, r, 3, 3 * (rounds - 1));
      if q < 3 {
        FirstMeaning(a.decides, r, 3, q);
        assert r <= r + q < ReadsEnd(a, r, rounds);
      } else {
        DecidedIn(a, r + 3, rounds - 1);
        NoneOfThree(a, r);
        assert ReadsEnd(a, r, rounds) == ReadsEnd(a, r + 3, rounds - 1);
      }
    }
  }

  lemma NoneOfThree(a: Answers, r: nat)
    requires First(a.decides, r, 3) == 3
    ensures forall n: nat :: r <= n < r + 3 ==> !a.decides(n)
  {
    forall n: nat | r <= n < r + 3 ensures !a.decides(n) {
      FirstMeaning(a.decides, r, 3, n - r);
    }
  }

  // One of nine writes is acknowledged, the first of them stored the chunk, and one of the reads that are left
  // succeeds.
  predicate ChunkOk(a: Answers, w: nat, r: nat, chunk: Block) {
    var f := First(a.acknowledged, w, 9);
    f < 9 && a.programmed(w + f) == chunk && First(a.decides, r, ReadsLeft(f)) < ReadsLeft(f)
  }

  lemma ChunkKeeps(a: Answers, c: Carry, chunk: Block)
    requires AllAnswered(a)
    ensures var e := ChunkEnd(a, c, chunk);
      && (e.ok <==> ChunkOk(a, c.w, c.r, chunk)) && (e.ok ==> e.block == chunk && e.rtn == c.rtn)
  {
    hide First, Echo, ReadsEnd, ChunkEnd;
    var e, f := ChunkEnd(a, c, chunk), First(a.acknowledged, c.w, 9);
    ChunkReads(a, c, chunk);
    AcceptedIff(a, c, chunk);
    if f < 9 {
      DecidedIn(a, c.r, 3 - f / 3);
      var block := a.programmed(c.w + f);
      assert forall n: nat :: Confirms(a, c, chunk, block, n) <==> a.decides(n) && block == chunk;
    }
  }

  /**
    If every read is answered, a chunk is accepted exactly if its first acknowledged write is one of the first nine
    answered and stored it, and the first successful read comes within the three reads of each round that is left. In
    particular a write that was acknowledged but stored something else is never repeated.
   */
  lemma ChunkNeeds(a: Answers, c: Carry, chunk: Block)
    requires AllAnswered(a)
    ensures var e := ChunkEnd(a, c, chunk);
      && (e.ok <==> exists f: nat, q: nat :: f < 9 && q < ReadsLeft(f) && a.programmed(c.w + f) == chunk
                                             && FirstAt(a.acknowledged, c.w, f) && FirstAt(a.decides, c.r, q))
      && (e.ok ==> e.block == chunk && e.rtn == c.rtn)
  {
    ChunkKeeps(a, c, chunk);
    ChunkOkMeans(a, c.w, c.r, chunk);
  }

  lemma ChunkOkMeans(a: Answers, w: nat, r: nat, chunk: Block)
    ensures ChunkOk(a, w, r, chunk) <==>
            exists f: nat, q: nat :: f < 9 && q < ReadsLeft(f) && a.programmed(w + f) == chunk
                                     && FirstAt(a.acknowledged, w, f) && FirstAt(a.decides, r, q)
  {
    var f := First(a.acknowledged, w, 9);
    if ChunkOk(a, w, r, chunk) {
      var q := First(a.decides, r, ReadsLeft(f));
      FirstIs(a.acknowledged, w, 9, f);
      FirstIs(a.decides, r, ReadsLeft(f), q);
    }
    forall f': nat, q: nat | f' < 9 && q < ReadsLeft(f') && a.programmed(w + f') == chunk
                             && FirstAt(a.acknowledged, w, f') && FirstAt(a.decides, r, q)
      ensures ChunkOk(a, w, r, chunk)
    {
      FirstIs(a.acknowledged, w, 9, f');
      FirstIs(a.decides, r, ReadsLeft(f'), q);
    }
  }
}
