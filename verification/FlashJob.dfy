/**
  What the flash loop does with a whole file, as functions of how the device answers, and what it leaves in the
  flash.  Chunk follows chunk, each with three rounds of retries; the last response is carried from one to the next.
 */
module FlashJob {
  import opened Wire
  import opened Options
  import opened FlashRun

  /** What is sent as chunk `k`: a last chunk that the file does not fill keeps what the buffer held before. */
  function ChunkOf(garbage: Block, file: seq<byte>, k: nat): Block
    requires RW_LEN * k < |file|
  {
    seq(RW_LEN, i requires 0 <= i < RW_LEN =>
      if RW_LEN * k + i < |file| then file[RW_LEN * k + i]
      else if k > 0 then file[RW_LEN * (k - 1) + i]
      else garbage[i])
  }

  // The number of chunks of a file.
  function Chunks(file: seq<byte>): nat {
    (|file| + RW_LEN - 1) / RW_LEN
  }

  lemma ChunkCount(file: seq<byte>, k: nat)
    ensures k < Chunks(file) <==> RW_LEN * k < |file|
  {}

  /**
    A file to be written: the device, what the request buffer holds before, the file, and what the first chunk starts
    from.
   */
  datatype Job = Job(answers: Answers, garbage: Block, file: seq<byte>, start: Carry)

  function Chunk(j: Job, k: nat): Block
    requires k < Chunks(j.file)
  {
    ChunkCount(j.file, k);
    ChunkOf(j.garbage, j.file, k)
  }

  /** What is carried on after the first `k` chunks, if all of them were accepted. */
  function After(j: Job, k: nat): Option<Carry>
    requires k <= Chunks(j.file)
    decreases k, j
  {
    if k == 0 then Some(j.start)
    else
      match After(j, k - 1)
      case None => None
      case Some(c) =>
        var e := ChunkEnd(j.answers, c, Chunk(j, k - 1));
        if e.ok then Some(Carry(e.w, e.r, e.stale, e.rtn)) else None
  }

  // How chunk `k` ends, if it is reached.
  function EndOf(j: Job, k: nat): Progress
    requires k < Chunks(j.file) && After(j, k).Some?
  {
    ChunkEnd(j.answers, After(j, k).value, Chunk(j, k))
  }

  lemma {:induction false} NoneStays(j: Job, i: nat, k: nat)
    requires i <= k <= Chunks(j.file) && After(j, k).Some?
    ensures After(j, i).Some?
    decreases k
  {
    if i < k { NoneStays(j, i, k - 1); }
  }

  // Nine answers to writes and nine reads a chunk at most.
  lemma {:induction false} AfterCounts(j: Job, k: nat)
    requires k <= Chunks(j.file) && After(j, k).Some?
    ensures var c := After(j, k).value;
      c.w <= j.start.w + 9 * k && c.r <= j.start.r + 9 * k && (c.rtn == j.start.rtn || c.rtn == -1)
    decreases k
  {
    if k > 0 {
      AfterCounts(j, k - 1);
      RoundsCounts(j.answers, Start(After(j, k - 1).value), Chunk(j, k - 1), 3);
    }
  }

  // Chunk `i`, one of `k` that were accepted.
  lemma ChunkAccepted(j: Job, k: nat, i: nat)
    requires i < k <= Chunks(j.file) && After(j, k).Some?
    ensures After(j, i).Some? && EndOf(j, i).ok && AcceptedBy(j.answers, EndOf(j, i), Chunk(j, i))
  {
    NoneStays(j, i + 1, k);
    NoneStays(j, i, k);
    Accepts(j.answers, Start(After(j, i).value), Chunk(j, i), 3);
  }

  // The last chunks sent, up to as many as the device has blocks, ended in their blocks.
  ghost predicate Latest(j: Job, k: nat, flash: seq<Block>) {
    && |flash| == BLOCKS && k <= Chunks(j.file) && After(j, k).Some?
    && forall i: nat :: i < k <= i + BLOCKS ==> After(j, i).Some? && flash[i % BLOCKS] == EndOf(j, i).block
  }

  ghost predicate OnlyBlock(before: seq<Block>, after: seq<Block>, b: nat) {
    |after| == |before| && forall i :: 0 <= i < |before| && i != b ==> after[i] == before[i]
  }

  lemma OtherBlock(i: nat, k: nat)
    requires i < k < i + BLOCKS
    ensures i % BLOCKS != k % BLOCKS
  {}

  lemma NextLatest(j: Job, k: nat, before: seq<Block>, after: seq<Block>)
    requires Latest(j, k, before) && k < Chunks(j.file) && EndOf(j, k).ok
    requires OnlyBlock(before, after, k % BLOCKS) && after[k % BLOCKS] == EndOf(j, k).block
    ensures Latest(j, k + 1, after)
  {
    forall i: nat | i < k + 1 <= i + BLOCKS ensures After(j, i).Some? && after[i % BLOCKS] == EndOf(j, i).block {
      if i < k { OtherBlock(i, k); }
    }
  }

  // ------------------------------------------------------------- what the flash holds

  // The data of the last response before chunk `k`, if all chunks before it were accepted.
  function Before(j: Job, k: nat): Block
    requires k < Chunks(j.file)
  {
    if k == 0 then j.start.stale else Chunk(j, k - 1)
  }

  lemma CarriedData(j: Job, k: nat)
    requires k < Chunks(j.file) && After(j, k).Some?
    ensures After(j, k).value.stale == Before(j, k)
  {
    if k > 0 { ChunkAccepted(j, k, k - 1); }
  }

  // Chunk `k` is not accepted without having been stored.
  ghost predicate Sound(j: Job, k: nat)
    requires k < Chunks(j.file)
  {
    After(j, k).Some? && !Fooled(j.answers, After(j, k).value, Chunk(j, k))
  }

  ghost predicate AllSound(j: Job) {
    forall k: nat :: k < Chunks(j.file) ==> Sound(j, k)
  }

  lemma SoundIff(j: Job, k: nat)
    requires k < Chunks(j.file) && After(j, Chunks(j.file)).Some?
    ensures After(j, k).Some? && (EndOf(j, k).block == Chunk(j, k) <==> Sound(j, k))
  {
    ChunkAccepted(j, Chunks(j.file), k);
    FooledIff(j.answers, After(j, k).value, Chunk(j, k));
  }

  function FlashByte(flash: seq<Block>, n: nat): byte
    requires |flash| == BLOCKS && n < RW_LEN * BLOCKS
  {
    flash[n / RW_LEN][n % RW_LEN]
  }

  /**
    After a run that accepted every chunk, a byte of the file is in its place if its chunk is sound and no later
    chunk went to its block, the address of a longer file being taken modulo the address space.
   */
  lemma LongFile(j: Job, flash: seq<Block>, n: nat)
    requires Latest(j, Chunks(j.file), flash)
    requires n < |j.file| && n / RW_LEN < Chunks(j.file) <= n / RW_LEN + BLOCKS && Sound(j, n / RW_LEN)
    ensures flash[(n / RW_LEN) % BLOCKS][n % RW_LEN] == j.file[n]
  {
    var i := n / RW_LEN;
    SoundIff(j, i);
    assert flash[i % BLOCKS] == Chunk(j, i);
  }

  // Every chunk lies in its block.
  ghost predicate Stored(j: Job, flash: seq<Block>)
    requires |flash| == BLOCKS && |j.file| <= RW_LEN * BLOCKS
  {
    forall k: nat :: k < Chunks(j.file) ==> k < BLOCKS && flash[k] == Chunk(j, k)
  }

  lemma BlockIff(j: Job, flash: seq<Block>, k: nat)
    requires Latest(j, Chunks(j.file), flash) && k < Chunks(j.file) && |j.file| <= RW_LEN * BLOCKS
    ensures k < BLOCKS && (flash[k] == Chunk(j, k) <==> Sound(j, k))
  {
    hide After, EndOf, Sound, Chunk;
    FewChunks(j.file, k);
    SoundIff(j, k);
    assert flash[k % BLOCKS] == EndOf(j, k).block;
  }

  lemma FewChunks(file: seq<byte>, k: nat)
    requires k < Chunks(file) && |file| <= RW_LEN * BLOCKS
    ensures Chunks(file) <= BLOCKS && k % BLOCKS == k
  {
    ChunkCount(file, BLOCKS);
  }

  /**
    After a run that accepted every chunk, the flash holds a file that fits the address space exactly if every chunk
    is sound.
   */
  lemma StoredIff(j: Job, flash: seq<Block>)
    requires Latest(j, Chunks(j.file), flash) && |j.file| <= RW_LEN * BLOCKS
    ensures Stored(j, flash) <==> AllSound(j)
  {
    assert |flash| == BLOCKS;
    hide Latest, Sound, Chunks;
    forall k: nat | k < Chunks(j.file) ensures k < BLOCKS && (flash[k] == Chunk(j, k) <==> Sound(j, k)) {
      BlockIff(j, flash, k);
    }
  }

  /** Then every byte is in its place. */
  lemma FlashIsFile(j: Job, flash: seq<Block>, n: nat)
    requires |flash| == BLOCKS && n < |j.file| <= RW_LEN * BLOCKS && Stored(j, flash)
    ensures FlashByte(flash, n) == j.file[n]
  {
    ChunkCount(j.file, n / RW_LEN);
    assert flash[n / RW_LEN] == Chunk(j, n / RW_LEN);
  }

  // ------------------------------------------------------- which files can be relied on

  /** No chunk repeats the one before it, nor the first the data left in the response buffer. */
  ghost predicate NoRepeat(j: Job) {
    forall k: nat :: k < Chunks(j.file) ==> Chunk(j, k) != Before(j, k)
  }

  // No failure response carries a chunk of the file.
  ghost predicate NoEchoes(j: Job) {
    forall k: nat :: k < Chunks(j.file) ==> NoEcho(j.answers, Chunk(j, k))
  }

  // What can be known before the run.
  ghost predicate Reliable(j: Job) {
    AllAnswered(j.answers) || (NoRepeat(j) && NoEchoes(j))
  }

  lemma ReliableSound(j: Job)
    requires Reliable(j) && After(j, Chunks(j.file)).Some?
    ensures AllSound(j)
  {
    forall k: nat | k < Chunks(j.file) ensures Sound(j, k) {
      NoneStays(j, k, Chunks(j.file));
      if !AllAnswered(j.answers) {
        CarriedData(j, k);
        FooledFirst(j.answers, After(j, k).value, Chunk(j, k));
      }
    }
  }

  // The first write is acknowledged and the first read accepts.
  lemma StraightOn(a: Answers, c: Carry, chunk: Block)
    requires a.acknowledged(c.w) && a.decides(c.r)
    requires chunk == if a.answered(c.r) then a.programmed(c.w) else c.stale
    ensures ChunkEnd(a, c, chunk) == Progress(true, c.w + 1, c.r + 1, a.programmed(c.w), chunk, c.rtn, true)
  {
    var p := Round(a, Start(c), chunk);
    assert Rounds(a, p, chunk, 2) == p;
  }

  function Other(b: Block): Block {
    b[0 := if b[0] == 0 then 1 else 0]
  }

  // What a device stores that gets every chunk right but number `k`.
  function AllBut(j: Job, k: nat, n: nat): Block
    requires k < Chunks(j.file)
  {
    if n == j.start.w + k then Other(Chunk(j, k))
    else if j.start.w <= n < j.start.w + Chunks(j.file) then Chunk(j, n - j.start.w)
    else j.garbage
  }

  // It acknowledges every write, and answers every read but that of chunk `k`.
  function Quiet(j: Job, k: nat): Job
    requires k < Chunks(j.file)
  {
    j.(answers := Answers(_ => true, _ => 0, n => AllBut(j, k, n), (_, _) => None, _ => true, n => n != j.start.r + k,
        _ => j.garbage))
  }

  lemma QuietChunk(j: Job, k: nat, i: nat, c: Carry)
    requires k < Chunks(j.file) && Chunk(j, k) == Before(j, k) && i < Chunks(j.file)
    requires c.w == j.start.w + i && c.r == j.start.r + i && c.stale == Before(j, i)
    ensures Chunk(Quiet(j, k), i) == Chunk(j, i)
    ensures ChunkEnd(Quiet(j, k).answers, c, Chunk(j, i)) ==
            Progress(true, c.w + 1, c.r + 1, AllBut(j, k, c.w), Chunk(j, i), c.rtn, true)
  {
    StraightOn(Quiet(j, k).answers, c, Chunk(j, i));
  }

  lemma {:induction false} QuietRun(j: Job, k: nat, i: nat)
    requires k < Chunks(j.file) && Chunk(j, k) == Before(j, k) && i <= Chunks(j.file)
    ensures var z := Quiet(j, k);
      && After(z, i).Some?
      && var c := After(z, i).value;
         c.w == j.start.w + i && c.r == j.start.r + i && c.rtn == j.start.rtn
             && (i < Chunks(j.file) ==> c.stale == Before(j, i))
    decreases i
  {
    hide ChunkEnd;
    if i > 0 {
      QuietRun(j, k, i - 1);
      QuietChunk(j, k, i - 1, After(Quiet(j, k), i - 1).value);
    }
  }

  /**
    A repeated chunk can be lost unnoticed: some device that never fails, and leaves one read unanswered, makes the run
    leave the value to be returned as it was, while the block of that chunk holds something else.
   */
  lemma RepeatFools(j: Job, k: nat) returns (z: Job)
    requires k < Chunks(j.file) && Chunk(j, k) == Before(j, k)
    ensures z == j.(answers := z.answers) && NoEchoes(z)
    ensures After(z, Chunks(j.file)).Some? && After(z, Chunks(j.file)).value.rtn == j.start.rtn
    ensures After(z, k).Some? && !Sound(z, k) && RW_LEN * k < |j.file| && EndOf(z, k).block[0] != j.file[RW_LEN * k]
  {
    hide After, Chunks, Sound;
    z := Quiet(j, k);
    QuietRun(j, k, Chunks(j.file));
    QuietRun(j, k, k);
    QuietEnd(j, k);
    SoundIff(z, k);
  }

  lemma QuietEnd(j: Job, k: nat)
    requires k < Chunks(j.file) && After(Quiet(j, k), k).Some?
    requires var c := After(Quiet(j, k), k).value;
      c.w == j.start.w + k && c.r == j.start.r + k && c.stale == Before(j, k)
    requires Chunk(j, k) == Before(j, k)
    ensures var e := EndOf(Quiet(j, k), k);
      RW_LEN * k < |j.file| && e.block[0] != j.file[RW_LEN * k] && e.block != Chunk(Quiet(j, k), k)
  {
    hide After, ChunkEnd;
    QuietChunk(j, k, k, After(Quiet(j, k), k).value);
    FirstByte(j, k);
  }

  lemma FirstByte(j: Job, k: nat)
    requires k < Chunks(j.file)
    ensures RW_LEN * k < |j.file| && Chunk(j, k)[0] == j.file[RW_LEN * k]
  {
    ChunkCount(j.file, k);
  }

  // The chunks of a file do not depend on the device.
  lemma SameChunks(j: Job, z: Job)
    requires z == j.(answers := z.answers)
    ensures forall k: nat :: k < Chunks(j.file) ==> Chunk(z, k) == Chunk(j, k) && Before(z, k) == Before(j, k)
  {}

  /**
    Which files can be relied on, whatever device leaves reads unanswered, as long as its failure responses carry none
    of the chunks: exactly those without a repeated chunk.
   */
  lemma ReliedOnIff(j: Job)
    ensures NoRepeat(j) <==> forall a: Answers ::
      var z := j.(answers := a); NoEchoes(z) && After(z, Chunks(j.file)).Some? ==> AllSound(z)
  {
    if NoRepeat(j) {
      forall a: Answers | NoEchoes(j.(answers := a)) && After(j.(answers := a), Chunks(j.file)).Some?
        ensures AllSound(j.(answers := a))
      {
        SameChunks(j, j.(answers := a));
        ReliableSound(j.(answers := a));
      }
    } else {
      var k: nat :| k < Chunks(j.file) && Chunk(j, k) == Before(j, k);
      var z := RepeatFools(j, k);
      assert !AllSound(z);
      assert z == j.(answers := z.answers);
    }
  }

  // ------------------------------------------------------------- what is reported

  // The first read of chunk `k` that is not answered with a failure accepts it, as the first acknowledged write left
  // it.
  ghost predicate AtOnce(j: Job, k: nat)
    requires k < Chunks(j.file) && After(j, k).Some?
  {
    var a, c := j.answers, After(j, k).value;
    var f, q := First(a.acknowledged, c.w, 9), First(a.decides, c.r, 9);
    Confirms(a, c, Chunk(j, k), a.programmed(c.w + f), c.r + q)
  }

  // So are the first `n` chunks.
  ghost predicate AllAtOnce(j: Job, n: nat)
    requires n <= Chunks(j.file)
  {
    forall k: nat :: k < n ==> After(j, k).Some? && AtOnce(j, k)
  }

  lemma NothingYet(j: Job)
    ensures After(j, 0) == Some(j.start)
  {}

  // A value of -1 stays.
  lemma Blamed(a: Answers, c: Carry, chunk: Block)
    requires c.rtn == -1
    ensures ChunkEnd(a, c, chunk).rtn == -1
  {
    RoundsCounts(a, Start(c), chunk, 3);
  }

  lemma ReportStep(j: Job, k: nat)
    requires 0 < k <= Chunks(j.file) && After(j, k).Some?
    ensures After(j, k - 1).Some? &&
      var before, rtn := After(j, k - 1).value.rtn, After(j, k).value.rtn;
      if before == -1 then rtn == -1 else (rtn == before || rtn == -1) && (rtn == before <==> AtOnce(j, k - 1))
  {
    hide First, ChunkEnd, Confirms;
    var c := After(j, k - 1).value;
    if c.rtn != -1 {
      ReportIff(j.answers, c, Chunk(j, k - 1));
    } else {
      Blamed(j.answers, c, Chunk(j, k - 1));
    }
  }

  /**
    A run that accepts all chunks returns what it started with exactly if each of them is accepted at once, and -1
    else.
   */
  lemma {:induction false} ReportsIff(j: Job, k: nat)
    requires k <= Chunks(j.file) && After(j, k).Some? && j.start.rtn != -1
    ensures var rtn := After(j, k).value.rtn;
      && (rtn == j.start.rtn || rtn == -1)
      && (rtn == j.start.rtn <==> AllAtOnce(j, k))
    decreases k
  {
    hide After, AtOnce;
    if k == 0 {
      NothingYet(j);
    } else {
      ReportStep(j, k);
      ReportsIff(j, k - 1);
    }
  }

  /** If every read is answered, a run that accepts all chunks returns what it started with. */
  lemma {:induction false} ReturnsZero(j: Job, k: nat)
    requires AllAnswered(j.answers) && k <= Chunks(j.file) && After(j, k).Some?
    ensures After(j, k).value.rtn == j.start.rtn
    decreases k
  {
    if k > 0 {
      ReturnsZero(j, k - 1);
      ChunkKeeps(j.answers, After(j, k - 1).value, Chunk(j, k - 1));
    }
  }

  // Every byte of the file is in its place.
  ghost predicate InFlash(file: seq<byte>, flash: seq<Block>) {
    |flash| == BLOCKS && |file| <= RW_LEN * BLOCKS && forall n: nat :: n < |file| ==> FlashByte(flash, n) == file[n]
  }

  /**
    What a value that was returned says about the flash: 0 exactly if every chunk was accepted at once, which tells
    nothing about a chunk that is not sound; the chunks are stored exactly if all are sound, which is known
    before the run of a device that answers all reads, or of a file that does not repeat a chunk.
   */
  ghost predicate Tells(j: Job, rtn: int, flash: seq<Block>) {
    && |flash| == BLOCKS && (rtn == 0 || rtn == -1)
    && (rtn == 0 <==> AllAtOnce(j, Chunks(j.file)))
    && (AllAnswered(j.answers) ==> rtn == 0)
    && (Reliable(j) ==> AllSound(j))
    && (|j.file| <= RW_LEN * BLOCKS ==> (Stored(j, flash) <==> AllSound(j)))
    && (|j.file| <= RW_LEN * BLOCKS && AllSound(j) ==> InFlash(j.file, flash))
  }

  lemma EveryByte(j: Job, flash: seq<Block>)
    requires |flash| == BLOCKS && |j.file| <= RW_LEN * BLOCKS && Stored(j, flash)
    ensures InFlash(j.file, flash)
  {
    forall n: nat | n < |j.file| ensures FlashByte(flash, n) == j.file[n] {
      FlashIsFile(j, flash, n);
    }
  }

  lemma RunTells(j: Job, flash: seq<Block>)
    requires Latest(j, Chunks(j.file), flash) && j.start.rtn == 0
    ensures Tells(j, After(j, Chunks(j.file)).value.rtn, flash)
  {
    assert After(j, Chunks(j.file)).Some? && |flash| == BLOCKS;
    hide After, Latest, AllSound, AllAtOnce, AllAnswered, Chunks, Stored, Reliable, InFlash;
    ReportsIff(j, Chunks(j.file));
    if AllAnswered(j.answers) { ReturnsZero(j, Chunks(j.file)); }
    if Reliable(j) { ReliableSound(j); }
    if |j.file| <= RW_LEN * BLOCKS {
      StoredIff(j, flash);
      if AllSound(j) { EveryByte(j, flash); }
    }
  }
}
