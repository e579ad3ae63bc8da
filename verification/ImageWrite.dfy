/**
  The flash loop of the boot loader client (sb_image_write): chunks of 64 bytes, each written with
  retries and read back with retries, inside an outer retry.  The device is any function of the
  number of the request, and it may leave requests unanswered.
 */
module ImageWrite {
  import opened Wire
  import opened Firmware
  import opened FlashRun
  import opened FlashJob
  import opened Options

  const SUCCESS: byte := 0
  const FAILURE: byte := 1

  // ------------------------------------------------------------------- device

  function Address(low: byte, high: byte): nat {
    low as int + 0x100 * (high as int)
  }

  class Device {
    const answers: Answers
    var flash: seq<Block>
    // Answered writes, reads, and the writes that will go unanswered before the next answer.
    var writeCount: nat
    var readCount: nat
    var silent: nat

    ghost predicate Valid()
      reads this
    {
      |flash| == BLOCKS
    }

    constructor (answers: Answers, flash: seq<Block>)
      requires |flash| == BLOCKS
      ensures Valid() && this.answers == answers && this.flash == flash
      ensures writeCount == 0 && readCount == 0 && silent == answers.silence(0)
    {
      this.answers := answers;
      this.flash := flash;
      writeCount, readCount, silent := 0, 0, answers.silence(0);
    }

    // A write request with the 16-bit word address in front of the data. It changes the addressed block at most.
    method Write(pData: array<byte>) returns (answered: bool, status: byte)
      requires Valid() && pData.Length >= 2 + RW_LEN
      requires Address(pData[0], pData[1]) % BLOCK_WORDS == 0
      modifies this`flash, this`writeCount, this`silent
      ensures Valid() && answered == (old(silent) == 0)
      ensures OnlyBlock(old(flash), flash, Address(pData[0], pData[1]) / BLOCK_WORDS)
      ensures !answered ==> writeCount == old(writeCount) && silent == old(silent) - 1
      ensures answered ==>
        && writeCount == old(writeCount) + 1 && silent == answers.silence(writeCount)
        && (status == SUCCESS <==> answers.acknowledged(old(writeCount)))
        && flash[Address(pData[0], pData[1]) / BLOCK_WORDS] == answers.programmed(old(writeCount))
    {
      var b := Address(pData[0], pData[1]) / BLOCK_WORDS;
      answered, status := silent == 0, FAILURE;
      if answered {
        flash := flash[b := answers.programmed(writeCount)];
        if answers.acknowledged(writeCount) { status := SUCCESS; }
        writeCount := writeCount + 1;
        silent := answers.silence(writeCount);
      } else {
        var lost := answers.lost(writeCount, silent);
        if lost.Some? { flash := flash[b := lost.value]; }
        silent := silent - 1;
      }
    }

    // A read request: what a successful response carries is what the block holds.
    method Read(low: byte, high: byte) returns (answered: bool, status: byte, data: Block)
      requires Valid() && Address(low, high) % BLOCK_WORDS == 0
      modifies this`readCount
      ensures readCount == old(readCount) + 1
      ensures !answered <==> answers.decides(old(readCount)) && !answers.answered(old(readCount))
      ensures answered ==>
        && (status == SUCCESS <==> answers.decides(old(readCount)))
        && data == if status == SUCCESS then flash[Address(low, high) / BLOCK_WORDS]
            else answers.failData(old(readCount))
    {
      status, data := SUCCESS, flash[Address(low, high) / BLOCK_WORDS];
      answered := answers.answered(readCount);
      if !answers.decides(readCount) {
        answered, status, data := true, FAILURE, answers.failData(readCount);
      }
      readCount := readCount + 1;
    }
  }

  // ------------------------------------------------------------- the retry loops

  method SetAddress(pData: array<byte>, addr: nat)
    requires pData.Length >= 2 && addr < 0x10000
    modifies pData
    ensures pData[0] as int == addr % 0x100 && pData[1] as int == addr / 0x100
    ensures Address(pData[0], pData[1]) == addr
    ensures pData[2..] == old(pData[2..])
  {
    pData[0] := (addr % 0x100) as byte;
    pData[1] := (addr / 0x100) as byte;
    ByteOf(addr % 0x100);
    ByteOf(addr / 0x100);
  }

  // What the write loop does: nothing after an acknowledgement, else it goes on to the first of three answers that is
  // one.
  ghost predicate Wrote(a: Answers, w: nat, before: Block, acknowledged: byte, w': nat, after: Block,
                        returnStatus: byte)
  {
    var f := First(a.acknowledged, w, 3);
    if acknowledged == SUCCESS then returnStatus == SUCCESS && w' == w && after == before
    else if f < 3 then returnStatus == SUCCESS && w' == w + f + 1 && after == a.programmed(w + f)
    else returnStatus != SUCCESS && w' == w + 3
  }

  // The data of the last response after `q` more failures.
  function Stale(a: Answers, r: nat, q: nat, lastData: Block): Block {
    if q == 0 then lastData else a.failData(r + q - 1)
  }

  // What the read loop does: it goes on to the first of three reads that is not answered with a failure, and compares.
  ghost predicate ReadBack(a: Answers, r: nat, chunk: Block, block: Block, lastData: Block, result: int,
                           r': nat, rdRsp: Block, readbackStatus: int, rtnval: int)
  {
    var q := First(a.decides, r, 3);
    && r' == r + (if q < 3 then q + 1 else 3)
    && rdRsp == (if q < 3 && a.answered(r + q) then block else Stale(a, r, q, lastData))
    && readbackStatus == (if q < 3 && rdRsp == chunk then 0 else -1)
    && rtnval == (if q < 3 && rdRsp != chunk then -1 else result)
  }

  // The read that ends the loop, after `n` failures.
  lemma ReadEnds(a: Answers, r: nat, n: nat, chunk: Block, block: Block, lastData: Block, result: int, rdRsp: Block)
    requires n < 3 && First(a.decides, r, n) == n && a.decides(r + n)
    requires rdRsp == if a.answered(r + n) then block else Stale(a, r, n, lastData)
    ensures ReadBack(a, r, chunk, block, lastData, result, r + n + 1, rdRsp,
                     if rdRsp == chunk then 0 else -1, if rdRsp == chunk then result else -1)
  {
    Attempt(a.decides, r, n);
  }

  // The innermost write loop: at most three answers, none if a write was acknowledged before.
  method WriteTries(dev: Device, wrReq: array<byte>, addr: nat, acknowledged: byte) returns (returnStatus: byte)
    requires dev.Valid() && wrReq.Length == 256 && addr < 0x10000 && addr % BLOCK_WORDS == 0
    modifies dev`flash, dev`writeCount, dev`silent, wrReq
    ensures dev.Valid() && wrReq[2..] == old(wrReq[2..])
    ensures OnlyBlock(old(dev.flash), dev.flash, addr / BLOCK_WORDS)
    ensures Wrote(dev.answers, old(dev.writeCount), old(dev.flash[addr / BLOCK_WORDS]), acknowledged,
                  dev.writeCount, dev.flash[addr / BLOCK_WORDS], returnStatus)
  {
    returnStatus := acknowledged;
    var wrRetry := 0;
    ghost var w := dev.writeCount;
    while returnStatus != SUCCESS && wrRetry < 3
      invariant dev.Valid() && 0 <= wrRetry <= 3 && wrReq[2..] == old(wrReq[2..])
      invariant OnlyBlock(old(dev.flash), dev.flash, addr / BLOCK_WORDS)
      invariant acknowledged == SUCCESS ==>
        returnStatus == SUCCESS && dev.writeCount == w && dev.flash == old(dev.flash)
      invariant acknowledged != SUCCESS && returnStatus != SUCCESS ==>
        dev.writeCount == w + wrRetry && First(dev.answers.acknowledged, w, wrRetry) == wrRetry
      invariant acknowledged != SUCCESS && returnStatus == SUCCESS ==>
        && wrRetry < 3 && First(dev.answers.acknowledged, w, 3) == wrRetry
        && dev.writeCount == w + wrRetry + 1
        && dev.flash[addr / BLOCK_WORDS] == dev.answers.programmed(w + wrRetry)
      decreases 3 - wrRetry, if returnStatus == SUCCESS then 0 else 1, dev.silent
    {
      SetAddress(wrReq, addr);
      var answered, status := dev.Write(wrReq);
      if answered {
        returnStatus := status;
        Attempt(dev.answers.acknowledged, w, wrRetry);
        if returnStatus != SUCCESS {
          wrRetry := wrRetry + 1;
        }
      }
    }
  }

  // The read-back loop: a failure is repeated, anything else, an unanswered read included, is compared and ends it.
  method ReadTries(dev: Device, rdReq: array<byte>, wrReq: array<byte>, addr: nat, ghost chunk: Block, result: int,
                   lastData: Block)
    returns (readbackStatus: int, rtnval: int, rdRsp: Block)
    requires dev.Valid() && wrReq.Length == 256 && rdReq.Length == 256 && rdReq != wrReq
    requires addr < 0x10000 && addr % BLOCK_WORDS == 0 && wrReq[2..2 + RW_LEN] == chunk
    modifies dev`readCount, rdReq
    ensures ReadBack(dev.answers, old(dev.readCount), chunk, dev.flash[addr / BLOCK_WORDS], lastData, result,
                     dev.readCount, rdRsp, readbackStatus, rtnval)
  {
    readbackStatus, rtnval, rdRsp := -1, result, lastData;
    var rdRetry := 0;
    ghost var a, r, block := dev.answers, dev.readCount, dev.flash[addr / BLOCK_WORDS];
    while readbackStatus != 0 && rdRetry < 3
      invariant dev.Valid() && 0 <= rdRetry <= 3 && rtnval == result && wrReq[2..2 + RW_LEN] == chunk
      invariant readbackStatus == 0 ==> ReadBack(a, r, chunk, block, lastData, result, dev.readCount, rdRsp, 0, result)
      invariant readbackStatus != 0 ==>
        && readbackStatus == -1 && dev.readCount == r + rdRetry
        && First(a.decides, r, rdRetry) == rdRetry && rdRsp == Stale(a, r, rdRetry, lastData)
      decreases 3 - rdRetry, if readbackStatus == 0 then 0 else 1
    {
      SetAddress(rdReq, addr);
      var answered, status, data := dev.Read(rdReq[0], rdReq[1]);
      if answered {
        rdRsp := data;
        if status != SUCCESS {
          Attempt(a.decides, r, rdRetry);
          rdRetry := rdRetry + 1;
          continue;
        }
      }
      ReadEnds(a, r, rdRetry, chunk, block, lastData, result, rdRsp);
      if wrReq[2..2 + RW_LEN] != rdRsp {
        rtnval := -1;
        break;
      } else {
        readbackStatus := 0;
      }
    }
  }

  // The counts, the addressed block and the local variables are where the model is.
  ghost predicate At(w: nat, r: nat, block: Block, returnStatus: byte, readbackStatus: int, rtnval: int, rdRsp: Block,
                     p: Progress)
  {
    && (returnStatus == SUCCESS <==> p.acked) && (readbackStatus == 0 <==> p.ok)
    && w == p.w && r == p.r && rtnval == p.rtn && rdRsp == p.stale && (p.acked ==> block == p.block)
  }

  lemma RoundIs(a: Answers, p: Progress, chunk: Block, acknowledged: byte, block: Block, w: nat, r: nat, after: Block,
                returnStatus: byte, readbackStatus: int, rtnval: int, rdRsp: Block)
    requires !p.ok && At(p.w, p.r, block, acknowledged, -1, p.rtn, p.stale, p)
    requires Wrote(a, p.w, block, acknowledged, w, after, returnStatus)
    requires returnStatus == SUCCESS ==>
        ReadBack(a, p.r, chunk, after, p.stale, p.rtn, r, rdRsp, readbackStatus, rtnval)
    requires returnStatus != SUCCESS ==> r == p.r && rdRsp == p.stale && readbackStatus == -1 && rtnval == p.rtn
    ensures At(w, r, after, returnStatus, readbackStatus, rtnval, rdRsp, FlashRun.Round(a, p, chunk))
  {
    var written := WritePart(a, p);
    assert At(w, p.r, after, returnStatus, -1, p.rtn, p.stale, written);
  }

  lemma NextRound(a: Answers, p: Progress, chunk: Block, n: nat)
    requires n > 0 && !p.ok
    ensures Rounds(a, p, chunk, n) == Rounds(a, FlashRun.Round(a, p, chunk), chunk, n - 1)
  {}

  // One round of the outer loop: writes until one is acknowledged, then reads.
  method RetryRound(dev: Device, wrReq: array<byte>, rdReq: array<byte>, addr: nat, ghost chunk: Block,
                    acknowledged: byte, result: int, lastData: Block, ghost p: Progress)
    returns (returnStatus: byte, readbackStatus: int, rtnval: int, rdRsp: Block)
    requires dev.Valid() && wrReq.Length == 256 && rdReq.Length == 256 && rdReq != wrReq
    requires addr < 0x10000 && addr % BLOCK_WORDS == 0 && wrReq[2..2 + RW_LEN] == chunk
    requires !p.ok && At(dev.writeCount, dev.readCount, dev.flash[addr / BLOCK_WORDS], acknowledged, -1, result,
        lastData, p)
    modifies dev`flash, dev`writeCount, dev`readCount, dev`silent, wrReq, rdReq
    ensures dev.Valid() && wrReq[2..] == old(wrReq[2..])
    ensures OnlyBlock(old(dev.flash), dev.flash, addr / BLOCK_WORDS)
    ensures At(dev.writeCount, dev.readCount, dev.flash[addr / BLOCK_WORDS], returnStatus, readbackStatus, rtnval,
               rdRsp, FlashRun.Round(dev.answers, p, chunk))
  {
    ghost var block := dev.flash[addr / BLOCK_WORDS];
    readbackStatus, rtnval, rdRsp := -1, result, lastData;
    returnStatus := WriteTries(dev, wrReq, addr, acknowledged);
    if returnStatus == SUCCESS {
      readbackStatus, rtnval, rdRsp := ReadTries(dev, rdReq, wrReq, addr, chunk, rtnval, rdRsp);
    }
    RoundIs(dev.answers, p, chunk, acknowledged, block, dev.writeCount, dev.readCount, dev.flash[addr / BLOCK_WORDS],
            returnStatus, readbackStatus, rtnval, rdRsp);
  }

  /** The outer loop for one chunk: three rounds at most. */
  method WriteChunk(dev: Device, wrReq: array<byte>, rdReq: array<byte>, addr: nat, ghost chunk: Block, result: int,
                    lastData: Block)
    returns (readbackStatus: int, rtnval: int, rdRsp: Block)
    requires dev.Valid() && wrReq.Length == 256 && rdReq.Length == 256 && rdReq != wrReq
    requires addr < 0x10000 && addr % BLOCK_WORDS == 0 && wrReq[2..2 + RW_LEN] == chunk
    modifies dev`flash, dev`writeCount, dev`readCount, dev`silent, wrReq, rdReq
    ensures dev.Valid() && wrReq[2..] == old(wrReq[2..])
    ensures OnlyBlock(old(dev.flash), dev.flash, addr / BLOCK_WORDS)
    ensures
      var e := ChunkEnd(dev.answers, Carry(old(dev.writeCount), old(dev.readCount), lastData, result), chunk);
      && (readbackStatus == 0 <==> e.ok) && rtnval == e.rtn && rdRsp == e.stale
      && dev.writeCount == e.w && dev.readCount == e.r && (e.acked ==> dev.flash[addr / BLOCK_WORDS] == e.block)
  {
    var returnStatus: byte := 0xff;
    var rwRetry := 0;
    readbackStatus, rtnval, rdRsp := -1, result, lastData;
    ghost var a, start := dev.answers, Start(Carry(dev.writeCount, dev.readCount, lastData, result));
    ghost var p := start;
    while readbackStatus != 0 && rwRetry < 3
      invariant dev.Valid() && 0 <= rwRetry <= 3
      invariant wrReq[2..] == old(wrReq[2..]) && wrReq[2..2 + RW_LEN] == chunk
      invariant OnlyBlock(old(dev.flash), dev.flash, addr / BLOCK_WORDS)
      invariant At(dev.writeCount, dev.readCount, dev.flash[addr / BLOCK_WORDS], returnStatus, readbackStatus, rtnval,
          rdRsp, p)
      invariant Rounds(a, p, chunk, 3 - rwRetry) == Rounds(a, start, chunk, 3)
      decreases 3 - rwRetry
    {
      returnStatus, readbackStatus, rtnval, rdRsp :=
        RetryRound(dev, wrReq, rdReq, addr, chunk, returnStatus, rtnval, rdRsp, p);
      NextRound(a, p, chunk, 3 - rwRetry);
      p := FlashRun.Round(a, p, chunk);
      rwRetry := rwRetry + 1;
    }
  }

  // --------------------------------------------------------------- the whole file

  // What the data part of the request holds when chunk `k` is about to be read.
  function Held(j: Job, k: nat): Block
    requires k <= Chunks(j.file)
  {
    if k == 0 then j.garbage else Chunk(j, k - 1)
  }

  // Where the file is read from then.
  function Offset(file: seq<byte>, k: nat): nat {
    if RW_LEN * k < |file| then RW_LEN * k else |file|
  }

  lemma ChunkByte(j: Job, k: nat, i: nat)
    requires k < Chunks(j.file) && i < RW_LEN
    ensures RW_LEN * k < |j.file|
    ensures RW_LEN * k + i < |j.file| ==> Chunk(j, k)[i] == j.file[RW_LEN * k + i]
    ensures RW_LEN * k + i >= |j.file| ==> Chunk(j, k)[i] == Held(j, k)[i]
  {
    ChunkCount(j.file, k);
  }

  // A chunk read over the one before it.
  lemma NextChunk(j: Job, k: nat, before: seq<byte>, after: seq<byte>, count: nat)
    requires k < Chunks(j.file) && |before| == |after| == RW_LEN && before == Held(j, k)
    requires Offset(j.file, k) + count == Offset(j.file, k + 1)
    requires forall i :: 0 <= i < RW_LEN ==>
      after[i] == if i < count then j.file[Offset(j.file, k) + i] else before[i]
    ensures after == Chunk(j, k)
  {
    ChunkCount(j.file, k);
    forall i | 0 <= i < RW_LEN ensures after[i] == Chunk(j, k)[i] {
      ChunkByte(j, k, i);
    }
  }

  // read: the next bytes of the file into the data part of the request.
  method ReadChunk(ghost j: Job, ghost k: nat, file: seq<byte>, offset: nat, pData: array<byte>) returns (count: nat)
    requires j.file == file && k <= Chunks(file) && offset == Offset(file, k)
    requires pData.Length == 256 && pData[2..2 + RW_LEN] == Held(j, k)
    modifies pData
    ensures count > 0 <==> k < Chunks(file)
    ensures count > 0 ==> offset + count == Offset(file, k + 1) && pData[2..2 + RW_LEN] == Chunk(j, k)
  {
    ChunkCount(file, k);
    count := if |file| - offset < RW_LEN then |file| - offset else RW_LEN;
    ghost var before := pData[2..2 + RW_LEN];
    forall i | 2 <= i < 2 + count {
      pData[i] := file[offset + i - 2];
    }
    ghost var after := pData[2..2 + RW_LEN];
    forall i | 0 <= i < RW_LEN ensures after[i] == if i < count then file[offset + i] else before[i] {
      assert after[i] == pData[2 + i] && before[i] == old(pData[2 + i]);
    }
    if count > 0 {
      NextChunk(j, k, before, after, count);
    }
  }

  datatype Outcome = Returned(rtnval: int) | Exited

  // The word address of chunk `k`.
  function AddressOf(k: nat): (addr: nat)
    ensures addr < 0x10000 && addr % BLOCK_WORDS == 0 && addr / BLOCK_WORDS == k % BLOCKS
  {
    BLOCK_WORDS * (k % BLOCKS)
  }

  lemma NextAddress(k: nat)
    ensures (AddressOf(k) + BLOCK_WORDS) % 0x10000 == AddressOf(k + 1)
  {
    assert (k + 1) % BLOCKS == if k % BLOCKS + 1 == BLOCKS then 0 else k % BLOCKS + 1;
  }

  // The device has come through the first `k` chunks.
  ghost predicate Through(dev: Device, j: Job, k: nat, rtnval: int, rdRsp: Block)
    reads dev
  {
    && dev.answers == j.answers && Latest(j, k, dev.flash)
    && After(j, k) == Some(Carry(dev.writeCount, dev.readCount, rdRsp, rtnval))
  }

  // The part of the loop body after the read.
  method FlashChunk(dev: Device, wrReq: array<byte>, rdReq: array<byte>, addr: nat, result: int, lastData: Block,
                    ghost j: Job, ghost k: nat)
    returns (readbackStatus: int, rtnval: int, rdRsp: Block)
    requires dev.Valid() && wrReq.Length == 256 && rdReq.Length == 256 && rdReq != wrReq
    requires k < Chunks(j.file) && wrReq[2..2 + RW_LEN] == Chunk(j, k) && addr == AddressOf(k)
    requires Through(dev, j, k, result, lastData)
    modifies dev`flash, dev`writeCount, dev`readCount, dev`silent, wrReq, rdReq
    ensures dev.Valid() && wrReq[2..2 + RW_LEN] == Held(j, k + 1)
    ensures readbackStatus == 0 ==> Through(dev, j, k + 1, rtnval, rdRsp)
    ensures readbackStatus != 0 ==> After(j, k + 1).None?
    ensures dev.writeCount <= j.start.w + 9 * (k + 1) && dev.readCount <= j.start.r + 9 * (k + 1)
  {
    ghost var before, c, chunk := dev.flash, After(j, k).value, Chunk(j, k);
    AfterCounts(j, k);
    RoundsCounts(j.answers, Start(c), chunk, 3);
    readbackStatus, rtnval, rdRsp := WriteChunk(dev, wrReq, rdReq, addr, wrReq[2..2 + RW_LEN], result, lastData);
    if readbackStatus == 0 {
      Accepts(j.answers, Start(c), chunk, 3);
      NextLatest(j, k, before, dev.flash);
    }
  }

  // The loop body.
  method FlashNext(dev: Device, file: seq<byte>, offset: nat, wrReq: array<byte>, rdReq: array<byte>, addr: nat,
                   result: int, lastData: Block, ghost j: Job, ghost k: nat)
    returns (count: nat, readbackStatus: int, rtnval: int, rdRsp: Block)
    requires dev.Valid() && wrReq.Length == 256 && rdReq.Length == 256 && rdReq != wrReq
    requires j.file == file && k <= Chunks(file) && offset == Offset(file, k) && addr == AddressOf(k)
    requires wrReq[2..2 + RW_LEN] == Held(j, k) && Through(dev, j, k, result, lastData)
    modifies dev`flash, dev`writeCount, dev`readCount, dev`silent, wrReq, rdReq
    ensures dev.Valid() && (count > 0 <==> k < Chunks(file))
    ensures count == 0 ==> Through(dev, j, k, rtnval, rdRsp)
    ensures count > 0 ==>
      && offset + count == Offset(file, k + 1) && wrReq[2..2 + RW_LEN] == Held(j, k + 1)
      && (readbackStatus == 0 ==> Through(dev, j, k + 1, rtnval, rdRsp))
      && (readbackStatus != 0 ==> After(j, k + 1).None?)
      && dev.writeCount <= j.start.w + 9 * (k + 1) && dev.readCount <= j.start.r + 9 * (k + 1)
  {
    readbackStatus, rtnval, rdRsp := -1, result, lastData;
    count := ReadChunk(j, k, file, offset, wrReq);
    if count > 0 {
      readbackStatus, rtnval, rdRsp := FlashChunk(dev, wrReq, rdReq, addr, rtnval, rdRsp, j, k);
    }
  }

  // The job that flashing a file is.
  ghost function JobOf(dev: Device, file: seq<byte>, garbage: Block, lastData: Block): Job
    reads dev
  {
    Job(dev.answers, garbage, file, Carry(dev.writeCount, dev.readCount, lastData, 0))
  }

  // How the file loop ends, and what it leaves in the flash.
  ghost predicate Ran(j: Job, outcome: Outcome, flash: seq<Block>, w: nat, r: nat) {
    var end := After(j, Chunks(j.file));
    && outcome == (match end case None => Exited case Some(c) => Returned(c.rtn))
    && (end.Some? ==> Latest(j, Chunks(j.file), flash))
    && w <= j.start.w + 9 * Chunks(j.file) && r <= j.start.r + 9 * Chunks(j.file)
  }

  lemma Stopped(j: Job, k: nat, flash: seq<Block>, w: nat, r: nat)
    requires k <= Chunks(j.file) && After(j, k).None? && w <= j.start.w + 9 * k && r <= j.start.r + 9 * k
    ensures Ran(j, Exited, flash, w, r)
  {
    if After(j, Chunks(j.file)).Some? { NoneStays(j, k, Chunks(j.file)); }
  }

  // The file loop.
  method FlashFile(dev: Device, file: seq<byte>, garbage: Block, lastData: Block, wrReq: array<byte>,
                   rdReq: array<byte>)
    returns (outcome: Outcome)
    requires dev.Valid() && wrReq.Length == 256 && rdReq.Length == 256 && rdReq != wrReq
    requires wrReq[2..2 + RW_LEN] == garbage
    modifies dev`flash, dev`writeCount, dev`readCount, dev`silent, wrReq, rdReq
    ensures dev.Valid()
    ensures Ran(old(JobOf(dev, file, garbage, lastData)), outcome, dev.flash, dev.writeCount, dev.readCount)
  {
    var addr, rtnval, offset, rdRsp := 0, 0, 0, lastData;
    ghost var j, k := JobOf(dev, file, garbage, lastData), 0;
    while true
      invariant dev.Valid() && k <= Chunks(file)
      invariant addr == AddressOf(k) && offset == Offset(file, k)
      invariant wrReq[2..2 + RW_LEN] == Held(j, k)
      invariant Through(dev, j, k, rtnval, rdRsp)
      decreases Chunks(file) - k
    {
      var count, readbackStatus;
      count, readbackStatus, rtnval, rdRsp := FlashNext(dev, file, offset, wrReq, rdReq, addr, rtnval, rdRsp, j, k);
      if count > 0 {
        if readbackStatus != 0 {
          Stopped(j, k + 1, dev.flash, dev.writeCount, dev.readCount);
          return Exited;
        }
        NextAddress(k);
        addr := (addr + BLOCK_WORDS) % 0x10000;
        offset := offset + count;
        k := k + 1;
      }
      if count == 0 { break; }
    }
    outcome := Returned(rtnval);
    AfterCounts(j, Chunks(file));
  }

  /**
    sb_image_write: it exits exactly if some chunk is not accepted.  Otherwise the flash holds the blocks the chunks
    ended with, the value returned is the one carried out of the last chunk, and `Tells` says what that value is
    worth.
   */
  method SbImageWrite(dev: Device, file: Option<seq<byte>>, garbage: Block, lastData: Block) returns (outcome: Outcome)
    requires dev.Valid()
    modifies dev
    ensures dev.Valid()
    ensures file.None? ==> outcome == Returned(-1) && dev.flash == old(dev.flash)
    ensures file.Some? ==>
      && Ran(old(JobOf(dev, file.value, garbage, lastData)), outcome, dev.flash, dev.writeCount, dev.readCount)
      && (outcome.Returned? ==> Tells(old(JobOf(dev, file.value, garbage, lastData)), outcome.rtnval, dev.flash))
  {
    if file.None? {
      return Returned(-1);
    }
    ghost var j := JobOf(dev, file.value, garbage, lastData);
    var wrReq := new byte[256](i => if 2 <= i < 2 + RW_LEN then garbage[i - 2] else 0);
    var rdReq := new byte[256];
    assert wrReq[2..2 + RW_LEN] == garbage;
    outcome := FlashFile(dev, file.value, garbage, lastData, wrReq, rdReq);
    if outcome.Returned? { RunTells(j, dev.flash); }
  }

  /**
    flashImage after the handshake: an image that fails its check is not written.  One that was written is in the flash
    if every read was answered, and then the result is 0, or if it repeats no chunk and failures carry none of them.
   */
  method FlashImage(dev: Device, file: Option<seq<byte>>, garbage: Block, lastData: Block) returns (outcome: Outcome)
    requires dev.Valid()
    modifies dev
    ensures dev.Valid()
    ensures outcome != Exited ==> file.Some? && |file.value| >= IMG_SIZE && GoodImage(file.value[..IMG_SIZE])
    ensures outcome.Returned? ==> Tells(old(JobOf(dev, file.value, garbage, lastData)), outcome.rtnval, dev.flash)
    ensures
      && outcome.Returned? && |file.value| <= RW_LEN * BLOCKS
      && Reliable(old(JobOf(dev, file.value, garbage, lastData))) ==>
      InFlash(file.value, dev.flash)
    ensures file.None? || |file.value| < IMG_SIZE || !GoodImage(file.value[..IMG_SIZE]) ==>
      outcome == Exited && dev.flash == old(dev.flash)
  {
    var checked := ImageCheck(file);
    if checked < 0 {
      return Exited;
    }
    outcome := SbImageWrite(dev, file, garbage, lastData);
    if outcome.Returned? {
      if outcome.rtnval < 0 {
        return Returned(-1);
      }
      outcome := Returned(0);
    }
  }
}
