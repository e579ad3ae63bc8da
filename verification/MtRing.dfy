/**
  The serial input buffer: 512 bytes used as a ring, filled by the signal handler and
  emptied by the frame assembler.  The two refine operations on a queue of bytes.
 */
module MtRing {
  import opened Wire
  import opened MtFrame
  import opened MtQueue

  const SERIAL_BUFFER_MAX := 512

  // An array after a block is stored in it.
  function Stored(buf: seq<byte>, at: nat, block: seq<byte>): (r: seq<byte>)
    requires at + |block| <= |buf|
    ensures |r| == |buf|
  {
    buf[..at] + block + buf[at + |block|..]
  }

  /** The kernel's buffer: a read moves some prefix of what is pending, or fails. */
  class SerialPort {
    var pending: seq<byte>

    constructor ()
      ensures pending == []
    {
      pending := [];
    }

    // `chunk` is what was moved; nothing if the read failed.
    method Read(a: array<byte>, at: nat, count: nat) returns (n: int, ghost chunk: seq<byte>)
      requires at + count <= a.Length
      modifies this, a
      ensures -1 <= n && |chunk| == (if n >= 0 then n else 0) && |chunk| <= count
      ensures chunk + pending == old(pending)
      ensures a[..] == Stored(old(a[..]), at, chunk)
    {
      var most := if count <= |pending| then count else |pending|;
      n :| -1 <= n <= most;
      chunk := [];
      if n >= 0 {
        chunk := pending[..n];
        forall i | 0 <= i < n {
          a[at + i] := pending[i];
        }
        Halves(pending, n);
        pending := pending[n..];
      }
    }
  }

  lemma Halves(s: seq<byte>, n: nat)
    requires n <= |s|
    ensures s[..n] + s[n..] == s
  {}

  // The ring position `i` steps after position zero, for at most one time round.
  function Wrap(i: nat): (r: nat)
    requires i < 2 * SERIAL_BUFFER_MAX
    ensures r < SERIAL_BUFFER_MAX
  {
    if i < SERIAL_BUFFER_MAX then i else i - SERIAL_BUFFER_MAX
  }

  // The ring position `i` steps after position zero, any number of times round.
  function Slot(i: nat): (r: nat)
    ensures r < SERIAL_BUFFER_MAX
  {
    if i < SERIAL_BUFFER_MAX then i else Slot(i - SERIAL_BUFFER_MAX)
  }

  lemma {:induction false} SlotIsMod(i: nat)
    ensures i % SERIAL_BUFFER_MAX == Slot(i)
  {
    if i >= SERIAL_BUFFER_MAX { SlotIsMod(i - SERIAL_BUFFER_MAX); }
  }

  lemma SlotIsWrap(i: nat)
    requires i < 2 * SERIAL_BUFFER_MAX
    ensures Slot(i) == Wrap(i)
  {}

  // A position `d` steps before, and after, x.
  lemma {:induction false} SlotBack(x: nat, d: nat)
    requires d <= x && d <= SERIAL_BUFFER_MAX
    ensures Slot(x - d) == if d <= Slot(x) then Slot(x) - d else Slot(x) + SERIAL_BUFFER_MAX - d
  {
    if x - d >= SERIAL_BUFFER_MAX { SlotBack(x - SERIAL_BUFFER_MAX, d); }
  }

  lemma {:induction false} SlotForward(x: nat, d: nat)
    requires Slot(x) + d < SERIAL_BUFFER_MAX
    ensures Slot(x + d) == Slot(x) + d
  {
    if x >= SERIAL_BUFFER_MAX { SlotForward(x - SERIAL_BUFFER_MAX, d); }
  }

  lemma {:induction false} SlotPeriod(x: nat, t: nat)
    ensures Slot(x + SERIAL_BUFFER_MAX * t) == Slot(x)
  {
    if t > 0 { SlotPeriod(x, t - 1); }
  }

  /** The bytes buffered in a ring with this head and length, oldest first. */
  function Logical(buf: seq<byte>, head: nat, len: nat): (q: seq<byte>)
    requires |buf| == SERIAL_BUFFER_MAX && head < SERIAL_BUFFER_MAX && len <= SERIAL_BUFFER_MAX
    ensures |q| == len
    ensures forall k :: 0 <= k < len ==> q[k] == buf[Wrap(head + k)]
  {
    seq(len, k requires 0 <= k < len => buf[Wrap(head + k)])
  }

  // As many of the newest bytes of a queue as the ring has room for.
  function Last(q: seq<byte>): (r: seq<byte>)
    ensures |r| == if |q| <= SERIAL_BUFFER_MAX then |q| else SERIAL_BUFFER_MAX
  {
    if |q| <= SERIAL_BUFFER_MAX then q else q[|q| - SERIAL_BUFFER_MAX..]
  }

  function Room(len: nat): nat {
    if len <= SERIAL_BUFFER_MAX then len else SERIAL_BUFFER_MAX
  }

  /** The bytes in front of the tail, for any length that the counter may have reached. */
  function Newest(buf: seq<byte>, head: nat, len: nat): (q: seq<byte>)
    requires |buf| == SERIAL_BUFFER_MAX && head < SERIAL_BUFFER_MAX
    ensures |q| == Room(len)
  {
    seq(Room(len), k requires 0 <= k < Room(len) => buf[Slot(head + (len - Room(len) + k))])
  }

  lemma NewestIsLogical(buf: seq<byte>, head: nat, len: nat)
    requires |buf| == SERIAL_BUFFER_MAX && head < SERIAL_BUFFER_MAX && len <= SERIAL_BUFFER_MAX
    ensures Newest(buf, head, len) == Logical(buf, head, len)
  {
    var n, l := Newest(buf, head, len), Logical(buf, head, len);
    forall k | 0 <= k < len ensures n[k] == l[k] {
      SlotIsWrap(head + k);
    }
  }

  // Byte a of the stream, counted from the head, after a block is stored behind the tail.
  lemma StoredByte(buf: seq<byte>, head: nat, len: nat, block: seq<byte>, a: nat)
    requires |buf| == SERIAL_BUFFER_MAX && head < SERIAL_BUFFER_MAX
    requires Slot(head + len) + |block| <= SERIAL_BUFFER_MAX
    requires a < len + |block| <= a + SERIAL_BUFFER_MAX
    ensures Stored(buf, Slot(head + len), block)[Slot(head + a)] == if a < len then buf[Slot(head + a)]
        else block[a - len]
  {
    if a < len {
      SlotBack(head + len, len - a);
    } else {
      SlotForward(head + len, a - len);
    }
  }

  /** Storing a block behind the tail, without crossing the end of the array, keeps the newest 512 bytes. */
  lemma StoreKeepsNewest(buf: seq<byte>, buf': seq<byte>, head: nat, len: nat, block: seq<byte>)
    requires |buf| == SERIAL_BUFFER_MAX && head < SERIAL_BUFFER_MAX
    requires Slot(head + len) + |block| <= SERIAL_BUFFER_MAX && buf' == Stored(buf, Slot(head + len), block)
    ensures Newest(buf', head, len + |block|) == Last(Newest(buf, head, len) + block)
  {
    var l, r := Newest(buf', head, len + |block|), Last(Newest(buf, head, len) + block);
    forall k | 0 <= k < Room(len + |block|) ensures l[k] == r[k] {
      StoredNewest(buf, buf', head, len, block, k);
    }
  }

  lemma StoredNewest(buf: seq<byte>, buf': seq<byte>, head: nat, len: nat, block: seq<byte>, k: nat)
    requires |buf| == SERIAL_BUFFER_MAX && head < SERIAL_BUFFER_MAX && k < Room(len + |block|)
    requires Slot(head + len) + |block| <= SERIAL_BUFFER_MAX && buf' == Stored(buf, Slot(head + len), block)
    ensures Newest(buf', head, len + |block|)[k] == Last(Newest(buf, head, len) + block)[k]
  {
    var a := len + |block| - Room(len + |block|) + k;
    StoredByte(buf, head, len, block, a);
    LastAt(Newest(buf, head, len), block, len, k);
    assert a < len ==> Newest(buf, head, len)[a - (len - Room(len))] == buf[Slot(head + a)];
  }

  // Where byte k of the newest bytes of held + block stands.
  lemma LastAt(held: seq<byte>, block: seq<byte>, len: nat, k: nat)
    requires |held| == Room(len) && |block| <= SERIAL_BUFFER_MAX && k < Room(len + |block|)
    ensures var a := len + |block| - Room(len + |block|) + k;
      Last(held + block)[k] == if a < len then held[a - (len - Room(len))] else block[a - len]
  {}

  // The newest byte of n that lies k steps, and any number of times round, behind the head.
  function NewestAt(k: nat, n: nat): (a: nat)
    requires k < n
    ensures k <= a < n <= a + SERIAL_BUFFER_MAX
  {
    k + SERIAL_BUFFER_MAX * ((n - 1 - k) / SERIAL_BUFFER_MAX)
  }

  lemma AtHead(buf: seq<byte>, head: nat, all: seq<byte>, k: nat)
    requires |buf| == SERIAL_BUFFER_MAX && head < SERIAL_BUFFER_MAX && k < Room(|all|)
    requires Newest(buf, head, |all|) == Last(all)
    ensures Logical(buf, head, Room(|all|))[k] == all[NewestAt(k, |all|)]
  {
    var a := NewestAt(k, |all|);
    SlotPeriod(head + k, (|all| - 1 - k) / SERIAL_BUFFER_MAX);
    SlotIsWrap(head + k);
    NewestByte(buf, head, all, a);
  }

  lemma NewestByte(buf: seq<byte>, head: nat, all: seq<byte>, a: nat)
    requires |buf| == SERIAL_BUFFER_MAX && head < SERIAL_BUFFER_MAX && a < |all| <= a + SERIAL_BUFFER_MAX
    requires Newest(buf, head, |all|) == Last(all)
    ensures buf[Slot(head + a)] == all[a]
  {
    var i := a - (|all| - Room(|all|));
    assert Newest(buf, head, |all|)[i] == buf[Slot(head + a)];
    assert Last(all)[i] == all[a];
  }

  /**
    What is read from the head on is the queue exactly if every byte overwritten since was overwritten by its own
    value.
   */
  lemma QueueKeptIff(buf: seq<byte>, head: nat, all: seq<byte>)
    requires |buf| == SERIAL_BUFFER_MAX && head < SERIAL_BUFFER_MAX
    requires Newest(buf, head, |all|) == Last(all)
    ensures Logical(buf, head, Room(|all|)) == all[..Room(|all|)] <==>
            forall k :: 0 <= k < Room(|all|) ==> all[k] == all[NewestAt(k, |all|)]
  {
    var q := Logical(buf, head, Room(|all|));
    forall k | 0 <= k < Room(|all|) ensures q[k] == all[NewestAt(k, |all|)] {
      AtHead(buf, head, all, k);
    }
    if q == all[..Room(|all|)] {
      forall k | 0 <= k < Room(|all|) ensures all[k] == all[NewestAt(k, |all|)] {
        assert q[k] == all[..Room(|all|)][k];
      }
    }
  }

  /** 513 bytes in a new ring: the first of them is lost. */
  lemma OverflowWitness(buf: seq<byte>)
    requires |buf| == SERIAL_BUFFER_MAX && Newest(buf, 0, 513) == Last([1] + seq(512, _ => 0))
    ensures Logical(buf, 0, 512) != ([1] + seq(512, _ => 0))[..512]
  {
    var all: seq<byte> := [1] + seq(512, _ => 0);
    AtHead(buf, 0, all, 0);
    assert NewestAt(0, 513) == 512 && all[512] == 0;
  }

  // The one or two pieces of the array that n bytes from a position on take up.
  function Pieces(buf: seq<byte>, start: nat, n: nat): (p: seq<byte>)
    requires |buf| == SERIAL_BUFFER_MAX && start < SERIAL_BUFFER_MAX && n <= SERIAL_BUFFER_MAX
    ensures |p| == n
  {
    var room := SERIAL_BUFFER_MAX - start;
    if n <= room then buf[start..start + n] else buf[start..] + buf[..n - room]
  }

  // The logical slice from `at` is at most two pieces of the array.
  lemma SliceWraps(buf: seq<byte>, head: nat, len: nat, at: nat, n: nat)
    requires |buf| == SERIAL_BUFFER_MAX && head < SERIAL_BUFFER_MAX
    requires at + n <= len <= SERIAL_BUFFER_MAX && head + at < 2 * SERIAL_BUFFER_MAX
    ensures Logical(buf, head, len)[at..at + n] == Pieces(buf, Wrap(head + at), n)
  {
    var q := Logical(buf, head, len);
    var slice, pieces := q[at..at + n], Pieces(buf, Wrap(head + at), n);
    forall k | 0 <= k < n ensures slice[k] == pieces[k] {
      assert q[at + k] == buf[Wrap(head + (at + k))];
    }
  }

  // Moving the head forward and shortening the length keeps the middle of the queue.
  lemma Shrink(buf: seq<byte>, head: nat, len: nat, skip: nat, len': nat)
    requires |buf| == SERIAL_BUFFER_MAX && head < SERIAL_BUFFER_MAX
    requires skip + len' <= len <= SERIAL_BUFFER_MAX
    ensures Logical(buf, Wrap(head + skip), len') == Logical(buf, head, len)[skip..skip + len']
  {
    var q, q' := Logical(buf, head, len), Logical(buf, Wrap(head + skip), len');
    forall k | 0 <= k < len' ensures q'[k] == q[skip..skip + len'][k] {
      assert q[skip + k] == buf[Wrap(head + (skip + k))];
    }
  }

  lemma MoreArrived(before: seq<byte>, got: seq<byte>, chunk: seq<byte>, rest: seq<byte>)
    ensures Last(Last(before + got) + chunk) == Last(before + (got + chunk))
    ensures got + (chunk + rest) == got + chunk + rest
  {
    LastAppend(before + got, chunk);
    assert before + got + chunk == before + (got + chunk);
  }

  lemma NothingArrived(before: seq<byte>, arrived: seq<byte>)
    requires |before| <= SERIAL_BUFFER_MAX
    ensures before == Last(before + []) && [] + arrived == arrived
  {}

  lemma AllArrived(got: seq<byte>, rest: seq<byte>, arrived: seq<byte>)
    requires got + rest == arrived
    ensures arrived[..|got|] == got && arrived[|got|..] == rest && |got| == |arrived| - |rest|
  {}

  // What is kept is everything, if it fits.
  lemma AppendedIfFits(buf: seq<byte>, buf': seq<byte>, head: nat, len: nat, more: seq<byte>)
    requires |buf| == |buf'| == SERIAL_BUFFER_MAX && head < SERIAL_BUFFER_MAX && len + |more| <= SERIAL_BUFFER_MAX
    requires Newest(buf', head, len + |more|) == Last(Newest(buf, head, len) + more)
    ensures Logical(buf', head, len + |more|) == Logical(buf, head, len) + more
  {
    NewestIsLogical(buf, head, len);
    NewestIsLogical(buf', head, len + |more|);
  }

  lemma LastAppend(a: seq<byte>, b: seq<byte>)
    ensures Last(Last(a) + b) == Last(a + b)
  {
    var l, r := Last(Last(a) + b), Last(a + b);
    forall k | 0 <= k < |r| ensures l[k] == r[k] {
      LastAppendAt(a, b, k);
    }
  }

  lemma LastAppendAt(a: seq<byte>, b: seq<byte>, k: nat)
    requires k < Room(|a| + |b|)
    ensures Last(Last(a) + b)[k] == Last(a + b)[k]
  {
    var i := |a| + |b| - Room(|a| + |b|) + k;
    LastIs(a + b, k);
    LastIs(Last(a) + b, k);
    if i < |a| {
      LastIs(a, i - (|a| - Room(|a|)));
    }
  }

  lemma LastIs(q: seq<byte>, k: nat)
    requires k < Room(|q|)
    ensures Last(q)[k] == q[|q| - Room(|q|) + k]
  {}

  // The search stops before it has come round to the head.
  lemma NextHead(head: nat, i: nat)
    requires head < SERIAL_BUFFER_MAX && 0 < i < SERIAL_BUFFER_MAX
    ensures (head + i) % SERIAL_BUFFER_MAX == Wrap(head + i) != head
  {
    SlotIsMod(head + i);
    SlotIsWrap(head + i);
  }

  // One round of the search, with what it is going to find.
  lemma ScanOn(q: seq<byte>, at: nat, offset: nat, f: Found)
    requires |q| >= MIN_PACKET_LEN && at <= offset && (at == 0 || (offset == at && offset + MIN_PACKET_LEN <= |q|))
    requires f == Scan(q, at, offset)
    ensures q[at] == SOF ==> f == Found(at, offset)
    ensures q[at] != SOF ==>
      f == if |q| < offset + 1 + MIN_PACKET_LEN then NotFound else Scan(q, offset + 1, offset + 1)
  {}

  class SerialBuffer {
    const SerBufIn: array<byte>
    var SerBufInHead: int
    var SerBufInLen: int

    ghost predicate Valid()
      reads this
    {
      SerBufIn.Length == SERIAL_BUFFER_MAX && 0 <= SerBufInHead < SERIAL_BUFFER_MAX && 0 <= SerBufInLen
    }

    // Nothing has been overwritten.
    ghost predicate Fits()
      reads this
    {
      SerBufInLen <= SERIAL_BUFFER_MAX
    }

    ghost function Contents(): seq<byte>
      requires Valid() && Fits()
      reads this, SerBufIn
    {
      Logical(SerBufIn[..], SerBufInHead, SerBufInLen)
    }

    // What the ring holds when more has been stored than it has room for.
    ghost function Kept(): seq<byte>
      requires Valid()
      reads this, SerBufIn
    {
      Newest(SerBufIn[..], SerBufInHead, SerBufInLen)
    }

    constructor ()
      ensures Valid() && Fits() && Contents() == [] && fresh(SerBufIn)
    {
      SerBufIn := new byte[SERIAL_BUFFER_MAX];
      SerBufInHead, SerBufInLen := 0, 0;
    }

    /**
      SerialRcv: reads into the space up to the end of the array, then again, until a read moves nothing.
      In any number of reads and over any number of wraps, the ring then holds the newest 512 bytes of what it held and
      what was read; free space is not checked.  As long as no more than 512 are buffered, the bytes read are appended.
     */
    method SerialRcv(port: SerialPort)
      requires Valid()
      modifies this`SerBufInLen, SerBufIn, port
      ensures Valid()
      ensures var n := |old(port.pending)| - |port.pending|;
        && 0 <= n
        && port.pending == old(port.pending)[n..]
        && SerBufInLen == old(SerBufInLen) + n
        && Kept() == Last(old(Kept()) + old(port.pending)[..n])
        && (Fits() ==> old(Fits()) && Contents() == old(Contents()) + old(port.pending)[..n])
    {
      ghost var buf, before, len0, arrived := SerBufIn[..], Kept(), SerBufInLen, port.pending;
      ghost var got: seq<byte> := [];
      NothingArrived(before, arrived);
      while true
        invariant Valid() && got + port.pending == arrived
        invariant SerBufInLen == len0 + |got|
        invariant Kept() == Last(before + got)
        decreases |port.pending|
      {
        var len;
        ghost var chunk;
        len, chunk := ReadOnce(port);
        MoreArrived(before, got, chunk, port.pending);
        got := got + chunk;
        if !(len > 0) { break; }
      }
      if Fits() {
        AppendedIfFits(buf, SerBufIn[..], SerBufInHead, len0, got);
      }
      AllArrived(got, port.pending, arrived);
    }

    // One read into the space between the tail and the end of the array.
    method ReadOnce(port: SerialPort) returns (len: int, ghost chunk: seq<byte>)
      requires Valid()
      modifies this`SerBufInLen, SerBufIn, port
      ensures Valid()
      ensures |chunk| == if len >= 0 then len else 0
      ensures chunk + port.pending == old(port.pending)
      ensures SerBufInLen == old(SerBufInLen) + |chunk|
      ensures Kept() == Last(old(Kept()) + chunk)
    {
      var SerTailPtr := (SerBufInHead + SerBufInLen) % SERIAL_BUFFER_MAX;
      SlotIsMod(SerBufInHead + SerBufInLen);
      var SerBufAva := SERIAL_BUFFER_MAX - SerTailPtr;
      ghost var buf := SerBufIn[..];
      len, chunk := port.Read(SerBufIn, SerTailPtr, SerBufAva);
      ghost var after, before := SerBufIn[..], SerBufInLen;
      if len >= 0 {
        SerBufInLen := SerBufInLen + len;
      }
      KeptAfter(buf, after, before, chunk);
    }

    lemma KeptAfter(buf: seq<byte>, after: seq<byte>, before: nat, chunk: seq<byte>)
      requires Valid() && SerBufIn[..] == after && SerBufInLen == before + |chunk|
      requires |buf| == SERIAL_BUFFER_MAX && Slot(SerBufInHead + before) + |chunk| <= SERIAL_BUFFER_MAX
      requires after == Stored(buf, Slot(SerBufInHead + before), chunk)
      ensures Kept() == Last(Newest(buf, SerBufInHead, before) + chunk)
    {
      StoreKeepsNewest(buf, after, SerBufInHead, before, chunk);
    }

    /**
      The critical section of the assembler, entered with the value `offset` of the local variable.
      It is `TakeFrame` on the queue, whatever stale bytes the rest of the array holds.
     */
    method TakeLocked(offset: nat) returns (taken: bool, overrun: bool, packet: seq<byte>, Offset: nat)
      requires Valid() && Fits() && offset + MIN_PACKET_LEN <= SERIAL_BUFFER_MAX
      modifies this
      ensures Valid() && Fits()
      ensures TakeFrame(old(Contents()), offset) ==
              OutcomeOf(taken, overrun, packet, Contents(), Offset)
      ensures !taken ==> Contents() == old(Contents())
      ensures taken ==> !overrun
      ensures Offset + MIN_PACKET_LEN <= SERIAL_BUFFER_MAX
    {
      ghost var found;
      taken, overrun, packet, Offset, found := TakeSection(offset);
    }

    // The statements of the critical section.
    method TakeSection(offset: nat)
      returns (taken: bool, overrun: bool, packet: seq<byte>, Offset: nat, ghost found: Found)
      requires Valid() && Fits() && offset + MIN_PACKET_LEN <= SERIAL_BUFFER_MAX
      modifies this
      ensures Valid() && Fits() && Offset + MIN_PACKET_LEN <= SERIAL_BUFFER_MAX
      ensures !taken ==> Contents() == old(Contents())
      ensures taken ==> !overrun
      ensures old(SerBufInLen) < MIN_PACKET_LEN ==> !taken && !overrun
      ensures old(SerBufInLen) >= MIN_PACKET_LEN ==>
        var q := old(Contents());
        && found == Scan(q, 0, offset)
        && (found.NotFound? ==> !taken && !overrun)
        && (found.Found? ==> TakeAt(q, found.at, found.offset) == OutcomeOf(taken, overrun, packet, Contents(), Offset))
    {
      taken, overrun, packet, found := false, false, [], NotFound;
      var sof, SerBufHeadTemp;
      ghost var at, f;
      sof, SerBufHeadTemp, Offset, at, f := FindSof(offset);
      if !sof {
        return;
      }
      found := Found(at, Offset);
      taken, overrun, packet := TakeFound(SerBufHeadTemp, Offset, at);
    }

    // The length byte behind SOF.
    method ReadLength(start: nat, ghost at: nat) returns (SerBufHeadTemp: nat, FrameLen: nat)
      requires Valid() && Fits() && at + 1 < SERIAL_BUFFER_MAX && start == Wrap(SerBufInHead + at)
      ensures SerBufHeadTemp == Wrap(SerBufInHead + (at + 1)) && FrameLen >= 4
      ensures at + 1 < SerBufInLen ==> FrameLen == Contents()[at + 1] as int + 4
    {
      HeadAfter(SerBufInHead, at, 1);
      SerBufHeadTemp := (start + 1) % SERIAL_BUFFER_MAX;
      FrameLen := SerBufIn[SerBufHeadTemp] as int + 4;
      assert at + 1 < SerBufInLen ==> Contents()[at + 1] == SerBufIn[..][SerBufHeadTemp];
    }

    // The statements after the search.
    method TakeFound(start: nat, Offset: nat, ghost at: nat) returns (taken: bool, overrun: bool, packet: seq<byte>)
      requires Valid() && Fits() && at <= Offset && Offset + MIN_PACKET_LEN <= SERIAL_BUFFER_MAX
      requires start == Wrap(SerBufInHead + at)
      modifies this
      ensures Valid() && Fits()
      ensures !taken ==> Contents() == old(Contents())
      ensures taken ==> !overrun
      ensures old(SerBufInLen) < MIN_PACKET_LEN ==> !taken && !overrun
      ensures at + 1 < old(SerBufInLen) ==>
        TakeAt(old(Contents()), at, Offset) == OutcomeOf(taken, overrun, packet, Contents(), Offset)
    {
      taken, overrun, packet := false, false, [];
      var SerBufHeadTemp, FrameLen := ReadLength(start, at);
      if SerBufInLen < FrameLen + 1 + Offset {
        return;
      }
      if FrameLen > PACKET_BUFFER_MAX {
        overrun := true;
        return;
      }
      packet := Extract(SerBufHeadTemp, FrameLen, Offset, at);
      taken := true;
    }

    // The frame is copied, then the length and the head are updated.
    method Extract(SerBufHeadTemp: nat, FrameLen: nat, Offset: nat, ghost at: nat) returns (packet: seq<byte>)
      requires Valid() && Fits() && at <= Offset && FrameLen + 1 + Offset <= SerBufInLen
      requires FrameLen <= PACKET_BUFFER_MAX
      requires SerBufHeadTemp == Wrap(SerBufInHead + (at + 1))
      modifies this
      ensures Valid() && Fits()
      ensures packet == PacketAt(old(Contents()), at, FrameLen)
      ensures Contents() == RestAfter(old(Contents()), at, FrameLen, Offset)
    {
      packet := CopyPacket(SerBufHeadTemp, FrameLen);
      SliceWraps(SerBufIn[..], SerBufInHead, SerBufInLen, at + 1, FrameLen);
      DropTaken(SerBufHeadTemp, FrameLen, Offset, at);
    }

    method Position(Offset: nat) returns (SerBufHeadTemp: nat)
      requires Valid() && 0 < Offset < SERIAL_BUFFER_MAX
      ensures SerBufHeadTemp == Wrap(SerBufInHead + Offset) != SerBufInHead
    {
      NextHead(SerBufInHead, Offset);
      SerBufHeadTemp := (SerBufInHead + Offset) % SERIAL_BUFFER_MAX;
    }

    // The search for SOF; `at` is the logical index of the position returned.
    method FindSof(offset: nat) returns (found: bool, SerBufHeadTemp: nat, Offset: nat, ghost at: nat, ghost f: Found)
      requires Valid() && Fits() && offset + MIN_PACKET_LEN <= SERIAL_BUFFER_MAX
      ensures Offset + MIN_PACKET_LEN <= SERIAL_BUFFER_MAX
      ensures found ==> at <= Offset && SerBufHeadTemp == Wrap(SerBufInHead + at)
      ensures SerBufInLen >= MIN_PACKET_LEN ==>
        f == Scan(Contents(), 0, offset) && f == if found then Found(at, Offset) else NotFound
    {
      ghost var q := Contents();
      f := if |q| >= MIN_PACKET_LEN then Scan(q, 0, offset) else NotFound;
      SerBufHeadTemp, Offset, at := SerBufInHead, offset, 0;
      while SerBufIn[SerBufHeadTemp] != SOF
        invariant at <= Offset && Offset + MIN_PACKET_LEN <= SERIAL_BUFFER_MAX
        invariant SerBufHeadTemp == Wrap(SerBufInHead + at)
        invariant at == 0 || (Offset == at && at + MIN_PACKET_LEN <= SerBufInLen)
        invariant |q| >= MIN_PACKET_LEN ==> f == Scan(q, at, Offset)
        decreases SERIAL_BUFFER_MAX - Offset
      {
        if SerBufInLen >= MIN_PACKET_LEN {
          assert q[at] == SerBufIn[..][SerBufHeadTemp];
          ScanOn(q, at, Offset, f);
        }
        Offset := Offset + 1;
        SerBufHeadTemp := Position(Offset);
        if SerBufInHead == SerBufHeadTemp || SerBufInLen < Offset + MIN_PACKET_LEN {
          return false, SerBufHeadTemp, 0, at, f;
        }
        at := Offset;
      }
      if SerBufInLen >= MIN_PACKET_LEN {
        assert q[at] == SerBufIn[..][SerBufHeadTemp];
        ScanOn(q, at, Offset, f);
      }
      found := true;
    }

    // The new length and head after a frame is copied.
    method DropTaken(SerBufHeadTemp: nat, FrameLen: nat, Offset: nat, ghost at: nat)
      requires Valid() && Fits() && at <= Offset && FrameLen + 1 + Offset <= SerBufInLen
      requires SerBufHeadTemp == Wrap(SerBufInHead + (at + 1))
      modifies this
      ensures Valid() && Fits()
      ensures Contents() == RestAfter(old(Contents()), at, FrameLen, Offset)
    {
      var len' := SerBufInLen - (FrameLen + 1 + Offset);
      Shrink(SerBufIn[..], SerBufInHead, SerBufInLen, at + 1 + FrameLen, len');
      HeadAfter(SerBufInHead, at + 1, FrameLen);
      SerBufInLen := SerBufInLen - (FrameLen + 1 + Offset);
      SerBufInHead := (SerBufHeadTemp + FrameLen) % SERIAL_BUFFER_MAX;
    }

    // The one or two copies into PacketBuffer.
    method CopyPacket(start: nat, frameLen: nat) returns (packet: seq<byte>)
      requires Valid() && start < SERIAL_BUFFER_MAX && frameLen <= PACKET_BUFFER_MAX
      ensures packet == Pieces(SerBufIn[..], start, frameLen)
    {
      var PacketBuffer := new byte[PACKET_BUFFER_MAX];
      var TempLen := SERIAL_BUFFER_MAX - start;
      if frameLen <= TempLen {
        forall i | 0 <= i < frameLen {
          PacketBuffer[i] := SerBufIn[start + i];
        }
      } else {
        forall i | 0 <= i < TempLen {
          PacketBuffer[i] := SerBufIn[start + i];
        }
        forall i | 0 <= i < frameLen - TempLen {
          PacketBuffer[TempLen + i] := SerBufIn[i];
        }
      }
      packet := PacketBuffer[..frameLen];
    }

    /** MessageAssembler, run without other assembler threads; `packets` are the calls of the handler. */
    method MessageAssembler() returns (packets: seq<seq<byte>>, overrun: bool)
      requires Valid() && Fits()
      modifies this
      ensures Valid() && Fits()
      ensures Assemble(old(Contents()), 0) == Result(packets, Contents(), overrun)
    {
      packets, overrun := [], false;
      var Offset: nat := 0;
      ghost var whole := Assemble(Contents(), 0);
      AssembleStart(Contents());
      while SerBufInLen >= MIN_PACKET_LEN
        invariant Valid() && Fits() && Offset + MIN_PACKET_LEN <= SERIAL_BUFFER_MAX
        invariant !overrun && Continues(whole, packets, Contents(), Offset)
        decreases SerBufInLen
      {
        var more;
        more, overrun, packets, Offset := AssembleOne(whole, packets, Offset);
        if !more {
          return;
        }
      }
      AssembleEnd(whole, packets, Contents(), Offset);
    }

    // One round of the loop.
    method AssembleOne(ghost whole: Result, before: seq<seq<byte>>, offset: nat)
      returns (more: bool, overrun: bool, packets: seq<seq<byte>>, Offset: nat)
      requires Valid() && Fits() && offset + MIN_PACKET_LEN <= SERIAL_BUFFER_MAX
      requires Continues(whole, before, Contents(), offset)
      modifies this
      ensures Valid() && Fits() && Offset + MIN_PACKET_LEN <= SERIAL_BUFFER_MAX
      ensures more ==> !overrun && SerBufInLen < old(SerBufInLen) && Continues(whole, packets, Contents(), Offset)
      ensures !more ==> whole == Result(packets, Contents(), overrun)
    {
      ghost var q := Contents();
      packets := before;
      var packet;
      more, overrun, packet, Offset := TakeLocked(offset);
      if !more {
        AssembleEnd(whole, packets, q, offset);
        return;
      }
      var chk := Checksum(packet);
      AssembleStep(whole, packets, q, offset);
      if chk == 0 {
        packets := packets + [packet];
      }
    }
  }

  // Packets handed up so far, followed by those of the rest of the run, are those of the whole run.
  ghost predicate Continues(whole: Result, packets: seq<seq<byte>>, q: seq<byte>, offset: nat) {
    var r := Assemble(q, offset);
    whole == Result(packets + r.packets, r.rest, r.overrun)
  }

  lemma AssembleStart(q: seq<byte>)
    ensures Continues(Assemble(q, 0), [], q, 0)
  {
    var r := Assemble(q, 0);
    assert [] + r.packets == r.packets;
  }

  lemma AssembleEnd(whole: Result, packets: seq<seq<byte>>, q: seq<byte>, offset: nat)
    requires !TakeFrame(q, offset).Taken? && Continues(whole, packets, q, offset)
    ensures whole == Result(packets, q, TakeFrame(q, offset).Overrun?)
  {
    assert packets + [] == packets;
  }

  lemma AssembleStep(whole: Result, packets: seq<seq<byte>>, q: seq<byte>, offset: nat)
    requires TakeFrame(q, offset).Taken? && Continues(whole, packets, q, offset)
    ensures var t := TakeFrame(q, offset);
      Continues(whole, if XorAll(t.packet) == 0 then packets + [t.packet] else packets, t.rest, t.offset)
  {
    var t := TakeFrame(q, offset);
    AppendOne(packets, t.packet, Assemble(t.rest, t.offset).packets);
  }

  lemma AppendOne<T>(a: seq<T>, x: T, b: seq<T>)
    ensures a + ([x] + b) == a + [x] + b && [] + b == b
  {}

  lemma HeadAfter(head: nat, i: nat, n: nat)
    requires head < SERIAL_BUFFER_MAX && i + n <= SERIAL_BUFFER_MAX
    ensures (Wrap(head + i) + n) % SERIAL_BUFFER_MAX == Wrap(head + (i + n))
  {
    SlotIsMod(Wrap(head + i) + n);
    SlotIsWrap(Wrap(head + i) + n);
  }

  // The loop that folds the packet buffer with xor.
  method Checksum(packet: seq<byte>) returns (chk: byte)
    ensures chk == XorAll(packet)
  {
    chk := 0;
    var i := 0;
    while i < |packet|
      invariant 0 <= i <= |packet|
      invariant chk == XorAll(packet[..i])
    {
      assert packet[..i + 1][..i] == packet[..i];
      chk := chk ^ packet[i];
      i := i + 1;
    }
    assert packet[..i] == packet;
  }

  function OutcomeOf(taken: bool, overrun: bool, packet: seq<byte>, rest: seq<byte>, offset: nat): Outcome {
    if taken then Taken(packet, rest, offset) else if overrun then Overrun else Stop
  }
}
