/**
  What one run of the frame assembler does, stated on the queue of buffered bytes.
  `Offset` is the local variable that counts skipped noise; it is set to zero once
  per run and not once per frame, so a run carries it from frame to frame.
 */
module MtQueue {
  import opened Wire
  import opened MtFrame

  const PACKET_BUFFER_MAX := 256

  datatype Outcome =
    | Stop                                                       // return, nothing taken
    | Overrun                                                    // the packet does not fit PacketBuffer
    | Taken(packet: seq<byte>, rest: seq<byte>, offset: nat)

  datatype Found = NotFound | Found(at: nat, offset: nat)

  // The search for SOF.  It looks at the head first, then at the position `Offset` has reached.
  function Scan(q: seq<byte>, at: nat, offset: nat): (r: Found)
    requires at <= offset && at < |q| && |q| >= MIN_PACKET_LEN
    requires offset + MIN_PACKET_LEN <= |q| || at == 0
    ensures r.Found? ==> r.at <= r.offset && r.at < |q| && q[r.at] == SOF
    ensures r.Found? ==> r.at == 0 || r.offset + MIN_PACKET_LEN <= |q|
    ensures r.Found? ==> r.offset >= offset
    decreases |q| - offset
  {
    if q[at] == SOF then Found(at, offset)
    else if |q| < offset + 1 + MIN_PACKET_LEN then NotFound
    else Scan(q, offset + 1, offset + 1)
  }

  // The bytes copied: `frameLen` of them behind SOF.
  function PacketAt(q: seq<byte>, at: nat, frameLen: nat): (p: seq<byte>)
    requires at + 1 + frameLen <= |q|
    ensures |p| == frameLen
  {
    q[at + 1..at + 1 + frameLen]
  }

  // The queue after the head has moved behind the frame and the length has shrunk by frame and `Offset`.
  function RestAfter(q: seq<byte>, at: nat, frameLen: nat, offset: nat): (r: seq<byte>)
    requires at <= offset && frameLen + 1 + offset <= |q|
    ensures |r| == |q| - (frameLen + 1 + offset)
  {
    var after := at + 1 + frameLen;
    q[after..after + (|q| - (frameLen + 1 + offset))]
  }

  // What follows the search: the length test, the copy, the new queue.
  function TakeAt(q: seq<byte>, at: nat, offset: nat): (r: Outcome)
    requires at <= offset && at + 1 < |q|
    ensures r.Taken? ==> |r.rest| + MIN_PACKET_LEN + offset <= |q| && r.offset == offset
    ensures r.Taken? ==> MIN_PACKET_LEN - 1 <= |r.packet| <= PACKET_BUFFER_MAX
  {
    var frameLen := q[at + 1] as int + 4;
    if |q| < frameLen + 1 + offset then Stop
    else if frameLen > PACKET_BUFFER_MAX then Overrun
    else Taken(PacketAt(q, at, frameLen), RestAfter(q, at, frameLen, offset), offset)
  }

  /** One critical section of the assembler. */
  function TakeFrame(q: seq<byte>, offset: nat): (r: Outcome)
    ensures r.Taken? ==> |r.rest| + MIN_PACKET_LEN <= |q| && r.offset + MIN_PACKET_LEN <= |q|
    ensures r.Taken? ==> MIN_PACKET_LEN - 1 <= |r.packet| <= PACKET_BUFFER_MAX
  {
    if |q| < MIN_PACKET_LEN then Stop
    else
      match Scan(q, 0, offset)
      case NotFound => Stop
      case Found(at, o) => TakeAt(q, at, o)
  }

  datatype Result = Result(packets: seq<seq<byte>>, rest: seq<byte>, overrun: bool)

  /** A whole run: frames are taken until a critical section stops or fewer than five bytes are left. */
  function Assemble(q: seq<byte>, offset: nat): Result
    decreases |q|
  {
    match TakeFrame(q, offset)
    case Stop => Result([], q, false)
    case Overrun => Result([], q, true)
    case Taken(p, rest, o) =>
      var r := Assemble(rest, o);
      r.(packets := (if XorAll(p) == 0 then [p] else []) + r.packets)
  }

  /** Where the frame taken by an iteration starts. */
  function FrameStart(q: seq<byte>, offset: nat): (n: nat)
    requires TakeFrame(q, offset).Taken?
    ensures n < |q| && q[n] == SOF
  {
    Scan(q, 0, offset).at
  }

  // The bytes an iteration looks at: noise, SOF, the packet, and what follows.
  lemma TakenShape(q: seq<byte>, offset: nat)
    requires TakeFrame(q, offset).Taken?
    ensures var n, t := FrameStart(q, offset), TakeFrame(q, offset);
      && n + 1 + |t.packet| <= |q|
      && t.packet == q[n + 1..n + 1 + |t.packet|]
      && |t.packet| == t.packet[0] as int + 4
      && |t.rest| == |q| - |t.packet| - 1 - t.offset
      && t.rest <= q[n + 1 + |t.packet|..]
  {}

  /**
    An iteration removes exactly the noise and the frame it takes if and only if it was entered
    with `Offset` zero or the head of the queue is not SOF; entered with zero it skips no SOF.
   */
  lemma ExactRemoval(q: seq<byte>, offset: nat)
    requires TakeFrame(q, offset).Taken?
    ensures var n, t := FrameStart(q, offset), TakeFrame(q, offset);
      && (q == q[..n] + [SOF] + t.packet + t.rest <==> offset == 0 || q[0] != SOF)
      && (offset == 0 ==> SOF !in q[..n])
  {
    var n, t := FrameStart(q, offset), TakeFrame(q, offset);
    TakenShape(q, offset);
    ScanPosition(q, 0, offset);
    ExactIff(q, n, t.packet, t.rest, t.offset);
    if offset == 0 { NoiseBefore(q, n); }
  }

  lemma NoiseBefore(q: seq<byte>, n: nat)
    requires |q| >= MIN_PACKET_LEN && Scan(q, 0, 0).Found? && n == Scan(q, 0, 0).at <= |q|
    ensures SOF !in q[..n]
  {
    forall k | 0 <= k < n ensures q[k] != SOF {
      ScanSkipsOnlyNoise(q, 0, k);
    }
  }

  lemma ExactIff(q: seq<byte>, n: nat, p: seq<byte>, rest: seq<byte>, o: nat)
    requires n + 1 + |p| <= |q| && q[n] == SOF && p == q[n + 1..n + 1 + |p|]
    requires rest <= q[n + 1 + |p|..] && |rest| == |q| - |p| - 1 - o
    ensures q == q[..n] + [SOF] + p + rest <==> n == o
  {
    SplitAt(q, n, p);
    assert |q[..n] + [SOF] + p + rest| == |q| <==> n == o;
  }

  lemma SplitAt(q: seq<byte>, n: nat, p: seq<byte>)
    requires n + 1 + |p| <= |q| && q[n] == SOF && p == q[n + 1..n + 1 + |p|]
    ensures q == q[..n] + [SOF] + p + q[n + 1 + |p|..]
  {}

  lemma {:induction false} ScanPosition(q: seq<byte>, at: nat, offset: nat)
    requires at <= offset && at < |q| && |q| >= MIN_PACKET_LEN
    requires offset + MIN_PACKET_LEN <= |q| || at == 0
    ensures var f := Scan(q, at, offset);
      f.Found? ==> if q[at] == SOF then f.at == at && f.offset == offset else f.at == f.offset > at
    decreases |q| - offset
  {
    if q[at] != SOF && |q| >= offset + 1 + MIN_PACKET_LEN {
      ScanPosition(q, offset + 1, offset + 1);
    }
  }

  /** Entered with `Offset` zero, the search skips no SOF: everything before the frame is noise. */
  lemma {:induction false} ScanSkipsOnlyNoise(q: seq<byte>, offset: nat, k: nat)
    requires offset < |q| && |q| >= MIN_PACKET_LEN
    requires offset + MIN_PACKET_LEN <= |q| || offset == 0
    requires offset <= k
    ensures var f := Scan(q, offset, offset);
      f.Found? && k < f.at ==> q[k] != SOF
    decreases |q| - offset
  {
    if q[offset] != SOF && |q| >= offset + 1 + MIN_PACKET_LEN && k > offset {
      ScanSkipsOnlyNoise(q, offset + 1, k);
    }
  }
}
