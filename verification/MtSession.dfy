/** The receiving side as a whole: signal handler and assembler over the ring, arrival after arrival. */
module MtSession {
  import opened Wire
  import opened MtFrame
  import opened MtRing
  import opened MtStream

  /**
    One signal: bytes arrive, the handler reads some of them into the ring, the assembler runs.  It overruns
    PacketBuffer exactly if one of the frames that have arrived whole since does not fit.
   */
  method Arrival(ring: SerialBuffer, port: SerialPort, chunk: seq<byte>, before: seq<seq<byte>>,
                 ghost fs: seq<seq<byte>>, ghost taken: seq<byte>, ghost j: nat)
    returns (packets: seq<seq<byte>>, ok: bool, overrun: bool, ghost k: nat, ghost more: seq<byte>)
    requires ring.Valid() && ring.Fits() && Frames(fs)
    requires UpToDate(fs, taken, j, before, ring.Contents())
    requires taken + (port.pending + chunk) <= Stream(fs, 0)
    modifies ring, ring.SerBufIn, port
    ensures ring.Valid() && (ok <==> ring.Fits() && !overrun) && (overrun ==> ring.Fits())
    ensures old(port.pending) + chunk == more + port.pending
    ensures ring.Fits() ==> j <= k && Unfinished(fs, taken + more, k) && (overrun <==> !AllFit(fs, j, k))
    ensures ok ==> UpToDate(fs, taken + more, k, packets, ring.Contents())
  {
    packets, ok, overrun, k := before, true, false, j;
    ghost var unread, tail := port.pending + chunk, ring.Contents();
    port.pending := port.pending + chunk;
    ring.SerialRcv(port);
    more := unread[..|unread| - |port.pending|];
    if ring.SerBufInLen > SERIAL_BUFFER_MAX {
      ok := false;
      return;
    }
    PrefixOfMore(taken, unread, |more|, Stream(fs, 0));
    packets, overrun, k := RunAssembler(ring, before, fs, taken, more, tail, j);
    ok := !overrun;
  }

  // The assembler, on a ring to which `more` has been appended.
  method RunAssembler(ring: SerialBuffer, before: seq<seq<byte>>, ghost fs: seq<seq<byte>>, ghost taken: seq<byte>,
                      ghost more: seq<byte>, ghost tail: seq<byte>, ghost j: nat)
    returns (packets: seq<seq<byte>>, overrun: bool, ghost k: nat)
    requires ring.Valid() && ring.Fits() && Frames(fs)
    requires UpToDate(fs, taken, j, before, tail) && ring.Contents() == tail + more
    requires taken + more <= Stream(fs, 0)
    modifies ring
    ensures ring.Valid() && ring.Fits()
    ensures j <= k && Unfinished(fs, taken + more, k) && (overrun <==> !AllFit(fs, j, k))
    ensures !overrun ==> UpToDate(fs, taken + more, k, packets, ring.Contents())
  {
    k := AssembleMore(fs, taken, j, more, before, tail);
    var ps;
    ps, overrun := ring.MessageAssembler();
    packets := before + ps;
  }

  lemma PrefixOfMore(q: seq<byte>, unread: seq<byte>, n: nat, all: seq<byte>)
    requires q + unread <= all && n <= |unread|
    ensures q + unread[..n] <= all
  {
    assert q + unread == q + unread[..n] + unread[n..];
    PrefixOfPrefix(q + unread[..n], unread[n..], all);
  }

  /**
    For every stream of frames, with any length bytes, and every way it arrives: as long as the ring never has to hold
    more than 512 bytes and no frame that does not fit has arrived whole, the packets handed up are those of the sound
    frames that lie whole within the bytes read so far, and the ring holds the unfinished frame.
   */
  method Receive(ring: SerialBuffer, port: SerialPort, arrivals: seq<seq<byte>>, ghost fs: seq<seq<byte>>)
    returns (packets: seq<seq<byte>>, ok: bool, overrun: bool, ghost k: nat)
    requires ring.Valid() && ring.Fits() && ring.Contents() == [] && port.pending == []
    requires Frames(fs) && Stream(arrivals, 0) <= Stream(fs, 0)
    modifies ring, ring.SerBufIn, port
    ensures ring.Valid() && (ok <==> ring.Fits() && !overrun) && (overrun ==> ring.Fits())
    ensures ok ==>
      && |port.pending| <= |Stream(arrivals, 0)| && k <= |fs| && AllFit(fs, 0, k)
      && UpToDate(fs, Stream(arrivals, 0)[..|Stream(arrivals, 0)| - |port.pending|], k, packets, ring.Contents())
    ensures overrun ==> k <= |fs| && Pos(fs, k) <= |Stream(arrivals, 0)| && !AllFit(fs, 0, k)
  {
    packets, ok, overrun, k := [], true, false, 0;
    ghost var all := Stream(arrivals, 0);
    ghost var taken: seq<byte> := [];
    var i := 0;
    NothingYet(fs);
    while i < |arrivals|
      invariant 0 <= i <= |arrivals| && ok && !overrun
      invariant ring.Valid() && ring.Fits()
      invariant taken + port.pending + Stream(arrivals, i) == all
      invariant UpToDate(fs, taken, k, packets, ring.Contents()) && AllFit(fs, 0, k)
    {
      ghost var pending, rest, j := port.pending, Stream(arrivals, i + 1), k;
      Regroup(taken, pending, arrivals[i], rest);
      PrefixOfPrefix(taken + (pending + arrivals[i]), rest, Stream(fs, 0));
      ghost var more;
      packets, ok, overrun, k, more := Arrival(ring, port, arrivals[i], packets, fs, taken, k);
      if ring.SerBufInLen <= SERIAL_BUFFER_MAX { AllFitSplit(fs, 0, j, k); }
      Regroup(taken, more, port.pending, rest);
      if !ok {
        return;
      }
      taken := taken + more;
      i := i + 1;
    }
    assert taken + port.pending == all;
    assert taken == all[..|taken|];
  }

  lemma Regroup(a: seq<byte>, b: seq<byte>, c: seq<byte>, d: seq<byte>)
    ensures a + b + (c + d) == a + (b + c) + d
    ensures a + (b + c) + d == a + b + c + d
  {}

  // What has been handed up of commands whose frames have not all been read yet.
  lemma CommandsSoFar(cs: seq<Command>, q: seq<byte>, k: nat, packets: seq<seq<byte>>, buffered: seq<byte>)
    requires ValidCommands(cs) && UpToDate(FramesOf(cs), q, k, packets, buffered)
    ensures packets <= PacketsOf(cs)
    ensures q == Stream(FramesOf(cs), 0) ==> packets == PacketsOf(cs) && buffered == []
  {
    var fs := FramesOf(cs);
    CommandFrames(cs);
    PacketsSplit(fs, 0, k, |fs|);
    if q == Stream(fs, 0) { AllWhole(fs, k); }
  }

  lemma CommandsFit(cs: seq<Command>, k: nat)
    requires ValidCommands(cs) && k <= |cs|
    ensures AllFit(FramesOf(cs), 0, k)
  {
    CommandFrames(cs);
    AllFitSplit(FramesOf(cs), 0, k, |cs|);
  }

  /**
    The round trip over the ring: commands of up to 250 data bytes, framed and arriving in any pieces, never overrun
    PacketBuffer.  As long as the ring never has to hold more than 512 bytes, their packets are handed up in order, all
    of them once every byte has been read.
   */
  method ReceiveCommands(ring: SerialBuffer, port: SerialPort, arrivals: seq<seq<byte>>, ghost cs: seq<Command>)
    returns (packets: seq<seq<byte>>, overrun: bool)
    requires ring.Valid() && ring.Fits() && ring.Contents() == [] && port.pending == []
    requires ValidCommands(cs) && Stream(arrivals, 0) == Stream(FramesOf(cs), 0)
    modifies ring, ring.SerBufIn, port
    ensures ring.Valid() && !overrun
    ensures ring.Fits() ==> packets <= PacketsOf(cs)
    ensures ring.Fits() && port.pending == [] ==> packets == PacketsOf(cs) && ring.Contents() == []
    ensures ring.Fits() ==> |packets| <= |cs| && forall i :: 0 <= i < |packets| ==> Carries(packets[i], cs[i])
    ensures ring.Fits() && port.pending == [] ==> |packets| == |cs|
  {
    CommandFrames(cs);
    PacketsCarry(cs);
    hide Carries, FramesOf, PacketsOf, ValidCommands;
    var ok;
    ghost var k;
    packets, ok, overrun, k := Receive(ring, port, arrivals, FramesOf(cs));
    if overrun {
      CommandsFit(cs, k);
    } else if ok {
      ghost var all := Stream(arrivals, 0);
      CommandsSoFar(cs, all[..|all| - |port.pending|], k, packets, ring.Contents());
    }
  }
}
