/**
  What the link delivers: for a stream of frames cut into chunks in any way, the packets of
  exactly the frames that have arrived whole and whose checksum is right, in order.
 */
module MtStream {
  import opened Wire
  import opened MtFrame
  import opened MtQueue

  ghost predicate Frames(fs: seq<seq<byte>>) {
    forall i :: 0 <= i < |fs| ==> IsFrame(fs[i])
  }

  // Frames i up to j fit PacketBuffer.
  ghost predicate AllFit(fs: seq<seq<byte>>, i: nat, j: nat)
    requires j <= |fs|
  {
    forall k :: i <= k < j ==> FitsPacket(fs[k])
  }

  /** The bytes of the blocks from index `i` on. */
  function Stream(fs: seq<seq<byte>>, i: nat): seq<byte>
    requires i <= |fs|
    decreases |fs| - i
  {
    if i == |fs| then [] else fs[i] + Stream(fs, i + 1)
  }

  /** The packets due for frames `i` up to `j`: those with a right checksum, without SOF. */
  function Packets(fs: seq<seq<byte>>, i: nat, j: nat): seq<seq<byte>>
    requires i <= j <= |fs|
    decreases j - i
  {
    if i == j then [] else (if Sound(fs[i]) then [fs[i][1..]] else []) + Packets(fs, i + 1, j)
  }

  lemma {:induction false} PacketsSplit(fs: seq<seq<byte>>, i: nat, j: nat, k: nat)
    requires i <= j <= k <= |fs|
    ensures Packets(fs, i, k) == Packets(fs, i, j) + Packets(fs, j, k)
    decreases j - i
  {
    if i < j { PacketsSplit(fs, i + 1, j, k); }
  }

  /** Where frame `j` starts in the stream. */
  function Pos(fs: seq<seq<byte>>, j: nat): (p: nat)
    requires j <= |fs|
  {
    if j == 0 then 0 else Pos(fs, j - 1) + |fs[j - 1]|
  }

  // -------------------------------------------------------- taking one frame

  // A frame at the head of the queue is taken, and nothing else, if its packet fits.
  lemma TakeWhole(f: seq<byte>, q: seq<byte>)
    requires IsFrame(f)
    ensures TakeFrame(f + q, 0) == if FitsPacket(f) then Taken(f[1..], q, 0) else Overrun
  {
    var s := f + q;
    assert s[0] == SOF && s[1] == f[1];
    assert Scan(s, 0, 0) == Found(0, 0);
    assert s[1..|f|] == f[1..];
    assert s[|f|..|f| + |q|] == q;
  }

  // A frame that has not arrived whole is left alone.
  lemma TakePartial(f: seq<byte>, q: seq<byte>)
    requires IsFrame(f) && |q| < |f| && q == f[..|q|]
    ensures TakeFrame(q, 0) == Stop
  {
    if |q| >= MIN_PACKET_LEN {
      assert q[0] == f[0] && q[1] == f[1];
      assert Scan(q, 0, 0) == Found(0, 0);
    }
  }

  // ------------------------------------------------------------ one whole run

  lemma PrefixDrop(q: seq<byte>, f: seq<byte>, more: seq<byte>)
    requires q <= f + more && |f| <= |q|
    ensures q == f + q[|f|..] && q[|f|..] <= more
  {
    assert q == (f + more)[..|q|];
    assert q[|f|..] == more[..|q| - |f|];
  }

  lemma PrefixCut(q: seq<byte>, f: seq<byte>, more: seq<byte>)
    requires q <= f + more && |q| <= |f|
    ensures q == f[..|q|]
  {
    assert q == (f + more)[..|q|];
  }

  lemma AssembleWhole(f: seq<byte>, q: seq<byte>)
    requires IsFrame(f) && FitsPacket(f)
    ensures var r := Assemble(q, 0);
      Assemble(f + q, 0) == r.(packets := (if Sound(f) then [f[1..]] else []) + r.packets)
  {
    TakeWhole(f, q);
  }

  lemma DropOfAppend(f: seq<byte>, q: seq<byte>, n: nat)
    requires n <= |q|
    ensures (f + q)[|f| + n..] == q[n..]
  {}

  // A run on q, the bytes of frames i up to j and some of the next: it overruns if one of them does not fit.
  ghost predicate PrefixRun(fs: seq<seq<byte>>, i: nat, q: seq<byte>, j: nat, r: Result)
    requires i <= j <= |fs| && 0 <= Pos(fs, j) - Pos(fs, i) <= |q|
  {
    && (r.overrun <==> !AllFit(fs, i, j))
    && (AllFit(fs, i, j) ==> r == Result(Packets(fs, i, j), q[Pos(fs, j) - Pos(fs, i)..], false))
  }

  /**
    One run of the assembler on any prefix of a stream of frames, with any length bytes, starting with frame `i`:
    it overruns PacketBuffer exactly if one of the frames that lie whole in the prefix does not fit.
   */
  lemma {:induction false} AssemblePrefix(fs: seq<seq<byte>>, i: nat, q: seq<byte>) returns (j: nat)
    requires Frames(fs) && i <= |fs| && q <= Stream(fs, i)
    ensures i <= j <= |fs| && 0 <= Pos(fs, j) - Pos(fs, i) <= |q|
    ensures j < |fs| ==> |q| < Pos(fs, j + 1) - Pos(fs, i)
    ensures PrefixRun(fs, i, q, j, Assemble(q, 0))
    decreases |fs| - i
  {
    if i == |fs| {
      j := i;
    } else if |fs[i]| > |q| {
      PrefixCut(q, fs[i], Stream(fs, i + 1));
      TakePartial(fs[i], q);
      j := i;
    } else {
      var rest := q[|fs[i]|..];
      PrefixDrop(q, fs[i], Stream(fs, i + 1));
      j := AssemblePrefix(fs, i + 1, rest);
      PrefixStep(fs, i, j, rest);
    }
  }

  // The same for the frames behind the first carries over to the whole.
  lemma PrefixStep(fs: seq<seq<byte>>, i: nat, j: nat, rest: seq<byte>)
    requires Frames(fs) && i < j <= |fs| && 0 <= Pos(fs, j) - Pos(fs, i + 1) <= |rest|
    requires PrefixRun(fs, i + 1, rest, j, Assemble(rest, 0))
    ensures PrefixRun(fs, i, fs[i] + rest, j, Assemble(fs[i] + rest, 0))
  {
    AllFitFrom(fs, i, j);
    if FitsPacket(fs[i]) {
      AssembleWhole(fs[i], rest);
      DropOfAppend(fs[i], rest, Pos(fs, j) - Pos(fs, i + 1));
    } else {
      TakeWhole(fs[i], rest);
    }
  }

  lemma AllFitFrom(fs: seq<seq<byte>>, i: nat, j: nat)
    requires i < j <= |fs|
    ensures AllFit(fs, i, j) <==> FitsPacket(fs[i]) && AllFit(fs, i + 1, j)
  {}

  // ------------------------------------------------------ chunk independence

  // Frame `j` is the one that the prefix `q` of the stream leaves unfinished.
  ghost predicate Unfinished(fs: seq<seq<byte>>, q: seq<byte>, j: nat) {
    j <= |fs| && Pos(fs, j) <= |q| && (j < |fs| ==> |q| < Pos(fs, j + 1))
  }

  /** What has been handed up, and what is buffered, after the prefix `q`: the packets before `j`, the bytes of `j`. */
  ghost predicate UpToDate(fs: seq<seq<byte>>, q: seq<byte>, j: nat, packets: seq<seq<byte>>, buffered: seq<byte>) {
    && q <= Stream(fs, 0)
    && Unfinished(fs, q, j)
    && packets == Packets(fs, 0, j)
    && buffered == q[Pos(fs, j)..]
  }

  lemma PrefixOfPrefix(a: seq<byte>, b: seq<byte>, all: seq<byte>)
    requires a + b <= all
    ensures a <= all
  {
    assert a == all[..|a + b|][..|a|];
  }

  lemma {:induction false} StreamAt(fs: seq<seq<byte>>, j: nat)
    requires j <= |fs|
    ensures |Stream(fs, 0)| == Pos(fs, j) + |Stream(fs, j)|
    ensures Stream(fs, j) == Stream(fs, 0)[Pos(fs, j)..]
  {
    if j > 0 {
      StreamAt(fs, j - 1);
      DropOfAppend(fs[j - 1], Stream(fs, j), 0);
      DropTwice(Stream(fs, 0), Pos(fs, j - 1), |fs[j - 1]|);
    }
  }

  lemma DropTwice(s: seq<byte>, a: nat, b: nat)
    requires a + b <= |s|
    ensures s[a..][b..] == s[a + b..]
  {}

  lemma PrefixTail(q: seq<byte>, all: seq<byte>, n: nat)
    requires q <= all && n <= |q|
    ensures q[n..] <= all[n..]
  {
    assert q == all[..|q|];
    assert q[n..] == all[n..][..|q| - n];
  }

  lemma TailOfMore(q: seq<byte>, more: seq<byte>, n: nat)
    requires n <= |q|
    ensures (q + more)[n..] == q[n..] + more
  {}

  /** A run of the assembler after more bytes have arrived brings everything up to date again, or overruns. */
  lemma AssembleMore(fs: seq<seq<byte>>, q: seq<byte>, j: nat, more: seq<byte>,
                     packets: seq<seq<byte>>, buffered: seq<byte>) returns (k: nat)
    requires Frames(fs) && q + more <= Stream(fs, 0)
    requires UpToDate(fs, q, j, packets, buffered)
    ensures j <= k && Unfinished(fs, q + more, k)
    ensures var r := Assemble(buffered + more, 0);
      && (r.overrun <==> !AllFit(fs, j, k))
      && (!r.overrun ==> UpToDate(fs, q + more, k, packets + r.packets, r.rest))
  {
    var p, x := Pos(fs, j), buffered + more;
    TailOfMore(q, more, p);
    StreamAt(fs, j);
    PrefixTail(q + more, Stream(fs, 0), p);
    k := AssemblePrefix(fs, j, x);
    PacketsSplit(fs, 0, j, k);
    DropTwice(q + more, p, Pos(fs, k) - p);
  }

  /** Bytes arrive in chunks; the assembler runs after each. */
  function Feed(chunks: seq<seq<byte>>, i: nat, q: seq<byte>): Result
    requires i <= |chunks|
    decreases |chunks| - i
  {
    if i == |chunks| then Result([], q, false)
    else
      var r := Assemble(q + chunks[i], 0);
      var s := Feed(chunks, i + 1, r.rest);
      Result(r.packets + s.packets, s.rest, r.overrun || s.overrun)
  }

  // The frame that a longer prefix leaves unfinished is no earlier one.
  lemma {:induction false} FindUnfinished(fs: seq<seq<byte>>, q: seq<byte>, j: nat) returns (k: nat)
    requires Frames(fs) && j <= |fs| && Pos(fs, j) <= |q|
    ensures j <= k && Unfinished(fs, q, k)
    decreases |fs| - j
  {
    if j == |fs| || |q| < Pos(fs, j + 1) {
      k := j;
    } else {
      k := FindUnfinished(fs, q, j + 1);
    }
  }

  /**
    Chunk independence: whatever the sizes of the chunks, what has been handed up after a prefix of
    the stream depends on that prefix alone, and what is buffered is the unfinished frame.  A run
    overruns PacketBuffer exactly if a frame that has arrived whole does not fit.
   */
  lemma {:induction false} FeedUpToDate(fs: seq<seq<byte>>, chunks: seq<seq<byte>>, i: nat, q: seq<byte>, j: nat,
                                        packets: seq<seq<byte>>, buffered: seq<byte>) returns (k: nat)
    requires Frames(fs) && i <= |chunks| && q + Stream(chunks, i) <= Stream(fs, 0)
    requires UpToDate(fs, q, j, packets, buffered)
    ensures j <= k && Unfinished(fs, q + Stream(chunks, i), k)
    ensures var r := Feed(chunks, i, buffered);
      && (r.overrun <==> !AllFit(fs, j, k))
      && (!r.overrun ==> UpToDate(fs, q + Stream(chunks, i), k, packets + r.packets, r.rest))
    decreases |chunks| - i
  {
    if i == |chunks| {
      assert q + [] == q && packets + [] == packets;
      k := j;
    } else {
      var c, more := chunks[i], Stream(chunks, i + 1);
      assert q + (c + more) == q + c + more;
      PrefixOfPrefix(q + c, more, Stream(fs, 0));
      var m := AssembleMore(fs, q, j, c, packets, buffered);
      var r := Assemble(buffered + c, 0);
      if r.overrun {
        k := FindUnfinished(fs, q + c + more, m);
      } else {
        k := FeedUpToDate(fs, chunks, i + 1, q + c, m, packets + r.packets, r.rest);
        AppendAssoc(packets, r.packets, Feed(chunks, i + 1, r.rest).packets);
      }
      AllFitSplit(fs, j, m, k);
    }
  }

  lemma AllFitSplit(fs: seq<seq<byte>>, i: nat, j: nat, k: nat)
    requires i <= j <= k <= |fs|
    ensures AllFit(fs, i, k) <==> AllFit(fs, i, j) && AllFit(fs, j, k)
  {}

  lemma AppendAssoc<T>(a: seq<T>, b: seq<T>, c: seq<T>)
    ensures a + b + c == a + (b + c)
  {}

  lemma NothingYet(fs: seq<seq<byte>>)
    requires Frames(fs)
    ensures UpToDate(fs, [], 0, [], [])
  {
    assert fs != [] ==> IsFrame(fs[0]) && Pos(fs, 1) == |fs[0]|;
  }

  // With the whole stream in, no frame is unfinished.
  lemma AllWhole(fs: seq<seq<byte>>, j: nat)
    requires Unfinished(fs, Stream(fs, 0), j)
    ensures j == |fs| && Pos(fs, j) == |Stream(fs, 0)|
  {
    StreamAt(fs, j);
    StreamAt(fs, if j < |fs| then j + 1 else j);
  }

  /** A stream of frames that fit, in any chunks: all and only those with a right checksum are handed up, in order. */
  lemma Delivery(fs: seq<seq<byte>>, chunks: seq<seq<byte>>)
    requires Frames(fs) && AllFit(fs, 0, |fs|) && Stream(chunks, 0) == Stream(fs, 0)
    ensures Feed(chunks, 0, []) == Result(Packets(fs, 0, |fs|), [], false)
  {
    var k := FeedAll(fs, chunks);
    AllWhole(fs, k);
  }

  /**
    A stream of frames with any length bytes, in any chunks, overruns PacketBuffer exactly if a length byte is 253 or
    more.
   */
  lemma OverrunIff(fs: seq<seq<byte>>, chunks: seq<seq<byte>>)
    requires Frames(fs) && Stream(chunks, 0) == Stream(fs, 0)
    ensures Feed(chunks, 0, []).overrun <==> exists k :: 0 <= k < |fs| && fs[k][1] as int >= 253
  {
    var k := FeedAll(fs, chunks);
    AllWhole(fs, k);
    if !AllFit(fs, 0, |fs|) {
      var m :| 0 <= m < |fs| && !FitsPacket(fs[m]);
      assert IsFrame(fs[m]);
    }
  }

  // A frame of 253 zero bytes of data.
  function LongFrame(): seq<byte> {
    [SOF, 253] + seq(256, _ => 0)
  }

  /** One frame with the length byte 253 overruns PacketBuffer, as soon as it has arrived whole. */
  lemma OverrunWitness()
    ensures IsFrame(LongFrame()) && Feed([LongFrame()], 0, []).overrun
  {
    assert Frames([LongFrame()]);
    assert [LongFrame()][0][1] as int >= 253;
    OverrunIff([LongFrame()], [LongFrame()]);
  }

  lemma FeedAll(fs: seq<seq<byte>>, chunks: seq<seq<byte>>) returns (k: nat)
    requires Frames(fs) && Stream(chunks, 0) == Stream(fs, 0)
    ensures Unfinished(fs, Stream(fs, 0), k)
    ensures var r := Feed(chunks, 0, []);
      && (r.overrun <==> !AllFit(fs, 0, k))
      && (!r.overrun ==> UpToDate(fs, Stream(fs, 0), k, r.packets, r.rest))
  {
    NothingYet(fs);
    NothingBefore(Stream(fs, 0));
    NothingBefore(Feed(chunks, 0, []).packets);
    k := FeedUpToDate(fs, chunks, 0, [], 0, [], []);
  }

  lemma NothingBefore<T>(s: seq<T>)
    ensures [] + s == s
  {}

  // ------------------------------------------------------------- round trip

  ghost predicate ValidCommands(cs: seq<Command>) {
    forall i :: 0 <= i < |cs| ==> cs[i].Valid()
  }

  function FramesOf(cs: seq<Command>): (fs: seq<seq<byte>>)
    ensures |fs| == |cs| && forall i :: 0 <= i < |cs| ==> fs[i] == FrameOf(cs[i])
  {
    seq(|cs|, i requires 0 <= i < |cs| => FrameOf(cs[i]))
  }

  // The packets the handler is given for a list of commands.
  function PacketsOf(cs: seq<Command>): (ps: seq<seq<byte>>)
    ensures |ps| == |cs| && forall i :: 0 <= i < |cs| ==> ps[i] == FrameOf(cs[i])[1..]
  {
    seq(|cs|, i requires 0 <= i < |cs| => FrameOf(cs[i])[1..])
  }

  lemma {:induction false} PacketsAllSound(fs: seq<seq<byte>>, i: nat)
    requires i <= |fs| && forall k :: 0 <= k < |fs| ==> Sound(fs[k])
    ensures var ps := Packets(fs, i, |fs|);
      |ps| == |fs| - i && forall k :: i <= k < |fs| ==> Sound(fs[k]) && ps[k - i] == fs[k][1..]
    decreases |fs| - i
  {
    if i < |fs| { PacketsAllSound(fs, i + 1); }
  }

  lemma CommandFrames(cs: seq<Command>)
    requires ValidCommands(cs)
    ensures Frames(FramesOf(cs)) && AllFit(FramesOf(cs), 0, |cs|)
    ensures Packets(FramesOf(cs), 0, |cs|) == PacketsOf(cs)
  {
    CommandFramesSound(cs);
    PacketsAllSound(FramesOf(cs), 0);
    assert Packets(FramesOf(cs), 0, |cs|) == PacketsOf(cs) by {
      SamePackets(Packets(FramesOf(cs), 0, |cs|), FramesOf(cs), PacketsOf(cs));
    }
  }

  lemma SamePackets(ps: seq<seq<byte>>, fs: seq<seq<byte>>, ps': seq<seq<byte>>)
    requires |ps| == |fs| == |ps'|
    requires forall k :: 0 <= k < |fs| ==> fs[k] != [] && ps[k] == fs[k][1..]
    requires forall k :: 0 <= k < |fs| ==> fs[k] != [] && ps'[k] == fs[k][1..]
    ensures ps == ps'
  {}

  lemma CommandFramesSound(cs: seq<Command>)
    requires ValidCommands(cs)
    ensures Frames(FramesOf(cs)) && AllFit(FramesOf(cs), 0, |cs|)
    ensures forall k :: 0 <= k < |cs| ==> Sound(FramesOf(cs)[k])
  {
    var fs := FramesOf(cs);
    forall i | 0 <= i < |fs| ensures IsFrame(fs[i]) && FitsPacket(fs[i]) && Sound(fs[i]) {
      FrameIsSound(cs[i]);
    }
  }

  lemma PacketsCarry(cs: seq<Command>)
    requires ValidCommands(cs)
    ensures |PacketsOf(cs)| == |cs| && forall i :: 0 <= i < |cs| ==> Carries(PacketsOf(cs)[i], cs[i])
  {
    forall i | 0 <= i < |cs| ensures Carries(PacketsOf(cs)[i], cs[i]) {
      FrameCarries(cs[i]);
    }
  }

  /** Serial round trip: the commands framed by the builder come out of the assembler, in any chunks. */
  lemma RoundTrip(cs: seq<Command>, chunks: seq<seq<byte>>)
    requires ValidCommands(cs) && Stream(chunks, 0) == Stream(FramesOf(cs), 0)
    ensures Feed(chunks, 0, []) == Result(PacketsOf(cs), [], false)
    ensures |PacketsOf(cs)| == |cs| && forall i :: 0 <= i < |cs| ==> Carries(PacketsOf(cs)[i], cs[i])
  {
    CommandFrames(cs);
    Delivery(FramesOf(cs), chunks);
    PacketsCarry(cs);
  }

  /** The packets determine the commands. */
  lemma PacketsInjective(cs: seq<Command>, ds: seq<Command>)
    requires ValidCommands(cs) && ValidCommands(ds) && PacketsOf(cs) == PacketsOf(ds)
    ensures cs == ds
  {
    assert |cs| == |PacketsOf(cs)| == |ds|;
    forall i | 0 <= i < |cs| ensures cs[i] == ds[i] {
      assert PacketsOf(cs)[i] == PacketsOf(ds)[i];
      FrameInjective(cs[i], ds[i]);
    }
  }

  // --------------------------------------------------------- corrupted frames

  /** Altering one byte other than SOF and length makes a sound frame unsound, and it stays a frame. */
  lemma AlterByte(f: seq<byte>, i: nat, b: byte)
    requires IsFrame(f) && Sound(f) && 2 <= i < |f| && b != f[i]
    ensures IsFrame(f[i := b]) && !Sound(f[i := b])
  {
    XorAlter(f[1..], i - 1, b);
    assert f[i := b][1..] == f[1..][i - 1 := b];
  }

  lemma {:induction false} PacketsAgree(fs: seq<seq<byte>>, gs: seq<seq<byte>>, i: nat, j: nat)
    requires i <= j <= |fs| && j <= |gs| && forall k :: i <= k < j ==> fs[k] == gs[k]
    ensures Packets(fs, i, j) == Packets(gs, i, j)
    decreases j - i
  {
    if i < j {
      assert fs[i] == gs[i];
      PacketsAgree(fs, gs, i + 1, j);
    }
  }

  lemma PacketsAround(fs: seq<seq<byte>>, k: nat)
    requires k < |fs|
    ensures Packets(fs, 0, |fs|) ==
            Packets(fs, 0, k) + (if Sound(fs[k]) then [fs[k][1..]] else []) + Packets(fs, k + 1, |fs|)
  {
    PacketsSplit(fs, 0, k, |fs|);
    AppendAssoc(Packets(fs, 0, k), if Sound(fs[k]) then [fs[k][1..]] else [], Packets(fs, k + 1, |fs|));
  }

  /** A damaged frame costs only itself. */
  lemma DamageIsLocal(fs: seq<seq<byte>>, k: nat, i: nat, b: byte, chunks: seq<seq<byte>>)
    requires Frames(fs) && AllFit(fs, 0, |fs|) && k < |fs| && Sound(fs[k])
    requires 2 <= i < |fs[k]| && b != fs[k][i]
    requires Stream(chunks, 0) == Stream(fs[k := fs[k][i := b]], 0)
    ensures Feed(chunks, 0, []) == Result(Packets(fs, 0, k) + Packets(fs, k + 1, |fs|), [], false)
    ensures Packets(fs, 0, |fs|) == Packets(fs, 0, k) + [fs[k][1..]] + Packets(fs, k + 1, |fs|)
  {
    AlterByte(fs[k], i, b);
    DamagedPackets(fs, k, fs[k][i := b]);
    assert AllFit(fs[k := fs[k][i := b]], 0, |fs|);
    Delivery(fs[k := fs[k][i := b]], chunks);
    PacketsAround(fs, k);
  }

  lemma DamagedPackets(fs: seq<seq<byte>>, k: nat, bad: seq<byte>)
    requires Frames(fs) && k < |fs| && IsFrame(bad) && !Sound(bad)
    ensures var gs := fs[k := bad];
      Frames(gs) && Packets(gs, 0, |gs|) == Packets(fs, 0, k) + Packets(fs, k + 1, |fs|)
  {
    var gs := fs[k := bad];
    PacketsAround(gs, k);
    PacketsAgree(fs, gs, 0, k);
    PacketsAgree(fs, gs, k + 1, |fs|);
    assert Packets(fs, 0, k) + [] == Packets(fs, 0, k);
  }

  // -------------------------------------------------- noise and the carried Offset

  lemma {:induction false} ScanNoise(noise: seq<byte>, q: seq<byte>, o: nat)
    requires SOF !in noise && o <= |noise| && |q| >= MIN_PACKET_LEN && q[0] == SOF
    ensures Scan(noise + q, o, o) == Found(|noise|, |noise|)
    decreases |noise| - o
  {
    if o < |noise| {
      assert (noise + q)[o] == noise[o];
      ScanNoise(noise, q, o + 1);
    } else {
      assert (noise + q)[o] == q[0];
    }
  }

  lemma SliceAppend(a: seq<byte>, b: seq<byte>, i: nat, j: nat)
    requires i <= j <= |b|
    ensures (a + b)[|a| + i..|a| + j] == b[i..j]
  {}

  lemma TakeAtFrame(noise: seq<byte>, f: seq<byte>, q: seq<byte>)
    requires IsFrame(f) && FitsPacket(f)
    ensures TakeAt(noise + (f + q), |noise|, |noise|) == Taken(f[1..], q, |noise|)
  {
    var s, n := noise + (f + q), |noise|;
    assert s[n + 1] == f[1];
    SliceAppend(noise, f + q, 1, |f|);
    SliceAppend(noise, f + q, |f|, |f| + |q|);
    assert (f + q)[1..|f|] == f[1..];
    assert (f + q)[|f|..|f| + |q|] == q;
  }

  // Noise in front of the first frame taken by a run is dropped with that frame.
  lemma TakeAfterNoise(noise: seq<byte>, f: seq<byte>, q: seq<byte>)
    requires SOF !in noise && IsFrame(f) && FitsPacket(f)
    ensures TakeFrame(noise + (f + q), 0) == Taken(f[1..], q, |noise|)
  {
    ScanNoise(noise, f + q, 0);
    TakeAtFrame(noise, f, q);
  }

  /**
    A critical section entered with `Offset` zero overruns PacketBuffer exactly if the length byte behind the first
    SOF is 253 or more, and that many bytes are there.
   */
  lemma CopyOverrunIff(q: seq<byte>, n: nat)
    requires n + MIN_PACKET_LEN <= |q| && SOF !in q[..n] && q[n] == SOF
    ensures TakeFrame(q, 0).Overrun? <==> q[n + 1] as int >= 253 && |q| >= n + q[n + 1] as int + 5
  {
    ScanNoise(q[..n], q[n..], 0);
    assert q[..n] + q[n..] == q;
  }

  // With a carried Offset the frame at the head is taken and `o` bytes are cut off the end of the queue.
  lemma CarriedTake(q: seq<byte>, f: seq<byte>, more: seq<byte>, o: nat)
    requires IsFrame(f) && q <= f + more && TakeFrame(q, o).Taken?
    ensures var t := TakeFrame(q, o);
      && t.offset == o
      && |f| + o <= |q|
      && t.rest == q[|f|..|q| - o]
  {
    assert q == (f + more)[..|q|];
    assert q[0] == f[0] && q[1] == f[1];
    assert Scan(q, 0, o) == Found(0, o);
    assert TakeFrame(q, o) == TakeAt(q, 0, o);
  }

  lemma CarriedPacket(q: seq<byte>, f: seq<byte>, more: seq<byte>, o: nat)
    requires IsFrame(f) && q <= f + more && TakeFrame(q, o).Taken?
    ensures TakeFrame(q, o).packet == f[1..]
  {
    assert q == (f + more)[..|q|];
    assert q[0] == f[0] && q[1] == f[1];
    assert Scan(q, 0, o) == Found(0, o);
    assert TakeFrame(q, o) == TakeAt(q, 0, o);
    assert q[1..|f|] == f[1..];
  }

  lemma CutPrefix(q: seq<byte>, f: seq<byte>, more: seq<byte>, o: nat)
    requires q <= f + more && |f| + o <= |q|
    ensures q[|f|..|q| - o] <= more
  {
    assert q == (f + more)[..|q|];
    assert q[|f|..|q| - o] == more[..|q| - o - |f|];
  }

  // With a carried Offset the frame at the head is taken only if `o` bytes lie behind it.
  lemma CarriedTakeIff(f: seq<byte>, more: seq<byte>, o: nat)
    requires IsFrame(f) && FitsPacket(f)
    ensures TakeFrame(f + more, o).Taken? <==> o <= |more|
    ensures o > |more| ==> TakeFrame(f + more, o) == Stop
  {
    var q := f + more;
    assert q[0] == f[0] && q[1] == f[1];
    assert Scan(q, 0, o) == Found(0, o);
    assert TakeFrame(q, o) == TakeAt(q, 0, o);
  }

  ghost predicate AllSound(fs: seq<seq<byte>>) {
    forall k :: 0 <= k < |fs| ==> Sound(fs[k])
  }

  // With a carried Offset every frame taken costs `o` bytes at the end of the queue; `n` is the frame the run ends
  // before.
  lemma {:induction false} CarriedOffset(fs: seq<seq<byte>>, i: nat, q: seq<byte>, o: nat, r: Result) returns (n: nat)
    requires Frames(fs) && AllSound(fs) && i <= |fs| && q <= Stream(fs, i) && r == Assemble(q, o)
    ensures n == i + |r.packets| <= |fs|
    ensures |r.rest| + (|Stream(fs, i)| - |q|) <= |Stream(fs, n)|
    ensures TakeFrame(q, o).Taken? ==> |r.rest| + (|Stream(fs, i)| - |q|) + o <= |Stream(fs, n)|
    decreases |fs| - i
  {
    if TakeFrame(q, o).Taken? {
      StreamSplit(fs, i, q, o);
      var rest := CarriedRun(fs[i], Stream(fs, i + 1), q, o);
      n := CarriedOffset(fs, i + 1, rest, o, Assemble(rest, o));
    } else {
      n := i;
    }
  }

  lemma StreamSplit(fs: seq<seq<byte>>, i: nat, q: seq<byte>, o: nat)
    requires i <= |fs| && q <= Stream(fs, i) && TakeFrame(q, o).Taken?
    ensures i < |fs| && Stream(fs, i) == fs[i] + Stream(fs, i + 1)
  {}

  // One frame taken with a carried Offset, and the run after it.
  lemma CarriedRun(f: seq<byte>, more: seq<byte>, q: seq<byte>, o: nat) returns (rest: seq<byte>)
    requires IsFrame(f) && Sound(f) && q <= f + more && TakeFrame(q, o).Taken?
    ensures rest <= more && |rest| + |f| + o == |q|
    ensures var r := Assemble(rest, o); Assemble(q, o) == Result([f[1..]] + r.packets, r.rest, r.overrun)
  {
    CarriedTake(q, f, more, o);
    CutPrefix(q, f, more, o);
    rest := TakeFrame(q, o).rest;
    CarriedPacket(q, f, more, o);
  }

  // What a run has handed up, and what it has left, are the frames of the stream, whole and in order.
  ghost predicate NothingLost(fs: seq<seq<byte>>, r: Result) {
    exists j :: 0 <= j <= |fs| && r.packets == Packets(fs, 0, j) && r.rest == Stream(fs, j)
  }

  // The run after the first frame, which leaves the length of the noise in `Offset`.
  lemma AfterNoise(noise: seq<byte>, fs: seq<seq<byte>>)
    requires SOF !in noise && Frames(fs) && AllFit(fs, 0, |fs|) && AllSound(fs) && fs != []
    ensures var r, s := Assemble(noise + Stream(fs, 0), 0), Assemble(Stream(fs, 1), |noise|);
      r == Result([fs[0][1..]] + s.packets, s.rest, s.overrun)
  {
    TakeAfterNoise(noise, fs[0], Stream(fs, 1));
    assert Sound(fs[0]);
  }

  lemma PacketCount(fs: seq<seq<byte>>, j: nat)
    requires j <= |fs| && AllSound(fs)
    ensures |Packets(fs, 0, j)| == j
  {
    PacketsAllSound(fs[..j], 0);
    PacketsAgree(fs, fs[..j], 0, j);
  }

  lemma LostIf(noise: seq<byte>, fs: seq<seq<byte>>)
    requires SOF !in noise && Frames(fs) && AllFit(fs, 0, |fs|) && AllSound(fs)
    requires noise != [] && |fs| >= 2 && |noise| <= |Stream(fs, 2)|
    ensures !NothingLost(fs, Assemble(noise + Stream(fs, 0), 0))
  {
    var s := Assemble(Stream(fs, 1), |noise|);
    AfterNoise(noise, fs);
    SecondTaken(fs, |noise|, s);
    CutShort(fs, Result([fs[0][1..]] + s.packets, s.rest, s.overrun), |noise|);
  }

  lemma SecondTaken(fs: seq<seq<byte>>, o: nat, s: Result)
    requires Frames(fs) && AllFit(fs, 0, |fs|) && AllSound(fs) && |fs| >= 2 && o <= |Stream(fs, 2)|
    requires s == Assemble(Stream(fs, 1), o)
    ensures 1 + |s.packets| <= |fs| && |s.rest| + o <= |Stream(fs, 1 + |s.packets|)|
  {
    CarriedTakeIff(fs[1], Stream(fs, 2), o);
    var n := CarriedOffset(fs, 1, Stream(fs, 1), o, s);
  }

  lemma CutShort(fs: seq<seq<byte>>, r: Result, o: nat)
    requires AllSound(fs) && o > 0 && |r.packets| <= |fs| && |r.rest| + o <= |Stream(fs, |r.packets|)|
    ensures !NothingLost(fs, r)
  {
    forall j | 0 <= j <= |fs| && r.packets == Packets(fs, 0, j) ensures r.rest != Stream(fs, j) {
      PacketCount(fs, j);
    }
  }

  lemma KeptIf(noise: seq<byte>, fs: seq<seq<byte>>)
    requires SOF !in noise && Frames(fs) && AllFit(fs, 0, |fs|) && AllSound(fs)
    requires noise != [] && fs != [] && (|fs| == 1 || |noise| > |Stream(fs, 2)|)
    ensures Assemble(noise + Stream(fs, 0), 0) == Result(Packets(fs, 0, 1), Stream(fs, 1), false)
  {
    AfterNoise(noise, fs);
    if |fs| > 1 { CarriedTakeIff(fs[1], Stream(fs, 2), |noise|); }
    assert Packets(fs, 1, 1) == [];
    assert Sound(fs[0]);
  }

  /**
    `Offset` is set once per run: of noise followed by sound frames, one run loses bytes of some frame for good
    exactly if there is noise, no more of it than bytes behind the second frame.  Otherwise whatever
    it does not hand up is left whole for the next run.
   */
  lemma NoiseLosesIff(noise: seq<byte>, fs: seq<seq<byte>>)
    requires SOF !in noise && Frames(fs) && AllFit(fs, 0, |fs|) && AllSound(fs) && fs != []
    ensures NothingLost(fs, Assemble(noise + Stream(fs, 0), 0)) <==>
            noise == [] || |fs| == 1 || |noise| > |Stream(fs, 2)|
  {
    if noise == [] {
      NothingBefore(Stream(fs, 0));
      AllHandedUp(fs, noise + Stream(fs, 0));
    } else if |fs| == 1 || |noise| > |Stream(fs, 2)| {
      KeptIf(noise, fs);
    } else {
      LostIf(noise, fs);
    }
  }

  lemma AllHandedUp(fs: seq<seq<byte>>, q: seq<byte>)
    requires Frames(fs) && AllFit(fs, 0, |fs|) && q == Stream(fs, 0)
    ensures Assemble(q, 0) == Result(Packets(fs, 0, |fs|), [], false)
  {
    var j := AssemblePrefix(fs, 0, q);
    AllWhole(fs, j);
    NothingBehind(q);
  }

  lemma NothingBehind(q: seq<byte>)
    ensures q[|q|..] == []
  {}

  /**
    One run on noise followed by sound frames hands up all of them if and only if there is no noise or at most one
    frame.
   */
  lemma NoiseThenFrames(noise: seq<byte>, fs: seq<seq<byte>>)
    requires SOF !in noise && Frames(fs) && AllFit(fs, 0, |fs|) && AllSound(fs)
    ensures Assemble(noise + Stream(fs, 0), 0).packets == Packets(fs, 0, |fs|) <==> noise == [] || |fs| <= 1
  {
    if noise == [] {
      NothingBefore(Stream(fs, 0));
      AllHandedUp(fs, noise + Stream(fs, 0));
    } else if fs == [] {
      assert noise + Stream(fs, 0) == noise;
      NoiseOnly(noise, 0);
    } else {
      NoiseAndFrames(noise, fs);
    }
  }

  lemma NoiseAndFrames(noise: seq<byte>, fs: seq<seq<byte>>)
    requires SOF !in noise && noise != [] && fs != [] && Frames(fs) && AllFit(fs, 0, |fs|) && AllSound(fs)
    ensures Assemble(noise + Stream(fs, 0), 0).packets == Packets(fs, 0, |fs|) <==> |fs| <= 1
  {
    if |fs| == 1 || |noise| > |Stream(fs, 2)| {
      KeptIf(noise, fs);
      PacketCount(fs, 1);
    } else {
      AfterNoise(noise, fs);
      SecondTaken(fs, |noise|, Assemble(Stream(fs, 1), |noise|));
    }
    PacketCount(fs, |fs|);
  }

  // A queue without SOF is left alone.
  lemma {:induction false} NoiseOnly(noise: seq<byte>, o: nat)
    requires SOF !in noise
    requires o + MIN_PACKET_LEN <= |noise| || o == 0
    ensures |noise| >= MIN_PACKET_LEN ==> Scan(noise, o, o) == NotFound
    ensures TakeFrame(noise, 0) == Stop || o > 0
    decreases |noise| - o
  {
    if |noise| >= o + 1 + MIN_PACKET_LEN {
      NoiseOnly(noise, o + 1);
    }
  }
}
