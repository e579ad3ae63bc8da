/**
  Frames of the Monitor and Test serial link: SOF, data length, two command bytes, the data and
  a checksum byte that makes the xor of everything after SOF zero.
 */
module MtFrame {

  import opened Wire

  const SOF: byte := 0xFE
  const MIN_PACKET_LEN := 5
  const MT_RPC_DATA_MAX := 250

  function XorAll(s: seq<byte>): byte {
    if s == [] then 0 else XorAll(s[..|s| - 1]) ^ s[|s| - 1]
  }

  lemma {:induction false} XorAppend(a: seq<byte>, b: seq<byte>)
    ensures XorAll(a + b) == XorAll(a) ^ XorAll(b)
  {
    if b == [] {
      assert a + b == a;
    } else {
      var b' := b[..|b| - 1];
      assert (a + b)[..|a + b| - 1] == a + b';
      XorAppend(a, b');
    }
  }

  lemma XorOne(b: byte)
    ensures XorAll([b]) == b
  {
    assert [b][..0] == [];
  }

  /** Changing one byte changes the xor. */
  lemma XorAlter(s: seq<byte>, i: nat, b: byte)
    requires i < |s|
    ensures XorAll(s[i := b]) == XorAll(s) <==> b == s[i]
  {
    var pre, post := s[..i], s[i + 1..];
    assert s == pre + [s[i]] + post;
    assert s[i := b] == pre + [b] + post;
    XorOne(s[i]);
    XorOne(b);
    XorAppend(pre, [s[i]]);
    XorAppend(pre, [b]);
    XorAppend(pre + [s[i]], post);
    XorAppend(pre + [b], post);
    XorCancel(XorAll(pre), b, s[i], XorAll(post));
  }

  lemma XorCancel(p: byte, x: byte, y: byte, q: byte)
    ensures (p ^ x) ^ q == (p ^ y) ^ q <==> x == y
  {}

  // ------------------------------------------------------------------ frames

  /** A byte string with the outer shape of a frame, for any length byte; its checksum may be wrong. */
  predicate IsFrame(f: seq<byte>) {
    |f| >= MIN_PACKET_LEN && f[0] == SOF && |f| == f[1] as int + 5
  }

  /** The packet of a frame, all of it but SOF, fits the 256 bytes of PacketBuffer. */
  predicate FitsPacket(f: seq<byte>) {
    |f| >= 2 && f[1] as int <= 252
  }

  predicate Sound(f: seq<byte>) {
    f != [] && XorAll(f[1..]) == 0
  }

  /** A command as the callers of MTBuildAndSendCmd give it. */
  datatype Command = Command(cmdType: byte, cmdId: byte, dataLen: byte, data: seq<byte>) {
    ghost predicate Valid() {
      |data| == dataLen as int <= MT_RPC_DATA_MAX
    }

    // What the receiver hands up: everything between SOF and the checksum.
    function Header(): seq<byte> {
      [dataLen, cmdType, cmdId] + data
    }
  }

  function FrameOf(c: Command): seq<byte> {
    [SOF] + c.Header() + [XorAll(c.Header())]
  }

  lemma FrameIsSound(c: Command)
    requires c.Valid()
    ensures IsFrame(FrameOf(c)) && FitsPacket(FrameOf(c)) && Sound(FrameOf(c))
    ensures FrameOf(c)[1..] == c.Header() + [XorAll(c.Header())]
  {
    var f := FrameOf(c);
    assert f[1..] == c.Header() + [XorAll(c.Header())];
    XorAppend(c.Header(), [XorAll(c.Header())]);
    XorOne(XorAll(c.Header()));
  }

  /** Two commands with the same frame are the same command. */
  lemma FrameInjective(c: Command, d: Command)
    requires c.Valid() && d.Valid()
    requires FrameOf(c)[1..] == FrameOf(d)[1..]
    ensures c == d
  {
    FrameIsSound(c);
    FrameIsSound(d);
    var h, k := c.Header(), d.Header();
    assert h == FrameOf(c)[1..][..|h|];
    assert k == FrameOf(d)[1..][..|k|];
    assert h == k;
    assert h[0] == k[0] && h[1] == k[1] && h[2] == k[2];
    assert c.data == h[3..] && d.data == k[3..];
  }

  /**
    What a packet carries of a command: its length byte, its two command bytes, its data, and a byte that makes the
    xor zero.
   */
  ghost predicate Carries(p: seq<byte>, c: Command) {
    && |p| == |c.data| + 4 && p[0] == c.dataLen && p[1] == c.cmdType && p[2] == c.cmdId
    && p[3..3 + |c.data|] == c.data && XorAll(p) == 0
  }

  lemma FrameCarries(c: Command)
    requires c.Valid()
    ensures FrameOf(c)[0] == 0xFE && Carries(FrameOf(c)[1..], c)
  {
    FrameIsSound(c);
    var p := FrameOf(c)[1..];
    assert p[..3] == [c.dataLen, c.cmdType, c.cmdId];
    assert p[0] == p[..3][0] && p[1] == p[..3][1] && p[2] == p[..3][2];
  }

  // ------------------------------------------------------------- frame builder

  /** CmdFCSCal. */
  method CmdFCSCal(buf: array<byte>, start: nat, dataLen: nat) returns (fcs: byte)
    requires start + dataLen <= buf.Length
    ensures fcs == XorAll(buf[start..start + dataLen])
  {
    fcs := 0;
    var i := 0;
    while i < dataLen
      invariant 0 <= i <= dataLen
      invariant fcs == XorAll(buf[start..start + i])
    {
      assert buf[start..start + i + 1][..i] == buf[start..start + i];
      fcs := fcs ^ buf[start + i];
      i := i + 1;
    }
  }

  // How many bytes the checksum covers: `dataLen + 3` passed as an unsigned 8-bit number.
  function FcsLength(dataLen: nat): nat {
    (dataLen + 3) % 256
  }

  // What the checksum does not cover: nothing up to a data length of 252.
  function Uncovered(sent: seq<byte>, dataLen: nat): seq<byte>
    requires |sent| == dataLen + 5 && dataLen < 256
  {
    sent[1 + FcsLength(dataLen)..dataLen + 4]
  }

  // The last byte is the checksum of the bytes covered.
  ghost predicate HasFcs(sent: seq<byte>, dataLen: nat) {
    |sent| == dataLen + 5 && dataLen < 256 && sent[dataLen + 4] == XorAll(sent[1..1 + FcsLength(dataLen)])
  }

  /**
    MTBuildAndSendCmd: the bytes handed to SerialSend, always a frame.  The receiver's check passes
    exactly if the bytes that the checksum does not cover cancel out.
   */
  method MTBuildAndSendCmd(cmdType: byte, cmdId: byte, dataLen: byte, pData: array?<byte>) returns (sent: seq<byte>)
    requires pData != null ==> dataLen as int <= pData.Length
    ensures IsFrame(sent) && sent[..4] == [SOF, dataLen, cmdType, cmdId]
    ensures HasFcs(sent, dataLen as int) && sent[0] == 0xFE
    ensures pData != null ==> sent[4..dataLen as int + 4] == pData[..dataLen as int]
    ensures pData != null && dataLen as int <= 252 ==>
      sent == FrameOf(Command(cmdType, cmdId, dataLen, pData[..dataLen as int]))
    ensures Sound(sent) <==> XorAll(Uncovered(sent, dataLen as int)) == 0
    ensures dataLen as int <= 252 ==> Sound(sent)
  {
    var n := dataLen as int;
    ByteValue(dataLen);
    var cmd := new byte[n + 5];
    WriteBody(cmd, cmdType, cmdId, dataLen, pData);
    BodyShape(cmd[..], n);
    ghost var body := cmd[..][1..n + 4];
    assert body == cmd[1..n + 4];
    sent := WriteFcs(cmd, n);
    DataPlace(sent, body, n);
    SentFacts(sent, body, dataLen, cmdType, cmdId);
    if pData != null && n <= 252 {
      SentIsFrameOf(sent, Command(cmdType, cmdId, dataLen, pData[..n]));
    }
  }

  // The stores between the allocation and the checksum.
  method WriteBody(cmd: array<byte>, cmdType: byte, cmdId: byte, dataLen: byte, pData: array?<byte>)
    requires cmd.Length == dataLen as int + 5 && cmd != pData
    requires pData != null ==> dataLen as int <= pData.Length
    modifies cmd
    ensures cmd[0] == SOF && cmd[1] == dataLen && cmd[2] == cmdType && cmd[3] == cmdId
    ensures pData != null ==> cmd[4..dataLen as int + 4] == pData[..dataLen as int]
  {
    var n := dataLen as int;
    cmd[0] := SOF;
    cmd[1] := dataLen;
    cmd[2] := cmdType;
    cmd[3] := cmdId;
    ghost var header := cmd[..4];
    if pData != null {
      CopyData(cmd, n, pData);
      assert cmd[..4] == header;
    }
  }

  // memcpy of the data behind the header.
  method CopyData(cmd: array<byte>, n: nat, pData: array<byte>)
    requires cmd.Length == n + 5 && cmd != pData && n <= pData.Length
    modifies cmd
    ensures cmd[..4] == old(cmd[..4])
    ensures cmd[4..n + 4] == pData[..n]
  {
    forall i | 0 <= i < n {
      cmd[4 + i] := pData[i];
    }
  }

  lemma BodyShape(s: seq<byte>, n: nat)
    requires |s| == n + 5
    ensures s[1..n + 4] == [s[1], s[2], s[3]] + s[4..n + 4]
    ensures s[1..n + 4][..3] == [s[1], s[2], s[3]]
  {}

  // The checksum store, and the bytes then passed to SerialSend.
  method WriteFcs(cmd: array<byte>, n: nat) returns (sent: seq<byte>)
    requires cmd.Length == n + 5 && n < 256 && cmd[0] == SOF
    modifies cmd
    ensures sent == Sealed(old(cmd[1..n + 4]), n)
  {
    ghost var body, covered := cmd[1..n + 4], cmd[1..1 + FcsLength(n)];
    var fcs := CmdFCSCal(cmd, 1, FcsLength(n));
    FrontSlice(cmd[..], 1, FcsLength(n), n + 4);
    cmd[n + 4] := fcs;
    sent := cmd[..];
    SealedIs(sent, body, n, covered);
  }

  lemma FrontSlice(s: seq<byte>, a: nat, m: nat, b: nat)
    requires a + m <= b <= |s|
    ensures s[a..b][..m] == s[a..a + m]
  {}

  lemma SealedIs(sent: seq<byte>, body: seq<byte>, n: nat, covered: seq<byte>)
    requires |sent| == n + 5 && n < 256 && sent[0] == SOF && sent[1..n + 4] == body
    requires covered == body[..FcsLength(n)] && sent[n + 4] == XorAll(covered)
    ensures sent == Sealed(body, n)
  {
    assert sent == [sent[0]] + sent[1..n + 4] + [sent[n + 4]];
  }

  ghost function Sealed(body: seq<byte>, n: nat): seq<byte>
    requires |body| == n + 3 && n < 256
  {
    [SOF] + body + [XorAll(body[..FcsLength(n)])]
  }

  lemma SentIsFrameOf(sent: seq<byte>, c: Command)
    requires |c.data| == c.dataLen as int <= 252
    requires sent == Sealed(c.Header(), |c.data|)
    ensures sent == FrameOf(c)
  {
    assert c.Header()[..FcsLength(|c.data|)] == c.Header();
  }

  lemma DataPlace(sent: seq<byte>, body: seq<byte>, n: nat)
    requires |body| == n + 3 && n < 256 && sent == Sealed(body, n)
    ensures sent[4..n + 4] == body[3..]
  {}

  lemma SentLayout(sent: seq<byte>, body: seq<byte>, n: nat)
    requires |body| == n + 3 && n < 256 && sent == Sealed(body, n)
    ensures |sent| == n + 5
    ensures sent[..4] == [SOF] + body[..3]
    ensures sent[n + 4] == XorAll(sent[1..1 + FcsLength(n)])
  {
    assert sent[1..1 + FcsLength(n)] == body[..FcsLength(n)];
  }

  lemma XorTwice(a: byte, b: byte)
    ensures (a ^ b) ^ a == b
  {}

  lemma SentSound(sent: seq<byte>, body: seq<byte>, n: nat)
    requires |body| == n + 3 && n < 256 && sent == Sealed(body, n)
    ensures Sound(sent) <==> XorAll(Uncovered(sent, n)) == 0
    ensures n <= 252 ==> Sound(sent)
  {
    var covered, rest := body[..FcsLength(n)], body[FcsLength(n)..];
    var fcs := XorAll(covered);
    SealedPieces(sent, body, n);
    XorAppend(covered, rest);
    XorAppend(body, [fcs]);
    XorOne(fcs);
    XorTwice(fcs, XorAll(rest));
  }

  lemma SealedPieces(sent: seq<byte>, body: seq<byte>, n: nat)
    requires |body| == n + 3 && n < 256 && sent == Sealed(body, n)
    ensures body == body[..FcsLength(n)] + body[FcsLength(n)..]
    ensures sent[1..] == body + [XorAll(body[..FcsLength(n)])]
    ensures Uncovered(sent, n) == body[FcsLength(n)..]
  {
    Middle(SOF, body, XorAll(body[..FcsLength(n)]), FcsLength(n));
  }

  lemma Middle(a: byte, body: seq<byte>, z: byte, k: nat)
    requires k <= |body|
    ensures ([a] + body + [z])[1..] == body + [z]
    ensures ([a] + body + [z])[1 + k..1 + |body|] == body[k..]
    ensures body[..k] + body[k..] == body
  {}

  lemma SentFacts(sent: seq<byte>, body: seq<byte>, dataLen: byte, cmdType: byte, cmdId: byte)
    requires |body| == dataLen as int + 3 && body[..3] == [dataLen, cmdType, cmdId]
    requires dataLen as int < 256 && sent == Sealed(body, dataLen as int)
    ensures IsFrame(sent) && sent[..4] == [SOF, dataLen, cmdType, cmdId]
    ensures HasFcs(sent, dataLen as int)
    ensures Sound(sent) <==> XorAll(Uncovered(sent, dataLen as int)) == 0
    ensures dataLen as int <= 252 ==> Sound(sent)
  {
    SentLayout(sent, body, dataLen as int);
    SentSound(sent, body, dataLen as int);
    SentHead(sent, body, dataLen);
  }

  lemma SentHead(sent: seq<byte>, body: seq<byte>, dataLen: byte)
    requires |body| >= 3 && |sent| >= 4 && sent[..4] == [SOF] + body[..3] && body[..3][0] == dataLen
    ensures sent[0] == SOF && sent[1] == dataLen
  {
    assert sent[..4][0] == SOF && sent[..4][1] == dataLen;
  }
}
