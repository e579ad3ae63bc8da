/**
  The parsers of the ZigBee Device Profile responses, against the layouts of sections 2.3.2.3 (node
  descriptor) and 2.3.2.5 (simple descriptor) of the ZigBee Specification, and their archived form.
 */
module Descriptors {
  import opened Wire
  import Hex

  // ------------------------------------------------------------ simple descriptor

  datatype Simple = Simple(endpoint: byte, profileId: bv16, deviceId: bv16, deviceVersion: byte,
                           inClusters: seq<bv16>, outClusters: seq<bv16>)

  // The numbers that begin at offset `at`.
  function Words(m: seq<byte>, at: nat, n: nat): (w: seq<bv16>)
    requires at + 2 * n <= |m|
    ensures |w| == n
  {
    seq(n, i requires 0 <= i < n => Word(m[at + 2 * i], m[at + 2 * i + 1]))
  }

  function WordBytes(w: seq<bv16>): (m: seq<byte>)
    ensures |m| == 2 * |w|
  {
    seq(2 * |w|, i requires 0 <= i < 2 * |w| => if i % 2 == 0 then LowByte(w[i / 2]) else HighByte(w[i / 2]))
  }

  function InCount(m: seq<byte>): (n: nat)
    requires |m| >= 7
    ensures n < 0x100
  {
    ByteValue(m[6]);
    m[6] as int
  }

  function OutCount(m: seq<byte>): (k: nat)
    requires |m| >= 7 && |m| >= 8 + 2 * InCount(m)
    ensures k < 0x100
  {
    ByteValue(m[7 + 2 * InCount(m)]);
    m[7 + 2 * InCount(m)] as int
  }

  // The bytes that the two counts of a message announce.
  function SimpleLength(m: seq<byte>): nat
    requires |m| >= 7 && |m| >= 8 + 2 * InCount(m)
  {
    8 + 2 * InCount(m) + 2 * OutCount(m)
  }

  predicate SimpleFits(m: seq<byte>) {
    |m| >= 7 && |m| >= 8 + 2 * InCount(m) && |m| >= SimpleLength(m)
  }

  function ParseCounts(m: seq<byte>, n: nat, k: nat): Simple
    requires |m| >= 8 + 2 * n + 2 * k
  {
    Simple(m[0], Word(m[1], m[2]), Word(m[3], m[4]), m[5], Words(m, 7, n), Words(m, 8 + 2 * n, k))
  }

  /** The descriptor that a message holds. */
  function ParseSimple(m: seq<byte>): Simple
    requires SimpleFits(m)
  {
    ParseCounts(m, InCount(m), OutCount(m))
  }

  /** The layout of the descriptor. */
  function LayoutSimple(d: Simple): seq<byte>
    requires |d.inClusters| < 0x100 && |d.outClusters| < 0x100
  {
    [d.endpoint, LowByte(d.profileId), HighByte(d.profileId), LowByte(d.deviceId), HighByte(d.deviceId),
     d.deviceVersion]
    + [|d.inClusters| as byte] + WordBytes(d.inClusters) + [|d.outClusters| as byte] + WordBytes(d.outClusters)
  }

  // The numbers w lie at offset `at`.
  ghost predicate HoldsWords(m: seq<byte>, at: nat, w: seq<bv16>) {
    at + 2 * |w| <= |m| && forall i :: at <= i < at + 2 * |w| ==> m[i] == WordBytes(w)[i - at]
  }

  // The first seven bytes of the layout.
  ghost predicate HoldsHead(m: seq<byte>, d: Simple) {
    && |m| >= 7
    && m[0] == d.endpoint && m[1] == LowByte(d.profileId) && m[2] == HighByte(d.profileId)
    && m[3] == LowByte(d.deviceId) && m[4] == HighByte(d.deviceId) && m[5] == d.deviceVersion
    && m[6] as int == |d.inClusters|
  }

  // A count byte.
  ghost predicate HoldsCount(m: seq<byte>, at: nat, n: nat) {
    at < |m| && m[at] as int == n
  }

  // m begins with the layout of d.
  ghost predicate HoldsSimple(m: seq<byte>, d: Simple) {
    var n := 2 * |d.inClusters|;
    && HoldsHead(m, d) && HoldsWords(m, 7, d.inClusters)
    && HoldsCount(m, 7 + n, |d.outClusters|) && HoldsWords(m, 8 + n, d.outClusters)
  }

  // What stands where in a concatenation.
  lemma FirstPiece(a: seq<byte>, k: byte, b: seq<byte>, tail: seq<byte>)
    ensures var m := a + [k] + b + tail; m[..|a|] == a && m[|a|] == k
  {}

  lemma SecondPiece(a: seq<byte>, k: byte, b: seq<byte>, tail: seq<byte>)
    ensures var m := a + [k] + b + tail; forall i :: |a| + 1 <= i < |a| + 1 + |b| ==> m[i] == b[i - |a| - 1]
  {}

  // Everything up to the list of input clusters.
  function LayoutHead(d: Simple): seq<byte>
    requires |d.inClusters| < 0x100
  {
    [d.endpoint, LowByte(d.profileId), HighByte(d.profileId), LowByte(d.deviceId), HighByte(d.deviceId),
     d.deviceVersion]
    + [|d.inClusters| as byte] + WordBytes(d.inClusters)
  }

  lemma HeadHolds(d: Simple)
    requires |d.inClusters| < 0x100
    ensures HoldsHead(LayoutHead(d), d) && HoldsWords(LayoutHead(d), 7, d.inClusters)
    ensures |LayoutHead(d)| == 7 + 2 * |d.inClusters|
  {
    ByteOf(|d.inClusters|);
  }

  lemma ExtendHolds(a: seq<byte>, m: seq<byte>, d: Simple)
    requires HoldsHead(a, d) && HoldsWords(a, 7, d.inClusters) && |a| <= |m| && m[..|a|] == a
    ensures HoldsHead(m, d) && HoldsWords(m, 7, d.inClusters)
  {
    forall i | 0 <= i < |a| ensures m[i] == a[i] {
      assert m[..|a|][i] == a[i];
    }
  }

  lemma PartsHeld(m: seq<byte>, d: Simple)
    requires HoldsCount(m, 7 + 2 * |d.inClusters|, |d.outClusters|)
    requires HoldsHead(m, d) && HoldsWords(m, 7, d.inClusters) && HoldsWords(m, 8 + 2 * |d.inClusters|, d.outClusters)
    ensures HoldsSimple(m, d)
  {}

  lemma PiecesHold(m: seq<byte>, d: Simple, a: seq<byte>, k: byte, b: seq<byte>, tail: seq<byte>)
    requires |d.inClusters| < 0x100 && m == a + [k] + b + tail && a == LayoutHead(d)
    requires k as int == |d.outClusters| && b == WordBytes(d.outClusters)
    ensures HoldsSimple(m, d)
  {
    hide HoldsHead, HoldsSimple;
    HeadHolds(d);
    FirstPiece(a, k, b, tail);
    SecondPiece(a, k, b, tail);
    ExtendHolds(a, m, d);
    PartsHeld(m, d);
  }

  lemma LayoutHolds(d: Simple, tail: seq<byte>)
    requires |d.inClusters| < 0x100 && |d.outClusters| < 0x100
    ensures HoldsSimple(LayoutSimple(d) + tail, d)
  {
    ByteOf(|d.outClusters|);
    var a, k, b := LayoutHead(d), |d.outClusters| as byte, WordBytes(d.outClusters);
    assert LayoutSimple(d) + tail == a + [k] + b + tail;
    PiecesHold(LayoutSimple(d) + tail, d, a, k, b, tail);
  }

  lemma WordsHeld(m: seq<byte>, at: nat, w: seq<bv16>)
    requires HoldsWords(m, at, w)
    ensures Words(m, at, |w|) == w
  {
    forall i | 0 <= i < |w| ensures Words(m, at, |w|)[i] == w[i] {
      WordHeld(m, at, w, i);
    }
  }

  lemma WordHeld(m: seq<byte>, at: nat, w: seq<bv16>, i: nat)
    requires HoldsWords(m, at, w) && i < |w|
    ensures Word(m[at + 2 * i], m[at + 2 * i + 1]) == w[i]
  {
    assert m[at + 2 * i] == WordBytes(w)[2 * i] && m[at + 2 * i + 1] == WordBytes(w)[2 * i + 1];
    WordOfBytes(w[i]);
  }

  lemma HeldCounts(m: seq<byte>, d: Simple, n: nat, k: nat)
    requires HoldsSimple(m, d) && n == |d.inClusters| && k == |d.outClusters|
    ensures ParseCounts(m, n, k) == d
  {
    WordOfBytes(d.profileId);
    WordOfBytes(d.deviceId);
    WordsHeld(m, 7, d.inClusters);
    WordsHeld(m, 8 + 2 * n, d.outClusters);
  }

  lemma HeldParses(m: seq<byte>, d: Simple)
    requires HoldsSimple(m, d)
    ensures SimpleFits(m) && ParseSimple(m) == d
  {
    HeldFits(m, d);
    HeldCounts(m, d, InCount(m), OutCount(m));
  }

  lemma HeldFits(m: seq<byte>, d: Simple)
    requires HoldsSimple(m, d)
    ensures SimpleFits(m) && SimpleLength(m) == 8 + 2 * |d.inClusters| + 2 * |d.outClusters|
    ensures InCount(m) == |d.inClusters| && OutCount(m) == |d.outClusters|
  {}

  /** The parser inverts the layout, for all cluster lists that a count byte can announce, whatever follows. */
  lemma SimpleRoundTrip(d: Simple, tail: seq<byte>)
    requires |d.inClusters| < 0x100 && |d.outClusters| < 0x100
    ensures SimpleFits(LayoutSimple(d) + tail) && ParseSimple(LayoutSimple(d) + tail) == d
  {
    LayoutHolds(d, tail);
    HeldParses(LayoutSimple(d) + tail, d);
  }

  lemma WordsAreHeld(m: seq<byte>, at: nat, n: nat, w: seq<bv16>)
    requires at + 2 * n <= |m| && w == Words(m, at, n)
    ensures HoldsWords(m, at, w) && |w| == n
  {
    forall i | at <= i < at + 2 * n ensures m[i] == WordBytes(w)[i - at] {
      var j := (i - at) / 2;
      BytesOfWord(m[at + 2 * j], m[at + 2 * j + 1]);
    }
  }

  lemma HeadIsHeld(m: seq<byte>, d: Simple)
    requires |m| >= 7 && m[6] as int == |d.inClusters|
    requires d.endpoint == m[0] && d.profileId == Word(m[1], m[2]) && d.deviceId == Word(m[3], m[4])
        && d.deviceVersion == m[5]
    ensures HoldsHead(m, d)
  {
    BytesOfWord(m[1], m[2]);
    BytesOfWord(m[3], m[4]);
  }

  lemma CountsHeld(m: seq<byte>, d: Simple)
    requires |m| >= 8 + 2 * |d.inClusters| + 2 * |d.outClusters|
    requires m[6] as int == |d.inClusters| && m[7 + 2 * |d.inClusters|] as int == |d.outClusters|
    requires d == ParseCounts(m, |d.inClusters|, |d.outClusters|)
    ensures HoldsSimple(m, d)
  {
    hide HoldsHead, HoldsWords, HoldsSimple;
    HeadIsHeld(m, d);
    WordsAreHeld(m, 7, |d.inClusters|, d.inClusters);
    WordsAreHeld(m, 8 + 2 * |d.inClusters|, |d.outClusters|, d.outClusters);
    PartsHeld(m, d);
  }

  lemma ParseHeld(m: seq<byte>)
    requires SimpleFits(m)
    ensures HoldsSimple(m, ParseSimple(m))
  {
    CountsHeld(m, ParseSimple(m));
  }

  lemma SameCount(v: byte, w: byte)
    requires v as int == w as int
    ensures v == w
  {}

  // A position of the layout of d.
  lemma HeldByte(m: seq<byte>, m': seq<byte>, d: Simple, i: nat)
    requires HoldsSimple(m, d) && HoldsSimple(m', d) && i < 8 + 2 * |d.inClusters| + 2 * |d.outClusters|
    ensures i < |m| && i < |m'| && m[i] == m'[i]
  {
    hide HoldsHead, HoldsCount, HoldsWords;
    var n := 2 * |d.inClusters|;
    if i < 7 {
      HeadByte(m, m', d, i);
    } else if i == 7 + n {
      CountByte(m, m', i, |d.outClusters|);
    } else if i < 7 + n {
      WordsByte(m, m', 7, d.inClusters, i);
    } else {
      WordsByte(m, m', 8 + n, d.outClusters, i);
    }
  }

  lemma HeadByte(m: seq<byte>, m': seq<byte>, d: Simple, i: nat)
    requires HoldsHead(m, d) && HoldsHead(m', d) && i < 7
    ensures i < |m| && i < |m'| && m[i] == m'[i]
  {
    SameCount(m[6], m'[6]);
  }

  lemma CountByte(m: seq<byte>, m': seq<byte>, at: nat, n: nat)
    requires HoldsCount(m, at, n) && HoldsCount(m', at, n)
    ensures at < |m| && at < |m'| && m[at] == m'[at]
  {
    SameCount(m[at], m'[at]);
  }

  lemma WordsByte(m: seq<byte>, m': seq<byte>, at: nat, w: seq<bv16>, i: nat)
    requires HoldsWords(m, at, w) && HoldsWords(m', at, w) && at <= i < at + 2 * |w|
    ensures i < |m| && i < |m'| && m[i] == m'[i]
  {
    assert m[i] == WordBytes(w)[i - at];
  }

  lemma HeldPrefix(l: seq<byte>, m: seq<byte>, d: Simple)
    requires HoldsSimple(l, d) && HoldsSimple(m, d) && |l| == 8 + 2 * |d.inClusters| + 2 * |d.outClusters| <= |m|
    ensures l == m[..|l|]
  {
    forall i | 0 <= i < |l| ensures l[i] == m[i] {
      HeldByte(l, m, d, i);
    }
  }

  /** The layout inverts the parser: it gives back the bytes that the counts announce, the only ones read. */
  lemma ParsedLayout(m: seq<byte>)
    requires SimpleFits(m)
    ensures LayoutSimple(ParseSimple(m)) == m[..SimpleLength(m)]
  {
    var d := ParseSimple(m);
    LayoutHolds(d, []);
    assert LayoutSimple(d) + [] == LayoutSimple(d);
    ParseHeld(m);
    HeldPrefix(LayoutSimple(d), m, d);
  }

  // A message that agrees with m as far as m's counts reach.
  lemma SimplePrefix(m: seq<byte>, m': seq<byte>)
    requires SimpleFits(m) && SimpleLength(m) <= |m'| && m[..SimpleLength(m)] == m'[..SimpleLength(m)]
    ensures SimpleFits(m') && ParseSimple(m') == ParseSimple(m)
  {
    var n := SimpleLength(m);
    forall i | 0 <= i < n ensures m'[i] == m[i] {
      assert m[..n][i] == m'[..n][i];
    }
    ParseHeld(m);
    HoldsPrefix(m, m', ParseSimple(m), n);
    HeldParses(m', ParseSimple(m));
  }

  lemma HoldsPrefix(m: seq<byte>, m': seq<byte>, d: Simple, n: nat)
    requires HoldsSimple(m, d) && n == 8 + 2 * |d.inClusters| + 2 * |d.outClusters| <= |m'|
    requires forall i :: 0 <= i < n ==> m'[i] == m[i]
    ensures HoldsSimple(m', d)
  {}

  // ---------------------------------------------- the parser of the simple descriptor

  class SimpleDescriptor {
    var endpointAddr: byte
    var profileId: bv16
    var deviceId: bv16
    var deviceVersion: byte
    var inclusterList: seq<bv16>
    var outclusterList: seq<bv16>

    function Value(): Simple
      reads this
    {
      Simple(endpointAddr, profileId, deviceId, deviceVersion, inclusterList, outclusterList)
    }

    constructor ()
    {
      endpointAddr, profileId, deviceId, deviceVersion := 0, 0, 0, 0;
      inclusterList, outclusterList := [], [];
    }

    /** simple_desc_req_apdu_process, on a message as long as its counts say. */
    method Process(apdu: seq<byte>)
      requires SimpleFits(apdu)
      modifies this
      ensures Value() == ParseSimple(apdu)
    {
      var pasdu := 0;
      endpointAddr := apdu[pasdu];
      pasdu := pasdu + 1;
      profileId := Word(apdu[pasdu], apdu[pasdu + 1]);
      pasdu := pasdu + 2;
      deviceId := Word(apdu[pasdu], apdu[pasdu + 1]);
      pasdu := pasdu + 2;
      deviceVersion := apdu[pasdu];
      pasdu := pasdu + 1;
      inclusterList := Resized(inclusterList, InCount(apdu));
      pasdu := pasdu + 1;
      inclusterList := ReadWords(inclusterList, apdu, pasdu);
      pasdu := pasdu + 2 * |inclusterList|;
      outclusterList := Resized(outclusterList, OutCount(apdu));
      pasdu := pasdu + 1;
      outclusterList := ReadWords(outclusterList, apdu, pasdu);
    }
  }

  // resize: longer lists are cut off, shorter ones filled up with zeros.
  function Resized(list: seq<bv16>, n: nat): (r: seq<bv16>)
    ensures |r| == n
  {
    seq(n, i requires 0 <= i < n => if i < |list| then list[i] else 0)
  }

  // The loop over a cluster list.
  method ReadWords(list: seq<bv16>, apdu: seq<byte>, at: nat) returns (r: seq<bv16>)
    requires at + 2 * |list| <= |apdu|
    ensures r == Words(apdu, at, |list|)
  {
    r := list;
    var pasdu := at;
    for i := 0 to |list|
      invariant |r| == |list| && pasdu == at + 2 * i
      invariant forall k :: 0 <= k < i ==> r[k] == Words(apdu, at, |list|)[k]
    {
      r := r[i := Word(apdu[pasdu], apdu[pasdu + 1])];
      pasdu := pasdu + 2;
    }
  }

  // -------------------------------------------------------------- node descriptor

  datatype Node = Node(logicalType: byte, complexDescAvail: byte, userDescAvail: byte, reserved: byte,
                       apsFlags: byte, frequencyBand: byte, capabilityFlags: byte, manufacturerCode: bv16,
                       maxBufferSize: byte, maxInTransferSize: bv16, serverMask: bv16, maxOutTransferSize: bv16,
                       descriptorCapability: byte)

  const NODE_LENGTH := 13

  // The widths of the bit fields.
  predicate NodeInRange(d: Node) {
    d.logicalType < 8 && d.complexDescAvail < 2 && d.userDescAvail < 2 && d.reserved < 8 && d.apsFlags < 8
        && d.frequencyBand < 32
  }

  // The bit fields that share a byte.
  function FirstByte(t: byte, c: byte, u: byte, r: byte): byte {
    t | (c << 3) | (u << 4) | (r << 5)
  }

  function SecondByte(a: byte, f: byte): byte {
    a | (f << 3)
  }

  function ParseNode(m: seq<byte>): Node
    requires |m| >= NODE_LENGTH
  {
    Node(m[0] & 0x07, (m[0] & 0x08) >> 3, (m[0] & 0x10) >> 4, (m[0] & 0xE0) >> 5, m[1] & 0x07, (m[1] & 0xF8) >> 3,
         m[2], Word(m[3], m[4]), m[5], Word(m[6], m[7]), Word(m[8], m[9]), Word(m[10], m[11]), m[12])
  }

  /** The layout of the descriptor. */
  function LayoutNode(d: Node): (m: seq<byte>)
    ensures |m| == NODE_LENGTH
  {
    [FirstByte(d.logicalType, d.complexDescAvail, d.userDescAvail, d.reserved), SecondByte(d.apsFlags, d.frequencyBand),
     d.capabilityFlags, LowByte(d.manufacturerCode), HighByte(d.manufacturerCode), d.maxBufferSize,
     LowByte(d.maxInTransferSize), HighByte(d.maxInTransferSize), LowByte(d.serverMask), HighByte(d.serverMask),
     LowByte(d.maxOutTransferSize), HighByte(d.maxOutTransferSize), d.descriptorCapability]
  }

  lemma FirstByteFields(t: byte, c: byte, u: byte, r: byte)
    requires t < 8 && c < 2 && u < 2 && r < 8
    ensures var b := FirstByte(t, c, u, r);
      b & 0x07 == t && (b & 0x08) >> 3 == c && (b & 0x10) >> 4 == u && (b & 0xE0) >> 5 == r
  {}

  lemma SecondByteFields(a: byte, f: byte)
    requires a < 8 && f < 32
    ensures var b := SecondByte(a, f); b & 0x07 == a && (b & 0xF8) >> 3 == f
  {}

  lemma FirstByteWhole(b: byte)
    ensures FirstByte(b & 0x07, (b & 0x08) >> 3, (b & 0x10) >> 4, (b & 0xE0) >> 5) == b
    ensures b & 0x07 < 8 && (b & 0x08) >> 3 < 2 && (b & 0x10) >> 4 < 2 && (b & 0xE0) >> 5 < 8
  {}

  lemma SecondByteWhole(b: byte)
    ensures SecondByte(b & 0x07, (b & 0xF8) >> 3) == b
    ensures b & 0x07 < 8 && (b & 0xF8) >> 3 < 32
  {}

  /** The parser inverts the layout, whatever follows. */
  lemma NodeRoundTrip(d: Node, tail: seq<byte>)
    requires NodeInRange(d)
    ensures ParseNode(LayoutNode(d) + tail) == d
  {
    FirstByteFields(d.logicalType, d.complexDescAvail, d.userDescAvail, d.reserved);
    SecondByteFields(d.apsFlags, d.frequencyBand);
    WordOfBytes(d.manufacturerCode);
    WordOfBytes(d.maxInTransferSize);
    WordOfBytes(d.serverMask);
    WordOfBytes(d.maxOutTransferSize);
  }

  /** The layout inverts the parser: no bit of the thirteen bytes is lost, and no other is read. */
  lemma ParsedNodeLayout(m: seq<byte>)
    requires |m| >= NODE_LENGTH
    ensures NodeInRange(ParseNode(m)) && LayoutNode(ParseNode(m)) == m[..NODE_LENGTH]
  {
    var d := ParseNode(m);
    FirstByteWhole(m[0]);
    SecondByteWhole(m[1]);
    WordsWhole(m, d);
    LayoutIs(m[..NODE_LENGTH], d);
  }

  lemma WordsWhole(m: seq<byte>, d: Node)
    requires |m| >= NODE_LENGTH && d == ParseNode(m)
    ensures LowByte(d.manufacturerCode) == m[3] && HighByte(d.manufacturerCode) == m[4]
    ensures LowByte(d.maxInTransferSize) == m[6] && HighByte(d.maxInTransferSize) == m[7]
    ensures LowByte(d.serverMask) == m[8] && HighByte(d.serverMask) == m[9]
    ensures LowByte(d.maxOutTransferSize) == m[10] && HighByte(d.maxOutTransferSize) == m[11]
  {
    BytesOfWord(m[3], m[4]);
    BytesOfWord(m[6], m[7]);
    BytesOfWord(m[8], m[9]);
    BytesOfWord(m[10], m[11]);
  }

  lemma LayoutIs(m: seq<byte>, d: Node)
    requires |m| == NODE_LENGTH
    requires m[0] == FirstByte(d.logicalType, d.complexDescAvail, d.userDescAvail, d.reserved)
    requires m[1] == SecondByte(d.apsFlags, d.frequencyBand) && m[2] == d.capabilityFlags
    requires m[3] == LowByte(d.manufacturerCode) && m[4] == HighByte(d.manufacturerCode) && m[5] == d.maxBufferSize
    requires m[6] == LowByte(d.maxInTransferSize) && m[7] == HighByte(d.maxInTransferSize)
    requires m[8] == LowByte(d.serverMask) && m[9] == HighByte(d.serverMask)
    requires m[10] == LowByte(d.maxOutTransferSize) && m[11] == HighByte(d.maxOutTransferSize)
        && m[12] == d.descriptorCapability
    ensures LayoutNode(d) == m
  {}

  class NodeDescriptor {
    var LogicalType: byte
    var ComplexDescAvail: byte
    var UserDescAvail: byte
    var Reserved: byte
    var APSFlags: byte
    var FrequencyBand: byte
    var CapabilityFlags: byte
    var ManufacturerCode: bv16
    var MaxBufferSize: byte
    var MaxInTransferSize: bv16
    var ServerMask: bv16
    var MaxOutTransferSize: bv16
    var DescriptorCapability: byte

    function Value(): Node
      reads this
    {
      Node(LogicalType, ComplexDescAvail, UserDescAvail, Reserved, APSFlags, FrequencyBand, CapabilityFlags,
           ManufacturerCode,
           MaxBufferSize, MaxInTransferSize, ServerMask, MaxOutTransferSize, DescriptorCapability)
    }

    /** node_desc_req_apdu_process: the pointer moves on by its own increments and by what the readers return. */
    method Process(apdu: seq<byte>)
      requires |apdu| >= NODE_LENGTH
      modifies this
      ensures Value() == ParseNode(apdu)
    {
      var pasdu := ProcessFlags(apdu);
      ManufacturerCode := Word(apdu[pasdu], apdu[pasdu + 1]);
      pasdu := pasdu + 2;
      MaxBufferSize := apdu[pasdu];
      pasdu := pasdu + 1;
      MaxInTransferSize := Word(apdu[pasdu], apdu[pasdu + 1]);
      pasdu := pasdu + 2;
      ServerMask := Word(apdu[pasdu], apdu[pasdu + 1]);
      pasdu := pasdu + 2;
      MaxOutTransferSize := Word(apdu[pasdu], apdu[pasdu + 1]);
      pasdu := pasdu + 2;
      DescriptorCapability := apdu[pasdu];
    }

    // The part of it up to the capability flags.
    method ProcessFlags(apdu: seq<byte>) returns (pasdu: nat)
      requires |apdu| >= NODE_LENGTH
      modifies this
      ensures pasdu == 3
      ensures LogicalType == ParseNode(apdu).logicalType && ComplexDescAvail == ParseNode(apdu).complexDescAvail
      ensures UserDescAvail == ParseNode(apdu).userDescAvail && Reserved == ParseNode(apdu).reserved
      ensures APSFlags == ParseNode(apdu).apsFlags && FrequencyBand == ParseNode(apdu).frequencyBand
      ensures CapabilityFlags == ParseNode(apdu).capabilityFlags
    {
      pasdu := 0;
      LogicalType := apdu[pasdu] & 0x07;
      ComplexDescAvail := (apdu[pasdu] & 0x08) >> 3;
      UserDescAvail := (apdu[pasdu] & 0x10) >> 4;
      Reserved := (apdu[pasdu] & 0xE0) >> 5;
      pasdu := pasdu + 1;
      APSFlags := apdu[pasdu] & 0x07;
      FrequencyBand := (apdu[pasdu] & 0xF8) >> 3;
      pasdu := pasdu + 1;
      CapabilityFlags := apdu[pasdu];
      pasdu := pasdu + 1;
    }
  }

  // ------------------------------------------------------------- active endpoints

  predicate EndpointsFit(m: seq<byte>) {
    |m| >= 1 && |m| >= 1 + m[0] as int
  }

  /** The endpoints an active-endpoint response lists: a count and as many bytes. */
  function ParseEndpoints(m: seq<byte>): (ids: seq<byte>)
    requires EndpointsFit(m)
    ensures |ids| == m[0] as int && forall i :: 0 <= i < |ids| ==> ids[i] == m[1 + i]
  {
    m[1..1 + m[0] as int]
  }

  // ---------------------------------------------------------- fields as numbers

  // A 16-bit number at offset `at`, the low byte first.
  predicate NumberAt(m: seq<byte>, at: nat, w: bv16) {
    at + 2 <= |m| && w as int == m[at] as int + 0x100 * (m[at + 1] as int)
  }

  lemma WordAt(m: seq<byte>, at: nat)
    requires at + 2 <= |m|
    ensures NumberAt(m, at, Word(m[at], m[at + 1]))
  {
    WordNumber(m[at], m[at + 1]);
  }

  /** Where the fields of a simple descriptor stand, by offset and number. */
  lemma SimpleFields(m: seq<byte>)
    requires SimpleFits(m)
    ensures var d, n := ParseSimple(m), 2 * |ParseSimple(m).inClusters|;
      && d.endpoint == m[0] && NumberAt(m, 1, d.profileId) && NumberAt(m, 3, d.deviceId) && d.deviceVersion == m[5]
      && m[6] as int == |d.inClusters|
          && (forall i :: 0 <= i < |d.inClusters| ==> NumberAt(m, 7 + 2 * i, d.inClusters[i]))
      && |m| > 7 + n && m[7 + n] as int == |d.outClusters|
      && (forall i :: 0 <= i < |d.outClusters| ==> NumberAt(m, 8 + n + 2 * i, d.outClusters[i]))
  {
    hide Word, NumberAt;
    var d, n := ParseSimple(m), 2 * |ParseSimple(m).inClusters|;
    WordAt(m, 1);
    WordAt(m, 3);
    forall i: nat | i < |d.inClusters| ensures NumberAt(m, 7 + 2 * i, d.inClusters[i]) {
      WordAt(m, 7 + 2 * i);
    }
    forall i: nat | i < |d.outClusters| ensures NumberAt(m, 8 + n + 2 * i, d.outClusters[i]) {
      WordAt(m, 8 + n + 2 * i);
    }
  }

  lemma FlagNumbers(b: byte)
    ensures (b & 0x07) as int == b as int % 8 && ((b & 0x08) >> 3) as int == b as int / 8 % 2
    ensures ((b & 0x10) >> 4) as int == b as int / 16 % 2 && ((b & 0xE0) >> 5) as int == b as int / 32
    ensures ((b & 0xF8) >> 3) as int == b as int / 8
  {}

  /** Where the fields of a node descriptor stand, by offset, bits counted from the low end, and number. */
  lemma NodeFields(m: seq<byte>)
    requires |m| >= NODE_LENGTH
    ensures var d := ParseNode(m);
      && d.logicalType as int == m[0] as int % 8 && d.complexDescAvail as int == m[0] as int / 8 % 2
      && d.userDescAvail as int == m[0] as int / 16 % 2 && d.reserved as int == m[0] as int / 32
      && d.apsFlags as int == m[1] as int % 8 && d.frequencyBand as int == m[1] as int / 8
      && d.capabilityFlags == m[2] && NumberAt(m, 3, d.manufacturerCode) && d.maxBufferSize == m[5]
      && NumberAt(m, 6, d.maxInTransferSize) && NumberAt(m, 8, d.serverMask) && NumberAt(m, 10, d.maxOutTransferSize)
      && d.descriptorCapability == m[12]
  {
    hide Word, NumberAt;
    FlagNumbers(m[0]);
    FlagNumbers(m[1]);
    WordAt(m, 3);
    WordAt(m, 6);
    WordAt(m, 8);
    WordAt(m, 10);
  }

  // ------------------------------------------------------------------- archived

  /**
    A message stored as text and recovered parses as the message itself did: the decoder returns at least the bytes
    that were stored, and the parsers read no further.
   */
  lemma ArchivedSimple(apdu: seq<byte>, stored: nat, beyond: nat -> char)
    requires SimpleFits(apdu) && SimpleLength(apdu) <= stored <= |apdu|
    ensures var v := Hex.Decoded(Hex.Text(apdu[..stored]), beyond);
      SimpleFits(v) && ParseSimple(v) == ParseSimple(apdu)
  {
    var v := Hex.Decoded(Hex.Text(apdu[..stored]), beyond);
    var n := SimpleLength(apdu);
    Hex.DecodeText(apdu[..stored], beyond);
    assert v[..n] == v[..stored][..n] == apdu[..n];
    SimplePrefix(apdu, v);
  }

  lemma ArchivedNode(apdu: seq<byte>, stored: nat, beyond: nat -> char)
    requires NODE_LENGTH <= stored <= |apdu|
    ensures var v := Hex.Decoded(Hex.Text(apdu[..stored]), beyond);
      |v| >= NODE_LENGTH && ParseNode(v) == ParseNode(apdu)
  {
    var v := Hex.Decoded(Hex.Text(apdu[..stored]), beyond);
    Hex.DecodeText(apdu[..stored], beyond);
    forall i | 0 <= i < NODE_LENGTH ensures v[i] == apdu[i] {
      assert v[..stored][i] == apdu[..stored][i];
    }
  }

  lemma ArchivedEndpoints(apdu: seq<byte>, beyond: nat -> char)
    requires EndpointsFit(apdu)
    ensures var v := Hex.Decoded(Hex.Text(apdu[..1 + apdu[0] as int]), beyond);
      EndpointsFit(v) && ParseEndpoints(v) == ParseEndpoints(apdu)
  {
    var stored := 1 + apdu[0] as int;
    var v := Hex.Decoded(Hex.Text(apdu[..stored]), beyond);
    Hex.DecodeText(apdu[..stored], beyond);
    forall i | 0 <= i < stored ensures v[i] == apdu[i] {
      assert v[..stored][i] == apdu[..stored][i];
    }
    assert v[0] == apdu[0];
  }
}
