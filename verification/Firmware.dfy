/**
  The CRC of the firmware image as serial_bootload.cpp computes it: sixteen-bit registers, bytes, the skipped field.
 */
module Firmware {
  import opened Wire
  import opened Gf2
  import opened Options
  import Crc

  // ------------------------------------------------------------- the register

  function Msb(crc: bv16): nat {
    if crc & 0x8000 != 0 then 1 else 0
  }

  // The shift that takes in a bit.
  function TakenIn(crc: bv16, bit: bool): bv16 {
    if bit then (crc << 1) | 0x0001 else crc << 1
  }

  // The subtraction of the generator, if a one was shifted out.
  function Reduced(shifted: bv16, msb: nat): bv16 {
    if msb != 0 then shifted ^ 0x1021 else shifted
  }

  // One round of the loop of runPoly, for the bit that enters.
  function Step(crc: bv16, bit: bool): bv16 {
    Reduced(TakenIn(crc, bit), Msb(crc))
  }

  predicate Low(c: bv16, e: nat) {
    if e < 4 then
      (if e == 0 then c & 0x0001 != 0 else if e == 1 then c & 0x0002 != 0 else if e == 2 then c & 0x0004 != 0
          else c & 0x0008 != 0)
    else
      (if e == 4 then c & 0x0010 != 0 else if e == 5 then c & 0x0020 != 0 else if e == 6 then c & 0x0040 != 0
          else c & 0x0080 != 0)
  }

  predicate High(c: bv16, e: nat) {
    if e < 12 then
      (if e == 8 then c & 0x0100 != 0 else if e == 9 then c & 0x0200 != 0 else if e == 10 then c & 0x0400 != 0
          else c & 0x0800 != 0)
    else
      (if e == 12 then c & 0x1000 != 0 else if e == 13 then c & 0x2000 != 0 else if e == 14 then c & 0x4000 != 0
          else c & 0x8000 != 0)
  }

  // Bit e of a register, bit 0 the lowest.
  predicate Bit(c: bv16, e: nat) {
    if e < 8 then Low(c, e) else High(c, e)
  }

  /** The polynomial a register stands for. */
  function RegPoly(c: bv16): Poly {
    set e: nat | e < 16 && Bit(c, e)
  }

  ghost predicate LowMoved(c: bv16, s: bv16, bit: bool) {
    var msb := c & 0x8000 != 0;
    && (s & 0x0001 != 0 <==> bit != msb)
    && (s & 0x0002 != 0 <==> c & 0x0001 != 0) && (s & 0x0004 != 0 <==> c & 0x0002 != 0)
    && (s & 0x0008 != 0 <==> c & 0x0004 != 0) && (s & 0x0010 != 0 <==> c & 0x0008 != 0)
    && (s & 0x0020 != 0 <==> (c & 0x0010 != 0) != msb)
    && (s & 0x0040 != 0 <==> c & 0x0020 != 0) && (s & 0x0080 != 0 <==> c & 0x0040 != 0)
  }

  ghost predicate HighMoved(c: bv16, s: bv16) {
    var msb := c & 0x8000 != 0;
    && (s & 0x0100 != 0 <==> c & 0x0080 != 0) && (s & 0x0200 != 0 <==> c & 0x0100 != 0)
    && (s & 0x0400 != 0 <==> c & 0x0200 != 0) && (s & 0x0800 != 0 <==> c & 0x0400 != 0)
    && (s & 0x1000 != 0 <==> (c & 0x0800 != 0) != msb)
    && (s & 0x2000 != 0 <==> c & 0x1000 != 0) && (s & 0x4000 != 0 <==> c & 0x2000 != 0)
    && (s & 0x8000 != 0 <==> c & 0x4000 != 0)
  }

  lemma StepMovesLow(c: bv16, bit: bool)
    ensures LowMoved(c, Step(c, bit), bit)
  {}

  lemma StepMovesHigh(c: bv16, bit: bool)
    ensures HighMoved(c, Step(c, bit))
  {}

  lemma LowBit(c: bv16, s: bv16, bit: bool, e: nat)
    requires LowMoved(c, s, bit) && e < 8
    ensures Low(s, e) <==> ((if e == 0 then bit else Low(c, e - 1)) != (High(c, 15) && (e == 5 || e == 0)))
  {}

  lemma HighBit(c: bv16, s: bv16, e: nat)
    requires HighMoved(c, s) && 8 <= e < 16
    ensures High(s, e) <==> ((if e == 8 then Low(c, 7) else High(c, e - 1)) != (High(c, 15) && e == 12))
  {}

  lemma NextBit(c: bv16, s: bv16, bit: bool, e: nat)
    requires LowMoved(c, s, bit) && HighMoved(c, s) && e < 16
    ensures e in RegPoly(s) <==> e in Crc.Next(RegPoly(c), bit)
  {
    Crc.InNext(RegPoly(c), bit, e);
    if e < 8 { LowBit(c, s, bit, e); } else { HighBit(c, s, e); }
  }

  /** A round of the source's register is a step of the polynomial register. */
  lemma StepIsNext(c: bv16, s: bv16, bit: bool)
    requires s == Step(c, bit)
    ensures RegPoly(s) == Crc.Next(RegPoly(c), bit)
  {
    StepMovesLow(c, bit);
    StepMovesHigh(c, bit);
    Crc.NextDegree(RegPoly(c), bit);
    forall e: nat ensures e in RegPoly(s) <==> e in Crc.Next(RegPoly(c), bit) {
      if e < 16 { NextBit(c, s, bit, e); }
    }
  }

  // ------------------------------------------------------------------- bytes

  predicate UpperBit(val: byte, j: nat) {
    if j == 0 then val & 0x80 != 0 else if j == 1 then val & 0x40 != 0 else if j == 2 then val & 0x20 != 0
        else val & 0x10 != 0
  }

  predicate LowerBit(val: byte, j: nat) {
    if j == 4 then val & 0x08 != 0 else if j == 5 then val & 0x04 != 0 else if j == 6 then val & 0x02 != 0
        else val & 0x01 != 0
  }

  // The bits of a byte, the highest first.
  predicate ByteBit(val: byte, j: nat) {
    if j < 4 then UpperBit(val, j) else LowerBit(val, j)
  }

  function Shifted(val: byte, n: nat): byte {
    if n == 0 then val else Shifted(val, n - 1) << 1
  }

  lemma ShiftOne(v: byte, w: byte, j: nat)
    requires w == v << 1 && j < 7
    ensures ByteBit(w, j) <==> ByteBit(v, j + 1)
  {
    assert && (w & 0x80 != 0 <==> v & 0x40 != 0) && (w & 0x40 != 0 <==> v & 0x20 != 0)
           && (w & 0x20 != 0 <==> v & 0x10 != 0) && (w & 0x10 != 0 <==> v & 0x08 != 0)
           && (w & 0x08 != 0 <==> v & 0x04 != 0) && (w & 0x04 != 0 <==> v & 0x02 != 0)
           && (w & 0x02 != 0 <==> v & 0x01 != 0);
  }

  lemma {:induction false} ShiftedBit(val: byte, n: nat, j: nat)
    requires n + j < 8
    ensures ByteBit(Shifted(val, n), j) <==> ByteBit(val, n + j)
  {
    if n > 0 {
      ShiftedBit(val, n - 1, j + 1);
      ShiftOne(Shifted(val, n - 1), Shifted(val, n), j);
    }
  }

  lemma TopBit(val: byte, n: nat)
    requires n < 8
    ensures Shifted(val, n) & 0x80 != 0 <==> ByteBit(val, n)
  {
    ShiftedBit(val, n, 0);
  }

  const BYTE_BITS: nat := 8

  // The register after the first `n` bits of a byte.
  function Steps(crc: bv16, val: byte, n: nat): bv16 {
    if n == 0 then crc else Step(Steps(crc, val, n - 1), ByteBit(val, n - 1))
  }

  lemma StepsNext(crc: bv16, val: byte, n: nat, c: bv16)
    requires n < 8 && c == Steps(crc, val, n)
    ensures Steps(crc, val, n + 1) == Step(c, Shifted(val, n) & 0x80 != 0)
  {
    TopBit(val, n);
  }

  /** The eight-step loop. */
  method RunPoly(crc: bv16, val: byte) returns (r: bv16)
    ensures r == Steps(crc, val, BYTE_BITS)
  {
    r := crc;
    var v := val;
    var cnt := 0;
    while cnt < 8
      invariant 0 <= cnt <= 8
      invariant v == Shifted(val, cnt)
      invariant r == Steps(crc, val, cnt)
    {
      StepsNext(crc, val, cnt, r);
      r := Round(r, v);
      v := v << 1;
      cnt := cnt + 1;
    }
  }

  method Round(crc: bv16, v: byte) returns (r: bv16)
    ensures r == Step(crc, v & 0x80 != 0)
  {
    var msb := Msb(crc);
    r := Feed(crc, v);
    r := Reduce(r, msb);
  }

  method Feed(crc: bv16, v: byte) returns (r: bv16)
    ensures r == TakenIn(crc, v & 0x80 != 0)
  {
    r := crc << 1;
    if v & 0x80 != 0 { r := r | 0x0001; }
  }

  method Reduce(shifted: bv16, msb: nat) returns (r: bv16)
    ensures r == Reduced(shifted, msb)
  {
    r := shifted;
    if msb != 0 { r := r ^ 0x1021; }
  }

  /** The register after the first `k` bytes of a string. */
  function CrcBytes(m: seq<byte>, k: nat): bv16
    requires k <= |m|
  {
    if k == 0 then 0 else Steps(CrcBytes(m, k - 1), m[k - 1], BYTE_BITS)
  }

  function Bits(m: seq<byte>): (b: seq<bool>)
    ensures |b| == 8 * |m|
  {
    seq(8 * |m|, i requires 0 <= i < 8 * |m| => ByteBit(m[i / 8], i % 8))
  }

  ghost predicate HasByte(bits: seq<bool>, a: nat, val: byte) {
    a + 8 <= |bits| && forall j: nat :: j < 8 ==> (ByteBit(val, j) <==> bits[a + j])
  }

  lemma BitsOfByte(m: seq<byte>, k: nat)
    requires k < |m|
    ensures HasByte(Bits(m), 8 * k, m[k])
  {
    forall j: nat | j < 8 ensures ByteBit(m[k], j) <==> Bits(m)[8 * k + j] {
      assert (8 * k + j) / 8 == k && (8 * k + j) % 8 == j;
    }
  }

  lemma StepRegister(bits: seq<bool>, n: nat, c: bv16, r: bv16)
    requires n < |bits| && RegPoly(c) == Crc.Register(bits, n) && r == Step(c, bits[n])
    ensures RegPoly(r) == Crc.Register(bits, n + 1)
  {
    StepIsNext(c, r, bits[n]);
  }

  lemma {:induction false} StepsRegister(bits: seq<bool>, a: nat, val: byte, j: nat, c: bv16, r: bv16)
    requires HasByte(bits, a, val) && RegPoly(c) == Crc.Register(bits, a)
    requires j <= 8 && r == Steps(c, val, j)
    ensures RegPoly(r) == Crc.Register(bits, a + j)
  {
    if j > 0 {
      var before := Steps(c, val, j - 1);
      StepsRegister(bits, a, val, j - 1, c, before);
      StepRegister(bits, a + j - 1, before, r);
    }
  }

  lemma ZeroRegister()
    ensures RegPoly(0) == {}
  {
    forall e: nat ensures e !in RegPoly(0) {
      ZeroBit(e);
    }
  }

  lemma ZeroBit(e: nat)
    ensures !Bit(0, e)
  {}

  lemma {:induction false} BytesRegister(m: seq<byte>, bits: seq<bool>, k: nat, r: bv16)
    requires k <= |m| && r == CrcBytes(m, k)
    requires forall i: nat :: i < |m| ==> HasByte(bits, 8 * i, m[i])
    requires |bits| == 8 * |m|
    ensures RegPoly(r) == Crc.Register(bits, 8 * k)
  {
    if k == 0 {
      ZeroRegister();
    } else {
      var before, a := CrcBytes(m, k - 1), 8 * (k - 1);
      BytesRegister(m, bits, k - 1, before);
      StepsRegister(bits, a, m[k - 1], BYTE_BITS, before, r);
    }
  }

  /** The source's register holds the polynomial register of the bits fed to it. */
  lemma CrcIsRegister(m: seq<byte>, k: nat, r: bv16)
    requires k <= |m| && r == CrcBytes(m, k)
    ensures RegPoly(r) == Crc.Register(Bits(m), 8 * k)
  {
    forall i: nat | i < |m| ensures HasByte(Bits(m), 8 * i, m[i]) {
      BitsOfByte(m, i);
    }
    BytesRegister(m, Bits(m), k, r);
  }

  // ------------------------------------------------------------------- images

  const IMG_SIZE: nat := 0x40000 - 0x2000 - 0x3000 - 0x0800
  // Where the stored CRC lies in an image.
  const CRC_AT: nat := 0x2090 - 0x2000

  /** The bytes of an image that the CRC covers: all but the four that begin where the CRC is stored. */
  function Covered(img: seq<byte>): (m: seq<byte>)
    requires |img| == IMG_SIZE
    ensures |m| == IMG_SIZE - 4
  {
    seq(IMG_SIZE - 4, i requires 0 <= i < IMG_SIZE - 4 => img[if i < CRC_AT then i else i + 4])
  }

  /** What the register is fed: a message and sixteen zero bits. */
  function Padded(m: seq<byte>): (p: seq<byte>)
    ensures |p| == |m| + 2
  {
    seq(|m| + 2, i requires 0 <= i < |m| + 2 => if i < |m| then m[i] else 0)
  }

  function Checksum(m: seq<byte>): bv16 {
    CrcBytes(Padded(m), |m| + 2)
  }

  /** The checksum is the remainder of M(x) * x^16 divided by the generator, and nothing else is. */
  lemma ChecksumIsRemainder(m: seq<byte>, r: Poly)
    ensures IsRemainder(Shift(Value(Bits(m), 8 * |m|), 16), r) <==> r == RegPoly(Checksum(m))
  {
    var p := Padded(m);
    var dividend := Shift(Value(Bits(m), 8 * |m|), 16);
    PaddedBits(m);
    ValuePadded(Bits(m), Bits(p), 16);
    Crc.RegisterIsRemainder(Bits(p), 8 * |p|);
    CrcIsRegister(p, |p|, Checksum(m));
    if IsRemainder(dividend, r) {
      RemainderUnique(dividend, r, RegPoly(Checksum(m)));
    }
  }

  lemma PaddedBits(m: seq<byte>)
    ensures forall i :: 0 <= i < 8 * |m| + 16 ==> Bits(Padded(m))[i] == (i < 8 * |m| && Bits(m)[i])
  {
    forall i | 0 <= i < 8 * |m| + 16 ensures Bits(Padded(m))[i] == (i < 8 * |m| && Bits(m)[i]) {
      ZeroByte(i % 8);
    }
  }

  lemma ZeroByte(j: nat)
    ensures !ByteBit(0, j)
  {}

  /** calcCRC. */
  method CalcCRC(firmwareBuffer: array<byte>) returns (crc: bv16)
    requires firmwareBuffer.Length == IMG_SIZE
    ensures crc == Checksum(Covered(firmwareBuffer[..]))
  {
    ghost var m := Covered(firmwareBuffer[..]);
    crc := 0;
    var addr := 0;
    while addr < IMG_SIZE
      invariant addr <= CRC_AT || CRC_AT + 4 <= addr <= IMG_SIZE
      invariant crc == CrcBytes(Padded(m), if addr <= CRC_AT then addr else addr - 4)
    {
      if addr == CRC_AT {
        addr := addr + 3;
      } else {
        crc := RunPoly(crc, firmwareBuffer[addr]);
      }
      addr := addr + 1;
    }
    crc := RunPoly(crc, 0);
    assert crc == CrcBytes(Padded(m), |m| + 1);
    crc := RunPoly(crc, 0);
  }

  // ---------------------------------------------------------- error detection

  lemma ByteBitsDiffer(v: byte, w: byte) returns (j: nat)
    requires v != w
    ensures j < 8 && ByteBit(v, j) != ByteBit(w, j)
  {
    if (v & 0x80 != 0) != (w & 0x80 != 0) { return 0; }
    if (v & 0x40 != 0) != (w & 0x40 != 0) { return 1; }
    if (v & 0x20 != 0) != (w & 0x20 != 0) { return 2; }
    if (v & 0x10 != 0) != (w & 0x10 != 0) { return 3; }
    if (v & 0x08 != 0) != (w & 0x08 != 0) { return 4; }
    if (v & 0x04 != 0) != (w & 0x04 != 0) { return 5; }
    if (v & 0x02 != 0) != (w & 0x02 != 0) { return 6; }
    return 7;
  }

  // The bits the register is fed for a message.
  function Fed(m: seq<byte>): (b: seq<bool>)
    ensures |b| == 8 * |m| + 16
  {
    Bits(Padded(m))
  }

  lemma ChecksumIsRegister(m: seq<byte>, crc: bv16, n: nat)
    requires crc == Checksum(m) && n == |Fed(m)|
    ensures RegPoly(crc) == Crc.Register(Fed(m), n)
  {
    CrcIsRegister(Padded(m), |m| + 2, crc);
  }

  lemma ChecksumsDiffer(x: seq<byte>, y: seq<byte>, n: nat)
    requires n == |Fed(x)| == |Fed(y)| && Crc.Register(Fed(x), n) != Crc.Register(Fed(y), n)
    ensures Checksum(x) != Checksum(y)
  {
    ChecksumIsRegister(x, Checksum(x), n);
    ChecksumIsRegister(y, Checksum(y), n);
  }

  // u is the exclusive or of v and w, mask by mask.
  ghost predicate MasksXor(u: byte, v: byte, w: byte) {
    && ((u & 0x80 != 0) <==> (v & 0x80 != 0) != (w & 0x80 != 0))
        && ((u & 0x40 != 0) <==> (v & 0x40 != 0) != (w & 0x40 != 0))
    && ((u & 0x20 != 0) <==> (v & 0x20 != 0) != (w & 0x20 != 0))
        && ((u & 0x10 != 0) <==> (v & 0x10 != 0) != (w & 0x10 != 0))
    && ((u & 0x08 != 0) <==> (v & 0x08 != 0) != (w & 0x08 != 0))
        && ((u & 0x04 != 0) <==> (v & 0x04 != 0) != (w & 0x04 != 0))
    && ((u & 0x02 != 0) <==> (v & 0x02 != 0) != (w & 0x02 != 0))
        && ((u & 0x01 != 0) <==> (v & 0x01 != 0) != (w & 0x01 != 0))
  }

  lemma XorMasks(v: byte, w: byte)
    ensures MasksXor(v ^ w, v, w)
  {}

  lemma UpperXor(u: byte, v: byte, w: byte, j: nat)
    requires MasksXor(u, v, w) && j < 4
    ensures UpperBit(u, j) <==> UpperBit(v, j) != UpperBit(w, j)
  {}

  lemma LowerXor(u: byte, v: byte, w: byte, j: nat)
    requires MasksXor(u, v, w) && 4 <= j < 8
    ensures LowerBit(u, j) <==> LowerBit(v, j) != LowerBit(w, j)
  {}

  lemma ByteXor(u: byte, v: byte, w: byte, j: nat)
    requires MasksXor(u, v, w) && j < 8
    ensures ByteBit(u, j) <==> ByteBit(v, j) != ByteBit(w, j)
  {
    if j < 4 { UpperXor(u, v, w, j); } else { LowerXor(u, v, w, j); }
  }

  lemma FedXor(x: seq<byte>, y: seq<byte>, z: seq<byte>)
    requires |x| == |y| == |z| && forall i :: 0 <= i < |x| ==> z[i] == x[i] ^ y[i]
    ensures Fed(z) == Crc.Xor(Fed(x), Fed(y))
  {
    forall i | 0 <= i < |Fed(z)| ensures Fed(z)[i] == (Fed(x)[i] != Fed(y)[i]) {
      if i < 8 * |x| {
        XorMasks(x[i / 8], y[i / 8]);
        ByteXor(z[i / 8], x[i / 8], y[i / 8], i % 8);
        FedAt(x, i);
        FedAt(y, i);
        FedAt(z, i);
      } else {
        FedBeyond(x, i);
        FedBeyond(y, i);
        FedBeyond(z, i);
      }
    }
  }

  /** The checksum is linear: that of a bytewise exclusive or is the sum of the checksums. */
  lemma ChecksumLinear(x: seq<byte>, y: seq<byte>, z: seq<byte>)
    requires |x| == |y| == |z| && forall i :: 0 <= i < |x| ==> z[i] == x[i] ^ y[i]
    ensures RegPoly(Checksum(z)) == Add(RegPoly(Checksum(x)), RegPoly(Checksum(y)))
  {
    FedXor(x, y, z);
    Crc.Linear(Fed(x), Fed(y), |Fed(x)|);
    ChecksumIsRegister(x, Checksum(x), |Fed(x)|);
    ChecksumIsRegister(y, Checksum(y), |Fed(y)|);
    ChecksumIsRegister(z, Checksum(z), |Fed(z)|);
  }

  // The messages differ, and only in the bytes k and k + 1.
  ghost predicate DifferAt(x: seq<byte>, y: seq<byte>, k: nat) {
    |x| == |y| && x != y && forall i :: 0 <= i < |x| && i != k && i != k + 1 ==> x[i] == y[i]
  }

  lemma FedAt(m: seq<byte>, i: nat)
    requires i < 8 * |m|
    ensures Fed(m)[i] == ByteBit(m[i / 8], i % 8)
  {}

  lemma FedBeyond(m: seq<byte>, i: nat)
    requires 8 * |m| <= i < 8 * |m| + 16
    ensures !Fed(m)[i]
  {
    ZeroByte(i % 8);
  }

  lemma FedOutside(x: seq<byte>, y: seq<byte>, k: nat, i: nat)
    requires DifferAt(x, y, k) && i < 8 * |x| + 16 && Fed(x)[i] != Fed(y)[i]
    ensures 8 * k <= i < 8 * k + 16
  {
    if i < 8 * |x| {
      FedAt(x, i);
      FedAt(y, i);
    } else {
      FedBeyond(x, i);
      FedBeyond(y, i);
    }
  }

  lemma FedDiffer(x: seq<byte>, y: seq<byte>, k: nat)
    requires DifferAt(x, y, k)
    ensures Fed(x) != Fed(y)
  {
    var i: nat :| i < |x| && x[i] != y[i];
    var j := ByteBitsDiffer(x[i], y[i]);
    assert (8 * i + j) / 8 == i && (8 * i + j) % 8 == j;
    FedAt(x, 8 * i + j);
    FedAt(y, 8 * i + j);
  }

  /** A change of one byte, or of two adjacent bytes, changes the checksum. */
  lemma AdjacentBytesDetected(x: seq<byte>, y: seq<byte>, k: nat)
    requires DifferAt(x, y, k)
    ensures Checksum(x) != Checksum(y)
  {
    FedDiffer(x, y, k);
    forall i | 0 <= i < |Fed(x)| && Fed(x)[i] != Fed(y)[i] ensures 8 * k <= i < 8 * k + 16 {
      FedOutside(x, y, k, i);
    }
    Crc.BurstDetected(Fed(x), Fed(y), 8 * k);
    ChecksumsDiffer(x, y, |Fed(x)|);
  }

  lemma FedFlips(x: seq<byte>, y: seq<byte>)
    requires |x| == |y|
    ensures Crc.Flipped(Fed(x), Fed(y)) == Crc.Flipped(Bits(x), Bits(y))
  {
    PaddedBits(x);
    PaddedBits(y);
  }

  /** An odd number of flipped bits, anywhere in the message, changes the checksum. */
  lemma OddFlipsDetected(x: seq<byte>, y: seq<byte>)
    requires |x| == |y| && |Crc.Flipped(Bits(x), Bits(y))| % 2 == 1
    ensures Checksum(x) != Checksum(y)
  {
    FedFlips(x, y);
    Crc.OddDetected(Fed(x), Fed(y));
    ChecksumsDiffer(x, y, |Fed(x)|);
  }

  // --------------------------------------------------------- what bits and registers are

  // The byte that eight bits stand for, the first with the weight 128.
  function EightBits(b: seq<bool>, at: nat): nat
    requires at + 8 <= |b|
  {
    (if b[at] then 128 else 0) + (if b[at + 1] then 64 else 0) + (if b[at + 2] then 32 else 0) + (if b[at + 3] then 16
        else 0)
    + (if b[at + 4] then 8 else 0) + (if b[at + 5] then 4 else 0) + (if b[at + 6] then 2
        else 0) + (if b[at + 7] then 1 else 0)
  }

  lemma ByteIsBits(v: byte)
    ensures v as int ==
            (if v & 0x80 != 0 then 128 else 0) + (if v & 0x40 != 0 then 64 else 0) + (if v & 0x20 != 0 then 32 else 0)
            + (if v & 0x10 != 0 then 16 else 0) + (if v & 0x08 != 0 then 8 else 0) + (if v & 0x04 != 0 then 4 else 0)
            + (if v & 0x02 != 0 then 2 else 0) + (if v & 0x01 != 0 then 1 else 0)
  {}

  /** The bits of a message are those of its bytes, the highest of each byte first. */
  lemma BitsAreBytes(m: seq<byte>, i: nat)
    requires i < |m|
    ensures EightBits(Bits(m), 8 * i) == m[i] as int
  {
    BitsOfByte(m, i);
    ByteIsBits(m[i]);
    EightOf(m[i], Bits(m), 8 * i);
  }

  lemma EightOf(v: byte, b: seq<bool>, at: nat)
    requires HasByte(b, at, v)
    ensures EightBits(b, at) ==
            (if v & 0x80 != 0 then 128 else 0) + (if v & 0x40 != 0 then 64 else 0) + (if v & 0x20 != 0 then 32 else 0)
            + (if v & 0x10 != 0 then 16 else 0) + (if v & 0x08 != 0 then 8 else 0) + (if v & 0x04 != 0 then 4 else 0)
            + (if v & 0x02 != 0 then 2 else 0) + (if v & 0x01 != 0 then 1 else 0)
  {
    assert ByteBit(v, 0) == b[at] && ByteBit(v, 1) == b[at + 1] && ByteBit(v, 2) == b[at + 2]
        && ByteBit(v, 3) == b[at + 3];
    assert ByteBit(v, 4) == b[at + 4] && ByteBit(v, 5) == b[at + 5] && ByteBit(v, 6) == b[at + 6]
        && ByteBit(v, 7) == b[at + 7];
  }

  // One byte of a message on.
  lemma Fold(p: seq<byte>, k: nat, before: bv16, after: bv16)
    requires k < |p| && CrcBytes(p, k) == before && Steps(before, p[k], BYTE_BITS) == after
    ensures CrcBytes(p, k + 1) == after
  {}

  lemma FirstDigits(p: seq<byte>)
    requires |p| == 11 && p[..4] == [0x31, 0x32, 0x33, 0x34]
    ensures CrcBytes(p, 4) == 0x1381
  {
    hide CrcBytes;
    Nothing(p);
    assert p[0] == p[..4][0] && p[1] == p[..4][1] && p[2] == p[..4][2] && p[3] == p[..4][3];
    assert Steps(0x0000, 0x31, 8) == 0x0031;
    assert Steps(0x0031, 0x32, 8) == 0x3132;
    assert Steps(0x3132, 0x33, 8) == 0x1441;
    assert Steps(0x1441, 0x34, 8) == 0x1381;
    Fold(p, 0, 0x0000, 0x0031);
    Fold(p, 1, 0x0031, 0x3132);
    Fold(p, 2, 0x3132, 0x1441);
    Fold(p, 3, 0x1441, 0x1381);
  }

  lemma Nothing(p: seq<byte>)
    ensures CrcBytes(p, 0) == 0
  {}

  lemma MoreDigits(p: seq<byte>)
    requires |p| == 11 && p[4..8] == [0x35, 0x36, 0x37, 0x38] && CrcBytes(p, 4) == 0x1381
    ensures CrcBytes(p, 8) == 0x17DC
  {
    hide CrcBytes;
    assert p[4] == p[4..8][0] && p[5] == p[4..8][1] && p[6] == p[4..8][2] && p[7] == p[4..8][3];
    assert Steps(0x1381, 0x35, 8) == 0xA367;
    assert Steps(0xA367, 0x36, 8) == 0xE2BF;
    assert Steps(0xE2BF, 0x37, 8) == 0x625B;
    assert Steps(0x625B, 0x38, 8) == 0x17DC;
    Fold(p, 4, 0x1381, 0xA367);
    Fold(p, 5, 0xA367, 0xE2BF);
    Fold(p, 6, 0xE2BF, 0x625B);
    Fold(p, 7, 0x625B, 0x17DC);
  }

  lemma LastDigits(p: seq<byte>)
    requires |p| == 11 && p[8..] == [0x39, 0, 0] && CrcBytes(p, 8) == 0x17DC
    ensures CrcBytes(p, 11) == 0x31C3
  {
    hide CrcBytes;
    assert p[8] == p[8..][0] && p[9] == p[8..][1] && p[10] == p[8..][2];
    assert Steps(0x17DC, 0x39, 8) == 0xBEEF;
    assert Steps(0xBEEF, 0x00, 8) == 0xA915;
    assert Steps(0xA915, 0x00, 8) == 0x31C3;
    Fold(p, 8, 0x17DC, 0xBEEF);
    Fold(p, 9, 0xBEEF, 0xA915);
    Fold(p, 10, 0xA915, 0x31C3);
  }

  /**
    A value that fixes polynomial, start value and order of bits and bytes: the checksum of the nine digits in ASCII.
   */
  lemma KnownChecksum()
    ensures Checksum([0x31, 0x32, 0x33, 0x34, 0x35, 0x36, 0x37, 0x38, 0x39]) == 0x31C3
  {
    hide CrcBytes;
    var m: seq<byte> := [0x31, 0x32, 0x33, 0x34, 0x35, 0x36, 0x37, 0x38, 0x39];
    var p := Padded(m);
    assert p == m + [0, 0];
    assert p[..4] == [0x31, 0x32, 0x33, 0x34] && p[4..8] == [0x35, 0x36, 0x37, 0x38] && p[8..] == [0x39, 0, 0];
    FirstDigits(p);
    MoreDigits(p);
    LastDigits(p);
  }

  // -------------------------------------------------------------- image check

  // The two bytes of the stored CRC, the low byte first.
  function Stored(img: seq<byte>): bv16
    requires |img| == IMG_SIZE
  {
    Word(img[CRC_AT], img[CRC_AT + 1])
  }

  /** An image that carries its own checksum, which is neither of the two values of unprogrammed flash. */
  predicate GoodImage(img: seq<byte>) {
    && |img| == IMG_SIZE
    && Stored(img) == Checksum(Covered(img))
    && Stored(img) != 0x0000 && Stored(img) != 0xFFFF
  }

  lemma CoveredIs(img: seq<byte>)
    requires |img| == 0x3A800
    ensures Covered(img) == img[..0x90] + img[0x94..]
  {}

  // What an image is checked for, in offsets and numbers: a little-endian 16-bit number at 0x90, the checksum of all
  // bytes but the four from there on, and neither 0 nor 0xFFFF.
  predicate CarriesChecksum(img: seq<byte>)
    requires |img| == 0x3A800
  {
    var n := img[0x90] as int + 0x100 * (img[0x91] as int);
    n == Checksum(img[..0x90] + img[0x94..]) as int && n != 0 && n != 0xFFFF
  }

  /** The check reads the field and leaves out the bytes that it is meant to. */
  lemma GoodImageMeans(img: seq<byte>)
    requires |img| == 0x3A800
    ensures GoodImage(img) <==> CarriesChecksum(img)
  {
    hide Checksum, Covered, Word;
    CoveredIs(img);
    WordNumber(img[0x90], img[0x91]);
    Tests(Word(img[0x90], img[0x91]), Checksum(Covered(img)), img[0x90] as int + 0x100 * (img[0x91] as int));
  }

  // The three tests, on numbers.
  lemma Tests(stored: bv16, calculated: bv16, n: int)
    requires n == stored as int
    ensures stored == calculated && stored != 0x0000 && stored != 0xFFFF <==>
        n == calculated as int && n != 0 && n != 0xFFFF
  {
    SameWord(stored, calculated);
    ZeroWord(stored);
    FullWord(stored);
  }

  /** sb_image_check on the contents of the image file, `None` if it cannot be opened. */
  method ImageCheck(file: Option<seq<byte>>) returns (rtnval: int)
    ensures rtnval == 0 || rtnval == -1
    ensures rtnval == 0 <==> file.Some? && |file.value| >= 0x3A800 && CarriesChecksum(file.value[..0x3A800])
    ensures rtnval == 0 <==> file.Some? && |file.value| >= IMG_SIZE && GoodImage(file.value[..IMG_SIZE])
  {
    rtnval := 0;
    var firmwareBuffer := new byte[IMG_SIZE];
    if file.None? {
      return -1;
    }
    var count := ReadImage(file.value, firmwareBuffer);
    if count != IMG_SIZE {
      return -1;
    }
    assert firmwareBuffer[..] == file.value[..IMG_SIZE];
    GoodImageMeans(file.value[..IMG_SIZE]);
    var bad := BadCrc(firmwareBuffer);
    if bad {
      rtnval := -1;
    }
  }

  method BadCrc(firmwareBuffer: array<byte>) returns (bad: bool)
    requires firmwareBuffer.Length == IMG_SIZE
    ensures bad <==> !GoodImage(firmwareBuffer[..])
  {
    var crc := Word(firmwareBuffer[CRC_AT], firmwareBuffer[CRC_AT + 1]);
    if crc == 0xFFFF || crc == 0x0000 {
      return true;
    }
    var calculated := CalcCRC(firmwareBuffer);
    bad := crc != calculated;
  }

  // read: as many bytes as the file and the buffer have.
  method ReadImage(file: seq<byte>, buffer: array<byte>) returns (count: nat)
    modifies buffer
    ensures count == if |file| < buffer.Length then |file| else buffer.Length
    ensures buffer[..count] == file[..count]
  {
    count := if |file| < buffer.Length then |file| else buffer.Length;
    forall i | 0 <= i < count {
      buffer[i] := file[i];
    }
  }

  /** No small damage to the covered bytes of a good image leaves it good. */
  lemma DamageRejected(img: seq<byte>, other: seq<byte>, k: nat)
    requires GoodImage(img) && |other| == IMG_SIZE && Stored(other) == Stored(img)
    requires
      || DifferAt(Covered(img), Covered(other), k)
      || |Crc.Flipped(Bits(Covered(img)), Bits(Covered(other)))| % 2 == 1
    ensures !GoodImage(other)
  {
    if DifferAt(Covered(img), Covered(other), k) {
      AdjacentBytesDetected(Covered(img), Covered(other), k);
    } else {
      OddFlipsDetected(Covered(img), Covered(other));
    }
  }

  /** The stored checksum itself admits one value, and the two bytes behind it admit any. */
  lemma FieldBytes(img: seq<byte>, other: seq<byte>)
    requires GoodImage(img) && |other| == IMG_SIZE
    requires forall i :: 0 <= i < IMG_SIZE && !(CRC_AT <= i < CRC_AT + 4) ==> other[i] == img[i]
    ensures GoodImage(other) <==> other[CRC_AT] == img[CRC_AT] && other[CRC_AT + 1] == img[CRC_AT + 1]
  {
    CoveredSame(img, other);
    WordIsBytes(img[CRC_AT], img[CRC_AT + 1], other[CRC_AT], other[CRC_AT + 1]);
  }

  lemma CoveredSame(img: seq<byte>, other: seq<byte>)
    requires |img| == IMG_SIZE && |other| == IMG_SIZE
    requires forall i :: 0 <= i < IMG_SIZE && !(CRC_AT <= i < CRC_AT + 4) ==> other[i] == img[i]
    ensures Covered(other) == Covered(img)
  {}
}
