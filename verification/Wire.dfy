/** A byte of the wire, and what bytes stand for. */
module Wire {

  type byte = bv8

  /** The 16-bit number of two bytes, the low one first. */
  function Word(low: byte, high: byte): bv16 {
    (low as bv16) | ((high as bv16) << 8)
  }

  function LowByte(w: bv16): byte {
    (w & 0x00FF) as byte
  }

  function HighByte(w: bv16): byte {
    (w >> 8) as byte
  }

  lemma WordOfBytes(w: bv16)
    ensures Word(LowByte(w), HighByte(w)) == w
  {}

  lemma BytesOfWord(low: byte, high: byte)
    ensures LowByte(Word(low, high)) == low && HighByte(Word(low, high)) == high
  {}

  lemma WordIsBytes(a: byte, b: byte, c: byte, d: byte)
    ensures Word(a, b) == Word(c, d) <==> a == c && b == d
  {}

  lemma ByteOf(n: int)
    requires 0 <= n < 0x100
    ensures (n as byte) as int == n
  {
    assert n % 256 == n;
  }

  lemma ByteValue(v: byte)
    ensures 0 <= v as int < 0x100
  {}

  /** The low byte counts one, the high byte 256. */
  lemma WordNumber(low: byte, high: byte)
    ensures Word(low, high) as int == low as int + 0x100 * (high as int)
  {
    WordIsNumber(low, high, Word(low, high));
  }

  lemma WordIsNumber(low: byte, high: byte, w: bv16)
    requires w == (low as bv16) | ((high as bv16) << 8)
    ensures w as int == low as int + 0x100 * (high as int)
  {}

  lemma WordBack(v: bv16)
    ensures (v as int) as bv16 == v
  {}

  lemma SameWord(v: bv16, w: bv16)
    ensures v as int == w as int <==> v == w
  {
    WordBack(v);
    WordBack(w);
  }

  lemma ZeroWord(v: bv16)
    ensures v as int == 0 <==> v == 0
  {}

  lemma FullWord(v: bv16)
    ensures v as int == 0xFFFF <==> v == 0xFFFF
  {}

  /** The number of some bytes, the low one first. */
  function Number(a: seq<byte>): nat {
    if a == [] then 0 else a[0] as int + 0x100 * Number(a[1..])
  }
}
