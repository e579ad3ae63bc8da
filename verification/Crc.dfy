/**
  The bit-serial CRC as arithmetic on polynomials over GF(2): what the register holds, and which
  errors it detects. Module Firmware ties the sixteen-bit register of the source to it.
 */
module Crc {
  import opened Gf2

  function Carry(p: Poly): Poly {
    if 15 in p then GENERATOR else {}
  }

  // One step of the register: multiply by x, let the next bit in, subtract the generator if x^16 appears.
  function Next(p: Poly, bit: bool): Poly {
    Add(Add(Shift(p, 1), Unit(bit)), Carry(p))
  }

  /** The register after the first `n` bits. */
  function Register(bits: seq<bool>, n: nat): Poly
    requires n <= |bits|
  {
    if n == 0 then {} else Next(Register(bits, n - 1), bits[n - 1])
  }

  lemma InNext(p: Poly, bit: bool, e: nat)
    ensures e in Next(p, bit) <==> ((if e == 0 then bit else (e - 1) in p) != (15 in p && e in GENERATOR))
  {
    InShift(p, 1, e);
  }

  lemma NextDegree(p: Poly, bit: bool)
    requires DegreeBelow(p, 16)
    ensures DegreeBelow(Next(p, bit), 16)
  {
    forall e <- Next(p, bit) ensures e < 16 {
      InNext(p, bit, e);
    }
  }

  lemma {:induction false} RegisterDegree(bits: seq<bool>, n: nat)
    requires n <= |bits|
    ensures DegreeBelow(Register(bits, n), 16)
  {
    if n > 0 {
      RegisterDegree(bits, n - 1);
      NextDegree(Register(bits, n - 1), bits[n - 1]);
    }
  }

  // ------------------------------------------------------------- division

  lemma TimesGeneratorNone()
    ensures TimesGenerator({}) == {}
  {
    assert Shift({}, 16) == {} && Shift({}, 12) == {} && Shift({}, 5) == {};
  }

  lemma CarryIsMultiple(p: Poly)
    ensures Carry(p) == TimesGenerator(One(15 in p, 0))
  {
    TimesGeneratorOne();
    TimesGeneratorNone();
  }

  lemma Regroup(a: Poly, b: Poly, c: Poly, d: Poly)
    ensures Add(Add(a, b), c) == Add(Add(a, d), Add(Add(b, c), d))
  {}

  lemma DivisionStep(q: Poly, p: Poly, bit: bool)
    ensures Add(Shift(Add(TimesGenerator(q), p), 1), Unit(bit)) ==
            Add(TimesGenerator(Add(Shift(q, 1), One(15 in p, 0))), Next(p, bit))
  {
    ShiftAdd(TimesGenerator(q), p, 1);
    TimesGeneratorShift(q, 1);
    TimesGeneratorAdd(Shift(q, 1), One(15 in p, 0));
    CarryIsMultiple(p);
    Regroup(TimesGenerator(Shift(q, 1)), Shift(p, 1), Unit(bit), Carry(p));
  }

  /** Loop invariant of the CRC: after any bits, the register is their polynomial modulo the generator. */
  lemma {:induction false} RegisterIsRemainder(bits: seq<bool>, n: nat)
    requires n <= |bits|
    ensures IsRemainder(Value(bits, n), Register(bits, n))
  {
    RegisterDegree(bits, n);
    if n == 0 {
      TimesGeneratorNone();
      assert Value(bits, 0) == Add(TimesGenerator({}), {});
    } else {
      RegisterIsRemainder(bits, n - 1);
      var p, bit := Register(bits, n - 1), bits[n - 1];
      var q: Poly :| Value(bits, n - 1) == Add(TimesGenerator(q), p);
      ValueNext(bits, n - 1);
      DivisionStep(q, p, bit);
    }
  }

  // ------------------------------------------------------------- linearity

  lemma CarryAdd(p: Poly, q: Poly)
    ensures Carry(Add(p, q)) == Add(Carry(p), Carry(q))
  {}

  lemma UnitAdd(a: bool, b: bool)
    ensures Unit(a != b) == Add(Unit(a), Unit(b))
  {}

  lemma AddSix(a: Poly, b: Poly, c: Poly, a': Poly, b': Poly, c': Poly)
    ensures Add(Add(Add(a, a'), Add(b, b')), Add(c, c')) == Add(Add(Add(a, b), c), Add(Add(a', b'), c'))
  {}

  lemma NextAdd(p: Poly, q: Poly, a: bool, b: bool)
    ensures Next(Add(p, q), a != b) == Add(Next(p, a), Next(q, b))
  {
    ShiftAdd(p, q, 1);
    CarryAdd(p, q);
    UnitAdd(a, b);
    AddSix(Shift(p, 1), Unit(a), Carry(p), Shift(q, 1), Unit(b), Carry(q));
  }

  /** Bitwise exclusive or. */
  function Xor(x: seq<bool>, y: seq<bool>): (z: seq<bool>)
    requires |x| == |y|
    ensures |z| == |x| && forall i :: 0 <= i < |x| ==> z[i] == (x[i] != y[i])
  {
    seq(|x|, i requires 0 <= i < |x| => x[i] != y[i])
  }

  /** The CRC is linear: the CRC of an exclusive or is the sum of the CRCs. */
  lemma {:induction false} Linear(x: seq<bool>, y: seq<bool>, n: nat)
    requires |x| == |y| && n <= |x|
    ensures Register(Xor(x, y), n) == Add(Register(x, n), Register(y, n))
  {
    if n > 0 {
      Linear(x, y, n - 1);
      NextAdd(Register(x, n - 1), Register(y, n - 1), x[n - 1], y[n - 1]);
    }
  }

  // The CRCs of two strings differ exactly if the CRC of their difference is not zero.
  lemma DifferenceNotZero(x: seq<bool>, y: seq<bool>)
    requires |x| == |y|
    ensures Register(x, |x|) == Register(y, |y|) <==> Register(Xor(x, y), |x|) == {}
  {
    Linear(x, y, |x|);
    AddZero(Register(x, |x|), Register(y, |y|));
  }

  // ------------------------------------------------------- bursts of errors

  lemma NextZero(p: Poly)
    ensures Next(p, false) == {} <==> p == {}
  {
    if p == {} {
      assert Shift(p, 1) == {};
    } else if 15 in p {
      InNext(p, false, 0);
    } else {
      var e :| e in p;
      InNext(p, false, e + 1);
    }
  }

  // Zero bits neither clear the register nor set it.
  lemma {:induction false} ZeroRun(bits: seq<bool>, a: nat, n: nat)
    requires a <= n <= |bits| && forall i :: a <= i < n ==> !bits[i]
    ensures Register(bits, n) == {} <==> Register(bits, a) == {}
    decreases n - a
  {
    if a < n {
      ZeroRun(bits, a, n - 1);
      NextZero(Register(bits, n - 1));
    }
  }

  // A polynomial of degree below 16 is its own remainder.
  lemma SmallIsItself(bits: seq<bool>, n: nat)
    requires n <= |bits| && DegreeBelow(Value(bits, n), 16)
    ensures Register(bits, n) == Value(bits, n)
  {
    var v := Value(bits, n);
    RegisterIsRemainder(bits, n);
    TimesGeneratorNone();
    assert v == Add(TimesGenerator({}), v);
    RemainderUnique(v, v, Register(bits, n));
  }

  // Set bits that all lie within 16 consecutive positions leave a CRC other than zero.
  lemma BurstNotZero(bits: seq<bool>, a: nat, i: nat)
    requires a <= i < |bits| && i < a + 16 && bits[i]
    requires forall k :: 0 <= k < |bits| && bits[k] ==> a <= k < a + 16
    ensures Register(bits, |bits|) != {}
  {
    var n := if a + 16 <= |bits| then a + 16 else |bits|;
    forall e <- Value(bits, n) ensures e < 16 {
      InValue(bits, n, e);
    }
    InValue(bits, n, n - 1 - i);
    SmallIsItself(bits, n);
    ZeroRun(bits, n, |bits|);
  }

  /** Two strings of equal length that differ, and only within 16 consecutive bits, have different CRCs. */
  lemma BurstDetected(x: seq<bool>, y: seq<bool>, a: nat)
    requires |x| == |y| && x != y
    requires forall k :: 0 <= k < |x| && x[k] != y[k] ==> a <= k < a + 16
    ensures Register(x, |x|) != Register(y, |y|)
  {
    var i :| 0 <= i < |x| && x[i] != y[i];
    BurstNotZero(Xor(x, y), a, i);
    DifferenceNotZero(x, y);
  }

  // ----------------------------------------------------------------- parity

  // The positions of the set bits among the first `n`.
  function Ones(bits: seq<bool>, n: nat): set<nat>
    requires n <= |bits|
  {
    set k: nat | k < n && bits[k]
  }

  /** The positions at which two strings differ. */
  function Flipped(x: seq<bool>, y: seq<bool>): set<nat>
    requires |x| == |y|
  {
    set k: nat | k < |x| && x[k] != y[k]
  }

  lemma ShiftLess(p: Poly, e: nat, k: nat)
    requires e in p
    ensures Shift(p, k) == Shift(p - {e}, k) + {e + k} && e + k !in Shift(p - {e}, k)
  {
    forall d: nat ensures d in Shift(p, k) <==> d in Shift(p - {e}, k) + {e + k} {
      InShift(p, k, d);
      InShift(p - {e}, k, d);
    }
    InShift(p - {e}, k, e + k);
  }

  lemma {:induction false} ShiftSize(p: Poly, k: nat)
    ensures |Shift(p, k)| == |p|
    decreases |p|
  {
    if p == {} {
      assert Shift(p, k) == {};
    } else {
      var e :| e in p;
      ShiftLess(p, e, k);
      ShiftSize(p - {e}, k);
    }
  }

  lemma AddSize(a: Poly, b: Poly)
    ensures |Add(a, b)| + 2 * |a * b| == |a| + |b|
  {
    var common := a * b;
    assert a == (a - b) + common && b == (b - a) + common;
    CardUnion(a - b, common);
    CardUnion(b - a, common);
    CardUnion(a - b, b - a);
  }

  // The parity of the number of terms is additive.
  predicate OddSize(p: Poly) {
    |p| % 2 == 1
  }

  lemma AddParity(a: Poly, b: Poly)
    ensures OddSize(Add(a, b)) <==> OddSize(a) != OddSize(b)
  {
    AddSize(a, b);
  }

  lemma PartsParity(p: Poly, bit: bool)
    ensures OddSize(Shift(p, 1)) == OddSize(p) && OddSize(Unit(bit)) == bit && !OddSize(Carry(p))
  {
    ShiftSize(p, 1);
    assert |Carry(p)| == (if 15 in p then 4 else 0);
  }

  // x + 1 divides the generator, so a step changes the parity of the register by the bit that enters.
  lemma NextParity(p: Poly, bit: bool)
    ensures OddSize(Next(p, bit)) <==> OddSize(p) != bit
  {
    PartsParity(p, bit);
    AddParity(Shift(p, 1), Unit(bit));
    AddParity(Add(Shift(p, 1), Unit(bit)), Carry(p));
  }

  lemma OnesParity(bits: seq<bool>, n: nat)
    requires n < |bits|
    ensures OddSize(Ones(bits, n + 1)) <==> OddSize(Ones(bits, n)) != bits[n]
  {
    assert Ones(bits, n + 1) == Ones(bits, n) + One(bits[n], n);
    CardUnion(Ones(bits, n), One(bits[n], n));
  }

  lemma ParityStep(p: Poly, bits: seq<bool>, n: nat)
    requires n < |bits|
    requires OddSize(p) <==> OddSize(Ones(bits, n))
    ensures OddSize(Next(p, bits[n])) <==> OddSize(Ones(bits, n + 1))
  {
    NextParity(p, bits[n]);
    OnesParity(bits, n);
  }

  lemma {:induction false} RegisterParity(bits: seq<bool>, n: nat, p: Poly)
    requires n <= |bits| && p == Register(bits, n)
    ensures OddSize(p) <==> OddSize(Ones(bits, n))
  {
    if n == 0 {
      assert p == {} && Ones(bits, 0) == {};
    } else {
      var before := Register(bits, n - 1);
      RegisterParity(bits, n - 1, before);
      ParityStep(before, bits, n - 1);
    }
  }

  /** Any odd number of flipped bits changes the CRC, however far apart they are. */
  lemma OddDetected(x: seq<bool>, y: seq<bool>)
    requires |x| == |y| && |Flipped(x, y)| % 2 == 1
    ensures Register(x, |x|) != Register(y, |y|)
  {
    var z := Xor(x, y);
    assert Ones(z, |z|) == Flipped(x, y);
    RegisterParity(z, |z|, Register(z, |z|));
    DifferenceNotZero(x, y);
  }
}
