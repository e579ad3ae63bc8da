/**
  Polynomials over GF(2): a polynomial is the set of the exponents whose coefficient is one.
  Division by the generator x^16 + x^12 + x^5 + 1 of section 2 of ITU-T V.41.
 */
module Gf2 {

  type Poly = set<nat>

  function Add(a: Poly, b: Poly): Poly {
    (a - b) + (b - a)
  }

  // Multiplication by x^k.
  function Shift(a: Poly, k: nat): Poly {
    set e <- a :: e + k
  }

  ghost function Pairs(a: Poly, b: Poly, e: nat): Poly {
    set i | i in b && i <= e && (e - i) in a
  }

  function Count(c: bool): nat {
    if c then 1 else 0
  }

  /** The product: x^e has the coefficient one if an odd number of pairs of exponents add up to e. */
  ghost predicate InProduct(a: Poly, b: Poly, e: nat) {
    |Pairs(a, b, e)| % 2 == 1
  }

  ghost predicate IsProduct(a: Poly, b: Poly, p: Poly) {
    forall e: nat :: e in p <==> InProduct(a, b, e)
  }

  const GENERATOR: Poly := {16, 12, 5, 0}

  function TimesGenerator(q: Poly): Poly {
    Add(Add(Shift(q, 16), Shift(q, 12)), Add(Shift(q, 5), q))
  }

  lemma InShift(a: Poly, k: nat, e: nat)
    ensures e in Shift(a, k) <==> e >= k && (e - k) in a
  {
    if e >= k && (e - k) in a {
      assert e - k + k in Shift(a, k);
    }
  }

  function One(c: bool, k: nat): Poly {
    if c then {k} else {}
  }

  lemma CardUnion(a: Poly, b: Poly)
    requires a !! b
    ensures |a + b| == |a| + |b|
  {}

  lemma CountFour(c16: bool, c12: bool, c5: bool, c0: bool)
    ensures |One(c16, 16) + One(c12, 12) + One(c5, 5) + One(c0, 0)| ==
            Count(c16) + Count(c12) + Count(c5) + Count(c0)
  {
    var a, b, c, d := One(c16, 16), One(c12, 12), One(c5, 5), One(c0, 0);
    CardUnion(a, b);
    CardUnion(a + b, c);
    CardUnion(a + b + c, d);
  }

  lemma PairsWithGenerator(q: Poly, e: nat)
    ensures Pairs(q, GENERATOR, e) ==
            One(e >= 16 && (e - 16) in q, 16) + One(e >= 12 && (e - 12) in q, 12) +
            One(e >= 5 && (e - 5) in q, 5) + One(e in q, 0)
  {
    var s := Pairs(q, GENERATOR, e);
    assert forall i <- s :: i == 16 || i == 12 || i == 5 || i == 0;
    assert 16 in GENERATOR && 12 in GENERATOR && 5 in GENERATOR && 0 in GENERATOR;
    assert 16 in s <==> e >= 16 && (e - 16) in q;
    assert 12 in s <==> e >= 12 && (e - 12) in q;
    assert 5 in s <==> e >= 5 && (e - 5) in q;
    assert 0 in s <==> e - 0 in q;
  }

  lemma PairCount(q: Poly, e: nat)
    ensures |Pairs(q, GENERATOR, e)| ==
            Count(e in Shift(q, 16)) + Count(e in Shift(q, 12)) + Count(e in Shift(q, 5)) + Count(e in q)
  {
    InShift(q, 16, e);
    InShift(q, 12, e);
    InShift(q, 5, e);
    PairsWithGenerator(q, e);
    CountFour(e in Shift(q, 16), e in Shift(q, 12), e in Shift(q, 5), e in q);
  }

  lemma InTimesGenerator(q: Poly, e: nat)
    ensures e in TimesGenerator(q) <==>
            (Count(e in Shift(q, 16)) + Count(e in Shift(q, 12)) + Count(e in Shift(q, 5)) + Count(e in q)) % 2 == 1
  {}

  lemma TimesGeneratorIsProduct(q: Poly)
    ensures IsProduct(q, GENERATOR, TimesGenerator(q))
  {
    forall e: nat ensures e in TimesGenerator(q) <==> InProduct(q, GENERATOR, e) {
      PairCount(q, e);
      InTimesGenerator(q, e);
    }
  }

  ghost predicate DegreeBelow(a: Poly, n: nat) {
    forall e <- a :: e < n
  }

  /** r is the remainder of m divided by the generator. */
  ghost predicate IsRemainder(m: Poly, r: Poly) {
    DegreeBelow(r, 16) && exists q: Poly :: m == Add(TimesGenerator(q), r)
  }

  // ------------------------------------------------------------------ algebra

  lemma TimesGeneratorAdd(p: Poly, q: Poly)
    ensures TimesGenerator(Add(p, q)) == Add(TimesGenerator(p), TimesGenerator(q))
  {
    ShiftAdd(p, q, 16);
    ShiftAdd(p, q, 12);
    ShiftAdd(p, q, 5);
    AddFour(Shift(p, 16), Shift(p, 12), Shift(p, 5), p, Shift(q, 16), Shift(q, 12), Shift(q, 5), q);
  }

  lemma AddFour(a: Poly, b: Poly, c: Poly, d: Poly, a': Poly, b': Poly, c': Poly, d': Poly)
    ensures Add(Add(Add(a, a'), Add(b, b')), Add(Add(c, c'), Add(d, d'))) ==
            Add(Add(Add(a, b), Add(c, d)), Add(Add(a', b'), Add(c', d')))
  {}

  lemma ShiftAdd(p: Poly, q: Poly, k: nat)
    ensures Shift(Add(p, q), k) == Add(Shift(p, k), Shift(q, k))
  {
    forall e: nat ensures e in Shift(Add(p, q), k) <==> e in Add(Shift(p, k), Shift(q, k)) {
      InShift(Add(p, q), k, e);
      InShift(p, k, e);
      InShift(q, k, e);
    }
  }

  lemma ShiftShift(p: Poly, j: nat, k: nat)
    ensures Shift(Shift(p, j), k) == Shift(p, j + k)
  {
    forall e: nat ensures e in Shift(Shift(p, j), k) <==> e in Shift(p, j + k) {
      InShift(Shift(p, j), k, e);
      InShift(p, j + k, e);
      if e >= k { InShift(p, j, e - k); }
    }
  }

  lemma TimesGeneratorShift(q: Poly, k: nat)
    ensures TimesGenerator(Shift(q, k)) == Shift(TimesGenerator(q), k)
  {
    ShiftShift(q, k, 16);
    ShiftShift(q, k, 12);
    ShiftShift(q, k, 5);
    ShiftShift(q, 16, k);
    ShiftShift(q, 12, k);
    ShiftShift(q, 5, k);
    ShiftAdd(Add(Shift(q, 16), Shift(q, 12)), Add(Shift(q, 5), q), k);
    ShiftAdd(Shift(q, 16), Shift(q, 12), k);
    ShiftAdd(Shift(q, 5), q, k);
  }

  lemma TimesGeneratorOne()
    ensures TimesGenerator({0}) == GENERATOR
  {
    assert Shift({0}, 16) == {16};
    assert Shift({0}, 12) == {12};
    assert Shift({0}, 5) == {5};
  }

  lemma {:induction false} Greatest(a: Poly) returns (e: nat)
    requires a != {}
    ensures e in a && forall d <- a :: d <= e
    decreases |a|
  {
    var x :| x in a;
    var rest := a - {x};
    assert a == rest + {x};
    if rest == {} {
      e := x;
    } else {
      var y := Greatest(rest);
      e := if x > y then x else y;
      assert forall d <- a :: d == x || d in rest;
    }
  }

  // The highest exponent of q gives the highest exponent of its multiple.
  lemma TopTerm(q: Poly) returns (e: nat)
    requires q != {}
    ensures e + 16 in TimesGenerator(q)
  {
    e := Greatest(q);
    InShift(q, 16, e + 16);
    InShift(q, 12, e + 16);
    InShift(q, 5, e + 16);
  }

  // A multiple of the generator of degree below 16 is zero.
  lemma SmallMultiple(q: Poly)
    requires DegreeBelow(TimesGenerator(q), 16)
    ensures q == {}
  {
    if q != {} {
      var e := TopTerm(q);
    }
  }

  lemma AddCancel(a: Poly, b: Poly, r: Poly, s: Poly)
    requires Add(a, r) == Add(b, s)
    ensures Add(a, b) == Add(r, s)
  {
    forall e: nat ensures e in Add(a, b) <==> e in Add(r, s) {
      assert e in Add(a, r) <==> e in Add(b, s);
    }
  }

  lemma AddZero(a: Poly, b: Poly)
    ensures Add(a, b) == {} <==> a == b
  {
    if Add(a, b) == {} {
      assert a - b == {} && b - a == {};
      assert a == b;
    }
  }

  /** The remainder is unique. */
  lemma RemainderUnique(m: Poly, r: Poly, s: Poly)
    requires IsRemainder(m, r) && IsRemainder(m, s)
    ensures r == s
  {
    var p: Poly :| m == Add(TimesGenerator(p), r);
    var q: Poly :| m == Add(TimesGenerator(q), s);
    AddCancel(TimesGenerator(p), TimesGenerator(q), r, s);
    TimesGeneratorAdd(p, q);
    SmallMultiple(Add(p, q));
    assert Shift({}, 16) == {} && Shift({}, 12) == {} && Shift({}, 5) == {};
    AddZero(r, s);
  }

  // --------------------------------------------------------------- bit strings

  /** The polynomial of the first `n` bits of a string, first bit first: the last of them has the exponent zero. */
  function Value(bits: seq<bool>, n: nat): Poly
    requires n <= |bits|
  {
    set k | 0 <= k < n && bits[k] :: n - 1 - k
  }

  lemma InValue(bits: seq<bool>, n: nat, e: nat)
    requires n <= |bits|
    ensures e in Value(bits, n) <==> e < n && bits[n - 1 - e]
  {
    if e < n && bits[n - 1 - e] {
      assert n - 1 - (n - 1 - e) in Value(bits, n);
    }
  }

  function Unit(b: bool): Poly {
    One(b, 0)
  }

  lemma ValueNext(bits: seq<bool>, n: nat)
    requires n < |bits|
    ensures Value(bits, n + 1) == Add(Shift(Value(bits, n), 1), Unit(bits[n]))
  {
    forall e: nat ensures e in Value(bits, n + 1) <==> e in Add(Shift(Value(bits, n), 1), Unit(bits[n])) {
      InValue(bits, n + 1, e);
      InShift(Value(bits, n), 1, e);
      if e > 0 { InValue(bits, n, e - 1); }
    }
  }

  // Zero bits behind a string multiply its polynomial.
  lemma ValuePadded(x: seq<bool>, y: seq<bool>, k: nat)
    requires |y| == |x| + k
    requires forall i :: 0 <= i < |y| ==> y[i] == (i < |x| && x[i])
    ensures Value(y, |y|) == Shift(Value(x, |x|), k)
  {
    forall e: nat ensures e in Value(y, |y|) <==> e in Shift(Value(x, |x|), k) {
      InValue(y, |y|, e);
      InShift(Value(x, |x|), k, e);
      if e >= k { InValue(x, |x|, e - k); }
    }
  }
}
