/** The finite field GF(2^8) of section 4 of FIPS 197, with bytes as elements. */
module Gf256 {

  /** Field addition: bitwise exclusive OR. */
  function Add(a: bv8, b: bv8): bv8 {
    a ^ b
  }

  predicate Odd(a: bv8) {
    a & 1 == 1
  }

  function Half(a: bv8): bv8 {
    a >> 1
  }

  /** Multiplication by {02}, reducing by x^8 + x^4 + x^3 + x + 1. */
  function XTime(b: bv8): bv8 {
    (b << 1) ^ (0x1b & (0 - (b >> 7)))
  }

  /** The sum of the products of `b` with the low `n` terms of `a`. */
  function MulTerms(n: nat, a: bv8, b: bv8): bv8
    decreases n
  {
    if n == 0 then 0 else Add(if Odd(a) then b else 0, MulTerms(n - 1, Half(a), XTime(b)))
  }

  /** `a` is a polynomial of degree less than `n`. */
  predicate Fits(n: nat, a: bv8)
    decreases n
  {
    if n == 0 then a == 0 else Fits(n - 1, Half(a))
  }

  /** `r` is the sum over all terms of `a`, however many terms beyond its degree are counted. */
  ghost predicate IsProduct(a: bv8, b: bv8, r: bv8) {
    forall n: nat :: Fits(n, a) ==> r == MulTerms(n, a, b)
  }

  /** Field multiplication. */
  ghost function Mul(a: bv8, b: bv8): (r: bv8)
    ensures IsProduct(a, b, r)
  {
    ProductExists(a, b);
    var r :| IsProduct(a, b, r);
    r
  }

  lemma ProductExists(a: bv8, b: bv8)
    ensures IsProduct(a, b, MulTerms(8, a, b))
  {
    hide MulTerms, Fits;
    ByteFits(a);
    forall n: nat | Fits(n, a)
      ensures MulTerms(8, a, b) == MulTerms(n, a, b)
    {
      TermsEnough(8, n, a, b);
    }
  }

  lemma {:induction false} TermsEnough(m: nat, n: nat, a: bv8, b: bv8)
    requires Fits(m, a) && Fits(n, a)
    ensures MulTerms(m, a, b) == MulTerms(n, a, b)
    decreases m + n
  {
    hide Add, XTime;
    AddZero(0);
    if m > 0 && n > 0 {
      TermsEnough(m - 1, n - 1, Half(a), XTime(b));
    } else if m > 0 {
      TermsEnough(m - 1, 0, Half(a), XTime(b));
    } else if n > 0 {
      TermsEnough(0, n - 1, Half(a), XTime(b));
    }
  }

  lemma MulIsTerms(a: bv8, b: bv8)
    ensures Mul(a, b) == MulTerms(8, a, b) && Fits(8, a)
  {
    hide MulTerms, Fits, Mul;
    ByteFits(a);
  }

  // ----- Addition is a commutative group in which every element is its own negative

  lemma AddZero(a: bv8)
    ensures Add(a, 0) == a && Add(0, a) == a
  {}

  lemma AddSelf(a: bv8)
    ensures Add(a, a) == 0
  {}

  lemma AddComm(a: bv8, b: bv8)
    ensures Add(a, b) == Add(b, a)
  {}

  lemma AddAssoc(a: bv8, b: bv8, c: bv8)
    ensures Add(Add(a, b), c) == Add(a, Add(b, c))
  {}

  lemma AddInterchange(a: bv8, b: bv8, c: bv8, d: bv8)
    ensures Add(Add(a, b), Add(c, d)) == Add(Add(a, c), Add(b, d))
  {
    hide *;
    AddAssoc(a, b, Add(c, d));
    AddAssoc(b, c, d);
    AddComm(b, c);
    AddAssoc(c, b, d);
    AddAssoc(a, c, Add(b, d));
  }

  // ----- Multiplication distributes over addition

  lemma XTimeAdd(a: bv8, b: bv8)
    ensures XTime(Add(a, b)) == Add(XTime(a), XTime(b))
  {}

  lemma {:induction false} TermsAddRight(n: nat, a: bv8, b: bv8, c: bv8)
    ensures MulTerms(n, a, Add(b, c)) == Add(MulTerms(n, a, b), MulTerms(n, a, c))
    decreases n
  {
    hide Add, Odd, Half, XTime;
    AddZero(0);
    if n != 0 {
      XTimeAdd(b, c);
      TermsAddRight(n - 1, Half(a), XTime(b), XTime(c));
      AddInterchange(b, c, MulTerms(n - 1, Half(a), XTime(b)), MulTerms(n - 1, Half(a), XTime(c)));
      AddInterchange(0, 0, MulTerms(n - 1, Half(a), XTime(b)), MulTerms(n - 1, Half(a), XTime(c)));
    }
  }

  lemma MulAddRight(a: bv8, b: bv8, c: bv8)
    ensures Mul(a, Add(b, c)) == Add(Mul(a, b), Mul(a, c))
  {
    hide Add, MulTerms, Fits;
    MulIsTerms(a, b);
    MulIsTerms(a, c);
    MulIsTerms(a, Add(b, c));
    TermsAddRight(8, a, b, c);
  }

  lemma {:induction false} TermsXTime(n: nat, a: bv8, b: bv8)
    ensures MulTerms(n, a, XTime(b)) == XTime(MulTerms(n, a, b))
    decreases n
  {
    hide Add, Odd, Half, XTime;
    XTimeZero();
    if n != 0 {
      TermsXTime(n - 1, Half(a), XTime(b));
      XTimeAdd(if Odd(a) then b else 0, MulTerms(n - 1, Half(a), XTime(b)));
    }
  }

  lemma XTimeZero()
    ensures XTime(0) == 0
  {}

  // ----- Multiplication is commutative and associative

  lemma ByteFits(a: bv8)
    ensures Fits(8, a)
  {
    hide Half;
    HalfEightTimes(a);
    var h := Half(Half(Half(Half(a))));
    assert Fits(4, h);
    assert Fits(6, Half(Half(a)));
  }

  lemma HalfEightTimes(a: bv8)
    ensures Half(Half(Half(Half(Half(Half(Half(Half(a)))))))) == 0
  {}

  lemma SplitLowTerm(a: bv8)
    ensures a == Add(if Odd(a) then 1 else 0, XTime(Half(a)))
  {}

  lemma {:induction false} TermsZero(n: nat, a: bv8)
    ensures MulTerms(n, a, 0) == 0
    decreases n
  {
    hide Add, Odd, Half, XTime;
    AddZero(0);
    XTimeZero();
    if n != 0 {
      TermsZero(n - 1, Half(a));
    }
  }

  lemma {:induction false} TermsOne(n: nat, a: bv8)
    requires Fits(n, a)
    ensures MulTerms(n, a, 1) == a
    decreases n
  {
    hide Add, Odd, Half, XTime;
    if n != 0 {
      TermsOne(n - 1, Half(a));
      TermsXTime(n - 1, Half(a), 1);
      SplitLowTerm(a);
    }
  }

  lemma {:induction false} TermsComm(n: nat, a: bv8, b: bv8)
    requires Fits(n, a)
    ensures MulTerms(n, a, b) == Mul(b, a)
    decreases n
  {
    hide Add, Odd, Half, XTime, Mul;
    MulUnit(b);
    if n != 0 {
      var h := Half(a);
      var e: bv8 := if Odd(a) then 1 else 0;
      TermsComm(n - 1, h, b);
      TermsXTime(n - 1, h, b);
      SplitLowTerm(a);
      MulAddRight(b, e, XTime(h));
      MulXTime(b, h);
    }
  }

  lemma MulUnit(a: bv8)
    ensures Mul(a, 1) == a && Mul(a, 0) == 0
  {
    hide MulTerms, Fits;
    MulIsTerms(a, 1);
    MulIsTerms(a, 0);
    TermsOne(8, a);
    TermsZero(8, a);
  }

  lemma MulXTime(a: bv8, b: bv8)
    ensures Mul(a, XTime(b)) == XTime(Mul(a, b))
  {
    hide MulTerms, XTime, Fits;
    MulIsTerms(a, b);
    MulIsTerms(a, XTime(b));
    TermsXTime(8, a, b);
  }

  lemma MulComm(a: bv8, b: bv8)
    ensures Mul(a, b) == Mul(b, a)
  {
    hide MulTerms, Fits;
    MulIsTerms(a, b);
    TermsComm(8, a, b);
  }

  lemma MulAddLeft(a: bv8, b: bv8, c: bv8)
    ensures Mul(Add(a, b), c) == Add(Mul(a, c), Mul(b, c))
  {
    hide *;
    MulComm(Add(a, b), c);
    MulAddRight(c, a, b);
    MulComm(c, a);
    MulComm(c, b);
  }

  lemma {:induction false} TermsAssoc(n: nat, a: bv8, b: bv8, c: bv8)
    ensures Mul(MulTerms(n, a, b), c) == MulTerms(n, a, Mul(b, c))
    decreases n
  {
    hide Add, Odd, Half, XTime, Mul;
    ZeroMul(c);
    if n != 0 {
      TermsAssoc(n - 1, Half(a), XTime(b), c);
      MulAddLeft(if Odd(a) then b else 0, MulTerms(n - 1, Half(a), XTime(b)), c);
      XTimeMul(b, c);
    }
  }

  lemma ZeroMul(a: bv8)
    ensures Mul(0, a) == 0 && Mul(1, a) == a
  {
    hide *;
    MulComm(0, a);
    MulComm(1, a);
    MulUnit(a);
  }

  lemma XTimeMul(a: bv8, b: bv8)
    ensures Mul(XTime(a), b) == XTime(Mul(a, b))
  {
    hide *;
    MulComm(XTime(a), b);
    MulXTime(b, a);
    MulComm(a, b);
  }

  lemma MulAssoc(a: bv8, b: bv8, c: bv8)
    ensures Mul(Mul(a, b), c) == Mul(a, Mul(b, c))
  {
    hide MulTerms, Fits;
    MulIsTerms(a, b);
    MulIsTerms(a, Mul(b, c));
    TermsAssoc(8, a, b, c);
  }

  // ----- {03} generates the multiplicative group

  /** Multiplication by {03}. */
  function Triple(b: bv8): bv8 {
    Add(b, XTime(b))
  }

  lemma MulTriple(a: bv8, b: bv8)
    ensures Mul(a, Triple(b)) == Triple(Mul(a, b))
  {
    hide Add, XTime, Mul;
    MulAddRight(a, b, XTime(b));
    MulXTime(a, b);
  }

  /** Multiplying `b` by {03} `n` times gives `e`, and no value before that is {01}. */
  predicate Orbit(n: nat, b: bv8, e: bv8)
    decreases n
  {
    if n == 0 then b == e else b != 1 && Orbit(n - 1, Triple(b), e)
  }

  lemma {:induction false} OrbitJoin(m: nat, n: nat, a: bv8, b: bv8, c: bv8)
    requires Orbit(m, a, b) && Orbit(n, b, c)
    ensures Orbit(m + n, a, c)
    decreases m
  {
    hide Triple;
    if m != 0 {
      OrbitJoin(m - 1, n, Triple(a), b, c);
    }
  }

  function Triple4(b: bv8): bv8 {
    Triple(Triple(Triple(Triple(b))))
  }

  predicate Free4(b: bv8) {
    b != 1 && Triple(b) != 1 && Triple(Triple(b)) != 1 && Triple(Triple(Triple(b))) != 1
  }

  lemma Orbit4(b: bv8)
    requires Free4(b)
    ensures Orbit(4, b, Triple4(b))
  {
    hide Triple;
    assert Orbit(2, Triple(Triple(b)), Triple4(b));
  }

  lemma Orbit16(b: bv8, c: bv8, d: bv8, e: bv8, f: bv8)
    requires Free4(b) && Free4(c) && Free4(d) && Free4(e)
    requires Triple4(b) == c && Triple4(c) == d && Triple4(d) == e && Triple4(e) == f
    ensures Orbit(16, b, f)
  {
    hide Free4, Triple4, Orbit;
    Orbit4(b);
    Orbit4(c);
    Orbit4(d);
    Orbit4(e);
    OrbitJoin(4, 4, b, c, d);
    OrbitJoin(4, 4, d, e, f);
    OrbitJoin(8, 8, b, d, f);
  }

  lemma OrbitLow()
    ensures Orbit(128, 0x03, 0x16)
  {
    hide Orbit;
    Orbit16(0x03, 0x33, 0x2e, 0xf8, 0xe1);
    Orbit16(0xe1, 0x73, 0x02, 0x22, 0x34);
    OrbitJoin(16, 16, 0x03, 0xe1, 0x34);
    Orbit16(0x34, 0x59, 0xbe, 0xab, 0xf5);
    OrbitJoin(32, 16, 0x03, 0x34, 0xf5);
    Orbit16(0xf5, 0x3c, 0xd1, 0x6e, 0xd4);
    OrbitJoin(48, 16, 0x03, 0xf5, 0xd4);
    Orbit16(0xd4, 0x3b, 0xa6, 0x28, 0x9e);
    OrbitJoin(64, 16, 0x03, 0xd4, 0x9e);
    Orbit16(0x9e, 0xbd, 0x98, 0xdb, 0xc4);
    OrbitJoin(80, 16, 0x03, 0x9e, 0xc4);
    Orbit16(0xc4, 0x30, 0x1d, 0xd6, 0x19);
    OrbitJoin(96, 16, 0x03, 0xc4, 0x19);
    Orbit16(0x19, 0x92, 0x71, 0x20, 0x16);
    OrbitJoin(112, 16, 0x03, 0x19, 0x16);
  }

  lemma OrbitHigh()
    ensures Orbit(112, 0x16, 0x4b)
  {
    hide Orbit;
    Orbit16(0x16, 0x6d, 0xe7, 0x15, 0x5e);
    Orbit16(0x5e, 0xc9, 0xed, 0xbf, 0xba);
    OrbitJoin(16, 16, 0x16, 0x5e, 0xba);
    Orbit16(0xba, 0xef, 0x9d, 0x8e, 0xb6);
    OrbitJoin(32, 16, 0x16, 0xba, 0xb6);
    Orbit16(0xb6, 0x23, 0x25, 0x43, 0x1f);
    OrbitJoin(48, 16, 0x16, 0xb6, 0x1f);
    Orbit16(0x1f, 0xf4, 0x2d, 0xcb, 0xcf);
    OrbitJoin(64, 16, 0x16, 0x1f, 0xcf);
    Orbit16(0xcf, 0x8b, 0xe3, 0x51, 0x36);
    OrbitJoin(80, 16, 0x16, 0xcf, 0x36);
    Orbit16(0x36, 0x7b, 0x8a, 0xf2, 0x4b);
    OrbitJoin(96, 16, 0x16, 0x36, 0x4b);
  }

  /** The powers of {03} return to {01} after 255 steps and not before. */
  lemma OrbitOfThree()
    ensures Orbit(254, 3, 1)
  {
    hide Orbit;
    OrbitLow();
    OrbitHigh();
    OrbitJoin(128, 112, 0x03, 0x16, 0x4b);
    Orbit4(0x4b);
    Orbit4(0x97);
    Orbit4(0x24);
    OrbitJoin(240, 4, 0x03, 0x4b, 0x97);
    OrbitJoin(244, 4, 0x03, 0x97, 0x24);
    OrbitJoin(248, 4, 0x03, 0x24, 0x52);
    OrbitEnd();
    OrbitJoin(252, 2, 0x03, 0x52, 1);
  }

  lemma OrbitEnd()
    ensures Orbit(2, 0x52, 1)
  {}

  lemma {:induction false} OrbitLengthUnique(m: nat, n: nat, b: bv8)
    requires Orbit(m, b, 1) && Orbit(n, b, 1)
    ensures m == n
    decreases m
  {
    hide Triple;
    if m != 0 && n != 0 {
      OrbitLengthUnique(m - 1, n - 1, Triple(b));
    }
  }

  lemma {:induction false} OrbitStartUnique(n: nat, b: bv8, c: bv8)
    requires Orbit(n, b, 1) && Orbit(n, c, 1)
    ensures b == c
    decreases n
  {
    hide Triple;
    if n != 0 {
      OrbitStartUnique(n - 1, Triple(b), Triple(c));
      TripleInjective(b, c);
    }
  }

  /** Division by {03}: the running exclusive OR of the bits, corrected by 09 when odd. */
  function Third(q: bv8): bv8 {
    var q1 := q ^ (q << 1);
    var q2 := q1 ^ (q1 << 2);
    var q4 := q2 ^ (q2 << 4);
    q4 ^ (0x09 & (0 - (q4 >> 7)))
  }

  lemma ThirdTriple(b: bv8)
    ensures Third(Triple(b)) == b && Triple(Third(b)) == b
  {}

  lemma TripleInjective(b: bv8, c: bv8)
    requires Triple(b) == Triple(c)
    ensures b == c
  {
    hide *;
    ThirdTriple(b);
    ThirdTriple(c);
  }

  lemma {:induction false} OrbitNonZero(n: nat)
    ensures !Orbit(n, 0, 1)
    decreases n
  {
    if n != 0 {
      assert Triple(0) == 0;
      OrbitNonZero(n - 1);
    }
  }

  /** `b` is at most `n` steps from {01} along the orbit. */
  ghost predicate Near(n: nat, b: bv8) {
    exists k: nat :: k <= n && Orbit(k, b, 1)
  }


  function Number(b: bv8): nat {
    b as int
  }

  lemma NumberInjective(b: bv8, c: bv8)
    requires Number(b) == Number(c)
    ensures b == c
  {}

  lemma NumberBounds(b: bv8)
    ensures Number(b) < 256 && Number(0) == 0
  {}

  lemma {:induction false} OrbitElements(n: nat, b: bv8) returns (elements: set<nat>)
    requires Orbit(n, b, 1)
    ensures |elements| == n + 1
    ensures forall i :: i in elements ==> 0 < i <= 255
    ensures forall c: bv8 :: Number(c) in elements ==> Near(n, c)
    decreases n
  {
    hide Triple, Number;
    OrbitNonZero(n);
    NumberBounds(b);
    if Number(b) == 0 {
      NumberInjective(b, 0);
    }
    elements := {Number(b)};
    if n != 0 {
      var rest := OrbitElements(n - 1, Triple(b));
      if Number(b) in rest {
        var k: nat :| k <= n - 1 && Orbit(k, b, 1);
        OrbitLengthUnique(k, n, b);
      }
      elements := elements + rest;
    }
    forall c: bv8 | Number(c) in elements
      ensures Near(n, c)
    {
      if Number(c) == Number(b) {
        NumberInjective(c, b);
      } else {
        assert Near(n - 1, c);
      }
    }
  }

  lemma {:induction false} CountUpTo(n: nat, s: set<nat>)
    requires forall i :: i in s ==> 0 < i <= n
    ensures |s| <= n
    decreases n
  {
    if n == 0 {
      assert s == {};
    } else {
      CountUpTo(n - 1, s - {n});
    }
  }

  /** Every nonzero byte lies on the orbit of {03}. */
  lemma Generator(b: bv8) returns (n: nat)
    requires b != 0
    ensures n <= 254 && Orbit(n, b, 1)
  {
    hide Orbit, Number;
    OrbitOfThree();
    var elements := OrbitElements(254, 3);
    if Number(b) !in elements {
      NumberBounds(b);
      if Number(b) == 0 {
        NumberInjective(b, 0);
      }
      CountUpTo(255, elements + {Number(b)});
      assert false;
    }
    n :| n <= 254 && Orbit(n, b, 1);
  }

  // ----- Every nonzero element has exactly one inverse

  /** `c` is the multiplicative inverse of `b`, with {00} taken as its own inverse. */
  ghost predicate IsInverse(b: bv8, c: bv8) {
    if b == 0 then c == 0 else Mul(b, c) == 1
  }

  function Power(n: nat): bv8 {
    if n == 0 then 1 else Triple(Power(n - 1))
  }

  lemma {:induction false} OrbitInverse(n: nat, b: bv8)
    requires Orbit(n, b, 1)
    ensures Mul(b, Power(n)) == 1
    decreases n
  {
    hide Triple, Mul;
    if n == 0 {
      MulUnit(b);
    } else {
      OrbitInverse(n - 1, Triple(b));
      MulTriple(b, Power(n - 1));
      TripleMul(b, Power(n - 1));
    }
  }

  lemma TripleMul(a: bv8, b: bv8)
    ensures Mul(Triple(a), b) == Triple(Mul(a, b))
  {
    hide *;
    MulComm(Triple(a), b);
    MulTriple(b, a);
    MulComm(a, b);
  }

  lemma InverseUnique(b: bv8, c: bv8, d: bv8)
    requires IsInverse(b, c) && IsInverse(b, d)
    ensures c == d
  {
    hide Mul;
    if b != 0 {
      MulAssoc(c, b, d);
      MulComm(b, c);
      ZeroMul(d);
      MulUnit(c);
    }
  }

  lemma InverseExists(b: bv8)
    ensures exists c :: IsInverse(b, c)
  {
    hide Mul, Orbit, Power;
    if b == 0 {
      assert IsInverse(b, 0);
    } else {
      var n := Generator(b);
      OrbitInverse(n, b);
      assert IsInverse(b, Power(n));
    }
  }

  /** The multiplicative inverse used by section 5.1.1 of FIPS 197. */
  ghost function Inverse(b: bv8): (c: bv8)
    ensures IsInverse(b, c)
  {
    InverseExists(b);
    var c :| IsInverse(b, c);
    c
  }

  lemma InverseInvolution(b: bv8)
    ensures Inverse(Inverse(b)) == b
  {
    hide Mul, Inverse;
    var c := Inverse(b);
    MulComm(b, c);
    ZeroMul(b);
    MulUnit(b);
    InverseUnique(c, Inverse(c), b);
  }
}
