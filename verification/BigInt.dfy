/** Modular multiplication and exponentiation of fixed-width integers (src/crypto/bigint.c). */
module BigInt {
  import opened Units

  // ----- The primitive operations, on the values of integers of a given width in bits

  /** bigint_rol(): doubles, losing the carry out of the top. */
  function Rol(x: nat, bits: nat): nat {
    (2 * x) % Pow2(bits)
  }

  function Ror(x: nat): nat {
    x / 2
  }

  function Shrink(x: nat, bits: nat): nat {
    x % Pow2(bits)
  }

  /** Arithmetic is modulo the modulus, or for a zero modulus modulo the width of the result. */
  function Effective(modulus: nat, bits: nat): (m: nat)
    ensures m > 0
  {
    if modulus == 0 then Pow2(bits) else modulus
  }

  // ----- Powers of two

  lemma {:induction false} Pow2Sum(a: nat, b: nat)
    ensures Pow2(a + b) == Pow2(a) * Pow2(b)
  {
    if a > 0 {
      Pow2Sum(a - 1, b);
      assert Pow2(a + b) == 2 * Pow2(a - 1 + b);
    }
  }

  lemma {:induction false} FlsLeast(x: nat, k: nat)
    requires x < Pow2(k)
    ensures Fls(x) <= k
  {
    if x > 0 {
      FlsLeast(x / 2, k - 1);
    }
  }

  lemma {:induction false} FlsAtLeast(x: nat)
    requires x > 0
    ensures Fls(x) > 0 && Pow2(Fls(x) - 1) <= x
  {
    FlsBounds(x);
    assert Pow2(Fls(x)) == 2 * Pow2(Fls(x) - 1);
  }

  lemma ScaleLess(a: nat, b: nat, k: nat)
    requires a < b && k > 0
    ensures a * k < b * k
  {}

  lemma ScaleAtMost(a: nat, b: nat, k: nat)
    requires a <= b
    ensures a * k <= b * k
  {}

  /** A modulus shifted up to the width of another value still fits in that width. */
  lemma ShiftFits(m: nat, k: nat, width: nat)
    requires m > 0 && Fls(m) + k <= width
    ensures m * Pow2(k) < Pow2(width)
  {
    hide Fls, Pow2;
    FlsBounds(m);
    ScaleLess(m, Pow2(Fls(m)), Pow2(k));
    Pow2Sum(Fls(m), k);
    Pow2Monotonic(Fls(m) + k, width);
  }

  /** Scaled to the same width, twice the modulus exceeds the value. */
  lemma RescaledBound(x: nat, m: nat, k: nat)
    requires m > 0 && Fls(x) == Fls(m) + k
    ensures x < 2 * (m * Pow2(k))
  {
    hide Fls;
    FlsBounds(x);
    FlsAtLeast(m);
    Pow2Sum(Fls(m) - 1, k);
    ScaleAtMost(Pow2(Fls(m) - 1), m, Pow2(k));
    assert Pow2(Fls(x)) == 2 * Pow2(Fls(m) - 1 + k);
  }

  lemma NarrowerBound(x: nat, m: nat)
    requires Fls(x) < Fls(m)
    ensures x < m
  {
    hide Pow2;
    FlsBounds(x);
    FlsAtLeast(m);
    Pow2Monotonic(Fls(x), Fls(m) - 1);
  }

  lemma ProductFits(a: nat, b: nat, bits: nat)
    requires a < Pow2(bits) && b < Pow2(bits)
    ensures a * b < Pow2(2 * bits)
  {
    hide Pow2;
    Pow2Sum(bits, bits);
    ScaleAtMost(a, Pow2(bits), b);
    ScaleLess(b, Pow2(bits), Pow2(bits));
    assert Pow2(bits) * b == b * Pow2(bits);
  }

  lemma PowerStep(m: nat, k: nat)
    ensures m * Pow2(k + 1) == 2 * (m * Pow2(k))
  {}

  // ----- Multiplication

  /** The modulus, shifted left until its top bit is level with that of the product. */
  method Rescale(m: nat, rotation: int, bits: nat) returns (modulus: nat)
    requires m > 0 ==> Fls(m) + rotation <= bits
    ensures modulus == if rotation > 0 then m * Pow2(rotation) else m
  {
    hide Pow2, Fls;
    modulus := m;
    Pow2Zero();
    var i := 0;
    while i < rotation
      invariant 0 <= i && (rotation >= 0 ==> i <= rotation) && (rotation < 0 ==> i == 0)
      invariant modulus == m * Pow2(i)
    {
      PowerStep(m, i);
      if m > 0 {
        ShiftFits(m, i + 1, bits);
        SmallMod(2 * modulus, Pow2(bits));
      } else {
        SmallMod(0, Pow2(bits));
      }
      modulus := Rol(modulus, bits);
      i := i + 1;
    }
  }

  lemma Pow2Zero()
    ensures Pow2(0) == 1
  {}

  /** Takes off multiples of the modulus, one bit position after another. */
  method Reduce(product: nat, m: nat, start: nat, rotation: int) returns (result: nat)
    requires rotation >= 0 ==> start == m * Pow2(rotation) && (m > 0 ==> product < 2 * start)
    requires rotation < 0 ==> product < m
    ensures m > 0 ==> result < m && result % m == product % m
    ensures m == 0 ==> result == product
  {
    hide Pow2;
    result := product;
    var modulus, i := start, 0;
    while i <= rotation
      invariant 0 <= i && (rotation >= 0 ==> i <= rotation + 1) && (rotation < 0 ==> i == 0)
      invariant 0 <= i <= rotation ==> modulus == m * Pow2(rotation - i) && (m > 0 ==> result < 2 * modulus)
      invariant m > 0 && i > rotation ==> result < m
      invariant if m > 0 then result % m == product % m else result == product
    {
      var k := rotation - i;
      if result >= modulus {
        if m > 0 {
          TakeOff(result, m, Pow2(k));
        }
        result := result - modulus;
      }
      if k > 0 {
        PowerStep(m, k - 1);
      } else {
        Pow2Zero();
      }
      modulus := Ror(modulus);
      i := i + 1;
    }
  }

  lemma TakeOff(x: nat, m: nat, k: nat)
    requires m > 0 && x >= m * k
    ensures (x - m * k) % m == x % m
  {
    var j: int := k;
    assert x - m * k == x + (-j) * m;
    ModShift(x, -j, m);
  }

  /** bigint_mod_multiply(): the product modulo the modulus, even when the product is already smaller. */
  method ModMultiply(a: nat, b: nat, m: nat, bits: nat) returns (r: nat)
    requires a < Pow2(bits) && b < Pow2(bits) && m < Pow2(bits)
    ensures r == (a * b) % Effective(m, bits) && r < Pow2(bits)
  {
    hide Pow2, Fls;
    var result := a * b;
    ProductFits(a, b, bits);
    FlsLeast(result, 2 * bits);
    FlsZero();
    var rotation := Fls(result) - Fls(m);
    var modulus := Rescale(m, rotation, 2 * bits);
    Pow2Zero();
    if m > 0 {
      if rotation >= 0 {
        RescaledBound(result, m, rotation);
      } else {
        NarrowerBound(result, m);
      }
    }
    result := Reduce(result, m, modulus, rotation);
    if m > 0 {
      SmallMod(result, m);
      SmallMod(result, Pow2(bits));
    } else {
      ModBelow(result, Pow2(bits));
    }
    r := Shrink(result, bits);
  }

  lemma FlsZero()
    ensures Fls(0) == 0
  {}

  lemma ModBelow(x: nat, m: nat)
    requires m > 0
    ensures x % m < m
  {}

  // ----- Exponentiation

  ghost function Pow(b: nat, e: nat): nat {
    if e == 0 then 1 else b * Pow(b, e - 1)
  }

  lemma {:induction false} PowSquare(b: nat, k: nat)
    ensures Pow(b, 2 * k) == Pow(b * b, k)
  {
    if k > 0 {
      PowSquare(b, k - 1);
      assert Pow(b, 2 * k) == b * (b * Pow(b, 2 * k - 2));
      Associates(b, b, Pow(b, 2 * k - 2));
    }
  }

  lemma Associates(a: nat, b: nat, c: nat)
    ensures a * (b * c) == (a * b) * c
  {}

  /** Halving the exponent squares the base, with one factor left over when the exponent is odd. */
  lemma PowHalve(b: nat, e: nat)
    ensures Pow(b, e) == (if e % 2 == 1 then b else 1) * Pow(b * b, e / 2)
  {
    PowSquare(b, e / 2);
    if e % 2 == 1 {
      assert e - 1 == 2 * (e / 2);
    } else {
      assert e == 2 * (e / 2);
    }
  }

  /** A factor may be reduced first. */
  lemma ModFactor(x: nat, y: nat, m: nat)
    requires m > 0
    ensures ((x % m) * y) % m == (x * y) % m
  {
    var q := x / m;
    assert x == q * m + x % m;
    assert x * y == (x % m) * y + (q * y) * m by {
      assert (q * m) * y == (q * y) * m;
      assert (q * m + x % m) * y == (q * m) * y + (x % m) * y;
    }
    ModShift((x % m) * y, q * y, m);
  }

  lemma {:induction false} ModPow(b: nat, e: nat, m: nat)
    requires m > 0
    ensures Pow(b % m, e) % m == Pow(b, e) % m
  {
    if e > 0 {
      ModPow(b, e - 1, m);
      var p, q := Pow(b % m, e - 1), Pow(b, e - 1);
      ModFactor(b, p, m);
      ModFactor(p, b, m);
      ModFactor(q, b, m);
      assert b * p == p * b && b * q == q * b;
    }
  }

  /** One round of square-and-multiply keeps result times base to the exponent, modulo the modulus. */
  lemma RoundKeeps(result: nat, base: nat, e: nat, m: nat)
    requires m > 0
    ensures var r := if e % 2 == 1 then (result * base) % m else result;
            (r * Pow((base * base) % m, e / 2)) % m == (result * Pow(base, e)) % m
  {
    hide Pow;
    var x := if e % 2 == 1 then result * base else result;
    var r := if e % 2 == 1 then x % m else x;
    var p, q := Pow((base * base) % m, e / 2), Pow(base * base, e / 2);
    ModFactor(x, p, m);
    ModPow(base * base, e / 2, m);
    ModFactor(p, x, m);
    ModFactor(q, x, m);
    PowHalve(base, e);
    Associates(result, if e % 2 == 1 then base else 1, q);
    assert x * p == p * x && x * q == q * x;
  }

  /** bigint_mod_exp(): the power modulo the modulus, except that a zeroth power is left as one. */
  method ModExp(base: nat, m: nat, e: nat, bits: nat) returns (r: nat)
    requires bits > 0 && base < Pow2(bits) && m < Pow2(bits)
    ensures r == if e == 0 then 1 else Pow(base, e) % Effective(m, bits)
  {
    hide Pow2, Pow, Effective;
    Pow2Positive(bits);
    ghost var n: nat := Effective(m, bits);
    var b: nat, exponent: nat := base, e;
    r := 1;
    PowOnce(base, e);
    while exponent != 0
      invariant b < Pow2(bits) && r < Pow2(bits)
      invariant (r * Pow(b, exponent)) % n == Pow(base, e) % n
      invariant exponent == 0 ==> e == 0 || r < n
      invariant e == 0 ==> r == 1
    {
      RoundKeeps(r, b, exponent, n);
      if exponent % 2 == 1 {
        ModBelow(r * b, n);
        r := ModMultiply(r, b, m, bits);
      }
      exponent := Ror(exponent);
      b := ModMultiply(b, b, m, bits);
    }
    PowOnce(b, 0);
    if e != 0 {
      SmallMod(r, n);
    }
  }

  lemma Pow2Positive(bits: nat)
    requires bits > 0
    ensures Pow2(bits) > 1
  {}

  lemma PowOnce(b: nat, e: nat)
    ensures 1 * Pow(b, e) == Pow(b, e) && Pow(b, 0) == 1
  {}

  /** The result is the power modulo the modulus unless the modulus is one and the exponent zero. */
  lemma ExactWhen(base: nat, m: nat, e: nat, bits: nat)
    requires bits > 0
    ensures (if e == 0 then 1 else Pow(base, e) % Effective(m, bits)) == Pow(base, e) % Effective(m, bits)
       <==> !(m == 1 && e == 0)
  {
    Pow2Positive(bits);
    if e == 0 && m != 1 {
      SmallMod(1, Effective(m, bits));
    }
  }
}
