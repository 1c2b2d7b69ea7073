/** Rounding to whole units and physical alignment, as src/core/malloc.c does them with masks. */
module Units {

  predicate IsPowerOfTwo(n: nat) {
    n == 1 || (n > 1 && n % 2 == 0 && IsPowerOfTwo(n / 2))
  }

  lemma OneIsPower()
    ensures IsPowerOfTwo(1)
  {}

  function Pow2(k: nat): (p: nat)
    ensures p > 0
  {
    if k == 0 then 1 else 2 * Pow2(k - 1)
  }

  /** One more than the position of the highest set bit; zero if none is set. */
  function Fls(n: nat): nat {
    if n == 0 then 0 else 1 + Fls(n / 2)
  }

  lemma {:induction false} Pow2IsPower(k: nat)
    ensures Pow2(k) > 0 && IsPowerOfTwo(Pow2(k))
  {
    hide IsPowerOfTwo;
    if k > 0 {
      Pow2IsPower(k - 1);
      DoublePower(Pow2(k - 1));
    } else {
      OneIsPower();
    }
  }

  lemma DoublePower(p: nat)
    requires p > 0 && IsPowerOfTwo(p)
    ensures IsPowerOfTwo(2 * p)
  {
    assert (2 * p) / 2 == p && (2 * p) % 2 == 0;
  }

  lemma {:induction false} FlsBounds(n: nat)
    ensures n < Pow2(Fls(n))
    ensures n > 0 ==> Pow2(Fls(n)) <= 2 * n
  {
    if n > 0 {
      FlsBounds(n / 2);
    }
  }

  lemma {:induction false} Pow2Below(a: nat, b: nat)
    requires a < b
    ensures 2 * Pow2(a) <= Pow2(b)
  {
    if a + 1 < b {
      Pow2Below(a, b - 1);
    }
  }

  lemma {:induction false} Pow2Monotonic(a: nat, b: nat)
    requires a <= b
    ensures Pow2(a) <= Pow2(b)
  {
    if a < b {
      Pow2Below(a, b);
    }
  }

  type Byte = b: int | 0 <= b < 256

  /** The number that a sequence of bytes stands for, most significant first. */
  function Unsigned(data: seq<Byte>): nat {
    if data == [] then 0 else Unsigned(data[..|data| - 1]) * 256 + data[|data| - 1]
  }

  /** Leading bytes count for as many powers of 256 as bytes follow. */
  lemma {:induction false} UnsignedAppend(a: seq<Byte>, b: seq<Byte>)
    ensures Unsigned(a + b) == Unsigned(a) * Power256(|b|) + Unsigned(b)
    decreases b
  {
    if b == [] {
      assert a + b == a;
    } else {
      var c := b[..|b| - 1];
      assert (a + b)[..|a + b| - 1] == a + c;
      UnsignedAppend(a, c);
      assert Power256(|b|) == 256 * Power256(|c|);
      assert Unsigned(a) * Power256(|c|) * 256 == Unsigned(a) * Power256(|b|);
    }
  }

  function Power256(k: nat): (p: nat)
    ensures p > 0
  {
    if k == 0 then 1 else 256 * Power256(k - 1)
  }

  lemma {:induction false} Power256Monotonic(j: nat, k: nat)
    requires j <= k
    ensures Power256(j) <= Power256(k)
  {
    if j < k {
      Power256Monotonic(j, k - 1);
    }
  }

  lemma {:induction false} MultipleMod(q: nat, u: nat)
    requires u > 0
    ensures (q * u) % u == 0
  {
    if q > 0 {
      MultipleMod(q - 1, u);
      assert q * u == (q - 1) * u + u;
      ModPlus((q - 1) * u, u);
    }
  }

  lemma ModPlus(x: int, u: nat)
    requires u > 0
    ensures (x + u) % u == x % u
  {
    var q, r := x / u, x % u;
    assert x + u == (q + 1) * u + r;
    DivModUnique(x + u, u, q + 1, r);
  }

  lemma DivModUnique(x: int, u: nat, q: int, r: nat)
    requires u > 0 && x == q * u + r && r < u
    ensures x % u == r
  {
    var d := q - x / u;
    assert d * u == x % u - r;
    SmallMultiple(d, u);
  }

  lemma DivUnique(x: int, u: int, q: int, r: int)
    requires u > 0 && x == q * u + r && 0 <= r < u
    ensures x / u == q
  {
    var d := q - x / u;
    assert d * u == x % u - r;
    SmallMultiple(d, u);
  }

  lemma SmallMultiple(d: int, u: int)
    requires -u < d * u < u
    ensures d == 0
  {}

  lemma ModShift(x: int, k: int, u: nat)
    requires u > 0
    ensures (x + k * u) % u == x % u
  {
    var q, r := x / u, x % u;
    assert x + k * u == (q + k) * u + r;
    DivModUnique(x + k * u, u, q + k, r);
  }

  /** Skipping (o - x) mod g bytes from x lands on o, modulo g. */
  lemma Lands(o: int, x: int, g: nat)
    requires g > 0
    ensures (x + (o - x) % g) % g == o % g
  {
    var k := (o - x) / g;
    assert x + (o - x) % g == o + (-k) * g;
    ModShift(o, -k, g);
  }

  lemma {:induction false} PowerDivides(a: nat, b: nat) returns (k: nat)
    requires IsPowerOfTwo(a) && IsPowerOfTwo(b) && a <= b
    ensures b == k * a
  {
    if a == 1 {
      k := b;
    } else {
      k := PowerDivides(a / 2, b / 2);
      assert b == 2 * (k * (a / 2)) == k * a;
    }
  }

  /** Congruence modulo a multiple of `a` is congruence modulo `a`. */
  lemma ModDivisor(x: int, y: int, a: nat, k: nat)
    requires a > 0 && k > 0 && x % (k * a) == y % (k * a)
    ensures x % a == y % a
  {
    var g := k * a;
    var q, p := x / g, y / g;
    assert x == x % g + q * g && y == y % g + p * g;
    assert q * g == (q * k) * a && p * g == (p * k) * a;
    ModShift(x % g, q * k, a);
    ModShift(y % g, p * k, a);
  }

  lemma SmallMod(x: nat, u: nat)
    requires x < u
    ensures x % u == x
  {
    DivModUnique(x, u, 0, x);
  }

  lemma WholeUnits(x: nat, u: nat)
    requires u > 0
    ensures (x - x % u) % u == 0 && x % u < u && x - x % u >= 0
  {
    assert x - x % u == (x / u) * u;
    MultipleMod(x / u, u);
  }

  lemma AtLeastOneUnit(x: nat, u: nat)
    requires 0 < u <= x
    ensures x - x % u >= u
  {
    if x - x % u < u {
      assert x - x % u == (x / u) * u;
      SmallMultiple(x / u, u);
    }
  }

  /** A sum rounded down to whole units, taken modulo `limit`. */
  function Rounded(size: nat, unit: nat, limit: nat): nat
    requires unit > 0 && limit > 0
  {
    var sum := (size + unit - 1) % limit;
    sum - sum % unit
  }

  lemma RoundingFacts(size: nat, unit: nat, limit: nat)
    requires 0 < unit <= limit && size < limit
    ensures Rounded(size, unit, limit) == 0 <==> size == 0 || size + unit - 1 >= limit
    ensures Rounded(size, unit, limit) != 0 ==> size <= Rounded(size, unit, limit) < size + unit
    ensures Rounded(size, unit, limit) % unit == 0
  {
    var sum := size + unit - 1;
    if sum < limit {
      SmallMod(sum, limit);
      WholeUnits(sum, unit);
      if size == 0 {
        SmallMod(sum, unit);
      }
    } else {
      DivModUnique(sum, limit, 1, sum - limit);
      WholeUnits(sum - limit, unit);
      SmallMod(sum - limit, unit);
    }
  }

  /** The distance from `x` up to the next address congruent to `o`, modulo the larger of the two powers of two. */
  function Skip(o: nat, x: int, unit: nat, align: nat): nat
    requires unit > 0
  {
    (o - x) % (if align > unit then align else unit)
  }

  lemma LandsAligned(o: nat, x: int, unit: nat, align: nat)
    requires unit > 0 && IsPowerOfTwo(unit) && IsPowerOfTwo(align) && align > 0
    ensures (x + Skip(o, x, unit, align)) % align == o % align
    ensures (x + Skip(o, x, unit, align)) % unit == o % unit
  {
    hide IsPowerOfTwo;
    var g := if align > unit then align else unit;
    Lands(o, x, g);
    var p := x + (o - x) % g;
    if align > unit {
      var k := PowerDivides(unit, align);
      ModDivisor(p, o, unit, k);
    } else {
      var k := PowerDivides(align, unit);
      ModDivisor(p, o, align, k);
    }
  }

  /** No address from `x` on that has both remainders comes earlier. */
  lemma SkipLeast(o: nat, x: int, unit: nat, align: nat, y: int)
    requires unit > 0 && align > 0 && x <= y && y % align == o % align && y % unit == o % unit
    ensures x + Skip(o, x, unit, align) <= y
  {
    if align > unit {
      NextIsLeast(o, x, align, y);
    } else {
      NextIsLeast(o, x, unit, y);
    }
  }

  lemma NextIsLeast(o: int, x: int, g: nat, y: int)
    requires g > 0 && x <= y && y % g == o % g
    ensures (o - x) % g <= y - x
  {
    var d := y - x;
    var q := y / g - o / g;
    assert y == (y / g) * g + y % g && o == (o / g) * g + o % g;
    assert (y / g) * g - (o / g) * g == q * g;
    assert o - x == d + (-q) * g;
    ModShift(d, -q, g);
    ModAtMost(d, g);
  }

  lemma ModAtMost(d: nat, g: nat)
    requires g > 0
    ensures d % g <= d
  {}

  /** Shifting in a byte, modulo the word, follows the number that the word stands for. */
  lemma ShiftIn(w: nat, v: int, b: Byte, m: nat)
    requires m > 0 && w == v % m
    ensures (w * 256 + b) % m == (v * 256 + b) % m
  {
    var q := v / m;
    assert v == q * m + w;
    assert v * 256 + b == w * 256 + b + (q * 256) * m;
    ModShift(w * 256 + b, q * 256, m);
  }
}
