/** The register-shifting form of key wrap in section 2.2.1 of RFC 3394, and that wrapping in place is the same. */
module WrapShift {
  import opened Fips197
  import opened Units
  import opened WrapSpec

  type Half = h: seq<bv8> | |h| == 8 witness [0, 0, 0, 0, 0, 0, 0, 0]

  datatype Shift = Shift(a: Half, r: seq<Half>)

  /** Byte `k` of a 64-bit integer, most significant first. */
  function ByteOf(t: nat, k: nat): bv8
    requires k < 8
  {
    (t / Power256(7 - k) % 256) as bv8
  }

  /** Step `t`: the first block is taken off, and what it encrypts to is XORed with `t` and put at the end. */
  function ShiftStep(E: Block -> Block, s: Shift, t: nat): Shift
    requires s.r != []
  {
    var b := E(s.a + s.r[0]);
    Shift(seq(8, k requires 0 <= k < 8 => b[k] ^ ByteOf(t, k)), s.r[1..] + [b[8..]])
  }

  /** The registers after steps 1 to `t`. */
  ghost function AfterSteps(E: Block -> Block, s: Shift, t: nat): (r: Shift)
    requires s.r != []
    ensures |r.r| == |s.r|
  {
    if t == 0 then s else ShiftStep(E, AfterSteps(E, s, t - 1), t)
  }

  /** The eight-byte blocks after the register. */
  ghost function BlocksOf(d: seq<bv8>, n: nat): (r: seq<Half>)
    requires Registers(d, n)
    ensures |r| == n
  {
    seq(n, k requires 0 <= k < n => d[8 * k + 8..8 * k + 16])
  }

  /** The registers of the shifting form when the next block to be taken is number `i` + 1. */
  ghost function Rotated(d: seq<bv8>, n: nat, i: nat): Shift
    requires Registers(d, n) && i <= n
  {
    Shift(d[..8], BlocksOf(d, n)[i..] + BlocksOf(d, n)[..i])
  }

  lemma {:induction false} BytesAt(t: nat, m: nat, k: nat)
    requires k < m
    ensures Bytes(t, m)[k] == (t / Power256(m - 1 - k) % 256) as bv8
    decreases m
  {
    if k < m - 1 {
      BytesAt(t / 256, m - 1, k);
      Quotients(t, m - 2 - k);
    } else {
      assert Power256(0) == 1;
    }
  }

  lemma Quotients(t: nat, k: nat)
    ensures t / 256 / Power256(k) == t / Power256(k + 1)
  {
    var p := Power256(k);
    var q := t / 256;
    var a, b := q / p, q % p;
    assert q == a * p + b && t == q * 256 + t % 256;
    assert Power256(k + 1) == 256 * p;
    assert q * 256 == a * (256 * p) + b * 256;
    DivUnique(t, 256 * p, a, b * 256 + t % 256);
  }

  lemma StepMask(b: Block, t: nat)
    ensures Xor8(b[..8], Rfc3394()(t)) == seq(8, k requires 0 <= k < 8 => b[k] ^ ByteOf(t, k))
  {
    hide Bytes, Power256;
    forall k | 0 <= k < 8
      ensures Xor8(b[..8], Rfc3394()(t))[k] == b[k] ^ ByteOf(t, k)
    {
      BytesAt(t, 8, k);
    }
  }

  lemma BlocksReplaced(d: seq<bv8>, n: nat, i: nat, a: Half, r: Half)
    requires Registers(d, n) && 1 <= i <= n
    ensures Replace(d, n, i, a, r)[..8] == a && BlocksOf(Replace(d, n, i, a, r), n) == BlocksOf(d, n)[i - 1 := r]
  {
    var e := Replace(d, n, i, a, r);
    forall k | 0 <= k < n
      ensures e[8 * k + 8..8 * k + 16] == BlocksOf(d, n)[i - 1 := r][k]
    {
      ReplacedAt(d, n, i, a, r, k);
    }
  }

  lemma ReplacedAt(d: seq<bv8>, n: nat, i: nat, a: Half, r: Half, k: nat)
    requires Registers(d, n) && 1 <= i <= n && k < n
    ensures Replace(d, n, i, a, r)[8 * k + 8..8 * k + 16] == if k == i - 1 then r else d[8 * k + 8..8 * k + 16]
  {
    var e := Replace(d, n, i, a, r);
    if k < i - 1 {
      assert forall x :: 8 * k + 8 <= x < 8 * k + 16 ==> e[x] == d[x];
    } else if k > i - 1 {
      assert forall x :: 8 * k + 8 <= x < 8 * k + 16 ==> e[x] == d[x];
    }
  }

  lemma Turn(l: seq<Half>, i: nat, r: Half)
    requires 1 <= i <= |l|
    ensures (l[i - 1..] + l[..i - 1])[0] == l[i - 1]
    ensures (l[i - 1..] + l[..i - 1])[1..] + [r] == l[i - 1 := r][i..] + l[i - 1 := r][..i]
  {
    var m := l[i - 1 := r];
    assert (l[i - 1..] + l[..i - 1])[1..] == l[i..] + l[..i - 1];
    assert m[i..] == l[i..] && m[..i] == l[..i - 1] + [r];
  }

  /** One step in place is one step of shifting. */
  lemma StepTurns(E: Block -> Block, d: seq<bv8>, n: nat, i: nat, t: nat)
    requires Registers(d, n) && 1 <= i <= n
    ensures Rotated(d, n, i - 1).r != []
    ensures ShiftStep(E, Rotated(d, n, i - 1), t) == Rotated(WrapStep(E, Rfc3394()(t), d, n, i), n, i)
  {
    hide Xor8, Replace, Bytes, ByteOf;
    var l := BlocksOf(d, n);
    assert l[i - 1] == d[8 * (i - 1) + 8..8 * (i - 1) + 16] == d[8 * i..8 * i + 8];
    var b := E(Pair(d, n, i));
    StepMask(b, t);
    BlocksReplaced(d, n, i, Xor8(b[..8], Rfc3394()(t)), b[8..]);
    Turn(l, i, b[8..]);
  }

  /** Wrapping in place follows the shifting registers, which have come round after each pass. */
  lemma {:induction false} WrapShifts(E: Block -> Block, d: seq<bv8>, n: nat, j: nat, i: nat)
    requires Registers(d, n) && i <= n && n > 0
    ensures Rotated(d, n, 0).r != []
    ensures AfterSteps(E, Rotated(d, n, 0), n * j + i) == Rotated(Wrapped(E, Rfc3394(), d, n, j, i), n, i)
    decreases j, i
  {
    hide WrapStep, ShiftStep, Rfc3394, Rotated;
    RotatedSize(d, n, 0);
    if i > 0 {
      WrapShifts(E, d, n, j, i - 1);
      StepTurns(E, Wrapped(E, Rfc3394(), d, n, j, i - 1), n, i, n * j + i);
    } else if j > 0 {
      WrapShifts(E, d, n, j - 1, n);
      assert n * (j - 1) + n == n * j + 0;
      AllRound(Wrapped(E, Rfc3394(), d, n, j - 1, n), n);
    }
  }

  lemma RotatedSize(d: seq<bv8>, n: nat, i: nat)
    requires Registers(d, n) && i <= n
    ensures |Rotated(d, n, i).r| == n
  {}

  lemma AllRound(d: seq<bv8>, n: nat)
    requires Registers(d, n)
    ensures Rotated(d, n, n) == Rotated(d, n, 0)
  {
    var l := BlocksOf(d, n);
    assert l[n..] + l[..n] == l[0..] + l[..0];
  }
}
