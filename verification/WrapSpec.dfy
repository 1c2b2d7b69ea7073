/** The key wrap algorithm of sections 2.2.1 and 2.2.2 of RFC 3394, over any block cipher. */
module WrapSpec {
  import opened Gf256
  import opened Fips197
  import opened Units

  /** Eight bytes of integrity register followed by `n` eight-byte blocks. */
  predicate Registers(d: seq<bv8>, n: nat) {
    |d| == 8 * (n + 1)
  }

  function Xor8(a: seq<bv8>, b: seq<bv8>): (r: seq<bv8>)
    requires |a| == |b| == 8
    ensures |r| == 8
  {
    seq(8, k requires 0 <= k < 8 => Add(a[k], b[k]))
  }

  /** The value XORed into the register at step `t`, on eight bytes. */
  type Mask = nat -> seq<bv8>

  ghost predicate IsMask(x: Mask) {
    forall t :: |x(t)| == 8
  }

  /** The register and block `i`, as one cipher block. */
  function Pair(d: seq<bv8>, n: nat, i: nat): (b: Block)
    requires Registers(d, n) && 1 <= i <= n
  {
    d[..8] + d[8 * i..8 * i + 8]
  }

  function Replace(d: seq<bv8>, n: nat, i: nat, a: seq<bv8>, r: seq<bv8>): (d': seq<bv8>)
    requires Registers(d, n) && 1 <= i <= n && |a| == |r| == 8
    ensures Registers(d', n)
  {
    a + d[8..8 * i] + r + d[8 * i + 8..]
  }

  function WrapStep(E: Block -> Block, x: seq<bv8>, d: seq<bv8>, n: nat, i: nat): (d': seq<bv8>)
    requires Registers(d, n) && 1 <= i <= n && |x| == 8
    ensures Registers(d', n)
  {
    var b := E(Pair(d, n, i));
    Replace(d, n, i, Xor8(b[..8], x), b[8..])
  }

  function UnwrapStep(D: Block -> Block, x: seq<bv8>, d: seq<bv8>, n: nat, i: nat): (d': seq<bv8>)
    requires Registers(d, n) && 1 <= i <= n && |x| == 8
    ensures Registers(d', n)
  {
    var b := D(Xor8(d[..8], x) + d[8 * i..8 * i + 8]);
    Replace(d, n, i, b[..8], b[8..])
  }

  /** The registers after `j` whole passes and `i` more steps of wrapping. */
  ghost function Wrapped(E: Block -> Block, x: Mask, d: seq<bv8>, n: nat, j: nat, i: nat): (d': seq<bv8>)
    requires Registers(d, n) && i <= n && IsMask(x)
    ensures Registers(d', n)
    decreases j, i
  {
    if i > 0 then WrapStep(E, x(n * j + i), Wrapped(E, x, d, n, j, i - 1), n, i)
    else if j > 0 then Wrapped(E, x, d, n, j - 1, n)
    else d
  }

  /** The registers after the same steps are undone, last to first. */
  ghost function Unwrapped(D: Block -> Block, x: Mask, d: seq<bv8>, n: nat, j: nat, i: nat): (d': seq<bv8>)
    requires Registers(d, n) && i <= n && IsMask(x)
    ensures Registers(d', n)
    decreases j, i
  {
    if i > 0 then Unwrapped(D, x, UnwrapStep(D, x(n * j + i), d, n, i), n, j, i - 1)
    else if j > 0 then Unwrapped(D, x, d, n, j - 1, n)
    else d
  }

  // ----- Each step has an inverse

  ghost predicate Inverts(F: Block -> Block, G: Block -> Block) {
    forall b :: F(G(b)) == b
  }

  lemma Xor8Twice(a: seq<bv8>, x: seq<bv8>)
    requires |a| == |x| == 8
    ensures Xor8(Xor8(a, x), x) == a
  {
    hide Add;
    forall k | 0 <= k < 8
      ensures Xor8(Xor8(a, x), x)[k] == a[k]
    {
      AddAssoc(a[k], x[k], x[k]);
      AddSelf(x[k]);
      AddZero(a[k]);
    }
  }

  lemma ReplaceParts(d: seq<bv8>, n: nat, i: nat, a: seq<bv8>, r: seq<bv8>)
    requires Registers(d, n) && 1 <= i <= n && |a| == |r| == 8
    ensures var d' := Replace(d, n, i, a, r);
            d'[..8] == a && d'[8 * i..8 * i + 8] == r && d'[8..8 * i] == d[8..8 * i] &&
              d'[8 * i + 8..] == d[8 * i + 8..]
  {}

  lemma ReplaceSame(d: seq<bv8>, n: nat, i: nat)
    requires Registers(d, n) && 1 <= i <= n
    ensures Replace(d, n, i, d[..8], d[8 * i..8 * i + 8]) == d
  {}

  lemma Halves(b: Block)
    ensures b[..8] + b[8..] == b
  {}

  lemma UnwrapWrapStep(E: Block -> Block, D: Block -> Block, x: seq<bv8>, d: seq<bv8>, n: nat, i: nat)
    requires Registers(d, n) && 1 <= i <= n && |x| == 8 && Inverts(D, E)
    ensures UnwrapStep(D, x, WrapStep(E, x, d, n, i), n, i) == d
  {
    hide Xor8;
    var p := Pair(d, n, i);
    var b := E(p);
    ReplaceParts(d, n, i, Xor8(b[..8], x), b[8..]);
    Xor8Twice(b[..8], x);
    Halves(b);
    assert D(b) == p && p[..8] == d[..8] && p[8..] == d[8 * i..8 * i + 8];
    ReplaceTwice(d, n, i, Xor8(b[..8], x), b[8..], p[..8], p[8..]);
    ReplaceSame(d, n, i);
  }

  lemma ReplaceTwice(d: seq<bv8>, n: nat, i: nat, a: seq<bv8>, r: seq<bv8>, a': seq<bv8>, r': seq<bv8>)
    requires Registers(d, n) && 1 <= i <= n && |a| == |r| == |a'| == |r'| == 8
    ensures Replace(Replace(d, n, i, a, r), n, i, a', r') == Replace(d, n, i, a', r')
  {
    ReplaceParts(d, n, i, a, r);
  }

  lemma WrapUnwrapStep(E: Block -> Block, D: Block -> Block, x: seq<bv8>, d: seq<bv8>, n: nat, i: nat)
    requires Registers(d, n) && 1 <= i <= n && |x| == 8 && Inverts(E, D)
    ensures WrapStep(E, x, UnwrapStep(D, x, d, n, i), n, i) == d
  {
    hide Xor8;
    var p := Xor8(d[..8], x) + d[8 * i..8 * i + 8];
    var b := D(p);
    ReplaceParts(d, n, i, b[..8], b[8..]);
    Halves(b);
    assert E(b) == p && p[..8] == Xor8(d[..8], x) && p[8..] == d[8 * i..8 * i + 8];
    Xor8Twice(d[..8], x);
    ReplaceTwice(d, n, i, b[..8], b[8..], d[..8], d[8 * i..8 * i + 8]);
    ReplaceSame(d, n, i);
  }

  /** Unwrapping undoes wrapping, whatever the masks. */
  lemma {:induction false} UnwrapWrapped(E: Block -> Block, D: Block -> Block, x: Mask, d: seq<bv8>, n: nat, j: nat,
                                         i: nat)
    requires Registers(d, n) && i <= n && IsMask(x) && Inverts(D, E)
    ensures Unwrapped(D, x, Wrapped(E, x, d, n, j, i), n, j, i) == d
    decreases j, i
  {
    hide WrapStep, UnwrapStep, Registers;
    if i > 0 {
      UnwrapWrapStep(E, D, x(n * j + i), Wrapped(E, x, d, n, j, i - 1), n, i);
      UnwrapWrapped(E, D, x, d, n, j, i - 1);
    } else if j > 0 {
      UnwrapWrapped(E, D, x, d, n, j - 1, n);
    }
  }

  /** Wrapping undoes unwrapping. */
  lemma {:induction false} WrapUnwrapped(E: Block -> Block, D: Block -> Block, x: Mask, d: seq<bv8>, n: nat, j: nat,
                                         i: nat)
    requires Registers(d, n) && i <= n && IsMask(x) && Inverts(E, D)
    ensures Wrapped(E, x, Unwrapped(D, x, d, n, j, i), n, j, i) == d
    decreases j, i
  {
    hide WrapStep, UnwrapStep, Registers;
    if i > 0 {
      var u := UnwrapStep(D, x(n * j + i), d, n, i);
      WrapUnwrapped(E, D, x, u, n, j, i - 1);
      WrapUnwrapStep(E, D, x(n * j + i), d, n, i);
    } else if j > 0 {
      WrapUnwrapped(E, D, x, d, n, j - 1, n);
    }
  }

  // ----- Masks

  function Low(t: nat): bv8 {
    (t % 256) as bv8
  }

  /** A number as `k` bytes, most significant first. */
  function Bytes(t: nat, k: nat): (r: seq<bv8>)
    ensures |r| == k
    decreases k
  {
    if k == 0 then [] else Bytes(t / 256, k - 1) + [Low(t)]
  }

  /** The step number as the standard takes it: a 64-bit integer. */
  ghost function Rfc3394(): (x: Mask)
    ensures IsMask(x)
  {
    (t: nat) => Bytes(t, 8)
  }

  /** The step number truncated to one byte, XORed into the last byte of the register. */
  ghost function LastByte(): (x: Mask)
    ensures IsMask(x)
  {
    (t: nat) => [0, 0, 0, 0, 0, 0, 0, Low(t)]
  }

  lemma BytesZero(k: nat)
    ensures forall i :: 0 <= i < k ==> Bytes(0, k)[i] == 0
  {
    if k > 0 {
      BytesZero(k - 1);
    }
  }

  lemma SevenZeroes()
    ensures Bytes(0, 7) == [0, 0, 0, 0, 0, 0, 0]
  {
    hide Low, Bytes;
    BytesZero(7);
  }

  lemma BytesSplit(t: nat)
    ensures Bytes(t, 8) == Bytes(t / 256, 7) + [Low(t)]
  {
    hide Low;
  }

  lemma MasksAgree(t: nat)
    requires t < 256
    ensures Rfc3394()(t) == LastByte()(t)
  {
    hide Low, Bytes;
    SevenZeroes();
    BytesSplit(t);
  }

  /** While the step numbers fit in a byte, the result is that of RFC 3394, for every cipher. */
  lemma {:induction false} WrapIsRfc3394(E: Block -> Block, d: seq<bv8>, n: nat, j: nat, i: nat)
    requires Registers(d, n) && i <= n && n * j + i < 256
    ensures Wrapped(E, LastByte(), d, n, j, i) == Wrapped(E, Rfc3394(), d, n, j, i)
    decreases j, i
  {
    hide WrapStep, Registers, Rfc3394, LastByte, IsMask;
    if i > 0 {
      MasksAgree(n * j + i);
      WrapIsRfc3394(E, d, n, j, i - 1);
    } else if j > 0 {
      PassEnd(n, j);
      WrapIsRfc3394(E, d, n, j - 1, n);
    }
  }

  lemma {:induction false} UnwrapIsRfc3394(D: Block -> Block, d: seq<bv8>, n: nat, j: nat, i: nat)
    requires Registers(d, n) && i <= n && n * j + i < 256
    ensures Unwrapped(D, LastByte(), d, n, j, i) == Unwrapped(D, Rfc3394(), d, n, j, i)
    decreases j, i
  {
    hide UnwrapStep, Registers, Rfc3394, LastByte;
    if i > 0 {
      MasksAgree(n * j + i);
      UnwrapIsRfc3394(D, UnwrapStep(D, LastByte()(n * j + i), d, n, i), n, j, i - 1);
    } else if j > 0 {
      PassEnd(n, j);
      UnwrapIsRfc3394(D, d, n, j - 1, n);
    }
  }

  // ----- Beyond that the identity cipher already tells the two apart

  /** The part of the step number that does not fit in the last byte. */
  ghost function High(t: nat): (r: seq<bv8>)
    ensures |r| == 8
  {
    Bytes(t / 256, 7) + [0]
  }

  /** What the high parts of steps 1 to `t` XOR to: those of an odd number of steps with the same high part. */
  ghost function Excess(t: nat): (r: seq<bv8>)
    ensures |r| == 8
  {
    if t % 2 == 0 then High(t) else [0, 0, 0, 0, 0, 0, 0, 0]
  }

  lemma MaskSplit(t: nat)
    ensures Rfc3394()(t) == Xor8(LastByte()(t), High(t))
  {
    hide Low, Bytes, Xor8;
    BytesSplit(t);
    XorZeroes(Bytes(t / 256, 7), Low(t));
  }

  lemma XorZeroes(h: seq<bv8>, l: bv8)
    requires |h| == 7
    ensures h + [l] == Xor8([0, 0, 0, 0, 0, 0, 0, l], h + [0])
  {
    hide Add;
    forall k | 0 <= k < 8
      ensures (h + [l])[k] == Xor8([0, 0, 0, 0, 0, 0, 0, l], h + [0])[k]
    {
      if k < 7 {
        AddComm(0, h[k]);
        AddZero(h[k]);
      } else {
        AddZero(l);
      }
    }
  }

  lemma Xor8Zero(a: seq<bv8>)
    requires |a| == 8
    ensures Xor8(a, a) == [0, 0, 0, 0, 0, 0, 0, 0]
    ensures Xor8([0, 0, 0, 0, 0, 0, 0, 0], a) == a && Xor8(a, [0, 0, 0, 0, 0, 0, 0, 0]) == a
  {
    hide Add;
    var z: seq<bv8> := [0, 0, 0, 0, 0, 0, 0, 0];
    forall k | 0 <= k < 8
      ensures Xor8(a, a)[k] == 0 && Xor8(z, a)[k] == a[k] && Xor8(a, z)[k] == a[k]
    {
      AddSelf(a[k]);
      AddComm(0, a[k]);
      AddZero(a[k]);
    }
  }

  lemma ExcessStep(t: nat)
    ensures Xor8(Excess(t), High(t + 1)) == Excess(t + 1)
  {
    hide Bytes, Xor8;
    Xor8Zero(High(t + 1));
    EvenThenOdd(t);
  }

  lemma EvenThenOdd(t: nat)
    ensures t % 2 == 0 ==> (t + 1) / 256 == t / 256
    ensures (t + 1) % 2 == 1 - t % 2
  {
    OtherParity(t);
    if t % 2 == 0 {
      SameBlock(t, t / 256, t % 256);
    }
  }

  lemma OtherParity(t: nat)
    ensures (t + 1) % 2 == 1 - t % 2
  {}

  lemma SameBlock(t: nat, q: nat, r: nat)
    requires t % 2 == 0 && t == q * 256 + r && r < 256
    ensures (t + 1) / 256 == q
  {
    EvenInBlock(q, r);
    DivUnique(t + 1, 256, q, r + 1);
  }

  lemma EvenInBlock(q: nat, r: nat)
    requires r < 256 && (q * 256 + r) % 2 == 0
    ensures r < 255
  {
    ModShift(r, 128 * q, 2);
    assert r + (128 * q) * 2 == q * 256 + r;
  }

  lemma Xor8Interchange(a: seq<bv8>, b: seq<bv8>, c: seq<bv8>, d: seq<bv8>)
    requires |a| == |b| == |c| == |d| == 8
    ensures Xor8(Xor8(a, b), Xor8(c, d)) == Xor8(Xor8(a, c), Xor8(b, d))
  {
    hide Add;
    forall k | 0 <= k < 8
      ensures Xor8(Xor8(a, b), Xor8(c, d))[k] == Xor8(Xor8(a, c), Xor8(b, d))[k]
    {
      AddInterchange(a[k], b[k], c[k], d[k]);
    }
  }

  ghost function Identity(): Block -> Block {
    (b: Block) => b
  }

  lemma IdentityStep(x: seq<bv8>, d: seq<bv8>, n: nat, i: nat)
    requires Registers(d, n) && 1 <= i <= n && |x| == 8
    ensures WrapStep(Identity(), x, d, n, i)[..8] == Xor8(d[..8], x)
  {
    hide Xor8;
    var p := Pair(d, n, i);
    assert Identity()(p) == p && p[..8] == d[..8];
    ReplaceParts(d, n, i, Xor8(d[..8], x), p[8..]);
  }

  lemma IdentityStepExcess(r: seq<bv8>, c: seq<bv8>, n: nat, i: nat, t: nat)
    requires Registers(r, n) && Registers(c, n) && 1 <= i <= n && t > 0
    requires r[..8] == Xor8(c[..8], Excess(t - 1))
    ensures WrapStep(Identity(), Rfc3394()(t), r, n, i)[..8]
         == Xor8(WrapStep(Identity(), LastByte()(t), c, n, i)[..8], Excess(t))
  {
    hide WrapStep, Rfc3394, LastByte, Xor8, Excess, High, Identity;
    IdentityStep(Rfc3394()(t), r, n, i);
    IdentityStep(LastByte()(t), c, n, i);
    MaskSplit(t);
    Xor8Interchange(c[..8], Excess(t - 1), LastByte()(t), High(t));
    ExcessStep(t - 1);
  }

  /** The register under the standard's masks and under the truncated ones differ by the excess. */
  lemma {:induction false} IdentityExcess(d: seq<bv8>, n: nat, j: nat, i: nat)
    requires Registers(d, n) && i <= n
    ensures Wrapped(Identity(), Rfc3394(), d, n, j, i)[..8]
         == Xor8(Wrapped(Identity(), LastByte(), d, n, j, i)[..8], Excess(n * j + i))
    decreases j, i
  {
    hide WrapStep, Rfc3394, LastByte, Xor8, Excess, Identity;
    if i > 0 {
      IdentityExcess(d, n, j, i - 1);
      assert n * j + i - 1 == n * j + (i - 1);
      IdentityStepExcess(Wrapped(Identity(), Rfc3394(), d, n, j, i - 1),
                         Wrapped(Identity(), LastByte(), d, n, j, i - 1),
                         n, i, n * j + i);
    } else if j > 0 {
      PassEnd(n, j);
      IdentityExcess(d, n, j - 1, n);
    } else {
      ExcessStart(d[..8]);
    }
  }

  lemma PassEnd(n: nat, j: nat)
    requires j > 0
    ensures n * (j - 1) + n == n * j + 0
  {}

  lemma ExcessStart(a: seq<bv8>)
    requires |a| == 8
    ensures Xor8(a, Excess(0)) == a
  {
    hide Bytes, Xor8;
    SevenZeroes();
    assert Excess(0) == [0, 0, 0, 0, 0, 0, 0, 0];
    Xor8Zero(a);
  }

  lemma {:induction false} BytesNonzero(t: nat, k: nat)
    requires 0 < t < Power256(k)
    ensures exists i :: 0 <= i < k && Bytes(t, k)[i] != 0
  {
    if t % 256 != 0 {
      assert Bytes(t, k)[k - 1] == Low(t);
      LowNonzero(t);
    } else {
      BytesNonzero(t / 256, k - 1);
      var i :| 0 <= i < k - 1 && Bytes(t / 256, k - 1)[i] != 0;
      assert Bytes(t, k)[i] != 0;
    }
  }

  lemma LowNonzero(t: nat)
    requires t % 256 != 0
    ensures Low(t) != 0
  {}

  /** XOR with something that is not zero changes a register. */
  lemma Xor8Changes(a: seq<bv8>, x: seq<bv8>, i: nat)
    requires |a| == |x| == 8 && i < 8 && x[i] != 0
    ensures Xor8(a, x) != a
  {
    hide Add;
    if Add(a[i], x[i]) == a[i] {
      AddAssoc(a[i], a[i], x[i]);
      AddSelf(a[i]);
      AddZero(x[i]);
    }
    assert Xor8(a, x)[i] != a[i];
  }

  lemma HighNonzero(t: nat)
    requires 256 <= t < Power256(8)
    ensures exists i :: 0 <= i < 8 && High(t)[i] != 0
  {
    hide Bytes, Power256;
    EightIsSevenMore(t);
    BytesNonzero(t / 256, 7);
    var i :| 0 <= i < 7 && Bytes(t / 256, 7)[i] != 0;
    assert High(t)[i] != 0;
  }

  lemma EightIsSevenMore(t: nat)
    requires 256 <= t < Power256(8)
    ensures 0 < t / 256 < Power256(7)
  {}

  lemma EvenExcess(n: nat)
    ensures n * 6 + 0 == 6 * n && Excess(6 * n) == High(6 * n)
  {
    hide High;
    Even(3 * n);
  }

  lemma Even(k: nat)
    ensures (2 * k) % 2 == 0
  {}

  /** Once 6n needs more than one byte, the identity cipher gives another result than RFC 3394 on every input. */
  lemma IdentityDiffers(d: seq<bv8>, n: nat)
    requires Registers(d, n) && 256 <= 6 * n < Power256(8)
    ensures Wrapped(Identity(), LastByte(), d, n, 6, 0) != Wrapped(Identity(), Rfc3394(), d, n, 6, 0)
  {
    hide Wrapped, Rfc3394, LastByte, Xor8, Identity, Bytes, Power256, High, Excess;
    IdentityExcess(d, n, 6, 0);
    HighNonzero(6 * n);
    EvenExcess(n);
    var i :| 0 <= i < 8 && High(6 * n)[i] != 0;
    Xor8Changes(Wrapped(Identity(), LastByte(), d, n, 6, 0)[..8], Excess(6 * n), i);
  }
}
