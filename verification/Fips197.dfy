/** The cipher of FIPS 197, as the standard states it: the reference for the table-driven form. */
module Fips197 {
  import opened Gf256

  /** The State, stored column by column: row `r` of column `c` is byte `r + 4 * c`. */
  type Block = s: seq<bv8> | |s| == 16 witness seq(16, _ => 0)

  type Word = w: seq<bv8> | |w| == 4 witness [0, 0, 0, 0]

  // ----- Byte substitution

  /** Bit `i` of the result is bit `(i - k) mod 8` of `b`. */
  function RotateLeft(b: bv8, k: nat): bv8
    requires 0 < k < 8
  {
    (b << k) | (b >> (8 - k))
  }

  /**
   * Equation 5.1 of section 5.1.1: bit `i` is the sum of bits `i`, `i + 4`, `i + 5`, `i + 6` and
   * `i + 7` (mod 8) of `b` and bit `i` of {63}.
   */
  function Affine(b: bv8): bv8 {
    b ^ RotateLeft(b, 4) ^ RotateLeft(b, 3) ^ RotateLeft(b, 2) ^ RotateLeft(b, 1) ^ 0x63
  }

  function InvAffine(b: bv8): bv8 {
    RotateLeft(b, 6) ^ RotateLeft(b, 3) ^ RotateLeft(b, 1) ^ 0x05
  }

  ghost function SBox(b: bv8): bv8 {
    Affine(Inverse(b))
  }

  ghost function InvSBox(b: bv8): bv8 {
    Inverse(InvAffine(b))
  }

  lemma InvAffineAffine(b: bv8)
    ensures InvAffine(Affine(b)) == b
  {}

  lemma AffineInvAffine(b: bv8)
    ensures Affine(InvAffine(b)) == b
  {}

  lemma SBoxInverse(b: bv8)
    ensures InvSBox(SBox(b)) == b
    ensures SBox(InvSBox(b)) == b
  {
    hide Affine, InvAffine, Inverse;
    InvAffineAffine(Inverse(b));
    AffineInvAffine(b);
    InverseInvolution(b);
    InverseInvolution(InvAffine(b));
  }

  // ----- The four transformations and their inverses

  ghost function SubBytes(s: Block): Block {
    seq(16, i requires 0 <= i < 16 => SBox(s[i]))
  }

  ghost function InvSubBytes(s: Block): Block {
    seq(16, i requires 0 <= i < 16 => InvSBox(s[i]))
  }

  /** The index, cyclically `k` times its row number further on, of the byte that is moved to index `i`. */
  function Shifted(i: int, k: int): (j: int)
    requires 0 <= i < 16
    ensures 0 <= j < 16
  {
    (i + k * (i % 4)) % 16
  }

  /** Row `r` moves left by `r` columns of four bytes. */
  function ShiftRows(s: Block): Block {
    seq(16, i requires 0 <= i < 16 => s[Shifted(i, 4)])
  }

  /** Row `r` moves right by `r` columns of four bytes. */
  function InvShiftRows(s: Block): Block {
    seq(16, i requires 0 <= i < 16 => s[Shifted(i, -4)])
  }

  function Sum4(a: bv8, b: bv8, c: bv8, d: bv8): bv8 {
    Add(Add(a, b), Add(c, d))
  }

  /** The row (p, q, r, s) times the column (a, b, c, d). */
  ghost function Dot(p: bv8, q: bv8, r: bv8, s: bv8, a: bv8, b: bv8, c: bv8, d: bv8): bv8 {
    Sum4(Mul(p, a), Mul(q, b), Mul(r, c), Mul(s, d))
  }

  /** Row `r` of equation 5.6 of section 5.1.3. */
  ghost function MixRow(r: int, a: bv8, b: bv8, c: bv8, d: bv8): bv8 {
    if r == 0 then Dot(2, 3, 1, 1, a, b, c, d)
    else if r == 1 then Dot(1, 2, 3, 1, a, b, c, d)
    else if r == 2 then Dot(1, 1, 2, 3, a, b, c, d)
    else Dot(3, 1, 1, 2, a, b, c, d)
  }

  /** Row `r` of equation 5.10 of section 5.3.3. */
  ghost function InvMixRow(r: int, a: bv8, b: bv8, c: bv8, d: bv8): bv8 {
    if r == 0 then Dot(14, 11, 13, 9, a, b, c, d)
    else if r == 1 then Dot(9, 14, 11, 13, a, b, c, d)
    else if r == 2 then Dot(13, 9, 14, 11, a, b, c, d)
    else Dot(11, 13, 9, 14, a, b, c, d)
  }

  ghost function MixColumns(s: Block): Block {
    seq(16, i requires 0 <= i < 16 => var c := i - i % 4; MixRow(i % 4, s[c], s[c + 1], s[c + 2], s[c + 3]))
  }

  ghost function InvMixColumns(s: Block): Block {
    seq(16, i requires 0 <= i < 16 => var c := i - i % 4; InvMixRow(i % 4, s[c], s[c + 1], s[c + 2], s[c + 3]))
  }

  function AddRoundKey(s: Block, k: Block): Block {
    seq(16, i requires 0 <= i < 16 => Add(s[i], k[i]))
  }

  lemma SubBytesInverse(s: Block)
    ensures InvSubBytes(SubBytes(s)) == s
  {
    hide SBox, InvSBox;
    forall i | 0 <= i < 16
      ensures InvSubBytes(SubBytes(s))[i] == s[i]
    {
      SBoxInverse(s[i]);
    }
  }

  lemma InvSubBytesInverse(s: Block)
    ensures SubBytes(InvSubBytes(s)) == s
  {
    hide SBox, InvSBox;
    forall i | 0 <= i < 16
      ensures SubBytes(InvSubBytes(s))[i] == s[i]
    {
      SBoxInverse(s[i]);
    }
  }

  lemma ShiftedBack(i: int)
    requires 0 <= i < 16
    ensures Shifted(Shifted(i, -4), 4) == i
  {
    var r := i % 4;
    var j := Shifted(i, -4);
    var q := (i - 4 * r) / 16;
    assert j == i - 4 * r - 16 * q;
    assert j % 4 == r;
    Mod16(j + 4 * r, i, -q);
  }

  lemma Mod16(x: int, y: int, k: int)
    requires x == y + 16 * k
    ensures x % 16 == y % 16
  {}

  lemma ShiftRowsInverse(s: Block)
    ensures InvShiftRows(ShiftRows(s)) == s
  {
    hide Shifted;
    forall i | 0 <= i < 16
      ensures InvShiftRows(ShiftRows(s))[i] == s[i]
    {
      ShiftedBack(i);
    }
  }

  lemma ShiftedForth(i: int)
    requires 0 <= i < 16
    ensures Shifted(Shifted(i, 4), -4) == i
  {
    var r := i % 4;
    var j := Shifted(i, 4);
    var q := (i + 4 * r) / 16;
    assert j == i + 4 * r - 16 * q;
    assert j % 4 == r;
    Mod16(j - 4 * r, i, -q);
  }

  lemma InvShiftRowsInverse(s: Block)
    ensures ShiftRows(InvShiftRows(s)) == s
  {
    hide Shifted;
    forall i | 0 <= i < 16
      ensures ShiftRows(InvShiftRows(s))[i] == s[i]
    {
      ShiftedForth(i);
    }
  }

  lemma AddRoundKeySelf(s: Block, k: Block)
    ensures AddRoundKey(AddRoundKey(s, k), k) == s
  {
    hide Add;
    forall i | 0 <= i < 16
      ensures AddRoundKey(AddRoundKey(s, k), k)[i] == s[i]
    {
      AddAssoc(s[i], k[i], k[i]);
      AddSelf(k[i]);
      AddZero(s[i]);
    }
  }

  // ----- MixColumns is linear and InvMixColumns undoes it

  lemma Sum4Transpose(a: Word, b: Word, c: Word, d: Word)
    ensures Sum4(Sum4(a[0], a[1], a[2], a[3]), Sum4(b[0], b[1], b[2], b[3]),
                 Sum4(c[0], c[1], c[2], c[3]), Sum4(d[0], d[1], d[2], d[3]))
         == Sum4(Sum4(a[0], b[0], c[0], d[0]), Sum4(a[1], b[1], c[1], d[1]),
                 Sum4(a[2], b[2], c[2], d[2]), Sum4(a[3], b[3], c[3], d[3]))
  {
    hide Add;
    Sum4Pairs(a, b);
    Sum4Pairs(c, d);
    AddInterchange(Add(Add(a[0], b[0]), Add(a[1], b[1])), Add(Add(a[2], b[2]), Add(a[3], b[3])),
                   Add(Add(c[0], d[0]), Add(c[1], d[1])), Add(Add(c[2], d[2]), Add(c[3], d[3])));
    AddInterchange(Add(a[0], b[0]), Add(a[1], b[1]), Add(c[0], d[0]), Add(c[1], d[1]));
    AddInterchange(Add(a[2], b[2]), Add(a[3], b[3]), Add(c[2], d[2]), Add(c[3], d[3]));
  }

  lemma Sum4Pairs(a: Word, b: Word)
    ensures Add(Sum4(a[0], a[1], a[2], a[3]), Sum4(b[0], b[1], b[2], b[3]))
         == Sum4(Add(a[0], b[0]), Add(a[1], b[1]), Add(a[2], b[2]), Add(a[3], b[3]))
  {
    hide Add;
    AddInterchange(Add(a[0], a[1]), Add(a[2], a[3]), Add(b[0], b[1]), Add(b[2], b[3]));
    AddInterchange(a[0], a[1], b[0], b[1]);
    AddInterchange(a[2], a[3], b[2], b[3]);
  }

  lemma MulSum4(n: bv8, a: bv8, b: bv8, c: bv8, d: bv8)
    ensures Mul(n, Sum4(a, b, c, d)) == Sum4(Mul(n, a), Mul(n, b), Mul(n, c), Mul(n, d))
    ensures Mul(Sum4(a, b, c, d), n) == Sum4(Mul(a, n), Mul(b, n), Mul(c, n), Mul(d, n))
  {
    hide Add, Mul;
    MulAddRight(n, Add(a, b), Add(c, d));
    MulAddRight(n, a, b);
    MulAddRight(n, c, d);
    MulAddLeft(Add(a, b), Add(c, d), n);
    MulAddLeft(a, b, n);
    MulAddLeft(c, d, n);
  }

  /** (n M) v equals n (M v), for a row `n`, the matrix with columns `a`, `b`, `c`, `d` and a column `v`. */
  lemma MatrixAssoc(n: Word, a: Word, b: Word, c: Word, d: Word, v: Word)
    ensures Dot(n[0], n[1], n[2], n[3],
                Dot(a[0], b[0], c[0], d[0], v[0], v[1], v[2], v[3]),
                Dot(a[1], b[1], c[1], d[1], v[0], v[1], v[2], v[3]),
                Dot(a[2], b[2], c[2], d[2], v[0], v[1], v[2], v[3]),
                Dot(a[3], b[3], c[3], d[3], v[0], v[1], v[2], v[3]))
         == Dot(WordDot(n, a), WordDot(n, b), WordDot(n, c), WordDot(n, d), v[0], v[1], v[2], v[3])
  {
    hide Add, Mul, Sum4;
    var p := ScaledDot(n[0], a[0], b[0], c[0], d[0], v);
    var q := ScaledDot(n[1], a[1], b[1], c[1], d[1], v);
    var r := ScaledDot(n[2], a[2], b[2], c[2], d[2], v);
    var t := ScaledDot(n[3], a[3], b[3], c[3], d[3], v);
    Sum4Transpose(p, q, r, t);
    ColumnDot(n, a, v[0]);
    ColumnDot(n, b, v[1]);
    ColumnDot(n, c, v[2]);
    ColumnDot(n, d, v[3]);
  }

  ghost function WordDot(a: Word, b: Word): bv8 {
    Dot(a[0], a[1], a[2], a[3], b[0], b[1], b[2], b[3])
  }

  lemma ScaledDot(n: bv8, a: bv8, b: bv8, c: bv8, d: bv8, v: Word) returns (p: Word)
    ensures p[0] == Mul(Mul(n, a), v[0]) && p[1] == Mul(Mul(n, b), v[1])
    ensures p[2] == Mul(Mul(n, c), v[2]) && p[3] == Mul(Mul(n, d), v[3])
    ensures Mul(n, Dot(a, b, c, d, v[0], v[1], v[2], v[3])) == Sum4(p[0], p[1], p[2], p[3])
  {
    hide Mul, Sum4;
    p := [Mul(Mul(n, a), v[0]), Mul(Mul(n, b), v[1]), Mul(Mul(n, c), v[2]), Mul(Mul(n, d), v[3])];
    MulSum4(n, Mul(a, v[0]), Mul(b, v[1]), Mul(c, v[2]), Mul(d, v[3]));
    MulAssoc(n, a, v[0]);
    MulAssoc(n, b, v[1]);
    MulAssoc(n, c, v[2]);
    MulAssoc(n, d, v[3]);
  }

  lemma ColumnDot(n: Word, m: Word, x: bv8)
    ensures Mul(WordDot(n, m), x)
         == Sum4(Mul(Mul(n[0], m[0]), x), Mul(Mul(n[1], m[1]), x), Mul(Mul(n[2], m[2]), x), Mul(Mul(n[3], m[3]), x))
  {
    hide Mul, Sum4;
    MulSum4(x, Mul(n[0], m[0]), Mul(n[1], m[1]), Mul(n[2], m[2]), Mul(n[3], m[3]));
  }

  /** Products with the constants of the two matrices, in terms of {02}. */
  lemma MulConstants(b: bv8)
    ensures Mul(0, b) == 0 && Mul(1, b) == b && Mul(2, b) == XTime(b) && Mul(3, b) == Add(XTime(b), b)
    ensures var x := XTime(b); var x2 := XTime(x); var x3 := XTime(x2);
            && Mul(9, b) == Add(x3, b)
            && Mul(11, b) == Add(Add(x3, b), x)
            && Mul(13, b) == Add(Add(x3, x2), b)
            && Mul(14, b) == Add(Add(x3, x2), x)
  {
    hide XTime, Add, Mul;
    ConstantSums();
    ZeroMul(b);
    XTimeMul(1, b);
    XTimeMul(2, b);
    XTimeMul(4, b);
    MulAddLeft(2, 1, b);
    MulAddLeft(8, 1, b);
    MulAddLeft(9, 2, b);
    MulAddLeft(8, 4, b);
    MulAddLeft(12, 1, b);
    MulAddLeft(12, 2, b);
  }

  lemma ConstantSums()
    ensures XTime(1) == 2 && XTime(2) == 4 && XTime(4) == 8
    ensures Add(2, 1) == 3 && Add(8, 1) == 9 && Add(9, 2) == 11
    ensures Add(8, 4) == 12 && Add(12, 1) == 13 && Add(12, 2) == 14
  {}

  /** The product of the two circulant matrices is the identity. */
  lemma MatrixInverse()
    ensures Dot(14, 11, 13, 9, 2, 1, 1, 3) == 1
    ensures Dot(14, 11, 13, 9, 3, 2, 1, 1) == 0
    ensures Dot(14, 11, 13, 9, 1, 3, 2, 1) == 0
    ensures Dot(14, 11, 13, 9, 1, 1, 3, 2) == 0
    ensures Dot(9, 14, 11, 13, 2, 1, 1, 3) == 0
    ensures Dot(9, 14, 11, 13, 3, 2, 1, 1) == 1
    ensures Dot(9, 14, 11, 13, 1, 3, 2, 1) == 0
    ensures Dot(9, 14, 11, 13, 1, 1, 3, 2) == 0
    ensures Dot(13, 9, 14, 11, 2, 1, 1, 3) == 0
    ensures Dot(13, 9, 14, 11, 3, 2, 1, 1) == 0
    ensures Dot(13, 9, 14, 11, 1, 3, 2, 1) == 1
    ensures Dot(13, 9, 14, 11, 1, 1, 3, 2) == 0
    ensures Dot(11, 13, 9, 14, 2, 1, 1, 3) == 0
    ensures Dot(11, 13, 9, 14, 3, 2, 1, 1) == 0
    ensures Dot(11, 13, 9, 14, 1, 3, 2, 1) == 0
    ensures Dot(11, 13, 9, 14, 1, 1, 3, 2) == 1
  {
    hide Mul;
    MulConstants(1);
    MulConstants(2);
    MulConstants(3);
  }

  lemma DotMixRows(p: bv8, q: bv8, r: bv8, s: bv8, a: bv8, b: bv8, c: bv8, d: bv8)
    ensures Dot(p, q, r, s, MixRow(0, a, b, c, d), MixRow(1, a, b, c, d), MixRow(2, a, b, c, d), MixRow(3, a, b, c, d))
         == Dot(Dot(p, q, r, s, 2, 1, 1, 3), Dot(p, q, r, s, 3, 2, 1, 1),
                Dot(p, q, r, s, 1, 3, 2, 1), Dot(p, q, r, s, 1, 1, 3, 2), a, b, c, d)
  {
    hide Dot;
    MatrixAssoc([p, q, r, s], [2, 1, 1, 3], [3, 2, 1, 1], [1, 3, 2, 1], [1, 1, 3, 2], [a, b, c, d]);
  }

  lemma InvMixRowMixRow(a: bv8, b: bv8, c: bv8, d: bv8)
    ensures var e, f := MixRow(0, a, b, c, d), MixRow(1, a, b, c, d);
            var g, h := MixRow(2, a, b, c, d), MixRow(3, a, b, c, d);
            && InvMixRow(0, e, f, g, h) == a && InvMixRow(1, e, f, g, h) == b
            && InvMixRow(2, e, f, g, h) == c && InvMixRow(3, e, f, g, h) == d
  {
    hide Dot, MixRow;
    MatrixInverse();
    Coefficients(a, b, c, d);
    DotMixRows(14, 11, 13, 9, a, b, c, d);
    DotMixRows(9, 14, 11, 13, a, b, c, d);
    DotMixRows(13, 9, 14, 11, a, b, c, d);
    DotMixRows(11, 13, 9, 14, a, b, c, d);
  }

  lemma Coefficients(a: bv8, b: bv8, c: bv8, d: bv8)
    ensures Dot(1, 0, 0, 0, a, b, c, d) == a
    ensures Dot(0, 1, 0, 0, a, b, c, d) == b
    ensures Dot(0, 0, 1, 0, a, b, c, d) == c
    ensures Dot(0, 0, 0, 1, a, b, c, d) == d
  {
    hide Mul, Add;
    ZeroMul(a);
    ZeroMul(b);
    ZeroMul(c);
    ZeroMul(d);
    AddZero(0);
    AddZero(a);
    AddZero(b);
    AddZero(c);
    AddZero(d);
  }

  lemma MixColumnsColumn(s: Block, c: int)
    requires 0 <= c < 16 && c % 4 == 0
    ensures var t := MixColumns(s);
            && t[c] == MixRow(0, s[c], s[c + 1], s[c + 2], s[c + 3])
            && t[c + 1] == MixRow(1, s[c], s[c + 1], s[c + 2], s[c + 3])
            && t[c + 2] == MixRow(2, s[c], s[c + 1], s[c + 2], s[c + 3])
            && t[c + 3] == MixRow(3, s[c], s[c + 1], s[c + 2], s[c + 3])
  {
    hide MixRow;
    assert (c + 1) % 4 == 1 && (c + 2) % 4 == 2 && (c + 3) % 4 == 3;
  }

  lemma InvMixColumnsColumn(s: Block, c: int)
    requires 0 <= c < 16 && c % 4 == 0
    ensures var t := InvMixColumns(s);
            && t[c] == InvMixRow(0, s[c], s[c + 1], s[c + 2], s[c + 3])
            && t[c + 1] == InvMixRow(1, s[c], s[c + 1], s[c + 2], s[c + 3])
            && t[c + 2] == InvMixRow(2, s[c], s[c + 1], s[c + 2], s[c + 3])
            && t[c + 3] == InvMixRow(3, s[c], s[c + 1], s[c + 2], s[c + 3])
  {
    hide InvMixRow;
    assert (c + 1) % 4 == 1 && (c + 2) % 4 == 2 && (c + 3) % 4 == 3;
  }

  lemma MixColumnsInverseAt(s: Block, i: int)
    requires 0 <= i < 16
    ensures InvMixColumns(MixColumns(s))[i] == s[i]
  {
    hide MixRow, InvMixRow, MixColumns;
    var c := i - i % 4;
    MixColumnsColumn(s, c);
    InvMixRowMixRow(s[c], s[c + 1], s[c + 2], s[c + 3]);
  }

  lemma MixColumnsInverse(s: Block)
    ensures InvMixColumns(MixColumns(s)) == s
  {
    hide MixColumns, InvMixColumns;
    forall i | 0 <= i < 16
      ensures InvMixColumns(MixColumns(s))[i] == s[i]
    {
      MixColumnsInverseAt(s, i);
    }
  }

  /** The same product taken the other way round. */
  lemma InverseMatrix()
    ensures Dot(2, 3, 1, 1, 14, 9, 13, 11) == 1 && Dot(2, 3, 1, 1, 11, 14, 9, 13) == 0
    ensures Dot(2, 3, 1, 1, 13, 11, 14, 9) == 0 && Dot(2, 3, 1, 1, 9, 13, 11, 14) == 0
    ensures Dot(1, 2, 3, 1, 14, 9, 13, 11) == 0 && Dot(1, 2, 3, 1, 11, 14, 9, 13) == 1
    ensures Dot(1, 2, 3, 1, 13, 11, 14, 9) == 0 && Dot(1, 2, 3, 1, 9, 13, 11, 14) == 0
    ensures Dot(1, 1, 2, 3, 14, 9, 13, 11) == 0 && Dot(1, 1, 2, 3, 11, 14, 9, 13) == 0
    ensures Dot(1, 1, 2, 3, 13, 11, 14, 9) == 1 && Dot(1, 1, 2, 3, 9, 13, 11, 14) == 0
    ensures Dot(3, 1, 1, 2, 14, 9, 13, 11) == 0 && Dot(3, 1, 1, 2, 11, 14, 9, 13) == 0
    ensures Dot(3, 1, 1, 2, 13, 11, 14, 9) == 0 && Dot(3, 1, 1, 2, 9, 13, 11, 14) == 1
  {
    hide Mul;
    MulConstants(9);
    MulConstants(11);
    MulConstants(13);
    MulConstants(14);
  }

  lemma DotInvMixRows(p: bv8, q: bv8, r: bv8, s: bv8, a: bv8, b: bv8, c: bv8, d: bv8)
    ensures Dot(p, q, r, s, InvMixRow(0, a, b, c, d), InvMixRow(1, a, b, c, d), InvMixRow(2, a, b, c, d),
                InvMixRow(3, a, b, c, d))
         == Dot(Dot(p, q, r, s, 14, 9, 13, 11), Dot(p, q, r, s, 11, 14, 9, 13),
                Dot(p, q, r, s, 13, 11, 14, 9), Dot(p, q, r, s, 9, 13, 11, 14), a, b, c, d)
  {
    hide Dot;
    MatrixAssoc([p, q, r, s], [14, 9, 13, 11], [11, 14, 9, 13], [13, 11, 14, 9], [9, 13, 11, 14], [a, b, c, d]);
  }

  lemma MixRowInvMixRow(a: bv8, b: bv8, c: bv8, d: bv8)
    ensures var e, f := InvMixRow(0, a, b, c, d), InvMixRow(1, a, b, c, d);
            var g, h := InvMixRow(2, a, b, c, d), InvMixRow(3, a, b, c, d);
            && MixRow(0, e, f, g, h) == a && MixRow(1, e, f, g, h) == b
            && MixRow(2, e, f, g, h) == c && MixRow(3, e, f, g, h) == d
  {
    hide Dot, InvMixRow;
    InverseMatrix();
    Coefficients(a, b, c, d);
    DotInvMixRows(2, 3, 1, 1, a, b, c, d);
    DotInvMixRows(1, 2, 3, 1, a, b, c, d);
    DotInvMixRows(1, 1, 2, 3, a, b, c, d);
    DotInvMixRows(3, 1, 1, 2, a, b, c, d);
  }

  lemma InvMixColumnsInverseAt(s: Block, i: int)
    requires 0 <= i < 16
    ensures MixColumns(InvMixColumns(s))[i] == s[i]
  {
    hide MixRow, InvMixRow, InvMixColumns;
    var c := i - i % 4;
    InvMixColumnsColumn(s, c);
    MixRowInvMixRow(s[c], s[c + 1], s[c + 2], s[c + 3]);
  }

  lemma InvMixColumnsInverse(s: Block)
    ensures MixColumns(InvMixColumns(s)) == s
  {
    hide MixColumns, InvMixColumns;
    forall i | 0 <= i < 16
      ensures MixColumns(InvMixColumns(s))[i] == s[i]
    {
      InvMixColumnsInverseAt(s, i);
    }
  }

  lemma DotAdd(p: bv8, q: bv8, r: bv8, s: bv8, a: Word, b: Word)
    ensures Dot(p, q, r, s, Add(a[0], b[0]), Add(a[1], b[1]), Add(a[2], b[2]), Add(a[3], b[3]))
         == Add(Dot(p, q, r, s, a[0], a[1], a[2], a[3]), Dot(p, q, r, s, b[0], b[1], b[2], b[3]))
  {
    hide Mul, Add, Sum4;
    MulAddRight(p, a[0], b[0]);
    MulAddRight(q, a[1], b[1]);
    MulAddRight(r, a[2], b[2]);
    MulAddRight(s, a[3], b[3]);
    Sum4Pairs([Mul(p, a[0]), Mul(q, a[1]), Mul(r, a[2]), Mul(s, a[3])],
              [Mul(p, b[0]), Mul(q, b[1]), Mul(r, b[2]), Mul(s, b[3])]);
  }

  lemma InvMixRowAdd(r: int, a: Word, b: Word)
    ensures InvMixRow(r, Add(a[0], b[0]), Add(a[1], b[1]), Add(a[2], b[2]), Add(a[3], b[3]))
         == Add(InvMixRow(r, a[0], a[1], a[2], a[3]), InvMixRow(r, b[0], b[1], b[2], b[3]))
  {
    hide Add, Dot;
    DotAdd(14, 11, 13, 9, a, b);
    DotAdd(9, 14, 11, 13, a, b);
    DotAdd(13, 9, 14, 11, a, b);
    DotAdd(11, 13, 9, 14, a, b);
  }

  lemma InvMixColumnsAdd(s: Block, k: Block)
    ensures InvMixColumns(AddRoundKey(s, k)) == AddRoundKey(InvMixColumns(s), InvMixColumns(k))
  {
    hide InvMixRow, Add;
    var t := AddRoundKey(s, k);
    forall i | 0 <= i < 16
      ensures InvMixColumns(t)[i] == AddRoundKey(InvMixColumns(s), InvMixColumns(k))[i]
    {
      var c := i - i % 4;
      InvMixRowAdd(i % 4, s[c..c + 4], k[c..c + 4]);
    }
  }

  // ----- Key expansion

  predicate ValidKey(key: seq<bv8>) {
    |key| == 16 || |key| == 24 || |key| == 32
  }

  function AddWords(a: Word, b: Word): Word {
    [Add(a[0], b[0]), Add(a[1], b[1]), Add(a[2], b[2]), Add(a[3], b[3])]
  }

  ghost function SubWord(w: Word): Word {
    [SBox(w[0]), SBox(w[1]), SBox(w[2]), SBox(w[3])]
  }

  function RotWord(w: Word): Word {
    [w[1], w[2], w[3], w[0]]
  }

  /** {02} to the power `i - 1`: the first byte of the round constant Rcon[i]. */
  function Rcon(i: nat): bv8
    requires i > 0
  {
    if i == 1 then 1 else XTime(Rcon(i - 1))
  }

  /** What section 5.2 adds to word `i - Nk` to obtain word `i`, from word `i - 1`. */
  ghost function ScheduleCore(w: Word, nk: nat, i: nat): Word
    requires 0 < nk <= i
  {
    if i % nk == 0 then
      assert i / nk > 0;
      AddWords(SubWord(RotWord(w)), [Rcon(i / nk), 0, 0, 0])
    else if nk > 6 && i % nk == 4 then SubWord(w)
    else w
  }

  /** Word `i` of the expanded key. */
  ghost function ExpandedWord(key: seq<bv8>, i: nat): Word
    requires ValidKey(key)
    decreases i
  {
    var nk := |key| / 4;
    if i < nk then key[4 * i..4 * i + 4]
    else AddWords(ExpandedWord(key, i - nk), ScheduleCore(ExpandedWord(key, i - 1), nk, i))
  }

  /** The number of round keys: one more than the number of rounds. */
  function RoundKeyCount(key: seq<bv8>): nat
    requires ValidKey(key)
  {
    |key| / 4 + 7
  }

  ghost function RoundKey(key: seq<bv8>, i: nat): Block
    requires ValidKey(key)
  {
    ExpandedWord(key, 4 * i) + ExpandedWord(key, 4 * i + 1)
    + ExpandedWord(key, 4 * i + 2) + ExpandedWord(key, 4 * i + 3)
  }

  ghost function KeySchedule(key: seq<bv8>): (w: seq<Block>)
    requires ValidKey(key)
  {
    seq(RoundKeyCount(key), i requires 0 <= i => RoundKey(key, i))
  }

  // ----- Cipher and inverse cipher

  /** The State after round `n` of the cipher (section 5.1), before the final round. */
  ghost function CipherRounds(input: Block, w: seq<Block>, n: nat): Block
    requires n < |w|
  {
    if n == 0 then AddRoundKey(input, w[0])
    else AddRoundKey(MixColumns(ShiftRows(SubBytes(CipherRounds(input, w, n - 1)))), w[n])
  }

  ghost function Cipher(input: Block, w: seq<Block>): Block
    requires |w| >= 2
  {
    AddRoundKey(ShiftRows(SubBytes(CipherRounds(input, w, |w| - 2))), w[|w| - 1])
  }

  /** The State after `n` rounds of the inverse cipher (section 5.3), before its final round. */
  ghost function InvCipherRounds(input: Block, w: seq<Block>, n: nat): Block
    requires n < |w|
  {
    if n == 0 then AddRoundKey(input, w[|w| - 1])
    else InvMixColumns(AddRoundKey(InvSubBytes(InvShiftRows(InvCipherRounds(input, w, n - 1))), w[|w| - 1 - n]))
  }

  ghost function InvCipher(input: Block, w: seq<Block>): Block
    requires |w| >= 2
  {
    AddRoundKey(InvSubBytes(InvShiftRows(InvCipherRounds(input, w, |w| - 2))), w[0])
  }

  lemma {:induction false} InverseRounds(input: Block, w: seq<Block>, n: nat)
    requires |w| >= 2 && n <= |w| - 2
    ensures InvCipherRounds(Cipher(input, w), w, n) == ShiftRows(SubBytes(CipherRounds(input, w, |w| - 2 - n)))
  {
    hide AddRoundKey, MixColumns, InvMixColumns, SubBytes, InvSubBytes, ShiftRows, InvShiftRows;
    if n == 0 {
      AddRoundKeySelf(ShiftRows(SubBytes(CipherRounds(input, w, |w| - 2))), w[|w| - 1]);
    } else {
      InverseRounds(input, w, n - 1);
      var e := CipherRounds(input, w, |w| - 1 - n);
      var p := ShiftRows(SubBytes(CipherRounds(input, w, |w| - 2 - n)));
      ShiftRowsInverse(SubBytes(e));
      SubBytesInverse(e);
      AddRoundKeySelf(MixColumns(p), w[|w| - 1 - n]);
      MixColumnsInverse(p);
    }
  }

  /** Decryption undoes encryption, for every block and every list of round keys. */
  lemma CipherRoundTrip(input: Block, w: seq<Block>)
    requires |w| >= 2
    ensures InvCipher(Cipher(input, w), w) == input
  {
    hide AddRoundKey, MixColumns, InvMixColumns, SubBytes, InvSubBytes, ShiftRows, InvShiftRows;
    InverseRounds(input, w, |w| - 2);
    var e := CipherRounds(input, w, 0);
    ShiftRowsInverse(SubBytes(e));
    SubBytesInverse(e);
    AddRoundKeySelf(input, w[0]);
  }

  lemma {:induction false} ForwardRounds(output: Block, w: seq<Block>, n: nat)
    requires |w| >= 2 && n <= |w| - 2
    ensures CipherRounds(InvCipher(output, w), w, n) ==
      InvSubBytes(InvShiftRows(InvCipherRounds(output, w, |w| - 2 - n)))
  {
    hide AddRoundKey, MixColumns, InvMixColumns, SubBytes, InvSubBytes, ShiftRows, InvShiftRows;
    var i := InvCipherRounds(output, w, |w| - 2 - n);
    var x := InvSubBytes(InvShiftRows(i));
    if n == 0 {
      AddRoundKeySelf(x, w[0]);
    } else {
      ForwardRounds(output, w, n - 1);
      var e := InvCipherRounds(output, w, |w| - 1 - n);
      InvSubBytesInverse(InvShiftRows(e));
      InvShiftRowsInverse(e);
      InvMixColumnsInverse(AddRoundKey(x, w[n]));
      AddRoundKeySelf(x, w[n]);
    }
  }

  /** Encryption undoes decryption as well: the cipher is a permutation of the blocks. */
  lemma InvCipherRoundTrip(output: Block, w: seq<Block>)
    requires |w| >= 2
    ensures Cipher(InvCipher(output, w), w) == output
  {
    hide AddRoundKey, MixColumns, InvMixColumns, SubBytes, InvSubBytes, ShiftRows, InvShiftRows;
    ForwardRounds(output, w, |w| - 2);
    var e := InvCipherRounds(output, w, 0);
    InvSubBytesInverse(InvShiftRows(e));
    InvShiftRowsInverse(e);
    AddRoundKeySelf(output, w[|w| - 1]);
  }
}
