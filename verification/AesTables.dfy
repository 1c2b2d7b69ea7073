/** The two lookup tables of src/crypto/aes.c and the method that generates them. */
module AesTables {
  import opened Gf256
  import opened Fips197

  /** A table entry: the products of an eight-byte vector with one byte. */
  type Entry = e: seq<bv8> | |e| == 8 witness [0, 0, 0, 0, 0, 0, 0, 0]

  /** The table index of a byte. */
  function Index(b: bv8): (i: int)
    ensures 0 <= i < 256
  {
    b as int
  }

  lemma IndexInjective(b: bv8, c: bv8)
    requires Index(b) == Index(c)
    ensures b == c
  {}

  lemma IndexSucc(b: bv8)
    ensures Index(0) == 0
    ensures Index(b) < 255 ==> Index(b + 1) == Index(b) + 1
  {}

  // ----- What the tables hold

  ghost function MixEntry(s: bv8): Entry {
    [s, s, s, Mul(3, s), Mul(2, s), s, s, Mul(3, s)]
  }

  ghost function InvMixEntry(s: bv8): Entry {
    [s, Mul(9, s), Mul(13, s), Mul(11, s), Mul(14, s), Mul(9, s), Mul(13, s), Mul(11, s)]
  }

  ghost predicate MixTable(t: seq<Entry>) {
    |t| == 256 && forall b: bv8 :: t[Index(b)] == MixEntry(SBox(b))
  }

  ghost predicate InvMixTable(t: seq<Entry>) {
    |t| == 256 && forall b: bv8 :: t[Index(b)] == InvMixEntry(InvSBox(b))
  }

  // ----- The arithmetic of the generator

  /** Rotates left by one, then reduces when the bit that came round is set. */
  function Double(poly: bv8): bv8 {
    var rotated := (poly << 1) | (poly >> 7);
    if rotated & 0x01 != 0 then (rotated ^ 0x01) ^ 0x1b else rotated
  }

  lemma DoubleIsXTime(b: bv8)
    ensures Double(b) == XTime(b)
  {}

  function DivideByThree(invpoly: bv8): bv8 {
    var p1 := invpoly ^ (invpoly << 1);
    var p2 := p1 ^ (p1 << 2);
    var p3 := p2 ^ (p2 << 4);
    if p3 & 0x80 != 0 then p3 ^ 0x09 else p3
  }

  /** The code divides by {03}. */
  lemma DividesByThree(b: bv8)
    ensures Triple(DivideByThree(b)) == b && DivideByThree(Triple(b)) == b
  {}

  function Transform(b: bv8): bv8 {
    0x63 ^ b ^ RotateLeft(b, 1) ^ RotateLeft(b, 2) ^ RotateLeft(b, 3) ^ RotateLeft(b, 4)
  }

  lemma TransformIsAffine(b: bv8)
    ensures Transform(b) == Affine(b)
  {}

  /** Fills in a MixColumns entry from its first byte. */
  function FillMix(entry: Entry): Entry {
    var scalar := entry[0];
    var scalarX := Double(scalar);
    var scalarX1 := Add(scalarX, scalar);
    [scalar, scalar, scalar, scalarX1, scalarX, scalar, scalar, scalarX1]
  }

  /** Fills in an InvMixColumns entry from its first byte. */
  function FillInvMix(entry: Entry): Entry {
    var scalar := entry[0];
    var scalarX := Double(scalar);
    var scalarX2 := Double(scalarX);
    var scalarX3 := Double(scalarX2);
    var scalarX3_1 := Add(scalarX3, scalar);
    var scalarX3_X_1 := Add(scalarX3_1, scalarX);
    var scalarX3_X2 := Add(scalarX3, scalarX2);
    var scalarX3_X2_1 := Add(scalarX3_X2, scalar);
    var scalarX3_X2_X := Add(scalarX3_X2, scalarX);
    [scalar, scalarX3_1, scalarX3_X2_1, scalarX3_X_1, scalarX3_X2_X, scalarX3_1, scalarX3_X2_1, scalarX3_X_1]
  }

  lemma FillMixCorrect(entry: Entry)
    ensures FillMix(entry) == MixEntry(entry[0])
  {
    hide Mul, Add, Double, XTime;
    MulConstants(entry[0]);
    DoubleIsXTime(entry[0]);
  }

  lemma FillInvMixCorrect(entry: Entry)
    ensures FillInvMix(entry) == InvMixEntry(entry[0])
  {
    hide Mul, Add, Double, XTime;
    MulConstants(entry[0]);
    DoubleIsXTime(entry[0]);
    DoubleIsXTime(XTime(entry[0]));
    DoubleIsXTime(XTime(XTime(entry[0])));
  }

  // ----- The generator

  /** Every byte at least `k` steps before {01} on the orbit of {03} has its S-box value in place. */
  ghost predicate Substituted(t: seq<Entry>, k: nat) {
    |t| == 256 && forall b: bv8, j: nat :: k <= j <= 254 && Orbit(j, b, 1) ==> t[Index(b)][0] == SBox(b)
  }

  lemma SubstituteNext(t: seq<Entry>, k: nat, poly: bv8, invpoly: bv8)
    requires k <= 254 && Substituted(t, k + 1)
    requires Orbit(k, poly, 1) && Mul(poly, invpoly) == 1
    ensures Substituted(t[Index(poly) := t[Index(poly)][0 := Transform(invpoly)]], k)
  {
    hide Orbit, Mul, Transform, Inverse, Index;
    var next := t[Index(poly) := t[Index(poly)][0 := Transform(invpoly)]];
    forall b: bv8, j: nat | k <= j <= 254 && Orbit(j, b, 1)
      ensures next[Index(b)][0] == SBox(b)
    {
      if Index(b) == Index(poly) {
        IndexInjective(b, poly);
        NonZeroProduct(poly, invpoly);
        InverseUnique(poly, Inverse(poly), invpoly);
        TransformIsAffine(invpoly);
      } else if j == k {
        OrbitStartUnique(k, b, poly);
      }
    }
  }

  lemma NonZeroProduct(a: bv8, b: bv8)
    requires Mul(a, b) == 1
    ensures a != 0
  {
    hide Mul;
    ZeroMul(b);
  }

  lemma StepProduct(poly: bv8, invpoly: bv8)
    requires Mul(poly, invpoly) == 1
    ensures Mul(Add(poly, Double(poly)), DivideByThree(invpoly)) == 1
  {
    hide Mul, Double, XTime, Add, DivideByThree;
    DoubleIsXTime(poly);
    DividesByThree(invpoly);
    TripleMul(poly, DivideByThree(invpoly));
    MulTriple(poly, DivideByThree(invpoly));
  }

  /** All 255 nonzero bytes have been visited once the orbit has come back to {01}. */
  lemma AllSubstituted(t: seq<Entry>, b: bv8)
    requires Substituted(t, 0) && b != 0
    ensures t[Index(b)][0] == SBox(b)
  {
    hide Orbit, SBox, Index;
    var j := Generator(b);
  }

  method Generate(mix: array<Entry>, inv: array<Entry>)
    requires mix.Length == 256 && inv.Length == 256 && mix != inv
    modifies mix, inv
    ensures MixTable(mix[..]) && InvMixTable(inv[..])
  {
    GenerateSBox(mix);
    GenerateProducts(mix, inv);
  }

  /** The first loop: powers of {03} and of its inverse, until the powers come back to {01}. */
  method GenerateSBox(mix: array<Entry>)
    requires mix.Length == 256
    modifies mix
    ensures forall b: bv8 :: mix[Index(b)][0] == SBox(b)
  {
    hide Orbit, Mul, SBox, Transform, DivideByThree, Double, XTime, Index;
    var poly: bv8 := 0x01;
    var invpoly: bv8 := 0x01;
    ghost var k: nat := 255;
    MulUnit(1);
    OrbitOfThree();
    var more := true;
    while more
      invariant Mul(poly, invpoly) == 1 && k <= 255
      invariant more <==> k != 0
      invariant k == 255 ==> poly == 1
      invariant k < 255 ==> Orbit(k, poly, 1)
      invariant Substituted(mix[..], k)
      decreases k
    {
      StepProduct(poly, invpoly);
      OrbitStep(k, poly);
      k := k - 1;
      poly := Add(poly, Double(poly));
      invpoly := DivideByThree(invpoly);
      var transformed := Transform(invpoly);
      SubstituteNext(mix[..], k, poly, invpoly);
      mix[Index(poly)] := mix[Index(poly)][0 := transformed];
      more := poly != 0x01;
      OrbitEnds(k, poly);
    }
    ghost var filled := mix[..];
    mix[Index(0)] := mix[Index(0)][0 := 0x63];
    forall b: bv8
      ensures mix[Index(b)][0] == SBox(b)
    {
      if b == 0 {
        SBoxOfZero();
      } else {
        AllSubstituted(filled, b);
        if Index(b) == Index(0) {
          IndexInjective(b, 0);
        }
      }
    }
  }

  lemma SBoxOfZero()
    ensures SBox(0) == 0x63
  {}

  lemma OrbitStep(k: nat, poly: bv8)
    requires 0 < k <= 255
    requires k == 255 ==> poly == 1
    requires k < 255 ==> Orbit(k, poly, 1)
    ensures Orbit(k - 1, Add(poly, Double(poly)), 1)
  {
    hide Double;
    DoubleIsXTime(poly);
    if k == 255 {
      OrbitOfThree();
      assert Triple(1) == 3;
    } else {
      hide Triple;
    }
  }

  lemma OrbitEnds(k: nat, poly: bv8)
    requires Orbit(k, poly, 1)
    ensures poly == 1 <==> k == 0
  {}

  /** The S-box is in place, and both tables are filled in for the bytes below `n`. */
  ghost predicate ProductsDone(mix: seq<Entry>, inv: seq<Entry>, n: int) {
    && |mix| == 256 && |inv| == 256
    && (forall b: bv8 :: mix[Index(b)][0] == SBox(b))
    && (forall b: bv8 :: Index(b) < n ==> mix[Index(b)] == MixEntry(SBox(b)))
    && (forall b: bv8 :: Index(b) < n ==> inv[Index(SBox(b))] == InvMixEntry(b))
  }

  /** The second loop: fills in every entry of both tables from the S-box. */
  method GenerateProducts(mix: array<Entry>, inv: array<Entry>)
    requires mix.Length == 256 && inv.Length == 256 && mix != inv
    requires forall b: bv8 :: mix[Index(b)][0] == SBox(b)
    modifies mix, inv
    ensures MixTable(mix[..]) && InvMixTable(inv[..])
  {
    hide SBox, InvSBox, MixEntry, InvMixEntry, FillMix, FillInvMix, Index;
    var byte: bv8 := 0;
    IndexSucc(0);
    for i := 0 to 256
      invariant i < 256 ==> Index(byte) == i
      invariant ProductsDone(mix[..], inv[..], i)
    {
      ProductsNext(mix[..], inv[..], byte);
      mix[i] := FillMix(mix[i]);
      var s := mix[i][0];
      inv[Index(s)] := FillInvMix(inv[Index(s)][0 := byte]);
      IndexSucc(byte);
      byte := byte + 1;
    }
    TablesDone(mix[..], inv[..]);
  }

  lemma ProductsNext(mix: seq<Entry>, inv: seq<Entry>, b: bv8)
    requires ProductsDone(mix, inv, Index(b))
    ensures var i, s := Index(b), SBox(b);
            && FillMix(mix[i])[0] == s
            && ProductsDone(mix[i := FillMix(mix[i])], inv[Index(s) := FillInvMix(inv[Index(s)][0 := b])], i + 1)
  {
    hide SBox, FillMix, FillInvMix, Index;
    var i, s := Index(b), SBox(b);
    FillMixCorrect(mix[i]);
    FillInvMixCorrect(inv[Index(s)][0 := b]);
    var mix', inv' := mix[i := FillMix(mix[i])], inv[Index(s) := FillInvMix(inv[Index(s)][0 := b])];
    forall c: bv8
      ensures mix'[Index(c)][0] == SBox(c)
      ensures Index(c) < i + 1 ==> mix'[Index(c)] == MixEntry(SBox(c)) && inv'[Index(SBox(c))] == InvMixEntry(c)
    {
      if Index(c) == i {
        IndexInjective(c, b);
      }
      if Index(SBox(c)) == Index(s) {
        IndexInjective(SBox(c), s);
        SBoxInverse(b);
        SBoxInverse(c);
      }
    }
  }

  lemma TablesDone(mix: seq<Entry>, inv: seq<Entry>)
    requires ProductsDone(mix, inv, 256)
    ensures MixTable(mix) && InvMixTable(inv)
  {
    hide SBox, InvSBox, MixEntry, InvMixEntry, Index;
    forall b: bv8
      ensures inv[Index(b)] == InvMixEntry(InvSBox(b))
    {
      SBoxInverse(b);
      assert inv[Index(SBox(InvSBox(b)))] == InvMixEntry(InvSBox(b));
    }
  }
}
