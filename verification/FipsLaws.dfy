/** What the cipher of FIPS 197 does to single bytes, and known answers of the standard. */
module FipsLaws {
  import opened Gf256
  import opened Fips197

  // ----- The field and the S-box

  /** {02} to the power `k`. */
  ghost function TwoTo(k: nat): bv8 {
    if k == 0 then 1 else Mul(2, TwoTo(k - 1))
  }

  lemma Doubles(b: bv8)
    ensures Mul(2, b) == XTime(b) && Mul(3, b) == b ^ XTime(b) && Mul(1, b) == b
  {
    hide Mul;
    ZeroMul(b);
    XTimeMul(1, b);
    assert XTime(1) == 2 && Add(1, 2) == 3;
    MulAddLeft(1, 2, b);
  }

  lemma {:induction false} RconIs(i: nat)
    requires i > 0
    ensures Rcon(i) == TwoTo(i - 1)
  {
    hide Mul, XTime;
    if i > 1 {
      RconIs(i - 1);
      Doubles(TwoTo(i - 2));
    }
  }

  /** Examples of section 4.2: {57} times {83} is {c1}, and {57} times {13} is {fe}. */
  lemma ProductAnswers()
    ensures Mul(0x57, 0x83) == 0xc1 && Mul(0x57, 0x13) == 0xfe
  {
    hide Mul;
    MulIsTerms(0x57, 0x83);
    MulIsTerms(0x57, 0x13);
    assert MulTerms(8, 0x57, 0x83) == 0xc1;
    assert MulTerms(8, 0x57, 0x13) == 0xfe;
  }

  function Bit(b: bv8, i: nat): bv8
    requires i < 8
  {
    (b >> i) & 1
  }

  /** Section 5.1.1, with `c` the inverse of `b`: each bit is the sum of five bits of `c` and one of {63}. */
  lemma SBoxLaw(b: bv8, c: bv8)
    requires if b == 0 then c == 0 else Mul(b, c) == 1
    ensures var s := SBox(b);
            && Bit(s, 0) == Bit(c, 0) ^ Bit(c, 4) ^ Bit(c, 5) ^ Bit(c, 6) ^ Bit(c, 7) ^ 1
            && Bit(s, 1) == Bit(c, 1) ^ Bit(c, 5) ^ Bit(c, 6) ^ Bit(c, 7) ^ Bit(c, 0) ^ 1
            && Bit(s, 2) == Bit(c, 2) ^ Bit(c, 6) ^ Bit(c, 7) ^ Bit(c, 0) ^ Bit(c, 1)
            && Bit(s, 3) == Bit(c, 3) ^ Bit(c, 7) ^ Bit(c, 0) ^ Bit(c, 1) ^ Bit(c, 2)
            && Bit(s, 4) == Bit(c, 4) ^ Bit(c, 0) ^ Bit(c, 1) ^ Bit(c, 2) ^ Bit(c, 3)
            && Bit(s, 5) == Bit(c, 5) ^ Bit(c, 1) ^ Bit(c, 2) ^ Bit(c, 3) ^ Bit(c, 4) ^ 1
            && Bit(s, 6) == Bit(c, 6) ^ Bit(c, 2) ^ Bit(c, 3) ^ Bit(c, 4) ^ Bit(c, 5) ^ 1
            && Bit(s, 7) == Bit(c, 7) ^ Bit(c, 3) ^ Bit(c, 4) ^ Bit(c, 5) ^ Bit(c, 6)
  {
    hide Mul, Inverse;
    InverseUnique(b, c, Inverse(b));
  }

  lemma SBoxIs(b: bv8, c: bv8, s: bv8)
    requires b != 0 && MulTerms(8, b, c) == 1 && Affine(c) == s
    ensures SBox(b) == s
  {
    hide Mul, Inverse, Affine, MulTerms;
    MulIsTerms(b, c);
    InverseUnique(b, c, Inverse(b));
  }

  /** The example of section 5.1.1: {53} is substituted by {ed}. */
  lemma SBoxAnswer()
    ensures SBox(0x53) == 0xed
  {
    SBoxIs(0x53, 0xca, 0xed);
  }

  // ----- The four transformations, byte by byte

  /** The byte in row `r` of column `c`. */
  function At(s: Block, r: nat, c: nat): bv8
    requires r < 4 && c < 4
  {
    s[r + 4 * c]
  }

  lemma ShiftRowsAt(s: Block, r: nat, c: nat)
    requires r < 4 && c < 4
    ensures At(ShiftRows(s), r, c) == At(s, r, (c + r) % 4)
    ensures At(InvShiftRows(s), r, c) == At(s, r, (c + 4 - r) % 4)
  {
    ShiftedIs(r, c);
  }

  lemma ShiftedIs(r: nat, c: nat)
    requires r < 4 && c < 4
    ensures Shifted(r + 4 * c, 4) == r + 4 * ((c + r) % 4) && Shifted(r + 4 * c, -4) == r + 4 * ((c + 4 - r) % 4)
  {
    var i := r + 4 * c;
    assert i % 4 == r;
    if r == 0 {
    } else if r == 1 {
    } else if r == 2 {
    }
  }

  lemma SubBytesAt(s: Block, r: nat, c: nat)
    requires r < 4 && c < 4
    ensures At(SubBytes(s), r, c) == SBox(At(s, r, c))
  {
    hide SBox;
  }

  lemma AddRoundKeyAt(s: Block, k: Block, r: nat, c: nat)
    requires r < 4 && c < 4
    ensures At(AddRoundKey(s, k), r, c) == Add(At(s, r, c), At(k, r, c))
  {
    hide Add;
  }

  lemma AddIsXor(a: bv8, b: bv8)
    ensures Add(a, b) == a ^ b
  {}

  lemma MixColumnsAt(s: Block, c: nat)
    requires c < 4
    ensures var a, b, d, e := At(s, 0, c), At(s, 1, c), At(s, 2, c), At(s, 3, c);
            && At(MixColumns(s), 0, c) == Add(Add(Mul(2, a), Mul(3, b)), Add(d, e))
            && At(MixColumns(s), 1, c) == Add(Add(a, Mul(2, b)), Add(Mul(3, d), e))
            && At(MixColumns(s), 2, c) == Add(Add(a, b), Add(Mul(2, d), Mul(3, e)))
            && At(MixColumns(s), 3, c) == Add(Add(Mul(3, a), b), Add(d, Mul(2, e)))
  {
    hide Mul, Add, MixColumns;
    var a, b, d, e := At(s, 0, c), At(s, 1, c), At(s, 2, c), At(s, 3, c);
    ZeroMul(a);
    ZeroMul(b);
    ZeroMul(d);
    ZeroMul(e);
    MixedAt(s, 0, c);
    MixedAt(s, 1, c);
    MixedAt(s, 2, c);
    MixedAt(s, 3, c);
  }

  lemma MixedAt(s: Block, r: nat, c: nat)
    requires r < 4 && c < 4
    ensures At(MixColumns(s), r, c) == MixRow(r, s[4 * c], s[4 * c + 1], s[4 * c + 2], s[4 * c + 3])
  {
    hide MixRow;
    var i := r + 4 * c;
    assert i % 4 == r && i - i % 4 == 4 * c;
  }

  // ----- The cipher as a sequence of states

  /** The byte of row `r` that ShiftRows and SubBytes bring into column `c`. */
  ghost function Moved(s: Block, r: nat, c: nat): bv8
    requires r < 4 && c < 4
  {
    SBox(At(s, r, (c + r) % 4))
  }

  /** A round other than the last, in one column. */
  ghost predicate ColumnLaw(s: Block, t: Block, k: Block, c: nat)
    requires c < 4
  {
    var a, b, d, e := Moved(s, 0, c), Moved(s, 1, c), Moved(s, 2, c), Moved(s, 3, c);
    && At(t, 0, c) == Add(Add(Add(Mul(2, a), Mul(3, b)), Add(d, e)), At(k, 0, c))
    && At(t, 1, c) == Add(Add(Add(a, Mul(2, b)), Add(Mul(3, d), e)), At(k, 1, c))
    && At(t, 2, c) == Add(Add(Add(a, b), Add(Mul(2, d), Mul(3, e))), At(k, 2, c))
    && At(t, 3, c) == Add(Add(Add(Mul(3, a), b), Add(d, Mul(2, e))), At(k, 3, c))
  }

  ghost predicate RoundLaw(s: Block, t: Block, k: Block) {
    forall c: nat :: c < 4 ==> ColumnLaw(s, t, k, c)
  }

  lemma RoundBytes(s: Block, k: Block)
    ensures RoundLaw(s, AddRoundKey(MixColumns(ShiftRows(SubBytes(s))), k), k)
  {
    hide Mul, Add, Moved, SubBytes, ShiftRows, MixColumns, AddRoundKey, At;
    forall c: nat | c < 4
      ensures ColumnLaw(s, AddRoundKey(MixColumns(ShiftRows(SubBytes(s))), k), k, c)
    {
      MovedAll(s, c);
      MixColumnsAt(ShiftRows(SubBytes(s)), c);
      AddedAll(MixColumns(ShiftRows(SubBytes(s))), k, c);
    }
  }

  lemma MovedAt(s: Block, r: nat, c: nat)
    requires r < 4 && c < 4
    ensures At(ShiftRows(SubBytes(s)), r, c) == Moved(s, r, c)
  {
    hide SBox, SubBytes, ShiftRows;
    ShiftRowsAt(SubBytes(s), r, c);
    SubBytesAt(s, r, (c + r) % 4);
  }

  lemma MovedAll(s: Block, c: nat)
    requires c < 4
    ensures forall r: nat :: r < 4 ==> At(ShiftRows(SubBytes(s)), r, c) == Moved(s, r, c)
  {
    hide SBox, SubBytes, ShiftRows, Moved;
    forall r: nat | r < 4
      ensures At(ShiftRows(SubBytes(s)), r, c) == Moved(s, r, c)
    {
      MovedAt(s, r, c);
    }
  }

  lemma AddedAll(s: Block, k: Block, c: nat)
    requires c < 4
    ensures forall r: nat :: r < 4 ==> At(AddRoundKey(s, k), r, c) == Add(At(s, r, c), At(k, r, c))
  {
    forall r: nat | r < 4
      ensures At(AddRoundKey(s, k), r, c) == Add(At(s, r, c), At(k, r, c))
    {
      AddRoundKeyAt(s, k, r, c);
    }
  }

  /**
   * The cipher goes through as many states as there are round keys but one: the first is the input plus the first key,
   * each further one follows by a round, and the output by the last round, which does not mix columns.
   */
  lemma CipherStates(input: Block, w: seq<Block>) returns (states: seq<Block>)
    requires |w| >= 2
    ensures |states| == |w| - 1
    ensures forall r: nat, c: nat :: r < 4 && c < 4 ==> At(states[0], r, c) == Add(At(input, r, c), At(w[0], r, c))
    ensures forall n :: 0 < n < |states| ==> RoundLaw(states[n - 1], states[n], w[n])
    ensures forall r: nat, c: nat :: r < 4 && c < 4 ==>
      At(Cipher(input, w), r, c) == Add(Moved(states[|states| - 1], r, c), At(w[|w| - 1], r, c))
  {
    hide SubBytes, ShiftRows, MixColumns, AddRoundKey, RoundLaw, Moved, Add, At;
    states := seq(|w| - 1, n requires 0 <= n < |w| - 1 => CipherRounds(input, w, n));
    forall r: nat, c: nat | r < 4 && c < 4
      ensures At(states[0], r, c) == Add(At(input, r, c), At(w[0], r, c))
    {
      AddRoundKeyAt(input, w[0], r, c);
    }
    forall n | 0 < n < |states|
      ensures RoundLaw(states[n - 1], states[n], w[n])
    {
      RoundBytes(states[n - 1], w[n]);
    }
    forall r: nat, c: nat | r < 4 && c < 4
      ensures At(Cipher(input, w), r, c) == Add(Moved(states[|states| - 1], r, c), At(w[|w| - 1], r, c))
    {
      AddRoundKeyAt(ShiftRows(SubBytes(states[|states| - 1])), w[|w| - 1], r, c);
      MovedAt(states[|states| - 1], r, c);
    }
  }

  // ----- The key schedule, byte by byte

  /** Section 5.2: the first words are the key. */
  lemma FirstWord(key: seq<bv8>, i: nat)
    requires ValidKey(key) && 4 * i + 4 <= |key|
    ensures ExpandedWord(key, i) == [key[4 * i], key[4 * i + 1], key[4 * i + 2], key[4 * i + 3]]
  {}

  /** Word `i` from the one Nk before it and the previous one, with what section 5.2 makes of that. */
  lemma NextWord(key: seq<bv8>, i: nat, before: Word, previous: Word, core: Word)
    requires ValidKey(key) && |key| / 4 <= i && ExpandedWord(key, i - |key| / 4) == before
    requires ExpandedWord(key, i - 1) == previous && ScheduleCore(previous, |key| / 4, i) == core
    ensures ExpandedWord(key, i) == AddWords(before, core)
  {
    hide SBox, Add, ScheduleCore;
  }

  /** Every Nk-th word adds the previous word, rotated and substituted, and a power of {02}. */
  lemma TurnedWord(key: seq<bv8>, q: nat, b: nat)
    requires ValidKey(key) && 0 < q && b < 4
    ensures var nk := |key| / 4;
            var before, previous := ExpandedWord(key, nk * q - nk), ExpandedWord(key, nk * q - 1);
            ExpandedWord(key, nk * q)[b] ==
              Add(before[b], Add(SBox(previous[(b + 1) % 4]), if b == 0 then TwoTo(q - 1) else 0))
  {
    hide SBox, TwoTo, Add, Rcon, ExpandedWord;
    var nk := |key| / 4;
    var i := nk * q;
    RconIs(q);
    Multiple(nk, q);
    var previous := ExpandedWord(key, i - 1);
    NextWord(key, i, ExpandedWord(key, i - nk), previous, ScheduleCore(previous, nk, i));
  }

  lemma Multiple(nk: nat, q: nat)
    requires nk == 4 || nk == 6 || nk == 8
    ensures (nk * q) % nk == 0 && (nk * q) / nk == q
  {}

  /** Of a 256-bit key, the middle word of each eight adds the previous word, substituted. */
  lemma MiddleWord(key: seq<bv8>, i: nat, b: nat)
    requires |key| == 32 && i >= 8 && i % 8 == 4 && b < 4
    ensures ExpandedWord(key, i)[b] == Add(ExpandedWord(key, i - 8)[b], SBox(ExpandedWord(key, i - 1)[b]))
  {
    hide SBox, Add, Rcon, ExpandedWord;
    var previous := ExpandedWord(key, i - 1);
    NextWord(key, i, ExpandedWord(key, i - 8), previous, ScheduleCore(previous, 8, i));
  }

  /** Any other word adds the previous one. */
  lemma OtherWord(key: seq<bv8>, i: nat, b: nat)
    requires ValidKey(key) && i >= |key| / 4 && i % (|key| / 4) != 0 && (|key| == 32 ==> i % 8 != 4) && b < 4
    ensures ExpandedWord(key, i)[b] == Add(ExpandedWord(key, i - |key| / 4)[b], ExpandedWord(key, i - 1)[b])
  {
    hide SBox, Add, Rcon, ExpandedWord;
    var previous := ExpandedWord(key, i - 1);
    NextWord(key, i, ExpandedWord(key, i - |key| / 4), previous, ScheduleCore(previous, |key| / 4, i));
  }

  /** A round key is four words, and there is one more than the 10, 12 or 14 rounds. */
  lemma RoundKeysAre(key: seq<bv8>)
    requires ValidKey(key)
    ensures |KeySchedule(key)| == if |key| == 16 then 11 else if |key| == 24 then 13 else 15
    ensures forall i: nat, r: nat, c: nat :: i < |KeySchedule(key)| && r < 4 && c < 4 ==>
      At(KeySchedule(key)[i], r, c) == ExpandedWord(key, 4 * i + c)[r]
  {
    hide ExpandedWord;
  }

  const KEY128: seq<bv8> := [0x2b, 0x7e, 0x15, 0x16, 0x28, 0xae, 0xd2, 0xa6,
                             0xab, 0xf7, 0x15, 0x88, 0x09, 0xcf, 0x4f, 0x3c]

  /** Word 4 of the expansion in appendix A.1 is a0fafe17. */
  lemma ScheduleAnswer128()
    ensures ExpandedWord(KEY128, 4) == [0xa0, 0xfa, 0xfe, 0x17]
  {
    hide SBox, ExpandedWord;
    KeyWords128();
    SBoxIs(0xcf, 0xe6, 0x8a);
    SBoxIs(0x4f, 0x09, 0x84);
    SBoxIs(0x3c, 0x77, 0xeb);
    SBoxIs(0x09, 0x4f, 0x01);
    NextWord(KEY128, 4, [0x2b, 0x7e, 0x15, 0x16], [0x09, 0xcf, 0x4f, 0x3c], [0x8b, 0x84, 0xeb, 0x01]);
  }

  lemma KeyWords128()
    ensures ExpandedWord(KEY128, 0) == [0x2b, 0x7e, 0x15, 0x16] && ExpandedWord(KEY128, 3) == [0x09, 0xcf, 0x4f, 0x3c]
  {
    hide ExpandedWord;
    FirstWord(KEY128, 0);
    FirstWord(KEY128, 3);
  }

  const KEY256: seq<bv8> := [0x60, 0x3d, 0xeb, 0x10, 0x15, 0xca, 0x71, 0xbe, 0x2b, 0x73, 0xae, 0xf0,
                             0x85, 0x7d, 0x77, 0x81, 0x1f, 0x35, 0x2c, 0x07, 0x3b, 0x61, 0x08, 0xd7,
                             0x2d, 0x98, 0x10, 0xa3, 0x09, 0x14, 0xdf, 0xf4]

  /** Words 8 and 12 of the expansion in appendix A.3 are 9ba35411 and a8b09c1a. */
  lemma ScheduleAnswer256()
    ensures ExpandedWord(KEY256, 8) == [0x9b, 0xa3, 0x54, 0x11] && ExpandedWord(KEY256, 12) == [0xa8, 0xb0, 0x9c, 0x1a]
  {
    hide SBox, ExpandedWord, Affine, MulTerms, ScheduleCore, AddWords;
    WordEight();
    WordsToEleven();
    WordTwelve();
  }

  lemma WordEight()
    ensures ExpandedWord(KEY256, 8) == [0x9b, 0xa3, 0x54, 0x11]
  {
    hide SBox, ExpandedWord;
    KeyWords256();
    SBoxIs(0x14, 0x99, 0xfa);
    SBoxIs(0xdf, 0x6b, 0x9e);
    SBoxIs(0xf4, 0x68, 0xbf);
    SBoxIs(0x09, 0x4f, 0x01);
    NextWord(KEY256, 8, [0x60, 0x3d, 0xeb, 0x10], [0x09, 0x14, 0xdf, 0xf4], [0xfb, 0x9e, 0xbf, 0x01]);
  }

  lemma WordTwelve()
    requires ExpandedWord(KEY256, 11) == [0x20, 0x67, 0xfc, 0xde]
    ensures ExpandedWord(KEY256, 12) == [0xa8, 0xb0, 0x9c, 0x1a]
  {
    hide SBox, ExpandedWord;
    KeyWords256();
    SBoxIs(0x20, 0x3a, 0xb7);
    SBoxIs(0x67, 0x43, 0x85);
    SBoxIs(0xfc, 0xcd, 0xb0);
    SBoxIs(0xde, 0x90, 0x1d);
    NextWord(KEY256, 12, [0x1f, 0x35, 0x2c, 0x07], [0x20, 0x67, 0xfc, 0xde], [0xb7, 0x85, 0xb0, 0x1d]);
  }

  lemma KeyWords256()
    ensures ExpandedWord(KEY256, 0) == [0x60, 0x3d, 0xeb, 0x10] && ExpandedWord(KEY256, 7) == [0x09, 0x14, 0xdf, 0xf4]
    ensures ExpandedWord(KEY256, 4) == [0x1f, 0x35, 0x2c, 0x07]
  {
    hide ExpandedWord;
    FirstWord(KEY256, 0);
    FirstWord(KEY256, 4);
    FirstWord(KEY256, 7);
  }

  lemma MoreWords256()
    ensures ExpandedWord(KEY256, 1) == [0x15, 0xca, 0x71, 0xbe] && ExpandedWord(KEY256, 2) == [0x2b, 0x73, 0xae, 0xf0]
    ensures ExpandedWord(KEY256, 3) == [0x85, 0x7d, 0x77, 0x81]
  {
    hide ExpandedWord;
    FirstWord(KEY256, 1);
    FirstWord(KEY256, 2);
    FirstWord(KEY256, 3);
  }

  lemma WordsToEleven()
    requires ExpandedWord(KEY256, 8) == [0x9b, 0xa3, 0x54, 0x11]
    ensures ExpandedWord(KEY256, 11) == [0x20, 0x67, 0xfc, 0xde]
  {
    hide SBox, ExpandedWord;
    MoreWords256();
    var w8, w9, w10 := [0x9b, 0xa3, 0x54, 0x11], [0x8e, 0x69, 0x25, 0xaf], [0xa5, 0x1a, 0x8b, 0x5f];
    NextWord(KEY256, 9, [0x15, 0xca, 0x71, 0xbe], w8, w8);
    NextWord(KEY256, 10, [0x2b, 0x73, 0xae, 0xf0], w9, w9);
    NextWord(KEY256, 11, [0x85, 0x7d, 0x77, 0x81], w10, w10);
  }
}
