/** The table-driven rounds of src/crypto/aes.c, and their agreement with FIPS 197. */
module AesRounds {
  import opened Gf256
  import opened Fips197
  import opened AesTables

  const SHIFTROWS := 5
  const INVSHIFTROWS := -3

  // ----- One column of one round

  /** The input offset `n` strides from the start, modulo 16. */
  function Strided(stride: int, n: nat): (i: nat)
    ensures i < 16
  {
    if n == 0 then 0 else (Strided(stride, n - 1) + stride) % 16
  }

  lemma {:induction false} StridedIsProduct(stride: int, n: nat)
    ensures Strided(stride, n) == (stride * n) % 16
  {
    if n > 0 {
      StridedIsProduct(stride, n - 1);
      assert stride * n == stride * (n - 1) + stride;
      ModAdd(stride * (n - 1), stride);
    }
  }

  lemma ModAdd(x: int, y: int)
    ensures (x % 16 + y) % 16 == (x + y) % 16
  {}

  /** Column `column` of the matrix times the entry's byte. */
  function EntryColumn(entry: Entry, column: nat): Word
    requires column < 4
  {
    entry[4 - column..8 - column]
  }

  function Column(table: seq<Entry>, stride: int, input: Block, offset: nat): Word
    requires |table| == 256
  {
    var byte := input[Strided(stride, offset)];
    EntryColumn(table[Index(byte)], offset % 4)
  }

  function Output(table: seq<Entry>, stride: int, input: Block, key: Block, column: nat): Word
    requires |table| == 256 && column < 4
  {
    var offset := column * 4;
    AddWords(AddWords(AddWords(AddWords(
      Column(table, stride, input, offset),
      Column(table, stride, input, offset + 1)),
      Column(table, stride, input, offset + 2)),
      Column(table, stride, input, offset + 3)),
      key[offset..offset + 4])
  }

  function RoundOutput(table: seq<Entry>, stride: int, input: Block, key: Block): Block
    requires |table| == 256
  {
    Output(table, stride, input, key, 0) + Output(table, stride, input, key, 1)
    + Output(table, stride, input, key, 2) + Output(table, stride, input, key, 3)
  }

  /** The first byte of the entry of each input byte, in stride order. */
  function Walk(table: seq<Entry>, stride: int, input: Block): Block
    requires |table| == 256
  {
    seq(16, i requires 0 <= i < 16 => table[Index(input[Strided(stride, i)])][0])
  }

  function FinalOutput(table: seq<Entry>, stride: int, input: Block, key: Block): Block
    requires |table| == 256
  {
    AddRoundKey(Walk(table, stride, input), key)
  }

  // ----- Agreement with the standard

  /** A stride of +5 walks the bytes in the order that ShiftRows brings them. */
  lemma ShiftRowsStride(i: nat)
    requires i < 16
    ensures Strided(SHIFTROWS, i) == Shifted(i, 4)
  {
    hide Strided;
    StridedIsProduct(SHIFTROWS, i);
    Mod16(SHIFTROWS * i, i + 4 * (i % 4), i / 4);
  }

  /** A stride of -3 walks the bytes in the order that InvShiftRows brings them. */
  lemma InvShiftRowsStride(i: nat)
    requires i < 16
    ensures Strided(INVSHIFTROWS, i) == Shifted(i, -4)
  {
    hide Strided;
    StridedIsProduct(INVSHIFTROWS, i);
    Mod16(INVSHIFTROWS * i, i - 4 * (i % 4), -(i / 4));
  }

  lemma AddFive(a: bv8, b: bv8, c: bv8, d: bv8, k: bv8)
    ensures Add(Add(Add(Add(a, b), c), d), k) == Add(Sum4(a, b, c, d), k)
  {
    hide Add;
    AddAssoc(Add(a, b), c, d);
  }

  lemma MixColumnOfEntries(a: bv8, b: bv8, c: bv8, d: bv8, k: Word)
    ensures AddWords(AddWords(AddWords(AddWords(
              EntryColumn(MixEntry(a), 0), EntryColumn(MixEntry(b), 1)),
              EntryColumn(MixEntry(c), 2)), EntryColumn(MixEntry(d), 3)), k)
         == AddWords([MixRow(0, a, b, c, d), MixRow(1, a, b, c, d), MixRow(2, a, b, c, d), MixRow(3, a, b, c, d)], k)
  {
    hide Add, Mul, Sum4;
    ZeroMul(a);
    ZeroMul(b);
    ZeroMul(c);
    ZeroMul(d);
    AddFive(Mul(2, a), Mul(3, b), c, d, k[0]);
    AddFive(a, Mul(2, b), Mul(3, c), d, k[1]);
    AddFive(a, b, Mul(2, c), Mul(3, d), k[2]);
    AddFive(Mul(3, a), b, c, Mul(2, d), k[3]);
  }

  lemma InvMixColumnOfEntries(a: bv8, b: bv8, c: bv8, d: bv8, k: Word)
    ensures AddWords(AddWords(AddWords(AddWords(
              EntryColumn(InvMixEntry(a), 0), EntryColumn(InvMixEntry(b), 1)),
              EntryColumn(InvMixEntry(c), 2)), EntryColumn(InvMixEntry(d), 3)), k)
         == AddWords([InvMixRow(0, a, b, c, d), InvMixRow(1, a, b, c, d),
                      InvMixRow(2, a, b, c, d), InvMixRow(3, a, b, c, d)], k)
  {
    hide Add, Mul, Sum4;
    AddFive(Mul(14, a), Mul(11, b), Mul(13, c), Mul(9, d), k[0]);
    AddFive(Mul(9, a), Mul(14, b), Mul(11, c), Mul(13, d), k[1]);
    AddFive(Mul(13, a), Mul(9, b), Mul(14, c), Mul(11, d), k[2]);
    AddFive(Mul(11, a), Mul(13, b), Mul(9, c), Mul(14, d), k[3]);
  }

  lemma MixColumnByte(table: seq<Entry>, s: Block, offset: nat)
    requires MixTable(table) && offset < 16
    ensures Column(table, SHIFTROWS, s, offset) == EntryColumn(MixEntry(ShiftRows(SubBytes(s))[offset]), offset % 4)
  {
    hide SBox, Index, Shifted, Strided, MixEntry, EntryColumn;
    ShiftRowsStride(offset);
  }

  lemma InvMixColumnByte(table: seq<Entry>, s: Block, offset: nat)
    requires InvMixTable(table) && offset < 16
    ensures Column(table, INVSHIFTROWS, s, offset)
         == EntryColumn(InvMixEntry(InvSubBytes(InvShiftRows(s))[offset]), offset % 4)
  {
    hide InvSBox, Index, Shifted, Strided, InvMixEntry, EntryColumn;
    InvShiftRowsStride(offset);
  }

  lemma KeyedColumn(u: Block, key: Block, c: nat)
    requires c + 4 <= 16
    ensures AddRoundKey(u, key)[c..c + 4] == AddWords(u[c..c + 4], key[c..c + 4])
  {
    hide Add;
  }

  lemma MixedColumn(t: Block, c: nat)
    requires c < 16 && c % 4 == 0
    ensures MixColumns(t)[c..c + 4]
         == [MixRow(0, t[c], t[c + 1], t[c + 2], t[c + 3]), MixRow(1, t[c], t[c + 1], t[c + 2], t[c + 3]),
             MixRow(2, t[c], t[c + 1], t[c + 2], t[c + 3]), MixRow(3, t[c], t[c + 1], t[c + 2], t[c + 3])]
  {
    hide MixRow, MixColumns;
    MixColumnsColumn(t, c);
  }

  lemma MixOutput(table: seq<Entry>, s: Block, key: Block, column: nat)
    requires MixTable(table) && column < 4
    ensures Output(table, SHIFTROWS, s, key, column)
         == AddRoundKey(MixColumns(ShiftRows(SubBytes(s))), key)[column * 4..column * 4 + 4]
  {
    hide Column, EntryColumn, MixEntry, MixRow, MixColumns, MixTable, SubBytes, ShiftRows, AddWords, AddRoundKey;
    var c := column * 4;
    var t := ShiftRows(SubBytes(s));
    MixColumnByte(table, s, c);
    MixColumnByte(table, s, c + 1);
    MixColumnByte(table, s, c + 2);
    MixColumnByte(table, s, c + 3);
    MixColumnOfEntries(t[c], t[c + 1], t[c + 2], t[c + 3], key[c..c + 4]);
    MixedColumn(t, c);
    KeyedColumn(MixColumns(t), key, c);
  }

  lemma InvMixedColumn(t: Block, c: nat)
    requires c < 16 && c % 4 == 0
    ensures InvMixColumns(t)[c..c + 4]
         == [InvMixRow(0, t[c], t[c + 1], t[c + 2], t[c + 3]), InvMixRow(1, t[c], t[c + 1], t[c + 2], t[c + 3]),
             InvMixRow(2, t[c], t[c + 1], t[c + 2], t[c + 3]), InvMixRow(3, t[c], t[c + 1], t[c + 2], t[c + 3])]
  {
    hide InvMixRow, InvMixColumns;
    InvMixColumnsColumn(t, c);
  }

  lemma InvMixOutput(table: seq<Entry>, s: Block, key: Block, column: nat)
    requires InvMixTable(table) && column < 4
    ensures Output(table, INVSHIFTROWS, s, key, column)
         == AddRoundKey(InvMixColumns(InvSubBytes(InvShiftRows(s))), key)[column * 4..column * 4 + 4]
  {
    hide Column, EntryColumn, InvMixEntry, InvMixRow, InvMixColumns, InvMixTable;
    hide InvSubBytes, InvShiftRows, AddWords, AddRoundKey;
    var c := column * 4;
    var t := InvSubBytes(InvShiftRows(s));
    InvMixColumnByte(table, s, c);
    InvMixColumnByte(table, s, c + 1);
    InvMixColumnByte(table, s, c + 2);
    InvMixColumnByte(table, s, c + 3);
    InvMixColumnOfEntries(t[c], t[c + 1], t[c + 2], t[c + 3], key[c..c + 4]);
    InvMixedColumn(t, c);
    KeyedColumn(InvMixColumns(t), key, c);
  }

  lemma JoinColumns(t: Block)
    ensures t[0..4] + t[4..8] + t[8..12] + t[12..16] == t
  {}

  /** An intermediate encryption round is SubBytes, ShiftRows, MixColumns and AddRoundKey. */
  lemma RoundIsStandard(table: seq<Entry>, s: Block, key: Block)
    requires MixTable(table)
    ensures RoundOutput(table, SHIFTROWS, s, key) == AddRoundKey(MixColumns(ShiftRows(SubBytes(s))), key)
  {
    hide Output, MixTable, SubBytes, ShiftRows, MixColumns, AddRoundKey;
    assert |table| == 256 by { TableSize(table); }
    MixOutput(table, s, key, 0);
    MixOutput(table, s, key, 1);
    MixOutput(table, s, key, 2);
    MixOutput(table, s, key, 3);
    JoinColumns(AddRoundKey(MixColumns(ShiftRows(SubBytes(s))), key));
  }

  /** An intermediate decryption round is InvShiftRows, InvSubBytes, InvMixColumns and AddRoundKey. */
  lemma InvRoundIsStandard(table: seq<Entry>, s: Block, key: Block)
    requires InvMixTable(table)
    ensures RoundOutput(table, INVSHIFTROWS, s, key) == AddRoundKey(InvMixColumns(InvSubBytes(InvShiftRows(s))), key)
  {
    hide Output, InvMixTable, InvSubBytes, InvShiftRows, InvMixColumns, AddRoundKey;
    assert |table| == 256 by { TableSize(table); }
    InvMixOutput(table, s, key, 0);
    InvMixOutput(table, s, key, 1);
    InvMixOutput(table, s, key, 2);
    InvMixOutput(table, s, key, 3);
    JoinColumns(AddRoundKey(InvMixColumns(InvSubBytes(InvShiftRows(s))), key));
  }

  lemma TableSize(table: seq<Entry>)
    requires MixTable(table) || InvMixTable(table)
    ensures |table| == 256
  {}

  lemma FinalIsStandard(table: seq<Entry>, s: Block, key: Block)
    requires MixTable(table)
    ensures FinalOutput(table, SHIFTROWS, s, key) == AddRoundKey(ShiftRows(SubBytes(s)), key)
  {
    hide SBox, Index, Shifted, Strided, AddRoundKey;
    var u := Walk(table, SHIFTROWS, s);
    forall i | 0 <= i < 16
      ensures u[i] == ShiftRows(SubBytes(s))[i]
    {
      ShiftRowsStride(i);
    }
    assert u == ShiftRows(SubBytes(s));
  }

  lemma InvFinalIsStandard(table: seq<Entry>, s: Block, key: Block)
    requires InvMixTable(table)
    ensures FinalOutput(table, INVSHIFTROWS, s, key) == AddRoundKey(InvSubBytes(InvShiftRows(s)), key)
  {
    hide InvSBox, Index, Shifted, Strided, AddRoundKey;
    var u := Walk(table, INVSHIFTROWS, s);
    forall i | 0 <= i < 16
      ensures u[i] == InvSubBytes(InvShiftRows(s))[i]
    {
      InvShiftRowsStride(i);
    }
    assert u == InvSubBytes(InvShiftRows(s));
  }

  // ----- Whole encryptions and decryptions

  /** The State after applying one intermediate round per key, in order. */
  function Rounds(table: seq<Entry>, stride: int, input: Block, keys: seq<Block>): Block
    requires |table| == 256
  {
    if keys == [] then input
    else RoundOutput(table, stride, Rounds(table, stride, input, keys[..|keys| - 1]), keys[|keys| - 1])
  }

  /** AddRoundKey, the intermediate rounds, then the final round. */
  function Crypt(table: seq<Entry>, stride: int, input: Block, keys: seq<Block>): Block
    requires |table| == 256 && |keys| >= 2
  {
    var n := |keys|;
    FinalOutput(table, stride, Rounds(table, stride, AddRoundKey(input, keys[0]), keys[1..n - 1]), keys[n - 1])
  }

  lemma {:induction false} RoundsAreCipherRounds(table: seq<Entry>, input: Block, keys: seq<Block>, n: nat)
    requires MixTable(table) && n < |keys|
    ensures |table| == 256
    ensures Rounds(table, SHIFTROWS, AddRoundKey(input, keys[0]), keys[1..n + 1]) == CipherRounds(input, keys, n)
    decreases n
  {
    hide MixTable, RoundOutput, AddRoundKey, SubBytes, ShiftRows, MixColumns;
    TableSize(table);
    if n == 0 {
      assert keys[1..1] == [];
    } else {
      RoundsAreCipherRounds(table, input, keys, n - 1);
      assert keys[1..n + 1][..n - 1] == keys[1..n];
      RoundIsStandard(table, CipherRounds(input, keys, n - 1), keys[n]);
    }
  }

  /** Encryption with the generated tables is the cipher of FIPS 197. */
  lemma EncryptionIsCipher(table: seq<Entry>, input: Block, keys: seq<Block>)
    requires MixTable(table) && |keys| >= 2
    ensures |table| == 256
    ensures Crypt(table, SHIFTROWS, input, keys) == Cipher(input, keys)
  {
    hide MixTable, Rounds, CipherRounds, FinalOutput, AddRoundKey, SubBytes, ShiftRows;
    TableSize(table);
    RoundsAreCipherRounds(table, input, keys, |keys| - 2);
    FinalIsStandard(table, CipherRounds(input, keys, |keys| - 2), keys[|keys| - 1]);
  }

  /** `dec` is the decryption schedule of `enc`: reversed, with InvMixColumns on all but the end keys. */
  ghost predicate IsDecryptionSchedule(enc: seq<Block>, dec: seq<Block>) {
    && |enc| == |dec| >= 2
    && dec[0] == enc[|enc| - 1] && dec[|enc| - 1] == enc[0]
    && forall i :: 0 < i < |enc| - 1 ==> dec[i] == InvMixColumns(enc[|enc| - 1 - i])
  }

  lemma {:induction false} RoundsAreInvCipherRounds(table: seq<Entry>, input: Block, enc: seq<Block>,
                                                    dec: seq<Block>, n: nat)
    requires InvMixTable(table) && IsDecryptionSchedule(enc, dec) && n < |enc| - 1
    ensures |table| == 256
    ensures Rounds(table, INVSHIFTROWS, AddRoundKey(input, dec[0]), dec[1..n + 1]) == InvCipherRounds(input, enc, n)
    decreases n
  {
    hide InvMixTable, RoundOutput, AddRoundKey, InvSubBytes, InvShiftRows, InvMixColumns;
    TableSize(table);
    if n == 0 {
      assert dec[1..1] == [];
    } else {
      RoundsAreInvCipherRounds(table, input, enc, dec, n - 1);
      assert dec[1..n + 1][..n - 1] == dec[1..n];
      var s := InvCipherRounds(input, enc, n - 1);
      InvRoundIsStandard(table, s, dec[n]);
      InvMixColumnsAdd(InvSubBytes(InvShiftRows(s)), enc[|enc| - 1 - n]);
    }
  }

  /** Decryption is the equivalent inverse cipher of section 5.3.5: it computes the inverse cipher. */
  lemma DecryptionIsInvCipher(table: seq<Entry>, input: Block, enc: seq<Block>, dec: seq<Block>)
    requires InvMixTable(table) && IsDecryptionSchedule(enc, dec)
    ensures |table| == 256
    ensures Crypt(table, INVSHIFTROWS, input, dec) == InvCipher(input, enc)
  {
    hide InvMixTable, Rounds, InvCipherRounds, FinalOutput, AddRoundKey, InvSubBytes, InvShiftRows, InvMixColumns;
    TableSize(table);
    RoundsAreInvCipherRounds(table, input, enc, dec, |enc| - 2);
    InvFinalIsStandard(table, InvCipherRounds(input, enc, |enc| - 2), dec[|enc| - 1]);
  }

  lemma DecryptUndoesEncrypt(mix: seq<Entry>, inv: seq<Entry>, input: Block, enc: seq<Block>, dec: seq<Block>)
    requires MixTable(mix) && InvMixTable(inv) && IsDecryptionSchedule(enc, dec)
    ensures |mix| == |inv| == 256
    ensures Crypt(inv, INVSHIFTROWS, Crypt(mix, SHIFTROWS, input, enc), dec) == input
  {
    hide MixTable, InvMixTable, Crypt, Cipher, InvCipher, InvMixColumns;
    EncryptionIsCipher(mix, input, enc);
    DecryptionIsInvCipher(inv, Cipher(input, enc), enc, dec);
    CipherRoundTrip(input, enc);
  }
}
