/** The AES cipher object of src/crypto/aes.c: key setup, encryption and decryption in place. */
module Aes {
  import opened Gf256
  import opened Fips197
  import opened AesTables
  import opened AesRounds

  // ----- Rounds on state buffers

  method StoreColumn(out: array<bv8>, column: nat, w: Word)
    requires out.Length == 16 && column < 4
    modifies out
    ensures out[..] == old(out[..column * 4]) + w + old(out[column * 4 + 4..])
  {
    var c := column * 4;
    out[c], out[c + 1], out[c + 2], out[c + 3] := w[0], w[1], w[2], w[3];
  }

  method Round(table: seq<Entry>, stride: int, input: array<bv8>, out: array<bv8>, key: Block)
    requires |table| == 256 && input.Length == out.Length == 16 && input != out
    modifies out
    ensures out[..] == RoundOutput(table, stride, input[..], key)
  {
    hide Output;
    StoreColumn(out, 0, Output(table, stride, input[..], key, 0));
    StoreColumn(out, 1, Output(table, stride, input[..], key, 1));
    StoreColumn(out, 2, Output(table, stride, input[..], key, 2));
    StoreColumn(out, 3, Output(table, stride, input[..], key, 3));
  }

  /**
   * The intermediate rounds, swapping the two buffers after each: the result lands in `out` because the
   * number of rounds is odd.
   */
  method CryptRounds(table: seq<Entry>, stride: int, input: array<bv8>, out: array<bv8>, keys: seq<Block>)
    requires |table| == 256 && input.Length == out.Length == 16 && input != out
    requires |keys| % 2 == 1
    modifies input, out
    ensures out[..] == Rounds(table, stride, old(input[..]), keys)
  {
    hide RoundOutput;
    var a, b := input, out;
    var n := 0;
    assert keys[..0] == [];
    while n < |keys|
      invariant 0 <= n <= |keys|
      invariant (a, b) == if n % 2 == 0 then (input, out) else (out, input)
      invariant a[..] == Rounds(table, stride, old(input[..]), keys[..n])
    {
      assert keys[..n + 1][..n] == keys[..n];
      Round(table, stride, a, b, keys[n]);
      a, b := b, a;
      n := n + 1;
    }
    assert keys[..n] == keys;
  }

  /** ShiftRows and SubBytes (or their inverses) byte by byte, then AddRoundKey. */
  method Final(table: seq<Entry>, stride: int, input: Block, out: array<bv8>, key: Block)
    requires |table| == 256 && out.Length == 16
    modifies out
    ensures out[..] == FinalOutput(table, stride, input, key)
  {
    hide Index;
    var inOffset := 0;
    for outOffset := 0 to 16
      invariant inOffset == Strided(stride, outOffset)
      invariant forall i :: 0 <= i < outOffset ==> out[i] == Walk(table, stride, input)[i]
    {
      out[outOffset] := table[Index(input[inOffset])][0];
      inOffset := (inOffset + stride) % 16;
    }
    assert out[..] == Walk(table, stride, input);
    AddKey(out, key);
  }

  method AddKey(state: array<bv8>, key: Block)
    requires state.Length == 16
    modifies state
    ensures state[..] == AddRoundKey(old(state[..]), key)
  {
    hide Add;
    for i := 0 to 16
      invariant forall j :: 0 <= j < i ==> state[j] == Add(old(state[j]), key[j])
      invariant forall j :: i <= j < 16 ==> state[j] == old(state[j])
    {
      state[i] := Add(state[i], key[i]);
    }
  }

  // ----- Key setup

  function WordAt(bytes: seq<bv8>, i: nat): Word
    requires 4 * i + 4 <= |bytes|
  {
    bytes[4 * i..4 * i + 4]
  }

  function BlockAt(bytes: seq<bv8>, i: nat): Block
    requires 16 * i + 16 <= |bytes|
  {
    bytes[16 * i..16 * i + 16]
  }

  function Blocks(bytes: seq<bv8>, n: nat): (w: seq<Block>)
    requires 16 * n <= |bytes|
  {
    seq(n, i requires 0 <= i < n => BlockAt(bytes, i))
  }

  lemma FirstByte(mix: seq<Entry>, b: bv8)
    requires MixTable(mix)
    ensures |mix| == 256 && mix[Index(b)][0] == SBox(b)
  {
    hide SBox, Index, Mul;
  }

  /** Applies the S-box to the low byte and rotates left by a byte, four times over. */
  method KeySBox(mix: seq<Entry>, column: Word) returns (w: Word)
    requires MixTable(mix)
    ensures w == SubWord(column)
  {
    hide SBox, Index, MixTable;
    w := column;
    for i := 0 to 4
      invariant i == 0 ==> w == column
      invariant i == 1 ==> w == [column[3], SBox(column[0]), column[1], column[2]]
      invariant i == 2 ==> w == [column[2], SBox(column[3]), SBox(column[0]), column[1]]
      invariant i == 3 ==> w == [column[1], SBox(column[2]), SBox(column[3]), SBox(column[0])]
      invariant i == 4 ==> w == SubWord(column)
    {
      FirstByte(mix, w[0]);
      var byte := mix[Index(w[0])][0];
      w := [w[3], byte, w[1], w[2]];
    }
  }

  /** The middle column of a 256-bit key block: the only offset and length whose bits combine to 48. */
  predicate MiddleColumn(offset: nat, keylen: nat)
    requires offset <= 32 && keylen <= 32
  {
    (offset as bv8) | (keylen as bv8) == 48
  }

  lemma MiddleColumnOnly(o: nat, nk: nat)
    requires o < nk && (nk == 4 || nk == 6 || nk == 8)
    ensures MiddleColumn(4 * o, 4 * nk) <==> nk > 6 && o == 4
  {
    if o == 0 {} else if o == 1 {} else if o == 2 {} else if o == 3 {}
    else if o == 4 {} else if o == 5 {} else if o == 6 {} else { assert o == 7; }
  }

  lemma DivMod(nk: nat, q: nat, o: nat)
    requires o < nk && (nk == 4 || nk == 6 || nk == 8)
    ensures (nk * q + o) / nk == q && (nk * q + o) % nk == o
  {
    if nk == 4 {} else if nk == 6 {} else {}
  }

  /** One step of the expansion is the schedule core of section 5.2 added to the word `Nk` back. */
  lemma ExpandStep(key: seq<bv8>, next: nat, q: nat, o: nat, tmp: Word)
    requires ValidKey(key) && q > 0 && o < |key| / 4 && next == |key| / 4 * q + o && next >= |key| / 4
    requires tmp == CoreStep(ExpandedWord(key, next - 1), |key| / 4, q, o)
    ensures ExpandedWord(key, next) == AddWords(tmp, ExpandedWord(key, next - |key| / 4))
  {
    hide SBox, Add, Rcon, AddWords;
    var nk := |key| / 4;
    var w := ExpandedWord(key, next - 1);
    DivMod(nk, q, o);
    assert RotWord(SubWord(w)) == SubWord(RotWord(w));
    AddWordsComm(ExpandedWord(key, next - nk), ScheduleCore(w, nk, next));
  }

  ghost function CoreStep(w: Word, nk: nat, q: nat, o: nat): Word
    requires q > 0
  {
    if o == 0 then AddWords(RotWord(SubWord(w)), [Rcon(q), 0, 0, 0])
    else if nk > 6 && o == 4 then SubWord(w)
    else w
  }

  lemma AddWordsComm(a: Word, b: Word)
    ensures AddWords(a, b) == AddWords(b, a)
  {
    hide Add;
    AddComm(a[0], b[0]);
    AddComm(a[1], b[1]);
    AddComm(a[2], b[2]);
    AddComm(a[3], b[3]);
  }

  method SetWord(bytes: array<bv8>, i: nat, w: Word)
    requires 4 * i + 4 <= bytes.Length
    modifies bytes
    ensures bytes[..] == old(bytes[..4 * i]) + w + old(bytes[4 * i + 4..])
  {
    var c := 4 * i;
    bytes[c], bytes[c + 1], bytes[c + 2], bytes[c + 3] := w[0], w[1], w[2], w[3];
  }

  /** The first `n` words of `bytes` are those of the expanded key. */
  ghost predicate Expanded(bytes: seq<bv8>, key: seq<bv8>, n: nat)
    requires ValidKey(key)
  {
    4 * n <= |bytes| && forall i: nat :: i < n ==> WordAt(bytes, i) == ExpandedWord(key, i)
  }

  lemma ExpandedNext(bytes: seq<bv8>, next: seq<bv8>, key: seq<bv8>, n: nat, w: Word)
    requires ValidKey(key) && Expanded(bytes, key, n) && 4 * n + 4 <= |bytes|
    requires w == ExpandedWord(key, n) && next == bytes[..4 * n] + w + bytes[4 * n + 4..]
    ensures Expanded(next, key, n + 1)
  {
    hide ExpandedWord;
    forall i: nat | i < n + 1
      ensures WordAt(next, i) == ExpandedWord(key, i)
    {
      if i < n {
        assert WordAt(next, i) == WordAt(bytes, i);
      }
    }
  }

  lemma RawKeyExpanded(bytes: seq<bv8>, key: seq<bv8>)
    requires ValidKey(key) && |bytes| >= |key| && bytes[..|key|] == key
    ensures Expanded(bytes, key, |key| / 4)
  {
    forall i: nat | i < |key| / 4
      ensures WordAt(bytes, i) == ExpandedWord(key, i)
    {
      assert bytes[4 * i..4 * i + 4] == bytes[..|key|][4 * i..4 * i + 4];
    }
  }

  /** The S-box, rotation and round constant of one step, as far as its offset calls for them. */
  method NextColumn(mix: seq<Entry>, column: Word, offset: nat, keylen: nat, rcon: bv8, ghost q: nat)
    returns (tmp: Word, next: bv8)
    requires MixTable(mix) && offset < keylen && offset % 4 == 0 && q > 0
    requires keylen == 16 || keylen == 24 || keylen == 32
    requires rcon == Rcon(if offset == 0 then q else q + 1)
    ensures tmp == CoreStep(column, keylen / 4, q, offset / 4)
    ensures next == Rcon(q + 1)
  {
    hide MixTable, SubWord, RotWord, AddWords, Rcon, Double, MiddleColumn;
    tmp, next := column, rcon;
    MiddleColumnOnly(offset / 4, keylen / 4);
    if offset == 0 || MiddleColumn(offset, keylen) {
      tmp := KeySBox(mix, tmp);
    }
    if offset == 0 {
      tmp := RotWord(tmp);
      tmp := AddWords(tmp, [rcon, 0, 0, 0]);
      RconStep(q);
      next := Double(rcon);
    }
  }

  method CopyKey(enc: array<bv8>, key: seq<bv8>)
    requires ValidKey(key) && enc.Length == 240
    modifies enc
    ensures Expanded(enc[..], key, |key| / 4)
  {
    for i := 0 to |key|
      invariant enc[..i] == key[..i]
    {
      enc[i] := key[i];
    }
    RawKeyExpanded(enc[..], key);
  }

  /** One pass of the expansion loop, at word `next`, which is column `offset / 4` of key block `q`. */
  method ExpandColumn(mix: seq<Entry>, enc: array<bv8>, key: seq<bv8>, next: nat, offset: nat, prev: Word, rcon: bv8,
                      ghost q: nat) returns (tmp: Word, rcon': bv8)
    requires MixTable(mix) && ValidKey(key) && |key| / 4 <= next && 4 * next + 4 <= enc.Length
    requires q > 0 && offset < |key| && offset % 4 == 0 && next == |key| / 4 * q + offset / 4
    requires rcon == Rcon(if offset == 0 then q else q + 1)
    requires Expanded(enc[..], key, next) && prev == ExpandedWord(key, next - 1)
    modifies enc
    ensures Expanded(enc[..], key, next + 1) && tmp == ExpandedWord(key, next) && rcon' == Rcon(q + 1)
  {
    hide MixTable, ExpandedWord, CoreStep, AddWords, Rcon, Expanded;
    var nk := |key| / 4;
    tmp, rcon' := NextColumn(mix, prev, offset, |key|, rcon, q);
    ExpandStep(key, next, q, offset / 4, tmp);
    ExpandedAt(enc[..], key, next, next - nk);
    tmp := AddWords(tmp, WordAt(enc[..], next - nk));
    ghost var before := enc[..];
    SetWord(enc, next, tmp);
    ExpandedNext(before, enc[..], key, next, tmp);
  }

  method ExpandKey(mix: seq<Entry>, enc: array<bv8>, key: seq<bv8>, rounds: nat)
    requires MixTable(mix) && ValidKey(key) && enc.Length == 240 && rounds == RoundKeyCount(key)
    modifies enc
    ensures Expanded(enc[..], key, 4 * rounds)
  {
    hide MixTable, ExpandedWord, Rcon, Expanded;
    var nk := |key| / 4;
    CopyKey(enc, key);
    var offset := 0;
    var rcon: bv8 := 0x01;
    var next := nk;
    var tmp := WordAt(enc[..], next - 1);
    ghost var q := 1;
    RconStep(1);
    ExpandedAt(enc[..], key, nk, nk - 1);
    while next < 4 * rounds
      invariant nk <= next <= 4 * rounds && next == nk * q + offset / 4
      invariant 0 <= offset < |key| && offset % 4 == 0 && q > 0
      invariant rcon == Rcon(if offset == 0 then q else q + 1)
      invariant Expanded(enc[..], key, next)
      invariant tmp == ExpandedWord(key, next - 1)
    {
      tmp, rcon := ExpandColumn(mix, enc, key, next, offset, tmp, rcon, q);
      offset := offset + 4;
      if offset == |key| {
        offset := 0;
        q := q + 1;
      }
      next := next + 1;
    }
  }

  lemma ExpandedAt(bytes: seq<bv8>, key: seq<bv8>, n: nat, i: nat)
    requires ValidKey(key) && Expanded(bytes, key, n) && i < n
    ensures 4 * i + 4 <= |bytes| && WordAt(bytes, i) == ExpandedWord(key, i)
  {
    hide ExpandedWord;
  }

  lemma RconStep(i: nat)
    requires i > 0
    ensures Rcon(1) == 1 && Double(Rcon(i)) == Rcon(i + 1)
  {
    hide XTime, Double;
    DoubleIsXTime(Rcon(i));
  }

  lemma ExpandedBlock(bytes: seq<bv8>, key: seq<bv8>, n: nat, i: nat)
    requires ValidKey(key) && Expanded(bytes, key, 4 * n) && i < n
    ensures 16 * i + 16 <= |bytes| && BlockAt(bytes, i) == RoundKey(key, i)
  {
    hide ExpandedWord, Expanded, BlockAt, WordAt;
    ExpandedAt(bytes, key, 4 * n, 4 * i);
    ExpandedAt(bytes, key, 4 * n, 4 * i + 1);
    ExpandedAt(bytes, key, 4 * n, 4 * i + 2);
    ExpandedAt(bytes, key, 4 * n, 4 * i + 3);
    FourWords(bytes, i);
  }

  lemma FourWords(bytes: seq<bv8>, i: nat)
    requires 16 * i + 16 <= |bytes|
    ensures BlockAt(bytes, i)
         == WordAt(bytes, 4 * i) + WordAt(bytes, 4 * i + 1) + WordAt(bytes, 4 * i + 2) + WordAt(bytes, 4 * i + 3)
  {
    var k := 16 * i;
    assert bytes[k..k + 16] == bytes[k..k + 4] + bytes[k + 4..k + 8] + bytes[k + 8..k + 12] + bytes[k + 12..k + 16];
  }

  /** A fully expanded key holds the round keys of the standard. */
  lemma ExpandedBlocks(bytes: seq<bv8>, key: seq<bv8>)
    requires ValidKey(key) && Expanded(bytes, key, 4 * RoundKeyCount(key))
    ensures 16 * RoundKeyCount(key) <= |bytes|
    ensures Blocks(bytes, RoundKeyCount(key)) == KeySchedule(key)
  {
    hide RoundKey, BlockAt;
    forall i: nat | i < RoundKeyCount(key)
      ensures Blocks(bytes, RoundKeyCount(key))[i] == KeySchedule(key)[i]
    {
      ExpandedBlock(bytes, key, RoundKeyCount(key), i);
    }
  }

  const ZERO: Block := [0, 0, 0, 0, 0, 0, 0, 0, 0, 0, 0, 0, 0, 0, 0, 0]

  lemma AddZeroKey(s: Block)
    ensures AddRoundKey(s, ZERO) == s
  {
    hide Add;
    forall i | 0 <= i < 16
      ensures AddRoundKey(s, ZERO)[i] == s[i]
    {
      AddZero(s[i]);
    }
  }

  /** A final encryption round followed by a decryption round, both with a zero key, is InvMixColumns. */
  lemma InvMixColumnsByRounds(mix: seq<Entry>, inv: seq<Entry>, k: Block)
    requires MixTable(mix) && InvMixTable(inv)
    ensures |mix| == |inv| == 256
    ensures RoundOutput(inv, INVSHIFTROWS, FinalOutput(mix, SHIFTROWS, k, ZERO), ZERO) == InvMixColumns(k)
  {
    hide MixTable, InvMixTable, RoundOutput, FinalOutput, AddRoundKey, SubBytes, ShiftRows, InvSubBytes, InvShiftRows;
    hide InvMixColumns;
    TableSize(mix);
    TableSize(inv);
    FinalIsStandard(mix, k, ZERO);
    AddZeroKey(ShiftRows(SubBytes(k)));
    InvRoundIsStandard(inv, ShiftRows(SubBytes(k)), ZERO);
    ShiftRowsInverse(SubBytes(k));
    SubBytesInverse(k);
    AddZeroKey(InvMixColumns(k));
  }

  method SetBlock(bytes: array<bv8>, i: nat, b: Block)
    requires 16 * i + 16 <= bytes.Length
    modifies bytes
    ensures bytes.Length == |bytes[..]| && BlockAt(bytes[..], i) == b
    ensures forall j: nat :: j != i && 16 * j + 16 <= bytes.Length ==>
      BlockAt(bytes[..], j) == old(BlockAt(bytes[..], j))
  {
    for k := 0 to 16
      invariant forall j :: 0 <= j < k ==> bytes[16 * i + j] == b[j]
      invariant forall j :: 0 <= j < bytes.Length && !(16 * i <= j < 16 * i + k) ==> bytes[j] == old(bytes[j])
    {
      bytes[16 * i + k] := b[k];
    }
  }

  /** Block `i` of the decryption schedule of `enc`. */
  ghost function DecryptionKey(enc: seq<Block>, i: nat): Block
    requires i < |enc|
  {
    if i == 0 || i == |enc| - 1 then enc[|enc| - 1 - i] else InvMixColumns(enc[|enc| - 1 - i])
  }

  method InvertKey(mix: seq<Entry>, inv: seq<Entry>, enc: array<bv8>, dec: array<bv8>, rounds: nat)
    requires MixTable(mix) && InvMixTable(inv) && 2 <= rounds <= 15
    requires enc.Length == dec.Length == 240 && enc != dec
    modifies dec
    ensures IsDecryptionSchedule(Blocks(enc[..], rounds), Blocks(dec[..], rounds))
  {
    hide MixTable, InvMixTable, FinalOutput, RoundOutput, InvMixColumns, BlockAt;
    TableSize(mix);
    TableSize(inv);
    ghost var w := Blocks(enc[..], rounds);
    var temp := new bv8[16];
    var out := new bv8[16];
    var d, e := rounds - 1, 0;
    SetBlock(dec, d, BlockAt(enc[..], e));
    d, e := d - 1, e + 1;
    while d > 0
      invariant 0 <= d < rounds && e == rounds - 1 - d
      invariant forall i: nat :: d < i < rounds ==> BlockAt(dec[..], i) == DecryptionKey(w, i)
    {
      var k := BlockAt(enc[..], e);
      Final(mix, SHIFTROWS, k, temp, ZERO);
      CryptRounds(inv, INVSHIFTROWS, temp, out, [ZERO]);
      InvMixColumnsByRounds(mix, inv, k);
      OneRound(inv, FinalOutput(mix, SHIFTROWS, k, ZERO));
      SetBlock(dec, d, out[..]);
      d, e := d - 1, e + 1;
    }
    SetBlock(dec, d, BlockAt(enc[..], e));
    assert forall i: nat :: i < rounds ==> Blocks(dec[..], rounds)[i] == DecryptionKey(w, i);
  }

  lemma OneRound(inv: seq<Entry>, s: Block)
    requires |inv| == 256
    ensures Rounds(inv, INVSHIFTROWS, s, [ZERO]) == RoundOutput(inv, INVSHIFTROWS, s, ZERO)
  {
    hide RoundOutput;
    assert [ZERO][..0] == [];
  }

  // ----- The cipher object

  /** The static lookup tables, all zero until first needed. */
  class Tables {
    const mix: array<Entry>
    const inv: array<Entry>

    ghost predicate Generated()
      reads mix, inv
    {
      MixTable(mix[..]) && InvMixTable(inv[..])
    }

    ghost predicate Valid()
      reads mix, inv
    {
      mix.Length == 256 && inv.Length == 256 && mix != inv && (mix[0][0] != 0 ==> Generated())
    }

    constructor ()
      ensures Valid() && fresh(mix) && fresh(inv)
    {
      mix := new Entry[256](_ => [0, 0, 0, 0, 0, 0, 0, 0]);
      inv := new Entry[256](_ => [0, 0, 0, 0, 0, 0, 0, 0]);
    }

    method Ensure()
      requires Valid()
      modifies mix, inv
      ensures Valid() && Generated()
    {
      hide MixTable, InvMixTable;
      if mix[0][0] == 0 {
        Generate(mix, inv);
      }
    }
  }

  const EINVAL := 22

  class Context {
    const encrypt: array<bv8>
    const decrypt: array<bv8>
    var rounds: nat

    ghost predicate Valid() {
      encrypt.Length == decrypt.Length == 240 && encrypt != decrypt
    }

    /** Both schedules belong to `key`. */
    ghost predicate Scheduled(key: seq<bv8>)
      reads this, encrypt, decrypt
      requires ValidKey(key)
    {
      && Valid() && rounds == RoundKeyCount(key)
      && Blocks(encrypt[..], rounds) == KeySchedule(key)
      && IsDecryptionSchedule(KeySchedule(key), Blocks(decrypt[..], rounds))
    }

    constructor ()
      ensures Valid() && fresh(encrypt) && fresh(decrypt)
    {
      encrypt := new bv8[240](_ => 0);
      decrypt := new bv8[240](_ => 0);
      rounds := 0;
    }

    method SetKey(tables: Tables, key: seq<bv8>) returns (rc: int)
      requires Valid() && tables.Valid()
      modifies this, encrypt, decrypt, tables.mix, tables.inv
      ensures tables.Valid() && tables.Generated()
      ensures rc == if ValidKey(key) then 0 else -EINVAL
      ensures rc == 0 ==> Scheduled(key)
      ensures rc != 0 ==> unchanged(this, encrypt, decrypt)
    {
      hide MixTable, InvMixTable, Expanded, RoundKey, IsDecryptionSchedule, BlockAt;
      tables.Ensure();
      if |key| == 128 / 8 {
        rounds := 11;
      } else if |key| == 192 / 8 {
        rounds := 13;
      } else if |key| == 256 / 8 {
        rounds := 15;
      } else {
        return -EINVAL;
      }
      ExpandKey(tables.mix[..], encrypt, key, rounds);
      ExpandedBlocks(encrypt[..], key);
      InvertKey(tables.mix[..], tables.inv[..], encrypt, decrypt, rounds);
      return 0;
    }

    /** Encrypts one block; `dst` may be `src`. */
    method Encrypt(tables: Tables, src: array<bv8>, dst: array<bv8>, ghost key: seq<bv8>)
      requires tables.Valid() && tables.Generated() && ValidKey(key) && Scheduled(key)
      requires src.Length == dst.Length == 16
      modifies dst
      ensures dst[..] == Cipher(old(src[..]), KeySchedule(key))
    {
      hide MixTable, InvMixTable, RoundKey, BlockAt, Rounds, FinalOutput, AddRoundKey, Cipher;
      ghost var input := src[..];
      var keys := Blocks(encrypt[..], rounds);
      EncryptionIsCipher(tables.mix[..], input, keys);
      CryptBlock(tables.mix[..], SHIFTROWS, src[..], dst, keys);
    }

    /** Decrypts one block; `dst` may be `src`. */
    method Decrypt(tables: Tables, src: array<bv8>, dst: array<bv8>, ghost key: seq<bv8>)
      requires tables.Valid() && tables.Generated() && ValidKey(key) && Scheduled(key)
      requires src.Length == dst.Length == 16
      modifies dst
      ensures dst[..] == InvCipher(old(src[..]), KeySchedule(key))
    {
      hide MixTable, InvMixTable, RoundKey, BlockAt, Rounds, FinalOutput, AddRoundKey, InvCipher, InvMixColumns;
      ghost var input := src[..];
      var keys := Blocks(decrypt[..], rounds);
      DecryptionIsInvCipher(tables.inv[..], input, KeySchedule(key), keys);
      CryptBlock(tables.inv[..], INVSHIFTROWS, src[..], dst, keys);
    }
  }

  /** The body shared by encryption and decryption, over two local state buffers. */
  method CryptBlock(table: seq<Entry>, stride: int, src: Block, dst: array<bv8>, keys: seq<Block>)
    requires |table| == 256 && dst.Length == 16 && |keys| >= 3 && |keys| % 2 == 1
    modifies dst
    ensures dst[..] == Crypt(table, stride, src, keys)
  {
    hide Rounds, FinalOutput, AddRoundKey;
    var n := |keys|;
    var input := new bv8[16](i requires 0 <= i < 16 => src[i]);
    var out := new bv8[16];
    assert input[..] == src;
    AddKey(input, keys[0]);
    CryptRounds(table, stride, input, out, keys[1..n - 1]);
    Final(table, stride, out[..], dst, keys[n - 1]);
  }

  /** For every key of a supported length, decryption and encryption undo each other on every block. */
  lemma AesRoundTrip(key: seq<bv8>, input: Block)
    requires ValidKey(key)
    ensures InvCipher(Cipher(input, KeySchedule(key)), KeySchedule(key)) == input
    ensures Cipher(InvCipher(input, KeySchedule(key)), KeySchedule(key)) == input
  {
    hide Cipher, InvCipher, RoundKey;
    CipherRoundTrip(input, KeySchedule(key));
    InvCipherRoundTrip(input, KeySchedule(key));
  }
}
