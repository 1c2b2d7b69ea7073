/** AES key wrap as src/crypto/aes_wrap.c performs it on its buffers. */
module AesWrap {
  import opened Gf256
  import opened Fips197
  import opened AesTables
  import opened AesRounds
  import opened Aes
  import opened WrapSpec
  import opened WrapShift

  ghost function Encryptor(kek: seq<bv8>): Block -> Block
    requires ValidKey(kek)
  {
    (b: Block) => Cipher(b, KeySchedule(kek))
  }

  ghost function Decryptor(kek: seq<bv8>): Block -> Block
    requires ValidKey(kek)
  {
    (b: Block) => InvCipher(b, KeySchedule(kek))
  }

  const PASSES: nat := 6

  const INITIAL_VALUE: seq<bv8> := [0xa6, 0xa6, 0xa6, 0xa6, 0xa6, 0xa6, 0xa6, 0xa6]

  /** memmove() of `len` bytes, possibly within one buffer; between two buffers it is memcpy(). */
  method Copy(src: array<bv8>, from: nat, dst: array<bv8>, to: nat, len: nat)
    requires from + len <= src.Length && to + len <= dst.Length
    modifies dst
    ensures dst[..] == old(dst[..to]) + old(src[from..from + len]) + old(dst[to + len..])
  {
    forall k | 0 <= k < len {
      dst[to + k] := src[from + k];
    }
  }

  method Load(dest: array<bv8>, buffer: array<bv8>, n: nat, i: nat)
    requires Registers(dest[..], n) && 1 <= i <= n && buffer.Length == 16 && buffer != dest
    modifies buffer
    ensures buffer[..] == Pair(dest[..], n, i)
  {
    Copy(dest, 0, buffer, 0, 8);
    Copy(dest, 8 * i, buffer, 8, 8);
  }

  /** Stores the halves of a block as the register, with the step number XORed into its last byte, and as block `i`. */
  method Store(dest: array<bv8>, buffer: array<bv8>, n: nat, i: nat, t: nat)
    requires Registers(dest[..], n) && 1 <= i <= n && buffer.Length == 16 && buffer != dest
    modifies dest
    ensures dest[..] == Replace(old(dest[..]), n, i, Xor8(buffer[..8], LastByte()(t)), buffer[8..])
  {
    hide Low, Add;
    ghost var was, b := dest[..], buffer[..];
    Copy(buffer, 0, dest, 0, 8);
    dest[7] := Add(dest[7], Low(t));
    ghost var a := dest[..];
    Copy(buffer, 8, dest, 8 * i, 8);
    Masked(was, a, b, t);
    Stored(was, a, dest[..], n, i, b[8..]);
    assert b[..8] == buffer[..8] && b[8..] == buffer[8..];
  }

  /** One step of wrapping: the register is the first eight bytes of `dest`. */
  method WrapBlock(ctx: Context, tables: Tables, ghost kek: seq<bv8>, dest: array<bv8>, buffer: array<bv8>, n: nat,
                   i: nat, t: nat)
    requires ValidKey(kek) && Ready(ctx, tables, kek, dest, buffer) && Registers(dest[..], n) && 1 <= i <= n
    modifies dest, buffer
    ensures dest[..] == WrapStep(Encryptor(kek), LastByte()(t), old(dest[..]), n, i)
  {
    hide Cipher, InvCipher, MixTable, InvMixTable, IsDecryptionSchedule, RoundKey, BlockAt, Low, Add, Xor8, Replace;
    hide Pair;
    Load(dest, buffer, n, i);
    ctx.Encrypt(tables, buffer, buffer, kek);
    ghost var b := buffer[..];
    assert b[..8] == buffer[..8] && b[8..] == buffer[8..];
    Store(dest, buffer, n, i, t);
  }

  /** Storing the first half of the block and changing its last byte is XORing it with the truncated step number. */
  lemma Masked(was: seq<bv8>, a: seq<bv8>, b: Block, t: nat)
    requires |was| >= 8 && |a| == |was| && a[8..] == was[8..]
    requires a[..8] == b[..7] + [Add(b[7], Low(t))]
    ensures a[..8] == Xor8(b[..8], LastByte()(t))
  {
    hide Add, Low;
    forall k | 0 <= k < 8
      ensures a[..8][k] == Xor8(b[..8], LastByte()(t))[k]
    {
      AddZero(b[k]);
    }
  }

  lemma Stored(was: seq<bv8>, a: seq<bv8>, d: seq<bv8>, n: nat, i: nat, r: seq<bv8>)
    requires Registers(was, n) && 1 <= i <= n && |r| == 8 && |a| == |was| && a[8..] == was[8..]
    requires d == a[..8 * i] + r + a[8 * i + 8..]
    ensures d == Replace(was, n, i, a[..8], r)
  {
    assert a[..8 * i] == a[..8] + a[8..][..8 * i - 8];
    assert was[8..8 * i] == was[8..][..8 * i - 8];
    assert a[8 * i + 8..] == a[8..][8 * i..];
    assert was[8 * i + 8..] == was[8..][8 * i..];
  }

  /** The plaintext that is wrapped: in place, its first block has been overwritten before it is moved. */
  function Taken(plain: seq<bv8>, inPlace: bool): seq<bv8>
    requires |plain| % 8 == 0
  {
    if inPlace && plain != [] then INITIAL_VALUE + plain[8..] else plain
  }

  lemma Overwritten(plain: seq<bv8>, now: seq<bv8>, was: seq<bv8>, n: nat)
    requires |now| == |was| == 8 * (n + 1) && now[..8] == INITIAL_VALUE && now[8..] == was[8..] && plain == was[..8 * n]
    ensures now[..8 * n] == Taken(plain, true)
  {
    if n > 0 {
      assert now[..8 * n] == now[..8] + now[8..][..8 * n - 8];
      assert plain[8..] == was[8..][..8 * n - 8];
    }
  }

  method SetUp(src: array<bv8>, dest: array<bv8>, nblk: nat)
    requires src.Length >= 8 * nblk && dest.Length == 8 * (nblk + 1)
    modifies dest
    ensures dest[..] == INITIAL_VALUE + Taken(old(src[..8 * nblk]), src == dest)
  {
    ghost var plain := src[..8 * nblk];
    for k := 0 to 8
      invariant dest[..k] == INITIAL_VALUE[..k] && dest[8..] == old(dest[8..])
      invariant src != dest ==> src[..8 * nblk] == plain
    {
      dest[k] := 0xa6;
    }
    if src == dest {
      Overwritten(plain, dest[..], old(dest[..]), nblk);
    }
    Copy(src, 0, dest, 8, 8 * nblk);
  }

  /** A caller's buffer is not one of the lookup tables. */
  ghost predicate Apart(tables: Tables, buffer: array<bv8>) {
    (buffer as object) != tables.mix && (buffer as object) != tables.inv
  }

  /** Nothing that encryption reads is in these buffers. */
  ghost predicate Ready(ctx: Context, tables: Tables, kek: seq<bv8>, dest: array<bv8>, buffer: array<bv8>)
    reads ctx, ctx.encrypt, ctx.decrypt, tables.mix, tables.inv
    requires ValidKey(kek)
  {
    && tables.Valid() && tables.Generated() && ctx.Scheduled(kek)
    && dest != ctx.encrypt && dest != ctx.decrypt && buffer != ctx.encrypt && buffer != ctx.decrypt
    && Apart(tables, dest) && Apart(tables, buffer)
    && buffer.Length == 16 && buffer != dest
  }

  method WrapPasses(ctx: Context, tables: Tables, ghost kek: seq<bv8>, dest: array<bv8>, buffer: array<bv8>, nblk: nat)
    requires ValidKey(kek) && Ready(ctx, tables, kek, dest, buffer) && Registers(dest[..], nblk)
    modifies dest, buffer
    ensures dest[..] == Wrapped(Encryptor(kek), LastByte(), old(dest[..]), nblk, PASSES, 0)
  {
    hide Cipher, MixTable, InvMixTable, IsDecryptionSchedule, RoundKey, BlockAt, WrapStep, Encryptor;
    ghost var d := dest[..];
    for j := 0 to PASSES
      invariant dest[..] == Wrapped(Encryptor(kek), LastByte(), d, nblk, j, 0)
    {
      for i := 1 to nblk + 1
        invariant dest[..] == Wrapped(Encryptor(kek), LastByte(), d, nblk, j, i - 1)
      {
        WrapBlock(ctx, tables, kek, dest, buffer, nblk, i, nblk * j + i);
      }
    }
  }

  /** What wrapping a plaintext is to give. */
  ghost function WrapResult(kek: seq<bv8>, plain: seq<bv8>, n: nat): seq<bv8>
    requires ValidKey(kek) && |plain| == 8 * n
  {
    Wrapped(Encryptor(kek), LastByte(), INITIAL_VALUE + plain, n, PASSES, 0)
  }

  /** aes_wrap(); `memory` tells whether the cipher context could be allocated. */
  method Wrap(tables: Tables, kek: seq<bv8>, src: array<bv8>, dest: array<bv8>, nblk: nat, memory: bool)
    returns (rc: int)
    requires |kek| == 16 && tables.Valid() && src.Length >= 8 * nblk && dest.Length == 8 * (nblk + 1)
    requires Apart(tables, src) && Apart(tables, dest)
    modifies dest, tables.mix, tables.inv
    ensures tables.Valid() && rc == if memory then 0 else -1
    ensures memory ==> dest[..] == WrapResult(kek, Taken(old(src[..8 * nblk]), src == dest), nblk)
    ensures !memory ==> unchanged(dest)
  {
    hide Cipher, MixTable, InvMixTable, IsDecryptionSchedule, RoundKey, BlockAt, WrapStep;
    if !memory {
      return -1;
    }
    var ctx := new Context();
    rc := ctx.SetKey(tables, kek);
    SetUp(src, dest, nblk);
    var buffer := new bv8[16];
    WrapPasses(ctx, tables, kek, dest, buffer, nblk);
    rc := 0;
  }

  // ----- Unwrapping

  /** Loads the register, with the step number XORed into its last byte, and block `i`. */
  method LoadMasked(register: array<bv8>, dest: array<bv8>, buffer: array<bv8>, n: nat, i: nat, t: nat)
    requires register.Length == 8 && dest.Length >= 8 * n && 1 <= i <= n && buffer.Length == 16
    requires buffer != dest && buffer != register
    modifies buffer
    ensures buffer[..] == Xor8(register[..], LastByte()(t)) + dest[8 * i - 8..8 * i]
  {
    hide Low, Add;
    Copy(register, 0, buffer, 0, 8);
    Copy(dest, 8 * i - 8, buffer, 8, 8);
    ghost var b := buffer[..];
    buffer[7] := Add(buffer[7], Low(t));
    Masked(b, buffer[..], b, t);
    assert b[..8] == register[..];
    assert buffer[..] == buffer[..][..8] + buffer[..][8..];
  }

  /** The register and the blocks; the destination may be longer than the blocks. */
  ghost function Both(register: array<bv8>, dest: array<bv8>, n: nat): seq<bv8>
    reads register, dest
    requires register.Length == 8 && dest.Length >= 8 * n
  {
    register[..] + dest[..8 * n]
  }

  method StoreHalves(register: array<bv8>, dest: array<bv8>, buffer: array<bv8>, n: nat, i: nat)
    requires register.Length == 8 && dest.Length >= 8 * n && 1 <= i <= n && buffer.Length == 16
    requires buffer != dest && buffer != register && register != dest
    modifies register, dest
    ensures Both(register, dest, n) == Replace(old(Both(register, dest, n)), n, i, buffer[..8], buffer[8..])
    ensures dest[8 * n..] == old(dest[8 * n..])
  {
    ghost var was, all, b := register[..], dest[..], buffer[..];
    Copy(buffer, 0, register, 0, 8);
    Copy(buffer, 8, dest, 8 * i - 8, 8);
    assert register[..] == b[..8];
    assert dest[..] == all[..8 * i - 8] + b[8..] + all[8 * i..];
    WithinBlocks(all, dest[..], n, i, b[8..]);
    assert dest[..8 * n] == dest[..][..8 * n] && all[..8 * n] == old(dest[..8 * n]);
    SplitStored(was, all[..8 * n], n, i, b);
  }

  lemma WithinBlocks(was: seq<bv8>, d: seq<bv8>, n: nat, i: nat, r: seq<bv8>)
    requires |was| >= 8 * n && 1 <= i <= n && |r| == 8 && d == was[..8 * i - 8] + r + was[8 * i..]
    ensures d[..8 * n] == was[..8 * n][..8 * i - 8] + r + was[..8 * n][8 * i..] && d[8 * n..] == was[8 * n..]
  {
    assert was[8 * i..] == was[8 * i..8 * n] + was[8 * n..];
    assert d == was[..8 * i - 8] + r + was[8 * i..8 * n] + was[8 * n..];
  }

  lemma SplitStored(was: seq<bv8>, blocks: seq<bv8>, n: nat, i: nat, b: Block)
    requires |was| == 8 && |blocks| == 8 * n && 1 <= i <= n
    ensures b[..8] + (blocks[..8 * i - 8] + b[8..] + blocks[8 * i..]) == Replace(was + blocks, n, i, b[..8], b[8..])
  {
    assert (was + blocks)[8..8 * i] == blocks[..8 * i - 8];
    assert (was + blocks)[8 * i + 8..] == blocks[8 * i..];
  }

  /** One step of unwrapping: the register is a local buffer. */
  method UnwrapBlock(ctx: Context, tables: Tables, ghost kek: seq<bv8>, register: array<bv8>, dest: array<bv8>,
                     buffer: array<bv8>, n: nat, i: nat, t: nat)
    requires ValidKey(kek) && Ready(ctx, tables, kek, dest, buffer) && Ready(ctx, tables, kek, register, buffer)
    requires register.Length == 8 && dest.Length >= 8 * n && 1 <= i <= n && register != dest
    modifies register, dest, buffer
    ensures Both(register, dest, n) == UnwrapStep(Decryptor(kek), LastByte()(t), old(Both(register, dest, n)), n, i)
    ensures dest[8 * n..] == old(dest[8 * n..])
  {
    hide Cipher, InvCipher, MixTable, InvMixTable, IsDecryptionSchedule, RoundKey, BlockAt, Low, Add, Xor8, Replace;
    ghost var d := Both(register, dest, n);
    LoadMasked(register, dest, buffer, n, i, t);
    assert d[..8] == register[..] && d[8 * i..8 * i + 8] == dest[8 * i - 8..8 * i];
    ctx.Decrypt(tables, buffer, buffer, kek);
    ghost var b := buffer[..];
    assert b[..8] == buffer[..8] && b[8..] == buffer[8..];
    StoreHalves(register, dest, buffer, n, i);
  }

  /** One pass over the blocks, last to first. */
  method UnwrapPass(ctx: Context, tables: Tables, ghost kek: seq<bv8>, register: array<bv8>, dest: array<bv8>,
                    buffer: array<bv8>, nblk: nat, j: nat)
    requires ValidKey(kek) && Ready(ctx, tables, kek, dest, buffer) && Ready(ctx, tables, kek, register, buffer)
    requires register.Length == 8 && dest.Length >= 8 * nblk && register != dest
    modifies register, dest, buffer
    ensures Unwrapped(Decryptor(kek), LastByte(), Both(register, dest, nblk), nblk, j, 0)
         == Unwrapped(Decryptor(kek), LastByte(), old(Both(register, dest, nblk)), nblk, j + 1, 0)
    ensures dest[8 * nblk..] == old(dest[8 * nblk..])
  {
    hide Cipher, MixTable, InvMixTable, IsDecryptionSchedule, RoundKey, BlockAt, UnwrapStep, Decryptor, Unwrapped;
    ghost var all := Unwrapped(Decryptor(kek), LastByte(), Both(register, dest, nblk), nblk, j + 1, 0);
    PassStarts(Decryptor(kek), LastByte(), Both(register, dest, nblk), nblk, j);
    var i := nblk;
    while i > 0
      invariant 0 <= i <= nblk
      invariant Unwrapped(Decryptor(kek), LastByte(), Both(register, dest, nblk), nblk, j, i) == all
      invariant dest[8 * nblk..] == old(dest[8 * nblk..])
    {
      StepUndone(Decryptor(kek), LastByte(), Both(register, dest, nblk), nblk, j, i);
      UnwrapBlock(ctx, tables, kek, register, dest, buffer, nblk, i, nblk * j + i);
      i := i - 1;
    }
  }

  method UnwrapPasses(ctx: Context, tables: Tables, ghost kek: seq<bv8>, register: array<bv8>, dest: array<bv8>,
                      buffer: array<bv8>, nblk: nat)
    requires ValidKey(kek) && Ready(ctx, tables, kek, dest, buffer) && Ready(ctx, tables, kek, register, buffer)
    requires register.Length == 8 && dest.Length >= 8 * nblk && register != dest
    modifies register, dest, buffer
    ensures Both(register, dest, nblk) ==
      Unwrapped(Decryptor(kek), LastByte(), old(Both(register, dest, nblk)), nblk, PASSES, 0)
    ensures dest[8 * nblk..] == old(dest[8 * nblk..])
  {
    hide Cipher, MixTable, InvMixTable, IsDecryptionSchedule, RoundKey, BlockAt, UnwrapStep, Decryptor, Unwrapped;
    ghost var all := Unwrapped(Decryptor(kek), LastByte(), Both(register, dest, nblk), nblk, PASSES, 0);
    var j := PASSES;
    while j > 0
      invariant 0 <= j <= PASSES
      invariant Unwrapped(Decryptor(kek), LastByte(), Both(register, dest, nblk), nblk, j, 0) == all
      invariant dest[8 * nblk..] == old(dest[8 * nblk..])
    {
      j := j - 1;
      UnwrapPass(ctx, tables, kek, register, dest, buffer, nblk, j);
    }
    NothingLeft(Decryptor(kek), LastByte(), Both(register, dest, nblk), nblk);
  }

  lemma PassStarts(D: Block -> Block, x: Mask, d: seq<bv8>, n: nat, j: nat)
    requires Registers(d, n) && IsMask(x)
    ensures Unwrapped(D, x, d, n, j + 1, 0) == Unwrapped(D, x, d, n, j, n)
  {}

  lemma StepUndone(D: Block -> Block, x: Mask, d: seq<bv8>, n: nat, j: nat, i: nat)
    requires Registers(d, n) && IsMask(x) && 0 < i <= n
    ensures Unwrapped(D, x, d, n, j, i) == Unwrapped(D, x, UnwrapStep(D, x(n * j + i), d, n, i), n, j, i - 1)
  {}

  lemma NothingLeft(D: Block -> Block, x: Mask, d: seq<bv8>, n: nat)
    requires Registers(d, n) && IsMask(x)
    ensures Unwrapped(D, x, d, n, 0, 0) == d
  {}

  /** Zero if and only if every byte of the register has its initial value. */
  method CheckRegister(register: array<bv8>) returns (rc: int)
    requires register.Length == 8
    ensures rc == if register[..] == INITIAL_VALUE then 0 else -1
  {
    for i := 0 to 8
      invariant register[..i] == INITIAL_VALUE[..i]
    {
      if register[i] != 0xa6 {
        assert register[..][i] != INITIAL_VALUE[i];
        return -1;
      }
    }
    return 0;
  }

  /** Sets the register first, so that the blocks can then be moved within one buffer. */
  method Split(src: array<bv8>, register: array<bv8>, dest: array<bv8>, nblk: nat)
    requires src != register && register != dest
    requires src.Length == 8 * (nblk + 1) && dest.Length >= 8 * nblk && register.Length == 8
    modifies register, dest
    ensures Both(register, dest, nblk) == old(src[..]) && dest[8 * nblk..] == old(dest[8 * nblk..])
  {
    Copy(src, 0, register, 0, 8);
    Copy(src, 8, dest, 0, 8 * nblk);
  }

  /** What unwrapping is to give: the register and the plaintext. */
  ghost function UnwrapResult(kek: seq<bv8>, wrapped: seq<bv8>, n: nat): (d: seq<bv8>)
    requires ValidKey(kek) && Registers(wrapped, n)
    ensures Registers(d, n)
  {
    Unwrapped(Decryptor(kek), LastByte(), wrapped, n, PASSES, 0)
  }

  /** aes_unwrap() */
  method Unwrap(tables: Tables, kek: seq<bv8>, src: array<bv8>, dest: array<bv8>, nblk: nat, memory: bool)
    returns (rc: int)
    requires |kek| == 16 && tables.Valid() && src.Length == 8 * (nblk + 1) && dest.Length >= 8 * nblk
    requires Apart(tables, src) && Apart(tables, dest)
    modifies dest, tables.mix, tables.inv
    ensures tables.Valid()
    ensures memory ==> var d := UnwrapResult(kek, old(src[..]), nblk);
                       dest[..8 * nblk] == d[8..] && rc == if d[..8] == INITIAL_VALUE then 0 else -1
    ensures dest[8 * nblk..] == old(dest[8 * nblk..])
    ensures !memory ==> unchanged(dest) && rc == -1
  {
    hide Cipher, InvCipher, MixTable, InvMixTable, IsDecryptionSchedule, RoundKey, BlockAt, UnwrapStep, Unwrapped;
    hide Decryptor;
    if !memory {
      return -1;
    }
    var ctx := new Context();
    rc := ctx.SetKey(tables, kek);
    var register, buffer := new bv8[8], new bv8[16];
    Split(src, register, dest, nblk);
    UnwrapPasses(ctx, tables, kek, register, dest, buffer, nblk);
    rc := CheckRegister(register);
  }

  // ----- The two together

  lemma EncryptorInverse(kek: seq<bv8>)
    requires ValidKey(kek)
    ensures Inverts(Decryptor(kek), Encryptor(kek)) && Inverts(Encryptor(kek), Decryptor(kek))
  {
    hide Cipher, InvCipher, KeySchedule;
    forall b: Block
      ensures Decryptor(kek)(Encryptor(kek)(b)) == b && Encryptor(kek)(Decryptor(kek)(b)) == b
    {
      AesRoundTrip(kek, b);
    }
  }

  /** Unwrapping what was wrapped under the same key returns the plaintext with an intact register. */
  lemma UnwrapOfWrap(kek: seq<bv8>, plain: seq<bv8>, n: nat)
    requires |kek| == 16 && |plain| == 8 * n
    ensures UnwrapResult(kek, WrapResult(kek, plain, n), n) == INITIAL_VALUE + plain
  {
    hide Encryptor, Decryptor, Wrapped, Unwrapped, LastByte;
    EncryptorInverse(kek);
    UnwrapWrapped(Encryptor(kek), Decryptor(kek), LastByte(), INITIAL_VALUE + plain, n, PASSES, 0);
  }

  /** Whatever unwraps with an intact register is what wrapping its plaintext gives. */
  lemma WrapOfUnwrap(kek: seq<bv8>, wrapped: seq<bv8>, n: nat)
    requires |kek| == 16 && Registers(wrapped, n)
    requires UnwrapResult(kek, wrapped, n)[..8] == INITIAL_VALUE
    ensures WrapResult(kek, UnwrapResult(kek, wrapped, n)[8..], n) == wrapped
  {
    hide Encryptor, Decryptor, Wrapped, Unwrapped, LastByte;
    EncryptorInverse(kek);
    WrapUnwrapped(Encryptor(kek), Decryptor(kek), LastByte(), wrapped, n, PASSES, 0);
    var d := Unwrapped(Decryptor(kek), LastByte(), wrapped, n, PASSES, 0);
    assert d == d[..8] + d[8..];
  }

  /**
   * Wrapping in place gives what it is to give exactly if the first block, which is lost, was equal to the initial
   * value.
   */
  lemma InPlaceExactly(kek: seq<bv8>, plain: seq<bv8>, n: nat)
    requires |kek| == 16 && |plain| == 8 * n
    ensures WrapResult(kek, Taken(plain, true), n) == WrapResult(kek, plain, n) <==>
      n == 0 || plain[..8] == INITIAL_VALUE
  {
    hide WrapResult, UnwrapResult;
    UnwrapOfWrap(kek, plain, n);
    UnwrapOfWrap(kek, Taken(plain, true), n);
    if n > 0 {
      assert plain == plain[..8] + plain[8..];
      assert (INITIAL_VALUE + plain)[8..16] == plain[..8];
      assert (INITIAL_VALUE + Taken(plain, true))[8..16] == INITIAL_VALUE;
    }
  }

  /** Eight zero bytes are one plaintext that is wrapped wrongly in place. */
  lemma ZerosInPlace(kek: seq<bv8>)
    requires |kek| == 16
    ensures WrapResult(kek, Taken(seq(8, _ => 0), true), 1) != WrapResult(kek, seq(8, _ => 0), 1)
  {
    hide WrapResult;
    var zeros: seq<bv8> := seq(8, _ => 0);
    InPlaceExactly(kek, zeros, 1);
    assert zeros[..8][0] != INITIAL_VALUE[0];
  }

  lemma EncryptorIs(kek: seq<bv8>, b: Block)
    requires ValidKey(kek)
    ensures Encryptor(kek)(b) == Cipher(b, KeySchedule(kek))
  {
    hide Cipher, KeySchedule;
  }

  /**
   * While the step numbers fit in a byte, the result is that of the shifting registers of section 2.2.1 of RFC 3394:
   * they start with eight bytes {a6} and the plaintext, and take six steps for each block.
   */
  lemma WrapIsShift(kek: seq<bv8>, plain: seq<bv8>, n: nat)
    requires |kek| == 16 && |plain| == 8 * n && 0 < n && 6 * n < 256
    ensures |WrapResult(kek, plain, n)| == 8 * n + 8
    ensures var start := Shift([0xa6, 0xa6, 0xa6, 0xa6, 0xa6, 0xa6, 0xa6, 0xa6],
                               seq(n, k requires 0 <= k < n => plain[8 * k..8 * k + 8]));
            var end := AfterSteps(Encryptor(kek), start, 6 * n);
            && WrapResult(kek, plain, n)[..8] == end.a
            && forall k :: 0 <= k < n ==> WrapResult(kek, plain, n)[8 * k + 8..8 * k + 16] == end.r[k]
  {
    hide Encryptor, LastByte, Wrapped, AfterSteps;
    var d := INITIAL_VALUE + plain;
    WrapIsRfc3394(Encryptor(kek), d, n, PASSES, 0);
    WrapShifts(Encryptor(kek), d, n, PASSES, 0);
    var start := Shift([0xa6, 0xa6, 0xa6, 0xa6, 0xa6, 0xa6, 0xa6, 0xa6],
                       seq(n, k requires 0 <= k < n => plain[8 * k..8 * k + 8]));
    assert d[..8] == start.a;
    forall k | 0 <= k < n
      ensures BlocksOf(d, n)[k] == start.r[k]
    {
      assert d[8 * k + 8..8 * k + 16] == plain[8 * k..8 * k + 8];
    }
    assert BlocksOf(d, n)[0..] + BlocksOf(d, n)[..0] == start.r;
    assert Rotated(d, n, 0) == start;
    var w := WrapResult(kek, plain, n);
    assert Rotated(w, n, 0).r == BlocksOf(w, n);
  }
}
