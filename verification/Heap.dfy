/** The memory allocator of src/core/malloc.c, with the certificate store as its discardable cache. */
module Heap {
  import opened HeapTiles
  import opened HeapLeaks
  import opened Units

  /** A certificate in the store; `count` is its reference count, zero when only the store holds it. */
  datatype Cert = Cert(id: nat, count: int, permanent: bool, explicit: bool, mem: Block)

  predicate Discardable(c: Cert) {
    c.count <= 0 && !c.permanent && !c.explicit
  }

  /** The heap blocks that hold the stored certificates; permanent certificates are static. */
  ghost function CertBlocks(store: seq<Cert>): multiset<Block> {
    if store == [] then multiset{}
    else (if store[0].permanent then multiset{} else multiset{store[0].mem}) + CertBlocks(store[1..])
  }

  /** The certificates that no discard may remove, in order. */
  ghost function Undiscardable(store: seq<Cert>): seq<Cert> {
    if store == [] then []
    else (if Discardable(store[0]) then [] else [store[0]]) + Undiscardable(store[1..])
  }

  lemma {:induction false} UndiscardableExactly(store: seq<Cert>)
    ensures forall c :: c in Undiscardable(store) <==> c in store && (c.count > 0 || c.permanent || c.explicit)
  {
    if store != [] {
      UndiscardableExactly(store[1..]);
    }
  }

  lemma {:induction false} RemoveCert(store: seq<Cert>, i: nat)
    requires i < |store| && Discardable(store[i])
    ensures CertBlocks(store) == CertBlocks(store[..i] + store[i + 1..]) + multiset{store[i].mem}
    ensures Undiscardable(store[..i] + store[i + 1..]) == Undiscardable(store)
  {
    var rest := store[..i] + store[i + 1..];
    if i == 0 {
      assert rest == store[1..];
    } else {
      RemoveCert(store[1..], i - 1);
      assert rest[1..] == store[1..][..i - 1] + store[1..][i..];
    }
  }

  /** `after` is `before` without its last discardable certificate: the least recently used one. */
  ghost predicate WithoutLastDiscardable(before: seq<Cert>, after: seq<Cert>) {
    exists i :: 0 <= i < |before| && Discardable(before[i]) && after == before[..i] + before[i + 1..]
      && forall j :: i < j < |before| ==> !Discardable(before[j])
  }

  /** The block [ptr, ptr + actual) joined with the neighbours it touches. */
  ghost function Merged(ptr: nat, actual: nat, before: seq<Block>, after: seq<Block>): Block {
    Block(if before == [] then ptr else before[0].addr,
          (if before == [] then 0 else before[0].size) + actual + (if after == [] then 0 else after[0].size))
  }

  ghost predicate Encloses(x: Block, b: Block) {
    x.addr <= b.addr && b.addr + b.size <= x.addr + x.size
  }

  /** A block that was freed is in one entry of the list, and the other entries were there before. */
  ghost predicate FreedInto(before: seq<Block>, after: seq<Block>, b: Block) {
    (exists x :: x in after && Encloses(x, b)) && forall x :: x in after ==> x in before || Encloses(x, b)
  }

  lemma Place(kept: seq<Block>, mid: seq<Block>, right: seq<Block>, i: nat)
    requires i < |kept + (mid + right)| && i <= |kept| && |mid| <= 1
    ensures var b := (kept + (mid + right))[i];
            if i < |kept| then b in kept
            else if mid != [] then b == mid[0] && b in mid
            else b == right[0] && b in right
    ensures i == |kept| && mid != [] ==>
            (kept + (mid + right))[..i] + (kept + (mid + right))[i + 1..] == kept + ([] + right)
  {}

  /** What carving up free list entry `i` does to the tiles and to the free list. */
  lemma TakeReady(ts: seq<Tile>, i: nat, pre: nat, actual: nat, lo: nat, hi: nat, unit: nat) returns (p: nat)
    requires unit > 0 && WellFormed(ts, lo, hi, unit) && i < |FreeList(ts)|
    requires actual > 0 && actual % unit == 0 && pre + actual <= FreeList(ts)[i].size
    ensures p < |ts| && ts[p] == Tile(FreeList(ts)[i].addr, FreeList(ts)[i].size, Free)
    ensures WellFormed(Allocated(ts, p, pre, actual, unit), lo, hi, unit)
    ensures Total(Allocated(ts, p, pre, actual, unit), Live) == Total(ts, Live) + actual
    ensures multiset(BlocksOf(Allocated(ts, p, pre, actual, unit), Live))
         == multiset(BlocksOf(ts, Live)) + multiset{Block(ts[p].addr + pre, actual)}
    ensures FreeList(Allocated(ts, p, pre, actual, unit))
         == FreeList(ts)[..i] + (FreeFragment(ts[p].addr, pre, unit)
            + FreeFragment(ts[p].addr + pre + actual, ts[p].size - pre - actual, unit)) + FreeList(ts)[i + 1..]
  {
    hide BlocksOf, Total, FreeFragment, Allocated, WellFormed;
    p := Locate(ts, i);
    AllocatedWellFormed(ts, p, pre, actual, lo, hi, unit);
    AllocatedFree(ts, p, pre, actual, unit);
    AllocatedLive(ts, p, pre, actual, unit);
  }

  /** What the free list looks like around live tile `p`, before and after it is freed. */
  lemma MergeReady(ts: seq<Tile>, p: nat, lo: nat, hi: nat, unit: nat)
    requires unit > 0 && WellFormed(ts, lo, hi, unit) && p < |ts| && ts[p].kind.Live?
    ensures ts[p].size > 0 && |Before(ts, p)| <= 1 && |After(ts, p)| <= 1
    ensures FreeList(ts) == Kept(ts, p) + (Before(ts, p) + (After(ts, p) + Rest(ts, p)))
    ensures forall b :: b in Kept(ts, p) ==> b.addr + b.size < ts[p].addr
    ensures forall b :: b in Before(ts, p) ==> b.addr + b.size == ts[p].addr
    ensures forall b :: b in After(ts, p) ==> b.addr == ts[p].addr + ts[p].size
    ensures forall b :: b in Rest(ts, p) ==> ts[p].addr + ts[p].size < b.addr
    ensures FreeList(Freed(ts, p))
         == Kept(ts, p) + [Merged(ts[p].addr, ts[p].size, Before(ts, p), After(ts, p))] + Rest(ts, p)
  {
    hide BlocksOf, Kept, Rest, Freed;
    TiledSplit(ts, p, lo, hi);
    FreeListAround(ts, p);
    FreeListGaps(ts, p, lo, hi);
  }

  /** The tile of a live block. */
  lemma {:induction false} LocateLive(ts: seq<Tile>, b: Block) returns (p: nat)
    requires b in BlocksOf(ts, Live)
    ensures p < |ts| && ts[p] == Tile(b.addr, b.size, Live)
  {
    if ts[0] == Tile(b.addr, b.size, Live) {
      p := 0;
    } else {
      p := LocateLive(ts[1..], b);
      p := p + 1;
    }
  }

  lemma MultisetAdd(m: multiset<Block>, o: multiset<Block>, c: multiset<Block>, b: Block)
    requires m == o + c
    ensures m + multiset{b} == o + multiset{b} + c
  {}

  lemma MultisetRemove(m: multiset<Block>, o: multiset<Block>, c: multiset<Block>, c': multiset<Block>, b: Block)
    requires m == o + c && c == c' + multiset{b}
    ensures m == o + c' + multiset{b} && b in m
  {}

  lemma MultisetOwned(m: multiset<Block>, o: multiset<Block>, c: multiset<Block>, b: Block)
    requires m == o + c && b in o
    ensures m == o - multiset{b} + c + multiset{b} && b in m
  {}

  /** Two memories hold the same size word, if any, at an address. */
  ghost predicate SameAt(a: map<nat, nat>, b: map<nat, nat>, addr: nat) {
    (addr in a <==> addr in b) && (addr in a ==> a[addr] == b[addr])
  }

  lemma {:induction false} RecountBlocks(store: seq<Cert>, i: nat, count: int)
    requires i < |store|
    ensures CertBlocks(store[i := store[i].(count := count)]) == CertBlocks(store)
  {
    var changed := store[i := store[i].(count := count)];
    if i == 0 {
      assert changed[1..] == store[1..];
    } else {
      RecountBlocks(store[1..], i - 1, count);
      assert changed[1..] == store[1..][i - 1 := store[i].(count := count)];
    }
  }

  lemma AddedBlocks(c: Cert, store: seq<Cert>, owned: multiset<Block>)
    requires !c.permanent ==> c.mem in owned
    ensures (if c.permanent then owned else owned - multiset{c.mem}) + CertBlocks([c] + store) ==
      owned + CertBlocks(store)
  {
    assert ([c] + store)[1..] == store;
  }

  lemma {:induction false} StoredBlock(store: seq<Cert>, c: Cert)
    requires c in store && !c.permanent
    ensures c.mem in CertBlocks(store)
  {
    if store[0] != c {
      StoredBlock(store[1..], c);
    }
  }

  lemma ZeroMod(u: nat)
    requires u > 0
    ensures 0 % u == 0
  {}

  lemma WrapFacts(a: nat, b: nat, limit: nat)
    requires a < limit && b < limit
    ensures (a + b) % limit < limit
    ensures (a + b) % limit < a <==> a + b >= limit
    ensures a + b < limit ==> (a + b) % limit == a + b
  {
    if a + b < limit {
      SmallMod(a + b, limit);
    } else {
      DivModUnique(a + b, limit, 1, a + b - limit);
    }
  }

  lemma Swap(o: multiset<Block>, a: Block, b: Block)
    requires b in o
    ensures o + multiset{a} - multiset{b} == o - multiset{b} + multiset{a}
  {}

  lemma Both(o: multiset<Block>, a: multiset<Block>, c: multiset<Block>, b: Block)
    requires b in o + c && |a| == 1
    ensures a + multiset{b} <= o + a + c
  {}

  lemma OneFreeTile(addr: nat, size: nat, unit: nat)
    requires unit > 0 && size >= unit
    ensures WellFormed([Tile(addr, size, Free)], addr, addr + size, unit)
    ensures FreeList([Tile(addr, size, Free)]) == [Block(addr, size)] && BlocksOf([Tile(addr, size, Free)], Live) == []
    ensures Total([Tile(addr, size, Free)], Live) == 0
  {
    OneBlock(Tile(addr, size, Free), Free);
    OneBlock(Tile(addr, size, Free), Live);
  }

  lemma MultisetDrop(m: multiset<Block>, m': multiset<Block>, o: multiset<Block>, b: Block)
    requires m == m' + multiset{b} && m == o + multiset{b}
    ensures m' == o
  {
    assert m' == m - multiset{b};
    assert o == m - multiset{b};
  }

  class Heap {
    /** The smallest block: a power of two that can hold a free list node. */
    const unit: nat
    /** The number of values of a size: sizes are taken modulo this. */
    const limit: nat
    /** Physical addresses are virtual addresses plus this. */
    const shift: int
    /** The space before an automatically sized allocation, where its size is kept. */
    const header: nat
    /** The populated range. */
    ghost const lo: nat
    ghost const hi: nat

    var freeBlocks: seq<Block>
    var freemem: nat
    var usedmem: nat
    var maxusedmem: nat
    /** The size words in memory, by block address. */
    var sizes: map<nat, nat>
    var store: seq<Cert>

    ghost var tiles: seq<Tile>
    /** The live blocks that callers hold: all but those of stored certificates. */
    ghost var owned: multiset<Block>

    ghost predicate Params() {
      && unit > 0 && IsPowerOfTwo(unit) && unit <= limit && 0 < header
      && 0 < lo <= hi < limit && (hi - lo) % unit == 0
    }

    /** The free list and the counters agree with the tiles. */
    ghost predicate Layout()
      reads `freeBlocks, `freemem, `usedmem, `tiles
    {
      && Params() && WellFormed(tiles, lo, hi, unit) && freeBlocks == FreeList(tiles)
      && usedmem == Total(tiles, Live) && freemem + usedmem == hi - lo
    }

    ghost predicate Valid()
      reads this
    {
      && Layout() && usedmem <= maxusedmem
      && multiset(BlocksOf(tiles, Live)) == owned + CertBlocks(store)
      && StoreSized()
    }

    /** Only end fragments have been leaked. */
    ghost predicate Tight()
      reads `tiles
      requires unit > 0
    {
      LeaksAtEnds(tiles, shift, unit)
    }

    ghost predicate StoreSized()
      reads `sizes, `store
      requires unit > 0 && limit > 0
    {
      AllInStore(store)
    }

    ghost predicate AllInStore(list: seq<Cert>)
      reads `sizes
      requires unit > 0 && limit > 0
    {
      forall c :: c in list ==> InStore(c)
    }

    /** The store has a reference to the certificate, and unless it is static knows the size of its block. */
    ghost predicate InStore(c: Cert)
      reads `sizes
      requires unit > 0 && limit > 0
    {
      c.count >= 0 && (!c.permanent ==> CertSized(c))
    }

    /** The size word of a certificate's block accounts for the whole block. */
    ghost predicate CertSized(c: Cert)
      reads `sizes
      requires unit > 0 && limit > 0
    {
      c.mem.addr in sizes && c.mem.size == RoundUp(sizes[c.mem.addr])
    }

    /** The size actually used, rounded up to a whole number of units; zero on overflow. */
    function RoundUp(size: nat): nat
      requires unit > 0 && limit > 0
    {
      Rounded(size, unit, limit)
    }

    /** The physical address of a virtual address. */
    function Phys(addr: nat): int {
      addr + shift
    }

    /** The bytes to skip in a block at `addr` to reach the requested alignment and offset. */
    function PreSize(addr: nat, align: nat, offset: nat): nat
      requires unit > 0
    {
      Skip(offset, Phys(addr), unit, align)
    }

    predicate Fits(b: Block, actual: nat, align: nat, offset: nat)
      requires unit > 0
    {
      b.size >= PreSize(b.addr, align, offset) && b.size - PreSize(b.addr, align, offset) >= actual
    }

    /** Address `a` in the block has room after it, and is `offset` modulo both the alignment and the unit. */
    ghost predicate Suitable(b: Block, actual: nat, align: nat, offset: nat, a: nat)
      requires unit > 0 && align > 0
    {
      && b.addr <= a && a + actual <= b.addr + b.size
      && Phys(a) % align == offset % align && Phys(a) % unit == offset % unit
    }

    /** A block fits exactly if it has a suitable address, and the lowest is where the bytes skipped lead. */
    lemma FitsExactly(b: Block, actual: nat, align: nat, offset: nat)
      requires unit > 0 && IsPowerOfTwo(unit) && align > 0 && IsPowerOfTwo(align)
      ensures Fits(b, actual, align, offset) <==> exists a: nat :: Suitable(b, actual, align, offset, a)
      ensures Fits(b, actual, align, offset) ==>
        Suitable(b, actual, align, offset, b.addr + PreSize(b.addr, align, offset))
      ensures forall a: nat :: Suitable(b, actual, align, offset, a) ==> b.addr + PreSize(b.addr, align, offset) <= a
    {
      hide IsPowerOfTwo, Skip;
      Aligned(b.addr, align, offset);
      forall a: nat | Suitable(b, actual, align, offset, a)
        ensures b.addr + PreSize(b.addr, align, offset) <= a
      {
        SkipLeast(offset, Phys(b.addr), unit, align, Phys(a));
      }
      if Fits(b, actual, align, offset) {
        assert Suitable(b, actual, align, offset, b.addr + PreSize(b.addr, align, offset));
      }
    }

    /** A request that overflows when rounded up, or that no free block fits while no certificate can be discarded. */
    ghost predicate NoRoom(size: nat, align: nat, offset: nat)
      reads `freeBlocks, `store
      requires unit > 0 && limit > 0 && align > 0
    {
      RoundUp(size) == 0 || (NoFit(size, align, offset) && NothingDiscardable())
    }

    ghost predicate NoFit(size: nat, align: nat, offset: nat)
      reads `freeBlocks
      requires unit > 0 && limit > 0 && align > 0
    {
      forall b, a: nat :: b in freeBlocks ==> !Suitable(b, RoundUp(size), align, offset, a)
    }

    /** The block can hold a request somewhere. */
    ghost predicate CanHold(b: Block, size: nat, align: nat, offset: nat)
      requires unit > 0 && limit > 0 && align > 0
    {
      exists a: nat :: Suitable(b, RoundUp(size), align, offset, a)
    }

    ghost predicate NothingDiscardable()
      reads `store
    {
      forall c :: c in store ==> !Discardable(c)
    }

    /** An automatically sized allocation that is too large with its size word, or for which there is no room. */
    ghost predicate NoAutoRoom(size: nat)
      reads `freeBlocks, `store
      requires unit > 0 && limit > 0
    {
      size + header >= limit || NoRoom(size + header, 1, 0)
    }

    /** `ptr` is the lowest suitable address in any block of the list. */
    ghost predicate LowestIn(list: seq<Block>, actual: nat, align: nat, offset: nat, ptr: nat)
      requires unit > 0 && align > 0
    {
      && (exists b :: b in list && Suitable(b, actual, align, offset, ptr))
      && (forall b, a: nat :: b in list && Suitable(b, actual, align, offset, a) ==> ptr <= a)
    }

    /** In a list in order of address, the first block that fits has the lowest suitable address. */
    lemma FirstIsLowest(i: nat, actual: nat, align: nat, offset: nat)
      requires Valid() && align > 0 && IsPowerOfTwo(align) && i < |freeBlocks|
      requires Fits(freeBlocks[i], actual, align, offset)
      requires forall j :: 0 <= j < i ==> !Fits(freeBlocks[j], actual, align, offset)
      ensures var b := freeBlocks[i];
        LowestIn(freeBlocks, actual, align, offset, b.addr + PreSize(b.addr, align, offset))
    {
      hide IsPowerOfTwo, Fits, Suitable, WellFormed, PreSize;
      BlocksChecked();
      var ptr := freeBlocks[i].addr + PreSize(freeBlocks[i].addr, align, offset);
      FitsExactly(freeBlocks[i], actual, align, offset);
      SuitableWithin(freeBlocks[i], actual, align, offset, ptr);
      forall b, a: nat | b in freeBlocks && Suitable(b, actual, align, offset, a)
        ensures ptr <= a
      {
        var j :| 0 <= j < |freeBlocks| && freeBlocks[j] == b;
        FitsExactly(b, actual, align, offset);
        SuitableWithin(b, actual, align, offset, a);
        if i < j {
          SpacedApart(freeBlocks, i, j);
        }
      }
    }

    lemma SuitableWithin(b: Block, actual: nat, align: nat, offset: nat, a: nat)
      requires unit > 0 && align > 0 && Suitable(b, actual, align, offset, a)
      ensures b.addr <= a && a + actual <= b.addr + b.size
    {}

    /** The first block on the free list with enough space, or the length of the list. */
    method FirstFit(actual: nat, align: nat, offset: nat) returns (i: nat)
      requires unit > 0
      ensures i <= |freeBlocks|
      ensures i < |freeBlocks| ==> Fits(freeBlocks[i], actual, align, offset)
      ensures forall j :: 0 <= j < i ==> !Fits(freeBlocks[j], actual, align, offset)
    {
      i := 0;
      while i < |freeBlocks|
        invariant i <= |freeBlocks|
        invariant forall j :: 0 <= j < i ==> !Fits(freeBlocks[j], actual, align, offset)
      {
        if Fits(freeBlocks[i], actual, align, offset) {
          return;
        }
        i := i + 1;
      }
    }

    /** Shrinks free list entry `i` to its pre-block and links in its post-block, dropping either if too small. */
    method SplitEntry(i: nat, pre: nat, actual: nat)
      requires unit > 0 && i < |freeBlocks| && pre + actual <= freeBlocks[i].size
      modifies `freeBlocks
      ensures var b := old(freeBlocks[i]);
              freeBlocks == old(freeBlocks[..i]) + (FreeFragment(b.addr, pre, unit)
                + FreeFragment(b.addr + pre + actual, b.size - pre - actual, unit)) + old(freeBlocks[i + 1..])
    {
      var block := freeBlocks[i];
      var post := block.addr + pre + actual;
      var postSize := block.size - pre - actual;
      if postSize >= unit {
        freeBlocks := freeBlocks[..i + 1] + [Block(post, postSize)] + freeBlocks[i + 1..];
      }
      freeBlocks := freeBlocks[i := Block(block.addr, pre)];
      if pre < unit {
        freeBlocks := freeBlocks[..i] + freeBlocks[i + 1..];
      }
    }

    /** Splits free block `i` into a pre-block, the allocation and a post-block. */
    method TakeTile(i: nat, pre: nat, actual: nat) returns (ptr: nat)
      requires Layout() && i < |freeBlocks|
      requires actual > 0 && actual % unit == 0 && pre + actual <= freeBlocks[i].size
      modifies `freeBlocks, `freemem, `usedmem, `tiles
      ensures Layout()
      ensures ptr == old(freeBlocks[i]).addr + pre
      ensures multiset(BlocksOf(tiles, Live)) == multiset(BlocksOf(old(tiles), Live)) + multiset{Block(ptr, actual)}
      ensures usedmem == old(usedmem) + actual
      ensures old(Tight()) && OnUnit(ptr, shift, unit) ==> Tight()
    {
      hide LeaksAtEnds, OnUnit, WellFormed, BlocksOf, Total, FreeFragment, Allocated, IsPowerOfTwo;
      ghost var p := TakeReady(tiles, i, pre, actual, lo, hi, unit);
      ptr := freeBlocks[i].addr + pre;
      if Tight() && OnUnit(ptr, shift, unit) {
        AllocatedEnds(tiles, p, pre, actual, lo, hi, shift, unit);
      }
      SplitEntry(i, pre, actual);
      tiles := Allocated(tiles, p, pre, actual, unit);
      UsedAtMost();
      freemem := freemem - actual;
      usedmem := usedmem + actual;
    }

    method Take(i: nat, pre: nat, actual: nat) returns (ptr: nat)
      requires Valid() && i < |freeBlocks|
      requires actual > 0 && actual % unit == 0 && pre + actual <= freeBlocks[i].size
      modifies `freeBlocks, `freemem, `usedmem, `maxusedmem, `tiles, `owned
      ensures Valid()
      ensures ptr == old(freeBlocks[i]).addr + pre
      ensures owned == old(owned) + multiset{Block(ptr, actual)}
      ensures usedmem == old(usedmem) + actual &&
        maxusedmem == if usedmem > old(maxusedmem) then usedmem else old(maxusedmem)
      ensures old(Tight()) && OnUnit(ptr, shift, unit) ==> Tight()
    {
      hide LeaksAtEnds, OnUnit, Layout, BlocksOf, CertBlocks, StoreSized;
      ptr := TakeTile(i, pre, actual);
      MultisetAdd(multiset(BlocksOf(old(tiles), Live)), owned, CertBlocks(store), Block(ptr, actual));
      owned := owned + multiset{Block(ptr, actual)};
      if usedmem > maxusedmem {
        maxusedmem := usedmem;
      }
    }

    /** Walks the free list to the first block after [ptr, ptr + actual), merging the block that ends at `ptr`. */
    method FindPlace(ptr: nat, actual: nat, ghost kept: seq<Block>, ghost before: seq<Block>, ghost right: seq<Block>)
      returns (i: nat, freeing: Block, gapAfter: int)
      requires freeBlocks == kept + (before + right) && |before| <= 1 && actual > 0
      requires forall b :: b in kept ==> b.addr + b.size < ptr
      requires forall b :: b in before ==> b.addr + b.size == ptr
      requires forall b :: b in right ==> ptr + actual <= b.addr
      modifies `freeBlocks
      ensures freeBlocks == kept + right && i == |kept|
      ensures freeing == Merged(ptr, actual, before, [])
      ensures if right == [] then gapAfter < 0 else gapAfter == right[0].addr - (ptr + actual)
    {
      freeing := Block(ptr, actual);
      i, gapAfter := 0, -1;
      ghost var mid := before;
      while i < |freeBlocks|
        invariant i <= |kept| && freeBlocks == kept + (mid + right)
        invariant freeing == Merged(ptr, actual, if mid == [] then before else [], [])
        invariant mid == before || (mid == [] && i == |kept|)
        invariant gapAfter < 0
        decreases |freeBlocks| - i
      {
        var block := freeBlocks[i];
        Place(kept, mid, right, i);
        var gapBefore := freeing.addr - (block.addr + block.size);
        gapAfter := block.addr - (freeing.addr + freeing.size);
        if gapBefore == 0 {
          freeing := Block(block.addr, block.size + actual);
          freeBlocks := freeBlocks[..i] + freeBlocks[i + 1..];
          mid := [];
        } else if gapAfter >= 0 {
          return;
        } else {
          i := i + 1;
        }
      }
    }

    /** Links the freed block in at its place, merging the block that starts where it ends. */
    method MergeEntry(ptr: nat, actual: nat, ghost kept: seq<Block>, ghost before: seq<Block>,
                      ghost after: seq<Block>, ghost rest: seq<Block>)
      requires freeBlocks == kept + (before + (after + rest)) && |before| <= 1 && |after| <= 1 && actual > 0
      requires forall b :: b in kept ==> b.addr + b.size < ptr
      requires forall b :: b in before ==> b.addr + b.size == ptr
      requires forall b :: b in after ==> b.addr == ptr + actual
      requires forall b :: b in rest ==> ptr + actual < b.addr
      modifies `freeBlocks
      ensures freeBlocks == kept + [Merged(ptr, actual, before, after)] + rest
    {
      var i, freeing, gapAfter := FindPlace(ptr, actual, kept, before, after + rest);
      if gapAfter == 0 {
        var block := freeBlocks[i];
        freeBlocks := freeBlocks[..i] + [Block(freeing.addr, freeing.size + block.size)] + freeBlocks[i + 1..];
      } else {
        freeBlocks := freeBlocks[..i] + [freeing] + freeBlocks[i..];
      }
    }

    lemma MergedInto(list: seq<Block>, b: Block, kept: seq<Block>, before: seq<Block>, after: seq<Block>,
                     rest: seq<Block>)
      requires list == kept + (before + (after + rest)) && |before| <= 1 && |after| <= 1
      requires forall x :: x in before ==> x.addr + x.size == b.addr
      ensures FreedInto(list, kept + [Merged(b.addr, b.size, before, after)] + rest, b)
    {
      var m := Merged(b.addr, b.size, before, after);
      assert before != [] ==> before[0] in before;
      assert m in kept + [m] + rest;
    }

    /** Frees a live block: free_memblock() after rounding its size up. */
    method Release(ptr: nat, actual: nat)
      requires Layout()
      requires Block(ptr, actual) in multiset(BlocksOf(tiles, Live))
      modifies `freeBlocks, `freemem, `usedmem, `tiles
      ensures Layout()
      ensures multiset(BlocksOf(old(tiles), Live)) == multiset(BlocksOf(tiles, Live)) + multiset{Block(ptr, actual)}
      ensures usedmem + actual == old(usedmem) && FreedInto(old(freeBlocks), freeBlocks, Block(ptr, actual))
      ensures old(Tight()) ==> Tight()
    {
      hide LeaksAtEnds, BlocksOf, Total, IsPowerOfTwo, Freed, WellFormed, Joined, Kept, Rest, Before, After;
      ghost var p := LocateLive(tiles, Block(ptr, actual));
      MergeReady(tiles, p, lo, hi, unit);
      if Tight() {
        FreedEnds(tiles, p, shift, unit);
      }
      FreedWellFormed(tiles, p, lo, hi, unit);
      FreedLive(tiles, p);
      MergeEntry(ptr, actual, Kept(tiles, p), Before(tiles, p), After(tiles, p), Rest(tiles, p));
      MergedInto(old(freeBlocks), Block(ptr, actual), Kept(tiles, p), Before(tiles, p), After(tiles, p),
                 Rest(tiles, p));
      tiles := Freed(tiles, p);
      freemem := freemem + actual;
      usedmem := usedmem - actual;
    }

    /** Discards the least recently used certificate to which only the store holds a reference. */
    method DiscardCertificate() returns (discarded: nat)
      requires Valid()
      modifies `freeBlocks, `freemem, `usedmem, `tiles, `store
      ensures Valid()
      ensures discarded == 0 ==> (forall c :: c in store ==> !Discardable(c)) && unchanged(this)
      ensures discarded != 0 ==> discarded == 1 && WithoutLastDiscardable(old(store), store)
      ensures Undiscardable(store) == Undiscardable(old(store))
      ensures old(Tight()) ==> Tight()
    {
      hide WellFormed, BlocksOf, Total, CertBlocks, IsPowerOfTwo, Undiscardable, Freed, LeaksAtEnds;
      var i := |store|;
      while i > 0
        invariant 0 <= i <= |store| && unchanged(this)
        invariant forall j :: i <= j < |store| ==> !Discardable(store[j])
      {
        i := i - 1;
        var cert := store[i];
        if cert.count > 0 || cert.permanent || cert.explicit {
          continue;
        }
        RemoveCert(store, i);
        MultisetRemove(multiset(BlocksOf(tiles, Live)), owned, CertBlocks(store),
                       CertBlocks(store[..i] + store[i + 1..]), cert.mem);
        assert InStore(cert);
        Release(cert.mem.addr, RoundUp(sizes[cert.mem.addr]));
        MultisetDrop(multiset(BlocksOf(old(tiles), Live)), multiset(BlocksOf(tiles, Live)),
                     owned + CertBlocks(store[..i] + store[i + 1..]), cert.mem);
        store := store[..i] + store[i + 1..];
        return 1;
      }
      return 0;
    }

    /** The size rounds up to zero exactly when it is zero or rounding overflows. */
    lemma RoundUpFacts(size: nat)
      requires Params() && size < limit
      ensures RoundUp(size) == 0 <==> size == 0 || size + unit - 1 >= limit
      ensures RoundUp(size) != 0 ==> size <= RoundUp(size) < size + unit
      ensures RoundUp(size) % unit == 0
    {
      hide IsPowerOfTwo;
      RoundingFacts(size, unit, limit);
    }

    /** The result is congruent to the offset, modulo the alignment and modulo the unit. */
    lemma Aligned(addr: nat, align: nat, offset: nat)
      requires unit > 0 && IsPowerOfTwo(unit) && IsPowerOfTwo(align) && align > 0
      ensures Phys(addr + PreSize(addr, align, offset)) % align == offset % align
      ensures Phys(addr + PreSize(addr, align, offset)) % unit == offset % unit
    {
      hide IsPowerOfTwo, Skip;
      LandsAligned(offset, Phys(addr), unit, align);
      assert Phys(addr + PreSize(addr, align, offset)) == Phys(addr) + Skip(offset, Phys(addr), unit, align);
    }

    /**
     * alloc_memblock(): a block of at least `size` bytes whose physical address is `offset` modulo `align`, or zero.
     * While nothing fits, certificates are discarded one at a time and the search starts again.
     */
    method AllocBlock(size: nat, align: nat, offset: nat) returns (ptr: nat)
      requires Valid() && size < limit && align > 0 && IsPowerOfTwo(align) && offset < limit
      modifies `freeBlocks, `freemem, `usedmem, `maxusedmem, `tiles, `owned, `store
      ensures Valid()
      ensures Undiscardable(store) == Undiscardable(old(store)) && forall c :: c in store ==> c in old(store)
      ensures forall c :: c in old(store) && (c.count > 0 || c.permanent || c.explicit) ==> c in store
      ensures ptr != 0 ==> size <= RoundUp(size) && lo <= ptr && ptr + RoundUp(size) <= hi
      ensures ptr != 0 ==> Phys(ptr) % align == offset % align && Phys(ptr) % unit == offset % unit
      ensures owned == if ptr == 0 then old(owned) else old(owned) + multiset{Block(ptr, RoundUp(size))}
      ensures RoundUp(size) == 0 ==> ptr == 0 && unchanged(this)
      ensures ptr != 0 && |store| == |old(store)| ==> LowestIn(old(freeBlocks), RoundUp(size), align, offset, ptr)
      ensures |store| < |old(store)| ==> old(NoFit(size, align, offset))
      ensures ptr == 0 ==> NoRoom(size, align, offset)
      ensures old(Tight()) && offset % unit == 0 ==> Tight()
    {
      hide WellFormed, BlocksOf, Total, CertBlocks, IsPowerOfTwo, Undiscardable, LeaksAtEnds, StoreSized, Skip;
      var actual := RoundUp(size);
      RoundUpFacts(size);
      UndiscardableExactly(store);
      if actual == 0 {
        return 0;
      }
      while true
        invariant Valid() && owned == old(owned)
        invariant Undiscardable(store) == Undiscardable(old(store)) && forall c :: c in store ==> c in old(store)
        invariant old(Tight()) ==> Tight()
        invariant |store| <= |old(store)| && (|store| == |old(store)| ==> freeBlocks == old(freeBlocks))
        invariant |store| < |old(store)| ==> old(NoFit(size, align, offset))
        decreases |store|
      {
        var i := FirstFit(actual, align, offset);
        if i < |freeBlocks| {
          FirstIsLowest(i, actual, align, offset);
          var block := freeBlocks[i];
          Aligned(block.addr, align, offset);
          InRange(block);
          ptr := Take(i, PreSize(block.addr, align, offset), actual);
          UndiscardableExactly(store);
          return;
        }
        NoneFits(size, align, offset);
        var discarded := DiscardCertificate();
        if discarded == 0 {
          UndiscardableExactly(store);
          return 0;
        }
      }
    }

    lemma NoneFits(size: nat, align: nat, offset: nat)
      requires Params() && align > 0 && IsPowerOfTwo(align)
      requires forall j :: 0 <= j < |freeBlocks| ==> !Fits(freeBlocks[j], RoundUp(size), align, offset)
      ensures NoFit(size, align, offset)
    {
      hide IsPowerOfTwo, Fits, Suitable, Rounded;
      forall b, a: nat | b in freeBlocks
        ensures !Suitable(b, RoundUp(size), align, offset, a)
      {
        FitsExactly(b, RoundUp(size), align, offset);
      }
    }

    lemma InRange(b: Block)
      requires Layout() && b in freeBlocks
      ensures lo <= b.addr && b.addr + b.size <= hi
    {
      BlockBounds(tiles, Kind.Free, lo, hi);
    }

    /** free_memblock(): takes back a block from its address and requested size. */
    method FreeBlock(ptr: nat, size: nat)
      requires Valid() && (ptr != 0 ==> Block(ptr, RoundUp(size)) in owned)
      modifies `freeBlocks, `freemem, `usedmem, `tiles, `owned
      ensures Valid()
      ensures owned == if ptr == 0 then old(owned) else old(owned) - multiset{Block(ptr, RoundUp(size))}
      ensures ptr != 0 ==> FreedInto(old(freeBlocks), freeBlocks, Block(ptr, RoundUp(size)))
      ensures old(Tight()) ==> Tight()
    {
      hide WellFormed, BlocksOf, Total, CertBlocks, IsPowerOfTwo, LeaksAtEnds, StoreSized;
      if ptr == 0 {
        return;
      }
      var actual := RoundUp(size);
      MultisetOwned(multiset(BlocksOf(tiles, Live)), owned, CertBlocks(store), Block(ptr, actual));
      Release(ptr, actual);
      MultisetDrop(multiset(BlocksOf(old(tiles), Live)), multiset(BlocksOf(tiles, Live)),
                   owned - multiset{Block(ptr, actual)} + CertBlocks(store), Block(ptr, actual));
      owned := owned - multiset{Block(ptr, actual)};
    }

    /** mpopulate() of the whole heap: its whole units become the one block on the empty free list. */
    constructor (unit: nat, limit: nat, shift: int, header: nat, start: nat, len: nat)
      requires unit > 0 && IsPowerOfTwo(unit) && unit <= len && header > 0 && 0 < start && start + len < limit
      ensures Valid() && Tight()
      ensures this.unit == unit && this.limit == limit && this.shift == shift && this.header == header
      ensures lo == start && hi == start + len - len % unit
      ensures freemem == hi - lo && usedmem == 0 && owned == multiset{} && store == []
      ensures freeBlocks == [Block(lo, hi - lo)]
    {
      hide IsPowerOfTwo;
      var whole := len - len % unit;
      WholeUnits(len, unit);
      AtLeastOneUnit(len, unit);
      OneFreeTile(start, whole, unit);
      this.unit, this.limit, this.shift, this.header := unit, limit, shift, header;
      lo, hi := start, start + whole;
      freeBlocks := [Block(start, whole)];
      freemem, usedmem, maxusedmem := whole, 0, 0;
      sizes, store, owned := map[], [], multiset{};
      tiles := [Tile(start, whole, Kind.Free)];
    }

    /** The invariant that check_blocks() asserts. */
    lemma BlocksChecked()
      requires Valid()
      ensures Spaced(freeBlocks) && forall b :: b in freeBlocks ==> b.size >= unit
    {
      hide WellFormed, Total, CertBlocks, StoreSized;
      FreeListSpaced(tiles, lo, hi, unit);
    }

    /** While all offsets are multiples of the unit, at most one unit of the heap is leaked. */
    lemma LeakedAtMost()
      requires Valid() && Tight()
      ensures Total(tiles, Leaked) <= unit
    {
      hide WellFormed, Total, LeaksAtEnds, BlocksOf, CertBlocks, StoreSized, IsPowerOfTwo;
      LeakBound(tiles, lo, hi, shift, unit);
    }

    /** Live blocks, whoever holds them, overlap neither each other nor a free block. */
    lemma LiveApart(a: Block, b: Block)
      requires Valid() && (multiset{a, b} <= owned + CertBlocks(store) ||
        (a in owned + CertBlocks(store) && b in freeBlocks))
      ensures Apart(a, b)
    {
      hide BlocksOf, CertBlocks, Coalesced, Total, Apart, StoreSized;
      if b in freeBlocks && a in owned + CertBlocks(store) {
        assert a in multiset(BlocksOf(tiles, Live));
        KindsApart(tiles, Live, Kind.Free, lo, hi, a, b);
      } else {
        BlocksApart(tiles, Live, lo, hi, a, b);
      }
    }

    /** A size word written at a block just allocated is not that of any other block. */
    lemma FreshSize(ptr: nat, size: nat, others: multiset<Block>)
      requires Valid() && owned == others + multiset{Block(ptr, size)} && size > 0
      ensures forall b :: b in others + CertBlocks(store) ==> b.addr != ptr
    {
      hide BlocksOf, CertBlocks, WellFormed, Coalesced, Total, StoreSized;
      forall b | b in others + CertBlocks(store)
        ensures b.addr != ptr
      {
        Both(others, multiset{Block(ptr, size)}, CertBlocks(store), b);
        LiveApart(Block(ptr, size), b);
        LivePositive(b);
      }
    }

    lemma LivePositive(b: Block)
      requires Valid() && b in owned + CertBlocks(store)
      ensures lo <= b.addr && b.size > 0 && b.addr + b.size <= hi
    {
      hide BlocksOf, CertBlocks, Coalesced, Total, StoreSized;
      BlockBounds(tiles, Live, lo, hi);
      assert b in multiset(BlocksOf(tiles, Live));
    }

    /** The pointer that stands for an allocation of no bytes. */
    function Nowhere(): int {
      limit - 1
    }

    predicate Pointer(ptr: nat) {
      ptr != 0 && ptr != Nowhere()
    }

    /** The block of an automatically sized allocation, found from its size word. */
    ghost function AutoBlock(ptr: nat): Block
      reads `sizes
      requires unit > 0 && limit > 0 && header <= ptr && ptr - header in sizes
    {
      Block(ptr - header, RoundUp(sizes[ptr - header]))
    }

    ghost predicate AutoSized(ptr: nat)
      reads `sizes, `owned
      requires unit > 0 && limit > 0
    {
      header <= ptr && ptr - header in sizes && AutoBlock(ptr) in owned
    }

    /** The size words of some blocks are as they were in `was`. */
    ghost predicate SizesKept(was: map<nat, nat>, blocks: multiset<Block>)
      reads `sizes
    {
      forall b :: b in blocks ==> SameAt(was, sizes, b.addr)
    }

    /** The first half of realloc(): a new block with its size word, or zero. */
    method NewBlock(size: nat) returns (ptr: nat)
      requires Valid() && 0 < size < limit && header < limit
      modifies `freeBlocks, `freemem, `usedmem, `maxusedmem, `tiles, `owned, `store, `sizes
      ensures Valid() && Undiscardable(store) == Undiscardable(old(store)) && (old(Tight()) ==> Tight())
      ensures SizesKept(old(sizes), old(owned))
      ensures ptr == 0 ==> owned == old(owned) && NoAutoRoom(size)
      ensures ptr != 0 ==> AutoSized(ptr) && ptr + size <= AutoBlock(ptr).addr + AutoBlock(ptr).size
      ensures ptr != 0 ==> Pointer(ptr) && Phys(ptr - header) % unit == 0 && sizes[ptr - header] == size + header
      ensures ptr != 0 ==> owned == old(owned) + multiset{AutoBlock(ptr)}
    {
      hide WellFormed, BlocksOf, Total, CertBlocks, IsPowerOfTwo, Undiscardable, LeaksAtEnds, Skip, Layout, Rounded;
      HasParams();
      ZeroMod(unit);
      var total := (size + header) % limit;
      WrapFacts(size, header, limit);
      if total < size {
        return 0;
      }
      OneIsPower();
      var block := AllocBlock(total, 1, 0);
      if block == 0 {
        return 0;
      }
      RoundUpFacts(total);
      FreshSize(block, RoundUp(total), old(owned));
      SizesSurvive(block, total);
      sizes := sizes[block := total];
      ptr := block + header;
    }

    lemma HasParams()
      requires Valid()
      ensures Params()
    {}

    /** Writing the size word of a new block keeps those of the stored certificates. */
    lemma SizesSurvive(block: nat, total: nat)
      requires Valid() && forall b :: b in CertBlocks(store) ==> b.addr != block
      ensures forall c :: c in store && !c.permanent ==> c.mem.addr != block
    {
      hide Layout, BlocksOf, CertBlocks;
      forall c | c in store && !c.permanent
        ensures c.mem.addr != block
      {
        StoredBlock(store, c);
      }
    }

    /** The blocks that remain when the allocation at `ptr`, if any, is given back. */
    ghost function Without(ptr: nat): multiset<Block>
      reads `sizes, `owned
      requires unit > 0 && limit > 0 && (Pointer(ptr) ==> AutoSized(ptr))
    {
      if Pointer(ptr) then owned - multiset{AutoBlock(ptr)} else owned
    }

    /** The second half of realloc(): the old block, if any, is freed. */
    method ReleaseOld(ptr: nat)
      requires Valid() && (Pointer(ptr) ==> AutoSized(ptr))
      modifies `freeBlocks, `freemem, `usedmem, `tiles, `owned
      ensures Valid() && (old(Tight()) ==> Tight())
      ensures owned == old(Without(ptr))
    {
      hide Layout, BlocksOf, CertBlocks, LeaksAtEnds, StoreSized, Rounded;
      if Pointer(ptr) {
        HasParams();
        LivePositive(AutoBlock(ptr));
        FreeBlock(ptr - header, sizes[ptr - header]);
      }
    }

    /** realloc(): a new allocation takes the place of an old one, unless there is no memory for it. */
    method Realloc(ptr: nat, size: nat) returns (r: nat)
      requires Valid() && size < limit && header < limit
      requires Pointer(ptr) ==> AutoSized(ptr)
      modifies `freeBlocks, `freemem, `usedmem, `maxusedmem, `tiles, `owned, `store, `sizes
      ensures Valid() && Undiscardable(store) == Undiscardable(old(store)) && (old(Tight()) ==> Tight())
      ensures SizesKept(old(sizes), old(owned))
      ensures r == 0 ==> size != 0 && owned == old(owned) && NoAutoRoom(size)
      ensures r != 0 ==> (size == 0 <==> r == Nowhere())
      ensures r != 0 && size == 0 ==> owned == old(Without(ptr)) && sizes == old(sizes)
      ensures r != 0 && size != 0 ==> AutoSized(r) && r + size <= AutoBlock(r).addr + AutoBlock(r).size
      ensures r != 0 && size != 0 ==> owned == old(Without(ptr)) + multiset{AutoBlock(r)}
    {
      hide Layout, BlocksOf, CertBlocks, Undiscardable, LeaksAtEnds, Rounded, StoreSized;
      HasParams();
      r := Nowhere();
      if size != 0 {
        r := NewBlock(size);
        if r == 0 {
          return;
        }
        StillOwned(ptr, old(sizes), old(owned), AutoBlock(r));
      }
      ReleaseOld(ptr);
    }

    lemma StillOwned(ptr: nat, was: map<nat, nat>, others: multiset<Block>, b: Block)
      requires unit > 0 && limit > 0 && SizesKept(was, others) && owned == others + multiset{b}
      requires Pointer(ptr) ==>
        header <= ptr && ptr - header in was && Block(ptr - header, RoundUp(was[ptr - header])) in others
      ensures Pointer(ptr) ==> AutoSized(ptr)
      ensures Pointer(ptr) ==>
        Without(ptr) == others - multiset{Block(ptr - header, RoundUp(was[ptr - header]))} + multiset{b}
      ensures !Pointer(ptr) ==> Without(ptr) == others + multiset{b}
      ensures Pointer(ptr) ==> b in Without(ptr)
    {
      hide Rounded;
      if Pointer(ptr) {
        assert SameAt(was, sizes, Block(ptr - header, RoundUp(was[ptr - header])).addr);
        Swap(others, b, AutoBlock(ptr));
      }
    }

    method Malloc(size: nat) returns (r: nat)
      requires Valid() && size < limit && header < limit
      modifies `freeBlocks, `freemem, `usedmem, `maxusedmem, `tiles, `owned, `store, `sizes
      ensures Valid() && Undiscardable(store) == Undiscardable(old(store)) && (old(Tight()) ==> Tight())
      ensures SizesKept(old(sizes), old(owned))
      ensures size == 0 ==> r == Nowhere() && owned == old(owned)
      ensures r == 0 ==> owned == old(owned) && NoAutoRoom(size)
      ensures r != 0 && size != 0 ==> Pointer(r) && AutoSized(r) && r + size <= AutoBlock(r).addr + AutoBlock(r).size
      ensures r != 0 && size != 0 ==> owned == old(owned) + multiset{AutoBlock(r)}
    {
      r := Realloc(0, size);
    }

    method FreePointer(ptr: nat)
      requires Valid() && header < limit && (Pointer(ptr) ==> AutoSized(ptr))
      modifies `freeBlocks, `freemem, `usedmem, `maxusedmem, `tiles, `owned, `store, `sizes
      ensures Valid() && Undiscardable(store) == Undiscardable(old(store)) && (old(Tight()) ==> Tight())
      ensures sizes == old(sizes)
      ensures owned == if Pointer(ptr) then old(owned) - multiset{old(AutoBlock(ptr))} else old(owned)
    {
      var r := Realloc(ptr, 0);
    }

    /** certstore_add(): the store takes over a certificate, most recently used first, with a reference of its own. */
    method StoreCertificate(cert: Cert)
      requires Valid() && cert.count >= 0 && (!cert.permanent ==> cert.mem in owned && CertSized(cert))
      modifies `store, `owned
      ensures Valid() && store == [cert.(count := cert.count + 1)] + old(store)
      ensures owned == if cert.permanent then old(owned) else old(owned) - multiset{cert.mem}
    {
      hide Layout, BlocksOf, CertSized, CertBlocks;
      HasParams();
      Recounted(cert, cert.count + 1);
      AddedBlocks(cert.(count := cert.count + 1), store, owned);
      if !cert.permanent {
        owned := owned - multiset{cert.mem};
      }
      store := [cert.(count := cert.count + 1)] + store;
    }

    /** x509_get() of a stored certificate, which cannot be discarded until the reference is dropped. */
    method GetCertificate(i: nat)
      requires Valid() && i < |store|
      modifies `store
      ensures Valid() && store == old(store)[i := old(store[i]).(count := old(store[i]).count + 1)]
      ensures !Discardable(store[i])
    {
      hide Layout, BlocksOf, CertSized, CertBlocks;
      HasParams();
      assert InStore(store[i]);
      Recounted(store[i], store[i].count + 1);
      RecountBlocks(store, i, store[i].count + 1);
      store := store[i := store[i].(count := store[i].count + 1)];
    }

    /** x509_put() of a reference other than the store's own. */
    method PutCertificate(i: nat)
      requires Valid() && i < |store| && store[i].count > 0
      modifies `store
      ensures Valid() && store == old(store)[i := old(store[i]).(count := old(store[i]).count - 1)]
      ensures Discardable(store[i]) <==> store[i].count == 0 && !store[i].permanent && !store[i].explicit
    {
      hide Layout, BlocksOf, CertSized, CertBlocks;
      HasParams();
      assert InStore(store[i]);
      Recounted(store[i], store[i].count - 1);
      RecountBlocks(store, i, store[i].count - 1);
      store := store[i := store[i].(count := store[i].count - 1)];
    }

    /** Counting references changes no memory. */
    lemma Recounted(c: Cert, count: nat)
      requires unit > 0 && limit > 0
      ensures CertSized(c.(count := count)) <==> CertSized(c)
    {
      hide Rounded;
    }

    lemma UsedAtMost()
      requires Params() && WellFormed(tiles, lo, hi, unit)
      ensures Total(tiles, Live) <= hi - lo
    {
      TotalsAddUp(tiles, lo, hi);
    }
  }
}
