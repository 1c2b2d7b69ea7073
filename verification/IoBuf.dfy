/** I/O buffers (src/core/iobuf.c): a data buffer and a descriptor that is inline after it or allocated apart. */
module IoBuf {
  import opened Heap
  import opened HeapTiles
  import opened Units
  import opened Wrappers

  /** The smallest buffer that alloc_iob() allocates. */
  const IOB_ZLEN: nat := 128

  /** The fields of a descriptor, and the address `self` at which it lies. */
  datatype IoBuffer = IoBuffer(self: nat, head: nat, data: nat, tail: nat, end: nat)

  /** The size and alignment of a descriptor, and the width in bits of a size. */
  datatype Machine = Machine(size: nat, align: nat, bits: nat)

  /** The least power of two that is at least `n`. */
  ghost function PowerAbove(n: nat): (p: nat)
    requires n > 0
    ensures p > 0
  {
    Pow2(Fls(n - 1))
  }

  lemma PowerAboveFacts(n: nat)
    requires n > 0
    ensures IsPowerOfTwo(PowerAbove(n)) && n <= PowerAbove(n)
    ensures forall k :: n <= Pow2(k) ==> PowerAbove(n) <= Pow2(k)
  {
    hide IsPowerOfTwo;
    Pow2IsPower(Fls(n - 1));
    FlsBounds(n - 1);
    forall k: nat | n <= Pow2(k)
      ensures PowerAbove(n) <= Pow2(k)
    {
      if k < Fls(n - 1) {
        Pow2Below(k, Fls(n - 1));
      } else if k > Fls(n - 1) {
        Pow2Below(Fls(n - 1), k);
      }
    }
  }

  ghost predicate Suits(m: Machine, heap: Heap)
    reads heap
  {
    && heap.Valid() && heap.header < heap.limit && heap.limit == Pow2(m.bits)
    && m.size > 0 && m.align > 0 && IsPowerOfTwo(m.align) && m.size + m.align <= heap.limit
  }

  function Padding(m: Machine): int {
    m.size + m.align - 1
  }

  /** The bytes that bring a buffer of `len` bytes at `offset` up to the alignment of a descriptor. */
  function Fill(m: Machine, len: nat, offset: nat): nat
    requires m.align > 0
  {
    (-(len + offset)) % m.align
  }

  ghost function Actual(heap: Heap, size: nat): nat
    requires heap.unit > 0 && heap.limit > 0
  {
    heap.RoundUp(size)
  }

  /** The descriptor and its buffer are the one live block in `taken`. */
  ghost predicate Inline(heap: Heap, m: Machine, iob: IoBuffer, taken: multiset<Block>)
    requires heap.unit > 0 && heap.limit > 0
  {
    iob.head <= iob.end == iob.self && taken == multiset{Block(iob.head, Actual(heap, iob.end - iob.head + m.size))}
  }

  /** The buffer is one live block in `taken`, and the descriptor is an automatically sized allocation, the other. */
  ghost predicate Detached(heap: Heap, m: Machine, iob: IoBuffer, taken: multiset<Block>)
    reads heap
    requires heap.unit > 0 && heap.limit > 0
  {
    && iob.head <= iob.end && iob.end - iob.head <= Actual(heap, iob.end - iob.head)
    && heap.AutoSized(iob.self) && iob.self + m.size <= heap.AutoBlock(iob.self).addr + heap.AutoBlock(iob.self).size
    && taken == multiset{Block(iob.head, Actual(heap, iob.end - iob.head))} + multiset{heap.AutoBlock(iob.self)}
  }

  /** The blocks `taken` are live and were taken for this buffer. */
  ghost predicate Holds(heap: Heap, m: Machine, iob: IoBuffer, taken: multiset<Block>)
    reads heap
    requires heap.unit > 0 && heap.limit > 0
  {
    taken <= heap.owned && (Inline(heap, m, iob, taken) || Detached(heap, m, iob, taken))
  }

  /** A detached descriptor never lies just past its buffer: its size word would have to be inside that buffer. */
  lemma DetachedIsElsewhere(heap: Heap, m: Machine, iob: IoBuffer, taken: multiset<Block>)
    requires Suits(m, heap) && taken <= heap.owned && Detached(heap, m, iob, taken)
    ensures iob.end != iob.self
  {
    hide BlocksOf, CertBlocks, WellFormed, Total, IsPowerOfTwo, Rounded;
    var data := Block(iob.head, Actual(heap, iob.end - iob.head));
    var desc := heap.AutoBlock(iob.self);
    Pair(taken, heap.owned, CertBlocks(heap.store), data, desc);
    heap.LiveApart(data, desc);
  }

  lemma AddRemove(o: multiset<Block>, b: Block)
    ensures o + multiset{b} - multiset{b} == o
  {}

  lemma Pair(taken: multiset<Block>, owned: multiset<Block>, c: multiset<Block>, a: Block, b: Block)
    requires taken <= owned && taken == multiset{a} + multiset{b}
    ensures multiset{a, b} <= owned + c
  {
    assert multiset{a, b} == multiset{a} + multiset{b};
  }

  /** Whatever else is allocated and freed, a buffer keeps its blocks while nobody frees them. */
  twostate lemma StillHeld(heap: Heap, m: Machine, iob: IoBuffer, taken: multiset<Block>)
    requires heap.unit > 0 && heap.limit > 0 && old(Holds(heap, m, iob, taken))
    requires taken <= heap.owned && heap.SizesKept(old(heap.sizes), taken)
    ensures Holds(heap, m, iob, taken)
  {
    hide Rounded;
    if old(Detached(heap, m, iob, taken)) {
      ghost var b := old(heap.AutoBlock(iob.self));
      assert b in taken;
      assert SameAt(old(heap.sizes), heap.sizes, b.addr);
      assert heap.AutoBlock(iob.self) == b;
    }
  }

  /** Filled up to the descriptor's alignment, an address congruent to the offset modulo a larger power is aligned. */
  lemma InlineAligned(m: Machine, x: int, len: nat, offset: nat, align: nat)
    requires m.align > 0 && IsPowerOfTwo(m.align) && IsPowerOfTwo(align) && m.align <= align
    requires x % align == offset % align
    ensures (x + len + Fill(m, len, offset)) % m.align == 0
  {
    hide IsPowerOfTwo;
    var k := PowerDivides(m.align, align);
    ModDivisor(x, offset, m.align, k);
    FillsUp(x, offset, len, m.align);
  }

  lemma FillsUp(x: int, o: nat, len: nat, u: nat)
    requires u > 0 && x % u == o % u
    ensures (x + len + (-(len + o)) % u) % u == 0
  {
    var q, p, k := x / u, o / u, (-(len + o)) / u;
    assert x == q * u + x % u && o == p * u + o % u;
    assert (-(len + o)) % u == -(len + o) - k * u;
    assert x + len + (-(len + o)) % u == 0 + (q - p - k) * u;
    ModShift(0, q - p - k, u);
    SmallMod(0, u);
  }

  /** The buffer is `offset` modulo the power `align`, and an inline descriptor is aligned. */
  ghost predicate Placed(heap: Heap, m: Machine, iob: IoBuffer, align: nat, offset: nat)
    requires align > 0 && m.align > 0
  {
    heap.Phys(iob.head) % align == offset % align && (iob.end == iob.self ==> heap.Phys(iob.self) % m.align == 0)
  }

  lemma FillBound(m: Machine, len: nat, offset: nat)
    requires m.align > 0
    ensures Fill(m, len, offset) < m.align
  {}

  /** An offset on a unit boundary leaks no more than fragments at the ends. */
  ghost predicate KeptTight(was: bool, heap: Heap, offset: nat)
    reads heap
    requires heap.unit > 0
  {
    was && offset % heap.unit == 0 ==> heap.Tight()
  }

  /** There is no room for the buffer with its descriptor. */
  ghost predicate NoInline(heap: Heap, m: Machine, len: nat, align: nat, offset: nat)
    reads heap
    requires heap.unit > 0 && heap.limit > 0 && m.align > 0 && align > 0
  {
    heap.NoRoom(len + Fill(m, len, offset) + m.size, align, offset)
  }

  /** There is no room for the buffer, or none for its descriptor except where the buffer would be. */
  ghost predicate NoDetached(heap: Heap, m: Machine, len: nat, align: nat, offset: nat)
    reads heap
    requires heap.unit > 0 && heap.limit > 0 && align > 0
  {
    heap.NoRoom(len, align, offset) || exists data :: NoDescriptor(heap, m, Block(data, Actual(heap, len)))
  }

  ghost predicate NoDescriptor(heap: Heap, m: Machine, data: Block)
    reads heap
    requires heap.unit > 0 && heap.limit > 0
  {
    && (exists x :: x in heap.freeBlocks && Encloses(x, data))
    && (m.size + heap.header >= heap.limit || Actual(heap, m.size + heap.header) == 0
        || (heap.NothingDiscardable()
            && forall x :: x in heap.freeBlocks && heap.CanHold(x, m.size + heap.header, 1, 0) ==> Encloses(x, data)))
  }

  method AllocInline(heap: Heap, m: Machine, len: nat, align: nat, offset: nat)
    returns (r: Option<IoBuffer>, ghost taken: multiset<Block>)
    requires Suits(m, heap) && len + Padding(m) <= align < heap.limit && IsPowerOfTwo(align) && offset < heap.limit
    modifies heap
    ensures Suits(m, heap) && Undiscardable(heap.store) == Undiscardable(old(heap.store))
    ensures heap.SizesKept(old(heap.sizes), old(heap.owned))
    ensures KeptTight(old(heap.Tight()), heap, offset)
    ensures r.None? ==> heap.owned == old(heap.owned) && NoInline(heap, m, len, align, offset)
    ensures r.Some? ==> heap.owned == old(heap.owned) + taken && Holds(heap, m, r.value, taken)
    ensures r.Some? ==> r.value.head == r.value.data == r.value.tail
    ensures r.Some? ==> r.value.head + len <= r.value.end <= r.value.head + align
    ensures r.Some? ==> Placed(heap, m, r.value, align, offset) && r.value.end == r.value.self
  {
    hide heap.Valid, BlocksOf, CertBlocks, IsPowerOfTwo, Rounded, Undiscardable, Fill, Pow2;
    heap.HasParams();
    taken := multiset{};
    FillBound(m, len, offset);
    var full := len + Fill(m, len, offset);
    var data := heap.AllocBlock(full + m.size, align, offset);
    if data == 0 {
      return None, taken;
    }
    InlineAligned(m, heap.Phys(data), len, offset, align);
    taken := multiset{Block(data, Actual(heap, full + m.size))};
    return Some(IoBuffer(data + full, data, data, data, data + full)), taken;
  }

  lemma DetachedReady(heap: Heap, m: Machine, iob: IoBuffer, others: multiset<Block>, taken: multiset<Block>)
    requires Suits(m, heap) && Detached(heap, m, iob, taken)
    requires var data := Block(iob.head, Actual(heap, iob.end - iob.head));
             heap.owned == others + multiset{data} + multiset{heap.AutoBlock(iob.self)}
    ensures heap.owned == others + taken && Holds(heap, m, iob, taken) && iob.end != iob.self
  {
    hide heap.Valid, IsPowerOfTwo, Rounded, Pow2;
    heap.HasParams();
    var data := Block(iob.head, Actual(heap, iob.end - iob.head));
    assert others + multiset{data} + multiset{heap.AutoBlock(iob.self)} == others + taken;
    assert taken <= others + taken;
    DetachedIsElsewhere(heap, m, iob, taken);
  }

  /** Allocates a detached descriptor, giving back the buffer when there is no memory for it. */
  method AllocDescriptor(heap: Heap, m: Machine, data: nat, len: nat) returns (desc: nat)
    requires Suits(m, heap) && data > 0 && Block(data, Actual(heap, len)) in heap.owned
    modifies heap
    ensures heap.Valid() && Undiscardable(heap.store) == Undiscardable(old(heap.store))
    ensures heap.SizesKept(old(heap.sizes), old(heap.owned))
    ensures KeptTight(old(heap.Tight()), heap, 0)
    ensures desc == 0 ==> heap.owned == old(heap.owned) - multiset{Block(data, Actual(heap, len))}
    ensures desc == 0 ==> NoDescriptor(heap, m, Block(data, Actual(heap, len)))
    ensures desc != 0 ==> heap.AutoSized(desc) && heap.owned == old(heap.owned) + multiset{heap.AutoBlock(desc)}
    ensures desc != 0 ==> desc + m.size <= heap.AutoBlock(desc).addr + heap.AutoBlock(desc).size
  {
    hide heap.Valid, BlocksOf, CertBlocks, IsPowerOfTwo, Rounded, Undiscardable, Fill, Pow2;
    heap.HasParams();
    desc := heap.Malloc(m.size);
    if desc == 0 {
      heap.FreeBlock(data, len);
    }
  }

  method AllocDetached(heap: Heap, m: Machine, len: nat, align: nat, offset: nat)
    returns (r: Option<IoBuffer>, ghost taken: multiset<Block>)
    requires Suits(m, heap) && 0 < len < heap.limit && 0 < align < heap.limit && IsPowerOfTwo(align) &&
      offset < heap.limit
    modifies heap
    ensures Suits(m, heap) && Undiscardable(heap.store) == Undiscardable(old(heap.store))
    ensures heap.SizesKept(old(heap.sizes), old(heap.owned))
    ensures KeptTight(old(heap.Tight()), heap, offset)
    ensures r.None? ==> heap.owned == old(heap.owned) && NoDetached(heap, m, len, align, offset)
    ensures r.Some? ==> heap.owned == old(heap.owned) + taken && Holds(heap, m, r.value, taken)
    ensures r.Some? ==> r.value.head == r.value.data == r.value.tail && r.value.head + len == r.value.end
    ensures r.Some? ==> Placed(heap, m, r.value, align, offset) && r.value.end != r.value.self
  {
    hide heap.Valid, BlocksOf, CertBlocks, IsPowerOfTwo, Rounded, Undiscardable, Fill, Pow2, NoDescriptor, heap.NoRoom;
    heap.HasParams();
    taken := multiset{};
    var data := heap.AllocBlock(len, align, offset);
    if data == 0 {
      return None, taken;
    }
    ghost var b := Block(data, Actual(heap, len));
    var desc := AllocDescriptor(heap, m, data, len);
    if desc == 0 {
      AddRemove(old(heap.owned), b);
      return None, taken;
    }
    taken := multiset{b} + multiset{heap.AutoBlock(desc)};
    var iob := IoBuffer(desc, data, data, data, data + len);
    DetachedReady(heap, m, iob, old(heap.owned), taken);
    return Some(iob), taken;
  }

  /** The power of two to which a buffer is aligned. */
  ghost function Power(m: Machine, align: nat): nat
    requires m.size > 0 && m.align > 0
  {
    PowerAbove(if align < Padding(m) then Padding(m) else align)
  }

  /** It is the least that is neither below the alignment asked for nor below what a descriptor takes up at most. */
  lemma PowerExactly(m: Machine, align: nat)
    requires m.size > 0 && m.align > 0
    ensures IsPowerOfTwo(Power(m, align)) && align <= Power(m, align) && m.size + m.align - 1 <= Power(m, align)
    ensures forall k :: align <= Pow2(k) && m.size + m.align - 1 <= Pow2(k) ==> Power(m, align) <= Pow2(k)
  {
    hide PowerAbove, IsPowerOfTwo, Pow2;
    PowerAboveFacts(if align < Padding(m) then Padding(m) else align);
  }

  /** The alignment cannot be represented, or there is no room. */
  ghost predicate Lacking(heap: Heap, m: Machine, len: nat, align: nat, offset: nat)
    reads heap
    requires heap.unit > 0 && heap.limit > 0 && m.size > 0 && m.align > 0
  {
    var power := Power(m, align);
    || power >= heap.limit
    || if len + Padding(m) <= power
       then NoInline(heap, m, len, power, offset) else NoDetached(heap, m, len, power, offset)
  }

  /** alloc_iob_raw(): a buffer whose physical address is `offset` modulo the alignment rounded up. */
  method AllocRaw(heap: Heap, m: Machine, len: nat, align: nat, offset: nat)
    returns (r: Option<IoBuffer>, ghost taken: multiset<Block>)
    requires Suits(m, heap) && len < heap.limit && align < heap.limit && offset < heap.limit
    modifies heap
    ensures Suits(m, heap) && Undiscardable(heap.store) == Undiscardable(old(heap.store))
    ensures heap.SizesKept(old(heap.sizes), old(heap.owned))
    ensures KeptTight(old(heap.Tight()), heap, offset)
    ensures r.None? ==> heap.owned == old(heap.owned) && Lacking(heap, m, len, align, offset)
    ensures r.Some? ==> heap.owned == old(heap.owned) + taken && Holds(heap, m, r.value, taken)
    ensures r.Some? ==> r.value.head == r.value.data == r.value.tail && r.value.head + len <= r.value.end
    ensures var power := Power(m, align);
            && (power >= heap.limit ==> r.None?)
            && (r.Some? ==> Placed(heap, m, r.value, power, offset))
            && (r.Some? ==> (r.value.end == r.value.self <==> len + (m.size + m.align - 1) <= power))
  {
    hide heap.Valid, BlocksOf, CertBlocks, IsPowerOfTwo, Rounded, Fls, Pow2, Undiscardable, NoInline, NoDetached;
    hide Holds, Placed;
    heap.HasParams();
    var wanted := if align < Padding(m) then Padding(m) else align;
    var log := Fls(wanted - 1);
    if log >= m.bits {
      Pow2Monotonic(m.bits, log);
      return None, multiset{};
    }
    var rounded := Pow2(log);
    PowerAboveFacts(wanted);
    Pow2Below(log, m.bits);
    var threshold := rounded - Padding(m);
    if len <= threshold {
      r, taken := AllocInline(heap, m, len, rounded, offset);
    } else {
      r, taken := AllocDetached(heap, m, len, rounded, offset);
    }
  }

  /** alloc_iob(): the buffer crosses no boundary of its own size rounded up to a power of two. */
  method Alloc(heap: Heap, m: Machine, len: nat) returns (r: Option<IoBuffer>, ghost taken: multiset<Block>)
    requires Suits(m, heap) && len < heap.limit && IOB_ZLEN < heap.limit
    modifies heap
    ensures Suits(m, heap) && Undiscardable(heap.store) == Undiscardable(old(heap.store))
    ensures heap.SizesKept(old(heap.sizes), old(heap.owned))
    ensures KeptTight(old(heap.Tight()), heap, 0)
    ensures r.None? ==> heap.owned == old(heap.owned)
    ensures r.None? ==> var padded := if len < IOB_ZLEN then IOB_ZLEN else len; Lacking(heap, m, padded, padded, 0)
    ensures r.Some? ==> heap.owned == old(heap.owned) + taken && Holds(heap, m, r.value, taken)
    ensures r.Some? ==> r.value.head == r.value.data == r.value.tail && r.value.head + len <= r.value.end
    ensures r.Some? ==> r.value.head + 128 <= r.value.end
    ensures r.Some? && len > 0 ==> WithinBoundary(heap.Phys(r.value.head), len, PowerAbove(len))
  {
    hide heap.Valid, BlocksOf, CertBlocks, IsPowerOfTwo, Rounded, Fls, Pow2, Undiscardable, Fill;
    heap.HasParams();
    var padded := if len < IOB_ZLEN then IOB_ZLEN else len;
    r, taken := AllocRaw(heap, m, padded, padded, 0);
    if r.Some? && len > 0 {
      var n := if padded < Padding(m) then Padding(m) else padded;
      NoCrossing(heap.Phys(r.value.head), len, n);
    }
  }

  ghost predicate IsMultiple(x: int, power: nat)
    requires power > 0
  {
    x % power == 0
  }

  /** No address in [x, x + len) but the first is a multiple of the power. */
  ghost predicate WithinBoundary(x: int, len: nat, power: nat)
    requires power > 0
  {
    forall y :: x < y < x + len ==> !IsMultiple(y, power)
  }

  lemma NoCrossing(x: int, len: nat, n: nat)
    requires 0 < len <= n && x % PowerAbove(n) == 0 % PowerAbove(n)
    ensures WithinBoundary(x, len, PowerAbove(len))
  {
    hide IsPowerOfTwo, PowerAbove;
    PowerAboveFacts(len);
    PowerAboveFacts(n);
    PowerAboveMonotonic(len, n);
    var k := PowerDivides(PowerAbove(len), PowerAbove(n));
    ModDivisor(x, 0, PowerAbove(len), k);
    StartsOnMultiple(x, len, PowerAbove(len));
  }

  lemma StartsOnMultiple(x: int, len: nat, p: nat)
    requires 0 < len <= p && x % p == 0 % p
    ensures WithinBoundary(x, len, p)
  {
    var q := x / p;
    SmallMod(0, p);
    forall y | x < y < x + len
      ensures !IsMultiple(y, p)
    {
      assert y == q * p + (y - x);
      DivModUnique(y, p, q, y - x);
    }
  }

  lemma PowerAboveMonotonic(a: nat, b: nat)
    requires 0 < a <= b
    ensures PowerAbove(a) <= PowerAbove(b)
  {
    hide IsPowerOfTwo;
    PowerAboveFacts(a);
    PowerAboveFacts(b);
  }

  method FreeInline(heap: Heap, m: Machine, buffer: IoBuffer, ghost taken: multiset<Block>)
    requires Suits(m, heap) && Inline(heap, m, buffer, taken) && taken <= heap.owned
    modifies heap
    ensures Suits(m, heap) && Undiscardable(heap.store) == Undiscardable(old(heap.store))
    ensures heap.owned == old(heap.owned) - taken && heap.SizesKept(old(heap.sizes), old(heap.owned))
    ensures KeptTight(old(heap.Tight()), heap, 0)
  {
    hide heap.Valid, BlocksOf, CertBlocks, IsPowerOfTwo, Rounded, Undiscardable, Pow2;
    heap.HasParams();
    assert Block(buffer.head, Actual(heap, buffer.end - buffer.head + m.size)) in taken;
    heap.LivePositive(Block(buffer.head, Actual(heap, buffer.end - buffer.head + m.size)));
    heap.FreeBlock(buffer.head, buffer.end - buffer.head + m.size);
  }

  method FreeDetached(heap: Heap, m: Machine, buffer: IoBuffer, ghost taken: multiset<Block>)
    requires Suits(m, heap) && Detached(heap, m, buffer, taken) && taken <= heap.owned
    modifies heap
    ensures Suits(m, heap) && Undiscardable(heap.store) == Undiscardable(old(heap.store))
    ensures heap.owned == old(heap.owned) - taken && heap.SizesKept(old(heap.sizes), old(heap.owned))
    ensures KeptTight(old(heap.Tight()), heap, 0)
  {
    hide heap.Valid, BlocksOf, CertBlocks, IsPowerOfTwo, Rounded, Undiscardable, Pow2;
    heap.HasParams();
    ghost var b, desc := Block(buffer.head, Actual(heap, buffer.end - buffer.head)), heap.AutoBlock(buffer.self);
    TakeTwo(heap.owned, b, desc);
    heap.LivePositive(b);
    heap.LivePositive(desc);
    heap.FreeBlock(buffer.head, buffer.end - buffer.head);
    heap.FreePointer(buffer.self);
  }

  lemma TakeTwo(o: multiset<Block>, a: Block, b: Block)
    requires multiset{a} + multiset{b} <= o
    ensures a in o && b in o - multiset{a} && o - multiset{a} - multiset{b} == o - (multiset{a} + multiset{b})
  {}

  /** free_iob(): whichever way the buffer was allocated, exactly the blocks taken for it are given back. */
  method Free(heap: Heap, m: Machine, iob: Option<IoBuffer>, ghost taken: multiset<Block>)
    requires Suits(m, heap) && (iob.Some? ==> Holds(heap, m, iob.value, taken))
    modifies heap
    ensures Suits(m, heap) && Undiscardable(heap.store) == Undiscardable(old(heap.store))
    ensures heap.owned == if iob.None? then old(heap.owned) else old(heap.owned) - taken
    ensures heap.SizesKept(old(heap.sizes), old(heap.owned))
    ensures KeptTight(old(heap.Tight()), heap, 0)
  {
    hide heap.Valid, BlocksOf, CertBlocks, IsPowerOfTwo, Rounded, Undiscardable, Pow2;
    heap.HasParams();
    if iob.None? {
      return;
    }
    var buffer := iob.value;
    if buffer.end == buffer.self {
      if Detached(heap, m, buffer, taken) {
        DetachedIsElsewhere(heap, m, buffer, taken);
      }
      FreeInline(heap, m, buffer, taken);
    } else {
      FreeDetached(heap, m, buffer, taken);
    }
  }
}
