/**
 * The layout of the heap of src/core/malloc.c: the address range it was given, cut end to end into free,
 * live and leaked tiles.
 */
module HeapTiles {

  datatype Block = Block(addr: nat, size: nat)

  datatype Kind = Free | Live | Leaked

  datatype Tile = Tile(addr: nat, size: nat, kind: Kind) {
    function End(): nat {
      addr + size
    }
  }

  // ----- Tilings

  /** The tiles cover [lo, hi) end to end. */
  ghost predicate Tiled(ts: seq<Tile>, lo: nat, hi: nat) {
    if ts == [] then lo == hi
    else ts[0].addr == lo && ts[0].size > 0 && Tiled(ts[1..], ts[0].End(), hi)
  }

  ghost predicate Apart(a: Block, b: Block) {
    a.addr + a.size <= b.addr || b.addr + b.size <= a.addr
  }

  /** The tiles of one kind, in address order. */
  ghost function BlocksOf(ts: seq<Tile>, kind: Kind): seq<Block> {
    if ts == [] then []
    else (if ts[0].kind == kind then [Block(ts[0].addr, ts[0].size)] else []) + BlocksOf(ts[1..], kind)
  }

  ghost function FreeList(ts: seq<Tile>): seq<Block> {
    BlocksOf(ts, Free)
  }

  /** The number of bytes in tiles of one kind. */
  ghost function Total(ts: seq<Tile>, kind: Kind): nat {
    if ts == [] then 0 else (if ts[0].kind == kind then ts[0].size else 0) + Total(ts[1..], kind)
  }

  /** No two free tiles are adjacent. */
  ghost predicate Coalesced(ts: seq<Tile>) {
    forall i :: 0 < i < |ts| ==> !(ts[i - 1].kind.Free? && ts[i].kind.Free?)
  }

  /** Free tiles can hold a list node; live tiles are whole units; only smaller fragments are leaked. */
  predicate Sized(t: Tile, unit: nat)
    requires unit > 0
  {
    match t.kind
    case Free => t.size >= unit
    case Live => t.size > 0 && t.size % unit == 0
    case Leaked => 0 < t.size < unit
  }

  lemma {:induction false} TiledAppend(a: seq<Tile>, b: seq<Tile>, lo: nat, mid: nat, hi: nat)
    requires Tiled(a, lo, mid) && Tiled(b, mid, hi)
    ensures Tiled(a + b, lo, hi)
  {
    if a == [] {
      assert a + b == b;
    } else {
      TiledAppend(a[1..], b, a[0].End(), mid, hi);
      assert (a + b)[1..] == a[1..] + b;
    }
  }

  lemma {:induction false} TiledSplit(ts: seq<Tile>, k: nat, lo: nat, hi: nat)
    requires Tiled(ts, lo, hi) && k < |ts|
    ensures lo <= ts[k].addr && ts[k].End() <= hi && ts[k].size > 0
    ensures Tiled(ts[..k], lo, ts[k].addr) && Tiled(ts[k + 1..], ts[k].End(), hi)
  {
    if k == 0 {
      TiledOrder(ts[1..], ts[0].End(), hi);
    } else {
      TiledSplit(ts[1..], k - 1, ts[0].End(), hi);
      assert ts[..k][1..] == ts[1..][..k - 1];
      assert ts[1..][k..] == ts[k + 1..];
    }
  }

  lemma {:induction false} TiledOrder(ts: seq<Tile>, lo: nat, hi: nat)
    requires Tiled(ts, lo, hi)
    ensures lo <= hi
    ensures forall i :: 0 <= i < |ts| ==> lo <= ts[i].addr && ts[i].End() <= hi
  {
    if ts != [] {
      TiledOrder(ts[1..], ts[0].End(), hi);
      forall i | 0 <= i < |ts|
        ensures lo <= ts[i].addr && ts[i].End() <= hi
      {
        if i > 0 { assert ts[i] == ts[1..][i - 1]; }
      }
    }
  }

  lemma {:induction false} BlocksAppend(a: seq<Tile>, b: seq<Tile>, kind: Kind)
    ensures BlocksOf(a + b, kind) == BlocksOf(a, kind) + BlocksOf(b, kind)
  {
    if a == [] {
      assert a + b == b;
    } else {
      BlocksAppend(a[1..], b, kind);
      assert (a + b)[1..] == a[1..] + b;
      var h := if a[0].kind == kind then [Block(a[0].addr, a[0].size)] else [];
      var x, y := BlocksOf(a[1..], kind), BlocksOf(b, kind);
      assert h + (x + y) == (h + x) + y;
    }
  }

  lemma {:induction false} TotalAppend(a: seq<Tile>, b: seq<Tile>, kind: Kind)
    ensures Total(a + b, kind) == Total(a, kind) + Total(b, kind)
  {
    if a == [] {
      assert a + b == b;
    } else {
      TotalAppend(a[1..], b, kind);
      assert (a + b)[1..] == a[1..] + b;
    }
  }

  /** Every byte of the range is in exactly one kind of tile. */
  lemma {:induction false} TotalsAddUp(ts: seq<Tile>, lo: nat, hi: nat)
    requires Tiled(ts, lo, hi)
    ensures lo + Total(ts, Free) + Total(ts, Live) + Total(ts, Leaked) == hi
  {
    if ts != [] {
      TotalsAddUp(ts[1..], ts[0].End(), hi);
    }
  }

  /** Two different tiles share no address. */
  lemma {:induction false} TilesDisjoint(ts: seq<Tile>, lo: nat, hi: nat, i: nat, j: nat)
    requires Tiled(ts, lo, hi) && i < j < |ts|
    ensures ts[i].End() <= ts[j].addr
  {
    TiledSplit(ts, i, lo, hi);
    TiledOrder(ts[i + 1..], ts[i].End(), hi);
    assert ts[j] == ts[i + 1..][j - i - 1];
  }

  /** The tile that entry `i` of the free list stands for. */
  lemma {:induction false} Locate(ts: seq<Tile>, i: nat) returns (p: nat)
    requires i < |FreeList(ts)|
    ensures p < |ts| && ts[p].kind.Free? && FreeList(ts)[i] == Block(ts[p].addr, ts[p].size)
    ensures FreeList(ts[..p]) == FreeList(ts)[..i] && FreeList(ts[p + 1..]) == FreeList(ts)[i + 1..]
  {
    if ts[0].kind.Free? && i == 0 {
      p := 0;
    } else {
      var k := if ts[0].kind.Free? then i - 1 else i;
      var q := Locate(ts[1..], k);
      p := q + 1;
      assert ts[..p][1..] == ts[1..][..q];
      assert ts[p + 1..] == ts[1..][q + 1..];
    }
  }

  lemma BlocksReplace(a: seq<Tile>, mid: seq<Tile>, b: seq<Tile>, kind: Kind)
    ensures BlocksOf(a + mid + b, kind) == BlocksOf(a, kind) + BlocksOf(mid, kind) + BlocksOf(b, kind)
    ensures Total(a + mid + b, kind) == Total(a, kind) + Total(mid, kind) + Total(b, kind)
  {
    BlocksAppend(a + mid, b, kind);
    BlocksAppend(a, mid, kind);
    TotalAppend(a + mid, b, kind);
    TotalAppend(a, mid, kind);
  }

  lemma OneBlock(t: Tile, kind: Kind)
    ensures BlocksOf([t], kind) == if t.kind == kind then [Block(t.addr, t.size)] else []
    ensures Total([t], kind) == if t.kind == kind then t.size else 0
  {
    assert [t][1..] == [];
  }

  lemma BlocksAt(ts: seq<Tile>, p: nat, kind: Kind)
    requires p < |ts|
    ensures BlocksOf(ts, kind) == BlocksOf(ts[..p], kind)
              + (if ts[p].kind == kind then [Block(ts[p].addr, ts[p].size)] else []) + BlocksOf(ts[p + 1..], kind)
    ensures Total(ts, kind) ==
      Total(ts[..p], kind) + (if ts[p].kind == kind then ts[p].size else 0) + Total(ts[p + 1..], kind)
  {
    hide BlocksOf, Total;
    assert ts == ts[..p] + [ts[p]] + ts[p + 1..];
    BlocksReplace(ts[..p], [ts[p]], ts[p + 1..], kind);
    OneBlock(ts[p], kind);
  }

  ghost predicate WellFormed(ts: seq<Tile>, lo: nat, hi: nat, unit: nat)
    requires unit > 0
  {
    Tiled(ts, lo, hi) && Coalesced(ts) && forall t :: t in ts ==> Sized(t, unit)
  }

  // ----- Allocation: a free tile is carved into a fragment, the allocation and another fragment

  ghost function Fragment(addr: nat, size: nat, unit: nat): seq<Tile> {
    if size == 0 then [] else [Tile(addr, size, if size < unit then Leaked else Free)]
  }

  ghost function Carve(b: Block, pre: nat, actual: nat, unit: nat): seq<Tile>
    requires pre + actual <= b.size
  {
    Fragment(b.addr, pre, unit) + [Tile(b.addr + pre, actual, Live)]
    + Fragment(b.addr + pre + actual, b.size - pre - actual, unit)
  }

  lemma CarveTiles(b: Block, pre: nat, actual: nat, unit: nat)
    requires unit > 0 && pre + actual <= b.size && actual > 0 && actual % unit == 0
    ensures WellFormed(Carve(b, pre, actual, unit), b.addr, b.addr + b.size, unit)
    ensures Carve(b, pre, actual, unit) != []
  {
    var x, y, z := Fragment(b.addr, pre, unit), [Tile(b.addr + pre, actual, Live)],
                   Fragment(b.addr + pre + actual, b.size - pre - actual, unit);
    assert Tiled(y, b.addr + pre, b.addr + pre + actual);
    TiledAppend(x, y, b.addr, b.addr + pre, b.addr + pre + actual);
    TiledAppend(x + y, z, b.addr, b.addr + pre + actual, b.addr + b.size);
  }

  /** What carving leaves on the free list. */
  ghost function FreeFragment(addr: nat, size: nat, unit: nat): seq<Block> {
    if size < unit then [] else [Block(addr, size)]
  }

  lemma CarveBlocks(b: Block, pre: nat, actual: nat, unit: nat)
    requires unit > 0 && pre + actual <= b.size
    ensures FreeList(Carve(b, pre, actual, unit))
         == FreeFragment(b.addr, pre, unit) + FreeFragment(b.addr + pre + actual, b.size - pre - actual, unit)
    ensures BlocksOf(Carve(b, pre, actual, unit), Live) == [Block(b.addr + pre, actual)]
    ensures Total(Carve(b, pre, actual, unit), Live) == actual
  {
    hide Fragment;
    var x, y, z := Fragment(b.addr, pre, unit), [Tile(b.addr + pre, actual, Live)],
                   Fragment(b.addr + pre + actual, b.size - pre - actual, unit);
    FragmentBlocks(b.addr, pre, unit);
    FragmentBlocks(b.addr + pre + actual, b.size - pre - actual, unit);
    BlocksReplace(x, y, z, Free);
    BlocksReplace(x, y, z, Live);
  }

  lemma FragmentBlocks(addr: nat, size: nat, unit: nat)
    requires unit > 0
    ensures FreeList(Fragment(addr, size, unit)) == FreeFragment(addr, size, unit)
    ensures BlocksOf(Fragment(addr, size, unit), Live) == []
    ensures Total(Fragment(addr, size, unit), Live) == 0
  {
    var f := Fragment(addr, size, unit);
    if size != 0 {
      assert f[1..] == [];
      assert BlocksOf(f, Free) == (if size < unit then [] else [Block(addr, size)]) + BlocksOf(f[1..], Free);
      assert BlocksOf(f, Live) == BlocksOf(f[1..], Live);
    }
  }

  ghost function Allocated(ts: seq<Tile>, p: nat, pre: nat, actual: nat, unit: nat): seq<Tile>
    requires p < |ts| && pre + actual <= ts[p].size
  {
    ts[..p] + Carve(Block(ts[p].addr, ts[p].size), pre, actual, unit) + ts[p + 1..]
  }

  lemma ReplaceTile(ts: seq<Tile>, p: nat, mid: seq<Tile>, lo: nat, hi: nat, unit: nat)
    requires unit > 0 && WellFormed(ts, lo, hi, unit) && p < |ts| && ts[p].kind.Free?
    requires mid != [] && WellFormed(mid, ts[p].addr, ts[p].End(), unit)
    ensures WellFormed(ts[..p] + mid + ts[p + 1..], lo, hi, unit)
  {
    TiledSplit(ts, p, lo, hi);
    TiledAppend(ts[..p], mid, lo, ts[p].addr, ts[p].End());
    TiledAppend(ts[..p] + mid, ts[p + 1..], lo, ts[p].End(), hi);
  }

  lemma AllocatedWellFormed(ts: seq<Tile>, p: nat, pre: nat, actual: nat, lo: nat, hi: nat, unit: nat)
    requires unit > 0 && WellFormed(ts, lo, hi, unit) && p < |ts| && ts[p].kind.Free?
    requires pre + actual <= ts[p].size && actual > 0 && actual % unit == 0
    ensures WellFormed(Allocated(ts, p, pre, actual, unit), lo, hi, unit)
  {
    hide Carve, WellFormed;
    CarveTiles(Block(ts[p].addr, ts[p].size), pre, actual, unit);
    ReplaceTile(ts, p, Carve(Block(ts[p].addr, ts[p].size), pre, actual, unit), lo, hi, unit);
  }

  lemma AllocatedFree(ts: seq<Tile>, p: nat, pre: nat, actual: nat, unit: nat)
    requires unit > 0 && p < |ts| && ts[p].kind.Free? && pre + actual <= ts[p].size
    ensures FreeList(Allocated(ts, p, pre, actual, unit))
         == FreeList(ts[..p]) + (FreeFragment(ts[p].addr, pre, unit)
            + FreeFragment(ts[p].addr + pre + actual, ts[p].size - pre - actual, unit)) + FreeList(ts[p + 1..])
  {
    hide BlocksOf, Total, Carve, FreeFragment;
    var mid := Carve(Block(ts[p].addr, ts[p].size), pre, actual, unit);
    CarveBlocks(Block(ts[p].addr, ts[p].size), pre, actual, unit);
    BlocksReplace(ts[..p], mid, ts[p + 1..], Free);
  }

  lemma AllocatedLive(ts: seq<Tile>, p: nat, pre: nat, actual: nat, unit: nat)
    requires unit > 0 && p < |ts| && ts[p].kind.Free? && pre + actual <= ts[p].size
    ensures Total(Allocated(ts, p, pre, actual, unit), Live) == Total(ts, Live) + actual
    ensures multiset(BlocksOf(Allocated(ts, p, pre, actual, unit), Live))
         == multiset(BlocksOf(ts, Live)) + multiset{Block(ts[p].addr + pre, actual)}
  {
    hide BlocksOf, Total, Carve, FreeFragment;
    var mid := Carve(Block(ts[p].addr, ts[p].size), pre, actual, unit);
    CarveBlocks(Block(ts[p].addr, ts[p].size), pre, actual, unit);
    BlocksReplace(ts[..p], mid, ts[p + 1..], Live);
    BlocksAt(ts, p, Live);
    MultisetMiddle(BlocksOf(ts[..p], Live), Block(ts[p].addr + pre, actual), BlocksOf(ts[p + 1..], Live));
  }

  // ----- Freeing: a live tile becomes free and joins the free tiles on either side of it

  ghost predicate FreeBefore(ts: seq<Tile>, p: nat) {
    0 < p <= |ts| && ts[p - 1].kind.Free?
  }

  ghost predicate FreeAfter(ts: seq<Tile>, p: nat) {
    p + 1 < |ts| && ts[p + 1].kind.Free?
  }

  /** The free tile that takes the place of live tile `p` and of its free neighbours. */
  ghost function Joined(ts: seq<Tile>, p: nat): Tile
    requires p < |ts|
  {
    var addr := if FreeBefore(ts, p) then ts[p - 1].addr else ts[p].addr;
    var before := if FreeBefore(ts, p) then ts[p - 1].size else 0;
    var after := if FreeAfter(ts, p) then ts[p + 1].size else 0;
    Tile(addr, before + ts[p].size + after, Free)
  }

  ghost function Freed(ts: seq<Tile>, p: nat): seq<Tile>
    requires p < |ts|
  {
    ts[..if FreeBefore(ts, p) then p - 1 else p] + [Joined(ts, p)]
    + ts[if FreeAfter(ts, p) then p + 2 else p + 1..]
  }

  lemma TiledBefore(ts: seq<Tile>, p: nat, lo: nat, hi: nat)
    requires Tiled(ts, lo, hi) && p < |ts|
    ensures Tiled(ts[..if FreeBefore(ts, p) then p - 1 else p], lo, Joined(ts, p).addr)
    ensures FreeBefore(ts, p) ==> ts[p - 1].End() == ts[p].addr
  {
    TiledSplit(ts, p, lo, hi);
    if FreeBefore(ts, p) {
      TiledSplit(ts[..p], p - 1, lo, ts[p].addr);
      assert ts[..p][..p - 1] == ts[..p - 1];
      assert ts[..p][p..] == [];
    }
  }

  lemma TiledAfter(ts: seq<Tile>, p: nat, lo: nat, hi: nat)
    requires Tiled(ts, lo, hi) && p < |ts|
    ensures Tiled(ts[if FreeAfter(ts, p) then p + 2 else p + 1..], Joined(ts, p).End(), hi)
    ensures FreeAfter(ts, p) ==> ts[p].End() == ts[p + 1].addr
  {
    TiledSplit(ts, p, lo, hi);
    TiledBefore(ts, p, lo, hi);
    if FreeAfter(ts, p) {
      assert ts[p + 1..][1..] == ts[p + 2..];
    }
  }

  lemma FreedTiled(ts: seq<Tile>, p: nat, lo: nat, hi: nat)
    requires Tiled(ts, lo, hi) && p < |ts|
    ensures Tiled(Freed(ts, p), lo, hi)
  {
    var a := if FreeBefore(ts, p) then p - 1 else p;
    var b := if FreeAfter(ts, p) then p + 2 else p + 1;
    var t := Joined(ts, p);
    TiledBefore(ts, p, lo, hi);
    TiledAfter(ts, p, lo, hi);
    TiledSplit(ts, p, lo, hi);
    TiledAppend(ts[..a], [t], lo, t.addr, t.End());
    TiledAppend(ts[..a] + [t], ts[b..], lo, t.End(), hi);
  }

  lemma FreedWellFormed(ts: seq<Tile>, p: nat, lo: nat, hi: nat, unit: nat)
    requires unit > 0 && WellFormed(ts, lo, hi, unit) && p < |ts| && ts[p].kind.Live?
    ensures WellFormed(Freed(ts, p), lo, hi, unit)
  {
    FreedTiled(ts, p, lo, hi);
    FreedCoalesced(ts, p);
    assert ts[p] in ts && Sized(ts[p], unit);
    LiveAtLeastUnit(ts[p], unit);
    forall t | t in Freed(ts, p)
      ensures Sized(t, unit)
    {
      if t != Joined(ts, p) {
        assert t in ts;
      }
    }
  }

  lemma LiveAtLeastUnit(t: Tile, unit: nat)
    requires unit > 0 && t.kind.Live? && Sized(t, unit)
    ensures t.size >= unit
  {}

  lemma FreedCoalesced(ts: seq<Tile>, p: nat)
    requires Coalesced(ts) && p < |ts| && ts[p].kind.Live?
    ensures Coalesced(Freed(ts, p))
  {
    var a := if FreeBefore(ts, p) then p - 1 else p;
    var b := if FreeAfter(ts, p) then p + 2 else p + 1;
    var us := Freed(ts, p);
    forall i | 0 < i < |us|
      ensures !(us[i - 1].kind.Free? && us[i].kind.Free?)
    {
      if i < a {
        assert us[i - 1] == ts[i - 1] && us[i] == ts[i];
      } else if i > a + 1 {
        assert us[i - 1] == ts[b + i - a - 2] && us[i] == ts[b + i - a - 1];
      }
    }
  }

  ghost function Kept(ts: seq<Tile>, p: nat): seq<Block>
    requires p < |ts|
  {
    FreeList(ts[..if FreeBefore(ts, p) then p - 1 else p])
  }

  ghost function Rest(ts: seq<Tile>, p: nat): seq<Block>
    requires p < |ts|
  {
    FreeList(ts[if FreeAfter(ts, p) then p + 2 else p + 1..])
  }

  ghost function Before(ts: seq<Tile>, p: nat): seq<Block>
    requires p < |ts|
  {
    if FreeBefore(ts, p) then [Block(ts[p - 1].addr, ts[p - 1].size)] else []
  }

  ghost function After(ts: seq<Tile>, p: nat): seq<Block>
    requires p < |ts|
  {
    if FreeAfter(ts, p) then [Block(ts[p + 1].addr, ts[p + 1].size)] else []
  }

  /** The free list around live tile `p`. */
  lemma FreeListAround(ts: seq<Tile>, p: nat)
    requires p < |ts| && ts[p].kind.Live?
    ensures FreeList(ts) == Kept(ts, p) + Before(ts, p) + After(ts, p) + Rest(ts, p)
    ensures FreeList(Freed(ts, p)) == Kept(ts, p) + [Block(Joined(ts, p).addr, Joined(ts, p).size)] + Rest(ts, p)
  {
    hide BlocksOf, Total, Before, After;
    var a := if FreeBefore(ts, p) then p - 1 else p;
    var b := if FreeAfter(ts, p) then p + 2 else p + 1;
    OneBlock(Joined(ts, p), Free);
    BlocksReplace(ts[..a], [Joined(ts, p)], ts[b..], Free);
    MiddleFree(ts, p, a, b);
    assert ts == ts[..a] + ts[a..b] + ts[b..];
    BlocksReplace(ts[..a], ts[a..b], ts[b..], Free);
  }

  lemma MiddleFree(ts: seq<Tile>, p: nat, a: nat, b: nat)
    requires p < |ts| && ts[p].kind.Live?
    requires a == (if FreeBefore(ts, p) then p - 1 else p) && b == (if FreeAfter(ts, p) then p + 2 else p + 1)
    ensures FreeList(ts[a..b]) == Before(ts, p) + After(ts, p)
    ensures BlocksOf(ts[a..b], Live) == [Block(ts[p].addr, ts[p].size)]
    ensures Total(ts[a..b], Live) == ts[p].size
  {
    hide BlocksOf, Total;
    var u, v := ts[a..p], ts[p + 1..b];
    assert ts[a..b] == u + [ts[p]] + v;
    BeforeIs(ts, p, a);
    AfterIs(ts, p, b);
    LiveAmong(u, ts[p], v);
  }

  lemma BeforeIs(ts: seq<Tile>, p: nat, a: nat)
    requires p < |ts| && a == if FreeBefore(ts, p) then p - 1 else p
    ensures FreeList(ts[a..p]) == Before(ts, p) && BlocksOf(ts[a..p], Live) == [] && Total(ts[a..p], Live) == 0
  {
    AtMostOne(ts[a..p]);
  }

  lemma AfterIs(ts: seq<Tile>, p: nat, b: nat)
    requires p < |ts| && b == if FreeAfter(ts, p) then p + 2 else p + 1
    ensures b <= |ts| && FreeList(ts[p + 1..b]) == After(ts, p)
    ensures BlocksOf(ts[p + 1..b], Live) == [] && Total(ts[p + 1..b], Live) == 0
  {
    AtMostOne(ts[p + 1..b]);
  }

  lemma LiveAmong(u: seq<Tile>, t: Tile, v: seq<Tile>)
    requires t.kind.Live? && BlocksOf(u, Live) == BlocksOf(v, Live) == [] && Total(u, Live) == Total(v, Live) == 0
    ensures FreeList(u + [t] + v) == FreeList(u) + FreeList(v)
    ensures BlocksOf(u + [t] + v, Live) == [Block(t.addr, t.size)] && Total(u + [t] + v, Live) == t.size
  {
    hide BlocksOf, Total;
    BlocksReplace(u, [t], v, Free);
    BlocksReplace(u, [t], v, Live);
    OneBlock(t, Free);
    OneBlock(t, Live);
  }

  lemma AtMostOne(ts: seq<Tile>)
    requires |ts| <= 1 && forall t :: t in ts ==> t.kind.Free?
    ensures FreeList(ts) == if ts == [] then [] else [Block(ts[0].addr, ts[0].size)]
    ensures BlocksOf(ts, Live) == [] && Total(ts, Live) == 0
  {
    if |ts| == 1 {
      assert ts[0] in ts;
      assert ts == [ts[0]];
      OneBlock(ts[0], Free);
      OneBlock(ts[0], Live);
    }
  }

  /** Freeing removes exactly one live block. */
  lemma FreedLive(ts: seq<Tile>, p: nat)
    requires p < |ts| && ts[p].kind.Live?
    ensures multiset(BlocksOf(ts, Live)) ==
      multiset(BlocksOf(Freed(ts, p), Live)) + multiset{Block(ts[p].addr, ts[p].size)}
    ensures Total(ts, Live) == Total(Freed(ts, p), Live) + ts[p].size
  {
    hide BlocksOf, Total, FreeBefore, FreeAfter;
    var a := if FreeBefore(ts, p) then p - 1 else p;
    var b := if FreeAfter(ts, p) then p + 2 else p + 1;
    assert 0 <= a <= b <= |ts| by { Neighbours(ts, p); }
    OneBlock(Joined(ts, p), Live);
    MiddleFree(ts, p, a, b);
    assert ts == ts[..a] + ts[a..b] + ts[b..];
    LiveGone(ts[..a], ts[a..b], [Joined(ts, p)], ts[b..], Block(ts[p].addr, ts[p].size));
  }

  /** Replacing tiles of which one is live by tiles that are not takes one block away. */
  lemma LiveGone(x: seq<Tile>, m: seq<Tile>, n: seq<Tile>, z: seq<Tile>, b: Block)
    requires BlocksOf(m, Live) == [b] && BlocksOf(n, Live) == [] && Total(m, Live) == b.size && Total(n, Live) == 0
    ensures multiset(BlocksOf(x + m + z, Live)) == multiset(BlocksOf(x + n + z, Live)) + multiset{b}
    ensures Total(x + m + z, Live) == Total(x + n + z, Live) + b.size
  {
    hide BlocksOf, Total;
    BlocksReplace(x, m, z, Live);
    BlocksReplace(x, n, z, Live);
    MultisetMiddle(BlocksOf(x, Live), b, BlocksOf(z, Live));
  }

  lemma Neighbours(ts: seq<Tile>, p: nat)
    requires p < |ts|
    ensures FreeBefore(ts, p) ==> p > 0
    ensures FreeAfter(ts, p) ==> p + 1 < |ts|
  {}

  lemma MultisetMiddle(x: seq<Block>, b: Block, z: seq<Block>)
    ensures multiset(x + [b] + z) == multiset(x + [] + z) + multiset{b}
  {}

  lemma {:induction false} BlockBounds(ts: seq<Tile>, kind: Kind, lo: nat, hi: nat)
    requires Tiled(ts, lo, hi)
    ensures forall b :: b in BlocksOf(ts, kind) ==> lo <= b.addr && b.size > 0 && b.addr + b.size <= hi
  {
    if ts != [] {
      BlockBounds(ts[1..], kind, ts[0].End(), hi);
      TiledOrder(ts, lo, hi);
    }
  }

  /** Two blocks of one kind do not overlap, wherever they stand in the list. */
  lemma {:induction false} BlocksApart(ts: seq<Tile>, kind: Kind, lo: nat, hi: nat, a: Block, b: Block)
    requires Tiled(ts, lo, hi) && multiset{a, b} <= multiset(BlocksOf(ts, kind))
    ensures Apart(a, b)
  {
    var rest := BlocksOf(ts[1..], kind);
    BlockBounds(ts[1..], kind, ts[0].End(), hi);
    if ts[0].kind == kind {
      var h := Block(ts[0].addr, ts[0].size);
      assert multiset([h] + rest) == multiset{h} + multiset(rest);
      if h == a {
        assert b in multiset(rest);
      } else if h == b {
        assert a in multiset(rest);
      } else {
        assert multiset{a, b} <= multiset(rest);
        BlocksApart(ts[1..], kind, ts[0].End(), hi, a, b);
      }
    } else {
      BlocksApart(ts[1..], kind, ts[0].End(), hi, a, b);
    }
  }

  /** Blocks of different kinds do not overlap. */
  lemma {:induction false} KindsApart(ts: seq<Tile>, ka: Kind, kb: Kind, lo: nat, hi: nat, a: Block, b: Block)
    requires Tiled(ts, lo, hi) && ka != kb && a in BlocksOf(ts, ka) && b in BlocksOf(ts, kb)
    ensures Apart(a, b)
  {
    BlockBounds(ts[1..], ka, ts[0].End(), hi);
    BlockBounds(ts[1..], kb, ts[0].End(), hi);
    if a in BlocksOf(ts[1..], ka) && b in BlocksOf(ts[1..], kb) {
      KindsApart(ts[1..], ka, kb, ts[0].End(), hi, a, b);
    }
  }

  /** The blocks are in address order with a gap between each and the next. */
  ghost predicate Spaced(list: seq<Block>) {
    forall i :: 0 < i < |list| ==> list[i - 1].addr + list[i - 1].size < list[i].addr
  }

  lemma {:induction false} SpacedApart(list: seq<Block>, i: nat, j: nat)
    requires Spaced(list) && i < j < |list|
    ensures list[i].addr + list[i].size < list[j].addr
    decreases j
  {
    if i < j - 1 {
      SpacedApart(list, i, j - 1);
    }
  }

  lemma CoalescedGap(ts: seq<Tile>, lo: nat, hi: nat)
    requires Tiled(ts, lo, hi) && Coalesced(ts) && |ts| > 1 && ts[0].kind.Free?
    ensures forall b :: b in FreeList(ts[1..]) ==> ts[0].End() < b.addr
  {
    var rest := ts[1..];
    assert rest[0] == ts[1] && !ts[1].kind.Free?;
    BlockBounds(rest[1..], Free, rest[0].End(), hi);
  }

  /** In a well formed heap the free list is in address order, fully coalesced, and has no block under one unit. */
  lemma {:induction false} FreeListSpaced(ts: seq<Tile>, lo: nat, hi: nat, unit: nat)
    requires unit > 0 && WellFormed(ts, lo, hi, unit)
    ensures Spaced(FreeList(ts)) && forall b :: b in FreeList(ts) ==> b.size >= unit
  {
    if ts != [] {
      var rest := ts[1..];
      FreeListSpaced(rest, ts[0].End(), hi, unit);
      assert Sized(ts[0], unit);
      if ts[0].kind.Free? && rest != [] {
        CoalescedGap(ts, lo, hi);
      }
    }
  }

  /** The kept blocks end strictly below live tile `p`, the rest start strictly above it. */
  lemma FreeListGaps(ts: seq<Tile>, p: nat, lo: nat, hi: nat)
    requires Tiled(ts, lo, hi) && p < |ts|
    ensures FreeBefore(ts, p) ==> ts[p - 1].End() == ts[p].addr
    ensures FreeAfter(ts, p) ==> ts[p].End() == ts[p + 1].addr && ts[p + 1].size > 0
    ensures forall b :: b in Kept(ts, p) ==> b.addr + b.size < ts[p].addr
    ensures forall b :: b in Rest(ts, p) ==> ts[p].End() < b.addr
  {
    TiledBefore(ts, p, lo, hi);
    TiledAfter(ts, p, lo, hi);
    TiledSplit(ts, p, lo, hi);
    KeptBelow(ts, p, lo, hi);
    RestAbove(ts, p, lo, hi);
  }

  lemma KeptBelow(ts: seq<Tile>, p: nat, lo: nat, hi: nat)
    requires Tiled(ts, lo, hi) && p < |ts|
    ensures forall b :: b in Kept(ts, p) ==> b.addr + b.size < ts[p].addr
  {
    if p > 0 {
      TilesDisjoint(ts, lo, hi, p - 1, p);
      TiledSplit(ts, p - 1, lo, hi);
      BlockBounds(ts[..p - 1], Free, lo, ts[p - 1].addr);
      if !FreeBefore(ts, p) {
        assert ts[..p] == ts[..p - 1] + [ts[p - 1]];
        BlocksAppend(ts[..p - 1], [ts[p - 1]], Free);
        OneBlock(ts[p - 1], Free);
      }
    }
  }

  lemma RestAbove(ts: seq<Tile>, p: nat, lo: nat, hi: nat)
    requires Tiled(ts, lo, hi) && p < |ts|
    ensures forall b :: b in Rest(ts, p) ==> ts[p].End() < b.addr
    ensures FreeAfter(ts, p) ==> ts[p + 1].size > 0
  {
    if p + 1 < |ts| {
      TilesDisjoint(ts, lo, hi, p, p + 1);
      TiledSplit(ts, p + 1, lo, hi);
      BlockBounds(ts[p + 2..], Free, ts[p + 1].End(), hi);
      if !FreeAfter(ts, p) {
        assert ts[p + 1..] == [ts[p + 1]] + ts[p + 2..];
        BlocksAppend([ts[p + 1]], ts[p + 2..], Free);
        OneBlock(ts[p + 1], Free);
      }
    }
  }
}
