/** Which fragments the heap of src/core/malloc.c can leak, and how much of it. */
module HeapLeaks {
  import opened HeapTiles
  import opened Units

  /** Every tile but the first starts on a unit boundary, and only the end tiles may be leaked. */
  ghost predicate LeaksAtEnds(ts: seq<Tile>, shift: int, unit: nat)
    requires unit > 0
  {
    && (forall i :: 0 < i < |ts| ==> OnUnit(ts[i].addr, shift, unit))
    && (forall i :: 0 < i < |ts| - 1 ==> !ts[i].kind.Leaked?)
  }

  predicate OnUnit(addr: nat, shift: int, unit: nat)
    requires unit > 0
  {
    (addr + shift) % unit == 0
  }

  /** Two unit boundaries are never a fragment apart. */
  lemma NoFragmentBetween(a: nat, b: nat, shift: int, unit: nat)
    requires unit > 0 && OnUnit(a, shift, unit) && OnUnit(b, shift, unit)
    ensures !(a < b < a + unit)
  {
    if a < b < a + unit {
      var x := a + shift;
      var d := b - a;
      assert x + d == (x / unit) * unit + d;
      DivModUnique(x + d, unit, x / unit, d);
    }
  }

  lemma OnUnitPlus(addr: nat, size: nat, shift: int, unit: nat)
    requires unit > 0 && OnUnit(addr, shift, unit) && size % unit == 0
    ensures OnUnit(addr + size, shift, unit)
  {
    var k := size / unit;
    assert size == k * unit;
    ModShift(addr + shift, k, unit);
  }

  lemma CarveEnds(b: Block, pre: nat, actual: nat, shift: int, unit: nat)
    requires unit > 0 && pre + actual <= b.size && actual > 0 && actual % unit == 0
    requires OnUnit(b.addr + pre, shift, unit)
    ensures var mid := Carve(b, pre, actual, unit);
            && LeaksAtEnds(mid, shift, unit)
            && (OnUnit(b.addr, shift, unit) ==> !mid[0].kind.Leaked?)
            && (OnUnit(b.addr + b.size, shift, unit) ==> !mid[|mid| - 1].kind.Leaked?)
  {
    OnUnitPlus(b.addr + pre, actual, shift, unit);
    if OnUnit(b.addr, shift, unit) {
      NoFragmentBetween(b.addr, b.addr + pre, shift, unit);
    }
    if OnUnit(b.addr + b.size, shift, unit) {
      NoFragmentBetween(b.addr + pre + actual, b.addr + b.size, shift, unit);
    }
  }

  /** An allocation at an offset that is a whole number of units leaks only at the ends of the heap. */
  lemma AllocatedEnds(ts: seq<Tile>, p: nat, pre: nat, actual: nat, lo: nat, hi: nat, shift: int, unit: nat)
    requires unit > 0 && WellFormed(ts, lo, hi, unit) && p < |ts| && pre + actual <= ts[p].size
    requires actual > 0 && actual % unit == 0 && OnUnit(ts[p].addr + pre, shift, unit)
    requires LeaksAtEnds(ts, shift, unit)
    ensures LeaksAtEnds(Allocated(ts, p, pre, actual, unit), shift, unit)
  {
    hide Carve, OnUnit, WellFormed;
    var b := Block(ts[p].addr, ts[p].size);
    var mid := Carve(b, pre, actual, unit);
    CarveEnds(b, pre, actual, shift, unit);
    CarveStarts(b, pre, actual, unit);
    var us := Allocated(ts, p, pre, actual, unit);
    if p + 1 < |ts| {
      Adjacent(ts, p, lo, hi, unit);
    }
    forall i | 0 < i < |us|
      ensures OnUnit(us[i].addr, shift, unit)
      ensures i < |us| - 1 ==> !us[i].kind.Leaked?
    {
      if i < p {
        assert us[i] == ts[i];
      } else if i < p + |mid| {
        assert us[i] == mid[i - p];
      } else {
        assert us[i] == ts[i - |mid| + 1];
      }
    }
  }

  lemma CarveStarts(b: Block, pre: nat, actual: nat, unit: nat)
    requires unit > 0 && pre + actual <= b.size && actual > 0
    ensures Carve(b, pre, actual, unit) != [] && Carve(b, pre, actual, unit)[0].addr == b.addr
  {}

  lemma Adjacent(ts: seq<Tile>, p: nat, lo: nat, hi: nat, unit: nat)
    requires unit > 0 && WellFormed(ts, lo, hi, unit) && p + 1 < |ts|
    ensures ts[p].End() == ts[p + 1].addr
  {
    TiledSplit(ts, p, lo, hi);
  }

  lemma FreedEnds(ts: seq<Tile>, p: nat, shift: int, unit: nat)
    requires unit > 0 && p < |ts| && LeaksAtEnds(ts, shift, unit)
    ensures LeaksAtEnds(Freed(ts, p), shift, unit)
  {
    hide OnUnit;
    var a := if FreeBefore(ts, p) then p - 1 else p;
    var b := if FreeAfter(ts, p) then p + 2 else p + 1;
    var us := Freed(ts, p);
    forall i | 0 < i < |us|
      ensures OnUnit(us[i].addr, shift, unit)
      ensures i < |us| - 1 ==> !us[i].kind.Leaked?
    {
      if i < a {
        assert us[i] == ts[i];
      } else if i > a {
        assert us[i] == ts[b + i - a - 1];
      }
    }
  }

  /** The leaked bytes are those of the end tiles. */
  lemma EndTotal(ts: seq<Tile>, shift: int, unit: nat)
    requires unit > 0 && LeaksAtEnds(ts, shift, unit) && |ts| >= 2
    ensures Total(ts, Leaked) == Total([ts[0]], Leaked) + Total([ts[|ts| - 1]], Leaked)
  {
    var mid := ts[1..|ts| - 1];
    assert ts == [ts[0]] + mid + [ts[|ts| - 1]];
    BlocksReplace([ts[0]], mid, [ts[|ts| - 1]], Leaked);
    NoneLeaked(mid);
  }

  lemma {:induction false} NoneLeaked(ts: seq<Tile>)
    requires forall t :: t in ts ==> !t.kind.Leaked?
    ensures Total(ts, Leaked) == 0
  {
    if ts != [] {
      NoneLeaked(ts[1..]);
    }
  }

  /** At most one unit is ever leaked: one fragment at each end of the heap. */
  lemma LeakBound(ts: seq<Tile>, lo: nat, hi: nat, shift: int, unit: nat)
    requires unit > 0 && WellFormed(ts, lo, hi, unit) && (hi - lo) % unit == 0
    requires LeaksAtEnds(ts, shift, unit)
    ensures Total(ts, Leaked) <= unit
  {
    if |ts| < 2 {
      if |ts| == 1 {
        assert ts == [ts[0]];
        OneBlock(ts[0], Leaked);
        assert Sized(ts[0], unit);
      } else {
        assert ts == [];
      }
    } else {
      var n := |ts| - 1;
      EndTotal(ts, shift, unit);
      OneBlock(ts[0], Leaked);
      OneBlock(ts[n], Leaked);
      assert ts[0] in ts && Sized(ts[0], unit);
      assert ts[n] in ts && Sized(ts[n], unit);
      if ts[0].kind.Leaked? && ts[n].kind.Leaked? {
        EndSizes(ts, lo, hi, shift, unit);
      }
    }
  }

  /** The two end fragments together span a whole number of units, hence exactly one. */
  lemma EndSizes(ts: seq<Tile>, lo: nat, hi: nat, shift: int, unit: nat)
    requires unit > 0 && WellFormed(ts, lo, hi, unit) && (hi - lo) % unit == 0
    requires LeaksAtEnds(ts, shift, unit) && |ts| >= 2
    requires ts[0].size < unit && ts[|ts| - 1].size < unit
    ensures ts[0].size + ts[|ts| - 1].size <= unit
  {
    hide OnUnit;
    var n := |ts| - 1;
    TiledSplit(ts, n, lo, hi);
    assert ts[n + 1..] == [] && ts[n].End() == hi;
    Adjacent(ts, 0, lo, hi, unit);
    EndSpan(lo, hi, ts[1].addr, ts[n].addr, shift, unit);
  }

  lemma EndSpan(lo: nat, hi: nat, a: nat, b: nat, shift: int, unit: nat)
    requires unit > 0 && (hi - lo) % unit == 0 && OnUnit(a, shift, unit) && OnUnit(b, shift, unit)
    requires a - lo < unit && hi - b < unit
    ensures (a - lo) + (hi - b) <= unit
  {
    var q, r, m := (a + shift) / unit, (b + shift) / unit, (hi - lo) / unit;
    assert a + shift == q * unit && b + shift == r * unit && hi - lo == m * unit;
    assert (a - lo) + (hi - b) == (m - r + q) * unit;
    UnderTwo(m - r + q, unit);
  }

  lemma UnderTwo(k: int, unit: nat)
    requires k * unit < 2 * unit
    ensures k * unit <= unit
  {}

  // ----- Offsets that are not a whole number of units

  ghost predicate NothingLeaked(ts: seq<Tile>) {
    forall t :: t in ts ==> !t.kind.Leaked?
  }

  /** Carving leaks nothing exactly if neither fragment is shorter than a unit without being empty. */
  lemma CarveLeaks(b: Block, pre: nat, actual: nat, unit: nat)
    requires unit > 0 && pre + actual <= b.size
    ensures NothingLeaked(Carve(b, pre, actual, unit)) <==>
      (pre == 0 || pre >= unit) && (b.size - pre - actual == 0 || b.size - pre - actual >= unit)
  {
    var mid := Carve(b, pre, actual, unit);
    if 0 < pre < unit {
      assert mid[0] in mid;
    }
    if 0 < b.size - pre - actual < unit {
      assert mid[|mid| - 1] in mid;
    }
  }

  lemma OnUnitMinus(addr: nat, size: nat, shift: int, unit: nat)
    requires unit > 0 && OnUnit(addr + size, shift, unit) && size % unit == 0
    ensures OnUnit(addr, shift, unit)
  {
    var k := size / unit;
    assert addr + shift == addr + size + shift + (-k) * unit;
    ModShift(addr + size + shift, -k, unit);
  }

  /** Where an allocation lies relative to the unit boundaries depends only on its offset. */
  lemma LandsOnUnit(addr: nat, align: nat, offset: nat, shift: int, unit: nat)
    requires unit > 0 && IsPowerOfTwo(unit) && align > 0 && IsPowerOfTwo(align)
    ensures OnUnit(addr + Skip(offset, addr + shift, unit, align), shift, unit) <==> offset % unit == 0
  {
    hide IsPowerOfTwo, Skip, OnUnit;
    var skip := Skip(offset, addr + shift, unit, align);
    LandsAligned(offset, addr + shift, unit, align);
    OnUnitIs(addr + skip, addr + shift + skip, shift, unit);
  }

  lemma OnUnitIs(addr: nat, x: int, shift: int, unit: nat)
    requires unit > 0 && x == addr + shift
    ensures OnUnit(addr, shift, unit) <==> x % unit == 0
  {}

  /**
   * From a block with unit boundaries at both ends, an allocation leaks nothing exactly if its offset is a whole number
   * of units or both fragments are at least one unit.
   */
  lemma LeaksExactly(b: Block, actual: nat, align: nat, offset: nat, shift: int, unit: nat)
    requires unit > 0 && IsPowerOfTwo(unit) && align > 0 && IsPowerOfTwo(align)
    requires OnUnit(b.addr, shift, unit) && OnUnit(b.addr + b.size, shift, unit)
    requires actual > 0 && actual % unit == 0 && Skip(offset, b.addr + shift, unit, align) + actual <= b.size
    ensures var pre := Skip(offset, b.addr + shift, unit, align);
            NothingLeaked(Carve(b, pre, actual, unit)) <==>
              offset % unit == 0 || (pre >= unit && b.size - pre - actual >= unit)
  {
    hide IsPowerOfTwo, Skip, Carve;
    var pre := Skip(offset, b.addr + shift, unit, align);
    LandsOnUnit(b.addr, align, offset, shift, unit);
    CarveLeaks(b, pre, actual, unit);
    FragmentsOff(b, pre, actual, shift, unit);
  }

  /** Next to a unit boundary, an allocation leaves a fragment shorter than a unit only if it is off the boundaries. */
  lemma FragmentsOff(b: Block, pre: nat, actual: nat, shift: int, unit: nat)
    requires unit > 0 && pre + actual <= b.size && actual % unit == 0
    ensures OnUnit(b.addr, shift, unit) && OnUnit(b.addr + pre, shift, unit) ==> pre == 0 || pre >= unit
    ensures OnUnit(b.addr, shift, unit) && !OnUnit(b.addr + pre, shift, unit) ==> pre != 0
    ensures OnUnit(b.addr + b.size, shift, unit) && OnUnit(b.addr + pre, shift, unit)
        ==> b.size - pre - actual == 0 || b.size - pre - actual >= unit
    ensures OnUnit(b.addr + b.size, shift, unit) && !OnUnit(b.addr + pre, shift, unit) ==> b.size - pre - actual != 0
  {
    hide OnUnit;
    if OnUnit(b.addr + pre, shift, unit) {
      OnUnitPlus(b.addr + pre, actual, shift, unit);
      if OnUnit(b.addr, shift, unit) {
        NoFragmentBetween(b.addr, b.addr + pre, shift, unit);
      }
      if OnUnit(b.addr + b.size, shift, unit) {
        NoFragmentBetween(b.addr + pre + actual, b.addr + b.size, shift, unit);
      }
    } else if OnUnit(b.addr + b.size, shift, unit) && b.size == pre + actual {
      OnUnitMinus(b.addr + pre, actual, shift, unit);
    }
  }

  /** No tile but the first and the last is leaked. */
  ghost predicate OnlyEndsLeaked(ts: seq<Tile>) {
    forall i :: 0 < i < |ts| - 1 ==> !ts[i].kind.Leaked?
  }

  /**
   * In a heap that has leaked only at its ends, an allocation leaks anywhere else exactly if its offset is not a whole
   * number of units and one of its fragments, other than one at the end of the heap, is shorter than a unit.
   */
  lemma InsideExactly(ts: seq<Tile>, p: nat, actual: nat, align: nat, offset: nat, lo: nat, hi: nat, shift: int,
                      unit: nat)
    requires unit > 0 && IsPowerOfTwo(unit) && align > 0 && IsPowerOfTwo(align)
    requires WellFormed(ts, lo, hi, unit) && LeaksAtEnds(ts, shift, unit) && p < |ts| && ts[p].kind.Free?
    requires actual > 0 && actual % unit == 0 && Skip(offset, ts[p].addr + shift, unit, align) + actual <= ts[p].size
    ensures var pre := Skip(offset, ts[p].addr + shift, unit, align);
            var post := ts[p].size - pre - actual;
            OnlyEndsLeaked(Allocated(ts, p, pre, actual, unit)) <==>
              offset % unit == 0 || ((p == 0 || pre >= unit) && (p == |ts| - 1 || post >= unit))
  {
    hide IsPowerOfTwo, Skip, WellFormed, OnUnit;
    var b := Block(ts[p].addr, ts[p].size);
    var pre := Skip(offset, b.addr + shift, unit, align);
    LandsOnUnit(b.addr, align, offset, shift, unit);
    FragmentsOff(b, pre, actual, shift, unit);
    if p + 1 < |ts| {
      Adjacent(ts, p, lo, hi, unit);
    }
    CarvedInside(ts, p, pre, actual, unit);
  }

  /** Only the fragments on either side of an allocation can be newly leaked. */
  lemma CarvedInside(ts: seq<Tile>, p: nat, pre: nat, actual: nat, unit: nat)
    requires unit > 0 && p < |ts| && pre + actual <= ts[p].size && OnlyEndsLeaked(ts) && !ts[p].kind.Leaked?
    ensures var post := ts[p].size - pre - actual;
            OnlyEndsLeaked(Allocated(ts, p, pre, actual, unit)) <==>
              (p == 0 || pre == 0 || pre >= unit) && (p == |ts| - 1 || post == 0 || post >= unit)
  {
    var us, mid := Allocated(ts, p, pre, actual, unit), Carve(Block(ts[p].addr, ts[p].size), pre, actual, unit);
    assert forall i :: 0 <= i < p ==> us[i] == ts[i];
    assert forall i :: p <= i < p + |mid| ==> us[i] == mid[i - p];
    assert forall i :: p + |mid| <= i < |us| ==> us[i] == ts[i - |mid| + 1];
    if 0 < pre < unit {
      assert us[p].kind.Leaked?;
    }
    if 0 < ts[p].size - pre - actual < unit {
      assert us[p + |mid| - 1].kind.Leaked?;
    }
  }

  /** A block on unit boundaries with room for the allocation. */
  ghost predicate Between(b: Block, actual: nat, align: nat, offset: nat, shift: int, unit: nat)
    requires unit > 0
  {
    && OnUnit(b.addr, shift, unit) && OnUnit(b.addr + b.size, shift, unit)
    && Skip(offset, b.addr + shift, unit, align) + actual <= b.size
  }

  /** The allocation leaks nothing from this block. */
  ghost predicate LeaksNothing(b: Block, actual: nat, align: nat, offset: nat, shift: int, unit: nat)
    requires unit > 0 && Between(b, actual, align, offset, shift, unit)
  {
    NothingLeaked(Carve(b, Skip(offset, b.addr + shift, unit, align), actual, unit))
  }

  /** At any alignment, no block on unit boundaries leaks exactly if the offset is a whole number of units. */
  lemma NeverLeaksExactly(actual: nat, align: nat, offset: nat, shift: int, unit: nat)
    requires unit > 0 && IsPowerOfTwo(unit) && align > 0 && IsPowerOfTwo(align) && actual > 0 && actual % unit == 0
    ensures offset % unit == 0 <==>
      forall b :: Between(b, actual, align, offset, shift, unit) ==> LeaksNothing(b, actual, align, offset, shift, unit)
  {
    hide IsPowerOfTwo, Skip, Carve, OnUnit, NothingLeaked;
    if offset % unit == 0 {
      forall b | Between(b, actual, align, offset, shift, unit)
        ensures LeaksNothing(b, actual, align, offset, shift, unit)
      {
        LeaksExactly(b, actual, align, offset, shift, unit);
      }
    } else {
      var b := TightBlock(actual, align, offset, shift, unit);
      LeaksExactly(b, actual, align, offset, shift, unit);
      assert !LeaksNothing(b, actual, align, offset, shift, unit);
    }
  }

  /** For every alignment and offset there is such a block with less than a unit after the allocation. */
  lemma TightBlock(actual: nat, align: nat, offset: nat, shift: int, unit: nat) returns (b: Block)
    requires unit > 0 && actual % unit == 0
    ensures Between(b, actual, align, offset, shift, unit)
    ensures b.size - Skip(offset, b.addr + shift, unit, align) - actual < unit
  {
    hide Skip, OnUnit;
    var addr := FirstBoundary(shift, unit);
    var pre := Skip(offset, addr + shift, unit, align);
    var size := NextUnit(pre, unit);
    OnUnitPlus(addr, size, shift, unit);
    OnUnitPlus(addr + size, actual, shift, unit);
    b := Block(addr, size + actual);
  }

  lemma FirstBoundary(shift: int, unit: nat) returns (addr: nat)
    requires unit > 0
    ensures OnUnit(addr, shift, unit)
  {
    var k := (-shift) / unit;
    addr := (-shift) % unit;
    assert addr + shift == 0 + (-k) * unit;
    ModShift(0, -k, unit);
    SmallMod(0, unit);
  }

  lemma NextUnit(n: nat, unit: nat) returns (size: nat)
    requires unit > 0
    ensures size % unit == 0 && n <= size < n + unit
  {
    var k := n / unit;
    if n % unit == 0 {
      size := n;
    } else {
      size := (k + 1) * unit;
      assert n == k * unit + n % unit;
      ModShift(0, k + 1, unit);
      SmallMod(0, unit);
    }
  }

  /** A leak in the middle of the heap: eight bytes before an allocation at an offset of eight. */
  lemma InteriorLeak()
    ensures var ts := [Tile(16, 16, Live), Tile(32, 48, Free), Tile(80, 16, Live)];
            && WellFormed(ts, 16, 96, 16) && LeaksAtEnds(ts, 0, 16) && Skip(8, 32, 16, 1) == 8
            && Allocated(ts, 1, 8, 16, 16)[1] == Tile(32, 8, Leaked) && |Allocated(ts, 1, 8, 16, 16)| > 2
  {
    var ts := [Tile(16, 16, Live), Tile(32, 48, Free), Tile(80, 16, Live)];
    assert ts[1..] == [ts[1], ts[2]] && ts[1..][1..] == [ts[2]] && ts[1..][1..][1..] == [];
  }
}
