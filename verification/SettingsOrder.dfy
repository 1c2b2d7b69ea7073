/**
 * When removing a settings block leaves the sibling lists in order: src/core/settings.c does not move its ancestors.
 */
module SettingsOrder {
  import opened Units
  import opened ListOps
  import opened Wrappers
  import opened SettingsSpec
  import opened SettingsLinks

  /** No sibling before the block has a lower priority, and none after it a higher one. */
  ghost predicate InPlace(f: Forest, list: seq<nat>, a: nat)
    requires Tree(f) && Known(f, list)
  {
    forall i, j :: 0 <= i < j < |list| && (list[i] == a || list[j] == a) ==>
      Effective(f, list[i]) >= Effective(f, list[j])
  }

  /** The block, if it is registered, is in its place among its siblings. */
  ghost predicate StaysInPlace(f: Forest, a: nat)
    requires Tree(f)
  {
    a in f.children && a in f.parent ==>
      (PlacedFacts(f, a); ListKnown(f, f.parent[a]); InPlace(f, f.children[f.parent[a]], a))
  }

  lemma InPlaceTail(f: Forest, list: seq<nat>, a: nat)
    requires Tree(f) && Known(f, list) && list != [] && InPlace(f, list, a)
    ensures Known(f, list[1..]) && InPlace(f, list[1..], a)
  {
    hide Tree, Effective;
    var tail := list[1..];
    forall i, j | 0 <= i < j < |tail| && (tail[i] == a || tail[j] == a)
      ensures Effective(f, tail[i]) >= Effective(f, tail[j])
    {
      assert list[i + 1] == tail[i] && list[j + 1] == tail[j];
    }
  }

  /** A list in order but for some blocks that are in their places is in order. */
  lemma {:induction false} SortedInPlace(f: Forest, list: seq<nat>, exempt: set<nat>)
    requires Tree(f) && Known(f, list) && Sorted(f, list, exempt)
    requires forall a :: a in list && a in exempt ==> InPlace(f, list, a)
    ensures Sorted(f, list, {})
  {
    hide Tree, Effective, InPlace;
    if list != [] {
      var tail := list[1..];
      forall a | a in tail && a in exempt
        ensures InPlace(f, tail, a)
      {
        InPlaceTail(f, list, a);
      }
      SortedInPlace(f, tail, exempt);
      forall c | c in tail
        ensures Effective(f, c) <= Effective(f, list[0])
      {
        FirstInPlace(f, list, exempt, c);
      }
    }
  }

  lemma FirstInPlace(f: Forest, list: seq<nat>, exempt: set<nat>, c: nat)
    requires Tree(f) && Known(f, list) && Sorted(f, list, exempt) && list != [] && c in list[1..]
    requires forall a :: a in list && a in exempt ==> InPlace(f, list, a)
    ensures Effective(f, c) <= Effective(f, list[0])
  {
    hide Tree, Effective;
    var k :| 0 <= k < |list[1..]| && list[1..][k] == c;
    assert list[k + 1] == c && list[0] in list;
    if list[0] in exempt {
      assert InPlace(f, list, list[0]);
    } else if c in exempt {
      assert InPlace(f, list, c);
    }
  }

  lemma OrderedInPlace(f: Forest, list: seq<nat>, a: nat)
    requires Tree(f) && Known(f, list) && Sorted(f, list, {})
    ensures InPlace(f, list, a)
  {
    hide Tree, Effective, Sorted;
    forall i, j | 0 <= i < j < |list|
      ensures Effective(f, list[i]) >= Effective(f, list[j])
    {
      SortedDescends(f, list, i, j);
    }
  }

  /** All lists are in order exactly if the blocks that may be out of place are not. */
  lemma OrderExactly(g: Forest, exempt: set<nat>)
    requires Tree(g) && AllSorted(g, exempt)
    ensures AllSorted(g, {}) <==> forall a :: a in exempt ==> StaysInPlace(g, a)
  {
    hide Tree, Effective, Sorted, InPlace;
    if forall a :: a in exempt ==> StaysInPlace(g, a) {
      forall n | n in g.children
        ensures SortedAt(g, n, {})
      {
        ListKnown(g, n);
        assert SortedAt(g, n, exempt);
        forall a | a in g.children[n] && a in exempt
          ensures InPlace(g, g.children[n], a)
        {
          SiblingFacts(g, n, a);
          assert StaysInPlace(g, a);
        }
        SortedInPlace(g, g.children[n], exempt);
      }
    }
    if AllSorted(g, {}) {
      forall a | a in exempt && a in g.children && a in g.parent
        ensures StaysInPlace(g, a)
      {
        PlacedFacts(g, a);
        ListKnown(g, g.parent[a]);
        assert SortedAt(g, g.parent[a], {});
        OrderedInPlace(g, g.children[g.parent[a]], a);
      }
    }
  }

  /** After a block is removed, all lists are in order exactly if each of its former ancestors is still in its place. */
  lemma DetachedOrder(f: Forest, x: nat)
    requires Tree(f) && x in f.children && x in f.parent && AllSorted(f, {})
    ensures Tree(Detached(f, x)) && f.parent[x] in Detached(f, x).above
    ensures AllSorted(Detached(f, x), {}) <==>
      forall a :: a in Detached(f, x).above[f.parent[x]] ==> StaysInPlace(Detached(f, x), a)
  {
    hide Tree, AllSorted, Detached, StaysInPlace;
    DetachedSorted(f, x);
    OrderExactly(Detached(f, x), Detached(f, x).above[f.parent[x]]);
  }

  // ----- A forest that is left out of order

  /** Block 0 has children 1 and 2, and block 1 gets its priority of 5 from its child 3, ahead of the 3 of block 2. */
  ghost const FOREST: Forest := Forest(map[0 := [1, 2], 1 := [3], 2 := [], 3 := []], map[1 := 0, 2 := 0, 3 := 1],
                                       map[2 := [3], 3 := [5]], map[0 := {0}, 1 := {0, 1}, 2 := {0, 2}, 3 := {0, 1, 3}])

  lemma ForestTree()
    ensures Tree(FOREST)
  {
    hide Placed, Lists;
    forall x | x in FOREST.children
      ensures Placed(FOREST, x) && Lists(FOREST, x)
    {
      assert x in {0, 1, 2, 3};
      ForestPlaced(x);
      ForestLists(x);
    }
  }

  lemma ForestPlaced(x: nat)
    requires x in {0, 1, 2, 3}
    ensures Placed(FOREST, x)
  {}

  lemma ForestLists(x: nat)
    requires x in {0, 1, 2, 3}
    ensures Lists(FOREST, x)
  {
    assert NoDuplicates([]);
    assert [3][1..] == [] && NoDuplicates([3]);
    assert [1, 2][1..] == [2] && [2][1..] == [] && NoDuplicates([2]) && NoDuplicates([1, 2]);
  }

  lemma OneByteValue(b: Byte)
    requires b < 128
    ensures Signed([b]) == b
  {
    assert [b][..|[b]| - 1] == [];
    assert Unsigned([]) == 0;
    assert Unsigned([b]) == Unsigned([b][..0]) * 256 + b;
  }

  /** Without block 3, block 1 stays before block 2, which now has the higher priority. */
  lemma OutOfOrder()
    ensures Tree(FOREST) && AllSorted(FOREST, {}) && Tree(Detached(FOREST, 3)) && !AllSorted(Detached(FOREST, 3), {})
  {
    ForestTree();
    DetachedTree(FOREST, 3);
    ForestOrder();
    ForestDisorder();
  }

  lemma ForestOrder()
    requires Tree(FOREST)
    ensures AllSorted(FOREST, {})
  {
    hide Tree;
    var f := FOREST;
    OneByteValue(5);
    OneByteValue(3);
    ChildBelow(f, 1, 0);
    assert Find(f, 3) == Some([5]);
    assert FindFrom(f, 1, 0) == Some([5]);
    assert Effective(f, 1) == 5 && Effective(f, 2) == 3;
    forall n | n in f.children
      ensures SortedAt(f, n, {})
    {
      assert n in {0, 1, 2, 3};
      ListKnown(f, n);
      assert [1, 2][1..] == [2] && [2][1..] == [] && [3][1..] == [];
    }
  }

  lemma ForestLeft()
    requires Tree(FOREST)
    ensures var g := Detached(FOREST, 3);
            && 0 in g.children && g.children[0] == [1, 2] && 1 in g.children && g.children[1] == [] && 2 in g.children
            && g.stored == FOREST.stored
  {
    hide Tree, Without;
    NotListed();
    assert 3 in FOREST.above[3] && 3 !in FOREST.above[0] && 3 !in FOREST.above[1];
  }

  lemma NotListed()
    ensures Without([1, 2], 3) == [1, 2] && Without([3], 3) == []
  {
    assert [1, 2][1..] == [2] && [2][1..] == [];
  }

  lemma ForestDisorder()
    requires Tree(FOREST) && Tree(Detached(FOREST, 3))
    ensures !AllSorted(Detached(FOREST, 3), {})
  {
    hide Tree, Detached;
    ForestLeft();
    var g := Detached(FOREST, 3);
    OneByteValue(3);
    assert FindFrom(g, 1, 0) == None;
    assert Effective(g, 1) == 0 && Effective(g, 2) == 3;
    if SortedAt(g, 0, {}) {
      ListKnown(g, 0);
      SortedDescends(g, [1, 2], 0, 1);
    }
  }
}
