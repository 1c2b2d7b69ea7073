/** Adding blocks to and removing them from the tree of settings, and what that does to the order of siblings. */
module SettingsLinks {
  import opened ListOps
  import opened SettingsSpec

  // ----- Ancestors

  lemma {:induction false} AboveTransitive(f: Forest, n: nat, m: nat)
    requires Tree(f) && m in f.children && n in f.above[m]
    ensures n in f.children && f.above[n] <= f.above[m]
    decreases f.above[m]
  {
    assert Placed(f, m);
    if n != m {
      AboveTransitive(f, n, f.parent[m]);
    }
  }

  /** Of two ancestors of a block one is an ancestor of the other. */
  lemma {:induction false} AboveComparable(f: Forest, a: nat, b: nat, m: nat)
    requires Tree(f) && m in f.children && a in f.above[m] && b in f.above[m]
    ensures a in f.children && b in f.children && (a in f.above[b] || b in f.above[a])
    decreases f.above[m]
  {
    assert Placed(f, m);
    if a != m && b != m {
      AboveComparable(f, a, b, f.parent[m]);
    }
  }

  // ----- Adding a block at the end of its parent's list

  ghost function Linked(f: Forest, x: nat, p: nat): Forest
    requires Tree(f) && x in f.children && p in f.children
  {
    f.(children := f.children[p := f.children[p] + [x]],
       parent := f.parent[x := p],
       above := map n | n in f.above :: if x in f.above[n] then f.above[n] + f.above[p] else f.above[n])
  }

  lemma LinkedPlaced(f: Forest, x: nat, p: nat, n: nat)
    requires Tree(f) && x in f.children && x !in f.parent && p in f.children && x !in f.above[p] && n in f.children
    ensures Placed(Linked(f, x, p), n)
  {
    hide Lists, Tree;
    NodeFacts(f, n);
    NodeFacts(f, p);
    SelfAbove(f, n);
    SelfAbove(f, p);
    if n == x {
      TopAbove(f, x);
    } else if n in f.parent {
      PlacedFacts(f, n);
      if n in f.above[p] {
        AboveTransitive(f, n, p);
      }
    }
  }

  lemma LinkedLists(f: Forest, x: nat, p: nat, n: nat)
    requires Tree(f) && x in f.children && x !in f.parent && p in f.children && n in f.children
    ensures n in Linked(f, x, p).children && Lists(Linked(f, x, p), n)
  {
    hide Placed, NoDuplicates;
    NodeFacts(f, n);
    if n == p {
      TopNotListed(f, x, p);
      AppendNoDuplicates(f.children[p], x);
    }
  }

  lemma LinkedTree(f: Forest, x: nat, p: nat)
    requires Tree(f) && x in f.children && x !in f.parent && p in f.children && x !in f.above[p]
    ensures Tree(Linked(f, x, p)) && SameBut(f, Linked(f, x, p), {p}) && Linked(f, x, p).above[x] == f.above[p] + {x}
  {
    hide Placed, Lists;
    var g := Linked(f, x, p);
    assert g.children.Keys == f.children.Keys && g.above.Keys == f.above.Keys;
    forall n | n in f.children
      ensures Placed(g, n) && n in g.children && Lists(g, n)
    {
      LinkedPlaced(f, x, p, n);
      LinkedLists(f, x, p, n);
    }
    TopAbove(f, x);
  }

  lemma {:induction false} SortedAppend(f: Forest, list: seq<nat>, x: nat, exempt: set<nat>)
    requires Tree(f) && Known(f, list) && x in f.children && Sorted(f, list, exempt) && x in exempt
    ensures Known(f, list + [x]) && Sorted(f, list + [x], exempt)
  {
    hide Tree, Effective;
    if list != [] {
      SortedAppend(f, list[1..], x, exempt);
      assert (list + [x])[1..] == list[1..] + [x];
    }
  }

  /** Adding a block leaves only it and its new ancestors out of place. */
  lemma LinkedSorted(f: Forest, x: nat, p: nat)
    requires Tree(f) && x in f.children && x !in f.parent && p in f.children && x !in f.above[p]
    requires AllSorted(f, f.above[p])
    ensures Tree(Linked(f, x, p)) && AllSorted(Linked(f, x, p), Linked(f, x, p).above[x])
  {
    hide Sorted, Placed, Lists;
    var g := Linked(f, x, p);
    LinkedTree(f, x, p);
    forall n | n in g.children
      ensures SortedAt(g, n, g.above[x])
    {
      ListKnown(f, n);
      ListKnown(g, n);
      assert SortedAt(f, n, f.above[p]);
      SortedElsewhere(f, g, p, f.children[n], f.above[p]);
      SortedExempt(g, f.children[n], f.above[p], g.above[x]);
      if n == p {
        SortedAppend(g, f.children[n], x, g.above[x]);
      }
    }
  }

  // ----- Removing a block together with everything below it

  ghost function Detached(f: Forest, x: nat): Forest
    requires Tree(f)
  {
    f.(children := map n | n in f.children :: if x in f.above[n] then [] else Without(f.children[n], x),
       parent := map n | n in f.parent && x !in f.above[n] :: f.parent[n],
       above := map n | n in f.above :: if x in f.above[n] then {n} else f.above[n])
  }

  lemma DetachedPlaced(f: Forest, x: nat, n: nat)
    requires Tree(f) && x in f.children && n in f.children
    ensures Placed(Detached(f, x), n)
  {
    hide Lists;
    NodeFacts(f, n);
    SelfAbove(f, n);
    if n in f.parent && x !in f.above[n] {
      PlacedFacts(f, n);
      DetachedList(f, x, f.parent[n]);
    }
  }

  lemma DetachedList(f: Forest, x: nat, n: nat)
    requires Tree(f) && n in f.children
    ensures NoDuplicates(Without(f.children[n], x))
    ensures forall c :: c in Without(f.children[n], x) <==> c in f.children[n] && c != x
  {
    assert Lists(f, n);
    WithoutElements(f.children[n], x);
  }

  lemma DetachedLists(f: Forest, x: nat, n: nat)
    requires Tree(f) && x in f.children && n in f.children
    ensures n in Detached(f, x).children && Lists(Detached(f, x), n)
  {
    hide NoDuplicates, Tree, Without;
    NodeFacts(f, n);
    var g := Detached(f, x);
    if x in f.above[n] {
      EmptyList();
    } else {
      DetachedList(f, x, n);
      forall c | c in g.children[n]
        ensures c in g.children && c in g.parent && g.parent[c] == n
      {
        SiblingFacts(f, n, c);
        PlacedFacts(f, c);
      }
    }
  }

  lemma EmptyList()
    ensures NoDuplicates([])
  {}

  lemma DetachedTree(f: Forest, x: nat)
    requires Tree(f) && x in f.children
    ensures Tree(Detached(f, x)) && Detached(f, x).children.Keys == f.children.Keys
  {
    hide Placed, Lists;
    var g := Detached(f, x);
    assert g.children.Keys == f.children.Keys && g.above.Keys == f.above.Keys;
    forall n | n in f.children
      ensures Placed(g, n) && n in g.children && Lists(g, n)
    {
      DetachedPlaced(f, x, n);
      DetachedLists(f, x, n);
    }
  }

  /** The blocks at which removing `x` changes something. */
  ghost function Disturbed(f: Forest, x: nat, p: nat): set<nat> {
    (set n | n in f.above && x in f.above[n]) + {p}
  }

  lemma DetachedSame(f: Forest, x: nat)
    requires Tree(f) && x in f.children && x in f.parent
    ensures SameBut(f, Detached(f, x), Disturbed(f, x, f.parent[x]))
  {
    hide Placed, Lists;
    forall n | n in f.children && n !in Disturbed(f, x, f.parent[x])
      ensures Without(f.children[n], x) == f.children[n]
    {
      XElsewhere(f, x, n);
      NodeFacts(f, n);
      WithoutListed(f, n, x);
    }
  }

  lemma WithoutListed(f: Forest, n: nat, x: nat)
    requires Tree(f) && n in f.children && x !in f.children[n]
    ensures Without(f.children[n], x) == f.children[n]
  {
    assert Lists(f, n);
    WithoutElements(f.children[n], x);
  }

  lemma DetachedClear(f: Forest, x: nat, n: nat, c: nat)
    requires Tree(f) && x in f.children && x in f.parent && f.parent[x] in f.above
    requires n in f.children && x !in f.above[n] && c in f.children[n] && c != x && c !in f.above[f.parent[x]]
    ensures c in f.children && Clear(f, c, Disturbed(f, x, f.parent[x]))
  {
    hide Lists;
    SiblingFacts(f, n, c);
    PlacedFacts(f, c);
    PlacedFacts(f, x);
    forall m | m in Disturbed(f, x, f.parent[x]) && m in f.above
      ensures c !in f.above[m]
    {
      if m != f.parent[x] && c in f.above[m] {
        AboveComparable(f, c, x, m);
      }
    }
  }

  lemma DetachedSortedAt(f: Forest, x: nat, n: nat)
    requires Tree(f) && x in f.children && x in f.parent && f.parent[x] in f.above && AllSorted(f, {}) &&
      n in f.children
    requires x !in f.above[n] && Tree(Detached(f, x)) && n in Detached(f, x).children
    ensures SortedAt(Detached(f, x), n, f.above[f.parent[x]])
  {
    hide Sorted, Placed, Lists, Effective;
    var g := Detached(f, x);
    var up := f.above[f.parent[x]];
    ListKnown(f, n);
    ListKnown(g, n);
    NodeFacts(f, n);
    ListNoDuplicates(f, n);
    assert SortedAt(f, n, {});
    SortedExempt(f, f.children[n], {}, {} + {x});
    WithoutSorted(f, f.children[n], x, {});
    DetachedList(f, x, n);
    DetachedSame(f, x);
    SortedExempt(f, g.children[n], {}, up);
    forall c | c in g.children[n] && c !in up
      ensures Effective(f, c) == Effective(g, c)
    {
      DetachedClear(f, x, n, c);
      SameEffective(f, g, c, Disturbed(f, x, f.parent[x]));
    }
    SortedFrame(f, g, g.children[n], up);
  }

  lemma ListNoDuplicates(f: Forest, n: nat)
    requires Tree(f) && n in f.children
    ensures NoDuplicates(f.children[n])
  {
    assert Lists(f, n);
  }

  lemma SameEffective(f: Forest, g: Forest, x: nat, changed: set<nat>)
    requires Tree(f) && Tree(g) && SameBut(f, g, changed) && x in f.children && Clear(f, x, changed)
    ensures x in g.children && Effective(f, x) == Effective(g, x)
  {
    hide Tree, Find, Clear;
    FindFrame(f, g, x, changed);
  }

  /** What is left without a block: exactly the others that were not below it, with their parents, in their order. */
  lemma DetachedExactly(f: Forest, x: nat)
    requires Tree(f) && x in f.children
    ensures var g := Detached(f, x);
            && (forall n :: n in g.parent <==> n in f.parent && n in f.above && x !in f.above[n])
            && (forall n :: n in g.parent ==> g.parent[n] == f.parent[n])
            && g.children.Keys == f.children.Keys && g.stored == f.stored
    ensures forall n :: n in f.children && n in f.above && x in f.above[n] ==> Detached(f, x).children[n] == []
    ensures forall n :: n in f.children && n in f.above && x !in f.above[n] ==>
      if x in f.children[n]
      then exists k :: 0 <= k < |f.children[n]| && f.children[n][k] == x
                       && Detached(f, x).children[n] == f.children[n][..k] + f.children[n][k + 1..]
      else Detached(f, x).children[n] == f.children[n]
  {
    hide Without;
    DetachDomain(f, x);
    forall n | n in f.children && n in f.above && x !in f.above[n]
      ensures if x in f.children[n]
              then exists k :: 0 <= k < |f.children[n]| && f.children[n][k] == x
                               && Detached(f, x).children[n] == f.children[n][..k] + f.children[n][k + 1..]
              else Detached(f, x).children[n] == f.children[n]
    {
      if x in f.children[n] {
        var k := WithoutIs(f.children[n], x);
      } else {
        WithoutListed(f, n, x);
      }
    }
  }

  /** Removing a block leaves only its former ancestors out of place. */
  lemma DetachedSorted(f: Forest, x: nat)
    requires Tree(f) && x in f.children && x in f.parent && AllSorted(f, {})
    ensures Tree(Detached(f, x)) && f.parent[x] in Detached(f, x).above
    ensures AllSorted(Detached(f, x), Detached(f, x).above[f.parent[x]])
  {
    hide Sorted, Placed, Lists, Tree;
    var g := Detached(f, x);
    DetachedTree(f, x);
    PlacedFacts(f, x);
    forall n | n in g.children
      ensures SortedAt(g, n, g.above[f.parent[x]])
    {
      NodeFacts(f, n);
      if x in f.above[n] {
        ListKnown(g, n);
        SortedNothing(g, g.above[f.parent[x]]);
      } else {
        DetachedSortedAt(f, x, n);
      }
    }
  }

  lemma SortedNothing(f: Forest, exempt: set<nat>)
    requires Tree(f)
    ensures Known(f, []) && Sorted(f, [], exempt)
  {}

  // ----- Removing the children of a block one after another

  /** Block `n` is one of the first `k` children of `x`, or below one of them. */
  ghost predicate Under(f: Forest, x: nat, k: nat, n: nat)
    requires Tree(f) && x in f.children && n in f.above && k <= |f.children[x]|
  {
    exists j :: 0 <= j < k && f.children[x][j] in f.above[n]
  }

  ghost function UnderSet(f: Forest, x: nat, k: nat): set<nat>
    requires Tree(f) && x in f.children && k <= |f.children[x]|
  {
    set n | n in f.above && Under(f, x, k, n)
  }

  /** The forest in which the blocks in `gone` stand alone, and `x` has the children in `rest`. */
  ghost function Strip(f: Forest, x: nat, gone: set<nat>, rest: seq<nat>): Forest {
    f.(children := map n | n in f.children :: if n in gone then [] else if n == x then rest else f.children[n],
       parent := f.parent - gone,
       above := map n | n in f.above :: if n in gone then {n} else f.above[n])
  }

  ghost function Stripped(f: Forest, x: nat, k: nat): Forest
    requires Tree(f) && x in f.children && k <= |f.children[x]|
  {
    Strip(f, x, UnderSet(f, x, k), f.children[x][k..])
  }

  lemma StripNothing(f: Forest, x: nat)
    requires x in f.children
    ensures Strip(f, x, {}, f.children[x]) == f
  {
    var g := Strip(f, x, {}, f.children[x]);
    assert g.children == f.children;
    assert g.above == f.above;
    assert g.parent == f.parent;
  }

  lemma StrippedNone(f: Forest, x: nat)
    requires Tree(f) && x in f.children
    ensures Stripped(f, x, 0) == f
  {
    hide Tree, Strip;
    StripNothing(f, x);
    assert f.children[x][0..] == f.children[x];
    assert UnderSet(f, x, 0) == {};
  }

  lemma NotUnder(f: Forest, x: nat, k: nat)
    requires Tree(f) && x in f.children && k <= |f.children[x]|
    ensures x in f.above && !Under(f, x, k, x)
    ensures k < |f.children[x]| ==> f.children[x][k] in f.above && !Under(f, x, k, f.children[x][k])
  {
    NodeFacts(f, x);
    forall j | 0 <= j < k
      ensures f.children[x][j] !in f.above[x]
    {
      SiblingFacts(f, x, f.children[x][j]);
    }
    if k < |f.children[x]| {
      SiblingFacts(f, x, f.children[x][k]);
      PlacedFacts(f, f.children[x][k]);
      ListNoDuplicates(f, x);
      EarlierDiffers(f.children[x], k);
    }
  }

  lemma {:induction false} EarlierDiffers(list: seq<nat>, k: nat)
    requires NoDuplicates(list) && k < |list|
    ensures forall j :: 0 <= j < k ==> list[j] != list[k]
  {
    if k > 0 {
      EarlierDiffers(list[1..], k - 1);
      forall j | 0 <= j < k
        ensures list[j] != list[k]
      {
        assert list[k] == list[1..][k - 1] && list[k] in list[1..];
        if j > 0 {
          assert list[j] == list[1..][j - 1];
        }
      }
    }
  }

  lemma StrippedFacts(f: Forest, x: nat, k: nat)
    requires Tree(f) && x in f.children && k <= |f.children[x]|
    ensures var s := Stripped(f, x, k);
            && s.children.Keys == f.children.Keys && s.children[x] == f.children[x][k..] && s.stored == f.stored
            && x in s.above && x in f.above && s.above[x] == f.above[x]
  {
    hide Tree;
    NotUnder(f, x, k);
  }

  lemma UnderNext(f: Forest, x: nat, k: nat)
    requires Tree(f) && x in f.children && k < |f.children[x]|
    ensures forall n :: n in UnderSet(f, x, k + 1) <==>
      n in UnderSet(f, x, k) || (n in f.above && f.children[x][k] in f.above[n])
    ensures UnderSet(f, x, k) <= f.above.Keys && f.children[x][k] !in UnderSet(f, x, k)
  {
    hide Tree;
    NotUnder(f, x, k);
    forall n | n in f.above
      ensures Under(f, x, k + 1, n) <==> Under(f, x, k, n) || f.children[x][k] in f.above[n]
    {}
  }

  /** What removing `kid` does to a forest that is partly stripped. */
  lemma DetachStripped(f: Forest, x: nat, kid: nat, gone: set<nat>, gone': set<nat>, rest: seq<nat>, rest': seq<nat>)
    requires Tree(Strip(f, x, gone, rest)) && f.above.Keys == f.children.Keys && f.parent.Keys <= f.children.Keys
    requires kid !in gone && forall n :: n in gone' <==> n in gone || (n in f.above && kid in f.above[n])
    requires forall n :: n in f.children && n != x && n !in gone' ==> Without(f.children[n], kid) == f.children[n]
    requires Without(rest, kid) == rest'
    ensures Detached(Strip(f, x, gone, rest), kid) == Strip(f, x, gone', rest')
  {
    hide Tree, Without, Strip, Detached;
    DetachStrippedChildren(f, x, kid, gone, gone', rest, rest');
    DetachStrippedParent(f, x, kid, gone, gone', rest);
    DetachStrippedAbove(f, x, kid, gone, gone', rest);
    StripRest(f, x, gone, gone', rest, rest');
    DetachKeepsStored(Strip(f, x, gone, rest), kid);
  }

  lemma DetachKeepsStored(f: Forest, x: nat)
    requires Tree(f)
    ensures Detached(f, x).stored == f.stored
  {
    hide Tree;
  }

  lemma StripRest(f: Forest, x: nat, gone: set<nat>, gone': set<nat>, rest: seq<nat>, rest': seq<nat>)
    ensures Strip(f, x, gone, rest).stored == f.stored == Strip(f, x, gone', rest').stored
    ensures Strip(f, x, gone', rest).parent == Strip(f, x, gone', rest').parent
    ensures Strip(f, x, gone', rest).above == Strip(f, x, gone', rest').above
  {}

  lemma DetachStrippedChildren(f: Forest, x: nat, kid: nat, gone: set<nat>, gone': set<nat>, rest: seq<nat>,
                               rest': seq<nat>)
    requires Tree(Strip(f, x, gone, rest)) && f.above.Keys == f.children.Keys
    requires kid !in gone && forall n :: n in gone' <==> n in gone || (n in f.above && kid in f.above[n])
    requires forall n :: n in f.children && n != x && n !in gone' ==> Without(f.children[n], kid) == f.children[n]
    requires Without(rest, kid) == rest'
    ensures Detached(Strip(f, x, gone, rest), kid).children == Strip(f, x, gone', rest').children
  {
    hide Tree, Without, Strip, Detached;
    var s := Strip(f, x, gone, rest);
    StripDomain(f, x, gone, rest);
    StripDomain(f, x, gone', rest');
    DetachDomain(s, kid);
    forall n | n in f.children
      ensures Detached(s, kid).children[n] == Strip(f, x, gone', rest').children[n]
    {
      DetachStrippedAt(f, x, kid, gone, gone', rest, rest', n);
    }
  }

  lemma StripDomain(f: Forest, x: nat, gone: set<nat>, rest: seq<nat>)
    ensures Strip(f, x, gone, rest).children.Keys == f.children.Keys
    ensures Strip(f, x, gone, rest).above.Keys == f.above.Keys
  {}

  lemma DetachDomain(f: Forest, x: nat)
    requires Tree(f)
    ensures Detached(f, x).children.Keys == f.children.Keys
  {
    hide Without;
  }

  lemma DetachStrippedAt(f: Forest, x: nat, kid: nat, gone: set<nat>, gone': set<nat>, rest: seq<nat>,
                         rest': seq<nat>, n: nat)
    requires Tree(Strip(f, x, gone, rest)) && f.above.Keys == f.children.Keys && n in f.children
    requires kid !in gone && (n in gone' <==> n in gone || kid in f.above[n])
    requires n != x && n !in gone' ==> Without(f.children[n], kid) == f.children[n]
    requires Without(rest, kid) == rest'
    ensures n in Strip(f, x, gone', rest').children && n in Detached(Strip(f, x, gone, rest), kid).children
    ensures Detached(Strip(f, x, gone, rest), kid).children[n] == Strip(f, x, gone', rest').children[n]
  {
    hide Tree, Without;
    WithoutNothing(kid);
  }

  lemma DetachStrippedParent(f: Forest, x: nat, kid: nat, gone: set<nat>, gone': set<nat>, rest: seq<nat>)
    requires Tree(Strip(f, x, gone, rest)) && f.above.Keys == f.children.Keys && f.parent.Keys <= f.children.Keys
    requires kid !in gone && forall n :: n in gone' <==> n in gone || (n in f.above && kid in f.above[n])
    ensures Detached(Strip(f, x, gone, rest), kid).parent == Strip(f, x, gone', rest).parent
  {
    hide Tree, Without;
  }

  lemma DetachStrippedAbove(f: Forest, x: nat, kid: nat, gone: set<nat>, gone': set<nat>, rest: seq<nat>)
    requires Tree(Strip(f, x, gone, rest)) && f.above.Keys == f.children.Keys
    requires kid !in gone && forall n :: n in gone' <==> n in gone || (n in f.above && kid in f.above[n])
    ensures Detached(Strip(f, x, gone, rest), kid).above == Strip(f, x, gone', rest).above
  {
    hide Tree, Without;
  }

  lemma WithoutNothing(x: nat)
    ensures Without([], x) == []
  {}

  /** Removing the next child of a block in the midst of being stripped. */
  lemma StrippedNext(f: Forest, x: nat, k: nat)
    requires Tree(f) && x in f.children && k < |f.children[x]| && Tree(Stripped(f, x, k))
    ensures Detached(Stripped(f, x, k), f.children[x][k]) == Stripped(f, x, k + 1)
  {
    hide Tree, Strip, Detached, UnderSet, Without;
    NodeFacts(f, x);
    var kid := f.children[x][k];
    SiblingFacts(f, x, kid);
    UnderNext(f, x, k);
    forall n | n in f.children && n != x
      ensures Without(f.children[n], kid) == f.children[n]
    {
      XElsewhere(f, kid, n);
      WithoutListed(f, n, kid);
    }
    WithoutFirst(f.children[x], k);
    DetachStripped(f, x, kid, UnderSet(f, x, k), UnderSet(f, x, k + 1), f.children[x][k..], f.children[x][k + 1..]);
  }

  lemma WithoutFirst(list: seq<nat>, k: nat)
    requires k < |list|
    ensures Without(list[k..], list[k]) == list[k + 1..]
  {
    assert list[k..][1..] == list[k + 1..];
  }

  lemma {:induction false} KidAbove(f: Forest, x: nat, n: nat) returns (j: nat)
    requires Tree(f) && x in f.children && n in f.children && x in f.above[n] && n != x
    ensures j < |f.children[x]| && f.children[x][j] in f.above[n]
    decreases f.above[n]
  {
    NodeFacts(f, n);
    PlacedFacts(f, n);
    SelfAbove(f, n);
    var q := f.parent[n];
    if q == x {
      j :| 0 <= j < |f.children[x]| && f.children[x][j] == n;
    } else {
      j := KidAbove(f, x, q);
    }
  }

  lemma AllUnder(f: Forest, x: nat)
    requires Tree(f) && x in f.children
    ensures forall n :: n in f.above ==> (x in f.above[n] <==> n == x || n in UnderSet(f, x, |f.children[x]|))
  {
    hide Tree;
    forall n | n in f.above
      ensures x in f.above[n] <==> n == x || n in UnderSet(f, x, |f.children[x]|)
    {
      NodeFacts(f, x);
      SelfAbove(f, x);
      if x in f.above[n] && n != x {
        var j := KidAbove(f, x, n);
        assert Under(f, x, |f.children[x]|, n);
      } else if n in UnderSet(f, x, |f.children[x]|) {
        var j :| 0 <= j < |f.children[x]| && f.children[x][j] in f.above[n];
        SiblingFacts(f, x, f.children[x][j]);
        ParentAbove(f, n, f.children[x][j]);
      }
    }
  }

  /** A block with no children left is removed by unlinking it from its parent's list. */
  ghost function Unlinked(f: Forest, x: nat): Forest
    requires x in f.parent && f.parent[x] in f.children
  {
    f.(children := f.children[f.parent[x] := Without(f.children[f.parent[x]], x)], parent := f.parent - {x},
       above := f.above[x := {x}])
  }

  lemma UnlinkStripped(f: Forest, x: nat, gone: set<nat>)
    requires Tree(f) && x in f.children && x in f.parent && f.parent[x] in f.children && x !in gone
    requires f.parent[x] !in gone && f.parent[x] != x && x in f.above
    requires f.above.Keys == f.children.Keys && f.parent.Keys <= f.children.Keys
    requires forall n :: n in f.above ==> (x in f.above[n] <==> n == x || n in gone)
    requires forall n :: n in f.children && n != f.parent[x] ==> Without(f.children[n], x) == f.children[n]
    ensures Unlinked(Strip(f, x, gone, []), x) == Detached(f, x)
  {
    hide Without, Tree;
    UnlinkStrippedChildren(f, x, gone);
    UnlinkStrippedRest(f, x, gone);
  }

  lemma UnlinkStrippedChildren(f: Forest, x: nat, gone: set<nat>)
    requires Tree(f) && x in f.children && x in f.parent && f.parent[x] in f.children && x !in gone
    requires f.parent[x] !in gone && f.parent[x] != x && x in f.above && f.above.Keys == f.children.Keys
    requires forall n :: n in f.above ==> (x in f.above[n] <==> n == x || n in gone)
    requires forall n :: n in f.children && n != f.parent[x] ==> Without(f.children[n], x) == f.children[n]
    ensures Unlinked(Strip(f, x, gone, []), x).children == Detached(f, x).children
  {
    hide Without, Tree, Detached, Strip, Unlinked;
    StripDomain(f, x, gone, []);
    DetachDomain(f, x);
    StripParent(f, x, gone);
    UnlinkDomain(Strip(f, x, gone, []), x);
    forall n | n in f.children
      ensures Unlinked(Strip(f, x, gone, []), x).children[n] == Detached(f, x).children[n]
    {
      UnlinkStrippedAt(f, x, gone, n);
    }
  }

  lemma UnlinkDomain(f: Forest, x: nat)
    requires x in f.parent && f.parent[x] in f.children
    ensures Unlinked(f, x).children.Keys == f.children.Keys
  {
    hide Without;
  }

  lemma StripParent(f: Forest, x: nat, gone: set<nat>)
    requires x in f.parent && x !in gone
    ensures x in Strip(f, x, gone, []).parent && Strip(f, x, gone, []).parent[x] == f.parent[x]
  {}

  lemma UnlinkStrippedAt(f: Forest, x: nat, gone: set<nat>, n: nat)
    requires Tree(f) && x in f.children && x in f.parent && f.parent[x] in f.children && x !in gone && n in f.children
    requires f.parent[x] !in gone && f.parent[x] != x && f.above.Keys == f.children.Keys
    requires x in f.above[n] <==> n == x || n in gone
    requires n != f.parent[x] ==> Without(f.children[n], x) == f.children[n]
    ensures n in Unlinked(Strip(f, x, gone, []), x).children && n in Detached(f, x).children
    ensures Unlinked(Strip(f, x, gone, []), x).children[n] == Detached(f, x).children[n]
  {
    hide Without, Tree;
  }

  lemma UnlinkStrippedRest(f: Forest, x: nat, gone: set<nat>)
    requires Tree(f) && x in f.children && x in f.parent && f.parent[x] in f.children && x !in gone
    requires x in f.above && f.above.Keys == f.children.Keys && f.parent.Keys <= f.children.Keys
    requires forall n :: n in f.above ==> (x in f.above[n] <==> n == x || n in gone)
    ensures Unlinked(Strip(f, x, gone, []), x).parent == Detached(f, x).parent
    ensures Unlinked(Strip(f, x, gone, []), x).above == Detached(f, x).above
  {
    hide Without, Tree;
  }

  lemma StrippedAll(f: Forest, x: nat)
    requires Tree(f) && x in f.children && x in f.parent
    ensures f.parent[x] in Stripped(f, x, |f.children[x]|).children && x in Stripped(f, x, |f.children[x]|).parent
    ensures Stripped(f, x, |f.children[x]|).parent[x] == f.parent[x]
    ensures Unlinked(Stripped(f, x, |f.children[x]|), x) == Detached(f, x)
  {
    hide Tree, Detached, UnderSet, Without, Unlinked;
    var k := |f.children[x]|;
    AllUnder(f, x);
    NodeFacts(f, x);
    PlacedFacts(f, x);
    NotUnderSelf(f, x);
    forall n | n in f.children && n != f.parent[x]
      ensures Without(f.children[n], x) == f.children[n]
    {
      XElsewhere(f, x, n);
      WithoutListed(f, n, x);
    }
    assert f.children[x][k..] == [];
    UnlinkStripped(f, x, UnderSet(f, x, k));
  }

  lemma NotUnderSelf(f: Forest, x: nat)
    requires Tree(f) && x in f.children && x in f.parent
    ensures x !in UnderSet(f, x, |f.children[x]|) && f.parent[x] !in UnderSet(f, x, |f.children[x]|) && f.parent[x] != x
  {
    hide Tree;
    NotUnder(f, x, |f.children[x]|);
    PlacedFacts(f, x);
    SelfAbove(f, f.parent[x]);
    AllUnder(f, x);
  }
}
