/** The tree of settings blocks and the effective priority of a block (src/core/settings.c). */
module SettingsSpec {
  import opened Units
  import opened ListOps
  import opened Wrappers

  /** The number that a sequence of bytes stands for in two's complement. */
  function Signed(data: seq<Byte>): int {
    if data != [] && data[0] >= 128 then Unsigned(data) - Power256(|data|) else Unsigned(data)
  }

  /**
   * Sibling lists, parents, the priority settings stored in the blocks themselves, and the ancestors of each block,
   * itself included.
   */
  datatype Forest = Forest(children: map<nat, seq<nat>>, parent: map<nat, nat>, stored: map<nat, seq<Byte>>,
                           above: map<nat, set<nat>>)

  /** Block `x` has its place among its siblings. */
  ghost predicate Placed(f: Forest, x: nat) {
    && x in f.above && f.above[x] <= f.children.Keys
    && if x in f.parent then
         var p := f.parent[x];
         p in f.children && x in f.children[p] && p in f.above && x !in f.above[p] && f.above[x] == f.above[p] + {x}
       else f.above[x] == {x}
  }

  ghost predicate Lists(f: Forest, x: nat)
    requires x in f.children
  {
    NoDuplicates(f.children[x]) && forall c :: c in f.children[x] ==>
      c in f.children && c in f.parent && f.parent[c] == x
  }

  ghost predicate Tree(f: Forest) {
    && f.parent.Keys <= f.children.Keys && f.above.Keys == f.children.Keys
    && (forall x :: x in f.children ==> Placed(f, x))
    && (forall x :: x in f.children ==> Lists(f, x))
  }

  /** The first priority setting found in a block, or else in its children in order. */
  ghost function Find(f: Forest, x: nat): Option<seq<Byte>>
    requires Tree(f) && x in f.children
    decreases f.children.Keys - f.above[x], 1, 0
  {
    if x in f.stored then Some(f.stored[x]) else FindFrom(f, x, 0)
  }

  ghost function FindFrom(f: Forest, x: nat, i: nat): Option<seq<Byte>>
    requires Tree(f) && x in f.children && i <= |f.children[x]|
    decreases f.children.Keys - f.above[x], 0, |f.children[x]| - i
  {
    if i == |f.children[x]| then None
    else
      ChildBelow(f, x, i);
      var r := Find(f, f.children[x][i]);
      if r.Some? then r else FindFrom(f, x, i + 1)
  }

  lemma ChildBelow(f: Forest, x: nat, i: nat)
    requires Tree(f) && x in f.children && i < |f.children[x]|
    ensures var c := f.children[x][i];
            c in f.children && f.children.Keys - f.above[c] < f.children.Keys - f.above[x]
  {
    var c := f.children[x][i];
    assert Lists(f, x) && Placed(f, c) && Placed(f, x);
    assert c in f.children.Keys - f.above[x];
  }

  /** The priority by which a block is ordered among its siblings. */
  ghost function Effective(f: Forest, x: nat): int
    requires Tree(f) && x in f.children
  {
    match Find(f, x)
    case None => 0
    case Some(data) => Signed(data)
  }

  // ----- What an effective priority depends on

  lemma {:induction false} SelfAbove(f: Forest, x: nat)
    requires Tree(f) && x in f.children
    ensures x in f.above[x]
  {
    assert Placed(f, x);
  }

  lemma {:induction false} ParentAbove(f: Forest, x: nat, c: nat)
    requires Tree(f) && x in f.children && c in f.above[x] && c in f.parent
    ensures f.parent[c] in f.above[x]
    decreases f.above[x]
  {
    assert Placed(f, x);
    if c == x {
      SelfAbove(f, f.parent[x]);
    } else {
      ParentAbove(f, f.parent[x], c);
    }
  }

  /** Two forests agree at every block that is not in `changed`. */
  ghost predicate SameBut(f: Forest, g: Forest, changed: set<nat>) {
    && f.children.Keys == g.children.Keys
    && forall x :: x in f.children && x !in changed ==>
         f.children[x] == g.children[x] && ((x in f.stored) <==> (x in g.stored)) &&
           (x in f.stored ==> f.stored[x] == g.stored[x])
  }

  /** No block of `changed` is `x` or below it. */
  ghost predicate Clear(f: Forest, x: nat, changed: set<nat>) {
    forall m :: m in changed && m in f.above ==> x !in f.above[m]
  }

  lemma ClearBelow(f: Forest, x: nat, i: nat, changed: set<nat>)
    requires Tree(f) && x in f.children && i < |f.children[x]| && Clear(f, x, changed)
    ensures f.children[x][i] in f.children && Clear(f, f.children[x][i], changed)
  {
    var c := f.children[x][i];
    assert Lists(f, x);
    forall m | m in changed && m in f.above
      ensures c !in f.above[m]
    {
      if c in f.above[m] {
        ParentAbove(f, m, c);
      }
    }
  }

  /** A block's priority is found without looking at blocks outside its own part of the tree. */
  lemma {:induction false} FindFrame(f: Forest, g: Forest, x: nat, changed: set<nat>)
    requires Tree(f) && Tree(g) && SameBut(f, g, changed) && x in f.children && Clear(f, x, changed)
    ensures Find(f, x) == Find(g, x)
    decreases f.children.Keys - f.above[x], 1, 0
  {
    hide Tree, Clear;
    NotChanged(f, x, changed);
    if x !in f.stored {
      FindFromFrame(f, g, x, 0, changed);
    }
  }

  lemma NotChanged(f: Forest, x: nat, changed: set<nat>)
    requires Tree(f) && x in f.children && Clear(f, x, changed)
    ensures x !in changed
  {
    SelfAbove(f, x);
  }

  lemma {:induction false} FindFromFrame(f: Forest, g: Forest, x: nat, i: nat, changed: set<nat>)
    requires Tree(f) && Tree(g) && SameBut(f, g, changed) && x in f.children && Clear(f, x, changed)
    requires x !in changed && i <= |f.children[x]|
    ensures FindFrom(f, x, i) == FindFrom(g, x, i)
    decreases f.children.Keys - f.above[x], 0, |f.children[x]| - i
  {
    hide Tree, Clear, Find;
    if i < |f.children[x]| {
      ChildBelow(f, x, i);
      ClearBelow(f, x, i, changed);
      FindFrame(f, g, f.children[x][i], changed);
      FindFromFrame(f, g, x, i + 1, changed);
    }
  }

  // ----- Order

  ghost predicate Known(f: Forest, list: seq<nat>) {
    forall c :: c in list ==> c in f.children
  }

  /** No block in the list but those exempt has a priority above `v`. */
  ghost predicate AtMost(f: Forest, list: seq<nat>, v: int, exempt: set<nat>)
    requires Tree(f) && Known(f, list)
  {
    forall c :: c in list && c !in exempt ==> Effective(f, c) <= v
  }

  /** The list is in order of descending priority, if the exempt blocks are passed over. */
  ghost predicate Sorted(f: Forest, list: seq<nat>, exempt: set<nat>)
    requires Tree(f) && Known(f, list)
  {
    list == [] ||
    (Sorted(f, list[1..], exempt) && (list[0] in exempt || AtMost(f, list[1..], Effective(f, list[0]), exempt)))
  }

  /** In an ordered list no block comes after one of lower priority. */
  lemma {:induction false} SortedDescends(f: Forest, list: seq<nat>, i: nat, j: nat)
    requires Tree(f) && Known(f, list) && Sorted(f, list, {}) && i < j < |list|
    ensures Effective(f, list[i]) >= Effective(f, list[j])
  {
    hide Tree, Effective;
    if i == 0 {
      assert list[j] == list[1..][j - 1];
    } else {
      SortedDescends(f, list[1..], i - 1, j - 1);
    }
  }

  lemma ListKnown(f: Forest, x: nat)
    requires Tree(f) && x in f.children
    ensures Known(f, f.children[x])
  {
    assert Lists(f, x);
  }

  ghost predicate SortedAt(f: Forest, x: nat, exempt: set<nat>)
    requires Tree(f) && x in f.children
  {
    ListKnown(f, x);
    Sorted(f, f.children[x], exempt)
  }

  /** Every sibling list of every tree is in order. */
  ghost predicate AllSorted(f: Forest, exempt: set<nat>)
    requires Tree(f)
  {
    forall x :: x in f.children ==> SortedAt(f, x, exempt)
  }

  lemma {:induction false} WithoutSorted(f: Forest, list: seq<nat>, x: nat, exempt: set<nat>)
    requires Tree(f) && Known(f, list) && NoDuplicates(list) && Sorted(f, list, exempt + {x})
    ensures Known(f, Without(list, x)) && Sorted(f, Without(list, x), exempt)
  {
    hide Tree, Effective;
    WithoutElements(list, x);
    if list != [] {
      if list[0] == x {
        SortedExempt(f, list[1..], exempt + {x}, exempt);
      } else {
        WithoutElements(list[1..], x);
        WithoutSorted(f, list[1..], x, exempt);
        assert Without(list, x)[1..] == Without(list[1..], x);
      }
    }
  }

  /** Exempting blocks that are not in the list makes no difference. */
  lemma {:induction false} SortedExempt(f: Forest, list: seq<nat>, exempt: set<nat>, exempt': set<nat>)
    requires Tree(f) && Known(f, list) && Sorted(f, list, exempt)
    requires forall c :: c in list && c in exempt ==> c in exempt'
    ensures Sorted(f, list, exempt')
  {
    hide Tree, Effective;
    if list != [] {
      SortedExempt(f, list[1..], exempt, exempt');
    }
  }

  /** Order depends only on the priorities of the blocks in the list. */
  lemma {:induction false} SortedFrame(f: Forest, g: Forest, list: seq<nat>, exempt: set<nat>)
    requires Tree(f) && Tree(g) && Known(f, list) && Known(g, list) && Sorted(f, list, exempt)
    requires forall c :: c in list && c !in exempt ==> Effective(f, c) == Effective(g, c)
    ensures Sorted(g, list, exempt)
  {
    hide Tree, Effective;
    if list != [] {
      SortedFrame(f, g, list[1..], exempt);
    }
  }

  /** The block goes before the first of lower priority. */
  ghost function Insertion(f: Forest, list: seq<nat>, x: nat): seq<nat>
    requires Tree(f) && Known(f, list) && x in f.children
  {
    if list == [] || Effective(f, x) > Effective(f, list[0]) then [x] + list
    else [list[0]] + Insertion(f, list[1..], x)
  }

  lemma {:induction false} InsertionElements(f: Forest, list: seq<nat>, x: nat)
    requires Tree(f) && Known(f, list) && x in f.children && NoDuplicates(list) && x !in list
    ensures forall c :: c in Insertion(f, list, x) <==> c in list || c == x
    ensures NoDuplicates(Insertion(f, list, x))
  {
    hide Tree, Effective;
    if list != [] && Effective(f, x) <= Effective(f, list[0]) {
      InsertionElements(f, list[1..], x);
      assert Insertion(f, list, x)[1..] == Insertion(f, list[1..], x);
    } else {
      assert ([x] + list)[1..] == list;
    }
  }

  lemma {:induction false} InsertionSorted(f: Forest, list: seq<nat>, x: nat)
    requires Tree(f) && Known(f, list) && x in f.children && NoDuplicates(list) && x !in list && Sorted(f, list, {})
    ensures Known(f, Insertion(f, list, x)) && Sorted(f, Insertion(f, list, x), {})
  {
    hide Tree, Effective;
    InsertionElements(f, list, x);
    if list != [] && Effective(f, x) <= Effective(f, list[0]) {
      InsertionElements(f, list[1..], x);
      InsertionSorted(f, list[1..], x);
      assert Insertion(f, list, x)[1..] == Insertion(f, list[1..], x);
    } else {
      assert ([x] + list)[1..] == list;
    }
  }

  /** The block goes after all blocks of the same or a higher priority and before the others. */
  lemma {:induction false} InsertionPlace(f: Forest, list: seq<nat>, x: nat) returns (k: nat)
    requires Tree(f) && Known(f, list) && x in f.children && Sorted(f, list, {})
    ensures k <= |list| && Insertion(f, list, x) == list[..k] + [x] + list[k..]
    ensures forall c :: c in list[..k] ==> Effective(f, c) >= Effective(f, x)
    ensures forall c :: c in list[k..] ==> Effective(f, c) < Effective(f, x)
  {
    hide Tree, Effective;
    if list == [] || Effective(f, x) > Effective(f, list[0]) {
      k := 0;
    } else {
      k := InsertionPlace(f, list[1..], x);
      assert list[1..][k..] == list[k + 1..];
      assert list[..k + 1] == [list[0]] + list[1..][..k];
      k := k + 1;
    }
  }

  // ----- Moving a block to its place among its siblings

  lemma PlacedFacts(f: Forest, x: nat)
    requires Tree(f) && x in f.children && x in f.parent
    ensures var p := f.parent[x];
            && p in f.children && p in f.above && x in f.children[p] && x !in f.above[p]
            && x in f.above && f.above[x] == f.above[p] + {x}
  {
    assert Placed(f, x);
  }

  lemma SiblingFacts(f: Forest, p: nat, c: nat)
    requires Tree(f) && p in f.children && c in f.children[p]
    ensures c in f.children && c in f.parent && f.parent[c] == p && p in f.above && c !in f.above[p]
  {
    assert Lists(f, p) && Placed(f, c);
  }

  lemma RestFacts(f: Forest, x: nat)
    requires Tree(f) && x in f.children && x in f.parent
    ensures var p := f.parent[x];
            p in f.children && Known(f, Without(f.children[p], x)) && NoDuplicates(Without(f.children[p], x))
            && x !in Without(f.children[p], x) && NoDuplicates(f.children[p])
  {
    PlacedFacts(f, x);
    assert Lists(f, f.parent[x]);
    WithoutElements(f.children[f.parent[x]], x);
  }

  /** The siblings of `x` with `x` moved to where its priority puts it. */
  ghost function Reordered(f: Forest, x: nat): seq<nat>
    requires Tree(f) && x in f.children && x in f.parent
  {
    RestFacts(f, x);
    Insertion(f, Without(f.children[f.parent[x]], x), x)
  }

  lemma ReorderedElements(f: Forest, x: nat)
    requires Tree(f) && x in f.children && x in f.parent
    ensures f.parent[x] in f.children
    ensures forall c :: c in Reordered(f, x) <==> c in f.children[f.parent[x]]
    ensures NoDuplicates(Reordered(f, x))
  {
    PlacedFacts(f, x);
    RestFacts(f, x);
    WithoutElements(f.children[f.parent[x]], x);
    InsertionElements(f, Without(f.children[f.parent[x]], x), x);
  }

  ghost function Moved(f: Forest, x: nat): Forest
    requires Tree(f) && x in f.children && x in f.parent
  {
    f.(children := f.children[f.parent[x] := Reordered(f, x)])
  }

  lemma MovedNode(f: Forest, x: nat, n: nat)
    requires Tree(f) && x in f.children && x in f.parent && n in f.children
    ensures n in Moved(f, x).children && Placed(Moved(f, x), n) && Lists(Moved(f, x), n)
  {
    hide Tree, Reordered, NoDuplicates;
    ReorderedElements(f, x);
    NodeFacts(f, n);
    NodeFacts(f, f.parent[x]);
  }

  lemma NodeFacts(f: Forest, n: nat)
    requires Tree(f) && n in f.children
    ensures Placed(f, n) && Lists(f, n) && f.parent.Keys <= f.children.Keys && f.above.Keys == f.children.Keys
  {}

  lemma MovedTree(f: Forest, x: nat)
    requires Tree(f) && x in f.children && x in f.parent
    ensures Tree(Moved(f, x)) && Moved(f, x).children.Keys == f.children.Keys
    ensures SameBut(f, Moved(f, x), {f.parent[x]})
  {
    hide Reordered, Placed, Lists;
    PlacedFacts(f, x);
    assert Moved(f, x).children.Keys == f.children.Keys;
    forall n | n in f.children
      ensures n in Moved(f, x).children && Placed(Moved(f, x), n) && Lists(Moved(f, x), n)
    {
      MovedNode(f, x, n);
    }
  }

  /** The moved block's siblings are in order, whatever its priority has become. */
  lemma ReorderedSorted(f: Forest, x: nat)
    requires Tree(f) && x in f.children && x in f.parent && AllSorted(f, f.above[x])
    ensures Known(f, Reordered(f, x)) && Sorted(f, Reordered(f, x), {})
  {
    hide Tree;
    PlacedFacts(f, x);
    var p := f.parent[x];
    RestFacts(f, x);
    ListKnown(f, p);
    assert SortedAt(f, p, f.above[x]);
    forall c | c in f.children[p] && c in f.above[x]
      ensures c == x
    {
      SiblingFacts(f, p, c);
    }
    SortedExempt(f, f.children[p], f.above[x], {} + {x});
    WithoutSorted(f, f.children[p], x, {});
    InsertionSorted(f, Without(f.children[p], x), x);
  }

  lemma EffectiveFrame(f: Forest, g: Forest, x: nat, q: nat)
    requires Tree(f) && Tree(g) && SameBut(f, g, {q}) && x in f.children && q in f.above && x !in f.above[q]
    ensures x in g.children && Effective(f, x) == Effective(g, x)
  {
    hide Tree, Find;
    assert Clear(f, x, {q});
    FindFrame(f, g, x, {q});
  }

  /** Order elsewhere survives a change at block `q`, except for the places of `q` and its ancestors. */
  lemma SortedElsewhere(f: Forest, g: Forest, q: nat, list: seq<nat>, exempt: set<nat>)
    requires Tree(f) && Tree(g) && SameBut(f, g, {q}) && q in f.above && Known(f, list) && Known(g, list)
    requires Sorted(f, list, exempt) && forall c :: c in list && c in exempt + f.above[q] ==> c in f.above[q]
    ensures Sorted(g, list, f.above[q])
  {
    hide Tree, Effective, Sorted;
    SortedExempt(f, list, exempt, f.above[q]);
    forall c | c in list && c !in f.above[q]
      ensures Effective(f, c) == Effective(g, c)
    {
      EffectiveFrame(f, g, c, q);
    }
    SortedFrame(f, g, list, f.above[q]);
  }

  /** After the move only the parent and its ancestors may be out of place. */
  lemma MovedSorted(f: Forest, x: nat)
    requires Tree(f) && x in f.children && x in f.parent && AllSorted(f, f.above[x])
    ensures Tree(Moved(f, x)) && f.parent[x] in f.above && AllSorted(Moved(f, x), f.above[f.parent[x]])
  {
    hide Tree, Reordered, Sorted;
    PlacedFacts(f, x);
    var g, p := Moved(f, x), f.parent[x];
    MovedTree(f, x);
    ReorderedSorted(f, x);
    forall n | n in g.children
      ensures SortedAt(g, n, f.above[p])
    {
      ListKnown(g, n);
      if n == p {
        SortedElsewhere(f, g, p, g.children[n], {});
      } else {
        ListKnown(f, n);
        assert SortedAt(f, n, f.above[x]);
        XElsewhere(f, x, n);
        SortedElsewhere(f, g, p, g.children[n], f.above[x]);
      }
    }
  }

  lemma XElsewhere(f: Forest, x: nat, n: nat)
    requires Tree(f) && x in f.children && x in f.parent && n in f.children && n != f.parent[x]
    ensures x !in f.children[n]
  {
    assert Lists(f, n);
  }

  /** At the top of a tree there is nothing left to move. */
  lemma TopSorted(f: Forest, x: nat)
    requires Tree(f) && x in f.children && x !in f.parent && AllSorted(f, f.above[x])
    ensures AllSorted(f, {})
  {
    hide Tree, Sorted;
    TopAbove(f, x);
    forall n | n in f.children
      ensures SortedAt(f, n, {})
    {
      ListKnown(f, n);
      assert SortedAt(f, n, f.above[x]);
      TopNotListed(f, x, n);
      SortedExempt(f, f.children[n], f.above[x], {});
    }
  }

  lemma TopAbove(f: Forest, x: nat)
    requires Tree(f) && x in f.children && x !in f.parent
    ensures x in f.above && f.above[x] == {x}
  {
    assert Placed(f, x);
  }

  lemma TopNotListed(f: Forest, x: nat, n: nat)
    requires Tree(f) && x in f.children && x !in f.parent && n in f.children
    ensures x !in f.children[n]
  {
    assert Lists(f, n);
  }

  /** Storing a priority in a block leaves only that block and its ancestors out of place. */
  lemma StoredSorted(f: Forest, g: Forest, x: nat)
    requires Tree(f) && x in f.children && AllSorted(f, {})
    requires g.children == f.children && g.parent == f.parent && g.above == f.above && SameBut(f, g, {x})
    ensures Tree(g) && AllSorted(g, f.above[x])
  {
    hide Sorted;
    assert Tree(g) by {
      forall n | n in g.children
        ensures Placed(g, n) && Lists(g, n)
      {
        assert Placed(f, n) && Lists(f, n);
      }
    }
    forall n | n in g.children
      ensures SortedAt(g, n, f.above[x])
    {
      ListKnown(f, n);
      ListKnown(g, n);
      assert SortedAt(f, n, {});
      SortedElsewhere(f, g, x, g.children[n], {});
    }
  }
}
