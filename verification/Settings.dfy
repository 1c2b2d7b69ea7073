/** The tree of settings blocks of src/core/settings.c, relinked in place as priorities change. */
module Settings {
  import opened Units
  import opened ListOps
  import opened SettingsSpec
  import opened SettingsLinks
  import opened SettingsSearch
  import opened SettingsNumbers
  import opened Wrappers

  class Blocks {
    /** Sibling lists and parents of the blocks, registered or not. */
    var children: map<nat, seq<nat>>
    var parent: map<nat, nat>
    /** The priority settings stored in the blocks themselves. */
    var stored: map<nat, seq<Byte>>
    var name: map<nat, string>
    ghost var above: map<nat, set<nat>>

    ghost function View(): Forest
      reads this
    {
      Forest(children, parent, stored, above)
    }

    /** A tree, with names, whose priority settings are numbers that fit in a long. */
    ghost predicate Shaped()
      reads this
    {
      && Tree(View()) && children.Keys <= name.Keys && stored.Keys <= children.Keys
      && forall x :: x in stored ==> |stored[x]| <= WORD
    }

    /** No two siblings have the same name. */
    ghost predicate Named()
      reads `parent, `name
    {
      UniqueNames(parent, name)
    }

    ghost predicate Valid()
      reads this
    {
      Shaped() && Named() && AllSorted(View(), {})
    }

    constructor ()
      ensures Valid() && children == map[]
    {
      children, parent, stored, name, above := map[], map[], map[], map[], map[];
    }

    /** settings_init(): a block that is not registered and has no children. */
    method Create(x: nat)
      requires Valid() && x !in children
      modifies `children, `name, `above
      ensures Valid() && x in children && x !in parent && children == old(children)[x := []]
    {
      hide Tree, AllSorted;
      ghost var f := View();
      NotRegistered(f, x);
      RenameUnregistered(parent, name, x, "");
      children := children[x := []];
      name := name[x := ""];
      above := above[x := {x}];
      CreatedTree(f, x);
      CreatedSorted(f, x);
    }

    /** fetch_setting() of the priority: a block's own setting, or the first found in its children in order. */
    method Fetch(x: nat) returns (r: Option<seq<Byte>>)
      requires Tree(View()) && x in children
      ensures r == Find(View(), x)
      ensures r.None? <==> Bare(View(), x)
      ensures r.Some? ==> exists y :: IsFirst(View(), x, y) && r.value == stored[y]
      decreases children.Keys - above[x]
    {
      hide Tree, Bare, IsFirst;
      NoneFound(View(), x);
      if Find(View(), x).Some? {
        ghost var y := FoundIsFirst(View(), x);
        assert IsFirst(View(), x, y);
      }
      if x in stored {
        return Some(stored[x]);
      }
      var i := 0;
      while i < |children[x]|
        invariant i <= |children[x]|
        invariant FindFrom(View(), x, 0) == FindFrom(View(), x, i)
      {
        ChildBelow(View(), x, i);
        r := Fetch(children[x][i]);
        if r.Some? {
          return;
        }
        i := i + 1;
      }
      r := None;
    }

    lemma FoundFits(x: nat)
      requires Shaped() && x in children
      ensures Find(View(), x).Some? ==> |Find(View(), x).value| <= WORD
    {
      FoundStored(View(), x);
    }

    /** fetch_intz_setting() of the priority. */
    method Priority(x: nat) returns (p: int)
      requires Shaped() && x in children
      ensures p == Effective(View(), x)
    {
      hide Tree, Find;
      var r := Fetch(x);
      if r.None? {
        return 0;
      }
      FoundFits(x);
      NumericExact(r.value);
      var rc, value := NumericValue(true, r.value);
      p := AsLong(value);
    }

    /** The list with `x` put before the first block of lower priority. */
    method InsertByPriority(rest: seq<nat>, x: nat) returns (list: seq<nat>)
      requires Shaped() && x in children && Known(View(), rest)
      ensures list == Insertion(View(), rest, x)
    {
      hide Tree, Effective, Insertion;
      var priority := Priority(x);
      var k := 0;
      assert rest[0..] == rest;
      while k < |rest|
        invariant 0 <= k <= |rest|
        invariant Insertion(View(), rest, x) == rest[..k] + Insertion(View(), rest[k..], x)
      {
        InsertionNext(View(), rest, x, k);
        var other := Priority(rest[k]);
        if priority > other {
          return rest[..k] + [x] + rest[k..];
        }
        k := k + 1;
      }
      InsertionEnd(View(), rest, x);
      list := rest[..k] + [x] + rest[k..];
    }

    /**
     * reprioritise_settings(): moves a block, and then each of its ancestors, to its place among its siblings. All the
     * sibling lists are in order afterwards if only these blocks were out of place. An only child of a block at the top
     * stays where it is.
     */
    method Reprioritise(x: nat)
      requires Shaped() && Named() && x in children
      modifies `children
      ensures Shaped() && Named() && children.Keys == old(children.Keys)
      ensures old(AllSorted(View(), above[x])) ==> AllSorted(View(), {})
      ensures old(x !in parent || OnlyChild(View(), x)) ==> children == old(children)
      decreases above[x]
    {
      hide Tree, AllSorted, Effective, Reordered, Moved, OnlyChild;
      NodeFacts(View(), x);
      if x !in parent {
        AtTop(View(), x);
        return;
      }
      ghost var f := View();
      PlacedFacts(f, x);
      RestFacts(f, x);
      OneMoved(f, x);
      var p := parent[x];
      var list := InsertByPriority(Without(children[p], x), x);
      ReorderedIs(f, x);
      children := children[p := list];
      MovedIs(f, x);
      Reprioritise(p);
    }

    /** store_setting() of the priority; empty data clears it. */
    method StorePriority(x: nat, data: seq<Byte>)
      requires Valid() && x in children && |data| <= WORD
      modifies `stored, `children
      ensures Valid() && children.Keys == old(children.Keys)
      ensures stored == if data == [] then old(stored) - {x} else old(stored)[x := data]
    {
      hide Sorted, Placed, Lists, Effective;
      ghost var f := View();
      stored := if data == [] then stored - {x} else stored[x := data];
      StoredSorted(f, View(), x);
      Reprioritise(x);
    }

    /** unregister_settings(): removes a registered block and everything below it from the tree. */
    method Unregister(x: nat)
      requires Shaped() && x in children && x in parent
      modifies `children, `parent, `above
      ensures Shaped() && View() == Detached(old(View()), x)
      decreases children.Keys - above[x]
    {
      hide Tree, Stripped, Detached;
      ghost var f, k := View(), 0;
      StrippedNone(f, x);
      while children[x] != []
        invariant x in f.children && k <= |f.children[x]| && View() == Stripped(f, x, k)
        invariant Shaped() && x in children && children[x] == f.children[x][k..]
        decreases |children[x]|
      {
        var kid := children[x][0];
        assert kid == f.children[x][k];
        StrippedFacts(f, x, k);
        SiblingFacts(View(), x, kid);
        ChildBelow(View(), x, 0);
        Unregister(kid);
        StrippedNext(f, x, k);
        k := k + 1;
        StrippedFacts(f, x, k);
      }
      StrippedAll(f, x);
      var p := parent[x];
      children := children[p := Without(children[p], x)];
      parent := parent - {x};
      above := above[x := {x}];
      DetachedTree(f, x);
    }

    /** find_child_settings(): the empty name stands for the block itself. */
    method FindChild(p: nat, n: string) returns (r: Option<nat>)
      requires Shaped() && p in children
      ensures n == "" ==> r == Some(p)
      ensures n != "" && r.Some? ==> r.value in children[p] && r.value in name && name[r.value] == n
      ensures n != "" && r.None? ==> forall c :: c in children[p] ==> c in name && name[c] != n
    {
      hide Tree;
      if n == "" {
        return Some(p);
      }
      ListKnown(View(), p);
      for i := 0 to |children[p]|
        invariant forall k :: 0 <= k < i ==> children[p][k] in name && name[children[p][k]] != n
      {
        if name[children[p][i]] == n {
          return Some(children[p][i]);
        }
      }
      return None;
    }

    /** Removes any child of `p` that has the name, or `p` itself for the empty name. */
    method RemoveNamed(p: nat, n: string, ghost x: nat)
      requires Valid() && p in children && x in children && x !in above[p] && (n == "" ==> p in parent)
      requires x !in parent || Again(parent, name, x, p, n)
      modifies `children, `parent, `above
      ensures Shaped() && Named() && children.Keys == old(children.Keys) && p in above
      ensures x !in parent && x !in above[p]
      ensures NoneNamed(parent, name, p, n)
      ensures n != "" ==> AllSorted(View(), above[p])
      ensures RemovedBy(old(View()), name, p, n, View())
    {
      hide Tree, AllSorted, Detached, UniqueNames, NoneNamed;
      ghost var f := View();
      NodeFacts(f, p);
      var r := FindChild(p, n);
      if n == "" {
        PlacedFacts(f, p);
        DetachedTop(f, p, x, name);
        Unregister(p);
      } else if r.Some? {
        SiblingFacts(f, p, r.value);
        DetachedSorted(f, r.value);
        DetachedParents(f, r.value, p);
        DetachedNames(f, r.value, p, name, n);
        OnlyNamed(f, p, r.value, name, n);
        if x in parent {
          SameNamed(parent, name, x, r.value, p);
        }
        Unregister(r.value);
      } else {
        if x in parent {
          PlacedFacts(f, x);
        }
        LooselySorted(f, above[p]);
        NoOtherChild(f, p, name, n);
      }
    }

    method Link(x: nat, p: nat)
      requires Shaped() && x in children && x !in parent && p in children && p in above && x !in above[p]
      modifies `children, `parent, `above
      ensures Shaped() && View() == Linked(old(View()), x, p)
    {
      hide Tree;
      LinkedTree(View(), x, p);
      children := children[p := children[p] + [x]];
      parent := parent[x := p];
      above := map m | m in above :: if x in above[m] then above[m] + above[p] else above[m];
    }

    /**
     * register_settings(): adds a block under a parent, in place of any child of the same name, which may be the block
     * itself. With the empty name it is the parent that is removed from its own, whose ancestors then stay where they
     * are.
     */
    method Register(x: nat, p: nat, n: string)
      requires Valid() && x in children && p in children && x !in above[p] && (n == "" ==> p in parent)
      requires x !in parent || Again(parent, name, x, p, n)
      modifies `children, `parent, `name, `above
      ensures Shaped() && Named() && children.Keys == old(children.Keys)
      ensures AllSorted(View(), if n == "" then Ancestors(old(View()), p) else {})
      ensures n == "" ==> Tree(Detached(old(View()), p))
      ensures n == "" ==> (AllSorted(View(), {}) <==> AllSorted(Detached(old(View()), p), {}))
      ensures name == old(name)[x := n] && x in parent && parent[x] == p
      ensures exists g :: RemovedBy(old(View()), name, p, n, g) && parent == g.parent[x := p]
    {
      hide Tree, AllSorted, UniqueNames, NoneNamed, RemovedBy, Ancestors;
      if x !in parent {
        RenameUnregistered(parent, name, x, n);
      } else {
        assert name[x := n] == name;
      }
      name := name[x := n];
      ghost var f := View();
      RemoveNamed(p, n, x);
      ghost var g := View();
      if n == "" {
        RemovedTop(f, name, p, x, g);
      } else {
        LinkedSorted(g, x, p);
      }
      AddNamed(parent, name, x, p, n);
      LinkedFacts(g, x, p);
      Link(x, p);
      assert parent == g.parent[x := p];
      Reprioritise(x);
    }
  }

  /** Passing over one block of the list, or stopping before it. */
  lemma InsertionNext(f: Forest, rest: seq<nat>, x: nat, k: nat)
    requires Tree(f) && Known(f, rest) && x in f.children && k < |rest|
    requires Insertion(f, rest, x) == rest[..k] + Insertion(f, rest[k..], x)
    ensures Effective(f, x) > Effective(f, rest[k]) ==> Insertion(f, rest, x) == rest[..k] + [x] + rest[k..]
    ensures Effective(f, x) <= Effective(f, rest[k]) ==>
      Insertion(f, rest, x) == rest[..k + 1] + Insertion(f, rest[k + 1..], x)
  {
    hide Tree, Effective;
    assert rest[k..][1..] == rest[k + 1..] && rest[k..][0] == rest[k];
    if Effective(f, x) > Effective(f, rest[k]) {
      Associative(rest[..k], [x], rest[k..]);
    } else {
      Associative(rest[..k], [rest[k]], Insertion(f, rest[k + 1..], x));
      assert rest[..k + 1] == rest[..k] + [rest[k]];
    }
  }

  lemma InsertionEnd(f: Forest, rest: seq<nat>, x: nat)
    requires Tree(f) && Known(f, rest) && x in f.children
    requires Insertion(f, rest, x) == rest[..|rest|] + Insertion(f, rest[|rest|..], x)
    ensures Insertion(f, rest, x) == rest[..|rest|] + [x] + rest[|rest|..]
  {
    hide Tree, Effective;
  }

  /** The block is already registered under this parent and name. */
  predicate Again(parent: map<nat, nat>, name: map<nat, string>, x: nat, p: nat, n: string) {
    x in parent && parent[x] == p && x in name && name[x] == n && n != ""
  }

  lemma SameNamed(parent: map<nat, nat>, name: map<nat, string>, x: nat, c: nat, p: nat)
    requires UniqueNames(parent, name) && x in parent && c in parent && parent[x] == parent[c] == p
    requires x in name && c in name && name[x] == name[c]
    ensures x == c
  {}

  /** The block at the top has only this child. */
  ghost predicate OnlyChild(f: Forest, x: nat) {
    x in f.parent && f.parent[x] in f.children && f.children[f.parent[x]] == [x] && f.parent[x] !in f.parent
  }

  lemma AtTop(f: Forest, x: nat)
    requires Tree(f) && x in f.children && x !in f.parent && x in f.above
    ensures AllSorted(f, f.above[x]) ==> AllSorted(f, {})
  {
    hide Tree, AllSorted;
    if AllSorted(f, f.above[x]) {
      TopSorted(f, x);
    }
  }

  lemma MovedIs(f: Forest, x: nat)
    requires Tree(f) && x in f.children && x in f.parent && f.parent[x] in f.children
    ensures Moved(f, x) == f.(children := f.children[f.parent[x] := Reordered(f, x)])
  {
    hide Tree, Reordered;
  }

  /** What moving one block does. */
  lemma OneMoved(f: Forest, x: nat)
    requires Tree(f) && x in f.children && x in f.parent && x in f.above && f.parent[x] in f.above
    ensures Tree(Moved(f, x)) && Moved(f, x).children.Keys == f.children.Keys
    ensures AllSorted(f, f.above[x]) ==> AllSorted(Moved(f, x), f.above[f.parent[x]])
    ensures OnlyChild(f, x) ==> Moved(f, x) == f && f.parent[x] !in f.parent
  {
    hide Tree, AllSorted, Reordered;
    MovedTree(f, x);
    if AllSorted(f, f.above[x]) {
      MovedSorted(f, x);
    }
    if OnlyChild(f, x) {
      OnlyReordered(f, x);
    }
  }

  lemma OnlyReordered(f: Forest, x: nat)
    requires Tree(f) && x in f.children && OnlyChild(f, x)
    ensures Reordered(f, x) == [x]
  {
    hide Tree;
    PlacedFacts(f, x);
    RestFacts(f, x);
    assert Without([x], x) == [];
    ReorderedIs(f, x);
  }

  /** The blocks above one that is registered. */
  ghost function Ancestors(f: Forest, p: nat): set<nat> {
    if p in f.parent && f.parent[p] in f.above then f.above[f.parent[p]] else {}
  }

  /** What is left when registering under `p` has removed what has the name. */
  ghost predicate RemovedBy(f: Forest, name: map<nat, string>, p: nat, n: string, g: Forest)
    requires Tree(f)
  {
    if n == "" then g == Detached(f, p)
    else if NoneNamed(f.parent, name, p, n) then g == f
    else forall c :: c in f.parent && f.parent[c] == p && c in name && name[c] == n ==> g == Detached(f, c)
  }

  lemma OnlyNamed(f: Forest, p: nat, c: nat, name: map<nat, string>, n: string)
    requires Tree(f) && UniqueNames(f.parent, name) && c in f.parent && f.parent[c] == p && c in name &&
      name[c] == n && n != ""
    ensures RemovedBy(f, name, p, n, Detached(f, c))
  {
    hide Tree, Detached;
  }

  /** A block that is removed itself has no children and no ancestors. */
  lemma DetachedTop(f: Forest, p: nat, x: nat, name: map<nat, string>)
    requires Tree(f) && p in f.children && p in f.parent && x in f.children && x !in f.parent && x !in f.above[p]
    requires UniqueNames(f.parent, name)
    ensures var g := Detached(f, p);
            && UniqueNames(g.parent, name) && NoneNamed(g.parent, name, p, "") && g.children.Keys == f.children.Keys
            && p in g.above && x !in g.above[p] && x !in g.parent
  {
    DetachDomain(f, p);
    SelfAbove(f, p);
    NodeFacts(f, p);
    forall c | c in f.parent && f.parent[c] == p
      ensures c in f.children && p in f.above[c]
    {
      PlacedFacts(f, c);
      NodeFacts(f, c);
    }
  }

  /** Adding a block to one that has just been removed puts nothing else out of place. */
  lemma RemovedTop(f: Forest, name: map<nat, string>, p: nat, x: nat, g: Forest)
    requires Tree(f) && AllSorted(f, {}) && p in f.children && p in f.parent && x in f.children && x !in f.parent &&
      x !in f.above[p]
    requires RemovedBy(f, name, p, "", g) && Tree(g) && p in g.children && x in g.children && x !in g.parent &&
      x !in g.above[p]
    ensures Tree(Linked(g, x, p)) && AllSorted(Linked(g, x, p), Ancestors(f, p)) && OnlyChild(Linked(g, x, p), x)
    ensures g == Detached(f, p) && (AllSorted(Linked(g, x, p), {}) <==> AllSorted(g, {}))
  {
    hide Tree, Sorted, SortedAt;
    var h, exempt := Linked(g, x, p), Ancestors(f, p);
    DetachedSorted(f, p);
    DetachedParents(f, p, f.parent[p]);
    LinkedTree(g, x, p);
    SelfAbove(f, p);
    TopAbove(g, p);
    forall n | n in h.children
      ensures SortedAt(h, n, exempt) && (SortedAt(h, n, {}) <==> SortedAt(g, n, {}))
    {
      StillSorted(g, x, p, n, exempt);
      StillSorted(g, x, p, n, {});
    }
  }

  lemma StillSorted(g: Forest, x: nat, p: nat, n: nat, exempt: set<nat>)
    requires Tree(g) && x in g.children && x !in g.parent && p in g.children && x !in g.above[p] && p !in g.parent
    requires g.children[p] == [] && n in g.children && Tree(Linked(g, x, p))
    ensures n in Linked(g, x, p).children
    ensures SortedAt(Linked(g, x, p), n, exempt) <==> SortedAt(g, n, exempt)
  {
    hide Tree, Sorted, Effective;
    var h := Linked(g, x, p);
    LinkedTree(g, x, p);
    LinkedFacts(g, x, p);
    ListKnown(h, n);
    ListKnown(g, n);
    if n == p {
      assert h.children[n] == [x];
      OneSorted(h, x, exempt);
      SortedNothing(g, exempt);
    } else {
      TopAbove(g, p);
      forall c | c in g.children[n]
        ensures Effective(g, c) == Effective(h, c)
      {
        TopNotListed(g, p, n);
        EffectiveFrame(g, h, c, p);
      }
      if SortedAt(g, n, exempt) {
        SortedFrame(g, h, g.children[n], exempt);
      }
      if SortedAt(h, n, exempt) {
        SortedFrame(h, g, g.children[n], exempt);
      }
    }
  }

  lemma OneSorted(f: Forest, x: nat, exempt: set<nat>)
    requires Tree(f) && x in f.children
    ensures Known(f, [x]) && Sorted(f, [x], exempt)
  {
    hide Tree, Effective;
  }

  ghost predicate UniqueNames(parent: map<nat, nat>, name: map<nat, string>) {
    forall c, d :: c in parent && d in parent && parent[c] == parent[d] && c in name && d in name && name[c] == name[d]
      ==> c == d
  }

  ghost predicate NoneNamed(parent: map<nat, nat>, name: map<nat, string>, p: nat, n: string) {
    forall c :: c in parent && parent[c] == p ==> c in name && name[c] != n
  }

  lemma RenameUnregistered(parent: map<nat, nat>, name: map<nat, string>, x: nat, n: string)
    requires UniqueNames(parent, name) && x !in parent
    ensures UniqueNames(parent, name[x := n])
  {}

  lemma AddNamed(parent: map<nat, nat>, name: map<nat, string>, x: nat, p: nat, n: string)
    requires UniqueNames(parent, name) && NoneNamed(parent, name, p, n) && x !in parent && x in name && name[x] == n
    ensures UniqueNames(parent[x := p], name)
  {}

  lemma LinkedFacts(f: Forest, x: nat, p: nat)
    requires Tree(f) && x in f.children && p in f.children
    ensures Linked(f, x, p).children.Keys == f.children.Keys && Linked(f, x, p).parent == f.parent[x := p]
  {
    hide Tree;
  }

  lemma DetachedNames(f: Forest, x: nat, p: nat, name: map<nat, string>, n: string)
    requires Tree(f) && x in f.children && x in f.parent && f.parent[x] == p && f.children.Keys <= name.Keys
    requires UniqueNames(f.parent, name) && name[x] == n
    ensures UniqueNames(Detached(f, x).parent, name) && NoneNamed(Detached(f, x).parent, name, p, n)
  {
    DetachedParents(f, x, p);
  }

  lemma LooselySorted(f: Forest, exempt: set<nat>)
    requires Tree(f) && AllSorted(f, {})
    ensures AllSorted(f, exempt)
  {
    hide Tree, Sorted;
    forall n | n in f.children
      ensures SortedAt(f, n, exempt)
    {
      ListKnown(f, n);
      assert SortedAt(f, n, {});
      SortedExempt(f, f.children[n], {}, exempt);
    }
  }

  lemma NoOtherChild(f: Forest, p: nat, name: map<nat, string>, n: string)
    requires Tree(f) && p in f.children && forall c :: c in f.children[p] ==> c in name && name[c] != n
    ensures NoneNamed(f.parent, name, p, n)
  {
    forall c | c in f.parent && f.parent[c] == p
      ensures c in f.children[p]
    {
      PlacedFacts(f, c);
    }
  }

  /** What remains of the children of `p` when its child `x` is removed. */
  lemma DetachedParents(f: Forest, x: nat, p: nat)
    requires Tree(f) && x in f.children && x in f.parent && f.parent[x] == p
    ensures var g := Detached(f, x);
            && (forall c :: c in g.parent ==> c in f.parent && c != x && g.parent[c] == f.parent[c])
            && p in f.above && p in g.above && g.above[p] == f.above[p] && g.children.Keys == f.children.Keys
  {
    DetachDomain(f, x);
    PlacedFacts(f, x);
    SelfAbove(f, x);
  }

  lemma ReorderedIs(f: Forest, x: nat)
    requires Tree(f) && x in f.children && x in f.parent && f.parent[x] in f.children
    requires Known(f, Without(f.children[f.parent[x]], x))
    ensures Reordered(f, x) == Insertion(f, Without(f.children[f.parent[x]], x), x)
  {
    hide Tree, Insertion;
  }

  lemma {:induction false} FoundStored(f: Forest, x: nat)
    requires Tree(f) && x in f.children
    ensures Find(f, x).Some? ==> exists y :: y in f.stored && f.stored[y] == Find(f, x).value
    decreases f.children.Keys - f.above[x], 1, 0
  {
    hide Tree;
    if x !in f.stored {
      FoundStoredFrom(f, x, 0);
    }
  }

  lemma {:induction false} FoundStoredFrom(f: Forest, x: nat, i: nat)
    requires Tree(f) && x in f.children && i <= |f.children[x]|
    ensures FindFrom(f, x, i).Some? ==> exists y :: y in f.stored && f.stored[y] == FindFrom(f, x, i).value
    decreases f.children.Keys - f.above[x], 0, |f.children[x]| - i
  {
    hide Tree;
    if i < |f.children[x]| {
      ChildBelow(f, x, i);
      FoundStored(f, f.children[x][i]);
      FoundStoredFrom(f, x, i + 1);
    }
  }

  ghost function Created(f: Forest, x: nat): Forest {
    f.(children := f.children[x := []], above := f.above[x := {x}])
  }

  lemma NotRegistered(f: Forest, x: nat)
    requires Tree(f) && x !in f.children
    ensures x !in f.parent && forall n :: n in f.children ==> x !in f.children[n]
  {
    forall n | n in f.children
      ensures x !in f.children[n]
    {
      assert Lists(f, n);
    }
  }

  lemma CreatedNode(f: Forest, x: nat, n: nat)
    requires Tree(f) && x !in f.children && n in f.children
    ensures Placed(Created(f, x), n) && Lists(Created(f, x), n)
  {
    hide Tree, NoDuplicates;
    NodeFacts(f, n);
    NotRegistered(f, x);
  }

  lemma CreatedTree(f: Forest, x: nat)
    requires Tree(f) && x !in f.children
    ensures Tree(Created(f, x))
  {
    hide Placed, Lists;
    var g := Created(f, x);
    NotRegistered(f, x);
    CreatedAlone(f, x);
    forall n | n in f.children
      ensures Placed(g, n) && Lists(g, n)
    {
      CreatedNode(f, x, n);
    }
  }

  lemma CreatedAlone(f: Forest, x: nat)
    requires x !in f.parent
    ensures Placed(Created(f, x), x) && Lists(Created(f, x), x)
  {}

  lemma {:induction false} CreatedFind(f: Forest, x: nat, n: nat)
    requires Tree(f) && x !in f.children && Tree(Created(f, x)) && n in f.children
    ensures Find(f, n) == Find(Created(f, x), n)
    decreases f.children.Keys - f.above[n], 1, 0
  {
    hide Tree;
    if n !in f.stored {
      CreatedFindFrom(f, x, n, 0);
    }
  }

  lemma {:induction false} CreatedFindFrom(f: Forest, x: nat, n: nat, i: nat)
    requires Tree(f) && x !in f.children && Tree(Created(f, x)) && n in f.children && i <= |f.children[n]|
    ensures FindFrom(f, n, i) == FindFrom(Created(f, x), n, i)
    decreases f.children.Keys - f.above[n], 0, |f.children[n]| - i
  {
    hide Tree;
    if i < |f.children[n]| {
      ChildBelow(f, n, i);
      CreatedFind(f, x, f.children[n][i]);
      CreatedFindFrom(f, x, n, i + 1);
    }
  }

  lemma CreatedSorted(f: Forest, x: nat)
    requires Tree(f) && x !in f.children && Tree(Created(f, x)) && AllSorted(f, {})
    ensures AllSorted(Created(f, x), {})
  {
    hide Tree, Sorted;
    var g := Created(f, x);
    forall n | n in g.children
      ensures SortedAt(g, n, {})
    {
      ListKnown(g, n);
      if n == x {
        SortedNothing(g, {});
      } else {
        ListKnown(f, n);
        assert SortedAt(f, n, {});
        forall c | c in f.children[n]
          ensures Effective(f, c) == Effective(g, c)
        {
          CreatedFind(f, x, c);
        }
        SortedFrame(f, g, f.children[n], {});
      }
    }
  }
}
