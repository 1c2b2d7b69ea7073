/** Which block's setting fetch_setting() finds (src/core/settings.c), told from the shape of the tree. */
module SettingsSearch {
  import opened Wrappers
  import opened SettingsSpec
  import opened SettingsLinks

  /** Block `y` is `x` or below it. */
  ghost predicate Below(f: Forest, x: nat, y: nat) {
    y in f.children && y in f.above && x in f.above[y]
  }

  /** Nothing at or below the block stores a setting. */
  ghost predicate Bare(f: Forest, x: nat) {
    forall y :: Below(f, x, y) ==> y !in f.stored
  }

  /** Block `z` lies on the path from `x` down to `y`. */
  ghost predicate OnPath(f: Forest, x: nat, z: nat, y: nat) {
    Below(f, x, z) && Below(f, z, y)
  }

  /** Block `c` comes before its sibling `z`. */
  ghost predicate Before(f: Forest, c: nat, z: nat) {
    z in f.parent && f.parent[z] in f.children
    && var list := f.children[f.parent[z]];
       exists i, j :: 0 <= i < j < |list| && list[i] == c && list[j] == z
  }

  /**
   * Block `y` stores a setting, no block above it up to `x` does, and none at or below an earlier sibling of a block on
   * the path to it.
   */
  ghost predicate IsFirst(f: Forest, x: nat, y: nat) {
    && Below(f, x, y) && y in f.stored
    && (forall z :: OnPath(f, x, z, y) && z != y ==> z !in f.stored)
    && (forall z, c :: OnPath(f, x, z, y) && z != x && Before(f, c, z) ==> Bare(f, c))
  }

  lemma AboveAntisymmetric(f: Forest, x: nat, z: nat)
    requires Tree(f) && Below(f, x, z) && Below(f, z, x)
    ensures x == z
  {
    hide Tree;
    if x != z {
      AboveTransitive(f, x, z);
      if x in f.parent {
        PlacedFacts(f, x);
        AboveTransitive(f, z, f.parent[x]);
      } else {
        TopAbove(f, x);
      }
    }
  }

  /** A path down from `x` goes through one child. */
  lemma PathSplits(f: Forest, x: nat, i: nat, z: nat, y: nat)
    requires Tree(f) && x in f.children && i < |f.children[x]| && OnPath(f, x, z, y) && Below(f, f.children[x][i], y)
    ensures z == x || OnPath(f, f.children[x][i], z, y)
  {
    hide Tree;
    var c := f.children[x][i];
    SiblingFacts(f, x, c);
    PlacedFacts(f, c);
    AboveComparable(f, c, z, y);
    if c !in f.above[z] && z != x {
      SelfAbove(f, c);
      NodeFacts(f, z);
      AboveAntisymmetric(f, x, z);
    }
  }

  lemma ChildIsBelow(f: Forest, x: nat, i: nat)
    requires Tree(f) && x in f.children && i < |f.children[x]|
    ensures Below(f, x, f.children[x][i]) && Below(f, f.children[x][i], f.children[x][i]) && f.children[x][i] != x
  {
    hide Tree;
    var c := f.children[x][i];
    SiblingFacts(f, x, c);
    PlacedFacts(f, c);
    SelfAbove(f, c);
    SelfAbove(f, x);
    NodeFacts(f, c);
  }

  lemma BelowTransitive(f: Forest, x: nat, c: nat, y: nat)
    requires Tree(f) && Below(f, x, c) && Below(f, c, y)
    ensures Below(f, x, y)
  {
    hide Tree;
    AboveTransitive(f, c, y);
  }

  // ----- Nothing is found exactly if nothing is stored

  lemma {:induction false} NoneFound(f: Forest, x: nat)
    requires Tree(f) && x in f.children
    ensures Find(f, x).None? <==> Bare(f, x)
    decreases f.children.Keys - f.above[x], 1, 0
  {
    hide Tree;
    SelfAbove(f, x);
    NodeFacts(f, x);
    assert Below(f, x, x);
    if x !in f.stored {
      NoneFoundFrom(f, x, 0);
      if FindFrom(f, x, 0).None? {
        forall y | Below(f, x, y)
          ensures y !in f.stored
        {
          if y != x {
            var j := KidAbove(f, x, y);
            assert Bare(f, f.children[x][j]) && Below(f, f.children[x][j], y);
          }
        }
      } else {
        var j :| 0 <= j < |f.children[x]| && !Bare(f, f.children[x][j]);
        ChildIsBelow(f, x, j);
        var y :| Below(f, f.children[x][j], y) && y in f.stored;
        BelowTransitive(f, x, f.children[x][j], y);
      }
    }
  }

  lemma {:induction false} NoneFoundFrom(f: Forest, x: nat, i: nat)
    requires Tree(f) && x in f.children && i <= |f.children[x]|
    ensures FindFrom(f, x, i).None? <==> forall j :: i <= j < |f.children[x]| ==> Bare(f, f.children[x][j])
    decreases f.children.Keys - f.above[x], 0, |f.children[x]| - i
  {
    hide Tree, Bare;
    if i < |f.children[x]| {
      ChildBelow(f, x, i);
      NoneFound(f, f.children[x][i]);
      NoneFoundFrom(f, x, i + 1);
    }
  }

  // ----- What is found is the first

  lemma {:induction false} FoundIsFirst(f: Forest, x: nat) returns (y: nat)
    requires Tree(f) && x in f.children && Find(f, x).Some?
    ensures IsFirst(f, x, y) && Find(f, x) == Some(f.stored[y])
    decreases f.children.Keys - f.above[x], 1, 0
  {
    hide Tree;
    SelfAbove(f, x);
    NodeFacts(f, x);
    if x in f.stored {
      y := x;
      forall z | OnPath(f, x, z, x)
        ensures z == x
      {
        AboveAntisymmetric(f, x, z);
      }
    } else {
      var i;
      i, y := FoundFrom(f, x, 0);
      FirstBelow(f, x, i, y);
    }
  }

  lemma {:induction false} FoundFrom(f: Forest, x: nat, i: nat) returns (k: nat, y: nat)
    requires Tree(f) && x in f.children && i <= |f.children[x]| && FindFrom(f, x, i).Some?
    ensures i <= k < |f.children[x]| && IsFirst(f, f.children[x][k], y) && FindFrom(f, x, i) == Some(f.stored[y])
    ensures forall j :: i <= j < k ==> Bare(f, f.children[x][j])
    decreases f.children.Keys - f.above[x], 0, |f.children[x]| - i
  {
    hide Tree, Bare, IsFirst;
    ChildBelow(f, x, i);
    NoneFound(f, f.children[x][i]);
    if Find(f, f.children[x][i]).Some? {
      k := i;
      y := FoundIsFirst(f, f.children[x][i]);
      assert IsFirst(f, f.children[x][i], y);
      FirstStored(f, f.children[x][i], y);
    } else {
      k, y := FoundFrom(f, x, i + 1);
    }
  }

  lemma FirstStored(f: Forest, x: nat, y: nat)
    requires IsFirst(f, x, y)
    ensures y in f.stored
  {}

  /** The first below a child, if nothing is stored in the block or below its earlier children, is the first. */
  lemma FirstBelow(f: Forest, x: nat, i: nat, y: nat)
    requires Tree(f) && x in f.children && x !in f.stored && i < |f.children[x]| && IsFirst(f, f.children[x][i], y)
    requires forall j :: 0 <= j < i ==> Bare(f, f.children[x][j])
    ensures IsFirst(f, x, y)
  {
    hide Tree, Bare;
    var k := f.children[x][i];
    ChildIsBelow(f, x, i);
    BelowTransitive(f, x, k, y);
    forall z | OnPath(f, x, z, y)
      ensures z == x || OnPath(f, k, z, y)
    {
      PathSplits(f, x, i, z, y);
    }
    forall z, c | OnPath(f, x, z, y) && z != x && Before(f, c, z)
      ensures Bare(f, c)
    {
      if z == k {
        SiblingFacts(f, x, k);
        BeforeIs(f, x, i, c);
      }
    }
  }

  lemma BeforeIs(f: Forest, x: nat, i: nat, c: nat)
    requires Tree(f) && x in f.children && i < |f.children[x]| && Before(f, c, f.children[x][i])
    ensures exists j :: 0 <= j < i && f.children[x][j] == c
  {
    hide Tree;
    var list := f.children[x];
    SiblingFacts(f, x, list[i]);
    ListNoDuplicates(f, x);
    var a, b :| 0 <= a < b < |list| && list[a] == c && list[b] == list[i];
    if b < i {
      EarlierDiffers(list, i);
    } else if i < b {
      EarlierDiffers(list, b);
    }
  }

  /** The first below a block is the first below the child that it is in. */
  lemma FirstOfChild(f: Forest, x: nat, i: nat, y: nat)
    requires Tree(f) && x in f.children && i < |f.children[x]| && IsFirst(f, x, y) && Below(f, f.children[x][i], y)
    ensures IsFirst(f, f.children[x][i], y) && forall j :: 0 <= j < i ==> Bare(f, f.children[x][j])
  {
    hide Tree, Bare;
    var list := f.children[x];
    var k := list[i];
    ChildIsBelow(f, x, i);
    forall z | OnPath(f, k, z, y)
      ensures OnPath(f, x, z, y) && z != x
    {
      BelowTransitive(f, x, k, z);
      if z == x {
        AboveAntisymmetric(f, k, x);
      }
    }
    SiblingFacts(f, x, k);
    forall j | 0 <= j < i
      ensures Bare(f, list[j])
    {
      assert OnPath(f, x, k, y) && Before(f, list[j], k);
    }
  }

  /** There is only one such block. */
  lemma {:induction false} FirstUnique(f: Forest, x: nat, y: nat, y': nat)
    requires Tree(f) && x in f.children && IsFirst(f, x, y) && IsFirst(f, x, y')
    ensures y == y'
    decreases f.children.Keys - f.above[x]
  {
    hide Tree, IsFirst, Bare;
    SelfAbove(f, x);
    NodeFacts(f, x);
    FirstFacts(f, x, y);
    FirstFacts(f, x, y');
    if y != x && y' != x {
      var j := KidAbove(f, x, y);
      var j' := KidAbove(f, x, y');
      FirstOfChild(f, x, j, y);
      FirstOfChild(f, x, j', y');
      NotBare(f, f.children[x][j], y);
      NotBare(f, f.children[x][j'], y');
      ChildBelow(f, x, j);
      FirstUnique(f, f.children[x][j], y, y');
    }
  }

  lemma NotBare(f: Forest, x: nat, y: nat)
    requires Below(f, x, y) && y in f.stored
    ensures !Bare(f, x)
  {}

  lemma FirstFacts(f: Forest, x: nat, y: nat)
    requires Tree(f) && Below(f, x, x) && IsFirst(f, x, y)
    ensures Below(f, x, y) && y in f.stored && (y != x ==> x !in f.stored)
  {
    assert OnPath(f, x, x, y);
  }
}
