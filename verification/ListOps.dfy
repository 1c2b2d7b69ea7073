/** Lists as sequences: adding and removing entries. */
module ListOps {

  ghost predicate NoDuplicates(list: seq<nat>) {
    list == [] || (list[0] !in list[1..] && NoDuplicates(list[1..]))
  }

  /** list_del() of an entry. */
  function Without(list: seq<nat>, x: nat): seq<nat> {
    if list == [] then [] else if list[0] == x then list[1..] else [list[0]] + Without(list[1..], x)
  }

  lemma {:induction false} WithoutElements(list: seq<nat>, x: nat)
    requires NoDuplicates(list)
    ensures forall c :: c in Without(list, x) <==> c in list && c != x
    ensures NoDuplicates(Without(list, x))
    ensures x !in list ==> Without(list, x) == list
  {
    if list != [] {
      WithoutElements(list[1..], x);
      if list[0] != x {
        assert Without(list, x)[1..] == Without(list[1..], x);
      }
    }
  }

  /** It takes out the first occurrence and nothing else. */
  lemma {:induction false} WithoutIs(list: seq<nat>, x: nat) returns (k: nat)
    requires x in list
    ensures k < |list| && list[k] == x && x !in list[..k] && Without(list, x) == list[..k] + list[k + 1..]
  {
    if list[0] == x {
      k := 0;
    } else {
      var n := WithoutIs(list[1..], x);
      k := n + 1;
      DropLater(list, n);
    }
  }

  lemma DropLater(list: seq<nat>, n: nat)
    requires n + 1 < |list|
    ensures [list[0]] + (list[1..][..n] + list[1..][n + 1..]) == list[..n + 1] + list[n + 2..]
    ensures forall x :: x in list[..n + 1] <==> x == list[0] || x in list[1..][..n]
  {
    assert list[..n + 1] == [list[0]] + list[1..][..n];
    assert list[1..][n + 1..] == list[n + 2..];
  }

  lemma {:induction false} WithoutMultiset(list: seq<nat>, x: nat)
    requires x in list
    ensures multiset(list) == multiset(Without(list, x)) + multiset{x} && |Without(list, x)| == |list| - 1
  {
    assert list == [list[0]] + list[1..];
    if list[0] != x {
      WithoutMultiset(list[1..], x);
      assert multiset([list[0]] + Without(list[1..], x)) == multiset{list[0]} + multiset(Without(list[1..], x));
    }
  }

  lemma {:induction false} AppendNoDuplicates(list: seq<nat>, x: nat)
    requires NoDuplicates(list) && x !in list
    ensures NoDuplicates(list + [x])
  {
    if list != [] {
      AppendNoDuplicates(list[1..], x);
      assert (list + [x])[1..] == list[1..] + [x];
    }
  }

  lemma PartOfPart<T>(s: seq<T>, pos: nat, len: nat, at: nat, n: nat)
    requires pos + len <= |s| && at + n <= len
    ensures s[pos..pos + len][at..at + n] == s[pos + at..pos + at + n]
  {
    var a, b := s[pos..pos + len][at..at + n], s[pos + at..pos + at + n];
    forall k | 0 <= k < n
      ensures a[k] == b[k]
    {}
  }

  lemma Associative<T>(a: seq<T>, b: seq<T>, c: seq<T>)
    ensures a + (b + c) == a + b + c
  {}
}
