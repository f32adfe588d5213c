/** The ranked lookup by navigation charges each child of a node with `k`
    children `k!` leaves, where its subtree holds `(k - 1)!`. This module
    shows the two ranked lookups disagreeing on `ABC`, and proves that the
    navigation with the subtree size evidently intended agrees with the
    enumeration on every rank. */
module Findings {
  import opened Permutations
  import opened PermTree
  import opened SmallCases

  // ---------------------------------------------------------------------
  // The navigation as written

  lemma NavigateOne(v: char, a: char)
    ensures Navigate(Build(v, [a]), 0) == (true, [a])
    ensures Navigate(Build(v, [a]), 1) == (true, [])
  {
    ChildrenOfOne(a);
    var cs := [Build(a, [])];
    assert Fact(1) == 1;
    assert Navigate(Build(a, []), 0) == (true, []);
    assert cs[0].value == a && [a] + [] == [a];
    assert NavigateFrom(cs, 1, 0, 1) == (true, []);
    assert Navigate(Build(v, [a]), 0) == NavigateFrom(cs, 0, 0, 1);
    assert Navigate(Build(v, [a]), 1) == NavigateFrom(cs, 0, 1, 1);
  }

  /** Below a node with two children each child is charged 2 leaves: offset
      1 stops inside the first child with nothing left to descend for, offset
      2 reaches the second child, and offset 5 runs past both. */
  lemma NavigateTwo(v: char, a: char, b: char)
    requires a != b
    ensures Navigate(Build(v, [a, b]), 1) == (true, [a])
    ensures Navigate(Build(v, [a, b]), 2) == (true, [b, a])
    ensures Navigate(Build(v, [a, b]), 5) == (false, [])
  {
    ChildrenOfTwo(a, b);
    var cs := [Build(a, [b]), Build(b, [a])];
    assert Fact(2) == 2;
    NavigateOne(a, b);
    NavigateOne(b, a);
    assert Navigate(Build(v, [a, b]), 1) == NavigateFrom(cs, 0, 1, 2);
    assert cs[1].value == b && [b] + [a] == [b, a];
    assert NavigateFrom(cs, 1, 0, 2) == (true, [b, a]);
    assert Navigate(Build(v, [a, b]), 2) == NavigateFrom(cs, 0, 2, 2);
    assert NavigateFrom(cs, 2, 1, 2) == (false, []);
    assert NavigateFrom(cs, 1, 3, 2) == NavigateFrom(cs, 2, 1, 2);
    assert Navigate(Build(v, [a, b]), 5) == NavigateFrom(cs, 0, 5, 2);
  }

  /** Below a root with three children every offset under 3! = 6 enters the
      first child. */
  lemma NavigateThree(a: char, b: char, c: char, r: int)
    requires a != b && b != c && a != c && 0 <= r < 6
    ensures Navigate(Root([a, b, c]), r).0 == Navigate(Build(a, [b, c]), r).0
    ensures Navigate(Root([a, b, c]), r).1 == [a] + Navigate(Build(a, [b, c]), r).1
  {
    WithoutOfThree(a, b, c);
    var cs := Children([a, b, c]);
    assert |cs| == 3 && cs[0] == Build(a, [b, c]);
    assert Fact(3) == 6;
    assert Navigate(Root([a, b, c]), r) == NavigateFrom(cs, 0, r, 6);
  }

  lemma NavigationRankTwo(a: char, b: char, c: char)
    requires a != b && b != c && a != c
    ensures RankByNavigation([a, b, c], 2) == [a, b]
  {
    assert Fact(3) == 6;
    NavigateTwo(a, b, c);
    NavigateThree(a, b, c, 1);
    assert [a] + [b] == [a, b];
  }

  lemma NavigationRankThree(a: char, b: char, c: char)
    requires a != b && b != c && a != c
    ensures RankByNavigation([a, b, c], 3) == [a, c, b]
  {
    assert Fact(3) == 6;
    NavigateTwo(a, b, c);
    NavigateThree(a, b, c, 2);
    assert [a] + [c, b] == [a, c, b];
  }

  lemma NavigationRankSix(a: char, b: char, c: char)
    requires a != b && b != c && a != c
    ensures RankByNavigation([a, b, c], 6) == []
  {
    assert Fact(3) == 6;
    NavigateTwo(a, b, c);
    NavigateThree(a, b, c, 5);
  }

  lemma NavigationOfABC()
    ensures RankByNavigation("ABC", 2) == "AB"
    ensures RankByNavigation("ABC", 3) == "ACB"
    ensures RankByNavigation("ABC", 6) == []
  {
    assert "ABC" == ['A', 'B', 'C'] && "AB" == ['A', 'B'] && "ACB" == ['A', 'C', 'B'];
    NavigationRankTwo('A', 'B', 'C');
    NavigationRankThree('A', 'B', 'C');
    NavigationRankSix('A', 'B', 'C');
  }

  /** For `ABC` the navigation returns the partial path AB for rank 2, where
      the enumeration gives ACB; it reaches ACB at rank 3 instead; and it
      finds nothing for rank 6, where the enumeration gives CBA. */
  lemma NavigationDisagreesOnABC()
    ensures RankByNavigation("ABC", 2) == "AB"
    ensures RankByNavigation("ABC", 3) == "ACB"
    ensures RankByNavigation("ABC", 6) == []
    ensures RankByEnumeration("ABC", 2) == "ACB" != RankByNavigation("ABC", 2)
    ensures RankByEnumeration("ABC", 3) == "BAC" != RankByNavigation("ABC", 3)
    ensures RankByEnumeration("ABC", 6) == "CBA" != RankByNavigation("ABC", 6)
  {
    RanksOfABC();
    NavigationOfABC();
  }

  // ---------------------------------------------------------------------
  // The navigation with the subtree size evidently intended

  /** The navigation charging each child of a node with `k` children the
      `(k - 1)!` leaves its subtree really holds. */
  function NavigateIntended(n: Node, remaining: int): (bool, seq<char>)
    decreases n, 1
  {
    if n.children == [] then (remaining == 0, [])
    else NavigateIntendedFrom(n.children, 0, remaining, Fact(|n.children| - 1))
  }

  function NavigateIntendedFrom(cs: seq<Node>, i: nat, remaining: int, size: int): (bool, seq<char>)
    requires i <= |cs|
    decreases cs, 0, |cs| - i
  {
    if i == |cs| then (remaining == 0, [])
    else if remaining < size then
      var (found, path) := NavigateIntended(cs[i], remaining);
      (found, [cs[i].value] + path)
    else NavigateIntendedFrom(cs, i + 1, remaining - size, size)
  }

  /** The lookup by navigation with the intended subtree size. */
  function RankByIntendedNavigation(elements: seq<char>, num: int): seq<char> {
    if num < 1 || num > Total(elements) || elements == [] then []
    else
      var (found, path) := NavigateIntended(Root(elements), num - 1);
      if found then path else []
  }

  /** Every offset below `n!` leads the intended navigation to the
      permutation of that index in the enumeration. */
  lemma {:induction false} NavigateIntendedFinds(v: char, remaining: seq<char>, r: int)
    requires Distinct(remaining) && 0 <= r < Fact(|remaining|)
    ensures r < |Perms(remaining)|
    ensures NavigateIntended(Build(v, remaining), r) == (true, Perms(remaining)[r])
    decreases |remaining|, 1
  {
    PermsLength(remaining);
    if remaining != [] {
      NavigateIntendedFromFinds(remaining, 0, r);
    }
  }

  /** From child `i` on, offset `r` reaches index `i * (n - 1)! + r`. */
  lemma {:induction false} NavigateIntendedFromFinds(remaining: seq<char>, i: nat, r: int)
    requires Distinct(remaining) && remaining != [] && i < |remaining|
    requires 0 <= r < (|remaining| - i) * Fact(|remaining| - 1)
    ensures i * Fact(|remaining| - 1) + r < |Perms(remaining)|
    ensures NavigateIntendedFrom(Children(remaining), i, r, Fact(|remaining| - 1))
      == (true, Perms(remaining)[i * Fact(|remaining| - 1) + r])
    decreases |remaining|, 0, |remaining| - i
  {
    var f := Fact(|remaining| - 1);
    if r < f {
      NavigateIntendedIntoChild(remaining, i, r);
    } else {
      assert (|remaining| - i) * f == (|remaining| - (i + 1)) * f + f;
      NavigateIntendedFromFinds(remaining, i + 1, r - f);
    }
  }

  /** The offset falls inside child `i`: the navigation descends there. */
  lemma {:induction false} NavigateIntendedIntoChild(remaining: seq<char>, i: nat, r: int)
    requires Distinct(remaining) && i < |remaining| && 0 <= r < Fact(|remaining| - 1)
    ensures i * Fact(|remaining| - 1) + r < |Perms(remaining)|
    ensures NavigateIntendedFrom(Children(remaining), i, r, Fact(|remaining| - 1))
      == (true, Perms(remaining)[i * Fact(|remaining| - 1) + r])
    decreases |remaining|, 0, 0
  {
    var cs := Children(remaining);
    var w := Without(remaining, remaining[i]);
    WithoutDistinct(remaining, remaining[i]);
    assert cs[i] == Build(remaining[i], w);
    NavigateIntendedFinds(remaining[i], w, r);
    GroupIndex(remaining, |remaining|, i, r);
    assert Perms(remaining) == PermsUpTo(remaining, |remaining|);
    assert Block(remaining, i)[r] == [remaining[i]] + Perms(w)[r];
  }

  /** With the intended subtree size the two ranked lookups agree on every
      rank, in range or not. */
  lemma IntendedNavigationAgrees(elements: seq<char>, num: int)
    requires Distinct(elements)
    ensures RankByIntendedNavigation(elements, num) == RankByEnumeration(elements, num)
  {
    if 1 <= num <= Total(elements) && elements != [] {
      NavigateIntendedFinds(RootSymbol, elements, num - 1);
    }
  }

  /** The corrected lookup returns, for `ABC`, ACB at rank 2 and CBA at rank 6. */
  lemma IntendedNavigationOfABC()
    ensures RankByIntendedNavigation("ABC", 2) == "ACB"
    ensures RankByIntendedNavigation("ABC", 6) == "CBA"
  {
    RanksOfABC();
    IntendedNavigationAgrees("ABC", 2);
    IntendedNavigationAgrees("ABC", 6);
  }
}
