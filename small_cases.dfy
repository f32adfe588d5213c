/** The enumeration and the tree worked out on inputs of one, two and three
    symbols, in the order the builder produces them. */
module SmallCases {
  import opened Permutations
  import opened PermTree

  // ---------------------------------------------------------------------
  // Prefixing

  lemma ExtendTwo(p: seq<char>, q1: seq<char>, q2: seq<char>)
    ensures Extend(p, [q1, q2]) == [p + q1, p + q2]
  {
    var e := Extend(p, [q1, q2]);
    assert |e| == 2 && e[0] == p + q1 && e[1] == p + q2;
  }

  // ---------------------------------------------------------------------
  // Removal

  lemma WithoutOfOne(a: char, x: char)
    ensures Without([a], x) == if a == x then [] else [a]
  {
    WithoutSnoc([], a, x);
    assert [] + [a] == [a];
  }

  lemma WithoutOfTwo(a: char, b: char)
    requires a != b
    ensures Without([a, b], a) == [b] && Without([a, b], b) == [a]
  {
    WithoutOfOne(a, a);
    WithoutOfOne(a, b);
    WithoutSnoc([a], b, a);
    WithoutSnoc([a], b, b);
    assert [a] + [b] == [a, b];
  }

  lemma WithoutOfThree(a: char, b: char, c: char)
    requires a != b && b != c && a != c
    ensures Without([a, b, c], a) == [b, c]
    ensures Without([a, b, c], b) == [a, c]
    ensures Without([a, b, c], c) == [a, b]
  {
    var ab := [a, b];
    assert [a, b, c] == ab + [c];
    WithoutOfTwo(a, b);
    WithoutSnoc(ab, c, a);
    assert Without(ab + [c], a) == [b] + [c] == [b, c];
    WithoutSnoc(ab, c, b);
    assert Without(ab + [c], b) == [a] + [c] == [a, c];
    WithoutThirdOfThree(a, b, c);
  }

  lemma WithoutThirdOfThree(a: char, b: char, c: char)
    requires a != c && b != c
    ensures Without([a, b, c], c) == [a, b]
  {
    var ab := [a, b];
    assert [a, b, c] == ab + [c] && ab == [a] + [b];
    WithoutOfOne(a, c);
    WithoutSnoc([a], b, c);
    assert Without(ab, c) == ab;
    WithoutSnoc(ab, c, c);
    assert Without(ab + [c], c) == ab + [];
  }

  // ---------------------------------------------------------------------
  // Enumeration

  /** One symbol has one permutation. */
  lemma PermsOfOne(a: char)
    ensures Perms([a]) == [[a]]
  {
    assert Without([a], a) == Without([], a) + [] == [];
    assert Perms([]) == [[]];
    ExtendOne([a], []);
    assert [a] + [] == [a];
    assert Block([a], 0) == Extend([a], [[]]) == [[a]];
    assert PermsUpTo([a], 1) == PermsUpTo([a], 0) + Block([a], 0);
  }

  /** Two symbols: the input order first, then the swap. */
  lemma PermsOfTwo(a: char, b: char)
    requires a != b
    ensures Perms([a, b]) == [[a, b], [b, a]]
  {
    var s := [a, b];
    WithoutOfTwo(a, b);
    PermsOfOne(a);
    PermsOfOne(b);
    ExtendOne([a], [b]);
    ExtendOne([b], [a]);
    assert [a] + [b] == [a, b] && [b] + [a] == [b, a];
    assert Block(s, 0) == Extend([a], Perms([b])) == [[a, b]];
    assert Block(s, 1) == Extend([b], Perms([a])) == [[b, a]];
    assert PermsUpTo(s, 1) == [] + Block(s, 0);
    assert PermsUpTo(s, 2) == PermsUpTo(s, 1) + Block(s, 1);
  }

  /** The group of `[a, b, c]` that starts with `a`. */
  lemma BlockOfThree(a: char, b: char, c: char)
    requires a != b && b != c && a != c
    ensures Block([a, b, c], 0) == [[a, b, c], [a, c, b]]
  {
    var s := [a, b, c];
    WithoutOfThree(a, b, c);
    assert s[0] == a;
    var w := Without(s, s[0]);
    assert w == [b, c];
    var ps := Perms(w);
    PermsOfTwo(b, c);
    assert ps == [[b, c], [c, b]];
    ExtendTwo([a], [b, c], [c, b]);
    assert [a] + [b, c] == [a, b, c] && [a] + [c, b] == [a, c, b];
    assert Block(s, 0) == Extend([a], ps);
  }

  /** A group depends only on its first symbol and the symbols left. */
  lemma SameBlock(s: seq<char>, j: nat, t: seq<char>, i: nat)
    requires j < |s| && i < |t| && s[j] == t[i] && Without(s, s[j]) == Without(t, t[i])
    ensures Block(s, j) == Block(t, i)
  {
  }

  /** With three symbols every group holds two permutations. */
  lemma ThreeIndex(s: seq<char>, j: nat, t: nat)
    requires Distinct(s) && |s| == 3 && j < 3 && t < 2
    ensures |Perms(s)| == 6 && |Block(s, j)| == 2 && Perms(s)[2 * j + t] == Block(s, j)[t]
  {
    assert Fact(2) == 2 && Fact(3) == 6;
    PermsLength(s);
    GroupIndex(s, 3, j, t);
  }

  /** The group of a three-symbol enumeration that starts with its `j`-th
      symbol `x`, the other two being `y` and `z` in their input order. */
  lemma GroupOfThree(s: seq<char>, j: nat, x: char, y: char, z: char)
    requires Distinct(s) && |s| == 3 && j < 3 && s[j] == x && Without(s, x) == [y, z]
    requires x != y && y != z && x != z
    ensures |Perms(s)| == 6
    ensures Perms(s)[2 * j] == [x, y, z] && Perms(s)[2 * j + 1] == [x, z, y]
  {
    WithoutOfThree(x, y, z);
    SameBlock(s, j, [x, y, z], 0);
    BlockOfThree(x, y, z);
    ThreeIndex(s, j, 0);
    ThreeIndex(s, j, 1);
  }

  /** Three symbols: grouped by first symbol, in input order. */
  lemma PermsOfThree(a: char, b: char, c: char)
    requires a != b && b != c && a != c
    ensures |Perms([a, b, c])| == 6
    ensures Perms([a, b, c])[0] == [a, b, c] && Perms([a, b, c])[1] == [a, c, b]
    ensures Perms([a, b, c])[2] == [b, a, c] && Perms([a, b, c])[3] == [b, c, a]
    ensures Perms([a, b, c])[4] == [c, a, b] && Perms([a, b, c])[5] == [c, b, a]
  {
    var s := [a, b, c];
    WithoutOfThree(a, b, c);
    assert Distinct(s);
    GroupOfThree(s, 0, a, b, c);
    GroupOfThree(s, 1, b, a, c);
    GroupOfThree(s, 2, c, a, b);
  }

  /** For `ABC` the tree counts 6 permutations; by enumeration rank 1 is
      ABC, rank 2 is ACB, rank 6 is CBA, and rank 7 is out of range for both
      lookups. */
  lemma RanksOfABC()
    ensures Distinct("ABC") && Total("ABC") == 6
    ensures RankByEnumeration("ABC", 1) == "ABC"
    ensures RankByEnumeration("ABC", 2) == "ACB"
    ensures RankByEnumeration("ABC", 3) == "BAC"
    ensures RankByEnumeration("ABC", 6) == "CBA"
    ensures RankByEnumeration("ABC", 7) == [] && RankByNavigation("ABC", 7) == []
  {
    assert "ABC" == ['A', 'B', 'C'];
    assert Distinct("ABC");
    PermsOfThree('A', 'B', 'C');
  }

  /** A single symbol has one permutation, found by both lookups. */
  lemma SingleSymbol(x: char)
    ensures Total([x]) == 1
    ensures RankByEnumeration([x], 1) == RankByNavigation([x], 1) == [x]
    ensures RankByEnumeration([x], 2) == RankByNavigation([x], 2) == []
  {
    PermsOfOne(x);
    RankOneAgrees([x]);
  }

  // ---------------------------------------------------------------------
  // Tree shape

  lemma ChildrenOfOne(a: char)
    ensures Children([a]) == [Build(a, [])]
    ensures Children([]) == []
  {
    assert Without([a], a) == Without([], a) + [] == [];
    var cs := Children([a]);
    assert |cs| == 1 && cs[0] == Build(a, []);
  }

  lemma ChildrenOfTwo(a: char, b: char)
    requires a != b
    ensures Children([a, b]) == [Build(a, [b]), Build(b, [a])]
  {
    WithoutOfTwo(a, b);
    var cs := Children([a, b]);
    assert |cs| == 2 && cs[0] == Build(a, [b]) && cs[1] == Build(b, [a]);
  }
}
