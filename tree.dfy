/** The permutation tree as a value: the tree the builder produces for a
    symbol sequence, the root-to-leaf paths of a tree, and the factorial
    navigation of the ranked lookup as the source writes it. */
module PermTree {
  import opened Permutations

  /** One symbol placed at one position of a permutation prefix. Each node
      owns its children; the order of `children` is significant. */
  datatype Node = Node(value: char, children: seq<Node>)

  /** The symbol held by the synthetic root; it is never part of a path. */
  const RootSymbol: char := '\0'

  /** The subtree the builder grows below a node holding `v` when the
      symbols `remaining` are still unused on its path. */
  function Build(v: char, remaining: seq<char>): Node
    decreases |remaining|, 1
  {
    Node(v, Children(remaining))
  }

  /** One child per unused symbol, in the order of `remaining`, each
      expanded over the symbols left once its own symbol is taken out. */
  function Children(remaining: seq<char>): seq<Node>
    decreases |remaining|, 0
  {
    seq(|remaining|, i requires 0 <= i < |remaining| =>
      Build(remaining[i], Without(remaining, remaining[i])))
  }

  /** Child `i` holds the `i`-th unused symbol, grown over the others. */
  lemma ChildAt(remaining: seq<char>, i: nat)
    requires i < |remaining|
    ensures |Children(remaining)| == |remaining|
    ensures Children(remaining)[i] == Build(remaining[i], Without(remaining, remaining[i]))
  {
  }

  /** The root built for a non-empty input. */
  function Root(elements: seq<char>): Node {
    Build(RootSymbol, elements)
  }

  /** The number the tree records as its count of permutations. */
  function Total(elements: seq<char>): nat {
    if elements == [] then 0 else Fact(|elements|)
  }

  /** Every root-to-leaf path below and including `n`, left to right. */
  function Paths(n: Node): seq<seq<char>>
    decreases n, 1
  {
    if n.children == [] then [[n.value]] else Extend([n.value], ForestPaths(n.children))
  }

  /** The paths of a sequence of sibling subtrees, left to right. */
  function ForestPaths(cs: seq<Node>): seq<seq<char>>
    decreases cs, 0
  {
    if cs == [] then [] else ForestPaths(cs[..|cs| - 1]) + Paths(cs[|cs| - 1])
  }

  /** Every leaf below `n` lies `depth` levels down. */
  predicate LeavesAt(n: Node, depth: nat)
    decreases n
  {
    if n.children == [] then depth == 0
    else depth > 0 && forall c :: c in n.children ==> LeavesAt(c, depth - 1)
  }

  /** The values of the children of `n`, in order. */
  function ChildValues(n: Node): seq<char> {
    seq(|n.children|, i requires 0 <= i < |n.children| => n.children[i].value)
  }

  // ---------------------------------------------------------------------
  // Shape of the built tree and its paths

  lemma {:induction false} ForestPathsAppend(a: seq<Node>, b: seq<Node>)
    ensures ForestPaths(a + b) == ForestPaths(a) + ForestPaths(b)
    decreases |b|
  {
    if b != [] {
      var b' := b[..|b| - 1];
      assert (a + b)[..|a + b| - 1] == a + b';
      ForestPathsAppend(a, b');
    } else {
      assert a + b == a;
    }
  }

  /** Taking one more sibling appends its paths. */
  lemma ForestPathsSnoc(cs: seq<Node>, i: nat)
    requires i < |cs|
    ensures ForestPaths(cs[..i + 1]) == ForestPaths(cs[..i]) + Paths(cs[i])
  {
    assert cs[..i + 1][..i] == cs[..i];
  }

  /** The paths of the `i`-th subtree occupy a contiguous stretch of the
      forest's paths, right after those of the subtrees before it. */
  lemma ForestPathsAt(cs: seq<Node>, i: nat, k: nat)
    requires i < |cs| && k < |Paths(cs[i])|
    ensures |ForestPaths(cs[..i])| + k < |ForestPaths(cs)|
    ensures ForestPaths(cs)[|ForestPaths(cs[..i])| + k] == Paths(cs[i])[k]
  {
    var front := cs[..i + 1];
    assert front[..i] == cs[..i];
    assert cs == front + cs[i + 1..];
    ForestPathsAppend(front, cs[i + 1..]);
  }

  /** The paths below a built node are the node's symbol followed by each
      permutation of the symbols still unused, in enumeration order. */
  lemma {:induction false} BuildPaths(v: char, remaining: seq<char>)
    ensures Paths(Build(v, remaining)) == Extend([v], Perms(remaining))
    decreases |remaining|, 1
  {
    if remaining == [] {
      assert [v] + [] == [v];
    } else {
      ChildrenPaths(remaining, |remaining|);
      assert Children(remaining)[..|remaining|] == Children(remaining);
    }
  }

  /** The paths of the first `k` children are the first `k` groups of the enumeration. */
  lemma {:induction false} ChildrenPaths(remaining: seq<char>, k: nat)
    requires k <= |remaining|
    ensures ForestPaths(Children(remaining)[..k]) == PermsUpTo(remaining, k)
    decreases |remaining|, 0, k
  {
    if k > 0 {
      ChildrenPaths(remaining, k - 1);
      var x := remaining[k - 1];
      var w := Without(remaining, x);
      BuildPaths(x, w);
      ChildAt(remaining, k - 1);
      ForestPathsSnoc(Children(remaining), k - 1);
    }
  }

  /** The leaves under the root's children spell out exactly the reference
      enumeration of the input. */
  lemma TreeEnumeratesPerms(elements: seq<char>)
    requires elements != []
    ensures ForestPaths(Root(elements).children) == Perms(elements)
  {
    ChildrenPaths(elements, |elements|);
    assert Children(elements)[..|elements|] == Children(elements);
  }

  /** Leaf `k` under child `i` of the root is the enumeration's permutation at
      index `k` plus the number of leaves under the children before it. */
  lemma LeafRank(elements: seq<char>, i: nat, k: nat)
    requires elements != [] && i < |Root(elements).children|
    requires k < |Paths(Root(elements).children[i])|
    ensures var cs := Root(elements).children;
      |ForestPaths(cs[..i])| + k < |Perms(elements)|
      && Perms(elements)[|ForestPaths(cs[..i])| + k] == Paths(cs[i])[k]
  {
    TreeEnumeratesPerms(elements);
    ForestPathsAt(Root(elements).children, i, k);
  }

  /** That leaf is the permutation the enumeration ranks `num`, where `num`
      counts the leaves up to and including it. */
  lemma LeafIsRank(elements: seq<char>, i: nat, k: nat, num: int)
    requires Distinct(elements) && elements != [] && i < |Root(elements).children|
    requires k < |Paths(Root(elements).children[i])|
    requires num == |ForestPaths(Root(elements).children[..i])| + k + 1
    ensures RankByEnumeration(elements, num) == Paths(Root(elements).children[i])[k]
    ensures multiset(RankByEnumeration(elements, num)) == multiset(elements)
    ensures |RankByEnumeration(elements, num)| == |elements|
  {
    LeafRank(elements, i, k);
    PermsLength(elements);
    PermsArePermutations(elements, Perms(elements)[num - 1]);
  }

  /** The root has one child per input symbol, in input order; below it,
      every node has one child per symbol still unused, in input order. */
  lemma BuildChildValues(v: char, remaining: seq<char>)
    ensures ChildValues(Build(v, remaining)) == remaining
    ensures forall i :: 0 <= i < |remaining| ==>
      Build(v, remaining).children[i] == Build(remaining[i], Without(remaining, remaining[i]))
  {
    var cs := Build(v, remaining).children;
    assert cs == Children(remaining);
    var vs := ChildValues(Build(v, remaining));
    forall i | 0 <= i < |vs| ensures vs[i] == remaining[i] {
      assert cs[i] == Build(remaining[i], Without(remaining, remaining[i]));
      assert vs[i] == cs[i].value;
    }
  }

  /** For distinct symbols every leaf of a built subtree sits as many levels
      down as there are unused symbols, and there are `n!` leaves. */
  lemma {:induction false} BuildShape(v: char, remaining: seq<char>)
    requires Distinct(remaining)
    ensures LeavesAt(Build(v, remaining), |remaining|)
    ensures |Paths(Build(v, remaining))| == Fact(|remaining|)
  {
    BuildDepth(v, remaining);
    BuildPaths(v, remaining);
    PermsLength(remaining);
  }

  lemma {:induction false} BuildDepth(v: char, remaining: seq<char>)
    requires Distinct(remaining)
    ensures LeavesAt(Build(v, remaining), |remaining|)
    decreases |remaining|
  {
    var cs := Children(remaining);
    forall c | c in cs ensures LeavesAt(c, |remaining| - 1) {
      var i :| 0 <= i < |cs| && cs[i] == c;
      var w := Without(remaining, remaining[i]);
      WithoutDistinct(remaining, remaining[i]);
      BuildDepth(remaining[i], w);
    }
  }

  // ---------------------------------------------------------------------
  // Navigation by factorial arithmetic, as written

  /** The walk that picks a child by subtracting subtree sizes from
      `remaining`. At a node with `k` children it charges every child `k!`
      leaves, where each child's subtree really holds `(k - 1)!`. Gives
      whether the walk ended with nothing left over, and the symbols of
      the children it descended into. */
  function Navigate(n: Node, remaining: int): (bool, seq<char>)
    decreases n, 1
  {
    if n.children == [] then (remaining == 0, [])
    else NavigateFrom(n.children, 0, remaining, Fact(|n.children|))
  }

  /** The loop over the children `cs[i..]`, each charged `size` leaves. */
  function NavigateFrom(cs: seq<Node>, i: nat, remaining: int, size: int): (bool, seq<char>)
    requires i <= |cs|
    decreases cs, 0, |cs| - i
  {
    if i == |cs| then (remaining == 0, [])
    else if remaining < size then
      var (found, path) := Navigate(cs[i], remaining);
      (found, [cs[i].value] + path)
    else NavigateFrom(cs, i + 1, remaining - size, size)
  }

  /** The permutation of rank `num` by navigation, as the source computes it:
      empty out of range, and empty when the walk leaves something over. */
  function RankByNavigation(elements: seq<char>, num: int): seq<char> {
    if num < 1 || num > Total(elements) || elements == [] then []
    else
      var (found, path) := Navigate(Root(elements), num - 1);
      if found then path else []
  }

  /** The permutation of rank `num` in enumeration order, or empty out of range. */
  function RankByEnumeration(elements: seq<char>, num: int): seq<char>
    requires Distinct(elements)
  {
    if num < 1 || num > Total(elements) then []
    else
      PermsLength(elements);
      Perms(elements)[num - 1]
  }

  // ---------------------------------------------------------------------
  // What the navigation guarantees

  lemma PrefixCons(x: char, p: seq<char>, q: seq<char>)
    requires p <= q
    ensures [x] + p <= [x] + q
  {
    assert ([x] + q)[..|p| + 1] == [x] + q[..|p|];
  }

  /** On a built subtree the navigation only ever descends through children,
      so the symbols it collects are a prefix of one of the enumerated
      permutations of the unused symbols. */
  lemma {:induction false} NavigatePrefix(v: char, remaining: seq<char>, r: int) returns (q: seq<char>)
    requires Distinct(remaining)
    ensures q in Perms(remaining) && Navigate(Build(v, remaining), r).1 <= q
    decreases |remaining|, 1
  {
    if remaining == [] {
      q := [];
    } else {
      q := NavigateFromPrefix(remaining, 0, r, Fact(|remaining|));
    }
  }

  lemma {:induction false} NavigateFromPrefix(remaining: seq<char>, i: nat, r: int, size: int)
    returns (q: seq<char>)
    requires Distinct(remaining) && i <= |remaining|
    ensures q in Perms(remaining) && NavigateFrom(Children(remaining), i, r, size).1 <= q
    decreases |remaining|, 0, |remaining| - i
  {
    var cs := Children(remaining);
    if i == |remaining| {
      PermsFirst(remaining);
      q := Perms(remaining)[0];
    } else if r < size {
      var w := Without(remaining, remaining[i]);
      WithoutDistinct(remaining, remaining[i]);
      assert cs[i] == Build(remaining[i], w);
      var q' := NavigatePrefix(remaining[i], w, r);
      q := [remaining[i]] + q';
      PrefixCons(remaining[i], Navigate(cs[i], r).1, q');
      var t :| 0 <= t < |Perms(w)| && Perms(w)[t] == q';
      assert Block(remaining, i)[t] == q;
      GroupIncluded(remaining, |remaining|, i, q);
    } else {
      q := NavigateFromPrefix(remaining, i + 1, r - size, size);
    }
  }

  /** Whatever rank it is asked for, the lookup by navigation yields a
      prefix of an enumerated permutation: no symbol twice, at most one per
      input symbol, and only input symbols. */
  lemma RankByNavigationIsPrefix(elements: seq<char>, num: int) returns (q: seq<char>)
    requires Distinct(elements)
    ensures q in Perms(elements) && RankByNavigation(elements, num) <= q
    ensures var r := RankByNavigation(elements, num);
      Distinct(r) && |r| <= |elements| && forall x :: x in r ==> x in elements
  {
    var r := RankByNavigation(elements, num);
    q := NavigatePrefix(RootSymbol, elements, num - 1);
    PermsArePermutations(elements, q);
    assert r == q[..|r|];
    assert Distinct(r);
    forall x | x in r ensures x in elements {
      assert x in multiset(q);
    }
  }

  /** At the root the remaining offset is below `N!`, which the navigation
      charges to the first child, so a non-empty answer always starts with
      the first input symbol. */
  lemma RankByNavigationStartsWithFirst(elements: seq<char>, num: int)
    ensures var r := RankByNavigation(elements, num);
      r != [] ==> r[0] == elements[0]
  {
    if 1 <= num <= Total(elements) && elements != [] {
      var cs := Children(elements);
      assert cs[0] == Build(elements[0], Without(elements, elements[0]));
      assert Navigate(Root(elements), num - 1) == NavigateFrom(cs, 0, num - 1, Fact(|elements|));
    }
  }

  /** Offset 0 walks down the first child at every level and spells out the
      unused symbols in order. */
  lemma {:induction false} NavigateFirst(v: char, remaining: seq<char>)
    requires Distinct(remaining)
    ensures Navigate(Build(v, remaining), 0) == (true, remaining)
    decreases |remaining|
  {
    if remaining != [] {
      var cs := Children(remaining);
      var w := Without(remaining, remaining[0]);
      WithoutHead(remaining);
      WithoutDistinct(remaining, remaining[0]);
      assert cs[0] == Build(remaining[0], w);
      NavigateFirst(remaining[0], w);
      assert NavigateFrom(cs, 0, 0, Fact(|remaining|)) == (true, [remaining[0]] + w);
      assert [remaining[0]] + w == remaining;
    }
  }

  /** Rank 1 by navigation is the first enumerated permutation, the input itself. */
  lemma RankOneAgrees(elements: seq<char>)
    requires Distinct(elements) && elements != []
    ensures RankByNavigation(elements, 1) == RankByEnumeration(elements, 1) == elements
  {
    NavigateFirst(RootSymbol, elements);
    PermsFirst(elements);
  }
}
