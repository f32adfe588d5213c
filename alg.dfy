/** The permutation tree object (`PMTree` of src/alg.cpp): built once from a
    sequence of distinct symbols, then queried for all permutations and for
    the permutation of a given 1-based rank, by counting leaves down and by
    factorial arithmetic. */
module Alg {
  import opened Permutations
  import opened PermTree

  datatype Option<T> = None | Some(value: T)

  /** The largest value of the source's 32-bit `int`. */
  const IntMax: int := 0x7fff_ffff

  /** `elements` with every copy of `used` dropped, built by the filtering
      loop the constructor and the builder run for each child. */
  method Remaining(elements: seq<char>, used: char) returns (remaining: seq<char>)
    ensures remaining == Without(elements, used)
  {
    remaining := [];
    for i := 0 to |elements|
      invariant remaining == Without(elements[..i], used)
    {
      assert elements[..i + 1][..i] == elements[..i];
      if elements[i] != used {
        remaining := remaining + [elements[i]];
      }
    }
    assert elements[..|elements|] == elements;
  }

  /** 12! is the last factorial the source's `int` can hold. */
  lemma FactorialFitsInt()
    ensures Fact(12) <= IntMax < Fact(13)
  {
    assert Fact(12) == 479001600;
  }

  class PMTree {
    /** The symbols the tree was built from; the object keeps only the tree. */
    ghost const elements: seq<char>
    /** The synthetic root, absent for an empty input. */
    const root: Option<Node>
    const totalPermutations: int

    ghost predicate Valid() {
      && Distinct(elements)
      && |elements| <= 12
      && root == (if elements == [] then None else Some(Root(elements)))
      && totalPermutations == Total(elements)
    }

    /** Empty input gives no root and a count of 0. Otherwise the root gets one
        leaf child per symbol, in input order, and each child is then grown
        over the symbols other than its own. */
    constructor (elements: seq<char>)
      requires Distinct(elements) && |elements| <= 12
      ensures Valid() && this.elements == elements
    {
      this.elements := elements;
      if elements == [] {
        root := None;
        totalPermutations := 0;
      } else {
        var total := Factorial(|elements|);
        totalPermutations := total;
        var children: seq<Node> := [];
        for i := 0 to |elements|
          invariant |children| == i
          invariant forall j :: 0 <= j < i ==> children[j] == Node(elements[j], [])
        {
          children := children + [Node(elements[i], [])];
        }
        for i := 0 to |children|
          invariant |children| == |elements|
          invariant forall j :: 0 <= j < i ==> children[j] == Children(elements)[j]
          invariant forall j :: i <= j < |elements| ==> children[j] == Node(elements[j], [])
        {
          var remaining := Remaining(elements, children[i].value);
          var grown := BuildTree(children[i], remaining);
          assert [] + Children(remaining) == Children(remaining);
          assert grown == Children(elements)[i];
          children := children[i := grown];
        }
        assert children == Children(elements);
        root := Some(Node(RootSymbol, children));
      }
    }

    /** Appends to `parent`'s children one child per symbol of `remaining`, in
        order, each grown recursively over `remaining` without its symbol. */
    static method BuildTree(parent: Node, remaining: seq<char>) returns (grown: Node)
      ensures grown == Node(parent.value, parent.children + Children(remaining))
      decreases |remaining|
    {
      grown := parent;
      if remaining == [] {
        assert parent.children + [] == parent.children;
        return;
      }
      ghost var target := Children(remaining);
      for i := 0 to |remaining|
        invariant grown == Node(parent.value, parent.children + target[..i])
      {
        ghost var done := grown.children;
        var elem := remaining[i];
        grown := grown.(children := grown.children + [Node(elem, [])]);
        var newRemaining := Remaining(remaining, elem);
        var last := |grown.children| - 1;
        var child := BuildTree(grown.children[last], newRemaining);
        assert [] + Children(newRemaining) == Children(newRemaining);
        ChildAt(remaining, i);
        assert child == target[i];
        grown := grown.(children := grown.children[last := child]);
        assert grown.children == done + [child];
        assert target[..i + 1] == target[..i] + [child];
      }
      assert target[..|remaining|] == target;
    }

    /** The product 2 * 3 * ... * n, accumulated in a loop; 1 for n < 2. */
    static method Factorial(n: int) returns (result: int)
      ensures result == Fact(if n < 0 then 0 else n)
      ensures 0 <= n <= 12 ==> result <= IntMax
    {
      result := 1;
      var i := 2;
      while i <= n
        invariant 2 <= i <= (if n < 2 then 2 else n + 1)
        invariant result == Fact(i - 1)
      {
        result := result * i;
        i := i + 1;
      }
      if 0 <= n <= 12 {
        FactorialFitsInt();
        FactMonotone(n, 12);
      }
    }

    /** Every permutation, in the order of a depth-first, left-to-right walk
        of the tree; none for an empty tree. */
    method GetAllPerms() returns (result: seq<seq<char>>)
      requires Valid()
      ensures result == (if elements == [] then [] else Perms(elements))
      ensures |result| == totalPermutations
      ensures Distinct(result)
      ensures forall p :: p in result ==> multiset(p) == multiset(elements) && |p| == |elements|
    {
      result := [];
      if root.None? {
        return;
      }
      var current: seq<char> := [];
      var children := root.value.children;
      for i := 0 to |children|
        invariant current == []
        invariant result == ForestPaths(children[..i])
      {
        ForestPathsSnoc(children, i);
        current, result := CollectPerms(children[i], current, result);
        ExtendEmpty(Paths(children[i]));
      }
      assert children[..|children|] == children;
      TreeEnumeratesPerms(elements);
      PermsLength(elements);
      PermsDistinct(elements);
      forall p | p in result ensures multiset(p) == multiset(elements) && |p| == |elements| {
        PermsArePermutations(elements, p);
      }
    }

    /** Pushes the node's symbol onto `current`, records `current` at a leaf
        or visits the children in order, then pops the symbol again. */
    method CollectPerms(node: Node, current: seq<char>, result: seq<seq<char>>)
      returns (current': seq<char>, result': seq<seq<char>>)
      ensures current' == current
      ensures result' == result + Extend(current, Paths(node))
      decreases node
    {
      current' := current + [node.value];
      result' := result;
      if node.children == [] {
        result' := result' + [current'];
        ExtendOne(current, [node.value]);
      } else {
        var cs := node.children;
        for i := 0 to |cs|
          invariant current' == current + [node.value]
          invariant result' == result + Extend(current', ForestPaths(cs[..i]))
        {
          ghost var before := Extend(current', ForestPaths(cs[..i]));
          ForestPathsSnoc(cs, i);
          ExtendConcat(current', ForestPaths(cs[..i]), Paths(cs[i]));
          current', result' := CollectPerms(cs[i], current', result');
          assert result' == result + before + Extend(current', Paths(cs[i]));
        }
        assert cs[..|cs|] == cs;
        ExtendTwice(current, node.value, ForestPaths(cs));
      }
      assert current'[..|current'| - 1] == current;
      current' := current'[..|current'| - 1];
    }

    /** The permutation of rank `num` found by counting leaves down from
        `num`; empty when `num` is out of range or the tree is empty. */
    method GetPerm1(num: int) returns (result: seq<char>)
      requires Valid()
      ensures result == RankByEnumeration(elements, num)
      ensures 1 <= num <= totalPermutations ==>
        multiset(result) == multiset(elements) && |result| == |elements|
      ensures !(1 <= num <= totalPermutations) ==> result == []
    {
      if num < 1 || num > totalPermutations || root.None? {
        return [];
      }
      result := [];
      var remaining := num;
      var children := root.value.children;
      assert |ForestPaths(children)| == totalPermutations by {
        TreeEnumeratesPerms(elements);
        PermsLength(elements);
      }
      assert children[..|children|] == children;
      for i := 0 to |children|
        invariant remaining == num - |ForestPaths(children[..i])|
        invariant remaining >= 1
        invariant result == []
      {
        ForestPathsSnoc(children, i);
        var before := remaining;
        var found;
        found, remaining, result := GetPermByTraversal(children[i], remaining, result);
        if found {
          assert [] + Paths(children[i])[before - 1] == Paths(children[i])[before - 1];
          LeafIsRank(elements, i, before - 1, num);
          return;
        }
      }
      result := [];
    }

    /** Depth-first search that pushes the node's symbol, counts a leaf by
        decrementing `remaining` and stops at the leaf where it reaches 0;
        a subtree that does not hold the leaf pops its symbol again. */
    method GetPermByTraversal(node: Node, remaining: int, result: seq<char>)
      returns (found: bool, remaining': int, result': seq<char>)
      ensures found <==> 1 <= remaining <= |Paths(node)|
      ensures remaining' == if found then 0 else remaining - |Paths(node)|
      ensures result' == if found then result + Paths(node)[remaining - 1] else result
      decreases node
    {
      result' := result + [node.value];
      remaining' := remaining;
      if node.children == [] {
        remaining' := remaining' - 1;
        if remaining' == 0 {
          found := true;
          return;
        }
      } else {
        var cs := node.children;
        for i := 0 to |cs|
          invariant remaining' == remaining - |ForestPaths(cs[..i])|
          invariant !(1 <= remaining <= |ForestPaths(cs[..i])|)
          invariant result' == result + [node.value]
        {
          ForestPathsSnoc(cs, i);
          var before := remaining';
          var f;
          f, remaining', result' := GetPermByTraversal(cs[i], remaining', result');
          if f {
            ForestPathsAt(cs, i, before - 1);
            assert Paths(node) == Extend([node.value], ForestPaths(cs));
            assert Paths(node)[remaining - 1] == [node.value] + Paths(cs[i])[before - 1];
            assert result' == result + [node.value] + Paths(cs[i])[before - 1];
            found := true;
            return;
          }
        }
        assert cs[..|cs|] == cs;
        assert |Paths(node)| == |ForestPaths(cs)|;
      }
      result' := result'[..|result'| - 1];
      found := false;
    }

    /** The permutation of rank `num` found by factorial arithmetic, as the
        source computes it; empty when `num` is out of range, the tree is
        empty, or the walk ends with an offset left over. */
    method GetPerm2(num: int) returns (result: seq<char>)
      requires Valid()
      ensures result == RankByNavigation(elements, num)
      ensures !(1 <= num <= totalPermutations) ==> result == []
      ensures Distinct(result) && |result| <= |elements|
      ensures result != [] ==> result[0] == elements[0]
      ensures num == 1 && elements != [] ==> result == elements
    {
      if num < 1 || num > totalPermutations || root.None? {
        return [];
      }
      var found, path := GetPermByNavigation(root.value, num - 1, []);
      if found {
        result := path;
      } else {
        result := [];
      }
      var _ := RankByNavigationIsPrefix(elements, num);
      RankByNavigationStartsWithFirst(elements, num);
      if num == 1 {
        RankOneAgrees(elements);
      }
    }

    /** Walks the children left to right, charging each `k!` leaves (k the
        number of children), descends into the first whose charge exceeds
        the offset, and succeeds at a leaf only when the offset is 0. */
    method GetPermByNavigation(node: Node, remaining: int, result: seq<char>)
      returns (found: bool, result': seq<char>)
      ensures found == Navigate(node, remaining).0
      ensures result' == result + Navigate(node, remaining).1
      decreases node
    {
      result' := result;
      var offset := remaining;
      if node.children != [] {
        var subtreeSize := Factorial(|node.children|);
        for i := 0 to |node.children|
          invariant NavigateFrom(node.children, i, offset, subtreeSize) == Navigate(node, remaining)
          invariant result' == result
        {
          var child := node.children[i];
          if offset < subtreeSize {
            result' := result' + [child.value];
            found, result' := GetPermByNavigation(child, offset, result');
            assert result + [child.value] + Navigate(child, offset).1
              == result + ([child.value] + Navigate(child, offset).1);
            return;
          }
          offset := offset - subtreeSize;
        }
      }
      found := offset == 0;
      assert result' == result + [];
    }
  }

  /** The free function that hands back the tree's full enumeration. */
  method GetAllPerms(tree: PMTree) returns (result: seq<seq<char>>)
    requires tree.Valid()
    ensures result == (if tree.elements == [] then [] else Perms(tree.elements))
  {
    result := tree.GetAllPerms();
  }

  /** The free function for the lookup by counting leaves. */
  method GetPerm1(tree: PMTree, num: int) returns (result: seq<char>)
    requires tree.Valid()
    ensures result == RankByEnumeration(tree.elements, num)
  {
    result := tree.GetPerm1(num);
  }

  /** The free function for the lookup by navigation. */
  method GetPerm2(tree: PMTree, num: int) returns (result: seq<char>)
    requires tree.Valid()
    ensures result == RankByNavigation(tree.elements, num)
  {
    result := tree.GetPerm2(num);
  }
}
