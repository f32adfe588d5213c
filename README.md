# Permutation tree (`PMTree`)

This project models the permutation tree of src/alg.cpp in Dafny. The tree is built from a sequence of symbols. Its synthetic root holds one child per symbol. Below each node there is one child per symbol not yet used on the path. So every root-to-leaf path spells one permutation, and the leaves are ordered the way the input orders its symbols.

The object answers three queries:

- every permutation, in tree order (`getAllPerms`);
- the permutation of a 1-based rank, found by counting leaves in a depth-first walk (`getPerm1`);
- the permutation of a 1-based rank, found by factorial arithmetic on subtree sizes (`getPerm2`).

Modules:

- `Permutations` (permutations.dfy) is the reference enumeration.
  - `Perms(s)`: all permutations of `s`, grouped by first symbol in input order, each group ordered the same way recursively.
  - It carries the facts about `Perms`: count, permutation, distinctness, completeness, first element and position of each group.
  - It also holds the filter `Without` and the factorial `Fact`.
- `PermTree` (tree.dfy) is the tree as a value.
  - `datatype Node` and the tree the builder produces (`Build`, `Children`, `Root`).
  - Its root-to-leaf paths (`Paths`, `ForestPaths`).
  - The factorial navigation as the source writes it (`Navigate`, `RankByNavigation`) and the lookup by enumeration (`RankByEnumeration`).
- `Alg` (alg.dfy) is the `PMTree` class itself. Each source routine is a method with loops and recursion, proved against the functions above. The module also holds the three free wrappers.
- `SmallCases` (small_cases.dfy) works the enumeration and the tree out on one, two and three symbols.
- `Findings` (findings.dfy) covers the navigation defect:
  - the counterexample on `ABC`;
  - the navigation with the intended subtree size, proved to agree with the enumeration.

The tree never changes after construction. Nodes are therefore immutable values: the builder hands back the grown node in place of appending to it through a `Node*` handle. The `PMTree` fields are `const`, and the input symbols are kept in a ghost field `elements` to state the contracts.

## Model

| member | source | states |
|---|---|---|
| Alg.PMTree.constructor | src/alg.cpp:6-27 | For distinct symbols, the built object has no root and a count of 0 when the input is empty. Otherwise the root is the synthetic root whose children are exactly the builder's subtrees, in input order, and the count is n!. |
| Alg.Remaining | src/alg.cpp:19-24 | The filtering loop yields the input with every copy of the used symbol dropped, in order (`Without`). |
| Alg.PMTree.BuildTree | src/alg.cpp:28-42 | The node comes back with one extra child per remaining symbol, in order, each grown over the remaining symbols minus its own. Its value and earlier children are unchanged. |
| Alg.PMTree.Factorial | src/alg.cpp:120-126 | The loop computes n! (1 for n < 2), and for n ≤ 12 the result fits a 32-bit `int`. |
| Alg.FactorialFitsInt | src/alg.cpp:12 | 12! fits in a 32-bit `int` and 13! does not. |
| Alg.PMTree.GetAllPerms | src/alg.cpp:43-52 | Empty input gives no permutations. Otherwise the result is the reference enumeration: exactly `totalPermutations` sequences, pairwise distinct, each a permutation of the input. |
| Alg.PMTree.CollectPerms | src/alg.cpp:53-64 | Every root-to-leaf path of the node, prefixed with the current path, is appended in tree order, and the current path is handed back unchanged. |
| Alg.PMTree.GetPerm1 | src/alg.cpp:65-77 | Returns the permutation of rank `num` in enumeration order when 1 ≤ num ≤ n!, a permutation of the input; empty otherwise. |
| Alg.PMTree.GetPermByTraversal | src/alg.cpp:78-95 | Found exactly when the countdown lands on a leaf of this subtree. The result then gains that leaf's path and the countdown reaches 0. Otherwise the result is unchanged and the countdown drops by the subtree's leaf count. |
| Alg.PMTree.GetPerm2 | src/alg.cpp:96-105 | Returns the navigation's answer. It is empty out of range, repeats no symbol, is no longer than the input, starts with the first input symbol when non-empty, and is the input itself at rank 1. |
| Alg.PMTree.GetPermByNavigation | src/alg.cpp:106-119 | The walk's found flag and appended path equal `Navigate`, which charges each child n! leaves when n children share a node. |
| Alg.GetAllPerms | src/alg.cpp:127-129 | The free function returns the tree's enumeration. |
| Alg.GetPerm1 | src/alg.cpp:130-132 | The free function returns the rank lookup by enumeration. |
| Alg.GetPerm2 | src/alg.cpp:133-135 | The free function returns the rank lookup by navigation. |
| Permutations.Without | src/alg.cpp:19-24 | Dropping a symbol never lengthens a sequence, and strictly shortens one that contains it. |
| Permutations.WithoutMultiset | src/alg.cpp:19-24 | Dropping a symbol removes every copy of it and leaves the count of every other symbol unchanged. |
| Permutations.WithoutDistinct | src/alg.cpp:34-39 | Filtering a symbol out of distinct symbols keeps them distinct. It removes exactly one when the symbol is present and nothing when it is absent. |
| Permutations.PermsLength | src/alg.cpp:12 | n distinct symbols have exactly n! permutations in the enumeration. |
| Permutations.PermsUpToLength | src/alg.cpp:109 | Each first-symbol group holds (n-1)! permutations. |
| Permutations.GroupAt | src/alg.cpp:106-119 | Within the first k first-symbol groups, offset t of group j sits right after all the permutations of the groups before j. |
| Permutations.GroupIndex | src/alg.cpp:106-119 | The permutation at offset t of group j sits at index j·(n-1)! + t. |
| Permutations.PermsArePermutations | src/alg.cpp:43-64 | Every enumerated sequence has the input's symbols with the same multiplicities, the same length, and no repeats. |
| Permutations.PermsComplete | src/alg.cpp:43-64 | Every rearrangement of the input occurs in the enumeration. |
| Permutations.PermsDistinct | src/alg.cpp:43-64 | The enumeration lists no permutation twice. |
| Permutations.PermsFirst | src/alg.cpp:15-17 | The first permutation is the input in its own order. |
| PermTree.TreeEnumeratesPerms | src/alg.cpp:13-26 | The root-to-leaf paths below the root, in child order, are exactly the reference enumeration. |
| PermTree.BuildPaths | src/alg.cpp:28-42 | The paths below a grown node are its symbol followed by each permutation of the remaining symbols, in enumeration order. |
| PermTree.BuildChildValues | src/alg.cpp:32-33 | The children of a grown node hold the remaining symbols in order, each grown over the rest. |
| PermTree.ChildrenPaths | src/alg.cpp:28-42 | The paths under the first k children are exactly the first k first-symbol groups of the enumeration. |
| PermTree.BuildShape | src/alg.cpp:28-42 | A node grown over k symbols has every leaf at depth k and exactly k! root-to-leaf paths. |
| PermTree.LeafIsRank | src/alg.cpp:65-77 | The leaf at offset k under root child i is the enumeration's permutation of rank (leaves under earlier children) + k + 1, and it is a permutation of the input. |
| PermTree.ForestPathsAt | src/alg.cpp:87-91 | The paths of child i form one contiguous stretch after those of the children before it. |
| PermTree.RankByNavigationIsPrefix | src/alg.cpp:96-119 | Whatever the rank, the navigation returns a prefix of some genuine permutation of the input: no repeated symbol, no foreign symbol, no more than n symbols. |
| PermTree.RankByNavigationStartsWithFirst | src/alg.cpp:106-113 | Since the root charges each child n! leaves, every in-range rank enters the first child. |
| PermTree.NavigatePrefix | src/alg.cpp:106-119 | Whatever the offset, the path the navigation collects below a grown node is a prefix of some permutation of that node's remaining symbols. |
| PermTree.NavigateFirst | src/alg.cpp:106-119 | Offset 0 walks down the first child at every level and yields the remaining symbols in order. |
| PermTree.RankOneAgrees | src/alg.cpp:65-119 | At rank 1 both lookups return the input itself. |
| SmallCases.PermsOfThree | src/alg.cpp:43-64 | Three distinct symbols a, b, c enumerate as abc, acb, bac, bca, cab, cba. |
| SmallCases.RanksOfABC | src/alg.cpp:65-77 | For ABC the count is 6, and ranks 1, 2, 3 and 6 are ABC, ACB, BAC and CBA. Rank 7 is empty for both lookups. |
| SmallCases.SingleSymbol | src/alg.cpp:65-119 | One symbol has count 1: both lookups return it at rank 1 and nothing at rank 2. |
| Findings.NavigateTwo | src/alg.cpp:109-116 | Below two children each charged 2! leaves, offset 1 stops inside the first child, offset 2 reaches the second, and offset 5 runs past both and fails. |
| Findings.NavigationDisagreesOnABC | src/alg.cpp:96-119 | For ABC the navigation returns AB at rank 2, ACB at rank 3 and nothing at rank 6, where the enumeration gives ACB, BAC and CBA. |
| Findings.NavigateIntendedFinds | src/alg.cpp:106-119 | With (k-1)! per child, every offset below n! reaches the permutation at that index of the enumeration. |
| Findings.NavigateIntendedFromFinds | src/alg.cpp:109-116 | With (k-1)! per child, scanning the children from child i with an offset r below the leaves they hold finds the enumeration's permutation at index i·(k-1)! + r. |
| Findings.IntendedNavigationAgrees | src/alg.cpp:96-119 | With the corrected subtree size, the navigation lookup equals the enumeration lookup at every rank, in range or not. |
| Findings.IntendedNavigationOfABC | src/alg.cpp:96-119 | The corrected navigation gives ACB at rank 2 and CBA at rank 6 for ABC. |

## Left out

- Memory management: `unique_ptr` ownership, raw `Node*` handles and the dummy root's allocation are not modelled. Nodes are values, and the builder returns the grown node instead of appending to it in place.
- Alg.PMTree.constructor: requires distinct symbols and at most 12 of them, which the source does not check.
  - With 13 or more symbols the source's `factorial` overflows a 32-bit `int`.
  - With repeated symbols its `!=` filter drops every copy of the used symbol, so every path is shorter than the input, and the count n! need not equal the number of leaves.
  - `PermTree.TreeEnumeratesPerms` and `PermTree.BuildPaths` hold for any input. The count and distinctness facts need distinct symbols.
- Alg.PMTree.Factorial: states the result as an unbounded n!. The 32-bit wrap-around for n ≥ 13 is not modelled; the contract only promises that n ≤ 12 fits.
- Counters: the countdown in `getPerm1` and the offsets in `getPerm2` are modelled as unbounded integers. Within the 12-symbol bound they never leave the `int` range.
- The header tree.h is not part of this model. The layout of `Node` and `PMTree` comes from its use in src/alg.cpp.
- The cost of the three queries (time, stack depth, memory) is not modelled.
- The subtree size in `getPerm2` is modelled as the code writes it.
  - Each child of a node with k children roots (k-1)! leaves, so `getPerm2` is meant to agree with `getPerm1` at every rank.
  - The code charges k! leaves per child.
  - The model follows the code; see Findings.

## Findings

| source | as written | input that shows it | evidently intended | confidence | as-written member | corrected member |
|---|---|---|---|---|---|---|
| src/alg.cpp:109 | `subtreeSize = factorial(node->children.size())` charges each of k children k! leaves | `ABC`: rank 2 gives `AB` (a partial path), rank 3 gives `ACB`, rank 6 gives an empty result; the enumeration gives `ACB`, `BAC`, `CBA` | `factorial(node->children.size() - 1)`: each child's subtree holds (k-1)! leaves, and the lookup then equals `getPerm1` at every rank | high (proved on the model; not executed) | Findings.NavigationDisagreesOnABC | Findings.IntendedNavigationAgrees |
