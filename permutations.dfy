/** The mathematics the permutation tree stands on: distinctness, removal of
    a used symbol, factorial, and the reference enumeration `Perms` of all
    permutations of a symbol sequence in the order the tree produces them.
    Nothing here depends on the tree itself. */
module Permutations {

  /** No element occurs twice. */
  predicate Distinct<T(==)>(s: seq<T>) {
    forall i, j :: 0 <= i < j < |s| ==> s[i] != s[j]
  }

  /** `s` with every occurrence of `x` dropped, the rest in original order:
      the `!=` filter that computes the symbols still unused below a node. */
  function Without(s: seq<char>, x: char): (r: seq<char>)
    ensures |r| <= |s|
    ensures x in s ==> |r| < |s|
  {
    if |s| == 0 then []
    else if s[|s| - 1] == x then Without(s[..|s| - 1], x)
    else Without(s[..|s| - 1], x) + [s[|s| - 1]]
  }

  /** Dropping `x` removes all its copies and keeps every other symbol's count. */
  lemma {:induction false} WithoutMultiset(s: seq<char>, x: char)
    ensures multiset(Without(s, x)) == multiset(s)[x := 0]
  {
    if s != [] {
      var init, last := s[..|s| - 1], s[|s| - 1];
      assert s == init + [last];
      assert multiset(s) == multiset(init) + multiset{last};
      WithoutMultiset(init, x);
    }
  }

  /** `n!`, defined top-down; the source computes it bottom-up as 2 * 3 * ... * n. */
  function Fact(n: nat): (r: nat)
    ensures r >= 1
  {
    if n == 0 then 1 else n * Fact(n - 1)
  }

  /** Filtering a sequence with one more symbol at the end filters the
      front and then keeps or drops that symbol. */
  lemma WithoutSnoc(s: seq<char>, last: char, x: char)
    ensures Without(s + [last], x) == Without(s, x) + (if last == x then [] else [last])
  {
    assert (s + [last])[..|s|] == s;
  }

  /** The factorial grows with its argument. */
  lemma {:induction false} FactMonotone(m: nat, n: nat)
    requires m <= n
    ensures Fact(m) <= Fact(n)
  {
    if m < n {
      FactMonotone(m, n - 1);
      assert n * Fact(n - 1) >= Fact(n - 1);
    }
  }

  /** Every sequence of `ps`, with `prefix` in front of it. */
  function Extend(prefix: seq<char>, ps: seq<seq<char>>): (r: seq<seq<char>>)
    ensures |r| == |ps|
    ensures forall i :: 0 <= i < |ps| ==> r[i] == prefix + ps[i]
  {
    seq(|ps|, i requires 0 <= i < |ps| => prefix + ps[i])
  }

  lemma ExtendOne(p: seq<char>, q: seq<char>)
    ensures Extend(p, [q]) == [p + q]
  {
    var e := Extend(p, [q]);
    assert |e| == 1 && e[0] == p + q;
  }

  lemma ExtendConcat(prefix: seq<char>, a: seq<seq<char>>, b: seq<seq<char>>)
    ensures Extend(prefix, a + b) == Extend(prefix, a) + Extend(prefix, b)
  {
    var l, r := Extend(prefix, a + b), Extend(prefix, a) + Extend(prefix, b);
    assert |l| == |r|;
    forall i | 0 <= i < |l| ensures l[i] == r[i] {
      if i < |a| { assert (a + b)[i] == a[i]; } else { assert (a + b)[i] == b[i - |a|]; }
    }
  }

  lemma ExtendTwice(prefix: seq<char>, v: char, ps: seq<seq<char>>)
    ensures Extend(prefix + [v], ps) == Extend(prefix, Extend([v], ps))
  {
    var l, r := Extend(prefix + [v], ps), Extend(prefix, Extend([v], ps));
    forall i | 0 <= i < |ps| ensures l[i] == r[i] {
      assert prefix + [v] + ps[i] == prefix + ([v] + ps[i]);
    }
  }

  lemma ExtendEmpty(ps: seq<seq<char>>)
    ensures Extend([], ps) == ps
  {
    var l := Extend([], ps);
    forall i | 0 <= i < |ps| ensures l[i] == ps[i] {
      assert [] + ps[i] == ps[i];
    }
  }

  /** All permutations of `s`, grouped by first symbol in the order of `s`,
      each group ordered the same way recursively. The empty sequence has
      exactly one permutation, itself. */
  function Perms(s: seq<char>): seq<seq<char>>
    decreases |s|, |s| + 2
  {
    if s == [] then [[]] else PermsUpTo(s, |s|)
  }

  /** The groups of `Perms(s)` that start with `s[0]`, ..., `s[k - 1]`. */
  function PermsUpTo(s: seq<char>, k: nat): seq<seq<char>>
    requires k <= |s|
    decreases |s|, k + 1
  {
    if k == 0 then [] else PermsUpTo(s, k - 1) + Block(s, k - 1)
  }

  /** The permutations of `s` that start with `s[j]`. */
  function Block(s: seq<char>, j: nat): seq<seq<char>>
    requires j < |s|
    decreases |s|, j
  {
    Extend([s[j]], Perms(Without(s, s[j])))
  }

  // ---------------------------------------------------------------------
  // Distinctness and removal

  lemma DistinctSnoc<T>(init: seq<T>, last: T)
    ensures Distinct(init + [last]) <==> Distinct(init) && last !in init
  {
    var s := init + [last];
    if Distinct(s) {
      forall i, j | 0 <= i < j < |init| ensures init[i] != init[j] {
        assert s[i] == init[i] && s[j] == init[j];
      }
      assert last !in init by {
        forall i | 0 <= i < |init| ensures init[i] != last {
          assert s[i] == init[i] && s[|init|] == last;
        }
      }
    }
    if Distinct(init) && last !in init {
      forall i, j | 0 <= i < j < |s| ensures s[i] != s[j] {
        assert s[i] == init[i];
        if j < |init| { assert s[j] == init[j]; }
      }
    }
  }

  /** A sequence is duplicate-free exactly when no element occurs more than once in its multiset. */
  lemma {:induction false} DistinctMultiplicity<T>(s: seq<T>)
    ensures Distinct(s) <==> forall x :: multiset(s)[x] <= 1
  {
    if s != [] {
      var init, last := s[..|s| - 1], s[|s| - 1];
      assert s == init + [last];
      assert multiset(s) == multiset(init) + multiset{last};
      DistinctMultiplicity(init);
      DistinctSnoc(init, last);
      if forall x :: multiset(s)[x] <= 1 {
        assert forall x :: multiset(init)[x] <= multiset(s)[x];
        assert multiset(s)[last] == multiset(init)[last] + 1;
      }
    }
  }

  /** A rearrangement of a duplicate-free sequence is duplicate-free. */
  lemma DistinctRearranged<T>(p: seq<T>, s: seq<T>)
    requires Distinct(s) && multiset(p) == multiset(s)
    ensures Distinct(p)
  {
    DistinctMultiplicity(s);
    DistinctMultiplicity(p);
  }

  /** Removing a symbol keeps a duplicate-free sequence duplicate-free, and
      removes exactly one element when the symbol is present. */
  lemma {:induction false} WithoutDistinct(s: seq<char>, x: char)
    requires Distinct(s)
    ensures Distinct(Without(s, x))
    ensures x in s ==> |Without(s, x)| == |s| - 1
    ensures x !in s ==> Without(s, x) == s
  {
    if s != [] {
      var init, last := s[..|s| - 1], s[|s| - 1];
      assert s == init + [last];
      DistinctSnoc(init, last);
      WithoutDistinct(init, x);
      var r := Without(init, x);
      if last != x {
        assert last !in r by {
          WithoutMultiset(init, x);
          assert multiset(r)[last] == multiset(init)[last];
        }
        DistinctSnoc(r, last);
      }
    }
  }

  /** Removing its first symbol from a duplicate-free sequence leaves its tail. */
  lemma {:induction false} WithoutHead(s: seq<char>)
    requires Distinct(s) && s != []
    ensures Without(s, s[0]) == s[1..]
  {
    if |s| > 1 {
      var init, last := s[..|s| - 1], s[|s| - 1];
      assert s == init + [last];
      DistinctSnoc(init, last);
      WithoutHead(init);
      assert init[1..] + [last] == s[1..];
    } else {
      assert s == [s[0]];
    }
  }

  lemma DistinctConcat<T>(a: seq<T>, b: seq<T>)
    requires Distinct(a) && Distinct(b)
    requires forall x :: x in a ==> x !in b
    ensures Distinct(a + b)
  {
    var s := a + b;
    forall i, j | 0 <= i < j < |s| ensures s[i] != s[j] {
      if j < |a| {
        assert s[i] == a[i] && s[j] == a[j];
      } else if i >= |a| {
        assert s[i] == b[i - |a|] && s[j] == b[j - |a|];
      } else {
        assert s[i] == a[i] && s[j] == b[j - |a|];
        assert a[i] in a;
      }
    }
  }

  /** Putting the same prefix in front of distinct sequences keeps them distinct. */
  lemma ExtendDistinct(prefix: seq<char>, ps: seq<seq<char>>)
    requires Distinct(ps)
    ensures Distinct(Extend(prefix, ps))
  {
    var r := Extend(prefix, ps);
    forall i, j | 0 <= i < j < |r| ensures r[i] != r[j] {
      assert r[i][|prefix|..] == ps[i] && r[j][|prefix|..] == ps[j];
    }
  }

  // ---------------------------------------------------------------------
  // The enumeration

  /** The group that a member of the first `k` groups belongs to. */
  lemma {:induction false} GroupOf(s: seq<char>, k: nat, p: seq<char>) returns (j: nat)
    requires k <= |s| && p in PermsUpTo(s, k)
    ensures j < k && p in Block(s, j)
  {
    var a, b := PermsUpTo(s, k - 1), Block(s, k - 1);
    assert PermsUpTo(s, k) == a + b;
    if p in b {
      j := k - 1;
    } else {
      j := GroupOf(s, k - 1, p);
    }
  }

  /** Each of the first `k` groups is part of `PermsUpTo(s, k)`. */
  lemma GroupIncluded(s: seq<char>, k: nat, j: nat, p: seq<char>)
    requires j < k <= |s| && p in Block(s, j)
    ensures p in PermsUpTo(s, k)
  {
    var a, b := PermsUpTo(s, j), Block(s, j);
    assert p in a + b;
    assert PermsUpTo(s, j + 1) == a + b;
    PrefixIncluded(s, j + 1, k, p);
  }

  /** The first `m` groups are part of the first `k` groups when `m <= k`. */
  lemma {:induction false} PrefixIncluded(s: seq<char>, m: nat, k: nat, p: seq<char>)
    requires m <= k <= |s| && p in PermsUpTo(s, m)
    ensures p in PermsUpTo(s, k)
    decreases k
  {
    if m < k {
      PrefixIncluded(s, m, k - 1, p);
      var a, b := PermsUpTo(s, k - 1), Block(s, k - 1);
      assert p in a + b;
      assert PermsUpTo(s, k) == a + b;
    }
  }

  /** There are `n!` permutations of `n` distinct symbols. */
  lemma {:induction false} PermsLength(s: seq<char>)
    requires Distinct(s)
    ensures |Perms(s)| == Fact(|s|)
    decreases |s|, 1
  {
    if s != [] {
      PermsUpToLength(s, |s|);
    }
  }

  /** Every group holds `(n - 1)!` permutations. */
  lemma {:induction false} PermsUpToLength(s: seq<char>, k: nat)
    requires Distinct(s) && 0 < |s| && k <= |s|
    ensures |PermsUpTo(s, k)| == k * Fact(|s| - 1)
    decreases |s|, 0, k
  {
    if k > 0 {
      PermsUpToLength(s, k - 1);
      WithoutDistinct(s, s[k - 1]);
      PermsLength(Without(s, s[k - 1]));
      assert (k - 1) * Fact(|s| - 1) + Fact(|s| - 1) == k * Fact(|s| - 1);
    }
  }

  /** Each enumerated sequence is a rearrangement of the input, uses every
      symbol exactly once, and so has the input's length. */
  lemma {:induction false} PermsArePermutations(s: seq<char>, p: seq<char>)
    requires Distinct(s) && p in Perms(s)
    ensures multiset(p) == multiset(s)
    ensures |p| == |s| && Distinct(p)
    decreases |s|
  {
    if s != [] {
      var j := GroupOf(s, |s|, p);
      var w := Without(s, s[j]);
      WithoutDistinct(s, s[j]);
      WithoutMultiset(s, s[j]);
      var i :| 0 <= i < |Perms(w)| && p == [s[j]] + Perms(w)[i];
      var q := Perms(w)[i];
      PermsArePermutations(w, q);
      ConsMultiset(s, s[j], q);
    }
    assert |multiset(p)| == |multiset(s)|;
    DistinctRearranged(p, s);
  }

  /** Putting `x` in front of `q` rearranges duplicate-free `s` exactly when
      `q` rearranges what is left of `s` once `x` is taken out. */
  lemma ConsMultiset(s: seq<char>, x: char, q: seq<char>)
    requires Distinct(s) && x in s
    ensures multiset([x] + q) == multiset(s) <==> multiset(q) == multiset(s)[x := 0]
  {
    DistinctMultiplicity(s);
    assert multiset(s)[x] == 1;
    var m := multiset([x] + q);
    assert m == multiset{x} + multiset(q);
    if m == multiset(s) {
      assert multiset(q)[x] == 0;
      assert forall y :: multiset(q)[y] == multiset(s)[x := 0][y];
    }
    if multiset(q) == multiset(s)[x := 0] {
      assert forall y :: m[y] == multiset(s)[y];
    }
  }

  /** Every rearrangement of the input is enumerated: no permutation is missing. */
  lemma {:induction false} PermsComplete(s: seq<char>, p: seq<char>)
    requires Distinct(s) && multiset(p) == multiset(s)
    ensures p in Perms(s)
    decreases |s|
  {
    assert |p| == |multiset(p)| == |s|;
    if s != [] {
      var x := p[0];
      assert x in multiset(s);
      var j :| 0 <= j < |s| && s[j] == x;
      var w := Without(s, x);
      WithoutDistinct(s, x);
      WithoutMultiset(s, x);
      var q := p[1..];
      assert p == [x] + q;
      ConsMultiset(s, x, q);
      PermsComplete(w, q);
      var i :| 0 <= i < |Perms(w)| && Perms(w)[i] == q;
      assert Block(s, j)[i] == p;
      GroupIncluded(s, |s|, j, p);
    }
  }

  /** No permutation is enumerated twice. */
  lemma {:induction false} PermsDistinct(s: seq<char>)
    requires Distinct(s)
    ensures Distinct(Perms(s))
    decreases |s|, 1
  {
    if s != [] {
      PermsUpToDistinct(s, |s|);
    }
  }

  lemma {:induction false} PermsUpToDistinct(s: seq<char>, k: nat)
    requires Distinct(s) && k <= |s|
    ensures Distinct(PermsUpTo(s, k))
    ensures forall p :: p in PermsUpTo(s, k) ==> |p| > 0 && p[0] in s[..k]
    decreases |s|, 0, k
  {
    if k > 0 {
      PermsUpToDistinct(s, k - 1);
      var w := Without(s, s[k - 1]);
      WithoutDistinct(s, s[k - 1]);
      PermsDistinct(w);
      ExtendDistinct([s[k - 1]], Perms(w));
      var a, b := PermsUpTo(s, k - 1), Block(s, k - 1);
      assert forall p :: p in b ==> |p| > 0 && p[0] == s[k - 1];
      assert s[k - 1] !in s[..k - 1];
      DistinctConcat(a, b);
      assert s[..k - 1] <= s[..k];
    }
  }

  /** The first permutation enumerated is the input itself. */
  lemma {:induction false} PermsFirst(s: seq<char>)
    requires Distinct(s)
    ensures |Perms(s)| > 0 && Perms(s)[0] == s
    decreases |s|
  {
    if s != [] {
      var w := Without(s, s[0]);
      WithoutHead(s);
      WithoutDistinct(s, s[0]);
      PermsFirst(w);
      var b := Block(s, 0);
      assert b[0] == [s[0]] + w;
      PermsUpToFirst(s, |s|);
      assert [s[0]] + s[1..] == s;
    }
  }

  lemma {:induction false} PermsUpToFirst(s: seq<char>, k: nat)
    requires Distinct(s) && 0 < k <= |s|
    ensures |PermsUpTo(s, k)| > 0 && |Block(s, 0)| > 0
    ensures PermsUpTo(s, k)[0] == Block(s, 0)[0]
  {
    PermsUpToLength(s, k);
    PermsUpToLength(s, k - 1);
    if k > 1 {
      PermsUpToFirst(s, k - 1);
    }
  }

  // ---------------------------------------------------------------------
  // Positions

  /** Every group holds `(n - 1)!` permutations. */
  lemma BlockLength(s: seq<char>, j: nat)
    requires Distinct(s) && j < |s|
    ensures |Block(s, j)| == Fact(|s| - 1)
  {
    WithoutDistinct(s, s[j]);
    PermsLength(Without(s, s[j]));
  }

  /** Group `j` comes right after the groups before it. */
  lemma GroupAtLast(s: seq<char>, k: nat, j: nat, t: nat)
    requires j + 1 == k <= |s| && t < |Block(s, j)|
    ensures |PermsUpTo(s, j)| + t < |PermsUpTo(s, k)|
    ensures PermsUpTo(s, k)[|PermsUpTo(s, j)| + t] == Block(s, j)[t]
  {
    var a, b := PermsUpTo(s, j), Block(s, j);
    assert PermsUpTo(s, k) == a + b;
    assert (a + b)[|a| + t] == b[t];
  }

  /** Inside the first `k` groups, the permutation at offset `t` of group
      `j` sits right after the groups before `j`. */
  lemma {:induction false} GroupAt(s: seq<char>, k: nat, j: nat, t: nat)
    requires j < k <= |s| && t < |Block(s, j)|
    ensures |PermsUpTo(s, j)| + t < |PermsUpTo(s, k)|
    ensures PermsUpTo(s, k)[|PermsUpTo(s, j)| + t] == Block(s, j)[t]
    decreases k
  {
    if j + 1 == k {
      GroupAtLast(s, k, j, t);
    } else {
      var a, b := PermsUpTo(s, k - 1), Block(s, k - 1);
      var idx := |PermsUpTo(s, j)| + t;
      assert idx < |a| && a[idx] == Block(s, j)[t] by { GroupAt(s, k - 1, j, t); }
      assert PermsUpTo(s, k) == a + b;
      assert (a + b)[idx] == a[idx];
    }
  }

  /** The permutation at offset `t` of group `j` sits at index
      `j * (n - 1)! + t`. */
  lemma {:induction false} GroupIndex(s: seq<char>, k: nat, j: nat, t: nat)
    requires Distinct(s) && j < k <= |s| && t < Fact(|s| - 1)
    ensures |Block(s, j)| == Fact(|s| - 1)
    ensures j * Fact(|s| - 1) + t < |PermsUpTo(s, k)|
    ensures PermsUpTo(s, k)[j * Fact(|s| - 1) + t] == Block(s, j)[t]
  {
    BlockLength(s, j);
    PermsUpToLength(s, j);
    GroupAt(s, k, j, t);
  }
}
