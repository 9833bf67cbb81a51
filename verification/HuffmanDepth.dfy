/** How deep the tree of `build_tree` can be: a tree with a leaf below level m needs a total frequency that grows like
the Fibonacci numbers. For smaller totals no code length is ever cut off. */
module HuffmanDepth {
  import opened Bits
  import opened Sums
  import opened Fibonacci
  import opened HuffmanTree
  import opened HuffmanMerge
  import opened HuffmanLeaves
  import opened HuffmanBuild

  /** The two sons of the internal node elems + k - 1 - p. */
  lemma {:induction false} SonsAt(s: seq<nat>, dad: seq<nat>, f: seq<nat>, elems: nat, k: nat, p: nat)
    requires Merged(s, dad, f, elems, k) && p < k
    ensures |s| == 2 * k && Father(s[2 * p], s[2 * p + 1], dad, f, elems + k - 1 - p)
    decreases k
  {
    if p > 0 {
      SonsAt(s[2..], dad, f, elems, k - 1, p - 1);
      assert s[2..][2 * (p - 1)] == s[2 * p] && s[2..][2 * (p - 1) + 1] == s[2 * p + 1];
    }
  }

  lemma {:induction false} LevelAt(l: seq<nat>, s: seq<nat>, elems: nat, k: nat, m: nat, p: nat)
    requires Levels(l, s, elems, k, m) && p < k && |s| == 2 * k
    ensures s[2 * p] < |l| && s[2 * p + 1] < |l| && elems + k - 1 - p < |l|
    ensures l[s[2 * p]] <= l[elems + k - 1 - p] + 1 && l[s[2 * p + 1]] <= l[elems + k - 1 - p] + 1
    decreases k
  {
    if p > 0 {
      LevelAt(l, s[2..], elems, k - 1, m, p - 1);
      assert s[2..][2 * (p - 1)] == s[2 * p] && s[2..][2 * (p - 1) + 1] == s[2 * p + 1];
    }
  }

  lemma LeafInOrder(ord: seq<nat>, elems: nat, k: nat, leaves: seq<nat>, i: nat)
    requires multiset(ord) == multiset(leaves) + multiset(Internals(elems, k)) && i < |ord| && ord[i] < elems
    ensures ord[i] in leaves
  {
    var x, ints := ord[i], Internals(elems, k);
    assert x !in ints;
    assert x in multiset(ord);
    assert multiset(ord)[x] == multiset(leaves)[x] + multiset(ints)[x];
  }

  /** Every node has a positive frequency: the last one in the order is a leaf. */
  lemma Positive(ord: seq<nat>, dad: seq<nat>, f: seq<nat>, elems: nat, k: nat, i: nat)
    requires elems <= |f| && TreeOrder(ord, dad, f, elems, k, Leaves(f, elems)) && i < |ord|
    ensures ord[i] < |f| && f[ord[i]] >= 1
  {
    var s, last, leaves := ord[1..], 2 * k, Leaves(f, elems);
    assert ord[last] < elems by {
      SonsAt(s, dad, f, elems, k, k - 1);
      assert s[2 * (k - 1) + 1] == ord[last];
    }
    LeafInOrder(ord, elems, k, leaves, last);
    assert f[ord[last]] >= 1 by {
      LeavesOccur(f, elems);
    }
    if i < last {
      assert f[ord[i]] >= f[ord[last]];
    }
  }

  /** The brother of an internal node is at least as frequent as its sons. */
  lemma BrotherWeight(ord: seq<nat>, dad: seq<nat>, f: seq<nat>, elems: nat, k: nat, leaves: seq<nat>, i: nat, j: nat,
                      q: nat, b: nat)
    requires TreeOrder(ord, dad, f, elems, k, leaves) && q < k && i < 2 * k && ord[i + 1] == elems + q
    requires j == (if i % 2 == 0 then i + 1 else i - 1)
    requires b == 2 * (k - 1 - q) || b == 2 * (k - 1 - q) + 1
    ensures j < 2 * k && b < 2 * k && ord[j + 1] < |f| && ord[b + 1] < |f| && f[ord[j + 1]] >= f[ord[b + 1]]
    ensures var p := i / 2; p < k && Father(ord[2 * p + 1], ord[2 * p + 2], dad, f, elems + k - 1 - p) && q < k - 1 - p
  {
    var s, p := ord[1..], i / 2;
    SonsAt(s, dad, f, elems, k, p);
    assert s[2 * p] == ord[2 * p + 1] && s[2 * p + 1] == ord[2 * p + 2];
    assert i == 2 * p || i == 2 * p + 1;
    assert elems + q < elems + k - 1 - p;
    assert j <= 2 * p + 1 < b;
  }

  /** The father of an internal node that is not the root, among whose sons it stands at place i. */
  lemma FatherOf(ord: seq<nat>, dad: seq<nat>, f: seq<nat>, elems: nat, k: nat, leaves: seq<nat>, m: nat, l: seq<nat>,
                 q: nat, b: nat)
    returns (q': nat, b': nat)
    requires TreeOrder(ord, dad, f, elems, k, leaves) && q < k - 1 && elems + k <= |l| == |f|
    requires Levels(l, ord[1..], elems, k, m) && (b == 2 * (k - 1 - q) || b == 2 * (k - 1 - q) + 1)
    ensures q < q' < k && (b' == 2 * (k - 1 - q') || b' == 2 * (k - 1 - q') + 1)
    ensures b < 2 * k && b' < 2 * k && ord[b + 1] < |f| && ord[b' + 1] == elems + q
    ensures f[elems + q'] >= f[elems + q] + f[ord[b + 1]] && l[elems + q] <= l[elems + q'] + 1
  {
    var i := InOrder(ord, dad, f, elems, k, leaves, elems + q);
    b' := i - 1;
    var j, p := if b' % 2 == 0 then b' + 1 else b' - 1, b' / 2;
    BrotherWeight(ord, dad, f, elems, k, leaves, b', j, q, b);
    q' := k - 1 - p;
    assert l[elems + q] <= l[elems + q'] + 1 by {
      LevelAt(l, ord[1..], elems, k, m, p);
      assert ord[1..][2 * p] == ord[2 * p + 1] && ord[1..][2 * p + 1] == ord[2 * p + 2];
    }
  }

  /** From an internal node up to the root, the frequencies grow like the Fibonacci numbers. */
  lemma {:induction false} Climb(ord: seq<nat>, dad: seq<nat>, f: seq<nat>, elems: nat, k: nat, leaves: seq<nat>,
                                 m: nat, l: seq<nat>, q: nat, b: nat, t: nat, goal: nat)
    requires TreeOrder(ord, dad, f, elems, k, leaves) && q < k && elems + k <= |l| == |f|
    requires Levels(l, ord[1..], elems, k, m) && l[ord[0]] == 0
    requires b == 2 * (k - 1 - q) || b == 2 * (k - 1 - q) + 1
    requires b < 2 * k && ord[b + 1] < |f| && f[elems + q] >= Fib(t + 1) && f[ord[b + 1]] >= Fib(t)
    requires goal <= t + 1 + l[elems + q]
    ensures f[elems + k - 1] >= Fib(goal)
    decreases k - q
  {
    if q == k - 1 {
      FibMono(goal, t + 1);
    } else {
      var q', b' := FatherOf(ord, dad, f, elems, k, leaves, m, l, q, b);
      var t': nat := t + 1;
      assert Fib(t' + 1) == Fib(t + 1) + Fib(t);
      Climb(ord, dad, f, elems, k, leaves, m, l, q', b', t', goal);
    }
  }

  /** The root's frequency is the total. */
  lemma RootTotal(ord: seq<nat>, dad: seq<nat>, f: seq<nat>, elems: nat, k: nat)
    requires elems <= |f| && TreeOrder(ord, dad, f, elems, k, Leaves(f, elems))
    ensures ord[0] < |f| && f[ord[0]] == Weighted(f, Ones(elems), elems)
  {
    var leaves := Leaves(f, elems);
    TreeHolds(ord, dad, f, elems, k, leaves);
    TreeSum(ord, dad, f, elems, k, leaves, f);
    PairSums(ord[1..], dad, f, elems, k);
    SumLeaves(f, elems);
  }

  lemma {:induction false} PairSums(s: seq<nat>, dad: seq<nat>, f: seq<nat>, elems: nat, k: nat)
    requires Merged(s, dad, f, elems, k) && Below(s, |f|) && elems + k <= |f|
    ensures Below(Internals(elems, k), |f|) && Sum(f, s) == Sum(f, Internals(elems, k))
    decreases k
  {
    if k > 0 {
      SumTwo(f, s);
      PairSums(s[2..], dad, f, elems, k - 1);
      assert Internals(elems, k)[1..] == Internals(elems, k - 1);
    }
  }

  lemma {:induction false} SomeClipped(l: seq<nat>, elems: nat, k: nat, m: nat) returns (q: nat)
    requires elems + k <= |l| && Clipped(l, elems, k, m) > 0
    ensures q < k && l[elems + q] >= m
  {
    if l[elems + k - 1] >= m {
      q := k - 1;
    } else {
      q := SomeClipped(l, elems, k - 1, m);
    }
  }

  /** With a total frequency below Fib(m + 3), no length exceeds m. */
  lemma ShallowTree(ord: seq<nat>, dad: seq<nat>, f: seq<nat>, elems: nat, k: nat, m: nat)
    requires elems <= |f| && TreeOrder(ord, dad, f, elems, k, Leaves(f, elems))
    requires Weighted(f, Ones(elems), elems) < Fib(m + 3)
    ensures Below(ord, |dad|) && Below(ord[1..], |dad|) && Overflow(dad[ord[0] := 0], ord[1..], m) == 0
  {
    var leaves := Leaves(f, elems);
    var l := TreeLevels(ord, dad, f, elems, k, leaves, m);
    if Clipped(l, elems, k, m) > 0 {
      var q := SomeClipped(l, elems, k, m);
      var b := 2 * (k - 1 - q);
      SonsAt(ord[1..], dad, f, elems, k, k - 1 - q);
      assert ord[1..][b] == ord[b + 1] && ord[1..][b + 1] == ord[b + 2];
      Positive(ord, dad, f, elems, k, b + 1);
      Positive(ord, dad, f, elems, k, b + 2);
      assert Fib(3) == 2 && Fib(2) == 1;
      var t: nat :| t == 2;
      Climb(ord, dad, f, elems, k, leaves, m, l, q, b, t, m + 3);
      RootTotal(ord, dad, f, elems, k);
    }
  }
}
