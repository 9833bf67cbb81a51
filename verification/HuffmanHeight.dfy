/** Why `build_tree` breaks ties by depth: of all the cheapest trees it makes one of least height. So code lengths are
cut off only when no cheapest code keeps to the limit. */
module HuffmanHeight {
  import opened Bits
  import opened Sums
  import opened Fibonacci
  import opened HuffmanTree
  import opened HuffmanTies
  import opened HuffmanMerge
  import opened HuffmanLeaves
  import opened HuffmanLengths
  import opened HuffmanBuild
  import opened HuffmanDepth
  import opened HuffmanOptimal

  /** No lengths that leave room for the nodes in r cost less than v. */
  ghost predicate Cheapest(f: seq<nat>, v: seq<nat>, r: seq<nat>) {
    && |f| == |v| && Below(r, |f|)
    && forall u, b :: |u| == |f| && Fits(u, r, b) ==> CostOf(f, v, r) <= CostOf(f, u, r)
  }

  ghost predicate AllOccur(f: seq<nat>, r: seq<nat>) {
    Below(r, |f|) && forall c :: 0 <= c < |r| ==> f[r[c]] > 0
  }

  /** Trees of depth d, hung up at the levels v, stay within height h. */
  ghost predicate Within(v: seq<nat>, d: seq<nat>, r: seq<nat>, h: nat) {
    Below(r, |v|) && Below(r, |d|) && forall c :: 0 <= c < |r| ==> d[r[c]] + v[r[c]] <= h
  }

  /** The nodes at i and then at j are the first of r in the queue. */
  ghost predicate FirstOf(f: seq<nat>, d: seq<nat>, r: seq<nat>, i: nat, j: nat) {
    && i < |r| && j < |r| && i != j
    && (forall c :: 0 <= c < |r| ==> Sooner(f, d, r[i], r[c]))
    && (forall c :: 0 <= c < |r| && c != i ==> Sooner(f, d, r[j], r[c]))
  }

  // ----- two nodes of maximal length -----

  lemma {:induction false} TimesLess(a: nat, b: nat, c: nat)
    requires a > 0 && b < c
    ensures Times(a, b) < Times(a, c)
  {
    if b < c - 1 { TimesLess(a, b, c - 1); }
  }

  /** Cutting off the only node of length m makes a code cheaper. */
  lemma {:induction false} ClipCostLess(f: seq<nat>, v: seq<nat>, r: seq<nat>, m: nat, b: nat)
    requires |f| == |v| && AllOccur(f, r) && m == b + 1 && AtMax(v, r, m) > 0
    ensures CostOf(f, ClipAll(v, b), r) < CostOf(f, v, r)
  {
    var t := r[1..];
    ClipCost(f, v, t, b);
    TimesMono(f[r[0]], Clip(b, v[r[0]]), v[r[0]]);
    if v[r[0]] == m {
      TimesLess(f[r[0]], b, m);
    } else {
      ClipCostLess(f, v, t, m, b);
    }
  }

  lemma {:induction false} NoneAtMax(v: seq<nat>, r: seq<nat>, m: nat)
    requires Below(r, |v|) && AtMax(v, r, m) == 0
    ensures forall c :: 0 <= c < |r| ==> v[r[c]] != m
  {
    if r != [] { NoneAtMax(v, r[1..], m); }
  }

  /** The same lengths, with the least limit that they keep to, at which there are two of them. */
  lemma {:induction false} DeepestTwo(f: seq<nat>, v: seq<nat>, r: seq<nat>, m: nat) returns (l: nat)
    requires Cheapest(f, v, r) && Fits(v, r, m) && AllOccur(f, r) && |r| >= 2
    ensures Fits(v, r, l) && AtMax(v, r, l) >= 2 && l >= 1
    decreases m
  {
    if m == 0 {
      ZeroLengths(v, r);
      assert false;
    }
    if AtMax(v, r, m) >= 2 {
      l := m;
      return;
    }
    var b: nat := m - 1;
    var u := ClipAll(v, b);
    ClipFits(v, r, m, b);
    assert CostOf(f, v, r) <= CostOf(f, u, r);
    if AtMax(v, r, m) == 1 { ClipCostLess(f, v, r, m, b); }
    NoneAtMax(v, r, m);
    SumAgree(Shares(u, b), Shares(v, b), r);
    l := DeepestTwo(f, v, r, b);
  }

  lemma ClipFits(v: seq<nat>, r: seq<nat>, m: nat, b: nat)
    requires Fits(v, r, m) && m == b + 1 && AtMax(v, r, m) < 2
    ensures Fits(ClipAll(v, b), r, b)
  {
    ClipShares(v, r, m, b);
    assert Pow2(m) == 2 * Pow2(b);
  }

  // ----- exchanging the lengths of two nodes -----

  lemma {:induction false} SwapTimesLess(p: nat, q: nat, a: nat, b: nat)
    requires p < q && a < b
    ensures Times(p, b) + Times(q, a) < Times(p, a) + Times(q, b)
    decreases b - a
  {
    if a < b - 1 { SwapTimesLess(p, q, a, b - 1); }
  }

  lemma SwapCostLess(f: seq<nat>, v: seq<nat>, r: seq<nat>, i: nat, j: nat, u: seq<nat>)
    requires |f| == |v| && Below(r, |v|) && Distinct(r) && i < |r| && j < |r| && i != j && r[i] != r[j]
    requires f[r[i]] < f[r[j]] && v[r[i]] < v[r[j]] && u == Swap(v, r[i], r[j])
    ensures CostOf(f, u, r) < CostOf(f, v, r)
  {
    SumExchange(Cost(f, v, |f|), Cost(f, u, |f|), r, i, j);
    SwapTimesLess(f[r[i]], f[r[j]], v[r[i]], v[r[j]]);
  }

  /** A node that comes sooner may have the longer code: the cost and the height stay. */
  lemma SwapTied(f: seq<nat>, d: seq<nat>, v: seq<nat>, r: seq<nat>, m: nat, i: nat, j: nat, h: nat)
    returns (u: seq<nat>)
    requires Cheapest(f, v, r) && Fits(v, r, m) && Distinct(r) && i < |r| && j < |r| && i != j
    requires Sooner(f, d, r[i], r[j]) && v[r[i]] < v[r[j]] && Within(v, d, r, h)
    ensures u == Swap(v, r[i], r[j]) && Fits(u, r, m) && Cheapest(f, u, r) && Within(u, d, r, h)
    ensures CostOf(f, u, r) == CostOf(f, v, r)
  {
    assert r[i] != r[j];
    u := Swap(v, r[i], r[j]);
    SwapBetter(f, v, r, m, i, j);
    if f[r[i]] < f[r[j]] { SwapCostLess(f, v, r, i, j, u); }
  }

  /** Without loss, the first two nodes in the queue have the maximal length. */
  lemma FirstDeepest(f: seq<nat>, d: seq<nat>, v: seq<nat>, r: seq<nat>, m: nat, i: nat, j: nat, h: nat)
    returns (u: seq<nat>, l: nat)
    requires Cheapest(f, v, r) && Fits(v, r, m) && Distinct(r) && AllOccur(f, r) && FirstOf(f, d, r, i, j)
    requires Within(v, d, r, h)
    ensures |u| == |v| && Fits(u, r, l) && CostOf(f, u, r) == CostOf(f, v, r) && Within(u, d, r, h)
    ensures l >= 1 && u[r[i]] == l && u[r[j]] == l
  {
    u := v;
    l := DeepestTwo(f, v, r, m);
    var a, b := TwoAtMax(u, r, l);
    if u[r[i]] != l {
      assert r[b] != r[a] && r[b] != r[i];
      u := SwapTied(f, d, u, r, l, i, a, h);
    }
    if u[r[j]] != l {
      var c := if b != i then b else a;
      assert u[r[c]] == l && c != i && c != j;
      assert r[i] != r[j] && r[i] != r[c];
      u := SwapTied(f, d, u, r, l, j, c, h);
    }
  }

  // ----- merging -----

  /** Merging the first two keeps the lengths the cheapest, and within the height. */
  lemma MergeTied(f: seq<nat>, d: seq<nat>, v: seq<nat>, r: seq<nat>, m: nat, i: nat, j: nat, node: nat, r': seq<nat>,
                  h: nat) returns (v': seq<nat>, l: nat)
    requires Cheapest(f, v, r) && Fits(v, r, m) && Distinct(r) && AllOccur(f, r) && FirstOf(f, d, r, i, j)
    requires Within(v, d, r, h) && node < |f| && node < |d| && node !in r && f[node] == f[r[i]] + f[r[j]]
    requires r[i] < |d| && r[j] < |d| && d[node] == Deeper(d, r[i], r[j]) + 1 && Replaced(r, r', r[i], r[j], node)
    ensures |v'| == |f| && Fits(v', r', l) && CostOf(f, v', r') + f[node] == CostOf(f, v, r) && Within(v', d, r', h)
  {
    var u: seq<nat>;
    u, l := FirstDeepest(f, d, v, r, m, i, j, h);
    v' := u[node := l - 1];
    MergeShares(u, v', r, r', r[i], r[j], node, l);
    MergeCost(f, u, v', r, r', r[i], r[j], node, l);
    MergeWithin(u, v', d, r, r', i, j, node, l, h);
  }

  lemma MergeWithin(u: seq<nat>, v: seq<nat>, d: seq<nat>, r: seq<nat>, r': seq<nat>, i: nat, j: nat, node: nat, l: nat,
                    h: nat)
    requires Within(u, d, r, h) && i < |r| && j < |r| && u[r[i]] == l && u[r[j]] == l && l >= 1
    requires node < |u| && node < |d| && node !in r && v == u[node := l - 1] && Replaced(r, r', r[i], r[j], node)
    requires d[node] == Deeper(d, r[i], r[j]) + 1
    ensures Within(v, d, r', h)
  {
    forall c | 0 <= c < |r'| ensures r'[c] < |v| && r'[c] < |d| && d[r'[c]] + v[r'[c]] <= h {
      ReplacedFrom(r, r', r[i], r[j], node, r'[c]);
      if r'[c] != node {
        var b :| 0 <= b < |r| && r[b] == r'[c];
      }
    }
  }

  /** The depth of the next node to come. */
  lemma {:induction false} DeepAt(s: seq<nat>, d: seq<nat>, elems: nat, k: nat, j: nat, p: nat)
    requires Deep(s, d, elems, k) && |s| == 2 * k && j < k && p == 2 * (k - 1 - j)
    ensures p + 1 < |s| && s[p] < |d| && s[p + 1] < |d| && elems + j < |d|
    ensures d[elems + j] == Deeper(d, s[p], s[p + 1]) + 1
    decreases k
  {
    if j < k - 1 { DeepAt(s[2..], d, elems, k - 1, j, p - 2); }
  }

  /** The next pair merged are the first two roots in the queue. */
  lemma FirstPair(ord: seq<nat>, dad: seq<nat>, f: seq<nat>, d: seq<nat>, elems: nat, k: nat, leaves: seq<nat>, j: nat,
                  p: nat, r: seq<nat>, i: nat, c: nat)
    requires TreeOrder(ord, dad, f, elems, k, leaves) && Roots(ord, r, elems, k, leaves, j, p) && j < k
    requires TieTree(ord, f, d, elems, k) && i < |r| && c < |r| && r[i] == ord[p - 1] && r[c] == ord[p - 2]
    ensures FirstOf(f, d, r, i, c) && AllOccur(f, r)
  {
    assert Opened(TieSeal, 0);
    RootsDistinct(ord, dad, f, elems, k, leaves, j, p, r);
    forall q | 0 <= q < |r|
      ensures r[q] < |f| && f[r[q]] > 0 && Sooner(f, d, r[i], r[q]) && (q != i ==> Sooner(f, d, r[c], r[q]))
    {
      assert r[q] in ord[..p];
      var t :| 0 <= t < p && ord[t] == r[q];
      assert t < p - 1 ==> Sooner(f, d, ord[p - 1], ord[t]);
      assert t < p - 2 ==> Sooner(f, d, ord[p - 2], ord[t]);
    }
    assert r[i] != r[c] by { assert Distinct(ord); }
  }

  lemma OneTied(ord: seq<nat>, dad: seq<nat>, f: seq<nat>, d: seq<nat>, elems: nat, k: nat, leaves: seq<nat>, j: nat,
                p: nat, r: seq<nat>, v: seq<nat>, m: nat, h: nat, node: nat, j': nat, p': nat)
    returns (r': seq<nat>, v': seq<nat>, l: nat)
    requires TreeOrder(ord, dad, f, elems, k, leaves) && Roots(ord, r, elems, k, leaves, j, p) && j < k
    requires TieTree(ord, f, d, elems, k) && Cheapest(f, v, r) && Fits(v, r, m) && Within(v, d, r, h)
    requires elems + k <= |f| && node == elems + j && j' == j + 1 && p == p' + 2
    ensures Roots(ord, r', elems, k, leaves, j', p') && |v'| == |f| && Fits(v', r', l) && Within(v', d, r', h)
    ensures CostOf(f, v', r') + f[node] == CostOf(f, v, r)
  {
    var i, c := NextPair(ord, dad, f, elems, k, leaves, j, p, r);
    r' := ReplaceTwo(r, i, c, node);
    RootsDistinct(ord, dad, f, elems, k, leaves, j, p, r);
    FirstPair(ord, dad, f, d, elems, k, leaves, j, p, r, i, c);
    NextDepth(ord, f, d, elems, k, j, p, node);
    v', l := MergeTied(f, d, v, r, m, i, c, node, r', h);
    RootsStep(ord, r, elems, k, leaves, j, p, r', node, j', p');
  }

  lemma NextDepth(ord: seq<nat>, f: seq<nat>, d: seq<nat>, elems: nat, k: nat, j: nat, p: nat, node: nat)
    requires TieTree(ord, f, d, elems, k) && j < k && p == 2 * (k - j) + 1 && node == elems + j && p <= |ord|
    ensures ord[p - 1] < |d| && ord[p - 2] < |d| && node < |d| && d[node] == Deeper(d, ord[p - 1], ord[p - 2]) + 1
  {
    assert Opened(TieSeal, 0);
    DeepAt(ord[1..], d, elems, k, j, p - 3);
    assert ord[1..][p - 3] == ord[p - 2] && ord[1..][p - 2] == ord[p - 1];
  }

  /** Lengths that cost no more than the tree are the cheapest. */
  lemma CheapestAt(ord: seq<nat>, dad: seq<nat>, f: seq<nat>, elems: nat, k: nat, leaves: seq<nat>, j: nat, p: nat,
                   r: seq<nat>, v: seq<nat>)
    requires TreeOrder(ord, dad, f, elems, k, leaves) && Roots(ord, r, elems, k, leaves, j, p) && elems + k <= |f|
    requires |v| == |f| && Below(r, |f|)
    requires CostOf(f, v, r) + Sum(f, Internals(elems, j)) == Sum(f, Internals(elems, k))
    ensures Cheapest(f, v, r)
  {
    forall u, b | |u| == |f| && Fits(u, r, b) ensures CostOf(f, v, r) <= CostOf(f, u, r) {
      LowerBound(ord, dad, f, elems, k, leaves, j, p, r, u, b);
    }
  }

  /** Lengths v for the roots r after j merges that cost no more than the tree, and keep it within height h. */
  ghost predicate Stage(ord: seq<nat>, f: seq<nat>, d: seq<nat>, elems: nat, k: nat, leaves: seq<nat>, j: nat, p: nat,
                        r: seq<nat>, v: seq<nat>, m: nat, h: nat)
  {
    forall z: int {:trigger Opened(LoopSeal, z)} :: Sealed(z) ==>
      && Roots(ord, r, elems, k, leaves, j, p) && elems + k <= |f| == |v| && Fits(v, r, m) && Within(v, d, r, h)
      && CostOf(f, v, r) + Sum(f, Internals(elems, j)) == Sum(f, Internals(elems, k))
  }

  lemma NextStage(ord: seq<nat>, dad: seq<nat>, f: seq<nat>, d: seq<nat>, elems: nat, k: nat, leaves: seq<nat>, j: nat,
                  p: nat, r: seq<nat>, v: seq<nat>, m: nat, h: nat, j': nat, p': nat)
    returns (r': seq<nat>, v': seq<nat>, l: nat)
    requires TreeOrder(ord, dad, f, elems, k, leaves) && TieTree(ord, f, d, elems, k)
    requires Stage(ord, f, d, elems, k, leaves, j, p, r, v, m, h) && j < k && j' == j + 1 && p == p' + 2
    ensures Stage(ord, f, d, elems, k, leaves, j', p', r', v', l, h)
  {
    var node := elems + j;
    assert Opened(LoopSeal, 0);
    CheapestAt(ord, dad, f, elems, k, leaves, j, p, r, v);
    r', v', l := OneTied(ord, dad, f, d, elems, k, leaves, j, p, r, v, m, h, node, j', p');
    InternalsSum(f, elems, j, node, j');
    assert CostOf(f, v', r') + Sum(f, Internals(elems, j')) == Sum(f, Internals(elems, k));
  }

  lemma LastStage(ord: seq<nat>, dad: seq<nat>, f: seq<nat>, d: seq<nat>, elems: nat, k: nat, leaves: seq<nat>, p: nat,
                  r: seq<nat>, v: seq<nat>, m: nat, h: nat)
    requires TreeOrder(ord, dad, f, elems, k, leaves) && Stage(ord, f, d, elems, k, leaves, k, p, r, v, m, h)
    ensures elems + k <= |d| && d[elems + k - 1] <= h
  {
    assert Opened(LoopSeal, 0);
    var root := elems + k - 1;
    assert ord[..p][0] == root;
    RootListed(ord, dad, f, elems, k, leaves, k, p, r, root);
    var c :| 0 <= c < |r| && r[c] == root;
  }

  /** The tree is no higher than any that hangs up the roots after j merges at cheapest lengths. */
  lemma {:induction false} RootWithin(ord: seq<nat>, dad: seq<nat>, f: seq<nat>, d: seq<nat>, elems: nat, k: nat,
                                      leaves: seq<nat>, j: nat, p: nat, r: seq<nat>, v: seq<nat>, m: nat, h: nat)
    requires TreeOrder(ord, dad, f, elems, k, leaves) == true && TieTree(ord, f, d, elems, k) && j <= k
    requires Stage(ord, f, d, elems, k, leaves, j, p, r, v, m, h) && p == 2 * (k - j) + 1
    ensures elems + k <= |d| && d[elems + k - 1] <= h
    decreases k - j
  {
    if j < k {
      var j', p' := j + 1, p - 2;
      var r', v', l := NextStage(ord, dad, f, d, elems, k, leaves, j, p, r, v, m, h, j', p');
      RootWithin(ord, dad, f, d, elems, k, leaves, j', p', r', v', l, h);
    } else {
      LastStage(ord, dad, f, d, elems, k, leaves, p, r, v, m, h);
    }
  }

  /** Of all cheapest lengths, those of the tree have the least maximum. */
  lemma LeastHeight(ord: seq<nat>, dad: seq<nat>, f: seq<nat>, d: seq<nat>, elems: nat, k: nat, v: seq<nat>, m: nat)
    requires elems <= |f| && TreeOrder(ord, dad, f, elems, k, Leaves(f, elems)) && TieTree(ord, f, d, elems, k)
    requires |v| == |f| && Fits(v, Leaves(f, elems), m) && elems + k <= |f|
    requires CostOf(f, v, Leaves(f, elems)) == Sum(f, Internals(elems, k))
    ensures elems + k <= |d| && d[elems + k - 1] <= m
  {
    var leaves, p := Leaves(f, elems), 2 * k + 1;
    assert ord[p..] == [];
    var none: multiset<nat>, nodes: seq<nat> := multiset{}, Internals(elems, 0);
    assert multiset(leaves) + none == multiset(leaves) && multiset(nodes) == none;
    LeavesWithin(ord, dad, f, d, elems, k, leaves, v, m);
    assert Roots(ord, leaves, elems, k, leaves, 0, p) && Sum(f, Internals(elems, 0)) == 0;
    RootWithin(ord, dad, f, d, elems, k, leaves, 0, p, leaves, v, m, m);
  }

  lemma LeavesWithin(ord: seq<nat>, dad: seq<nat>, f: seq<nat>, d: seq<nat>, elems: nat, k: nat, leaves: seq<nat>,
                     v: seq<nat>, m: nat)
    requires TreeOrder(ord, dad, f, elems, k, leaves) && TieTree(ord, f, d, elems, k) && Fits(v, leaves, m)
    ensures Within(v, d, leaves, m)
  {
    assert Opened(TieSeal, 0);
    forall c | 0 <= c < |leaves| ensures leaves[c] < |d| && d[leaves[c]] == 0 {
      var i := InOrder(ord, dad, f, elems, k, leaves, leaves[c]);
    }
  }

  // ----- the height of the tree itself -----

  /** A node lies no deeper than the height of the tree, less its own depth. */
  lemma {:induction false} LevelWithin(ord: seq<nat>, dad: seq<nat>, f: seq<nat>, d: seq<nat>, elems: nat, k: nat,
                                       leaves: seq<nat>, m: nat, l: seq<nat>, q: nat)
    requires TreeOrder(ord, dad, f, elems, k, leaves) && TieTree(ord, f, d, elems, k) && q < k
    requires elems + k <= |l| == |f| && Levels(l, ord[1..], elems, k, m) && l[ord[0]] == 0
    ensures elems + k <= |d| && l[elems + q] + d[elems + q] <= d[elems + k - 1]
    decreases k - q
  {
    NextDepth(ord, f, d, elems, k, k - 1, 3, elems + k - 1);
    if q < k - 1 {
      var b: nat := 2 * (k - 1 - q);
      var q', b' := FatherOf(ord, dad, f, elems, k, leaves, m, l, q, b);
      LevelWithin(ord, dad, f, d, elems, k, leaves, m, l, q');
      NextDepth(ord, f, d, elems, k, q', 2 * (k - q') + 1, elems + q');
    }
  }

  /** A tree that is no higher than m is not cut off. */
  lemma NotCut(ord: seq<nat>, dad: seq<nat>, f: seq<nat>, d: seq<nat>, elems: nat, k: nat, leaves: seq<nat>, m: nat)
    requires TreeOrder(ord, dad, f, elems, k, leaves) && TieTree(ord, f, d, elems, k)
    requires elems + k <= |d| && d[elems + k - 1] <= m
    ensures Below(ord, |dad|) && Below(ord[1..], |dad|) && Overflow(dad[ord[0] := 0], ord[1..], m) == 0
  {
    var l := TreeLevels(ord, dad, f, elems, k, leaves, m);
    if Clipped(l, elems, k, m) > 0 {
      var q := SomeClipped(l, elems, k, m);
      LevelWithin(ord, dad, f, d, elems, k, leaves, m, l, q);
      NextDepth(ord, f, d, elems, k, q, 2 * (k - q) + 1, elems + q);
    }
  }

  // ----- the theorem -----

  /** Some cheapest lengths for the frequencies f keep to the limit m. */
  ghost predicate LimitHarmless(f: seq<nat>, elems: nat, m: nat)
    requires elems <= |f|
  {
    exists v :: Fits(v, Leaves(f, elems), m) && Cheapest(f, v, Leaves(f, elems))
  }

  /** What the tree costs when nothing is cut off. */
  lemma TreeFits(ord: seq<nat>, dad: seq<nat>, f: seq<nat>, elems: nat, k: nat, m: nat)
    requires elems <= |f| && TreeOrder(ord, dad, f, elems, k, Leaves(f, elems)) && m >= 1
    requires Below(ord, |dad|) && Below(ord[1..], |dad|) && Overflow(dad[ord[0] := 0], ord[1..], m) == 0
    ensures var l := TreeLens(ord, dad, m);
            |l| == |f| && Fits(l, Leaves(f, elems), m) && CostOf(f, l, Leaves(f, elems)) == Sum(f, Internals(elems, k))
  {
    var leaves, l := Leaves(f, elems), TreeLens(ord, dad, m);
    TreeHolds(ord, dad, f, elems, k, leaves);
    TreeKraft(ord, dad, f, elems, k, leaves, m);
    TreeCost(ord, dad, f, elems, k, leaves, m);
    var l1 := TreeLevels(ord, dad, f, elems, k, leaves, m);
    forall i | 0 <= i < |leaves|
      ensures l[leaves[i]] <= m && Products(f, l)[leaves[i]] == Cost(f, l, |f|)[leaves[i]]
    {
      TimesIs(f[leaves[i]], l[leaves[i]]);
      LensInRange(ord, dad, f, elems, k, leaves, m, l, leaves[i]);
    }
    SumAgree(Products(f, l), Cost(f, l, |f|), leaves);
  }

  /** Code lengths are cut off exactly when no cheapest ones keep to the limit. */
  lemma CutIff(ord: seq<nat>, dad: seq<nat>, f: seq<nat>, d: seq<nat>, elems: nat, k: nat, m: nat)
    requires elems <= |f| && TreeOrder(ord, dad, f, elems, k, Leaves(f, elems)) && TieTree(ord, f, d, elems, k)
    requires m >= 1
    ensures Below(ord, |dad|) && Below(ord[1..], |dad|)
    ensures Overflow(dad[ord[0] := 0], ord[1..], m) == 0 <==> LimitHarmless(f, elems, m)
  {
    var leaves := Leaves(f, elems);
    TreeHolds(ord, dad, f, elems, k, leaves);
    if Overflow(dad[ord[0] := 0], ord[1..], m) == 0 {
      TreeFits(ord, dad, f, elems, k, m);
      TreeCheapest(ord, dad, f, elems, k, leaves, TreeLens(ord, dad, m));
    }
    if v :| Fits(v, leaves, m) && Cheapest(f, v, leaves) {
      CheapestCost(ord, dad, f, d, elems, k, v, m);
      LeastHeight(ord, dad, f, d, elems, k, v, m);
      NotCut(ord, dad, f, d, elems, k, leaves, m);
    }
  }

  lemma TreeCheapest(ord: seq<nat>, dad: seq<nat>, f: seq<nat>, elems: nat, k: nat, leaves: seq<nat>, l: seq<nat>)
    requires TreeOrder(ord, dad, f, elems, k, leaves) && elems + k <= |f| == |l| && Below(leaves, |f|)
    requires CostOf(f, l, leaves) == Sum(f, Internals(elems, k))
    ensures Cheapest(f, l, leaves)
  {
    forall u, b | |u| == |f| && Fits(u, leaves, b) ensures CostOf(f, l, leaves) <= CostOf(f, u, leaves) {
      TreeBest(ord, dad, f, elems, k, leaves, u, b);
    }
  }

  /** Cheapest lengths cost what the tree costs: with a limit as high as the tree itself, nothing is cut off. */
  lemma CheapestCost(ord: seq<nat>, dad: seq<nat>, f: seq<nat>, d: seq<nat>, elems: nat, k: nat, v: seq<nat>, m: nat)
    requires elems <= |f| && TreeOrder(ord, dad, f, elems, k, Leaves(f, elems)) && TieTree(ord, f, d, elems, k)
    requires Cheapest(f, v, Leaves(f, elems)) && Fits(v, Leaves(f, elems), m)
    ensures elems + k <= |f| && CostOf(f, v, Leaves(f, elems)) == Sum(f, Internals(elems, k))
  {
    var leaves := Leaves(f, elems);
    TreeBest(ord, dad, f, elems, k, leaves, v, m);
    NextDepth(ord, f, d, elems, k, k - 1, 3, elems + k - 1);
    var high := d[elems + k - 1];
    NotCut(ord, dad, f, d, elems, k, leaves, high);
    TreeFits(ord, dad, f, elems, k, high);
    assert CostOf(f, v, leaves) <= CostOf(f, TreeLens(ord, dad, high), leaves);
  }

  // ----- frequencies of other nodes do not matter -----

  ghost function Resized(v: seq<nat>, n: nat, elems: nat): (w: seq<nat>)
    ensures |w| == n
  {
    seq(n, x requires 0 <= x < n => if x < elems && x < |v| then v[x] else 0)
  }

  lemma ResizedSame(f: seq<nat>, g: seq<nat>, v: seq<nat>, leaves: seq<nat>, elems: nat, m: nat)
    requires elems <= |f| && elems <= |g| && f[..elems] == g[..elems] && |v| == |f| && Below(leaves, elems)
    ensures var w := Resized(v, |g|, elems);
            (Fits(v, leaves, m) ==> Fits(w, leaves, m)) && CostOf(f, v, leaves) == CostOf(g, w, leaves)
  {
    var w := Resized(v, |g|, elems);
    forall i | 0 <= i < |leaves| ensures f[leaves[i]] == g[leaves[i]] && v[leaves[i]] == w[leaves[i]] {
      assert f[..elems][leaves[i]] == g[..elems][leaves[i]];
    }
    SumAgree(Shares(v, m), Shares(w, m), leaves);
    SumAgree(Cost(f, v, |f|), Cost(g, w, |g|), leaves);
  }

  lemma HarmlessMoves(f: seq<nat>, g: seq<nat>, elems: nat, m: nat)
    requires elems <= |f| && elems <= |g| && f[..elems] == g[..elems] && LimitHarmless(f, elems, m)
    ensures LimitHarmless(g, elems, m)
  {
    var leaves := Leaves(f, elems);
    LeavesAgree(f, g, elems);
    LeavesOccur(f, elems);
    var v :| Fits(v, leaves, m) && Cheapest(f, v, leaves);
    CheapestMoves(f, g, leaves, elems, v, m);
  }

  lemma CheapestMoves(f: seq<nat>, g: seq<nat>, leaves: seq<nat>, elems: nat, v: seq<nat>, m: nat)
    requires elems <= |f| && elems <= |g| && f[..elems] == g[..elems] && Below(leaves, elems)
    requires Fits(v, leaves, m) && Cheapest(f, v, leaves)
    ensures Fits(Resized(v, |g|, elems), leaves, m) && Cheapest(g, Resized(v, |g|, elems), leaves)
  {
    ResizedSame(f, g, v, leaves, elems, m);
    var w := Resized(v, |g|, elems);
    forall u, b | |u| == |g| && Fits(u, leaves, b) ensures CostOf(g, w, leaves) <= CostOf(g, u, leaves) {
      ResizedSame(g, f, u, leaves, elems, b);
      assert Fits(Resized(u, |f|, elems), leaves, b);
    }
  }

  lemma HarmlessAgree(f: seq<nat>, g: seq<nat>, elems: nat, m: nat)
    requires elems <= |f| && elems <= |g| && f[..elems] == g[..elems]
    ensures LimitHarmless(f, elems, m) == LimitHarmless(g, elems, m)
  {
    if LimitHarmless(f, elems, m) { HarmlessMoves(f, g, elems, m); }
    if LimitHarmless(g, elems, m) { HarmlessMoves(g, f, elems, m); }
  }

  /** What build_tree promises of its code lengths: they are the cheapest, unless no cheapest ones keep to the limit m.
  When the frequencies add up to less than Fib(m + 3), some do. */
  ghost predicate BestCode(lens: seq<nat>, f: seq<nat>, elems: nat, m: nat) {
    forall z: int {:trigger Opened(TreeSeal, z)} :: Sealed(z) ==>
    && elems <= |f|
    && (if LimitHarmless(f, elems, m) then Optimal(lens, f, elems) else FrequentShort(lens, f, elems))
    && (Weighted(f, Ones(elems), elems) < Fib(m + 3) ==> LimitHarmless(f, elems, m))
  }

  lemma BestOf(ord: seq<nat>, dad: seq<nat>, g: seq<nat>, d: seq<nat>, elems: nat, k: nat, f: seq<nat>, m: nat,
               lens: seq<nat>, clipped: nat)
    requires elems <= |g| && TreeOrder(ord, dad, g, elems, k, Leaves(g, elems)) && TieTree(ord, g, d, elems, k)
    requires m >= 1
    requires elems <= |f| && g[..elems] == f[..elems] && Below(ord, |dad|) && Below(ord[1..], |dad|)
    requires clipped == Overflow(dad[ord[0] := 0], ord[1..], m)
    requires if clipped == 0 then Optimal(lens, f, elems) else FrequentShort(lens, f, elems)
    ensures BestCode(lens, f, elems, m)
  {
    CutIff(ord, dad, g, d, elems, k, m);
    HarmlessAgree(g, f, elems, m);
    WeightedSame(g, f, Ones(elems), elems);
    if Weighted(f, Ones(elems), elems) < Fib(m + 3) { ShallowTree(ord, dad, g, elems, k, m); }
  }
}
