/** The shape of the tree that `build_tree` leaves behind in heap[heap_max..]
and dad: the nodes in order of decreasing frequency, fathers before sons.

Internal node elems+i is the i-th one created. The two nodes merged last stand
first, so in the list without the root, of 2k nodes, the first two are the sons
of node elems+k-1, the next two the sons of elems+k-2, and so on. */
module HuffmanTree {
  import opened Bits
  import opened Sums

  /** d is the father of m and n. */
  ghost predicate Father(m: nat, n: nat, dad: seq<nat>, f: seq<nat>, d: nat) {
    && m < d && n < d && d < |f| && |f| == |dad|
    && dad[m] == d && dad[n] == d && f[d] == f[m] + f[n]
  }

  /** ord lists k pairs of brothers, the latest pair first. */
  ghost predicate Merged(ord: seq<nat>, dad: seq<nat>, f: seq<nat>, elems: nat, k: nat)
    decreases k
  {
    if k == 0 then ord == []
    else
      && |ord| == 2 * k && Father(ord[0], ord[1], dad, f, elems + k - 1)
      && Merged(ord[2..], dad, f, elems, k - 1)
  }

  /** The internal nodes, latest first. */
  function Internals(elems: nat, k: nat): (r: seq<nat>)
    ensures |r| == k && forall i :: 0 <= i < k ==> r[i] == elems + k - 1 - i
  {
    if k == 0 then [] else [elems + k - 1] + Internals(elems, k - 1)
  }

  ghost predicate Distinct(s: seq<nat>) {
    forall i, j :: 0 <= i < j < |s| ==> s[i] != s[j]
  }

  ghost predicate Decreasing(s: seq<nat>, f: seq<nat>) {
    Below(s, |f|) && forall i, j :: 0 <= i < j < |s| ==> f[s[i]] >= f[s[j]]
  }

  /** A finished tree: its root, then the pairs; every leaf and every internal node once. */
  ghost predicate TreeOrder(ord: seq<nat>, dad: seq<nat>, f: seq<nat>, elems: nat, k: nat, leaves: seq<nat>) {
    && k >= 1 && |ord| == 2 * k + 1 && ord[0] == elems + k - 1
    && Merged(ord[1..], dad, f, elems, k)
    && Distinct(ord) && Decreasing(ord, f)
    && Below(leaves, elems) && multiset(ord) == multiset(leaves) + multiset(Internals(elems, k))
  }

  lemma {:induction false} MergedBelow(ord: seq<nat>, dad: seq<nat>, f: seq<nat>, elems: nat, k: nat, i: nat)
    requires Merged(ord, dad, f, elems, k) && i < |ord|
    ensures ord[i] < elems + k - 1 < |f| && |f| == |dad|
    decreases k
  {
    if i >= 2 { MergedBelow(ord[2..], dad, f, elems, k - 1, i - 2); }
  }

  /** Merged looks only at the dads and frequencies of the nodes listed and of the internal nodes. */
  lemma {:induction false} MergedFrame(ord: seq<nat>, dad: seq<nat>, f: seq<nat>, dad': seq<nat>, f': seq<nat>,
                                       elems: nat, k: nat)
    requires Merged(ord, dad, f, elems, k)
    requires |dad'| == |dad| && |f'| == |f|
    requires forall i :: 0 <= i < |ord| ==> ord[i] < |dad| ==> dad'[ord[i]] == dad[ord[i]]
    requires forall x :: 0 <= x < elems + k && x < |f| ==> f'[x] == f[x]
    ensures Merged(ord, dad', f', elems, k)
    decreases k
  {
    if k > 0 { MergedFrame(ord[2..], dad, f, dad', f', elems, k - 1); }
  }

  // ----- the first pass of gen_bitlen, on the overlaid dad/len field -----

  function Clip(m: nat, x: nat): nat {
    if x > m then m else x
  }

  /** The field u after the nodes s, in this order, have had their dad replaced by their length. */
  ghost function Overlay(u: seq<nat>, s: seq<nat>, m: nat): (r: seq<nat>)
    requires Below(s, |u|)
    ensures |r| == |u|
    decreases |s|
  {
    if s == [] then u
    else
      var d := u[s[0]];
      Overlay(u[s[0] := if d < |u| then Clip(m, u[d] + 1) else 0], s[1..], m)
  }

  /** How many of those nodes were cut off at length m. */
  ghost function Overflow(u: seq<nat>, s: seq<nat>, m: nat): nat
    requires Below(s, |u|)
    decreases |s|
  {
    if s == [] then 0
    else
      var d := u[s[0]];
      (if d < |u| && u[d] + 1 > m then 1 else 0)
      + Overflow(u[s[0] := if d < |u| then Clip(m, u[d] + 1) else 0], s[1..], m)
  }

  lemma {:induction false} OverlayKeeps(u: seq<nat>, s: seq<nat>, m: nat, x: nat)
    requires Below(s, |u|) && x < |u| && x !in s
    ensures Overlay(u, s, m)[x] == u[x]
    decreases |s|
  {
    if s != [] {
      var d := u[s[0]];
      OverlayKeeps(u[s[0] := if d < |u| then Clip(m, u[d] + 1) else 0], s[1..], m, x);
    }
  }

  /** Both sons lie one level below their father, or at level m. */
  ghost predicate Levels(l: seq<nat>, ord: seq<nat>, elems: nat, k: nat, m: nat)
    decreases k
  {
    k == 0 ||
    (&& |ord| == 2 * k && ord[0] < |l| && ord[1] < |l| && elems + k - 1 < |l|
     && l[ord[0]] == Clip(m, l[elems + k - 1] + 1) && l[ord[1]] == l[ord[0]]
     && Levels(l, ord[2..], elems, k - 1, m))
  }

  /** Internal nodes at the maximal level. */
  ghost function Clipped(l: seq<nat>, elems: nat, k: nat, m: nat): nat
    requires elems + k <= |l|
  {
    if k == 0 then 0 else (if l[elems + k - 1] >= m then 1 else 0) + Clipped(l, elems, k - 1, m)
  }

  /** u holds the dad of every node listed. */
  ghost predicate HoldsDads(u: seq<nat>, dad: seq<nat>, s: seq<nat>) {
    |u| == |dad| && Below(s, |u|) && forall i :: 0 <= i < |s| ==> u[s[i]] == dad[s[i]]
  }

  lemma OverlayTwo(u: seq<nat>, dad: seq<nat>, f: seq<nat>, ord: seq<nat>, elems: nat, k: nat, m: nat)
    returns (u2: seq<nat>)
    requires k > 0 && Merged(ord, dad, f, elems, k) && Distinct(ord) && HoldsDads(u, dad, ord)
    ensures |u2| == |u| && HoldsDads(u2, dad, ord[2..])
    ensures elems + k - 1 < |u|
    ensures u2 == u[ord[0] := Clip(m, u[elems + k - 1] + 1)][ord[1] := Clip(m, u[elems + k - 1] + 1)]
    ensures Overlay(u, ord, m) == Overlay(u2, ord[2..], m)
    ensures Overflow(u, ord, m) == Overflow(u2, ord[2..], m) + if u[elems + k - 1] + 1 > m then 2 else 0
  {
    var d := elems + k - 1;
    var v := Clip(m, u[d] + 1);
    var u1 := u[ord[0] := v];
    u2 := u1[ord[1] := v];
    assert ord[1..][0] == ord[1] && ord[1..][1..] == ord[2..];
    assert u[ord[0]] == d && u1[ord[1]] == d && u1[d] == u[d];
    assert Overlay(u, ord, m) == Overlay(u1, ord[1..], m);
    assert Overlay(u1, ord[1..], m) == Overlay(u2, ord[2..], m);
    forall i | 0 <= i < |ord[2..]| ensures u2[ord[2..][i]] == dad[ord[2..][i]] {
      assert ord[2..][i] == ord[i + 2];
    }
  }

  /** The lengths left in the field are the levels of the nodes. */
  lemma {:induction false} OverlayLevels(u: seq<nat>, dad: seq<nat>, f: seq<nat>, ord: seq<nat>, elems: nat, k: nat,
                                         m: nat)
    requires Merged(ord, dad, f, elems, k) && Distinct(ord) && HoldsDads(u, dad, ord)
    requires elems + k <= |u|
    ensures Levels(Overlay(u, ord, m), ord, elems, k, m)
    ensures k > 0 ==> Overlay(u, ord, m)[elems + k - 1] == u[elems + k - 1]
    decreases k
  {
    if k > 0 {
      var d := elems + k - 1;
      var u2 := OverlayTwo(u, dad, f, ord, elems, k, m);
      var rest := ord[2..];
      OverlayLevels(u2, dad, f, rest, elems, k - 1, m);
      NotLater(ord, dad, f, elems, k);
      OverlayKeeps(u2, rest, m, ord[0]);
      OverlayKeeps(u2, rest, m, ord[1]);
      OverlayKeeps(u2, rest, m, d);
    }
  }

  lemma NotLater(ord: seq<nat>, dad: seq<nat>, f: seq<nat>, elems: nat, k: nat)
    requires k > 0 && Merged(ord, dad, f, elems, k) && Distinct(ord)
    ensures ord[0] !in ord[2..] && ord[1] !in ord[2..] && elems + k - 1 !in ord[2..]
    ensures elems + k - 1 != ord[0] && elems + k - 1 != ord[1]
  {
    forall i | 0 <= i < |ord[2..]| ensures ord[2..][i] != ord[0] && ord[2..][i] != ord[1]
        && ord[2..][i] != elems + k - 1 {
      assert ord[2..][i] == ord[i + 2];
      MergedBelow(ord, dad, f, elems, k, i + 2);
    }
  }

  lemma {:induction false} OverflowClipped(u: seq<nat>, dad: seq<nat>, f: seq<nat>, ord: seq<nat>, elems: nat, k: nat,
                                           m: nat)
    requires Merged(ord, dad, f, elems, k) && Distinct(ord) && HoldsDads(u, dad, ord)
    requires elems + k <= |u|
    ensures Overflow(u, ord, m) == 2 * Clipped(Overlay(u, ord, m), elems, k, m)
    decreases k
  {
    if k > 0 {
      var u2 := OverlayTwo(u, dad, f, ord, elems, k, m);
      OverlayLevels(u, dad, f, ord, elems, k, m);
      OverflowClipped(u2, dad, f, ord[2..], elems, k - 1, m);
    }
  }

  // ----- counting every node twice: once as a son, once as a father -----

  /** 2^(m - length), the share of the code space below each node. */
  ghost function Shares(l: seq<nat>, m: nat): (w: seq<nat>)
    ensures |w| == |l|
  {
    seq(|l|, x requires 0 <= x < |l| => if l[x] <= m then Pow2(m - l[x]) else 0)
  }

  ghost function Products(f: seq<nat>, l: seq<nat>): (w: seq<nat>)
    requires |f| == |l|
    ensures |w| == |l|
  {
    seq(|l|, x requires 0 <= x < |l| => f[x] * l[x])
  }

  lemma {:induction false} LevelsShares(l: seq<nat>, ord: seq<nat>, elems: nat, k: nat, m: nat)
    requires Levels(l, ord, elems, k, m) && Below(ord, |l|) && elems + k <= |l| && |ord| == 2 * k
    requires forall x :: elems <= x < elems + k ==> l[x] <= m
    ensures Sum(Shares(l, m), ord) == Sum(Shares(l, m), Internals(elems, k)) + Clipped(l, elems, k, m)
    decreases k
  {
    if k > 0 {
      var w, d := Shares(l, m), elems + k - 1;
      LevelsShares(l, ord[2..], elems, k - 1, m);
      SumTwo(w, ord);
      assert Internals(elems, k)[1..] == Internals(elems, k - 1);
      PairShare(l, m, ord[0], ord[1], d);
    }
  }

  lemma SumTwo(w: seq<nat>, s: seq<nat>)
    requires |s| >= 2 && Below(s, |w|)
    ensures Below(s[2..], |w|) && Sum(w, s) == w[s[0]] + w[s[1]] + Sum(w, s[2..])
  {
    assert s[1..][1..] == s[2..] && s[1..][0] == s[1];
  }

  /** Two sons share what their father has, or twice the least share when they are cut off. */
  lemma PairShare(l: seq<nat>, m: nat, a: nat, b: nat, d: nat)
    requires a < |l| && b < |l| && d < |l| && l[d] <= m && l[a] == Clip(m, l[d] + 1) && l[b] == l[a]
    ensures var w := Shares(l, m); w[a] + w[b] == w[d] + if l[d] >= m then 1 else 0
  {
    if l[d] < m {
      assert Pow2(m - l[d]) == 2 * Pow2(m - l[a]);
    }
  }

  lemma Distribute(a: nat, b: nat, l: nat)
    ensures a * (l + 1) + b * (l + 1) == (a + b) * l + (a + b)
  {
  }

  lemma {:induction false} LevelsCost(l: seq<nat>, ord: seq<nat>, dad: seq<nat>, f: seq<nat>, elems: nat, k: nat,
                                      m: nat)
    requires Merged(ord, dad, f, elems, k) && Levels(l, ord, elems, k, m)
    requires |f| == |l| && Below(ord, |l|) && elems + k <= |l|
    requires forall x :: elems <= x < elems + k ==> l[x] < m
    ensures Sum(Products(f, l), ord) == Sum(Products(f, l), Internals(elems, k)) + Sum(f, Internals(elems, k))
    decreases k
  {
    if k > 0 {
      var w, d := Products(f, l), elems + k - 1;
      LevelsCost(l, ord[2..], dad, f, elems, k - 1, m);
      SumTwo(w, ord);
      assert Internals(elems, k)[1..] == Internals(elems, k - 1);
      Distribute(f[ord[0]], f[ord[1]], l[d]);
      assert w[ord[0]] + w[ord[1]] == w[d] + f[d];
    }
  }

  /** The lengths of a finished tree. */
  ghost function TreeLens(ord: seq<nat>, dad: seq<nat>, m: nat): (l: seq<nat>)
    requires ord != [] && Below(ord, |dad|)
    ensures |l| == |dad|
  {
    Overlay(dad[ord[0] := 0], ord[1..], m)
  }

  lemma TreeHolds(ord: seq<nat>, dad: seq<nat>, f: seq<nat>, elems: nat, k: nat, leaves: seq<nat>)
    requires TreeOrder(ord, dad, f, elems, k, leaves)
    ensures |f| == |dad| && elems + k <= |dad| && Below(ord, |dad|)
    ensures Distinct(ord[1..]) && HoldsDads(dad[ord[0] := 0], dad, ord[1..])
    ensures Below(ord[1..], |dad|)
  {
    assert Father(ord[1..][0], ord[1..][1], dad, f, elems + k - 1);
    forall i | 0 <= i < |ord[1..]| ensures ord[1..][i] != ord[0] { assert ord[1..][i] == ord[i + 1]; }
  }

  lemma TreeLevels(ord: seq<nat>, dad: seq<nat>, f: seq<nat>, elems: nat, k: nat, leaves: seq<nat>, m: nat)
    returns (l: seq<nat>)
    requires TreeOrder(ord, dad, f, elems, k, leaves)
    ensures Below(ord, |dad|) && l == TreeLens(ord, dad, m) && elems + k <= |l| && |f| == |l|
    ensures Levels(l, ord[1..], elems, k, m) && l[ord[0]] == 0
    ensures Below(ord[1..], |dad|) && Overflow(dad[ord[0] := 0], ord[1..], m) == 2 * Clipped(l, elems, k, m)
  {
    TreeHolds(ord, dad, f, elems, k, leaves);
    var u := dad[ord[0] := 0];
    l := TreeLens(ord, dad, m);
    OverlayLevels(u, dad, f, ord[1..], elems, k, m);
    OverflowClipped(u, dad, f, ord[1..], elems, k, m);
  }

  lemma {:induction false} LevelsBound(l: seq<nat>, ord: seq<nat>, elems: nat, k: nat, m: nat, i: nat)
    requires Levels(l, ord, elems, k, m) && |ord| == 2 * k && i < 2 * k && m >= 1
    ensures ord[i] < |l| && 1 <= l[ord[i]] <= m
    decreases k
  {
    if i >= 2 { LevelsBound(l, ord[2..], elems, k - 1, m, i - 2); }
  }

  lemma InOrder(ord: seq<nat>, dad: seq<nat>, f: seq<nat>, elems: nat, k: nat, leaves: seq<nat>, x: nat)
    returns (i: nat)
    requires TreeOrder(ord, dad, f, elems, k, leaves)
    requires x in leaves || elems <= x < elems + k
    ensures i < |ord| && ord[i] == x
    ensures i == 0 <==> x == elems + k - 1
  {
    if elems <= x < elems + k {
      assert Internals(elems, k)[elems + k - 1 - x] == x;
      assert x in multiset(Internals(elems, k));
    } else {
      assert x in multiset(leaves);
    }
    assert x in multiset(ord);
    i :| 0 <= i < |ord| && ord[i] == x;
  }

  /** Leaves lie at levels 1 to m; internal nodes at most at level m. */
  lemma LensInRange(ord: seq<nat>, dad: seq<nat>, f: seq<nat>, elems: nat, k: nat, leaves: seq<nat>, m: nat,
                    l: seq<nat>, x: nat)
    requires TreeOrder(ord, dad, f, elems, k, leaves) && m >= 1
    requires Levels(l, ord[1..], elems, k, m) && l[ord[0]] == 0
    requires x in leaves || elems <= x < elems + k
    ensures x < |l| && l[x] <= m && (x in leaves ==> l[x] >= 1)
  {
    var i := InOrder(ord, dad, f, elems, k, leaves, x);
    if i > 0 {
      assert ord[1..][i - 1] == x;
      LevelsBound(l, ord[1..], elems, k, m, i - 1);
    }
  }

  lemma RootShare(l: seq<nat>, m: nat, x: nat)
    requires x < |l| && l[x] == 0
    ensures Shares(l, m)[x] == Pow2(m)
  {
  }

  /** The nodes of a tree are its root and all sons; they are also its leaves and all fathers. */
  lemma TreeSum(ord: seq<nat>, dad: seq<nat>, f: seq<nat>, elems: nat, k: nat, leaves: seq<nat>, w: seq<nat>)
    requires TreeOrder(ord, dad, f, elems, k, leaves) && |w| == |dad|
    ensures elems + k <= |w| && Below(ord, |w|) && Below(ord[1..], |w|) && Below(leaves, |w|)
    ensures w[ord[0]] + Sum(w, ord[1..]) == Sum(w, leaves) + Sum(w, Internals(elems, k))
  {
    TreeHolds(ord, dad, f, elems, k, leaves);
    var all := leaves + Internals(elems, k);
    assert multiset(all) == multiset(ord);
    SumMultiset(w, ord, all);
    SumAppend(w, leaves, Internals(elems, k));
  }

  /** After clipping at m, the Kraft sum of the leaves exceeds one by half the number of clipped nodes. */
  lemma TreeKraft(ord: seq<nat>, dad: seq<nat>, f: seq<nat>, elems: nat, k: nat, leaves: seq<nat>, m: nat)
    requires TreeOrder(ord, dad, f, elems, k, leaves) && m >= 1
    ensures Below(ord, |dad|) && Below(leaves, |dad|) && Below(ord[1..], |dad|)
    ensures 2 * Sum(Shares(TreeLens(ord, dad, m), m), leaves) == 2 * Pow2(m) + Overflow(dad[ord[0] := 0], ord[1..], m)
  {
    var l := TreeLevels(ord, dad, f, elems, k, leaves, m);
    var w, ints := Shares(l, m), Internals(elems, k);
    forall x | elems <= x < elems + k ensures l[x] <= m {
      LensInRange(ord, dad, f, elems, k, leaves, m, l, x);
    }
    LevelsShares(l, ord[1..], elems, k, m);
    TreeSum(ord, dad, f, elems, k, leaves, w);
    RootShare(l, m, ord[0]);
  }

  /** Without clipping, the weighted length of the leaves is the sum of the internal frequencies. */
  lemma TreeCost(ord: seq<nat>, dad: seq<nat>, f: seq<nat>, elems: nat, k: nat, leaves: seq<nat>, m: nat)
    requires TreeOrder(ord, dad, f, elems, k, leaves) && m >= 1
    requires Below(ord, |dad|) && Below(ord[1..], |dad|) && Overflow(dad[ord[0] := 0], ord[1..], m) == 0
    ensures |f| == |dad| && elems + k <= |dad| && Below(leaves, |dad|)
    ensures Sum(Products(f, TreeLens(ord, dad, m)), leaves) == Sum(f, Internals(elems, k))
  {
    var l := TreeLevels(ord, dad, f, elems, k, leaves, m);
    var w, ints := Products(f, l), Internals(elems, k);
    forall x | elems <= x < elems + k ensures l[x] < m {
      LensInRange(ord, dad, f, elems, k, leaves, m, l, x);
      NoneClipped(l, elems, k, m, x);
    }
    LevelsCost(l, ord[1..], dad, f, elems, k, m);
    TreeSum(ord, dad, f, elems, k, leaves, w);
    assert w[ord[0]] == 0;
  }

  lemma {:induction false} NoneClipped(l: seq<nat>, elems: nat, k: nat, m: nat, x: nat)
    requires elems + k <= |l| && Clipped(l, elems, k, m) == 0 && elems <= x < elems + k
    ensures l[x] < m
  {
    if x < elems + k - 1 { NoneClipped(l, elems, k - 1, m, x); }
  }
}
