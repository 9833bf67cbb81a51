/** `gen_bitlen` and `build_tree` as a whole. */
module HuffmanBuild {
  import opened Bits
  import opened Sums
  import opened HuffmanCode
  import opened HuffmanTree
  import opened HuffmanMerge
  import opened HuffmanLeaves
  import opened HuffmanCounts
  import opened HuffmanLengths

  /** The finished tree over the symbols that occur, all of them below top. */
  ghost predicate Finished(ord: seq<nat>, dad: seq<nat>, f: seq<nat>, elems: nat, k: nat, top: nat) {
    && top <= elems <= |f| && (forall x :: top <= x < elems ==> f[x] == 0)
    && TreeOrder(ord, dad, f, elems, k, Leaves(f, elems))
  }

  lemma {:induction false} MergedDads(ord: seq<nat>, dad: seq<nat>, f: seq<nat>, elems: nat, k: nat, i: nat)
    requires Merged(ord, dad, f, elems, k) && i < |ord|
    ensures ord[i] < |dad| && dad[ord[i]] < |dad|
    decreases k
  {
    if i >= 2 { MergedDads(ord[2..], dad, f, elems, k - 1, i - 2); }
  }

  /** Where the first pass of gen_bitlen starts, the root having got length 0. */
  lemma PassStart(ord: seq<nat>, dad: seq<nat>, f: seq<nat>, elems: nat, k: nat, leaves: seq<nat>, m: nat)
    requires TreeOrder(ord, dad, f, elems, k, leaves)
    ensures Below(ord, |dad|) && Below(ord[1..], |dad|)
    ensures Passing(dad[ord[0] := 0], ord[1..], 0, m, TreeLens(ord, dad, m), 0, Overflow(dad[ord[0] := 0], ord[1..], m))
  {
    TreeHolds(ord, dad, f, elems, k, leaves);
    var u, s := dad[ord[0] := 0], ord[1..];
    forall j | 0 <= j < |s| ensures u[s[j]] < |u| {
      MergedDads(s, dad, f, elems, k, j);
    }
    assert s[0..] == s;
  }

  /** A node below elems is a leaf. */
  lemma ListedLeaf(ord: seq<nat>, dad: seq<nat>, f: seq<nat>, elems: nat, k: nat, leaves: seq<nat>, i: nat)
    requires TreeOrder(ord, dad, f, elems, k, leaves) && i < |ord| && ord[i] < elems
    ensures ord[i] in leaves
  {
    assert ord[i] in multiset(ord);
    assert ord[i] !in Internals(elems, k);
  }

  lemma TreeLensFit(ord: seq<nat>, dad: seq<nat>, f: seq<nat>, elems: nat, k: nat, leaves: seq<nat>, m: nat, top: nat)
    requires TreeOrder(ord, dad, f, elems, k, leaves) && m >= 1 && top <= elems
    ensures Below(ord, |dad|) && LensFit(TreeLens(ord, dad, m), ord[1..], top, m)
    ensures forall i :: 0 <= i < |leaves| ==> leaves[i] < |dad| && 1 <= TreeLens(ord, dad, m)[leaves[i]] <= m
  {
    var l := TreeLevels(ord, dad, f, elems, k, leaves, m);
    forall i | 0 <= i < |leaves| ensures leaves[i] < |l| && 1 <= l[leaves[i]] <= m {
      LensInRange(ord, dad, f, elems, k, leaves, m, l, leaves[i]);
    }
    forall i | 0 <= i < |ord[1..]| && ord[1..][i] < top ensures 1 <= l[ord[1..][i]] <= m {
      assert ord[1..][i] == ord[i + 1];
      ListedLeaf(ord, dad, f, elems, k, leaves, i + 1);
      LensInRange(ord, dad, f, elems, k, leaves, m, l, ord[i + 1]);
    }
  }

  /** Sums over the nodes, of weights that vanish on internal nodes, are sums over the leaves. */
  lemma LeafSum(ord: seq<nat>, dad: seq<nat>, f: seq<nat>, elems: nat, k: nat, leaves: seq<nat>, w: seq<nat>)
    requires TreeOrder(ord, dad, f, elems, k, leaves) && |w| == |dad| && forall x :: elems <= x < |w| ==> w[x] == 0
    ensures Below(ord[1..], |w|) && Below(leaves, |w|) && Sum(w, ord[1..]) == Sum(w, leaves)
  {
    TreeSum(ord, dad, f, elems, k, leaves, w);
    SumZero(w, Internals(elems, k));
  }

  // ----- the code space before the repair -----

  /** Leaves above level m take at most the whole code space, whatever was cut off at level m. */
  lemma {:induction false} LevelsShort(l: seq<nat>, ord: seq<nat>, elems: nat, k: nat, m: nat, b: nat)
    requires Levels(l, ord, elems, k, m) && Below(ord, |l|) && elems + k <= |l| && |ord| == 2 * k && m == b + 1
    ensures Sum(Shares(l, b), ord) <= Sum(Shares(l, b), Internals(elems, k))
    decreases k
  {
    if k > 0 {
      var w, d := Shares(l, b), elems + k - 1;
      LevelsShort(l, ord[2..], elems, k - 1, m, b);
      assert ord[1..][1..] == ord[2..] && ord[1..][0] == ord[1];
      assert Sum(w, ord) == w[ord[0]] + (w[ord[1]] + Sum(w, ord[2..]));
      assert Internals(elems, k)[1..] == Internals(elems, k - 1);
      assert w[ord[0]] + w[ord[1]] <= w[d];
    }
  }

  lemma TreeShort(ord: seq<nat>, dad: seq<nat>, f: seq<nat>, elems: nat, k: nat, leaves: seq<nat>, m: nat, b: nat)
    requires TreeOrder(ord, dad, f, elems, k, leaves) && m == b + 1
    ensures Below(ord, |dad|) && Below(leaves, |dad|) && Sum(Shares(TreeLens(ord, dad, m), b), leaves) <= Pow2(b)
  {
    var l := TreeLevels(ord, dad, f, elems, k, leaves, m);
    LevelsShort(l, ord[1..], elems, k, m, b);
    TreeSum(ord, dad, f, elems, k, leaves, Shares(l, b));
    RootShare(l, b, ord[0]);
  }

  lemma HistShares(ord: seq<nat>, dad: seq<nat>, f: seq<nat>, elems: nat, k: nat, leaves: seq<nat>, m: nat, top: nat,
                   lens: seq<nat>, b: nat)
    requires TreeOrder(ord, dad, f, elems, k, leaves) && top <= elems && Below(leaves, top) && m <= MAX_BITS
    requires b <= MAX_BITS
    requires |lens| == |dad| && LensFit(lens, ord[1..], top, m) && forall i :: 0 <= i < |leaves| ==>
               leaves[i] < |lens| && 1 <= lens[leaves[i]]
    ensures Below(leaves, |lens|) && Space(Hist(lens, ord[1..], top), b) == Sum(Shares(lens, b), leaves)
  {
    var w := TopShares(lens, b, top);
    HistSpace(lens, ord[1..], top, b);
    LeafSum(ord, dad, f, elems, k, leaves, w);
    SumAgree(w, Shares(lens, b), leaves);
  }

  lemma {:induction false} SumOnes(w: seq<nat>, s: seq<nat>)
    requires Below(s, |w|) && forall i :: 0 <= i < |s| ==> w[s[i]] == 1
    ensures Sum(w, s) == |s|
  {
    if s != [] { SumOnes(w, s[1..]); }
  }

  lemma CountLeaves(ord: seq<nat>, dad: seq<nat>, f: seq<nat>, elems: nat, k: nat, leaves: seq<nat>, top: nat)
    requires TreeOrder(ord, dad, f, elems, k, leaves) && top <= elems && Below(leaves, top)
    ensures Below(ord[1..], |dad|) && Sum(TopOnes(|dad|, top), ord[1..]) == |leaves|
  {
    var w := TopOnes(|dad|, top);
    LeafSum(ord, dad, f, elems, k, leaves, w);
    SumOnes(w, leaves);
  }

  lemma HistAbove(lens: seq<nat>, s: seq<nat>, top: nat, m: nat, b: nat)
    requires LensFit(lens, s, top, m) && m < b <= MAX_BITS
    ensures Hist(lens, s, top)[b] == 0
  {
    SumZero(Mark(lens, b, top), s);
  }

  /** Clipping leaves the statistics in the state that the repair starts from. */
  lemma RepairStart(ord: seq<nat>, dad: seq<nat>, f: seq<nat>, elems: nat, k: nat, leaves: seq<nat>, m: nat, top: nat,
                    lens: seq<nat>, overflow: nat)
    requires TreeOrder(ord, dad, f, elems, k, leaves) && 2 <= m <= MAX_BITS && top <= elems && Below(leaves, top)
    requires Below(ord, |dad|) && Below(ord[1..], |dad|) && lens == TreeLens(ord, dad, m)
    requires overflow == Overflow(dad[ord[0] := 0], ord[1..], m) && |leaves| <= Pow2(m)
    ensures LensFit(lens, ord[1..], top, m)
    ensures Repairing(Hist(lens, ord[1..], top), m, overflow, |leaves|)
    ensures Total(Hist(lens, ord[1..], top), m) == Sum(TopOnes(|lens|, top), ord[1..]) == |leaves|
  {
    TreeLensFit(ord, dad, f, elems, k, leaves, m, top);
    var s, c := ord[1..], Hist(lens, ord[1..], top);
    assert Space(c, m) == Pow2(m) + overflow / 2 && overflow % 2 == 0 by {
      HistShares(ord, dad, f, elems, k, leaves, m, top, lens, m);
      TreeKraft(ord, dad, f, elems, k, leaves, m);
    }
    assert Space(c, m - 1) <= Pow2(m - 1) by {
      HistShares(ord, dad, f, elems, k, leaves, m, top, lens, m - 1);
      TreeShort(ord, dad, f, elems, k, leaves, m, m - 1);
    }
    HistTotal(lens, s, top, m);
    CountLeaves(ord, dad, f, elems, k, leaves, top);
    forall b | m < b <= MAX_BITS ensures c[b] == 0 { HistAbove(lens, s, top, m, b); }
  }

  // ----- the lengths that result -----

  /** lens is a complete code of at most m bits for exactly the symbols that occur. */
  ghost predicate LensFor(lens: seq<nat>, f: seq<nat>, elems: nat, top: nat, m: nat) {
    && top <= elems <= |lens| && elems <= |f|
    && (forall x :: 0 <= x < elems ==> if f[x] == 0 then lens[x] == 0 else x < top && 1 <= lens[x] <= m)
    && Used(lens[..top], m) == Pow2(m)
  }

  /** More frequent symbols have codes that are no longer. */
  ghost predicate FrequentShort(lens: seq<nat>, f: seq<nat>, elems: nat) {
    && elems <= |lens| && elems <= |f|
    && forall x, y :: 0 <= x < elems && 0 <= y < elems && f[x] > f[y] > 0 ==> lens[x] <= lens[y]
  }

  lemma {:induction false} MarkCount(u: seq<nat>, b: nat, top: nat, f: seq<nat>, n: nat)
    requires n <= top && n <= |f| && n <= |u| && b >= 1 && forall x :: 0 <= x < n && f[x] == 0 ==> u[x] == 0
    ensures Below(Leaves(f, n), |u|) && Sum(Mark(u, b, top), Leaves(f, n)) == Count(u[..n], b)
  {
    if n > 0 {
      MarkCount(u, b, top, f, n - 1);
      assert u[..n][..n - 1] == u[..n - 1];
      if f[n - 1] > 0 { SumSnoc(Mark(u, b, top), Leaves(f, n - 1), n - 1); }
    }
  }

  lemma {:induction false} CostLeaves(f: seq<nat>, w: seq<nat>, top: nat, n: nat)
    requires n <= |f| && n <= |w| && forall x :: top <= x < n ==> f[x] == 0
    ensures Below(Leaves(f, n), |f|) && Sum(Cost(f, w, top), Leaves(f, n)) == Weighted(f, w, n)
  {
    if n > 0 {
      CostLeaves(f, w, top, n - 1);
      if f[n - 1] > 0 {
        SumSnoc(Cost(f, w, top), Leaves(f, n - 1), n - 1);
        TimesIs(f[n - 1], w[n - 1]);
      }
    }
  }

  lemma TreeWeighted(ord: seq<nat>, dad: seq<nat>, f: seq<nat>, elems: nat, k: nat, top: nat, w: seq<nat>)
    requires Finished(ord, dad, f, elems, k, top) && elems <= |w|
    ensures Below(ord[1..], |f|) && Sum(Cost(f, w, top), ord[1..]) == Weighted(f, w, elems)
  {
    TreeHolds(ord, dad, f, elems, k, Leaves(f, elems));
    LeafSum(ord, dad, f, elems, k, Leaves(f, elems), Cost(f, w, top));
    CostLeaves(f, w, top, elems);
  }

  lemma LeavesBelow(f: seq<nat>, elems: nat, top: nat)
    requires top <= elems <= |f| && forall x :: top <= x < elems ==> f[x] == 0
    ensures Below(Leaves(f, elems), top)
  {
    LeavesTop(f, top, elems);
    LeavesOccur(f, top);
  }

  lemma HistCounts(ord: seq<nat>, dad: seq<nat>, f: seq<nat>, elems: nat, k: nat, top: nat, u: seq<nat>)
    requires Finished(ord, dad, f, elems, k, top) && |u| == |dad|
    requires forall x :: 0 <= x < top && f[x] == 0 ==> u[x] == 0
    ensures Below(ord[1..], |u|) && top <= |u| && Hist(u, ord[1..], top) == Counts(u[..top])
  {
    TreeHolds(ord, dad, f, elems, k, Leaves(f, elems));
    LeavesTop(f, top, elems);
    forall b | 1 <= b <= MAX_BITS ensures Hist(u, ord[1..], top)[b] == Count(u[..top], b) {
      LeafSum(ord, dad, f, elems, k, Leaves(f, elems), Mark(u, b, top));
      MarkCount(u, b, top, f, top);
    }
  }

  /** The symbols listed are those that occur. */
  lemma ListedOccurs(ord: seq<nat>, dad: seq<nat>, f: seq<nat>, elems: nat, k: nat, top: nat, x: nat)
    requires Finished(ord, dad, f, elems, k, top) && x < elems
    ensures x in ord[1..] <==> f[x] > 0
  {
    var leaves := Leaves(f, elems);
    LeavesOccur(f, elems);
    if f[x] > 0 {
      var i := InOrder(ord, dad, f, elems, k, leaves, x);
      assert ord[1..][i - 1] == x;
    } else if x in ord[1..] {
      var i :| 0 <= i < |ord[1..]| && ord[1..][i] == x;
      ListedLeaf(ord, dad, f, elems, k, leaves, i + 1);
    }
  }

  lemma FinalLens(ord: seq<nat>, dad: seq<nat>, f: seq<nat>, elems: nat, k: nat, top: nat, m: nat, u: seq<nat>,
                  lens: seq<nat>)
    requires Finished(ord, dad, f, elems, k, top) && ZeroLens(f, dad, elems) && 1 <= m <= MAX_BITS && Below(ord, |dad|)
    requires lens == TreeLens(ord, dad, m) && LensFit(u, ord[1..], top, m) && Only(u, lens, ord[1..], top)
    requires Space(Hist(u, ord[1..], top), m) == Pow2(m)
    ensures LensFor(u, f, elems, top, m) && Hist(u, ord[1..], top) == Counts(u[..top])
  {
    TreeHolds(ord, dad, f, elems, k, Leaves(f, elems));
    forall x | 0 <= x < elems ensures if f[x] == 0 then u[x] == 0 else x < top && 1 <= u[x] <= m {
      ListedOccurs(ord, dad, f, elems, k, top, x);
      if f[x] == 0 { OverlayKeeps(dad[ord[0] := 0], ord[1..], m, x); }
    }
    HistCounts(ord, dad, f, elems, k, top, u);
    UsedIsSpace(u[..top], m);
  }

  lemma OrderedFrequent(ord: seq<nat>, dad: seq<nat>, f: seq<nat>, elems: nat, k: nat, top: nat, u: seq<nat>)
    requires Finished(ord, dad, f, elems, k, top) && |u| == |dad| && Ordered(u, ord[1..], 0, top)
    ensures FrequentShort(u, f, elems)
  {
    TreeHolds(ord, dad, f, elems, k, Leaves(f, elems));
    forall x, y | 0 <= x < elems && 0 <= y < elems && f[x] > f[y] > 0 ensures u[x] <= u[y] {
      ListedOccurs(ord, dad, f, elems, k, top, x);
      ListedOccurs(ord, dad, f, elems, k, top, y);
      var i :| 0 <= i < |ord[1..]| && ord[1..][i] == x;
      var j :| 0 <= j < |ord[1..]| && ord[1..][j] == y;
      assert ord[i + 1] == x && ord[j + 1] == y;
    }
  }
}
