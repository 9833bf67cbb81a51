/** `gen_bitlen` and `build_tree`: from frequencies to code lengths and codes. */
module HuffmanCoder {
  import opened Bits
  import opened Sums
  import opened HuffmanCode
  import opened HuffmanTree
  import opened HuffmanMerge
  import opened HuffmanLeaves
  import opened HuffmanCounts
  import opened HuffmanLengths
  import opened HuffmanBuild
  import opened HuffmanDepth
  import opened HuffmanOptimal
  import opened HuffmanTies
  import opened HuffmanHeight

  method ZeroCounts(blCount: array<nat>)
    requires blCount.Length == MAX_BITS + 1
    modifies blCount
    ensures blCount[..] == seq(MAX_BITS + 1, b => 0)
  {
    var bits := 0;
    while bits <= MAX_BITS
      invariant 0 <= bits <= MAX_BITS + 1 && forall b :: 0 <= b < bits ==> blCount[b] == 0
    {
      blCount[bits] := 0;
      bits := bits + 1;
    }
  }

  /** What the code lengths in l cost altogether. */
  ghost predicate Charged(len: int, len0: int, f: seq<nat>, l: seq<nat>, extra: seq<nat>, base: nat, elems: nat) {
    elems <= |f| && elems <= |l| && len == len0 + Weighted(f, Weights(l, extra, base), elems)
  }

  /** The same for the static tree, where there is one. */
  ghost predicate StaticCharged(len: int, len0: int, f: seq<nat>, slen: seq<nat>, extra: seq<nat>, base: nat,
                                elems: nat) {
    if slen == [] then len == len0 else Charged(len, len0, f, slen, extra, base, elems)
  }

  lemma {:induction false} NoCost(f: seq<nat>, top: nat, s: seq<nat>)
    requires Below(s, |f|)
    ensures Sum(Cost(f, [], top), s) == 0
  {
    if s != [] { NoCost(f, top, s[1..]); }
  }

  lemma TallyCharged(ord: seq<nat>, dad: seq<nat>, f: seq<nat>, elems: nat, k: nat, top: nat, c: seq<nat>, opt: int,
                     st: int, opt0: int, st0: int, lens: seq<nat>, extra: seq<nat>, base: nat, slen: seq<nat>)
    requires Finished(ord, dad, f, elems, k, top) && |lens| == |dad| && (slen == [] || |slen| == elems)
    requires Tallied(c, opt, st, opt0, st0, lens, f, ord[1..], top, Weights(lens, extra, base),
                     Weights(slen, extra, base))
    ensures Charged(opt, opt0, f, lens, extra, base, elems) && StaticCharged(st, st0, f, slen, extra, base, elems)
  {
    TreeHolds(ord, dad, f, elems, k, Leaves(f, elems));
    TreeWeighted(ord, dad, f, elems, k, top, Weights(lens, extra, base));
    if slen == [] {
      assert Weights(slen, extra, base) == [];
      NoCost(f, top, ord[1..]);
    } else {
      TreeWeighted(ord, dad, f, elems, k, top, Weights(slen, extra, base));
    }
  }

  lemma MovedCharged(ord: seq<nat>, dad: seq<nat>, f: seq<nat>, elems: nat, k: nat, top: nat, opt: int, opt1: int,
                     opt0: int, lens: seq<nat>, u: seq<nat>, extra: seq<nat>, base: nat)
    requires Finished(ord, dad, f, elems, k, top) && |lens| == |dad| == |u|
    requires Charged(opt1, opt0, f, lens, extra, base, elems)
    requires CostMoved(u, lens, f, ord[1..], top, extra, base, opt, opt1)
    ensures Charged(opt, opt0, f, u, extra, base, elems)
  {
    TreeHolds(ord, dad, f, elems, k, Leaves(f, elems));
    TreeWeighted(ord, dad, f, elems, k, top, Weights(lens, extra, base));
    TreeWeighted(ord, dad, f, elems, k, top, Weights(u, extra, base));
  }

  /** What the clipped lengths promise before any repair. */
  lemma ClippedLens(ord: seq<nat>, dad: seq<nat>, f: seq<nat>, elems: nat, k: nat, top: nat, m: nat, lens: seq<nat>,
                    overflow: nat)
    requires Finished(ord, dad, f, elems, k, top) && ZeroLens(f, dad, elems) && 2 <= m <= MAX_BITS && elems <= Pow2(m)
    requires Below(ord, |dad|) && Below(ord[1..], |dad|)
    requires lens == TreeLens(ord, dad, m) && overflow == Overflow(dad[ord[0] := 0], ord[1..], m)
    ensures LensFit(lens, ord[1..], top, m)
    ensures Repairing(Hist(lens, ord[1..], top), m, overflow, |Leaves(f, elems)|)
    ensures Total(Hist(lens, ord[1..], top), m) == Sum(TopOnes(|lens|, top), ord[1..]) == |Leaves(f, elems)|
    ensures overflow == 0 ==> LensFor(lens, f, elems, top, m) && Hist(lens, ord[1..], top) == Counts(lens[..top])
    ensures overflow == 0 ==> Optimal(lens, f, elems)
  {
    LeavesBelow(f, elems, top);
    RepairStart(ord, dad, f, elems, k, Leaves(f, elems), m, top, lens, overflow);
    if overflow == 0 {
      FinalLens(ord, dad, f, elems, k, top, m, lens, lens);
      TreeOptimal(ord, dad, f, elems, k, m);
    }
  }

  /** What the lengths u assigned after the repair promise. */
  lemma RepairedLens(ord: seq<nat>, dad: seq<nat>, f: seq<nat>, elems: nat, k: nat, top: nat, m: nat, lens: seq<nat>,
                     u: seq<nat>, c: seq<nat>)
    requires Finished(ord, dad, f, elems, k, top) && ZeroLens(f, dad, elems) && 2 <= m <= MAX_BITS
    requires Below(ord, |dad|) && lens == TreeLens(ord, dad, m)
    requires Repairing(c, m, 0, |Leaves(f, elems)|) && Assigned(u, lens, ord[1..], top, m, c)
    ensures LensFor(u, f, elems, top, m) && c == Counts(u[..top]) && FrequentShort(u, f, elems)
  {
    FinalLens(ord, dad, f, elems, k, top, m, u, lens);
    OrderedFrequent(ord, dad, f, elems, k, top, u);
  }

  ghost predicate AllApart(fc: array<nat>, dl: array<nat>, heap: array<nat>, depth: array<nat>, blCount: array<nat>) {
    Apart(fc, dl, heap, depth) && blCount != fc && blCount != dl && blCount != heap && blCount != depth
  }

  /** Computes the code lengths of the finished tree. If none had to be cut off they are optimal;
  otherwise they are still a complete code, and shorter for more frequent symbols. */
  method GenBitlen(fc: array<nat>, dl: array<nat>, heap: array<nat>, blCount: array<nat>, heapMax: nat, top: nat,
                   m: nat, extra: seq<nat>, base: nat, slen: seq<nat>, optLen0: int, staticLen0: int,
                   ghost ord: seq<nat>, ghost dad: seq<nat>, ghost f: seq<nat>, ghost elems: nat, ghost k: nat)
    returns (optLen: int, staticLen: int, ghost clipped: nat)
    requires fc != dl && heap != dl && blCount != fc && blCount != dl && blCount != heap
    requires blCount.Length == MAX_BITS + 1
    requires fc[..] == f && dl[..] == dad && heapMax < heap.Length && heap[..][heapMax..] == ord
    requires 2 <= m <= MAX_BITS && elems <= Pow2(m) && (slen == [] || |slen| == elems)
    requires Finished(ord, dad, f, elems, k, top) == true && ZeroLens(f, dad, elems) == true && Below(ord, |dad|)
    requires Below(ord[1..], |dad|) && |f| == |dad|
    modifies dl, blCount
    ensures LensFor(dl[..], f, elems, top, m) == true
    ensures blCount[..] == Counts(dl[..][..top])
    ensures Charged(optLen, optLen0, f, dl[..], extra, base, elems) == true
    ensures StaticCharged(staticLen, staticLen0, f, slen, extra, base, elems) == true
    ensures clipped == Overflow(dad[ord[0] := 0], ord[1..], m)
    ensures clipped == 0 ==> dl[..] == TreeLens(ord, dad, m)
    ensures if clipped == 0 then Optimal(dl[..], f, elems) == true else FrequentShort(dl[..], f, elems) == true
  {
    ghost var s, lens := ord[1..], TreeLens(ord, dad, m);
    clipped := Overflow(dad[ord[0] := 0], ord[1..], m);
    assert heap[..][heapMax + 1..] == s;
    PassStart(ord, dad, f, elems, k, Leaves(f, elems), m);
    ClippedLens(ord, dad, f, elems, k, top, m, lens, clipped);
    ZeroCounts(blCount);
    dl[heap[heapMax]] := 0;
    assert dl[..] == dad[ord[0] := 0];
    var overflow;
    overflow, optLen, staticLen := FirstPass(fc, dl, heap, blCount, heapMax, top, m, extra, base, slen, optLen0,
                                             staticLen0, f, s, lens, clipped);
    TallyCharged(ord, dad, f, elems, k, top, blCount[..], optLen, staticLen, optLen0, staticLen0, lens, extra, base,
                 slen);
    if overflow == 0 {
      return;
    }
    optLen := Relength(fc, dl, heap, blCount, heapMax, top, m, optLen, overflow, optLen0, ord, dad, f, elems, k, lens,
                       extra, base);
  }

  /** The rest of gen_bitlen after an overflow. */
  method Relength(fc: array<nat>, dl: array<nat>, heap: array<nat>, blCount: array<nat>, heapMax: nat, top: nat, m: nat,
                  optLen1: int, overflow: nat, ghost optLen0: int, ghost ord: seq<nat>, ghost dad: seq<nat>,
                  ghost f: seq<nat>, ghost elems: nat, ghost k: nat, ghost lens: seq<nat>, ghost extra: seq<nat>,
                  ghost base: nat)
    returns (optLen: int)
    requires fc != dl && heap != dl && blCount != fc && blCount != dl && blCount != heap
    requires blCount.Length == MAX_BITS + 1
    requires fc[..] == f && dl[..] == lens && |f| == |lens| == |dad| && heapMax < heap.Length && ord != []
    requires heap[..][heapMax + 1..] == ord[1..]
    requires 2 <= m <= MAX_BITS && overflow > 0 && Below(ord, |dad|) && Below(ord[1..], |dad|)
    requires lens == TreeLens(ord, dad, m)
    requires Finished(ord, dad, f, elems, k, top) == true && ZeroLens(f, dad, elems) == true
    requires blCount[..] == Hist(lens, ord[1..], top) && Repairing(blCount[..], m, overflow, |Leaves(f, elems)|) == true
    requires Sum(TopOnes(|lens|, top), ord[1..]) == |Leaves(f, elems)|
    requires Charged(optLen1, optLen0, f, lens, extra, base, elems) == true
    modifies dl, blCount
    ensures LensFor(dl[..], f, elems, top, m) == true
    ensures blCount[..] == Counts(dl[..][..top])
    ensures Charged(optLen, optLen0, f, dl[..], extra, base, elems) == true
    ensures FrequentShort(dl[..], f, elems) == true
  {
    Repair(blCount, m, overflow, |Leaves(f, elems)|);
    ghost var c := blCount[..];
    assert Distinct(ord[1..]) by { TreeHolds(ord, dad, f, elems, k, Leaves(f, elems)); }
    RepairedShape(c, m, |Leaves(f, elems)|);
    optLen := Reassign(fc, dl, heap, blCount, heapMax, top, m, optLen1, f, ord[1..], lens, c, extra, base);
    RepairedLens(ord, dad, f, elems, k, top, m, lens, dl[..], c);
    MovedCharged(ord, dad, f, elems, k, top, optLen, optLen1, optLen0, lens, dl[..], extra, base);
    assert blCount[..] == c;
  }

  lemma RepairedShape(c: seq<nat>, m: nat, leaves: nat)
    requires Repairing(c, m, 0, leaves)
    ensures |c| == MAX_BITS + 1 && c[0] == 0 && (forall b :: m < b <= MAX_BITS ==> c[b] == 0) && m < |c|
    ensures Total(c, m) == leaves
  {
  }

  // ----- frequencies of internal nodes do not matter -----

  lemma SameFrequencies(f: seq<nat>, g: seq<nat>, lens: seq<nat>, elems: nat, top: nat, m: nat)
    requires elems <= |f| && elems <= |g| && f[..elems] == g[..elems]
    ensures LensFor(lens, f, elems, top, m) ==> LensFor(lens, g, elems, top, m)
    ensures FrequentShort(lens, f, elems) ==> FrequentShort(lens, g, elems)
    ensures Optimal(lens, f, elems) ==> Optimal(lens, g, elems)
  {
    assert forall x :: 0 <= x < elems ==> f[..elems][x] == f[x] && g[..elems][x] == g[x];
    if Optimal(lens, f, elems) {
      forall words | PrefixCode(words, g, elems) ensures Weighted(g, lens, elems) <= Weighted(g, WordLens(words),
          elems) {
        assert PrefixCode(words, f, elems);
        WeightedSame(f, g, lens, elems);
        WeightedSame(f, g, WordLens(words), elems);
      }
    }
  }

  /** A tree of two leaves gives both of them one bit. */
  lemma PairLens(ord: seq<nat>, dad: seq<nat>, f: seq<nat>, elems: nat, k: nat, m: nat, x: nat)
    requires elems <= |f| && TreeOrder(ord, dad, f, elems, k, Leaves(f, elems)) && k == 1 && m >= 2 && x < elems
    requires f[x] > 0
    ensures Below(ord, |dad|) && Below(ord[1..], |dad|) && Overflow(dad[ord[0] := 0], ord[1..], m) == 0
    ensures x < |dad| && TreeLens(ord, dad, m)[x] == 1
  {
    var leaves := Leaves(f, elems);
    var l := TreeLevels(ord, dad, f, elems, k, leaves, m);
    LeavesOccur(f, elems);
    var i := InOrder(ord, dad, f, elems, k, leaves, x);
    assert i == 1 || i == 2;
    assert ord[1..][0] == ord[1] && ord[1..][1] == ord[2];
  }

  /** Forcing two codes has been paid for in advance. */
  lemma ForcedPaid(f0: seq<nat>, f1: seq<nat>, f: seq<nat>, lens: seq<nat>, elems: nat, opt0: int, opt1: int, opt: int,
                   extra: seq<nat>, base: nat)
    requires Forced(f0, f1) && elems <= |f1| && elems <= |f| && f[..elems] == f1[..elems]
    requires Offset(opt0, opt1, f0, f1, Ones(elems)) && Charged(opt, opt1, f, lens, extra, base, elems)
    requires forall x :: 0 <= x < elems && f1[x] != f0[x] ==> lens[x] == 1
    requires forall x :: 0 <= x <= 2 ==> Xbits(extra, base, x) == 0
    ensures Charged(opt, opt0, f0, lens, extra, base, elems)
  {
    var w := Weights(lens, extra, base);
    WeightedSame(f, f1, w, elems);
    WeightedDiff(f0, f1, w, Ones(elems), elems);
  }

  lemma StaticPaid(f0: seq<nat>, f1: seq<nat>, f: seq<nat>, slen: seq<nat>, elems: nat, st0: int, st1: int, st: int,
                   extra: seq<nat>, base: nat)
    requires Forced(f0, f1) && elems <= |f1| && elems <= |f| && f[..elems] == f1[..elems]
    requires (slen == [] || |slen| == elems)
    requires Offset(st0, st1, f0, f1, slen) && StaticCharged(st, st1, f, slen, extra, base, elems)
    requires forall x :: 0 <= x <= 2 ==> Xbits(extra, base, x) == 0
    ensures StaticCharged(st, st0, f0, slen, extra, base, elems)
  {
    if slen != [] {
      var w := Weights(slen, extra, base);
      WeightedSame(f, f1, w, elems);
      WeightedDiff(f0, f1, w, slen, elems);
    }
  }

  /** How build_tree comes to the lengths: optimal, unless some had to be cut off at m. */
  ghost predicate BestLens(lens: seq<nat>, f: seq<nat>, elems: nat, clipped: nat) {
    if clipped == 0 then Optimal(lens, f, elems) else FrequentShort(lens, f, elems)
  }

  /** f are the frequencies f0, or, where fewer than two symbols occur, those after two codes were forced. */
  ghost predicate TwoForced(f0: seq<nat>, f: seq<nat>, elems: nat) {
    Forced(f0, f) && elems <= |f| && (f == f0 || |Leaves(f, elems)| == 2)
  }

  lemma MergedFinished(ord: seq<nat>, dad: seq<nat>, f: seq<nat>, elems: nat, k: nat, maxCode: int, top: nat,
                       f1: seq<nat>, dad1: seq<nat>, f0: seq<nat>)
    requires Prepared(f0, f1, dad1, elems, maxCode) && Kept(f1, dad1, f, dad, elems) && top == maxCode + 1
    requires TreeOrder(ord, dad, f, elems, k, Leaves(f1, elems))
    ensures Finished(ord, dad, f, elems, k, top) && ZeroLens(f, dad, elems) && Below(ord, |dad|)
    ensures Below(ord[1..], |dad|) && |f| == |dad|
  {
    LeavesAgree(f1, f, elems);
    TreeHolds(ord, dad, f, elems, k, Leaves(f1, elems));
    assert forall x :: 0 <= x < elems ==> f1[..elems][x] == f1[x] && f[..elems][x] == f[x];
  }

  /** A forced code got one bit. */
  lemma ForcedOneBit(ord: seq<nat>, dad: seq<nat>, f: seq<nat>, elems: nat, k: nat, m: nat, f1: seq<nat>, f0: seq<nat>,
                     dad1: seq<nat>, maxCode: int, lens: seq<nat>, x: nat)
    requires Prepared(f0, f1, dad1, elems, maxCode) && elems <= |f| && f[..elems] == f1[..elems]
    requires k == |Leaves(f1, elems)| - 1
    requires TreeOrder(ord, dad, f, elems, k, Leaves(f, elems)) && m >= 2 && Below(ord, |dad|)
    requires Below(ord[1..], |dad|) && |lens| == |dad|
    requires Overflow(dad[ord[0] := 0], ord[1..], m) == 0 ==> lens == TreeLens(ord, dad, m)
    requires x < elems && f1[x] != f0[x]
    ensures x < |lens| && lens[x] == 1
  {
    assert f1[x] == 1 && f[x] == f[..elems][x] == f1[..elems][x];
    PairLens(ord, dad, f, elems, k, m, x);
  }

  /** build_tree up to the code lengths. */
  method BuildLens(fc: array<nat>, dl: array<nat>, heap: array<nat>, depth: array<nat>, blCount: array<nat>, elems: nat,
                   m: nat, extra: seq<nat>, base: nat, slen: seq<nat>, optLen0: int, staticLen0: int,
                   ghost f0: seq<nat>)
    returns (maxCode: nat, top: nat, optLen: int, staticLen: int, ghost f: seq<nat>)
    requires AllApart(fc, dl, heap, depth, blCount) && fc[..] == f0
    requires heap.Length == HEAP_SIZE && fc.Length == dl.Length <= depth.Length && blCount.Length == MAX_BITS + 1
    requires 2 * elems < fc.Length && 3 <= elems <= 286 && 2 <= m <= MAX_BITS && elems <= Pow2(m)
    requires (slen == [] || |slen| == elems) && forall x :: 0 <= x <= 2 ==> Xbits(extra, base, x) == 0
    requires Weighted(f0, Ones(elems), elems) < 65530
    modifies fc, dl, heap, depth, blCount
    ensures TwoForced(f0, f, elems) == true && maxCode < elems && top == maxCode + 1
    ensures LensFor(dl[..], f, elems, top, m) == true && BestCode(dl[..], f, elems, m) == true
    ensures blCount[..] == Counts(dl[..][..top])
    ensures Charged(optLen, optLen0, f0, dl[..], extra, base, elems) == true
    ensures StaticCharged(staticLen, staticLen0, f0, slen, extra, base, elems) == true
    ensures Complete(dl[..][..top]) == true && forall x :: 0 <= x < top ==> dl[x] <= MAX_BITS
  {
    var heapMax;
    ghost var dad1, opt1, st1, g, k, ord, clipped;
    heapMax, top, optLen, staticLen, ord, g, k, f,
        dad1 := MakeTree(fc, dl, heap, depth, elems, slen, optLen0, staticLen0, f0);
    maxCode, opt1, st1 := top - 1, optLen, staticLen;
    ghost var dad, d := dl[..], depth[..];
    optLen, staticLen, clipped := GenBitlen(fc, dl, heap, blCount, heapMax, top, m, extra, base, slen, optLen,
                                            staticLen, ord, dad, g, elems, k);
    Settled(ord, dad, g, elems, k, m, top, f, f0, dad1, dl[..], extra, base, slen, optLen0, opt1, optLen, staticLen0,
            st1, staticLen, clipped, d);
  }

  /** build_tree up to the finished tree. */
  method MakeTree(fc: array<nat>, dl: array<nat>, heap: array<nat>, depth: array<nat>, elems: nat, slen: seq<nat>,
                  optLen0: int, staticLen0: int, ghost f0: seq<nat>)
    returns (heapMax: nat, top: nat, optLen: int, staticLen: int, ghost ord: seq<nat>, ghost g: seq<nat>,
             ghost k: nat, ghost f: seq<nat>, ghost dad1: seq<nat>)
    requires Apart(fc, dl, heap, depth) && fc[..] == f0
    requires heap.Length == HEAP_SIZE && fc.Length == dl.Length <= depth.Length && 2 * elems < fc.Length
    requires 3 <= elems <= 286
    requires (slen == [] || |slen| == elems) && Weighted(f0, Ones(elems), elems) < 65530
    modifies fc, dl, heap, depth
    ensures 1 <= top <= elems && heapMax < heap.Length && heap[..][heapMax..] == ord && fc[..] == g
    ensures Finished(ord, dl[..], g, elems, k, top) == true && ZeroLens(g, dl[..], elems) == true
    ensures Below(ord, dl.Length) && Below(ord[1..], dl.Length) && |g| == dl.Length && ord != []
    ensures Prepared(f0, f, dad1, elems, top - 1) == true && Kept(f, dad1, g, dl[..], elems) == true && elems <= |f|
    ensures k == |Leaves(f, elems)| - 1 && TieTree(ord, g, depth[..], elems, k) == true
    ensures Offset(optLen0, optLen, f0, f, Ones(elems)) == true && Offset(staticLen0, staticLen, f0, f, slen) == true
  {
    var heapLen, last;
    ghost var leaves, total;
    heapLen, last, optLen, staticLen, leaves,
        total := PrepareHeap(fc, dl, heap, depth, elems, slen, optLen0, staticLen0, f0);
    top, f, dad1 := last + 1, fc[..], dl[..];
    heapMax, k := MergeAll(fc, dl, heap, depth, elems, heapLen, leaves, total);
    ord, g := heap[..][heapMax..], fc[..];
    MergedFinished(ord, dl[..], g, elems, k, last, top, f, dad1, f0);
  }

  /** A finished tree: codes and lengths, in the first top entries, of at most m bits, for the frequencies f, which are
  f0 or, where fewer than two symbols occur, those after two codes were forced. */
  ghost predicate CodeTree(fc: seq<nat>, dl: seq<nat>, f0: seq<nat>, f: seq<nat>, elems: nat, top: nat, m: nat) {
    forall z: int {:trigger Opened(TreeSeal, z)} :: Sealed(z) ==>
      && elems <= |f0| && TwoForced(f0, f, elems) && LensFor(dl, f, elems, top, m) && BestCode(dl, f, elems, m)
      && HasCodes(fc, dl[..top], top)
  }

  lemma CodeTreeOf(fc: seq<nat>, dl: seq<nat>, f0: seq<nat>, f: seq<nat>, elems: nat, top: nat, m: nat)
    requires elems <= |f0| && TwoForced(f0, f, elems) && LensFor(dl, f, elems, top, m) && BestCode(dl, f, elems, m)
    requires HasCodes(fc, dl[..top], top)
    ensures CodeTree(fc, dl, f0, f, elems, top, m)
  {
  }

  /** build_tree. From the frequencies f0 it makes a complete code of at most m bits for the
  symbols f that occur, at least two of them, and adds the cost of all symbols to the two totals. */
  method BuildTree(fc: array<nat>, dl: array<nat>, heap: array<nat>, depth: array<nat>, blCount: array<nat>, elems: nat,
                   m: nat, extra: seq<nat>, base: nat, slen: seq<nat>, optLen0: int, staticLen0: int,
                   ghost f0: seq<nat>)
    returns (maxCode: nat, ghost top: nat, optLen: int, staticLen: int, ghost f: seq<nat>)
    requires AllApart(fc, dl, heap, depth, blCount) && fc[..] == f0
    requires heap.Length == HEAP_SIZE && fc.Length == dl.Length <= depth.Length && blCount.Length == MAX_BITS + 1
    requires 2 * elems < fc.Length && 3 <= elems <= 286 && 2 <= m <= MAX_BITS && elems <= Pow2(m)
    requires (slen == [] || |slen| == elems) && forall x :: 0 <= x <= 2 ==> Xbits(extra, base, x) == 0
    requires Weighted(f0, Ones(elems), elems) < 65530
    modifies fc, dl, heap, depth, blCount
    ensures maxCode < elems && top == maxCode + 1
    ensures CodeTree(fc[..], dl[..], f0, f, elems, top, m) == true
    ensures Charged(optLen, optLen0, f0, dl[..], extra, base, elems) == true
    ensures StaticCharged(staticLen, staticLen0, f0, slen, extra, base, elems) == true
  {
    var t;
    maxCode, t, optLen, staticLen, f :=
      BuildLens(fc, dl, heap, depth, blCount, elems, m, extra, base, slen, optLen0, staticLen0, f0);
    top := t;
    ghost var lens := dl[..];
    assert dl[..maxCode + 1] == lens[..top];
    GenCodes(fc, dl, blCount, maxCode);
    assert dl[..] == lens;
    CodeTreeOf(fc[..], lens, f0, f, elems, top, m);
  }

  /** What is known after gen_bitlen, in terms of the frequencies given. */
  lemma Settled(ord: seq<nat>, dad: seq<nat>, g: seq<nat>, elems: nat, k: nat, m: nat, top: nat, f: seq<nat>,
                f0: seq<nat>, dad1: seq<nat>, lens: seq<nat>, extra: seq<nat>, base: nat, slen: seq<nat>, opt0: int,
                opt1: int, opt: int, st0: int, st1: int, st: int, clipped: nat, d: seq<nat>)
    requires Finished(ord, dad, g, elems, k, top) && Prepared(f0, f, dad1, elems, top - 1)
    requires Kept(f, dad1, g, dad, elems) && k == |Leaves(f, elems)| - 1 && TieTree(ord, g, d, elems, k)
    requires 2 <= m <= MAX_BITS && Below(ord, |dad|) && Below(ord[1..], |dad|) && |lens| == |dad|
    requires (slen == [] || |slen| == elems)
    requires clipped == Overflow(dad[ord[0] := 0], ord[1..], m) && (clipped == 0 ==> lens == TreeLens(ord, dad, m))
    requires forall x :: 0 <= x <= 2 ==> Xbits(extra, base, x) == 0
    requires LensFor(lens, g, elems, top, m) && BestLens(lens, g, elems, clipped)
    requires Offset(opt0, opt1, f0, f, Ones(elems)) && Charged(opt, opt1, g, lens, extra, base, elems)
    requires Offset(st0, st1, f0, f, slen) && StaticCharged(st, st1, g, slen, extra, base, elems)
    ensures LensFor(lens, f, elems, top, m) && BestCode(lens, f, elems, m)
    ensures TwoForced(f0, f, elems)
    ensures Charged(opt, opt0, f0, lens, extra, base, elems) && StaticCharged(st, st0, f0, slen, extra, base, elems)
    ensures Complete(lens[..top]) && forall x :: 0 <= x < top ==> lens[x] <= MAX_BITS
  {
    SettledCode(ord, dad, g, elems, k, m, f, lens, clipped, d, top);
    forall x | 0 <= x < elems && f[x] != f0[x] ensures lens[x] == 1 {
      ForcedOneBit(ord, dad, g, elems, k, m, f, f0, dad1, top - 1, lens, x);
    }
    ForcedPaid(f0, f, g, lens, elems, opt0, opt1, opt, extra, base);
    StaticPaid(f0, f, g, slen, elems, st0, st1, st, extra, base);
    LensComplete(lens, f, elems, top, m);
  }

  lemma SettledCode(ord: seq<nat>, dad: seq<nat>, g: seq<nat>, elems: nat, k: nat, m: nat, f: seq<nat>, lens: seq<nat>,
                    clipped: nat, d: seq<nat>, top: nat)
    requires elems <= |g| && TreeOrder(ord, dad, g, elems, k, Leaves(g, elems)) && TieTree(ord, g, d, elems, k)
    requires elems <= |f| && g[..elems] == f[..elems] && Below(ord, |dad|) && Below(ord[1..], |dad|) && m >= 1
    requires clipped == Overflow(dad[ord[0] := 0], ord[1..], m)
    requires LensFor(lens, g, elems, top, m) && BestLens(lens, g, elems, clipped)
    ensures LensFor(lens, f, elems, top, m) && BestCode(lens, f, elems, m)
  {
    SameFrequencies(g, f, lens, elems, top, m);
    BestOf(ord, dad, g, d, elems, k, f, m, lens, clipped);
  }

  lemma LensComplete(lens: seq<nat>, f: seq<nat>, elems: nat, top: nat, m: nat)
    requires LensFor(lens, f, elems, top, m) && m <= MAX_BITS
    ensures Complete(lens[..top]) && forall x :: 0 <= x < top ==> lens[x] <= MAX_BITS
  {
    CompleteAt(lens[..top], m, MAX_BITS);
    KraftIsUsed(lens[..top], MAX_BITS);
  }
}
