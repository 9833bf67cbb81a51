/** The beginning of `build_tree`: the symbols that occur go into the heap, at
least two codes are forced, and the heap order is established. */
module HuffmanLeaves {
  import opened Bits
  import opened Sums
  import opened HuffmanCode
  import opened HuffmanHeap
  import opened HuffmanTree
  import opened HuffmanTies
  import opened HuffmanMerge

  /** Total of f[x] * w[x] over the symbols below n. */
  function Weighted(f: seq<nat>, w: seq<nat>, n: nat): nat
    requires n <= |f| && n <= |w|
  {
    if n == 0 then 0 else Weighted(f, w, n - 1) + f[n - 1] * w[n - 1]
  }

  lemma {:induction false} WeightedUpdate(f: seq<nat>, w: seq<nat>, n: nat, x: nat)
    requires n <= |f| && n <= |w| && x < |f| && f[x] == 0
    ensures Weighted(f[x := 1], w, n) == Weighted(f, w, n) + if x < n then w[x] else 0
  {
    if n > 0 {
      WeightedUpdate(f, w, n - 1, x);
      assert x == n - 1 ==> f[x := 1][n - 1] * w[n - 1] == w[x];
    }
  }

  /** Changing frequencies costs the same under weights that agree wherever they changed. */
  lemma {:induction false} WeightedDiff(f: seq<nat>, g: seq<nat>, v: seq<nat>, w: seq<nat>, n: nat)
    requires n <= |f| && n <= |g| && n <= |v| && n <= |w|
    requires forall x :: 0 <= x < n && f[x] != g[x] ==> v[x] == w[x]
    ensures Weighted(f, v, n) + Weighted(g, w, n) == Weighted(g, v, n) + Weighted(f, w, n)
  {
    if n > 0 { WeightedDiff(f, g, v, w, n - 1); }
  }

  lemma {:induction false} LeavesSame(f: seq<nat>, n: nat, x: nat)
    requires n <= x < |f|
    ensures Leaves(f[x := 1], n) == Leaves(f, n)
  {
    if n > 0 { LeavesSame(f, n - 1, x); }
  }

  lemma Snoc(s: seq<nat>, x: nat)
    ensures multiset(s + [x]) == multiset(s) + multiset{x}
  {
  }

  lemma {:induction false} LeavesUpdate(f: seq<nat>, n: nat, x: nat)
    requires x < n <= |f| && f[x] == 0
    ensures multiset(Leaves(f[x := 1], n)) == multiset(Leaves(f, n)) + multiset{x}
  {
    var last: nat := n - 1;
    var g := f[x := 1];
    var was, now := Leaves(f, last), Leaves(g, last);
    LeavesLast(f, last, n);
    LeavesLast(g, last, n);
    if x == last {
      LeavesSame(f, last, x);
      Snoc(was, x);
    } else {
      LeavesUpdate(f, last, x);
      OneMore(multiset(was), multiset(now), multiset{x}, last);
      Snoc(was, last);
      Snoc(now, last);
    }
  }

  lemma LeavesLast(f: seq<nat>, last: nat, n: nat)
    requires n == last + 1 <= |f|
    ensures Leaves(f, n) == Leaves(f, last) + if f[last] > 0 then [last] else []
  {
    assert Leaves(f, last) + [] == Leaves(f, last);
  }

  lemma OneMore(a: multiset<nat>, b: multiset<nat>, c: multiset<nat>, y: nat)
    requires b == a + c
    ensures b + multiset{y} == a + multiset{y} + c
  {
  }

  lemma {:induction false} LeavesOccur(f: seq<nat>, n: nat)
    requires n <= |f|
    ensures Below(Leaves(f, n), n) && Occur(Leaves(f, n), f) && Distinct(Leaves(f, n))
    ensures forall x :: 0 <= x < n && f[x] > 0 ==> x in Leaves(f, n)
  {
    if n > 0 { LeavesOccur(f, n - 1); }
  }

  lemma {:induction false} LeavesTop(f: seq<nat>, top: nat, n: nat)
    requires top <= n <= |f| && forall x :: top <= x < n ==> f[x] == 0
    ensures Leaves(f, n) == Leaves(f, top)
  {
    if top < n { LeavesTop(f, top, n - 1); }
  }

  lemma SomeLeaf(f: seq<nat>, n: nat, maxCode: int)
    requires LastLeaf(f, n, maxCode) && Leaves(f, n) != []
    ensures maxCode >= 0
  {
    if maxCode < 0 { LeavesTop(f, 0, n); }
  }

  /** The last symbol that occurs, or -1. */
  ghost predicate LastLeaf(f: seq<nat>, n: nat, maxCode: int) {
    && -1 <= maxCode < n <= |f|
    && (maxCode >= 0 ==> f[maxCode] > 0)
    && forall x :: maxCode < x < n ==> f[x] == 0
  }

  ghost predicate ZeroLens(f: seq<nat>, dl: seq<nat>, n: nat) {
    n <= |f| && n <= |dl| && forall x :: 0 <= x < n && f[x] == 0 ==> dl[x] == 0
  }

  /** Symbols that occur have depth 0. */
  ghost predicate ZeroDepths(f: seq<nat>, d: seq<nat>, n: nat) {
    n <= |f| && n <= |d| && forall x :: 0 <= x < n && f[x] > 0 ==> d[x] == 0
  }

  lemma DepthForced(f: seq<nat>, d: seq<nat>, n: nat, x: nat)
    requires ZeroDepths(f, d, n) && x < n
    ensures ZeroDepths(f[x := 1], d[x := 0], n)
  {
  }

  method CollectLeaves(fc: array<nat>, dl: array<nat>, heap: array<nat>, depth: array<nat>, elems: nat)
    returns (heapLen: nat, maxCode: int)
    requires Apart(fc, dl, heap, depth)
    requires elems <= fc.Length && elems <= dl.Length && elems < heap.Length && elems <= depth.Length
    modifies dl, heap, depth
    ensures heapLen < heap.Length && heap[..][1..heapLen + 1] == Leaves(fc[..], elems)
    ensures LastLeaf(fc[..], elems, maxCode) && ZeroLens(fc[..], dl[..], elems)
    ensures ZeroDepths(fc[..], depth[..], elems) == true
  {
    ghost var f := fc[..];
    heapLen, maxCode := 0, -1;
    var n := 0;
    while n < elems
      invariant 0 <= n <= elems && fc[..] == f && heapLen <= n
      invariant heap[..][1..heapLen + 1] == Leaves(f, n)
      invariant LastLeaf(f, n, maxCode) && ZeroLens(f, dl[..], n) && ZeroDepths(f, depth[..], n)
    {
      ghost var h, l := heap[..], dl[..];
      if fc[n] != 0 {
        heapLen := heapLen + 1;
        heap[heapLen] := n;
        maxCode := n;
        depth[n] := 0;
        assert heap[..][1..heapLen + 1] == h[1..heapLen] + [n];
      } else {
        dl[n] := 0;
      }
      n := n + 1;
    }
  }

  // ----- only the first n frequencies matter -----

  lemma {:induction false} LeavesAgree(f: seq<nat>, g: seq<nat>, n: nat)
    requires n <= |f| && n <= |g| && f[..n] == g[..n]
    ensures Leaves(f, n) == Leaves(g, n)
  {
    if n > 0 {
      assert f[..n - 1] == f[..n][..n - 1] && g[..n - 1] == g[..n][..n - 1] && f[n - 1] == f[..n][n - 1]
             && g[n - 1] == g[..n][n - 1];
      LeavesAgree(f, g, n - 1);
    }
  }

  lemma {:induction false} WeightedSame(f: seq<nat>, g: seq<nat>, w: seq<nat>, n: nat)
    requires n <= |f| && n <= |g| && n <= |w| && f[..n] == g[..n]
    ensures Weighted(f, w, n) == Weighted(g, w, n)
  {
    if n > 0 {
      assert f[..n - 1] == f[..n][..n - 1] && g[..n - 1] == g[..n][..n - 1] && f[n - 1] == f[..n][n - 1]
             && g[n - 1] == g[..n][n - 1];
      WeightedSame(f, g, w, n - 1);
    }
  }

  /** One for every symbol. */
  ghost function Ones(n: nat): (r: seq<nat>)
    ensures |r| == n && forall x :: 0 <= x < n ==> r[x] == 1
  {
    seq(n, x => 1)
  }

  /** heap[1..len] holds the symbols that occur, of which maxCode is the last. */
  ghost predicate LeafHeap(h: seq<nat>, f: seq<nat>, elems: nat, len: nat, maxCode: int) {
    && len < |h| && elems <= |f| && multiset(h[1..len + 1]) == multiset(Leaves(f, elems))
    && LastLeaf(f, elems, maxCode)
  }

  /** Some of the first three symbols, absent from f, occur once in g. */
  ghost predicate Forced(f: seq<nat>, g: seq<nat>) {
    |f| == |g| && forall x :: 0 <= x < |f| && g[x] != f[x] ==> x <= 2 && f[x] == 0 && g[x] == 1
  }

  /** With fewer than two codes and the last one beyond 1, symbol 0 is free. */
  lemma ZeroFree(h: seq<nat>, f: seq<nat>, elems: nat, len: nat, maxCode: int)
    requires LeafHeap(h, f, elems, len, maxCode) && len < 2 && maxCode >= 2
    ensures f[0] == 0
  {
    LeavesOccur(f, elems);
    var l := Leaves(f, elems);
    assert |multiset(l)| == |multiset(h[1..len + 1])| == len;
    assert maxCode in l;
    assert f[0] > 0 ==> 0 in l;
  }

  lemma HeapAdded(h: seq<nat>, len: nat, len': nat, x: nat)
    requires len' == len + 1 && len' < |h|
    ensures multiset(h[len' := x][1..len' + 1]) == multiset(h[1..len + 1]) + multiset{x}
  {
    Snoc(h[1..len'], x);
    assert h[len' := x][1..len' + 1] == h[1..len'] + [x];
  }

  /** The symbol to force when fewer than two occur. */
  function NewCode(maxCode: int): nat
    requires maxCode >= -1
  {
    if maxCode < 2 then maxCode + 1 else 0
  }

  lemma LeafAdded(h: seq<nat>, f: seq<nat>, elems: nat, len: nat, len': nat, maxCode: int, x: nat, maxCode': int)
    requires LeafHeap(h, f, elems, len, maxCode) && x < elems && f[x] == 0 && len' == len + 1 && len' < |h|
    requires x == NewCode(maxCode) && maxCode' == if maxCode < 2 then x else maxCode
    ensures LeafHeap(h[len' := x], f[x := 1], elems, len', maxCode')
  {
    LeavesUpdate(f, elems, x);
    HeapAdded(h, len, len', x);
    var a: multiset<nat>, b: multiset<nat> := multiset(h[1..len + 1]), multiset(Leaves(f, elems));
    assert a + multiset{x} == b + multiset{x};
  }

  lemma NewCodeFree(h: seq<nat>, f: seq<nat>, elems: nat, len: nat, maxCode: int)
    requires LeafHeap(h, f, elems, len, maxCode) && len < 2 && elems >= 3
    ensures NewCode(maxCode) <= 2 && f[NewCode(maxCode)] == 0
  {
    if maxCode >= 2 { ZeroFree(h, f, elems, len, maxCode); }
  }

  /** opt is off by what the frequencies g cost more than f, at w bits a symbol. */
  ghost predicate Offset(len: int, len': int, f: seq<nat>, g: seq<nat>, w: seq<nat>) {
    |w| <= |f| && |w| <= |g| && len' + Weighted(g, w, |w|) == len + Weighted(f, w, |w|)
  }

  lemma OffsetStep(len: int, len': int, f: seq<nat>, g: seq<nat>, w: seq<nat>, x: nat)
    requires Offset(len, len', f, g, w) && x < |w| && g[x] == 0
    ensures Offset(len, len' - w[x], f, g[x := 1], w)
  {
    WeightedUpdate(g, w, |w|, x);
  }

  lemma ForcedStep(f: seq<nat>, g: seq<nat>, x: nat)
    requires Forced(f, g) && x <= 2 && x < |g| && g[x] == 0
    ensures Forced(f, g[x := 1])
  {
  }

  /** Makes sure that at least two symbols occur. The costs are lowered by what the
  additional ones will wrongly add to them, at one bit each. An empty slen stands for
  a missing static tree. */
  method ForceTwo(fc: array<nat>, heap: array<nat>, depth: array<nat>, elems: nat, heapLen0: nat, maxCode0: int,
                  slen: seq<nat>, optLen0: int, staticLen0: int, ghost f0: seq<nat>)
    returns (heapLen: nat, maxCode: int, optLen: int, staticLen: int)
    requires fc != heap && fc != depth && heap != depth && fc[..] == f0
    requires 3 <= elems <= fc.Length && elems <= depth.Length && 2 < heap.Length
    requires slen == [] || |slen| == elems
    requires LeafHeap(heap[..], fc[..], elems, heapLen0, maxCode0) == true
    requires ZeroDepths(fc[..], depth[..], elems) == true
    modifies fc, heap, depth
    ensures LeafHeap(heap[..], fc[..], elems, heapLen, maxCode) == true && ZeroDepths(fc[..], depth[..], elems) == true
    ensures heapLen == (if heapLen0 < 2 then 2 else heapLen0) && (heapLen0 >= 2 ==> fc[..] == f0)
    ensures Forced(f0, fc[..])
    ensures Offset(optLen0, optLen, f0, fc[..], Ones(elems)) == true
    ensures Offset(staticLen0, staticLen, f0, fc[..], slen) == true
  {
    heapLen, maxCode, optLen, staticLen := heapLen0, maxCode0, optLen0, staticLen0;
    while heapLen < 2
      invariant heapLen <= 2 || heapLen == heapLen0
      invariant heapLen0 >= 2 ==> heapLen == heapLen0 && fc[..] == f0
      invariant LeafHeap(heap[..], fc[..], elems, heapLen, maxCode) == true
      invariant ZeroDepths(fc[..], depth[..], elems) == true
      invariant Forced(f0, fc[..])
      invariant Offset(optLen0, optLen, f0, fc[..], Ones(elems)) == true
      invariant Offset(staticLen0, staticLen, f0, fc[..], slen) == true
    {
      heapLen, maxCode, optLen, staticLen :=
          ForceOne(fc, heap, depth, elems, heapLen, maxCode, slen, optLen, staticLen, optLen0, staticLen0, f0);
    }
  }

  method ForceOne(fc: array<nat>, heap: array<nat>, depth: array<nat>, elems: nat, heapLen: nat, maxCode: int,
                  slen: seq<nat>, optLen: int, staticLen: int, ghost optLen0: int, ghost staticLen0: int,
                  ghost f0: seq<nat>)
    returns (heapLen': nat, maxCode': int, optLen': int, staticLen': int)
    requires fc != heap && fc != depth && heap != depth
    requires 3 <= elems <= fc.Length && elems <= depth.Length && 2 < heap.Length && heapLen < 2
    requires slen == [] || |slen| == elems
    requires LeafHeap(heap[..], fc[..], elems, heapLen, maxCode) == true && ZeroDepths(fc[..], depth[..], elems) == true
    requires Forced(f0, fc[..])
    requires Offset(optLen0, optLen, f0, fc[..], Ones(elems)) == true
    requires Offset(staticLen0, staticLen, f0, fc[..], slen) == true
    modifies fc, heap, depth
    ensures heapLen' == heapLen + 1
    ensures LeafHeap(heap[..], fc[..], elems, heapLen', maxCode') == true
    ensures ZeroDepths(fc[..], depth[..], elems) == true
    ensures Forced(f0, fc[..])
    ensures Offset(optLen0, optLen', f0, fc[..], Ones(elems)) == true
    ensures Offset(staticLen0, staticLen', f0, fc[..], slen) == true
  {
    ghost var h, f, d := heap[..], fc[..], depth[..];
    NewCodeFree(h, f, elems, heapLen, maxCode);
    var x: nat := NewCode(maxCode);
    heapLen', maxCode', optLen' := heapLen + 1, if maxCode < 2 then x else maxCode, optLen - 1;
    staticLen' := if slen != [] then staticLen - slen[x] else staticLen;
    CodeForced(h, f, elems, heapLen, heapLen', maxCode, x, maxCode', slen, optLen0, optLen, staticLen0, staticLen,
               staticLen', f0);
    heap[heapLen'] := x;
    fc[x] := 1;
    depth[x] := 0;
    assert heap[..] == h[heapLen' := x] && fc[..] == f[x := 1] && depth[..] == d[x := 0];
    DepthForced(f, d, elems, x);
  }

  lemma CodeForced(h: seq<nat>, f: seq<nat>, elems: nat, len: nat, len': nat, maxCode: int, x: nat, maxCode': int,
                   slen: seq<nat>, opt0: int, opt: int, st0: int, st: int, st': int, f0: seq<nat>)
    requires LeafHeap(h, f, elems, len, maxCode) && len < 2 < |h| && 3 <= elems <= |f| && len' == len + 1
    requires x == NewCode(maxCode) && maxCode' == (if maxCode < 2 then x else maxCode) && x <= 2 && f[x] == 0
    requires Forced(f0, f) && (slen == [] || |slen| == elems)
    requires Offset(opt0, opt, f0, f, Ones(elems)) && Offset(st0, st, f0, f, slen)
    requires st' == if slen != [] then st - slen[x] else st
    ensures LeafHeap(h[len' := x], f[x := 1], elems, len', maxCode') == true && Forced(f0, f[x := 1])
    ensures Offset(opt0, opt - 1, f0, f[x := 1], Ones(elems)) == true && Offset(st0, st', f0, f[x := 1], slen) == true
  {
    LeafAdded(h, f, elems, len, len', maxCode, x, maxCode');
    OffsetStep(opt0, opt, f0, f, Ones(elems), x);
    ForcedStep(f0, f, x);
    if slen != [] {
      OffsetStep(st0, st, f0, f, slen, x);
    }
  }

  lemma {:induction false} SumLeaves(f: seq<nat>, n: nat)
    requires n <= |f|
    ensures Below(Leaves(f, n), |f|) && Sum(f, Leaves(f, n)) == Weighted(f, Ones(n), n)
  {
    if n > 0 {
      SumLeaves(f, n - 1);
      LeavesOccur(f, n - 1);
      SumSnoc(f, Leaves(f, n - 1), n - 1);
      WeightedAgree(f, Ones(n), Ones(n - 1), n - 1);
    }
  }

  lemma {:induction false} WeightedAgree(f: seq<nat>, v: seq<nat>, w: seq<nat>, n: nat)
    requires n <= |f| && n <= |v| && n <= |w| && forall x :: 0 <= x < n && f[x] != 0 ==> v[x] == w[x]
    ensures Weighted(f, v, n) == Weighted(f, w, n)
  {
    if n > 0 { WeightedAgree(f, v, w, n - 1); }
  }

  lemma DistinctOnce(s: seq<nat>)
    requires Distinct(s)
    ensures Once(multiset(s))
  {
    forall x: nat ensures multiset(s)[x] <= 1 {
      if x in s {
        var i :| 0 <= i < |s| && s[i] == x;
        assert s == s[..i] + [x] + s[i + 1..];
        assert x !in s[..i] && x !in s[i + 1..];
        assert multiset(s) == multiset(s[..i]) + multiset{x} + multiset(s[i + 1..]);
      }
    }
  }

  lemma LeafNodes(h: seq<nat>, f: seq<nat>, d: seq<nat>, elems: nat, len: nat, maxCode: int)
    requires LeafHeap(h, f, elems, len, maxCode) && |f| <= |d|
    ensures Nodes(h, f, d, len) && Below(h[1..len + 1], |f|) && len == |Leaves(f, elems)|
  {
    var l, s := Leaves(f, elems), h[1..len + 1];
    LeavesOccur(f, elems);
    assert |multiset(s)| == |s| && |multiset(l)| == |l|;
    BelowMultiset(l, s, |f|);
    forall i | 1 <= i <= len ensures h[i] < |f| { assert h[i] == s[i - 1]; }
  }

  lemma LeafForest(h: seq<nat>, f: seq<nat>, dad: seq<nat>, elems: nat, len: nat, maxCode: int, leaves: seq<nat>)
    requires LeafHeap(h, f, elems, len, maxCode) && leaves == Leaves(f, elems)
    ensures Forest([], Elements(h, len), f, dad, elems, 0, leaves)
  {
    LeavesOccur(f, elems);
    DistinctOnce(leaves);
    var none: multiset<nat> := multiset([]);
    assert All(leaves, elems, 0) == multiset(leaves) + none == multiset(leaves);
  }

  /** A heap of leaves is where merging starts. */
  lemma MergingStart(h: seq<nat>, f: seq<nat>, d: seq<nat>, dad: seq<nat>, elems: nat, len: nat, maxCode: int,
                     leaves: seq<nat>, total: nat)
    requires LeafHeap(h, f, elems, len, maxCode) && HeapFrom(h, f, d, len, 1) && leaves == Leaves(f, elems)
    requires |h| == HEAP_SIZE && |f| == |dad| <= |d| && 2 * elems < |f| && elems <= 286 && len >= 1
    requires total == Weighted(f, Ones(elems), elems) < 65536
    ensures Merging(h, f, d, dad, elems, 0, leaves, len, HEAP_SIZE, total)
  {
    LeafNodes(h, f, d, elems, len, maxCode);
    LeafForest(h, f, dad, elems, len, maxCode, leaves);
    assert h[HEAP_SIZE..] == [];
    SumLeaves(f, elems);
    SumMultiset(f, h[1..len + 1], leaves);
  }

  method Heapify(fc: array<nat>, depth: array<nat>, heap: array<nat>, heapLen: nat)
    requires heap != fc && heap != depth && Nodes(heap[..], fc[..], depth[..], heapLen)
    modifies heap
    ensures HeapFrom(heap[..], fc[..], depth[..], heapLen, 1)
    ensures Elements(heap[..], heapLen) == old(Elements(heap[..], heapLen))
  {
    var n := heapLen / 2;
    while n >= 1
      invariant 0 <= n <= heapLen / 2
      invariant Nodes(heap[..], fc[..], depth[..], heapLen)
      invariant HeapFrom(heap[..], fc[..], depth[..], heapLen, n + 1)
      invariant Elements(heap[..], heapLen) == old(Elements(heap[..], heapLen))
    {
      PqDownHeap(fc, depth, heap, heapLen, n);
      n := n - 1;
    }
  }

  /** What build_tree has done before it starts to merge: f0 are the frequencies given, f those after forcing two
  codes. */
  ghost predicate Prepared(f0: seq<nat>, f: seq<nat>, dl: seq<nat>, elems: nat, maxCode: int) {
    && elems <= |f0| == |f| == |dl|
    && Forced(f0, f) && LastLeaf(f, elems, maxCode) && ZeroLens(f, dl, elems)
    && (f == f0 || |Leaves(f, elems)| == 2)
  }

  /** The start of build_tree, up to the heap of leaves. */
  method PrepareHeap(fc: array<nat>, dl: array<nat>, heap: array<nat>, depth: array<nat>, elems: nat, slen: seq<nat>,
                     optLen0: int, staticLen0: int, ghost f0: seq<nat>)
    returns (heapLen: nat, maxCode: int, optLen: int, staticLen: int, ghost leaves: seq<nat>, ghost total: nat)
    requires Apart(fc, dl, heap, depth) && fc[..] == f0
    requires heap.Length == HEAP_SIZE && fc.Length == dl.Length <= depth.Length && 2 * elems < fc.Length
    requires 3 <= elems <= 286
    requires slen == [] || |slen| == elems
    requires Weighted(f0, Ones(elems), elems) < 65530
    modifies fc, dl, heap, depth
    ensures heapLen >= 2 && leaves == Leaves(fc[..], elems) && maxCode >= 0 && heapLen == |leaves|
    ensures Merging(heap[..], fc[..], depth[..], dl[..], elems, 0, leaves, heapLen, HEAP_SIZE, total) == true
    ensures Tied([], Elements(heap[..], heapLen), fc[..], depth[..], elems, 0) == true
    ensures Prepared(f0, fc[..], dl[..], elems, maxCode) == true
    ensures Offset(optLen0, optLen, f0, fc[..], Ones(elems)) == true
    ensures Offset(staticLen0, staticLen, f0, fc[..], slen) == true
  {
    heapLen, maxCode := CollectLeaves(fc, dl, heap, depth, elems);
    ghost var dads := dl[..];
    heapLen, maxCode, optLen, staticLen :=
        ForceTwo(fc, heap, depth, elems, heapLen, maxCode, slen, optLen0, staticLen0, f0);
    ghost var f := fc[..];
    LeafNodes(heap[..], f, depth[..], elems, heapLen, maxCode);
    ForcedTotal(f0, f, elems);
    ForcedZero(f0, f, dads, elems);
    ghost var d := depth[..];
    Heapify(fc, depth, heap, heapLen);
    assert depth[..] == d;
    leaves := Leaves(f, elems);
    total := Weighted(f, Ones(elems), elems);
    assert fc[..] == f && dl[..] == dads;
    SomeLeaf(f, elems, maxCode);
    MergingStart(heap[..], f, d, dads, elems, heapLen, maxCode, leaves, total);
    LeavesTied(heap[..], f, d, elems, heapLen, maxCode);
  }

  lemma LeavesTied(h: seq<nat>, f: seq<nat>, d: seq<nat>, elems: nat, len: nat, maxCode: int)
    requires LeafHeap(h, f, elems, len, maxCode) && ZeroDepths(f, d, elems) && |f| <= |d|
    ensures Tied([], Elements(h, len), f, d, elems, 0)
  {
    LeavesOccur(f, elems);
    forall x: nat | x in Elements(h, len) ensures x < elems && f[x] > 0 && d[x] == 0 {
      assert x in multiset(Leaves(f, elems));
      assert x in Leaves(f, elems);
    }
    TiedStart(Elements(h, len), f, d, elems);
  }

  lemma ForcedTotal(f: seq<nat>, g: seq<nat>, n: nat)
    requires Forced(f, g) && n <= |f|
    ensures Weighted(g, Ones(n), n) <= Weighted(f, Ones(n), n) + 3
  {
    ForcedSum(f, g, Ones(n), n);
  }

  lemma {:induction false} ForcedSum(f: seq<nat>, g: seq<nat>, w: seq<nat>, n: nat)
    requires Forced(f, g) && n <= |f| && n <= |w| && forall x :: 0 <= x < n ==> w[x] == 1
    ensures Weighted(g, w, n) <= Weighted(f, w, n) + if n < 3 then n else 3
  {
    if n > 0 { ForcedSum(f, g, w, n - 1); }
  }

  lemma ForcedZero(f: seq<nat>, g: seq<nat>, dl: seq<nat>, n: nat)
    requires Forced(f, g) && ZeroLens(f, dl, n)
    ensures ZeroLens(g, dl, n)
  {
  }
}
