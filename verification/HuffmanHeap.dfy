/** The priority queue of tree nodes: `pqdownheap` over the array `heap`,
whose elements 1..heap_len are node numbers compared by (frequency, depth). */
module HuffmanHeap {
  import opened Bits

  /** The `smaller` macro: by frequency, the tree depth breaking ties. */
  predicate Smaller(f: seq<nat>, d: seq<nat>, n: nat, m: nat)
    requires n < |f| && m < |f| && |f| <= |d|
  {
    f[n] < f[m] || (f[n] == f[m] && d[n] <= d[m])
  }

  /** heap[1..len] holds node numbers. */
  ghost predicate Nodes(h: seq<nat>, f: seq<nat>, d: seq<nat>, len: nat) {
    && len < |h| && |f| <= |d|
    && forall i :: 1 <= i <= len ==> h[i] < |f|
  }

  /** The node at position i is no smaller than its father. */
  ghost predicate FatherFirst(h: seq<nat>, f: seq<nat>, d: seq<nat>, i: nat) {
    && 2 <= i < |h| && |f| <= |d| && h[i / 2] < |f| && h[i] < |f|
    && Smaller(f, d, h[i / 2], h[i])
  }

  /** Every father at position k or later is no larger than its sons. */
  ghost predicate HeapFrom(h: seq<nat>, f: seq<nat>, d: seq<nat>, len: nat, k: nat) {
    forall i :: 2 <= i <= len && i / 2 >= k ==> FatherFirst(h, f, d, i)
  }

  /** The son at position i is no smaller than v. */
  ghost predicate NotAbove(h: seq<nat>, f: seq<nat>, d: seq<nat>, v: nat, i: nat) {
    i < |h| && |f| <= |d| && v < |f| && h[i] < |f| && Smaller(f, d, v, h[i])
  }

  /** Neither son of k is smaller than v. */
  ghost predicate SonsNotAbove(h: seq<nat>, f: seq<nat>, d: seq<nat>, len: nat, k: nat, v: nat) {
    && (2 * k <= len ==> NotAbove(h, f, d, v, 2 * k))
    && (2 * k + 1 <= len ==> NotAbove(h, f, d, v, 2 * k + 1))
  }

  /** As HeapFrom(k0), except around position k, which waits for the value v. */
  ghost predicate Hole(h: seq<nat>, f: seq<nat>, d: seq<nat>, len: nat, k0: nat, k: nat, v: nat)
    requires Nodes(h, f, d, len) && 1 <= k0 <= k <= len && v < |f|
  {
    && (forall i :: 2 <= i <= len && i / 2 >= k0 && i / 2 != k && i != k ==> FatherFirst(h, f, d, i))
    && (k > k0 ==> k / 2 >= k0 && Smaller(f, d, h[k / 2], v) && SonsNotAbove(h, f, d, len, k, h[k / 2]))
  }

  lemma HoleDown(h: seq<nat>, f: seq<nat>, d: seq<nat>, len: nat, k0: nat, k: nat, v: nat, j: nat)
    requires Nodes(h, f, d, len) && 1 <= k0 <= k < j <= len && v < |f|
    requires Hole(h, f, d, len, k0, k, v)
    requires j / 2 == k && Smaller(f, d, h[j], v) && SonsNotAbove(h, f, d, len, k, h[j])
    ensures Nodes(h[k := h[j]], f, d, len) && Hole(h[k := h[j]], f, d, len, k0, j, v)
  {
    var h' := h[k := h[j]];
    forall i | 2 <= i <= len && i / 2 >= k0 && i / 2 != j && i != j
      ensures FatherFirst(h', f, d, i)
    {
      if i / 2 == k {
        assert NotAbove(h, f, d, h[j], i);
      } else if i != k {
        assert FatherFirst(h, f, d, i);
      }
    }
    forall i | i == 2 * j || i == 2 * j + 1
      ensures i <= len ==> NotAbove(h', f, d, h'[j / 2], i)
    {
      if i <= len { assert FatherFirst(h, f, d, i); }
    }
  }

  lemma HoleFill(h: seq<nat>, f: seq<nat>, d: seq<nat>, len: nat, k0: nat, k: nat, v: nat)
    requires Nodes(h, f, d, len) && 1 <= k0 <= k <= len && v < |f|
    requires Hole(h, f, d, len, k0, k, v) && SonsNotAbove(h, f, d, len, k, v)
    ensures Nodes(h[k := v], f, d, len) && HeapFrom(h[k := v], f, d, len, k0)
  {
    var h' := h[k := v];
    forall i | 2 <= i <= len && i / 2 >= k0
      ensures FatherFirst(h', f, d, i)
    {
      if i / 2 == k {
        assert NotAbove(h, f, d, v, i);
      } else if i != k {
        assert FatherFirst(h, f, d, i);
      }
    }
  }

  /** The nodes in the heap. */
  ghost function Elements(h: seq<nat>, len: nat): multiset<nat>
    requires len < |h|
  {
    multiset(h[1..len + 1])
  }

  lemma ElementsUpdate(h: seq<nat>, len: nat, k: nat, v: nat)
    requires len < |h| && 1 <= k <= len
    ensures Elements(h[k := v], len) == Elements(h, len) - multiset{h[k]} + multiset{v}
  {
    assert h[k := v][1..len + 1] == h[1..len + 1][k - 1 := v];
  }

  lemma HoleMoves(h: seq<nat>, len: nat, k: nat, j: nat, v: nat)
    requires len < |h| && 1 <= k <= len && 1 <= j <= len && j != k
    ensures Elements(h[k := h[j]][j := v], len) == Elements(h[k := v], len)
  {
    var a, x := h[k := h[j]], h[j];
    ElementsUpdate(h, len, k, x);
    ElementsUpdate(a, len, j, v);
    ElementsUpdate(h, len, k, v);
    Back(Elements(h, len) - multiset{h[k]}, x, v);
  }

  lemma Back(e: multiset<nat>, x: nat, v: nat)
    ensures e + multiset{x} - multiset{x} + multiset{v} == e + multiset{v}
  {
    assert e + multiset{x} - multiset{x} == e;
  }

  /** The state of pqdownheap: h0 with the value v taken out, and the hole now at k. */
  ghost predicate Sinking(h0: seq<nat>, h: seq<nat>, f: seq<nat>, d: seq<nat>, len: nat, k0: nat, k: nat, v: nat) {
    && |h| == |h0| && Nodes(h, f, d, len) && 1 <= k0 <= k <= len && v < |f|
    && Hole(h, f, d, len, k0, k, v)
    && Elements(h[k := v], len) == Elements(h0, len)
    && h[len + 1..] == h0[len + 1..]
  }

  /** The smaller of the two sons of k. */
  function Son(h: seq<nat>, f: seq<nat>, d: seq<nat>, len: nat, k: nat): (j: nat)
    requires len < |h| && |f| <= |d| && 1 <= k && 2 * k <= len
    requires h[2 * k] < |f| && (2 * k + 1 <= len ==> h[2 * k + 1] < |f|)
    ensures k < j <= len && j / 2 == k
    ensures h[j] < |f| && Smaller(f, d, h[j], h[2 * k]) && (2 * k + 1 <= len ==> Smaller(f, d, h[j], h[2 * k + 1]))
  {
    if 2 * k < len && Smaller(f, d, h[2 * k + 1], h[2 * k]) then 2 * k + 1 else 2 * k
  }

  lemma SinkStep(h0: seq<nat>, h: seq<nat>, f: seq<nat>, d: seq<nat>, len: nat, k0: nat, k: nat, v: nat)
    requires Sinking(h0, h, f, d, len, k0, k, v) && 2 * k <= len
    requires !Smaller(f, d, v, h[Son(h, f, d, len, k)])
    ensures var j := Son(h, f, d, len, k); Sinking(h0, h[k := h[j]], f, d, len, k0, j, v)
  {
    var j := Son(h, f, d, len, k);
    HoleDown(h, f, d, len, k0, k, v, j);
    HoleMoves(h, len, k, j, v);
  }

  lemma SinkEnd(h0: seq<nat>, h: seq<nat>, f: seq<nat>, d: seq<nat>, len: nat, k0: nat, k: nat, v: nat)
    requires Sinking(h0, h, f, d, len, k0, k, v)
    requires 2 * k <= len ==> Smaller(f, d, v, h[Son(h, f, d, len, k)])
    ensures Nodes(h[k := v], f, d, len) && HeapFrom(h[k := v], f, d, len, k0)
    ensures h[k := v][len + 1..] == h0[len + 1..]
  {
    HoleFill(h, f, d, len, k0, k, v);
  }

  /** Sinks heap[k0] to its place below: same nodes, and a heap from k0 on. */
  method PqDownHeap(fc: array<nat>, depth: array<nat>, heap: array<nat>, heapLen: nat, k0: nat)
    requires heap != fc && heap != depth && 1 <= k0 <= heapLen
    requires Nodes(heap[..], fc[..], depth[..], heapLen)
    requires HeapFrom(heap[..], fc[..], depth[..], heapLen, k0 + 1)
    modifies heap
    ensures Nodes(heap[..], fc[..], depth[..], heapLen)
    ensures HeapFrom(heap[..], fc[..], depth[..], heapLen, k0)
    ensures Elements(heap[..], heapLen) == old(Elements(heap[..], heapLen))
    ensures heap[..][heapLen + 1..] == old(heap[..])[heapLen + 1..]
  {
    ghost var h0 := heap[..];
    var f, d := fc[..], depth[..];
    var k, v := k0, heap[k0];
    assert h0[k := v] == h0;
    while 2 * k <= heapLen
      invariant Sinking(h0, heap[..], f, d, heapLen, k0, k, v)
      decreases heapLen - k
    {
      ghost var h := heap[..];
      var j := Son(heap[..], f, d, heapLen, k);
      if Smaller(f, d, v, heap[j]) {
        break;
      }
      SinkStep(h0, h, f, d, heapLen, k0, k, v);
      heap[k] := heap[j];
      assert heap[..] == h[k := h[j]];
      k := j;
    }
    ghost var h := heap[..];
    SinkEnd(h0, h, f, d, heapLen, k0, k, v);
    heap[k] := v;
    assert heap[..] == h[k := v];
  }

  /** The root of a heap is minimal. */
  lemma {:induction false} RootSmallest(h: seq<nat>, f: seq<nat>, d: seq<nat>, len: nat, i: nat)
    requires Nodes(h, f, d, len) && HeapFrom(h, f, d, len, 1) && 1 <= i <= len
    ensures Smaller(f, d, h[1], h[i])
    decreases i
  {
    if i > 1 {
      assert FatherFirst(h, f, d, i);
      RootSmallest(h, f, d, len, i / 2);
    }
  }
}
