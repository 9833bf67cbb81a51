/** The first half of `build_tree`: collecting the used symbols, forcing at
least two of them, and combining the two least frequent nodes until one is left. */
module HuffmanMerge {
  import opened Bits
  import opened Sums
  import opened HuffmanCode
  import opened HuffmanHeap
  import opened HuffmanTree
  import opened HuffmanTies

  const HEAP_SIZE := 573

  /** The symbols below n that occur. */
  function Leaves(f: seq<nat>, n: nat): (r: seq<nat>)
    requires n <= |f|
    ensures |r| <= n
  {
    if n == 0 then [] else if f[n - 1] > 0 then Leaves(f, n - 1) + [n - 1] else Leaves(f, n - 1)
  }

  ghost predicate Once(ms: multiset<nat>) {
    forall x: nat :: ms[x] <= 1
  }

  /** Everything that has been a node of the forest after k merges. */
  ghost function All(leaves: seq<nat>, elems: nat, k: nat): multiset<nat> {
    multiset(leaves) + multiset(Internals(elems, k))
  }

  ghost predicate AtLeast(ms: multiset<nat>, f: seq<nat>, c: nat) {
    forall x: nat :: x in ms ==> x < |f| && f[x] >= c
  }

  ghost predicate Occur(leaves: seq<nat>, f: seq<nat>) {
    forall i :: 0 <= i < |leaves| ==> leaves[i] < |f| && f[leaves[i]] > 0
  }

  /** A forest after k merges: its roots, and the merged pairs in ord, the latest and most frequent first. */
  ghost predicate Forest(ord: seq<nat>, roots: multiset<nat>, f: seq<nat>, dad: seq<nat>, elems: nat, k: nat,
                         leaves: seq<nat>) {
    && Below(leaves, elems) && Occur(leaves, f)
    && Merged(ord, dad, f, elems, k)
    && Accounted(ord, roots, elems, k, leaves)
    && Decreasing(ord, f) && (ord != [] ==> AtLeast(roots, f, f[ord[0]]))
  }

  /** Every leaf and every internal node is a root or listed, and only once. */
  ghost predicate Accounted(ord: seq<nat>, roots: multiset<nat>, elems: nat, k: nat, leaves: seq<nat>) {
    roots + multiset(ord) == All(leaves, elems, k) && Once(All(leaves, elems, k))
  }

  /** n and then m are the least frequent roots. */
  ghost predicate TwoLeast(roots: multiset<nat>, f: seq<nat>, n: nat, m: nat) {
    && n in roots && m in roots && n != m && n < |f| && m < |f| && f[n] <= f[m]
    && forall x: nat :: x in roots && x != n ==> x < |f| && f[x] >= f[m]
  }

  /** The only new dads are those of n and m. */
  ghost predicate NewDads(dad: seq<nat>, dad': seq<nat>, node: nat, n: nat, m: nat) {
    && n < |dad| && m < |dad| && |dad'| == |dad| && dad'[n] == node && dad'[m] == node
    && forall x :: 0 <= x < |dad| && x != n && x != m ==> dad'[x] == dad[x]
  }

  lemma AllBelow(leaves: seq<nat>, elems: nat, k: nat, x: nat)
    requires Below(leaves, elems) && x in All(leaves, elems, k)
    ensures x < elems + k
  {
    if x in multiset(leaves) {
      assert x in leaves;
    } else {
      assert x in Internals(elems, k);
    }
  }

  lemma AllGrows(leaves: seq<nat>, elems: nat, k: nat, node: nat, k': nat)
    requires Below(leaves, elems) && Once(All(leaves, elems, k)) && node == elems + k && k' == k + 1
    ensures All(leaves, elems, k') == All(leaves, elems, k) + multiset{node}
    ensures Once(All(leaves, elems, k'))
  {
    InternalsStep(elems, k, node, k');
    var rest := Internals(elems, k);
    assert multiset([node] + rest) == multiset{node} + multiset(rest);
    assert node !in leaves && node !in rest;
  }

  lemma InternalsStep(elems: nat, k: nat, node: nat, k': nat)
    requires node == elems + k && k' == k + 1
    ensures Internals(elems, k') == [node] + Internals(elems, k)
  {
  }

  lemma RootFresh(ord: seq<nat>, roots: multiset<nat>, elems: nat, k: nat, leaves: seq<nat>, x: nat)
    requires Accounted(ord, roots, elems, k, leaves) && Below(leaves, elems) && x in roots
    ensures x !in ord && x < elems + k && roots[x] <= 1
  {
    assert All(leaves, elems, k)[x] <= 1;
    assert x in ord ==> x in multiset(ord);
    AllBelow(leaves, elems, k, x);
  }

  // Below, values such as node == elems + k are passed by name: the verifier matches names, not sums.

  lemma MergedStep(ord: seq<nat>, f: seq<nat>, dad: seq<nat>, elems: nat, k: nat, node: nat, k': nat, n: nat, m: nat,
                   f': seq<nat>, dad': seq<nat>)
    requires node == elems + k && k' == k + 1
    requires Merged(ord, dad, f, elems, k) && |f| == |dad| && n !in ord && m !in ord
    requires NewSum(f, f', node, n, m) && NewDads(dad, dad', node, n, m)
    ensures Merged([m, n] + ord, dad', f', elems, k')
  {
    MergedFrame(ord, dad, f, dad', f', elems, k);
    assert ([m, n] + ord)[2..] == ord;
  }

  lemma AccountedStep(ord: seq<nat>, roots: multiset<nat>, elems: nat, k: nat, leaves: seq<nat>, node: nat, k': nat,
                      n: nat, m: nat, roots': multiset<nat>)
    requires node == elems + k && k' == k + 1
    requires Accounted(ord, roots, elems, k, leaves) && Below(leaves, elems)
    requires roots' + multiset{n, m} == roots + multiset{node}
    ensures Accounted([m, n] + ord, roots', elems, k', leaves)
  {
    AllGrows(leaves, elems, k, node, k');
    var rest: multiset<nat>, pair: multiset<nat>, top: multiset<nat> := multiset(ord), multiset{n, m}, multiset{node};
    assert multiset([m, n] + ord) == pair + rest;
    assert roots' + (pair + rest) == (roots' + pair) + rest;
    assert (roots + top) + rest == (roots + rest) + top;
  }

  lemma DecreasingStep(ord: seq<nat>, f: seq<nat>, f': seq<nat>, elems: nat, k: nat, dad: seq<nat>, node: nat, n: nat,
                       m: nat)
    requires node == elems + k
    requires Merged(ord, dad, f, elems, k) && Decreasing(ord, f) && NewSum(f, f', node, n, m)
    requires f[n] <= f[m] && (ord != [] ==> f[ord[0]] <= f[n])
    ensures Decreasing([m, n] + ord, f')
  {
    var all := [m, n] + ord;
    forall i | 0 <= i < |ord| ensures ord[i] < elems + k && f'[ord[i]] == f[ord[i]] <= f[n] {
      MergedBelow(ord, dad, f, elems, k, i);
      if i > 0 { assert f[ord[0]] >= f[ord[i]]; }
    }
    forall i, j | 0 <= i < j < |all| ensures f'[all[i]] >= f'[all[j]] {
      if i >= 2 { assert all[i] == ord[i - 2]; }
      if j >= 2 { assert all[j] == ord[j - 2]; }
    }
    forall i | 0 <= i < |all| ensures all[i] < |f'| {
      if i >= 2 { assert all[i] == ord[i - 2]; }
    }
  }

  lemma AtLeastStep(roots: multiset<nat>, f: seq<nat>, f': seq<nat>, node: nat, n: nat, m: nat, roots': multiset<nat>)
    requires NewSum(f, f', node, n, m) && TwoLeast(roots, f, n, m) && roots[n] <= 1
    requires roots' + multiset{n, m} == roots + multiset{node}
    ensures AtLeast(roots', f', f'[m])
  {
    forall x: nat | x in roots' ensures x < |f'| && f'[x] >= f'[m] {
      assert (roots' + multiset{n, m})[x] == (roots + multiset{node})[x];
    }
  }

  /** Merging the two least frequent roots under the new node elems+k keeps a forest. */
  lemma ForestStep(ord: seq<nat>, roots: multiset<nat>, f: seq<nat>, dad: seq<nat>, elems: nat, k: nat,
                   leaves: seq<nat>, node: nat, k': nat, n: nat, m: nat, f': seq<nat>, dad': seq<nat>, ord': seq<nat>,
                   roots': multiset<nat>)
    requires node == elems + k && k' == k + 1 && |f| == |dad|
    requires Forest(ord, roots, f, dad, elems, k, leaves) && TwoLeast(roots, f, n, m)
    requires NewSum(f, f', node, n, m) && NewDads(dad, dad', node, n, m)
    requires ord' == [m, n] + ord && roots' + multiset{n, m} == roots + multiset{node}
    ensures Forest(ord', roots', f', dad', elems, k', leaves)
  {
    assert ord != [] ==> f[ord[0]] <= f[n];
    RootFresh(ord, roots, elems, k, leaves, n);
    RootFresh(ord, roots, elems, k, leaves, m);
    MergedStep(ord, f, dad, elems, k, node, k', n, m, f', dad');
    DecreasingStep(ord, f, f', elems, k, dad, node, n, m);
    AtLeastStep(roots, f, f', node, n, m, roots');
    AccountedStep(ord, roots, elems, k, leaves, node, k', n, m, roots');
  }

  lemma RootAtLeast(h: seq<nat>, f: seq<nat>, d: seq<nat>, len: nat)
    requires Nodes(h, f, d, len) && HeapFrom(h, f, d, len, 1) && len >= 1
    ensures AtLeast(Elements(h, len), f, f[h[1]])
    ensures h[1] in Elements(h, len)
  {
    var s := h[1..len + 1];
    forall x: nat | x in multiset(s) ensures x < |f| && f[x] >= f[h[1]] {
      assert x in s;
      var i :| 0 <= i < |s| && s[i] == x;
      RootSmallest(h, f, d, len, i + 1);
    }
    assert s[0] == h[1];
  }

  lemma LastToRoot(h: seq<nat>, f: seq<nat>, d: seq<nat>, len: nat)
    requires Nodes(h, f, d, len) && HeapFrom(h, f, d, len, 1) && len >= 2
    ensures var h' := h[1 := h[len]];
      && Nodes(h', f, d, len - 1) && HeapFrom(h', f, d, len - 1, 2)
      && Elements(h', len - 1) + multiset{h[1]} == Elements(h, len)
  {
    var h' := h[1 := h[len]];
    var mid := h[2..len];
    assert h[1..len + 1] == [h[1]] + mid + [h[len]];
    assert h'[1..len] == [h[len]] + mid;
    RootReplaced(h, f, d, len, len - 1, h[len]);
  }

  lemma RootReplaced(h: seq<nat>, f: seq<nat>, d: seq<nat>, len: nat, len': nat, v: nat)
    requires Nodes(h, f, d, len) && HeapFrom(h, f, d, len, 1) && 1 <= len' <= len && v < |f|
    ensures Nodes(h[1 := v], f, d, len') && HeapFrom(h[1 := v], f, d, len', 2)
  {
    forall i | 2 <= i <= len' && i / 2 >= 2 ensures FatherFirst(h[1 := v], f, d, i) {
      assert FatherFirst(h, f, d, i);
    }
  }

  /** The pqremove macro. */
  method PqRemove(fc: array<nat>, depth: array<nat>, heap: array<nat>, heapLen: nat) returns (top: nat)
    requires heap != fc && heap != depth && heapLen >= 2
    requires Nodes(heap[..], fc[..], depth[..], heapLen) && HeapFrom(heap[..], fc[..], depth[..], heapLen, 1)
    modifies heap
    ensures top == old(heap[1])
    ensures Nodes(heap[..], fc[..], depth[..], heapLen - 1) && HeapFrom(heap[..], fc[..], depth[..], heapLen - 1, 1)
    ensures Elements(heap[..], heapLen - 1) + multiset{top} == old(Elements(heap[..], heapLen))
    ensures heap[..][heapLen + 1..] == old(heap[..])[heapLen + 1..]
  {
    ghost var h := heap[..];
    LastToRoot(h, fc[..], depth[..], heapLen);
    top := heap[1];
    heap[1] := heap[heapLen];
    assert heap[..] == h[1 := h[heapLen]];
    PqDownHeap(fc, depth, heap, heapLen - 1, 1);
    assert heap[..][heapLen + 1..] == heap[..][heapLen..][1..];
    assert h[heapLen + 1..] == h[1 := h[heapLen]][heapLen..][1..];
  }

  lemma ElementsReplace(h: seq<nat>, len: nat, k: nat, v: nat)
    requires len < |h| && 1 <= k <= len
    ensures Elements(h[k := v], len) + multiset{h[k]} == Elements(h, len) + multiset{v}
  {
    ElementsUpdate(h, len, k, v);
    assert h[1..len + 1][k - 1] == h[k];
  }

  /** Puts `node` in the place of the root m, leaving the tail from t on alone. */
  method PqReplace(fc: array<nat>, depth: array<nat>, heap: array<nat>, heapLen: nat, node: nat,
                   ghost roots: multiset<nat>, ghost m: nat, ghost t: nat, ghost tail: seq<nat>)
    requires heap != fc && heap != depth && heapLen >= 1 && node < fc.Length
    requires Nodes(heap[..], fc[..], depth[..], heapLen) && HeapFrom(heap[..], fc[..], depth[..], heapLen, 1)
    requires Elements(heap[..], heapLen) == roots && heap[1] == m
    requires heapLen < t <= heap.Length && heap[..][t..] == tail
    modifies heap
    ensures Nodes(heap[..], fc[..], depth[..], heapLen) && HeapFrom(heap[..], fc[..], depth[..], heapLen, 1)
    ensures Elements(heap[..], heapLen) + multiset{m} == roots + multiset{node}
    ensures heap[..][t..] == tail
  {
    ghost var h := heap[..];
    ElementsReplace(h, heapLen, 1, node);
    RootReplaced(h, fc[..], depth[..], heapLen, heapLen, node);
    heap[1] := node;
    assert heap[..] == h[1 := node];
    PqDownHeap(fc, depth, heap, heapLen, 1);
    SameTail(h[1 := node], heap[..], heapLen + 1, t);
    assert h[1 := node][t..] == h[t..];
  }

  lemma HeapFrame(h: seq<nat>, f: seq<nat>, d: seq<nat>, h': seq<nat>, f': seq<nat>, d': seq<nat>, len: nat, k: nat,
                  node: nat)
    requires Nodes(h, f, d, len) && 1 <= k && HeapFrom(h, f, d, len, k) && len < |h'| && |f'| == |f| && |d'| == |d|
    requires forall i :: 1 <= i <= len ==> h'[i] == h[i] && h[i] != node
    requires forall x :: 0 <= x < |f| && x != node ==> f'[x] == f[x] && d'[x] == d[x]
    ensures Nodes(h', f', d', len) && HeapFrom(h', f', d', len, k)
    ensures Elements(h', len) == Elements(h, len)
  {
    assert h'[1..len + 1] == h[1..len + 1];
    forall i | 2 <= i <= len && i / 2 >= k ensures FatherFirst(h', f', d', i) {
      assert FatherFirst(h, f, d, i);
    }
  }

  lemma TailWritten(h0: seq<nat>, h1: seq<nat>, h2: seq<nat>, len: nat, t: nat, n: nat, m: nat)
    requires |h0| == |h1| == |h2| && len <= t && t + 2 <= |h0|
    requires h1[len + 1..] == h0[len + 1..] && h2 == h1[t + 1 := n][t := m]
    ensures h2[t..] == [m, n] + h0[t + 2..]
  {
    assert h1[t + 2..] == h1[len + 1..][t + 1 - len..] && h0[t + 2..] == h0[len + 1..][t + 1 - len..];
  }

  /** Takes the two least frequent nodes off the heap and writes them to the two places from top on. */
  method TakeTwo(fc: array<nat>, depth: array<nat>, heap: array<nat>, heapLen: nat, top: nat,
                 ghost roots: multiset<nat>, ghost ord: seq<nat>) returns (n: nat, m: nat)
    requires heap != fc && heap != depth && 2 <= heapLen <= top && top + 2 <= heap.Length
    requires Nodes(heap[..], fc[..], depth[..], heapLen) && HeapFrom(heap[..], fc[..], depth[..], heapLen, 1)
    requires Elements(heap[..], heapLen) == roots && heap[..][top + 2..] == ord
    modifies heap
    ensures n == old(heap[1]) && m == heap[1]
    ensures Nodes(heap[..], fc[..], depth[..], heapLen - 1) && HeapFrom(heap[..], fc[..], depth[..], heapLen - 1, 1)
    ensures Elements(heap[..], heapLen - 1) + multiset{n} == roots
    ensures heap[..][top..] == [m, n] + ord
  {
    ghost var h0 := heap[..];
    n := PqRemove(fc, depth, heap, heapLen);
    m := heap[1];
    ghost var h1 := heap[..];
    heap[top + 1] := n;
    heap[top] := m;
    TailWritten(h0, h1, heap[..], heapLen, top, n, m);
    HeapFrame(h1, fc[..], depth[..], heap[..], fc[..], depth[..], heapLen - 1, 1, fc.Length);
  }

  /** The cast to an 8-bit word. */
  method CastUch(v: nat) returns (r: nat)
    ensures r < 256 && (v < 256 ==> r == v)
  {
    r := v % 256;
  }

  /** Creates the father of n and m. */
  method NewNode(fc: array<nat>, dl: array<nat>, depth: array<nat>, node: nat, n: nat, m: nat)
    requires fc != dl && fc != depth && dl != depth && n < node && m < node < fc.Length
    requires fc.Length == dl.Length <= depth.Length && fc[n] + fc[m] < 65536 && depth[n] < 255 && depth[m] < 255
    modifies fc, dl, depth
    ensures NewSum(old(fc[..]), fc[..], node, n, m)
    ensures NewDads(old(dl[..]), dl[..], node, n, m)
    ensures NewDepth(old(depth[..]), depth[..], node, n, m)
  {
    var sum := CastUsh(fc[n] + fc[m]);
    fc[node] := sum;
    var level := CastUch((if depth[n] >= depth[m] then depth[n] else depth[m]) + 1);
    depth[node] := level;
    dl[n] := node;
    dl[m] := node;
  }

  lemma SameTail(h: seq<nat>, h': seq<nat>, len: nat, t: nat)
    requires |h| == |h'| && len <= t <= |h| && h[len..] == h'[len..]
    ensures h[t..] == h'[t..]
  {
    assert h[t..] == h[len..][t - len..] && h'[t..] == h'[len..][t - len..];
  }

  /** The two nodes taken from the heap are its two least frequent ones. */
  lemma TakenLeast(h0: seq<nat>, h2: seq<nat>, f: seq<nat>, d: seq<nat>, len: nat, node: nat)
    requires Nodes(h0, f, d, len) && HeapFrom(h0, f, d, len, 1) && 2 <= len
    requires Nodes(h2, f, d, len - 1) && HeapFrom(h2, f, d, len - 1, 1)
    requires Elements(h2, len - 1) + multiset{h0[1]} == Elements(h0, len) && Once(Elements(h0, len))
    requires forall i :: 1 <= i <= len ==> h0[i] < node
    ensures TwoLeast(Elements(h0, len), f, h0[1], h2[1])
    ensures forall i :: 1 <= i <= len - 1 ==> h2[i] < node
  {
    var n, m, rest := h0[1], h2[1], Elements(h2, len - 1);
    RootAtLeast(h0, f, d, len);
    RootAtLeast(h2, f, d, len - 1);
    assert Elements(h0, len)[n] <= 1;
    assert m in Elements(h0, len);
    forall x: nat | x in Elements(h0, len) && x != n ensures x < |f| && f[x] >= f[m] {
      assert x in rest;
    }
    forall i | 1 <= i <= len - 1 ensures h2[i] < node {
      assert h2[1..len][i - 1] == h2[i];
      assert h2[i] in rest;
      assert h2[i] in Elements(h0, len);
      assert h2[i] in h0[1..len + 1];
    }
  }

  lemma RootFirst(h: seq<nat>, f: seq<nat>, d: seq<nat>, len: nat)
    requires Nodes(h, f, d, len) && HeapFrom(h, f, d, len, 1) && len >= 1
    ensures NotBefore(Elements(h, len), f, d, h[1])
  {
    var s := h[1..len + 1];
    forall x: nat | x in multiset(s) ensures Sooner(f, d, h[1], x) {
      assert x in s;
      var i :| 0 <= i < |s| && s[i] == x;
      RootSmallest(h, f, d, len, i + 1);
    }
  }

  /** They are the first two in the queue. */
  lemma TakenFirst(h0: seq<nat>, h2: seq<nat>, f: seq<nat>, d: seq<nat>, len: nat)
    requires Nodes(h0, f, d, len) && HeapFrom(h0, f, d, len, 1) && 2 <= len
    requires Nodes(h2, f, d, len - 1) && HeapFrom(h2, f, d, len - 1, 1)
    requires Elements(h2, len - 1) + multiset{h0[1]} == Elements(h0, len)
    requires TwoLeast(Elements(h0, len), f, h0[1], h2[1])
    ensures FirstTwo(Elements(h0, len), f, d, h0[1], h2[1])
  {
    var n, m, rest := h0[1], h2[1], Elements(h2, len - 1);
    RootFirst(h0, f, d, len);
    RootFirst(h2, f, d, len - 1);
    forall x: nat | x in Elements(h0, len) && x != n ensures Sooner(f, d, m, x) {
      assert x in rest;
    }
  }

  lemma SumOfTwo(f: seq<nat>, s: seq<nat>, n: nat, m: nat)
    requires Below(s, |f|) && n in s && m in s && n != m
    ensures n < |f| && m < |f| && f[n] + f[m] <= Sum(f, s)
  {
    var i :| 0 <= i < |s| && s[i] == n;
    SumDrop(f, s, i);
    var j :| 0 <= j < |s| && s[j] == m;
    var t := s[..i] + s[i + 1..];
    var j' := if j < i then j else j - 1;
    assert t[j'] == m;
    SumDrop(f, t, j');
  }

  ghost predicate Apart(fc: array<nat>, dl: array<nat>, heap: array<nat>, depth: array<nat>) {
    fc != dl && fc != heap && fc != depth && dl != heap && dl != depth && heap != depth
  }

  /** Creates the father of n and of the root m and puts it in the place of m. */
  method AddNode(fc: array<nat>, dl: array<nat>, heap: array<nat>, depth: array<nat>, node: nat, heapLen: nat, n: nat,
                 m: nat, ghost roots: multiset<nat>, ghost t: nat, ghost tail: seq<nat>)
    requires Apart(fc, dl, heap, depth) && fc.Length == dl.Length <= depth.Length
    requires n < node && m < node < fc.Length && fc[n] + fc[m] < 65536 && depth[n] < 255 && depth[m] < 255
    requires heapLen >= 1 && Nodes(heap[..], fc[..], depth[..], heapLen)
    requires HeapFrom(heap[..], fc[..], depth[..], heapLen, 1)
    requires forall i :: 1 <= i <= heapLen ==> heap[..][i] < node
    requires Elements(heap[..], heapLen) == roots && heap[1] == m
    requires heapLen < t <= heap.Length && heap[..][t..] == tail
    modifies fc, dl, heap, depth
    ensures NewSum(old(fc[..]), fc[..], node, n, m) && NewDads(old(dl[..]), dl[..], node, n, m)
    ensures NewDepth(old(depth[..]), depth[..], node, n, m)
    ensures Nodes(heap[..], fc[..], depth[..], heapLen) && HeapFrom(heap[..], fc[..], depth[..], heapLen, 1)
    ensures Elements(heap[..], heapLen) + multiset{m} == roots + multiset{node}
    ensures heap[..][t..] == tail
  {
    ghost var h, f, d := heap[..], fc[..], depth[..];
    NewNode(fc, dl, depth, node, n, m);
    ghost var f1, dad1, d1 := fc[..], dl[..], depth[..];
    assert heap[..] == h;
    HeapFrame(h, f, d, h, f1, d1, heapLen, 1, node);
    PqReplace(fc, depth, heap, heapLen, node, roots, m, t, tail);
    assert fc[..] == f1 && dl[..] == dad1 && depth[..] == d1;
  }

  /** The statements of one round of the do loop of build_tree. */
  method MergeTwo(fc: array<nat>, dl: array<nat>, heap: array<nat>, depth: array<nat>, node: nat, heapLen: nat,
                  heapLen': nat, top: nat, ghost roots: multiset<nat>, ghost ord: seq<nat>)
    returns (n: nat, m: nat)
    requires Apart(fc, dl, heap, depth) && fc.Length == dl.Length <= depth.Length && node < fc.Length
    requires 2 <= heapLen <= top && top + 2 <= heap.Length && heapLen == heapLen' + 1
    requires Nodes(heap[..], fc[..], depth[..], heapLen) && HeapFrom(heap[..], fc[..], depth[..], heapLen, 1)
    requires forall i :: 1 <= i <= heapLen ==> heap[..][i] < node
    requires Below(heap[..][1..heapLen + 1], fc.Length) && Sum(fc[..], heap[..][1..heapLen + 1]) < 65536
    requires Elements(heap[..], heapLen) == roots && Once(roots) && heap[..][top + 2..] == ord
    requires Grown(roots, fc[..], depth[..]) == true
    modifies fc, dl, heap, depth
    ensures TwoLeast(roots, old(fc[..]), n, m) && FirstTwo(roots, old(fc[..]), old(depth[..]), n, m)
    ensures NewSum(old(fc[..]), fc[..], node, n, m) && NewDads(old(dl[..]), dl[..], node, n, m)
    ensures NewDepth(old(depth[..]), depth[..], node, n, m)
    ensures Nodes(heap[..], fc[..], depth[..], heapLen') && HeapFrom(heap[..], fc[..], depth[..], heapLen', 1)
    ensures Elements(heap[..], heapLen') + multiset{n, m} == roots + multiset{node}
    ensures heap[..][top..] == [m, n] + ord
  {
    ghost var h0, f, d, dad := heap[..], fc[..], depth[..], dl[..];
    n, m := TakeTwo(fc, depth, heap, heapLen, top, roots, ord);
    assert fc[..] == f && depth[..] == d && dl[..] == dad;
    TakenLeast(h0, heap[..], f, d, heapLen, node);
    TakenFirst(h0, heap[..], f, d, heapLen);
    SumOfTwo(f, h0[1..heapLen + 1], n, m);
    GrownShallow(roots, f, d, n);
    GrownShallow(roots, f, d, m);
    ghost var rest := Elements(heap[..], heapLen');
    AddNode(fc, dl, heap, depth, node, heapLen', n, m, rest, top, [m, n] + ord);
    Regroup(Elements(heap[..], heapLen'), rest, roots, n, m, node);
  }

  lemma Regroup(after: multiset<nat>, rest: multiset<nat>, roots: multiset<nat>, n: nat, m: nat, node: nat)
    requires after + multiset{m} == rest + multiset{node} && rest + multiset{n} == roots
    ensures after + multiset{n, m} == roots + multiset{node}
  {
    assert after + multiset{n, m} == after + multiset{m} + multiset{n};
  }

  lemma SumPermuted(a: seq<nat>, b: seq<nat>, f: seq<nat>)
    requires multiset(a) == multiset(b) && Below(b, |f|)
    ensures Below(a, |f|) && Sum(f, a) == Sum(f, b)
  {
    BelowMultiset(b, a, |f|);
    SumMultiset(f, a, b);
  }

  lemma PrefixBelow(t: seq<nat>, n: nat, m: nat, bound: nat)
    requires Below(t + [n] + [m], bound)
    ensures Below(t, bound)
  {
    assert forall i :: 0 <= i < |t| ==> t[i] == (t + [n] + [m])[i];
  }

  /** A merge moves frequency around and loses none. */
  lemma SumKept(s: seq<nat>, t: seq<nat>, f: seq<nat>, f': seq<nat>, n: nat, m: nat, node: nat)
    requires Below(s, node) && NewSum(f, f', node, n, m) && Below(s, |f|)
    requires multiset(t) + multiset{n, m} == multiset(s) + multiset{node}
    ensures Below(t, |f'|) && Sum(f', t) == Sum(f, s)
  {
    assert multiset(t + [n] + [m]) == multiset(t) + multiset{n, m};
    SumPermuted(t + [n] + [m], s + [node], f');
    PrefixBelow(t, n, m, |f'|);
    SumSnoc(f', t, n);
    SumSnoc(f', t + [n], m);
    SumSnoc(f', s, node);
    SumAgree(f', f, s);
  }

  lemma HeapSumKept(h: seq<nat>, h': seq<nat>, len: nat, len': nat, f: seq<nat>, f': seq<nat>, n: nat, m: nat,
                    node: nat)
    requires 1 <= len < |h| == |h'| && len == len' + 1 && NewSum(f, f', node, n, m)
    requires Below(h[1..len + 1], node) && Below(h[1..len + 1], |f|)
    requires Elements(h', len') + multiset{n, m} == Elements(h, len) + multiset{node}
    ensures Below(h'[1..len' + 1], |f'|) && Sum(f', h'[1..len' + 1]) == Sum(f, h[1..len + 1])
  {
    SumKept(h[1..len + 1], h'[1..len' + 1], f, f', n, m, node);
  }

  lemma RootsUnder(h: seq<nat>, ord: seq<nat>, elems: nat, k: nat, leaves: seq<nat>, len: nat, node: nat)
    requires len < |h| && Accounted(ord, Elements(h, len), elems, k, leaves) && Below(leaves, elems)
    requires node == elems + k
    ensures forall i :: 1 <= i <= len ==> h[i] < node
    ensures Below(h[1..len + 1], node)
  {
    var s := h[1..len + 1];
    forall i | 0 <= i < |s| ensures s[i] < node {
      assert s[i] in Elements(h, len);
      RootFresh(ord, Elements(h, len), elems, k, leaves, s[i]);
    }
    assert forall i :: 1 <= i <= len ==> h[i] == s[i - 1];
  }

  lemma RootsOnce(ord: seq<nat>, roots: multiset<nat>, elems: nat, k: nat, leaves: seq<nat>)
    requires Accounted(ord, roots, elems, k, leaves)
    ensures Once(roots)
  {
    forall x: nat ensures roots[x] <= 1 { assert All(leaves, elems, k)[x] <= 1; }
  }

  lemma RootOccurs(ord: seq<nat>, roots: multiset<nat>, f: seq<nat>, elems: nat, k: nat, leaves: seq<nat>, x: nat)
    requires Accounted(ord, roots, elems, k, leaves) && Occur(leaves, f) && x in roots
    ensures x < elems ==> x < |f| && f[x] > 0
  {
    assert x in All(leaves, elems, k);
    assert x in multiset(leaves) || x in multiset(Internals(elems, k));
    assert x in multiset(Internals(elems, k)) ==> x in Internals(elems, k);
    assert x in multiset(leaves) ==> x in leaves;
  }

  /** With one root left the list is a finished tree. */
  lemma ForestDone(ord: seq<nat>, x: nat, f: seq<nat>, dad: seq<nat>, elems: nat, k: nat, leaves: seq<nat>)
    requires Forest(ord, multiset{x}, f, dad, elems, k, leaves) && k >= 1
    ensures TreeOrder([x] + ord, dad, f, elems, k, leaves)
  {
    var all := [x] + ord;
    assert all[1..] == ord;
    assert multiset(all) == multiset{x} + multiset(ord);
    OnceDistinct(all);
    LastRoot(ord, x, f, dad, elems, k, leaves);
    assert x in multiset{x};
    forall i, j | 0 <= i < j < |all| ensures f[all[i]] >= f[all[j]] {
      if i > 0 { assert f[ord[i - 1]] >= f[ord[j - 1]]; } else if j > 1 { assert f[ord[0]] >= f[ord[j - 1]]; }
    }
  }

  lemma OnceDistinct(s: seq<nat>)
    requires Once(multiset(s))
    ensures Distinct(s)
  {
    forall i, j | 0 <= i < j < |s| ensures s[i] != s[j] {
      assert s == s[..j] + [s[j]] + s[j + 1..];
      assert s[i] in multiset(s[..j]) by { assert s[..j][i] == s[i]; }
      assert multiset(s)[s[i]] <= 1;
    }
  }

  lemma LastRoot(ord: seq<nat>, x: nat, f: seq<nat>, dad: seq<nat>, elems: nat, k: nat, leaves: seq<nat>)
    requires Merged(ord, dad, f, elems, k) && Accounted(ord, multiset{x}, elems, k, leaves) && k >= 1
    ensures x == elems + k - 1
  {
    var root := elems + k - 1;
    assert Internals(elems, k)[0] == root;
    assert root in All(leaves, elems, k);
    if root in multiset(ord) {
      var i :| 0 <= i < |ord| && ord[i] == root;
      MergedBelow(ord, dad, f, elems, k, i);
    }
  }

  /** The state of the do loop of build_tree after k merges; the pairs stand from heap[top] on. */
  ghost predicate Merging(h: seq<nat>, f: seq<nat>, d: seq<nat>, dad: seq<nat>, elems: nat, k: nat, leaves: seq<nat>,
                          len: nat, top: nat, total: nat) {
    && |h| == HEAP_SIZE && |f| == |dad| <= |d| && 2 * elems < |f|
    && |leaves| <= elems <= 286 && 1 <= len && len + k == |leaves| && top + 2 * k == HEAP_SIZE
    && Nodes(h, f, d, len) && HeapFrom(h, f, d, len, 1)
    && Forest(h[top..], Elements(h, len), f, dad, elems, k, leaves)
    && Below(h[1..len + 1], |f|) && Sum(f, h[1..len + 1]) == total < 65536
  }

  lemma MergingStep(h: seq<nat>, f: seq<nat>, d: seq<nat>, dad: seq<nat>, elems: nat, k: nat, leaves: seq<nat>,
                    len: nat, top: nat, total: nat, node: nat, k': nat, len': nat, top': nat, n: nat, m: nat,
                    h': seq<nat>, f': seq<nat>, d': seq<nat>, dad': seq<nat>)
    requires node == elems + k && k' == k + 1 && len == len' + 1 && top == top' + 2 && len >= 2
    requires Merging(h, f, d, dad, elems, k, leaves, len, top, total) == true
    requires TwoLeast(Elements(h, len), f, n, m) == true
    requires NewSum(f, f', node, n, m) == true && NewDads(dad, dad', node, n, m) == true && |d'| == |d|
    requires |h'| == |h| && Nodes(h', f', d', len') == true && HeapFrom(h', f', d', len', 1) == true
    requires Elements(h', len') + multiset{n, m} == Elements(h, len) + multiset{node}
    requires h'[top'..] == [m, n] + h[top..]
    ensures Merging(h', f', d', dad', elems, k', leaves, len', top', total) == true
    ensures Kept(f, dad, f', dad', elems)
  {
    var ord, roots := h[top..], Elements(h, len);
    RootsUnder(h, ord, elems, k, leaves, len, node);
    HeapSumKept(h, h', len, len', f, f', n, m, node);
    RootOccurs(ord, roots, f, elems, k, leaves, n);
    RootOccurs(ord, roots, f, elems, k, leaves, m);
    ForestStep(ord, roots, f, dad, elems, k, leaves, node, k', n, m, f', dad', h'[top'..], Elements(h', len'));
  }

  /** Frequencies of symbols, and whatever is stored with the symbols that do not occur, stay as they were. */
  ghost predicate Kept(f: seq<nat>, dad: seq<nat>, f': seq<nat>, dad': seq<nat>, elems: nat) {
    && elems <= |f| == |f'| == |dad| == |dad'|
    && f'[..elems] == f[..elems]
    && forall x :: 0 <= x < elems && f[x] == 0 ==> dad'[x] == dad[x]
  }

  lemma KeptTrans(f: seq<nat>, dad: seq<nat>, f1: seq<nat>, dad1: seq<nat>, f2: seq<nat>, dad2: seq<nat>, elems: nat)
    requires Kept(f, dad, f1, dad1, elems) && Kept(f1, dad1, f2, dad2, elems)
    ensures Kept(f, dad, f2, dad2, elems)
  {
    forall x | 0 <= x < elems && f[x] == 0 ensures dad2[x] == dad[x] {
      assert f1[..elems][x] == f[..elems][x];
    }
  }

  // `P == true` hands P over as a whole; the verifier would otherwise take it apart at every use.

  /** The do loop of build_tree and the push of the last root: the heap tail becomes the finished tree. */
  method MergeAll(fc: array<nat>, dl: array<nat>, heap: array<nat>, depth: array<nat>, elems: nat, leafCount: nat,
                  ghost leaves: seq<nat>, ghost total: nat)
    returns (heapMax: nat, ghost k: nat)
    requires Apart(fc, dl, heap, depth) && leafCount >= 2
    requires Merging(heap[..], fc[..], depth[..], dl[..], elems, 0, leaves, leafCount, HEAP_SIZE, total) == true
    requires Tied([], Elements(heap[..], leafCount), fc[..], depth[..], elems, 0) == true
    modifies fc, dl, heap, depth
    ensures k == leafCount - 1 && heapMax + 2 * k + 1 == HEAP_SIZE == heap.Length
    ensures TreeOrder(heap[..][heapMax..], dl[..], fc[..], elems, k, leaves) == true
    ensures TieTree(heap[..][heapMax..], fc[..], depth[..], elems, k) == true
    ensures Kept(old(fc[..]), old(dl[..]), fc[..], dl[..], elems)
  {
    k := 0;
    var heapLen, node := leafCount, elems;
    heapMax := HEAP_SIZE;
    assert heap[..][HEAP_SIZE..] == [];
    while heapLen >= 2
      invariant 1 <= heapLen && k + heapLen == leafCount && node == elems + k
      invariant heapMax + 2 * k == HEAP_SIZE == heap.Length
      invariant Merging(heap[..], fc[..], depth[..], dl[..], elems, k, leaves, heapLen, heapMax, total) == true
      invariant Tied(heap[..][heapMax..], Elements(heap[..], heapLen), fc[..], depth[..], elems, k) == true
      invariant Kept(old(fc[..]), old(dl[..]), fc[..], dl[..], elems)
      decreases heapLen
    {
      ghost var f, dad := fc[..], dl[..];
      heapLen, heapMax, node, k := MergeRound(fc, dl, heap, depth, elems, k, heapLen, heapMax, node, leaves, total);
      KeptTrans(old(fc[..]), old(dl[..]), f, dad, fc[..], dl[..], elems);
    }
    heapMax := PushRoot(fc, dl, heap, depth, elems, k, heapLen, heapMax, leaves, total);
  }

  method PushRoot(fc: array<nat>, dl: array<nat>, heap: array<nat>, depth: array<nat>, elems: nat, ghost k: nat,
                  heapLen: nat, heapMax: nat, ghost leaves: seq<nat>, ghost total: nat) returns (heapMax': nat)
    requires Apart(fc, dl, heap, depth) && heapLen == 1 && k >= 1
    requires Merging(heap[..], fc[..], depth[..], dl[..], elems, k, leaves, heapLen, heapMax, total) == true
    requires Tied(heap[..][heapMax..], Elements(heap[..], heapLen), fc[..], depth[..], elems, k) == true
    modifies heap
    ensures heapMax == heapMax' + 1
    ensures TreeOrder(heap[..][heapMax'..], dl[..], fc[..], elems, k, leaves) == true
    ensures TieTree(heap[..][heapMax'..], fc[..], depth[..], elems, k) == true
  {
    ghost var h := heap[..];
    OneRoot(h, fc[..], depth[..], dl[..], elems, k, leaves, heapLen, heapMax, total);
    TieRoot(h, fc[..], depth[..], elems, k, heapLen, heapMax);
    heapMax' := heapMax - 1;
    heap[heapMax'] := heap[1];
    assert heap[..][heapMax'..] == [h[1]] + h[heapMax..];
  }

  method MergeRound(fc: array<nat>, dl: array<nat>, heap: array<nat>, depth: array<nat>, elems: nat, ghost k: nat,
                    heapLen: nat, heapMax: nat, node: nat, ghost leaves: seq<nat>, ghost total: nat)
    returns (heapLen': nat, heapMax': nat, node': nat, ghost k': nat)
    requires Apart(fc, dl, heap, depth) && heapLen >= 2 && node == elems + k
    requires Merging(heap[..], fc[..], depth[..], dl[..], elems, k, leaves, heapLen, heapMax, total) == true
    requires Tied(heap[..][heapMax..], Elements(heap[..], heapLen), fc[..], depth[..], elems, k) == true
    modifies fc, dl, heap, depth
    ensures heapLen == heapLen' + 1 && heapMax == heapMax' + 2 && node' == node + 1 && k' == k + 1
    ensures Merging(heap[..], fc[..], depth[..], dl[..], elems, k', leaves, heapLen', heapMax', total) == true
    ensures Tied(heap[..][heapMax'..], Elements(heap[..], heapLen'), fc[..], depth[..], elems, k') == true
    ensures Kept(old(fc[..]), old(dl[..]), fc[..], dl[..], elems)
  {
    ghost var h, f, d, dad := heap[..], fc[..], depth[..], dl[..];
    RootsUnder(h, h[heapMax..], elems, k, leaves, heapLen, node);
    RootsOnce(h[heapMax..], Elements(h, heapLen), elems, k, leaves);
    assert Grown(Elements(h, heapLen), f, d) by { assert Opened(TieSeal, 0); }
    heapLen', heapMax', node', k' := heapLen - 1, heapMax - 2, node + 1, k + 1;
    var n, m := MergeTwo(fc, dl, heap, depth, node, heapLen, heapLen', heapMax', Elements(h, heapLen), h[heapMax..]);
    ghost var h', f', d', dad' := heap[..], fc[..], depth[..], dl[..];
    MergingStep(h, f, d, dad, elems, k, leaves, heapLen, heapMax, total, node, k', heapLen', heapMax', n, m, h', f',
                d', dad');
    TiedStep(h[heapMax..], Elements(h, heapLen), f, d, f', d', elems, k, node, k', n, m, h'[heapMax'..],
             Elements(h', heapLen'));
  }

  lemma TieRoot(h: seq<nat>, f: seq<nat>, d: seq<nat>, elems: nat, k: nat, len: nat, top: nat)
    requires len == 1 && |h| > 1 && top <= |h| && Tied(h[top..], Elements(h, len), f, d, elems, k) == true
    ensures TieTree([h[1]] + h[top..], f, d, elems, k) == true
  {
    assert h[1..2] == [h[1]];
    TieDone(h[top..], h[1], f, d, elems, k);
  }

  lemma OneRoot(h: seq<nat>, f: seq<nat>, d: seq<nat>, dad: seq<nat>, elems: nat, k: nat, leaves: seq<nat>, len: nat,
                top: nat, total: nat)
    requires len == 1 && 1 <= k && Merging(h, f, d, dad, elems, k, leaves, len, top, total) == true
    ensures |h| == HEAP_SIZE && 1 < top <= HEAP_SIZE && TreeOrder([h[1]] + h[top..], dad, f, elems, k, leaves) == true
  {
    assert h[1..2] == [h[1]];
    ForestDone(h[top..], h[1], f, dad, elems, k, leaves);
  }
}
