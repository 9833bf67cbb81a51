/** Ties between equal frequencies are broken by depth: of two such nodes the shallower one is taken first. What that
keeps while nodes are merged. */
module HuffmanTies {
  import opened Bits
  import opened Sums
  import opened Fibonacci
  import opened HuffmanHeap
  import opened HuffmanTree

  /** The only new frequency is that of node, the sum of its sons'. */
  ghost predicate NewSum(f: seq<nat>, f': seq<nat>, node: nat, n: nat, m: nat) {
    && n < node && m < node < |f| && |f'| == |f| && f'[node] == f[n] + f[m]
    && forall x :: 0 <= x < |f| && x != node ==> f'[x] == f[x]
  }

  /** The only new depth is that of node, one more than its deeper son's. */
  ghost predicate NewDepth(d: seq<nat>, d': seq<nat>, node: nat, n: nat, m: nat) {
    && n < |d| && m < |d| && node < |d| == |d'| && d'[node] == Deeper(d, n, m) + 1
    && forall x :: 0 <= x < |d| && x != node ==> d'[x] == d[x]
  }

  function Deeper(d: seq<nat>, n: nat, m: nat): nat
    requires n < |d| && m < |d|
  {
    if d[n] >= d[m] then d[n] else d[m]
  }

  /** Every internal node is one level deeper than its deeper son. */
  ghost predicate Deep(ord: seq<nat>, d: seq<nat>, elems: nat, k: nat)
    decreases k
  {
    k == 0 ||
    (&& |ord| == 2 * k && ord[0] < |d| && ord[1] < |d| && elems + k - 1 < |d|
     && d[elems + k - 1] == Deeper(d, ord[0], ord[1]) + 1 && Deep(ord[2..], d, elems, k - 1))
  }

  /** Node x comes no later than y in the queue. */
  ghost predicate Sooner(f: seq<nat>, d: seq<nat>, x: nat, y: nat) {
    x < |f| && y < |f| && |f| <= |d| && Smaller(f, d, x, y)
  }

  /** The nodes are listed in the opposite order. */
  ghost predicate Ranked(ord: seq<nat>, f: seq<nat>, d: seq<nat>) {
    forall i, j :: 0 <= i < j < |ord| ==> Sooner(f, d, ord[j], ord[i])
  }

  ghost predicate NotBefore(roots: multiset<nat>, f: seq<nat>, d: seq<nat>, x: nat) {
    forall y: nat :: y in roots ==> Sooner(f, d, x, y)
  }

  /** n and then m are the first roots in the queue. */
  ghost predicate FirstTwo(roots: multiset<nat>, f: seq<nat>, d: seq<nat>, n: nat, m: nat) {
    && n in roots && m in roots && n != m && Sooner(f, d, n, m)
    && forall x: nat :: x in roots && x != n ==> Sooner(f, d, m, x)
  }

  /** A deep node has a large frequency. */
  ghost predicate Grown(roots: multiset<nat>, f: seq<nat>, d: seq<nat>) {
    forall x: nat :: x in roots ==> GrownNode(f, d, x)
  }

  ghost predicate GrownNode(f: seq<nat>, d: seq<nat>, x: nat) {
    x < |f| && x < |d| && f[x] >= Fib(d[x] + 2)
  }

  lemma GrownShallow(roots: multiset<nat>, f: seq<nat>, d: seq<nat>, x: nat)
    requires Grown(roots, f, d) && x in roots && x < |f| && f[x] < 65536
    ensures x < |d| && d[x] < 23
  {
    assert GrownNode(f, d, x);
    if d[x] >= 23 { Fib25(d[x] + 2); }
  }

  /** The state after k merges. */
  ghost predicate Tied(ord: seq<nat>, roots: multiset<nat>, f: seq<nat>, d: seq<nat>, elems: nat, k: nat) {
    forall z: int {:trigger Opened(TieSeal, z)} :: Sealed(z) ==>
      && Deep(ord, d, elems, k) && Ranked(ord, f, d) && |ord| == 2 * k
      && (ord != [] ==> NotBefore(roots, f, d, ord[0])) && Grown(roots, f, d)
      && (forall i :: 0 <= i < |ord| ==> GrownNode(f, d, ord[i]) && ord[i] < elems + k)
      && (forall x: nat :: x in roots ==> x < elems + k && (x < elems ==> d[x] == 0))
      && (forall i :: 0 <= i < |ord| && ord[i] < elems ==> d[ord[i]] == 0)
  }

  lemma {:induction false} DeepFrame(ord: seq<nat>, d: seq<nat>, d': seq<nat>, elems: nat, k: nat)
    requires Deep(ord, d, elems, k) && |d'| == |d| && |ord| == 2 * k
    requires forall i :: 0 <= i < |ord| && ord[i] < |d| ==> d'[ord[i]] == d[ord[i]]
    requires forall x :: 0 <= x < elems + k && x < |d| ==> d'[x] == d[x]
    ensures Deep(ord, d', elems, k)
    decreases k
  {
    if k > 0 { DeepFrame(ord[2..], d, d', elems, k - 1); }
  }

  /** The deeper son of an internal node. */
  lemma {:induction false} DeeperSon(ord: seq<nat>, d: seq<nat>, elems: nat, k: nat, x: nat) returns (i: nat)
    requires Deep(ord, d, elems, k) && |ord| == 2 * k && elems <= x < elems + k
    ensures i < |ord| && ord[i] < |d| && x < |d| && d[x] == d[ord[i]] + 1
    decreases k
  {
    if x == elems + k - 1 {
      i := if d[ord[0]] >= d[ord[1]] then 0 else 1;
    } else {
      i := DeeperSon(ord[2..], d, elems, k - 1, x);
      i := i + 2;
    }
  }

  /** The frequency of a new node, whose deeper son is a and whose other son is b. */
  lemma NewGrows(ord: seq<nat>, roots: multiset<nat>, f: seq<nat>, d: seq<nat>, elems: nat, k: nat, a: nat, b: nat)
    requires Tied(ord, roots, f, d, elems, k) && a in roots && b in roots
    ensures a < |f| && b < |f| && a < |d| && f[b] >= 1 && f[a] + f[b] >= Fib(d[a] + 3)
  {
    assert Opened(TieSeal, 0);
    assert GrownNode(f, d, a) && GrownNode(f, d, b);
    assert Fib(d[a] + 3) == Fib(d[a] + 2) + Fib(d[a] + 1);
    if d[a] > 0 {
      var i := DeeperSon(ord, d, elems, k, a);
      assert GrownNode(f, d, ord[i]);
      assert i > 0 ==> Sooner(f, d, ord[i], ord[0]);
      assert Sooner(f, d, ord[0], b);
    } else {
      assert Fib(1) == 1 && Fib(d[b] + 2) > 0;
    }
  }

  lemma RankedStep(ord: seq<nat>, f: seq<nat>, d: seq<nat>, f': seq<nat>, d': seq<nat>, node: nat, n: nat, m: nat)
    requires Ranked(ord, f, d) && Sooner(f, d, n, m) && (ord != [] ==> Sooner(f, d, ord[0], n))
    requires NewSum(f, f', node, n, m) && NewDepth(d, d', node, n, m)
    requires forall i :: 0 <= i < |ord| ==> ord[i] < node
    ensures Ranked([m, n] + ord, f', d')
  {
    var all := [m, n] + ord;
    forall i | 0 <= i < |ord| ensures Sooner(f, d, ord[i], n) {
      if i > 0 { assert Sooner(f, d, ord[i], ord[0]); }
    }
    forall i, j | 0 <= i < j < |all| ensures Sooner(f', d', all[j], all[i]) {
      if i >= 2 { assert all[i] == ord[i - 2] && all[j] == ord[j - 2]; }
      else if j >= 2 { assert all[j] == ord[j - 2] && Sooner(f, d, ord[j - 2], n); }
    }
  }

  lemma NotBeforeStep(roots: multiset<nat>, f: seq<nat>, d: seq<nat>, f': seq<nat>, d': seq<nat>, node: nat, n: nat,
                      m: nat, roots': multiset<nat>)
    requires FirstTwo(roots, f, d, n, m) && NewSum(f, f', node, n, m) && NewDepth(d, d', node, n, m) && f[n] >= 1
    requires roots[n] <= 1 && roots' + multiset{n, m} == roots + multiset{node} && roots[node] == 0
    ensures NotBefore(roots', f', d', m)
  {
    forall x: nat | x in roots' ensures Sooner(f', d', m, x) {
      assert (roots' + multiset{n, m})[x] == (roots + multiset{node})[x];
      if x != node { assert x in roots && x != n; }
    }
  }

  lemma GrownStep(roots: multiset<nat>, f: seq<nat>, d: seq<nat>, f': seq<nat>, d': seq<nat>, elems: nat, k: nat,
                  node: nat, k': nat, n: nat, m: nat, roots': multiset<nat>)
    requires node == elems + k && k' == k + 1
    requires forall x: nat :: x in roots ==> GrownNode(f, d, x) && x < elems + k && (x < elems ==> d[x] == 0)
    requires NewSum(f, f', node, n, m) && NewDepth(d, d', node, n, m) && f[n] + f[m] >= Fib(Deeper(d, n, m) + 3)
    requires roots' + multiset{n, m} == roots + multiset{node}
    ensures Grown(roots', f', d')
    ensures forall x: nat :: x in roots' ==> x < elems + k' && (x < elems ==> d'[x] == 0)
  {
    forall x: nat | x in roots'
      ensures GrownNode(f', d', x) && x < elems + k' && (x < elems ==> d'[x] == 0)
    {
      assert (roots' + multiset{n, m})[x] == (roots + multiset{node})[x];
      if x != node { assert x in roots; }
    }
  }

  lemma ListedStep(ord: seq<nat>, f: seq<nat>, d: seq<nat>, f': seq<nat>, d': seq<nat>, elems: nat, k: nat, node: nat,
                   k': nat, n: nat, m: nat)
    requires node == elems + k && k' == k + 1
    requires forall i :: 0 <= i < |ord| ==>
               GrownNode(f, d, ord[i]) && ord[i] < elems + k && (ord[i] < elems ==> d[ord[i]] == 0)
    requires GrownNode(f, d, n) && GrownNode(f, d, m) && n < node && m < node
    requires (n < elems ==> d[n] == 0) && (m < elems ==> d[m] == 0)
    requires NewSum(f, f', node, n, m) && NewDepth(d, d', node, n, m)
    ensures var all := [m, n] + ord;
            && (forall i :: 0 <= i < |all| ==> GrownNode(f', d', all[i]) && all[i] < elems + k')
            && (forall i :: 0 <= i < |all| && all[i] < elems ==> d'[all[i]] == 0)
  {
    var all := [m, n] + ord;
    forall i | 0 <= i < |all|
      ensures GrownNode(f', d', all[i]) && all[i] < elems + k' && (all[i] < elems ==> d'[all[i]] == 0)
    {
      if i >= 2 { assert all[i] == ord[i - 2]; }
    }
  }

  lemma DeepStep(ord: seq<nat>, d: seq<nat>, d': seq<nat>, elems: nat, k: nat, node: nat, k': nat, n: nat, m: nat)
    requires node == elems + k && k' == k + 1 && Deep(ord, d, elems, k) && |ord| == 2 * k && n < node && m < node
    requires NewDepth(d, d', node, n, m) && forall i :: 0 <= i < |ord| ==> ord[i] < node
    ensures Deep([m, n] + ord, d', elems, k')
  {
    DeepFrame(ord, d, d', elems, k);
    assert ([m, n] + ord)[2..] == ord;
  }

  /** Merging the first two roots under the new node elems + k keeps all that. */
  lemma TiedStep(ord: seq<nat>, roots: multiset<nat>, f: seq<nat>, d: seq<nat>, f': seq<nat>, d': seq<nat>, elems: nat,
                 k: nat, node: nat, k': nat, n: nat, m: nat, ord': seq<nat>, roots': multiset<nat>)
    requires node == elems + k && k' == k + 1 && Tied(ord, roots, f, d, elems, k) && FirstTwo(roots, f, d, n, m)
    requires NewSum(f, f', node, n, m) && NewDepth(d, d', node, n, m) && roots[n] <= 1
    requires ord' == [m, n] + ord && roots' + multiset{n, m} == roots + multiset{node}
    ensures Tied(ord', roots', f', d', elems, k')
  {
    NewGrows(ord, roots, f, d, elems, k, n, m);
    NewGrows(ord, roots, f, d, elems, k, m, n);
    assert Opened(TieSeal, 0);
    assert roots[node] == 0;
    assert ord != [] ==> Sooner(f, d, ord[0], n);
    assert GrownNode(f, d, n) && GrownNode(f, d, m);
    RankedStep(ord, f, d, f', d', node, n, m);
    NotBeforeStep(roots, f, d, f', d', node, n, m, roots');
    GrownStep(roots, f, d, f', d', elems, k, node, k', n, m, roots');
    ListedStep(ord, f, d, f', d', elems, k, node, k', n, m);
    DeepStep(ord, d, d', elems, k, node, k', n, m);
  }

  /** At the start every root is a leaf. */
  lemma TiedStart(roots: multiset<nat>, f: seq<nat>, d: seq<nat>, elems: nat)
    requires elems <= |f| <= |d| && forall x: nat :: x in roots ==> x < elems && f[x] > 0 && d[x] == 0
    ensures Tied([], roots, f, d, elems, 0)
  {
    assert Fib(2) == 1;
    forall x: nat | x in roots ensures GrownNode(f, d, x) { assert f[x] >= Fib(d[x] + 2); }
    var none: seq<nat> := [];
    assert Grown(roots, f, d) && Deep(none, d, elems, 0) && Ranked(none, f, d);
    assert forall x: nat :: x in roots ==> x < elems + 0 && (x < elems ==> d[x] == 0);
  }

  /** A finished tree: the depths of all nodes, and the order in which they were taken. */
  ghost predicate TieTree(ord: seq<nat>, f: seq<nat>, d: seq<nat>, elems: nat, k: nat) {
    forall z: int {:trigger Opened(TieSeal, z)} :: Sealed(z) ==>
      && |ord| == 2 * k + 1 && Deep(ord[1..], d, elems, k) && Ranked(ord, f, d)
      && forall i :: 0 <= i < |ord| ==>
           ord[i] < |d| && ord[i] < |f| && f[ord[i]] > 0 && (ord[i] < elems ==> d[ord[i]] == 0)
  }

  lemma TieDone(ord: seq<nat>, x: nat, f: seq<nat>, d: seq<nat>, elems: nat, k: nat)
    requires Tied(ord, multiset{x}, f, d, elems, k)
    ensures TieTree([x] + ord, f, d, elems, k)
  {
    assert Opened(TieSeal, 0);
    var all := [x] + ord;
    assert all[1..] == ord && x in multiset{x};
    forall i | 0 <= i < |all|
      ensures all[i] < |d| && all[i] < |f| && f[all[i]] > 0 && (all[i] < elems ==> d[all[i]] == 0)
    {
      if i > 0 { assert all[i] == ord[i - 1] && GrownNode(f, d, ord[i - 1]); } else { assert GrownNode(f, d, x); }
    }
    forall i, j | 0 <= i < j < |all| ensures Sooner(f, d, all[j], all[i]) {
      if i > 0 {
        assert all[i] == ord[i - 1] && all[j] == ord[j - 1];
      } else {
        assert Sooner(f, d, ord[0], x) && all[j] == ord[j - 1];
        assert j > 1 ==> Sooner(f, d, ord[j - 1], ord[0]);
      }
    }
  }
}
