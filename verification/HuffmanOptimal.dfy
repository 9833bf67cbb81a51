/** Why the tree of `build_tree` is the best one: no prefix code costs less. */
module HuffmanOptimal {
  import opened Bits
  import opened Sums
  import opened HuffmanTree
  import opened HuffmanMerge
  import opened HuffmanLeaves
  import opened HuffmanLengths
  import opened HuffmanBuild

  /** The lengths v, all at most m, leave room for the nodes in r. */
  ghost predicate Fits(v: seq<nat>, r: seq<nat>, m: nat) {
    && Below(r, |v|) && (forall i :: 0 <= i < |r| ==> v[r[i]] <= m)
    && Sum(Shares(v, m), r) <= Pow2(m)
  }

  ghost function CostOf(f: seq<nat>, v: seq<nat>, r: seq<nat>): nat
    requires |f| == |v| && Below(r, |f|)
  {
    Sum(Cost(f, v, |f|), r)
  }

  // ----- at least two nodes of maximal length -----

  ghost function ClipAll(v: seq<nat>, m: nat): (r: seq<nat>)
    ensures |r| == |v|
  {
    seq(|v|, x requires 0 <= x < |v| => Clip(m, v[x]))
  }

  /** The number of nodes in r of length m. */
  ghost function AtMax(v: seq<nat>, r: seq<nat>, m: nat): nat
    requires Below(r, |v|)
  {
    if r == [] then 0 else (if v[r[0]] == m then 1 else 0) + AtMax(v, r[1..], m)
  }

  lemma {:induction false} ClipShares(v: seq<nat>, r: seq<nat>, m: nat, b: nat)
    requires Below(r, |v|) && m == b + 1 && forall i :: 0 <= i < |r| ==> v[r[i]] <= m
    ensures 2 * Sum(Shares(ClipAll(v, b), b), r) == Sum(Shares(v, m), r) + AtMax(v, r, m)
  {
    if r != [] { ClipShares(v, r[1..], m, b); }
  }

  lemma {:induction false} TimesMono(a: nat, b: nat, c: nat)
    requires b <= c
    ensures Times(a, b) <= Times(a, c)
  {
    if b < c { TimesMono(a, b, c - 1); }
  }

  lemma {:induction false} ClipCost(f: seq<nat>, v: seq<nat>, r: seq<nat>, b: nat)
    requires |f| == |v| && Below(r, |f|)
    ensures CostOf(f, ClipAll(v, b), r) <= CostOf(f, v, r)
  {
    if r != [] {
      ClipCost(f, v, r[1..], b);
      TimesMono(f[r[0]], Clip(b, v[r[0]]), v[r[0]]);
    }
  }

  lemma {:induction false} ZeroLengths(v: seq<nat>, r: seq<nat>)
    requires Below(r, |v|) && forall i :: 0 <= i < |r| ==> v[r[i]] == 0
    ensures Sum(Shares(v, 0), r) == |r|
  {
    if r != [] { ZeroLengths(v, r[1..]); }
  }

  lemma {:induction false} TwoAtMax(v: seq<nat>, r: seq<nat>, m: nat) returns (i: nat, j: nat)
    requires Below(r, |v|) && AtMax(v, r, m) >= 2
    ensures i < j < |r| && v[r[i]] == m && v[r[j]] == m
  {
    if v[r[0]] == m {
      j := OneAtMax(v, r[1..], m);
      i, j := 0, j + 1;
    } else {
      i, j := TwoAtMax(v, r[1..], m);
      i, j := i + 1, j + 1;
    }
  }

  lemma {:induction false} OneAtMax(v: seq<nat>, r: seq<nat>, m: nat) returns (i: nat)
    requires Below(r, |v|) && AtMax(v, r, m) >= 1
    ensures i < |r| && v[r[i]] == m
  {
    if v[r[0]] == m { i := 0; } else { i := OneAtMax(v, r[1..], m); i := i + 1; }
  }

  /** Without loss, two nodes have the maximal length. */
  lemma {:induction false} Deepest(f: seq<nat>, v: seq<nat>, r: seq<nat>, m: nat) returns (u: seq<nat>, l: nat)
    requires |f| == |v| && Fits(v, r, m) && |r| >= 2
    ensures |u| == |v| && Fits(u, r, l) && CostOf(f, u, r) <= CostOf(f, v, r)
    ensures AtMax(u, r, l) >= 2 && l >= 1
    decreases m
  {
    if m == 0 {
      ZeroLengths(v, r);
      assert false;
    }
    if AtMax(v, r, m) >= 2 {
      u, l := v, m;
    } else {
      ClipShares(v, r, m, m - 1);
      ClipCost(f, v, r, m - 1);
      u, l := Deepest(f, ClipAll(v, m - 1), r, m - 1);
    }
  }

  // ----- exchanging the lengths of two nodes -----

  ghost function Swap(v: seq<nat>, x: nat, y: nat): (r: seq<nat>)
    requires x < |v| && y < |v|
    ensures |r| == |v|
  {
    v[x := v[y]][y := v[x]]
  }

  /** The table w' differs from w at x and y only, with the same sum there or less. */
  lemma {:induction false} SumExchange(w: seq<nat>, w': seq<nat>, r: seq<nat>, i: nat, j: nat)
    requires |w| == |w'| && Below(r, |w|) && Distinct(r) && i < |r| && j < |r| && i != j
    requires forall x :: 0 <= x < |w| && x != r[i] && x != r[j] ==> w'[x] == w[x]
    ensures Sum(w', r) - w'[r[i]] - w'[r[j]] == Sum(w, r) - w[r[i]] - w[r[j]]
  {
    var a, b := if i < j then i else j, if i < j then j else i;
    var t := r[..b] + r[b + 1..];
    SumDrop(w, r, b);
    SumDrop(w', r, b);
    assert t[a] == r[a];
    var q := t[..a] + t[a + 1..];
    SumDrop(w, t, a);
    SumDrop(w', t, a);
    forall c | 0 <= c < |q| ensures q[c] < |w| && q[c] != r[i] && q[c] != r[j] {
      assert q[c] == if c < a then r[c] else if c < b - 1 then r[c + 1] else r[c + 2];
    }
    SumAgree(w, w', q);
  }

  lemma SwapTimes(p: nat, q: nat, a: nat, b: nat)
    requires p <= q && a <= b
    ensures Times(p, b) + Times(q, a) <= Times(p, a) + Times(q, b)
    decreases b - a
  {
    if a < b { SwapTimes(p, q, a, b - 1); }
  }

  /** Giving the less frequent node the longer code does not cost more. */
  lemma SwapBetter(f: seq<nat>, v: seq<nat>, r: seq<nat>, m: nat, i: nat, j: nat)
    requires |f| == |v| && Fits(v, r, m) && Distinct(r) && i < |r| && j < |r| && i != j
    requires f[r[i]] <= f[r[j]] && v[r[i]] <= v[r[j]]
    ensures Fits(Swap(v, r[i], r[j]), r, m) && CostOf(f, Swap(v, r[i], r[j]), r) <= CostOf(f, v, r)
  {
    assert r[i] != r[j];
    var u := Swap(v, r[i], r[j]);
    assert Sum(Shares(u, m), r) == Sum(Shares(v, m), r) by {
      SumExchange(Shares(v, m), Shares(u, m), r, i, j);
    }
    SwapCost(f, v, r, i, j, u);
  }

  lemma SwapCost(f: seq<nat>, v: seq<nat>, r: seq<nat>, i: nat, j: nat, u: seq<nat>)
    requires |f| == |v| && Below(r, |v|) && Distinct(r) && i < |r| && j < |r| && i != j && r[i] != r[j]
    requires f[r[i]] <= f[r[j]] && v[r[i]] <= v[r[j]] && u == Swap(v, r[i], r[j])
    ensures CostOf(f, u, r) <= CostOf(f, v, r)
  {
    SumExchange(Cost(f, v, |f|), Cost(f, u, |f|), r, i, j);
    SwapTimes(f[r[i]], f[r[j]], v[r[i]], v[r[j]]);
  }

  /** n and m are the least frequent nodes of r, at positions i and j. */
  ghost predicate LeastTwo(f: seq<nat>, r: seq<nat>, i: nat, j: nat) {
    && i < |r| && j < |r| && i != j && Below(r, |f|) && f[r[i]] <= f[r[j]]
    && forall c :: 0 <= c < |r| && c != i ==> f[r[c]] >= f[r[j]]
  }

  /** Without loss, the two least frequent nodes have the maximal length. */
  lemma LeastDeepest(f: seq<nat>, v: seq<nat>, r: seq<nat>, m: nat, i: nat, j: nat) returns (u: seq<nat>, l: nat)
    requires |f| == |v| && Fits(v, r, m) && Distinct(r) && LeastTwo(f, r, i, j)
    ensures |u| == |v| && Fits(u, r, l) && CostOf(f, u, r) <= CostOf(f, v, r)
    ensures l >= 1 && u[r[i]] == l && u[r[j]] == l
  {
    u, l := Deepest(f, v, r, m);
    var a, b := TwoAtMax(u, r, l);
    if u[r[i]] != l {
      SwapBetter(f, u, r, l, i, a);
      assert r[b] != r[a] && r[b] != r[i];
      u := Swap(u, r[i], r[a]);
    }
    if u[r[j]] != l {
      var c := if b != i then b else a;
      assert u[r[c]] == l && c != i && c != j;
      SwapBetter(f, u, r, l, j, c);
      assert r[i] != r[j] && r[i] != r[c];
      u := Swap(u, r[j], r[c]);
    }
  }

  // ----- merging the two least frequent nodes -----

  lemma {:induction false} TimesAdd(a: nat, b: nat, l: nat)
    ensures Times(a, l) + Times(b, l) == Times(a + b, l)
  {
    if l > 0 { TimesAdd(a, b, l - 1); }
  }

  /** r' is r with the nodes n and m replaced by d. */
  ghost predicate Replaced(r: seq<nat>, r': seq<nat>, n: nat, m: nat, d: nat) {
    multiset(r') + multiset{n, m} == multiset(r) + multiset{d}
  }

  lemma SumReplaced(w: seq<nat>, r: seq<nat>, r': seq<nat>, n: nat, m: nat, d: nat)
    requires Replaced(r, r', n, m, d) && Below(r, |w|) && d < |w| && n < |w| && m < |w|
    ensures Below(r', |w|) && Sum(w, r') + w[n] + w[m] == Sum(w, r) + w[d]
  {
    var a: seq<nat>, b: seq<nat> := r' + [n] + [m], r + [d];
    assert multiset(a) == multiset(r') + multiset{n, m};
    assert multiset(b) == multiset(r) + multiset{d};
    BelowMultiset(b, a, |w|);
    forall i | 0 <= i < |r'| ensures r'[i] < |w| { assert r'[i] == a[i]; }
    SumMultiset(w, a, b);
    SumSnoc(w, r', n);
    SumSnoc(w, r' + [n], m);
    SumSnoc(w, r, d);
  }

  lemma ReplacedFrom(r: seq<nat>, r': seq<nat>, n: nat, m: nat, d: nat, x: nat)
    requires Replaced(r, r', n, m, d) && x in r'
    ensures x == d || x in r
  {
    assert x in multiset(r') + multiset{n, m};
    assert x in multiset(r) + multiset{d};
  }

  /** Merging them makes a cheaper problem by exactly the frequency of the new node. */
  lemma MergeBound(f: seq<nat>, v: seq<nat>, r: seq<nat>, m: nat, i: nat, j: nat, d: nat, r': seq<nat>)
    returns (v': seq<nat>, l: nat)
    requires |f| == |v| && Fits(v, r, m) && Distinct(r) && LeastTwo(f, r, i, j)
    requires d < |f| && d !in r && f[d] == f[r[i]] + f[r[j]] && Replaced(r, r', r[i], r[j], d)
    ensures |v'| == |f| && Fits(v', r', l) && CostOf(f, v', r') + f[d] <= CostOf(f, v, r)
  {
    var u: seq<nat>;
    u, l := LeastDeepest(f, v, r, m, i, j);
    v' := u[d := l - 1];
    MergeShares(u, v', r, r', r[i], r[j], d, l);
    MergeCost(f, u, v', r, r', r[i], r[j], d, l);
  }

  lemma MergeShares(u: seq<nat>, v: seq<nat>, r: seq<nat>, r': seq<nat>, n: nat, m: nat, d: nat, l: nat)
    requires Fits(u, r, l) && l >= 1 && d < |u| && d !in r && v == u[d := l - 1] && Replaced(r, r', n, m, d)
    requires n in r && m in r && u[n] == l && u[m] == l
    ensures Fits(v, r', l)
  {
    SumReplaced(Shares(v, l), r, r', n, m, d);
    SumAgree(Shares(u, l), Shares(v, l), r);
    assert Pow2(1) == 2;
    forall c | 0 <= c < |r'| ensures v[r'[c]] <= l { ReplacedFrom(r, r', n, m, d, r'[c]); }
  }

  lemma MergeCost(f: seq<nat>, u: seq<nat>, v: seq<nat>, r: seq<nat>, r': seq<nat>, n: nat, m: nat, d: nat, l: nat)
    requires |f| == |u| && Below(r, |u|) && l >= 1 && d < |u| && d !in r && v == u[d := l - 1]
    requires Replaced(r, r', n, m, d) && n in r && m in r && u[n] == l && u[m] == l && f[d] == f[n] + f[m]
    ensures Below(r', |f|) && CostOf(f, v, r') + f[d] == CostOf(f, u, r)
  {
    SumReplaced(Cost(f, v, |f|), r, r', n, m, d);
    SumAgree(Cost(f, u, |f|), Cost(f, v, |f|), r);
    TimesAdd(f[n], f[m], l);
  }

  // ----- the forest after j merges, recovered from the finished tree -----

  lemma {:induction false} MergedAt(ord: seq<nat>, dad: seq<nat>, f: seq<nat>, elems: nat, k: nat, j: nat, p: nat)
    requires Merged(ord, dad, f, elems, k) && j < k && p == 2 * (k - 1 - j)
    ensures p + 1 < |ord| && Father(ord[p], ord[p + 1], dad, f, elems + j)
    decreases k
  {
    if j < k - 1 { MergedAt(ord[2..], dad, f, elems, k - 1, j, p - 2); }
  }

  /** r are the roots after j merges; the nodes merged by then stand at position p and later. */
  ghost predicate Roots(ord: seq<nat>, r: seq<nat>, elems: nat, k: nat, leaves: seq<nat>, j: nat, p: nat) {
    && j <= k && p == 2 * (k - j) + 1 && p <= |ord|
    && multiset(r) + multiset(ord[p..]) == All(leaves, elems, j)
  }

  lemma {:induction false} AllSub(elems: nat, leaves: seq<nat>, j: nat, k: nat, x: nat)
    requires j <= k
    ensures All(leaves, elems, j)[x] <= All(leaves, elems, k)[x]
    ensures x < elems + j ==> All(leaves, elems, j)[x] == All(leaves, elems, k)[x]
    decreases k
  {
    if j < k {
      var before: nat := k - 1;
      AllSub(elems, leaves, j, before, x);
      AllCount(leaves, elems, before, elems + before, k, x);
    }
  }

  lemma AllCount(leaves: seq<nat>, elems: nat, j: nat, d: nat, j': nat, x: nat)
    requires d == elems + j && j' == j + 1
    ensures All(leaves, elems, j')[x] == All(leaves, elems, j)[x] + if x == d then 1 else 0
  {
    AllAdd(leaves, elems, j, d, j');
  }

  lemma DistinctCounts(s: seq<nat>, p: nat, x: nat)
    requires Distinct(s) && p <= |s|
    ensures multiset(s)[x] <= 1 && (x in s[p..] <==> multiset(s[p..])[x] == 1) && (x in s[..p] ==> x !in s[p..])
    ensures multiset(s)[x] == multiset(s[..p])[x] + multiset(s[p..])[x]
  {
    assert s == s[..p] + s[p..];
    assert multiset(s) == multiset(s[..p]) + multiset(s[p..]);
    OnceEach(s, x);
    OnceEach(s[p..], x);
  }

  lemma {:induction false} OnceEach(s: seq<nat>, x: nat)
    requires Distinct(s)
    ensures multiset(s)[x] == if x in s then 1 else 0
  {
    if s != [] {
      OnceEach(s[1..], x);
      assert s == [s[0]] + s[1..];
      assert multiset(s) == multiset{s[0]} + multiset(s[1..]);
      assert s[0] !in s[1..];
    }
  }

  /** The roots are among the nodes that stand before position p, and only once. */
  lemma RootListed(ord: seq<nat>, dad: seq<nat>, f: seq<nat>, elems: nat, k: nat, leaves: seq<nat>, j: nat, p: nat,
                   r: seq<nat>, x: nat)
    requires TreeOrder(ord, dad, f, elems, k, leaves) && Roots(ord, r, elems, k, leaves, j, p)
    ensures multiset(r)[x] <= 1 && (x in r ==> x in ord[..p])
    ensures x in ord[..p] && x < elems + j ==> x in r
  {
    DistinctCounts(ord, p, x);
    AllSub(elems, leaves, j, k, x);
    assert (multiset(r) + multiset(ord[p..]))[x] == All(leaves, elems, j)[x];
    assert x in ord[..p] ==> multiset(ord[..p])[x] >= 1;
  }

  lemma RootsDistinct(ord: seq<nat>, dad: seq<nat>, f: seq<nat>, elems: nat, k: nat, leaves: seq<nat>, j: nat, p: nat,
                      r: seq<nat>)
    requires TreeOrder(ord, dad, f, elems, k, leaves) && Roots(ord, r, elems, k, leaves, j, p)
    ensures Distinct(r) && forall x: nat :: x in r ==> x in ord[..p] && x < elems + j
  {
    forall x: nat ensures multiset(r)[x] <= 1 && (x in r ==> x in ord[..p]) {
      RootListed(ord, dad, f, elems, k, leaves, j, p, r, x);
    }
    OnceDistinct(r);
    forall x: nat | x in r ensures x < elems + j {
      assert x in multiset(r) + multiset(ord[p..]);
      AllBelow(leaves, elems, j, x);
    }
  }

  /** The next pair merged are the two least frequent roots. */
  lemma NextPair(ord: seq<nat>, dad: seq<nat>, f: seq<nat>, elems: nat, k: nat, leaves: seq<nat>, j: nat, p: nat,
                 r: seq<nat>)
    returns (i: nat, c: nat)
    requires TreeOrder(ord, dad, f, elems, k, leaves) && Roots(ord, r, elems, k, leaves, j, p) && j < k
    ensures LeastTwo(f, r, i, c) && r[i] == ord[p - 1] && r[c] == ord[p - 2]
    ensures Father(ord[p - 2], ord[p - 1], dad, f, elems + j)
  {
    MergedAt(ord[1..], dad, f, elems, k, j, p - 3);
    var m, n := ord[p - 2], ord[p - 1];
    assert ord[1..][p - 3] == m && ord[1..][p - 2] == n;
    assert m in ord[..p] && n in ord[..p];
    RootListed(ord, dad, f, elems, k, leaves, j, p, r, m);
    RootListed(ord, dad, f, elems, k, leaves, j, p, r, n);
    i :| 0 <= i < |r| && r[i] == n;
    c :| 0 <= c < |r| && r[c] == m;
    RootsDistinct(ord, dad, f, elems, k, leaves, j, p, r);
    forall q | 0 <= q < |r| ensures r[q] < |f| && (q != i ==> f[r[q]] >= f[m]) {
      assert r[q] in ord[..p];
      var t :| 0 <= t < p && ord[t] == r[q];
    }
  }

  lemma Without(r: seq<nat>, i: nat) returns (t: seq<nat>)
    requires i < |r|
    ensures multiset(t) + multiset{r[i]} == multiset(r)
    ensures forall c :: 0 <= c < |r| && c != i ==> r[c] in t
  {
    t := r[..i] + r[i + 1..];
    assert r == r[..i] + [r[i]] + r[i + 1..];
    forall c | 0 <= c < |r| && c != i ensures r[c] in t {
      assert r[c] == if c < i then t[c] else t[c - 1];
    }
  }

  lemma ReplaceTwo(r: seq<nat>, i: nat, j: nat, d: nat) returns (r': seq<nat>)
    requires i < |r| && j < |r| && i != j
    ensures Replaced(r, r', r[i], r[j], d)
  {
    var n, m := r[i], r[j];
    var t := Without(r, i);
    var c :| 0 <= c < |t| && t[c] == m;
    var q := Without(t, c);
    r' := q + [d];
    assert multiset(r') == multiset(q) + multiset{d};
    assert multiset{n, m} == multiset{n} + multiset{m};
  }

  lemma RootsStep(ord: seq<nat>, r: seq<nat>, elems: nat, k: nat, leaves: seq<nat>, j: nat, p: nat, r': seq<nat>,
                  d: nat, j': nat, p': nat)
    requires Roots(ord, r, elems, k, leaves, j, p) && j < k && d == elems + j && j' == j + 1 && p == p' + 2
    requires Replaced(r, r', ord[p' + 1], ord[p'], d)
    ensures Roots(ord, r', elems, k, leaves, j', p')
  {
    PairInFront(ord, p, p');
    AllAdd(leaves, elems, j, d, j');
    Exchange(multiset(r'), multiset{ord[p' + 1], ord[p']}, multiset(r), multiset{d}, multiset(ord[p..]),
             All(leaves, elems, j));
  }

  lemma PairInFront(ord: seq<nat>, p: nat, p': nat)
    requires p == p' + 2 && p <= |ord|
    ensures multiset(ord[p'..]) == multiset{ord[p' + 1], ord[p']} + multiset(ord[p..])
  {
    assert ord[p'..] == [ord[p'], ord[p' + 1]] + ord[p..];
  }

  lemma AllAdd(leaves: seq<nat>, elems: nat, j: nat, d: nat, j': nat)
    requires d == elems + j && j' == j + 1
    ensures All(leaves, elems, j') == All(leaves, elems, j) + multiset{d}
  {
    InternalsStep(elems, j, d, j');
    var rest: seq<nat> := Internals(elems, j);
    assert multiset([d] + rest) == multiset{d} + multiset(rest);
  }

  lemma Exchange(a: multiset<nat>, pair: multiset<nat>, b: multiset<nat>, d: multiset<nat>, o: multiset<nat>,
                 l: multiset<nat>)
    requires a + pair == b + d && b + o == l
    ensures a + (pair + o) == l + d
  {
    assert a + (pair + o) == (a + pair) + o;
    assert (b + d) + o == (b + o) + d;
  }

  /** Any lengths for the roots after j merges cost at least the frequencies of the nodes still to come. */
  lemma {:induction false} LowerBound(ord: seq<nat>, dad: seq<nat>, f: seq<nat>, elems: nat, k: nat, leaves: seq<nat>,
                                      j: nat, p: nat, r: seq<nat>, v: seq<nat>, m: nat)
    requires TreeOrder(ord, dad, f, elems, k, leaves) && Roots(ord, r, elems, k, leaves, j, p)
    requires |v| == |f| && Fits(v, r, m) && elems + k <= |f|
    ensures CostOf(f, v, r) + Sum(f, Internals(elems, j)) >= Sum(f, Internals(elems, k))
    decreases k - j
  {
    if j < k {
      var d, j', p' := elems + j, j + 1, p - 2;
      var r', v', l := OneMerge(ord, dad, f, elems, k, leaves, j, p, r, v, m, d, j', p');
      LowerBound(ord, dad, f, elems, k, leaves, j', p', r', v', l);
      InternalsSum(f, elems, j, d, j');
    }
  }

  lemma OneMerge(ord: seq<nat>, dad: seq<nat>, f: seq<nat>, elems: nat, k: nat, leaves: seq<nat>, j: nat, p: nat,
                 r: seq<nat>, v: seq<nat>, m: nat, d: nat, j': nat, p': nat)
    returns (r': seq<nat>, v': seq<nat>, l: nat)
    requires TreeOrder(ord, dad, f, elems, k, leaves) && Roots(ord, r, elems, k, leaves, j, p) && j < k
    requires |v| == |f| && Fits(v, r, m) && elems + k <= |f| && d == elems + j && j' == j + 1 && p == p' + 2
    ensures Roots(ord, r', elems, k, leaves, j', p') && |v'| == |f| && Fits(v', r', l)
    ensures CostOf(f, v', r') + f[d] <= CostOf(f, v, r)
  {
    var i, c := NextPair(ord, dad, f, elems, k, leaves, j, p, r);
    r' := ReplaceTwo(r, i, c, d);
    RootsDistinct(ord, dad, f, elems, k, leaves, j, p, r);
    v', l := MergeBound(f, v, r, m, i, c, d, r');
    RootsStep(ord, r, elems, k, leaves, j, p, r', d, j', p');
  }

  lemma InternalsSum(f: seq<nat>, elems: nat, j: nat, d: nat, j': nat)
    requires d == elems + j && j' == j + 1 && j' + elems <= |f|
    ensures Below(Internals(elems, j), |f|) && Below(Internals(elems, j'), |f|)
    ensures Sum(f, Internals(elems, j')) == f[d] + Sum(f, Internals(elems, j))
  {
    InternalsStep(elems, j, d, j');
    assert ([d] + Internals(elems, j))[1..] == Internals(elems, j);
  }

  /** No lengths that leave room for the leaves cost less than the tree. */
  lemma TreeBest(ord: seq<nat>, dad: seq<nat>, f: seq<nat>, elems: nat, k: nat, leaves: seq<nat>, v: seq<nat>, m: nat)
    requires TreeOrder(ord, dad, f, elems, k, leaves) && |v| == |f| && Fits(v, leaves, m)
    ensures elems + k <= |f| && CostOf(f, v, leaves) >= Sum(f, Internals(elems, k))
  {
    TreeHolds(ord, dad, f, elems, k, leaves);
    var p := 2 * k + 1;
    assert ord[p..] == [];
    var none: multiset<nat>, nodes: seq<nat> := multiset{}, Internals(elems, 0);
    assert multiset(leaves) + none == multiset(leaves) && multiset(nodes) == none;
    LowerBound(ord, dad, f, elems, k, leaves, 0, p, leaves, v, m);
  }

  // ----- prefix codes leave room -----

  /** No word is a prefix of another. */
  ghost predicate PrefixFreeWords(ws: seq<seq<bool>>) {
    ws == [] ||
    ((forall i :: 1 <= i < |ws| ==> !(ws[0] <= ws[i]) && !(ws[i] <= ws[0])) && PrefixFreeWords(ws[1..]))
  }

  ghost function WordShares(ws: seq<seq<bool>>, m: nat): nat {
    if ws == [] then 0 else (if |ws[0]| <= m then Pow2(m - |ws[0]|) else 0) + WordShares(ws[1..], m)
  }

  /** What follows bit b in the words that start with it. */
  ghost function Tails(ws: seq<seq<bool>>, b: bool): seq<seq<bool>> {
    if ws == [] then []
    else if ws[0] != [] && ws[0][0] == b then [ws[0][1..]] + Tails(ws[1..], b)
    else Tails(ws[1..], b)
  }

  lemma {:induction false} TailsFrom(ws: seq<seq<bool>>, b: bool, t: seq<bool>)
    requires t in Tails(ws, b)
    ensures [b] + t in ws
  {
    if ws[0] != [] && ws[0][0] == b && t == ws[0][1..] {
      assert ws[0] == [b] + t;
    } else {
      TailsFrom(ws[1..], b, t);
    }
  }

  lemma PrefixCons(b: bool, s: seq<bool>, t: seq<bool>)
    ensures s <= t <==> [b] + s <= [b] + t
  {
    if [b] + s <= [b] + t {
      forall i | 0 <= i < |s| ensures s[i] == t[i] { assert ([b] + s)[i + 1] == ([b] + t)[i + 1]; }
    }
  }

  lemma {:induction false} TailsFree(ws: seq<seq<bool>>, b: bool)
    requires PrefixFreeWords(ws)
    ensures PrefixFreeWords(Tails(ws, b))
  {
    if ws != [] {
      TailsFree(ws[1..], b);
      if ws[0] != [] && ws[0][0] == b {
        var h, rest := ws[0][1..], Tails(ws[1..], b);
        assert ws[0] == [b] + h;
        forall i | 0 <= i < |rest| ensures !(h <= rest[i]) && !(rest[i] <= h) {
          TailsFrom(ws[1..], b, rest[i]);
          PrefixCons(b, h, rest[i]);
          PrefixCons(b, rest[i], h);
        }
        assert ([h] + rest)[1..] == rest;
      }
    }
  }

  lemma {:induction false} SharesSplit(ws: seq<seq<bool>>, m: nat)
    requires m >= 1 && forall i :: 0 <= i < |ws| ==> ws[i] != []
    ensures WordShares(ws, m) == WordShares(Tails(ws, false), m - 1) + WordShares(Tails(ws, true), m - 1)
  {
    if ws != [] {
      SharesSplit(ws[1..], m);
      var b := ws[0][0];
      assert ([ws[0][1..]] + Tails(ws[1..], b))[1..] == Tails(ws[1..], b);
    }
  }

  lemma {:induction false} TailsShort(ws: seq<seq<bool>>, b: bool, m: nat)
    requires m >= 1 && forall i :: 0 <= i < |ws| ==> |ws[i]| <= m
    ensures forall i :: 0 <= i < |Tails(ws, b)| ==> |Tails(ws, b)[i]| <= m - 1
  {
    if ws != [] { TailsShort(ws[1..], b, m); }
  }

  /** Kraft's inequality for prefix codes. */
  lemma {:induction false} Kraft(ws: seq<seq<bool>>, m: nat)
    requires PrefixFreeWords(ws) && forall i :: 0 <= i < |ws| ==> |ws[i]| <= m
    ensures WordShares(ws, m) <= Pow2(m)
    decreases m
  {
    if ws == [] {
    } else if i :| 0 <= i < |ws| && ws[i] == [] {
      OnlyWord(ws, i);
      assert ws[1..] == [];
    } else {
      assert ws[0] != [];
      SharesSplit(ws, m);
      TailsFree(ws, false);
      TailsFree(ws, true);
      TailsShort(ws, false, m);
      TailsShort(ws, true, m);
      Kraft(Tails(ws, false), m - 1);
      Kraft(Tails(ws, true), m - 1);
    }
  }

  lemma OnlyWord(ws: seq<seq<bool>>, i: nat)
    requires PrefixFreeWords(ws) && i < |ws| && ws[i] == []
    ensures |ws| == 1
  {
    var other := if |ws| == 1 then [] else if i == 0 then ws[1] else ws[0];
    assert ws[i] <= other;
  }

  // ----- the theorem -----

  /** Words for the symbols below elems; those of symbols that occur are prefix-free. */
  ghost predicate PrefixCode(words: seq<seq<bool>>, f: seq<nat>, elems: nat) {
    && |words| == elems <= |f|
    && forall x, y :: 0 <= x < elems && 0 <= y < elems && x != y && f[x] > 0 && f[y] > 0 ==> !(words[x] <= words[y])
  }

  ghost function WordLens(words: seq<seq<bool>>): (r: seq<nat>)
    ensures |r| == |words|
  {
    seq(|words|, x requires 0 <= x < |words| => |words[x]|)
  }

  /** The cheapest of all prefix codes for the frequencies f. */
  ghost predicate Optimal(lens: seq<nat>, f: seq<nat>, elems: nat) {
    && elems <= |lens| && elems <= |f|
    && forall words :: PrefixCode(words, f, elems) ==> Weighted(f, lens, elems) <= Weighted(f, WordLens(words), elems)
  }

  ghost function Pick(words: seq<seq<bool>>, s: seq<nat>): (r: seq<seq<bool>>)
    requires Below(s, |words|)
    ensures |r| == |s|
  {
    seq(|s|, i requires 0 <= i < |s| => words[s[i]])
  }

  lemma {:induction false} PickFree(words: seq<seq<bool>>, f: seq<nat>, elems: nat, s: seq<nat>)
    requires PrefixCode(words, f, elems) && Below(s, elems) && Distinct(s) && Occur(s, f)
    ensures PrefixFreeWords(Pick(words, s))
  {
    if s != [] {
      PickFree(words, f, elems, s[1..]);
      assert Pick(words, s)[1..] == Pick(words, s[1..]);
    }
  }

  lemma {:induction false} PickShares(words: seq<seq<bool>>, v: seq<nat>, s: seq<nat>, m: nat)
    requires Below(s, |words|) && |words| <= |v| && forall x :: 0 <= x < |words| ==> v[x] == |words[x]|
    ensures Sum(Shares(v, m), s) == WordShares(Pick(words, s), m)
  {
    if s != [] {
      PickShares(words, v, s[1..], m);
      assert Pick(words, s)[1..] == Pick(words, s[1..]);
    }
  }

  lemma {:induction false} MaxLength(words: seq<seq<bool>>) returns (m: nat)
    ensures forall x :: 0 <= x < |words| ==> |words[x]| <= m
  {
    if words == [] {
      m := 0;
    } else {
      m := MaxLength(words[1..]);
      forall x | 1 <= x < |words| ensures |words[x]| <= m { assert words[x] == words[1..][x - 1]; }
      if m < |words[0]| { m := |words[0]|; }
    }
  }

  /** When no length was cut off, the tree of build_tree is optimal. */
  lemma TreeOptimal(ord: seq<nat>, dad: seq<nat>, f: seq<nat>, elems: nat, k: nat, m: nat)
    requires elems <= |f| && TreeOrder(ord, dad, f, elems, k, Leaves(f, elems)) && m >= 1
    requires Below(ord, |dad|) && Below(ord[1..], |dad|) && Overflow(dad[ord[0] := 0], ord[1..], m) == 0
    ensures Optimal(TreeLens(ord, dad, m), f, elems)
  {
    var leaves, lens := Leaves(f, elems), TreeLens(ord, dad, m);
    TreeHolds(ord, dad, f, elems, k, leaves);
    TreeCost(ord, dad, f, elems, k, leaves, m);
    LeavesOccur(f, elems);
    CostLeaves(f, lens, |f|, elems);
    forall i | 0 <= i < |leaves| ensures Products(f, lens)[leaves[i]] == Cost(f, lens, |f|)[leaves[i]] {
      TimesIs(f[leaves[i]], lens[leaves[i]]);
    }
    SumAgree(Products(f, lens), Cost(f, lens, |f|), leaves);
    forall words | PrefixCode(words, f, elems) ensures Weighted(f, lens, elems) <= Weighted(f, WordLens(words), elems) {
      CodeCost(ord, dad, f, elems, k, words);
    }
  }

  lemma CodeCost(ord: seq<nat>, dad: seq<nat>, f: seq<nat>, elems: nat, k: nat, words: seq<seq<bool>>)
    requires elems <= |f| && TreeOrder(ord, dad, f, elems, k, Leaves(f, elems)) && PrefixCode(words, f, elems)
    ensures elems + k <= |f| && Weighted(f, WordLens(words), elems) >= Sum(f, Internals(elems, k))
  {
    var leaves := Leaves(f, elems);
    var v := WordLens(words) + seq(|f| - elems, x => 0);
    var b := MaxLength(words);
    LeavesOccur(f, elems);
    PickFree(words, f, elems, leaves);
    PickShares(words, v, leaves, b);
    Kraft(Pick(words, leaves), b);
    TreeBest(ord, dad, f, elems, k, leaves, v, b);
    CostLeaves(f, v, |f|, elems);
    WeightedAgree(f, v, WordLens(words), elems);
  }
}
