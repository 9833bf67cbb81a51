/** `gen_bitlen`: code lengths from the finished tree, limited to max_length. */
module HuffmanLengths {
  import opened Bits
  import opened Sums
  import opened HuffmanCode
  import opened HuffmanTree
  import opened HuffmanMerge
  import opened HuffmanLeaves
  import opened HuffmanCounts

  // ----- what symbols cost -----

  /** Extra bits that follow the code of symbol n. */
  function Xbits(extra: seq<nat>, base: nat, n: nat): nat {
    if base <= n < base + |extra| then extra[n - base] else 0
  }

  /** Bits sent for each symbol: its code and its extra bits. */
  ghost function Weights(l: seq<nat>, extra: seq<nat>, base: nat): (w: seq<nat>)
    ensures |w| == |l|
  {
    seq(|l|, x requires 0 <= x < |l| => l[x] + Xbits(extra, base, x))
  }

  /** A product, by recursion so that sums of costs stay free of multiplication. */
  ghost function Times(a: nat, b: nat): nat {
    if b == 0 then 0 else a + Times(a, b - 1)
  }

  lemma {:induction false} TimesIs(a: nat, b: nat)
    ensures Times(a, b) == a * b
  {
    if b > 0 { TimesIs(a, b - 1); }
  }

  /** What the symbols below top cost. */
  ghost function Cost(f: seq<nat>, w: seq<nat>, top: nat): (r: seq<nat>)
    ensures |r| == |f|
  {
    seq(|f|, x requires 0 <= x < |f| => if x < top && x < |w| then Times(f[x], w[x]) else 0)
  }

  // ----- the first pass -----

  /** The nodes s[i..] still have to get their length; lens is what will result. */
  ghost predicate Passing(u: seq<nat>, s: seq<nat>, i: nat, m: nat, lens: seq<nat>, over: nat, total: nat) {
    && i <= |s| && |u| == |lens| && Below(s, |u|) && Distinct(s)
    && Overlay(u, s[i..], m) == lens && over + Overflow(u, s[i..], m) == total
    && forall j :: i <= j < |s| ==> u[s[j]] < |u|
  }

  lemma PassStep(u: seq<nat>, s: seq<nat>, i: nat, m: nat, lens: seq<nat>, over: nat, total: nat, n: nat, d: nat,
                 bits: nat, over': nat)
    requires Passing(u, s, i, m, lens, over, total) && i < |s| && n == s[i] && d == u[n]
    requires d < |u| && bits == Clip(m, u[d] + 1) && over' == over + if u[d] + 1 > m then 1 else 0
    ensures n < |lens| && lens[n] == bits && Passing(u[n := bits], s, i + 1, m, lens, over', total)
  {
    var rest := s[i..];
    assert rest[0] == n && rest[1..] == s[i + 1..];
    assert Overlay(u, rest, m) == Overlay(u[n := bits], s[i + 1..], m);
    assert n !in s[i + 1..];
    OverlayKeeps(u[n := bits], s[i + 1..], m, n);
  }

  /** The statistics and costs of the symbols in s. */
  ghost predicate Tallied(c: seq<nat>, opt: int, static_: int, opt0: int, static0: int, lens: seq<nat>, f: seq<nat>,
                          s: seq<nat>, top: nat, w: seq<nat>, sw: seq<nat>) {
    && Below(s, |lens|) && |f| == |lens| && c == Hist(lens, s, top)
    && opt == opt0 + Sum(Cost(f, w, top), s) && static_ == static0 + Sum(Cost(f, sw, top), s)
  }

  lemma TallyStep(c: seq<nat>, opt: int, static_: int, opt0: int, static0: int, lens: seq<nat>, f: seq<nat>,
                  s: seq<nat>, top: nat, w: seq<nat>, sw: seq<nat>, x: nat)
    requires Tallied(c, opt, static_, opt0, static0, lens, f, s, top, w, sw) && x < |lens| && (x < top ==> lens[x] >= 1)
    ensures Tallied(if x < top then Bump(c, lens[x]) else c, opt + Cost(f, w, top)[x], static_ + Cost(f, sw, top)[x],
                  opt0, static0, lens, f, s + [x], top, w, sw)
  {
    HistSnoc(lens, s, top, x);
    SumSnoc(Cost(f, w, top), s, x);
    SumSnoc(Cost(f, sw, top), s, x);
  }

  /** Every symbol below top in s has a length between 1 and m. */
  ghost predicate LensFit(lens: seq<nat>, s: seq<nat>, top: nat, m: nat) {
    Below(s, |lens|) && forall i :: 0 <= i < |s| && s[i] < top ==> 1 <= lens[s[i]] <= m
  }

  /** Counts one leaf. */
  method TallyLeaf(blCount: array<nat>, n: nat, bits: nat, freq: nat, extra: seq<nat>, base: nat, slen: seq<nat>,
                   optLen: int, staticLen: int, ghost opt0: int, ghost static0: int, ghost lens: seq<nat>,
                   ghost f: seq<nat>, ghost s: seq<nat>, top: nat)
    returns (optLen': int, staticLen': int)
    requires blCount.Length == MAX_BITS + 1 && 1 <= bits <= MAX_BITS && n < |lens| && lens[n] == bits && n < |f|
    requires freq == f[n]
    requires slen == [] || top <= |slen|
    requires Tallied(blCount[..], optLen, staticLen, opt0, static0, lens, f, s, top, Weights(lens, extra, base),
                     Weights(slen, extra, base)) == true
    modifies blCount
    ensures Tallied(blCount[..], optLen', staticLen', opt0, static0, lens, f, s + [n], top,
                    Weights(lens, extra, base), Weights(slen, extra, base)) == true
  {
    optLen', staticLen' := optLen, staticLen;
    ghost var c := blCount[..];
    TallyStep(c, optLen, staticLen, opt0, static0, lens, f, s, top, Weights(lens, extra, base),
              Weights(slen, extra, base), n);
    if n >= top {
      return;
    }
    blCount[bits] := blCount[bits] + 1;
    assert blCount[..] == Bump(c, bits);
    var xbits := Xbits(extra, base, n);
    optLen' := optLen + freq * (bits + xbits);
    TimesIs(freq, bits + xbits);
    if slen != [] {
      staticLen' := staticLen + freq * (slen[n] + xbits);
      TimesIs(freq, slen[n] + xbits);
    }
  }

  /** The first loop of gen_bitlen, after the root has got length 0. */
  method FirstPass(fc: array<nat>, dl: array<nat>, heap: array<nat>, blCount: array<nat>, heapMax: nat, top: nat,
                   m: nat, extra: seq<nat>, base: nat, slen: seq<nat>, optLen0: int, staticLen0: int, ghost f: seq<nat>,
                   ghost s: seq<nat>, ghost lens: seq<nat>, ghost total: nat)
    returns (overflow: nat, optLen: int, staticLen: int)
    requires dl != heap && dl != fc && dl != blCount && blCount != fc && blCount != heap && fc[..] == f
    requires |f| == dl.Length
    requires heapMax < heap.Length && heap[..][heapMax + 1..] == s
    requires blCount.Length == MAX_BITS + 1 && 1 <= m <= MAX_BITS && blCount[..] == seq(MAX_BITS + 1, b => 0)
    requires slen == [] || top <= |slen|
    requires Passing(dl[..], s, 0, m, lens, 0, total) == true && LensFit(lens, s, top, m)
    modifies dl, blCount
    ensures dl[..] == lens && overflow == total
    ensures Tallied(blCount[..], optLen, staticLen, optLen0, staticLen0, lens, f, s, top, Weights(lens, extra, base),
                    Weights(slen, extra, base)) == true
  {
    overflow, optLen, staticLen := 0, optLen0, staticLen0;
    var h := heapMax + 1;
    ghost var i := 0;
    HistEmpty(lens, top);
    assert s[..0] == [];
    while h < heap.Length
      invariant heapMax + 1 <= h <= heap.Length && i + heapMax + 1 == h && heap[..][heapMax + 1..] == s
      invariant dl.Length == |lens| && fc[..] == f
      invariant Passing(dl[..], s, i, m, lens, overflow, total) == true
      invariant Tallied(blCount[..], optLen, staticLen, optLen0, staticLen0, lens, f, s[..i], top,
                        Weights(lens, extra, base), Weights(slen, extra, base)) == true
    {
      ghost var u, over := dl[..], overflow;
      var n := heap[h];
      assert n == s[i];
      assert n < |u| && u[n] < |u| by { assert Passing(u, s, i, m, lens, over, total); }
      var bits := dl[dl[n]] + 1;
      if bits > m {
        bits := m;
        overflow := overflow + 1;
      }
      PassStep(u, s, i, m, lens, over, total, n, u[n], bits, overflow);
      dl[n] := bits;
      assert dl[..] == u[n := bits];
      optLen, staticLen := TallyLeaf(blCount, n, bits, fc[n], extra, base, slen, optLen, staticLen, optLen0,
                                     staticLen0, lens, f, s[..i], top);
      assert s[..i + 1] == s[..i] + [n];
      h, i := h + 1, i + 1;
    }
    assert s[..i] == s && s[i..] == [];
    PassEnd(dl[..], s, i, m, lens, overflow, total);
  }

  lemma PassEnd(u: seq<nat>, s: seq<nat>, i: nat, m: nat, lens: seq<nat>, over: nat, total: nat)
    requires Passing(u, s, i, m, lens, over, total) && i == |s|
    ensures u == lens && over == total
  {
  }

  // ----- the second pass, after an overflow -----

  /** The counts of codes longer than bits, and all but n of those of bits bits. */
  ghost function Part(c: seq<nat>, bits: nat, n: nat): (r: seq<nat>)
    requires bits < |c| && n <= c[bits]
    ensures |r| == |c|
  {
    seq(|c|, b requires 0 <= b < |c| => if b > bits then c[b] else if b == bits then c[b] - n else 0)
  }

  /** Later symbols, which are less frequent, have longer codes. */
  ghost predicate Ordered(u: seq<nat>, s: seq<nat>, p: nat, top: nat) {
    Below(s, |u|) && forall i, j :: p <= i < j < |s| && s[i] < top && s[j] < top ==> u[s[i]] <= u[s[j]]
  }

  ghost predicate LongerThan(u: seq<nat>, s: seq<nat>, p: nat, top: nat, bits: nat, m: nat) {
    Below(s, |u|) && forall i :: p <= i < |s| && s[i] < top ==> 1 <= u[s[i]] && bits <= u[s[i]] <= m
  }

  /** Only the symbols in t have changed. */
  ghost predicate Only(u: seq<nat>, lens: seq<nat>, t: seq<nat>, top: nat) {
    |u| == |lens| && forall x: nat :: x < |u| && (x >= top || x !in t) ==> u[x] == lens[x]
  }

  ghost predicate CostMoved(u: seq<nat>, lens: seq<nat>, f: seq<nat>, t: seq<nat>, top: nat, extra: seq<nat>, base: nat,
                            opt: int, opt1: int) {
    && Below(t, |f|)
    && opt + Sum(Cost(f, Weights(lens, extra, base), top), t) == opt1 + Sum(Cost(f, Weights(u, extra, base), top), t)
  }

  /** The symbols in s[p..] have got their final lengths, the next n will get length bits. */
  ghost predicate Assigning(u: seq<nat>, lens: seq<nat>, s: seq<nat>, p: nat, top: nat, m: nat, c: seq<nat>, bits: nat,
                            n: nat) {
    && p <= |s| && Distinct(s) && Below(s, |u|) && bits <= m <= MAX_BITS && |c| == MAX_BITS + 1 && n <= c[bits]
        && c[0] == 0
    && Hist(u, s[p..], top) == Part(c, bits, n)
    && LongerThan(u, s, p, top, bits, m) && Ordered(u, s, p, top)
    && Only(u, lens, s[p..], top)
  }

  lemma AssignSkip(u: seq<nat>, lens: seq<nat>, s: seq<nat>, p: nat, top: nat, m: nat, c: seq<nat>, bits: nat, n: nat,
                   p': nat)
    requires Assigning(u, lens, s, p, top, m, c, bits, n) && p == p' + 1 && s[p'] >= top
    ensures Assigning(u, lens, s, p', top, m, c, bits, n)
  {
    assert s[p'..] == [s[p']] + s[p..];
    HistCons(u, s[p..], top, s[p']);
  }

  lemma AssignHist(u: seq<nat>, t: seq<nat>, top: nat, c: seq<nat>, bits: nat, n: nat, n': nat, x: nat)
    requires Below(t, |u|) && x < |u| && x !in t && x < top && 1 <= bits <= MAX_BITS && |c| == MAX_BITS + 1
    requires n == n' + 1 && n <= c[bits] && Hist(u, t, top) == Part(c, bits, n)
    ensures Hist(u[x := bits], [x] + t, top) == Part(c, bits, n')
  {
    HistAgree(u, u[x := bits], t, top);
    HistCons(u[x := bits], t, top, x);
    assert Bump(Part(c, bits, n), bits) == Part(c, bits, n');
  }

  lemma AssignLeaf(u: seq<nat>, lens: seq<nat>, s: seq<nat>, p: nat, top: nat, m: nat, c: seq<nat>, bits: nat, n: nat,
                   p': nat, n': nat, x: nat)
    requires Assigning(u, lens, s, p, top, m, c, bits, n) && p == p' + 1 && x == s[p'] && x < top && n == n' + 1
    requires bits >= 1
    ensures Assigning(u[x := bits], lens, s, p', top, m, c, bits, n') && u[x] == lens[x] && x !in s[p..]
  {
    var t := s[p..];
    assert s[p'..] == [x] + t;
    assert x !in t;
    AssignHist(u, t, top, c, bits, n, n', x);
  }

  lemma AssignNext(u: seq<nat>, lens: seq<nat>, s: seq<nat>, p: nat, top: nat, m: nat, c: seq<nat>, bits: nat,
                   bits': nat, n: nat)
    requires Assigning(u, lens, s, p, top, m, c, bits, 0) && bits == bits' + 1 && n == c[bits']
    ensures Assigning(u, lens, s, p, top, m, c, bits', n)
  {
    assert Part(c, bits, 0) == Part(c, bits', n);
  }

  lemma MoveCost(u: seq<nat>, lens: seq<nat>, f: seq<nat>, t: seq<nat>, top: nat, extra: seq<nat>, base: nat, opt: int,
                 opt1: int, x: nat, bits: nat, t': seq<nat>)
    requires CostMoved(u, lens, f, t, top, extra, base, opt, opt1) && |u| == |lens| == |f|
    requires t' == [x] + t && x < |u| && x !in t && u[x] == lens[x] && (x >= top ==> bits == u[x])
    ensures CostMoved(u[x := bits], lens, f, t', top, extra, base, opt + Change(u[x], bits, f[x]), opt1)
  {
    var u' := u[x := bits];
    assert t'[1..] == t;
    SumAgree(Cost(f, Weights(u, extra, base), top), Cost(f, Weights(u', extra, base), top), t);
    MoveProduct(f[x], u[x], bits, Xbits(extra, base, x));
  }

  /** What freq codes cost more at b bits than at a bits. */
  function Change(a: nat, b: nat, freq: nat): int {
    (b - a) * freq
  }

  lemma MoveProduct(f: nat, a: nat, b: nat, x: nat)
    ensures Times(f, b + x) == Times(f, a + x) + Change(a, b, f)
  {
    TimesIs(f, b + x);
    TimesIs(f, a + x);
  }

  // ----- the number of leaves -----

  ghost function TopOnes(k: nat, top: nat): (w: seq<nat>)
    ensures |w| == k
  {
    seq(k, x => if x < top then 1 else 0)
  }

  lemma {:induction false} PartTotal(c: seq<nat>, bits: nat, n: nat, m: nat)
    requires 1 <= bits && m < |c| && bits < |c| && n <= c[bits]
    ensures bits <= m ==> Total(Part(c, bits, n), m) + n + Total(c, bits - 1) == Total(c, m)
    ensures bits > m ==> Total(Part(c, bits, n), m) == 0
  {
    if m > 0 { PartTotal(c, bits, n, m - 1); }
  }

  lemma HistTotal(u: seq<nat>, t: seq<nat>, top: nat, m: nat)
    requires LensFit(u, t, top, m) && m <= MAX_BITS
    ensures Total(Hist(u, t, top), m) == Sum(TopOnes(|u|, top), t)
  {
    HistSpace(u, t, top, m);
    SumAgree(Within(u, m, top), TopOnes(|u|, top), t);
  }

  lemma SomeLeft(u: seq<nat>, lens: seq<nat>, s: seq<nat>, p: nat, top: nat, m: nat, c: seq<nat>, bits: nat, n: nat)
    requires Assigning(u, lens, s, p, top, m, c, bits, n) && bits >= 1 && n > 0
    requires Total(c, m) == Sum(TopOnes(|u|, top), s)
    ensures p > 0
  {
    if p == 0 {
      assert s[p..] == s;
      HistTotal(u, s, top, m);
      PartTotal(c, bits, n, m);
    }
  }

  lemma {:induction false} NoLeaves(w: seq<nat>, t: seq<nat>, i: nat)
    requires Below(t, |w|) && Sum(w, t) == 0 && i < |t|
    ensures w[t[i]] == 0
  {
    if i > 0 { NoLeaves(w, t[1..], i - 1); }
  }

  lemma {:induction false} SumZero(w: seq<nat>, t: seq<nat>)
    requires Below(t, |w|) && forall i :: 0 <= i < |t| ==> w[t[i]] == 0
    ensures Sum(w, t) == 0
  {
    if t != [] { SumZero(w, t[1..]); }
  }

  /** When the list t has no symbol, what precedes s[p..] does not count. */
  lemma TopSum(w: seq<nat>, s: seq<nat>, p: nat, top: nat)
    requires Below(s, |w|) && p <= |s| && forall x :: top <= x < |w| ==> w[x] == 0
    requires forall i :: 0 <= i < p ==> s[i] >= top
    ensures Below(s[p..], |w|) && Sum(w, s) == Sum(w, s[p..])
  {
    assert s == s[..p] + s[p..];
    SumAppend(w, s[..p], s[p..]);
    SumZero(w, s[..p]);
  }

  lemma AssignedFit(u: seq<nat>, s: seq<nat>, p: nat, top: nat, bits: nat, m: nat)
    requires LongerThan(u, s, p, top, bits, m) && p <= |s|
    ensures LensFit(u, s[p..], top, m)
  {
  }

  lemma AllAssigned(u: seq<nat>, lens: seq<nat>, s: seq<nat>, p: nat, top: nat, m: nat, c: seq<nat>, bits: nat)
    requires Assigning(u, lens, s, p, top, m, c, bits, 0) && bits == 0
    requires Total(c, m) == Sum(TopOnes(|u|, top), s)
    ensures forall i :: 0 <= i < p ==> s[i] >= top
  {
    AssignedFit(u, s, p, top, bits, m);
    HistTotal(u, s[p..], top, m);
    assert Part(c, bits, 0) == c;
    RestZero(TopOnes(|u|, top), s, p);
  }

  lemma RestZero(w: seq<nat>, s: seq<nat>, p: nat)
    requires Below(s, |w|) && p <= |s| && Sum(w, s) == Sum(w, s[p..])
    ensures forall i :: 0 <= i < p ==> w[s[i]] == 0
  {
    var t := s[..p];
    assert s == t + s[p..];
    SumAppend(w, t, s[p..]);
    forall i | 0 <= i < p ensures w[s[i]] == 0 {
      assert t[i] == s[i];
      NoLeaves(w, t, i);
    }
  }

  /** The new lengths u: as counted in c, and longer for less frequent symbols. */
  ghost predicate Assigned(u: seq<nat>, lens: seq<nat>, s: seq<nat>, top: nat, m: nat, c: seq<nat>) {
    && LensFit(u, s, top, m) && Hist(u, s, top) == c && Ordered(u, s, 0, top) && Only(u, lens, s, top)
  }

  lemma AssignEnd(u: seq<nat>, lens: seq<nat>, s: seq<nat>, p: nat, top: nat, m: nat, c: seq<nat>, bits: nat)
    requires Assigning(u, lens, s, p, top, m, c, bits, 0) && bits == 0
    requires Total(c, m) == Sum(TopOnes(|u|, top), s)
    ensures Assigned(u, lens, s, top, m, c)
  {
    AllAssigned(u, lens, s, p, top, m, c, bits);
    forall b | 1 <= b <= MAX_BITS ensures Hist(u, s, top)[b] == Hist(u, s[p..], top)[b] {
      TopSum(Mark(u, b, top), s, p, top);
    }
    assert Part(c, bits, 0) == c;
  }

  lemma CostEnd(u: seq<nat>, lens: seq<nat>, s: seq<nat>, f: seq<nat>, p: nat, top: nat, m: nat, c: seq<nat>, bits: nat,
                extra: seq<nat>, base: nat, opt: int, opt1: int)
    requires Assigning(u, lens, s, p, top, m, c, bits, 0) && bits == 0
    requires Total(c, m) == Sum(TopOnes(|u|, top), s) && |f| == |u|
    requires CostMoved(u, lens, f, s[p..], top, extra, base, opt, opt1)
    ensures CostMoved(u, lens, f, s, top, extra, base, opt, opt1)
  {
    AllAssigned(u, lens, s, p, top, m, c, bits);
    TopSum(Cost(f, Weights(u, extra, base), top), s, p, top);
    TopSum(Cost(f, Weights(lens, extra, base), top), s, p, top);
  }

  /** Gives the codes their new lengths, scanning the symbols in order of increasing frequency. */
  method Reassign(fc: array<nat>, dl: array<nat>, heap: array<nat>, blCount: array<nat>, heapMax: nat, top: nat, m: nat,
                  optLen0: int, ghost f: seq<nat>, ghost s: seq<nat>, ghost lens: seq<nat>, ghost c: seq<nat>,
                  ghost extra: seq<nat>, ghost base: nat)
    returns (optLen: int)
    requires dl != heap && dl != fc && dl != blCount && fc[..] == f && dl[..] == lens && blCount[..] == c
    requires |f| == |lens|
    requires heapMax < heap.Length && heap[..][heapMax + 1..] == s && Distinct(s) && Below(s, |lens|)
    requires 1 <= m <= MAX_BITS && |c| == MAX_BITS + 1 && c[0] == 0 && forall b :: m < b <= MAX_BITS ==> c[b] == 0
    requires Total(c, m) == Sum(TopOnes(|lens|, top), s)
    modifies dl
    ensures Assigned(dl[..], lens, s, top, m, c) == true
    ensures CostMoved(dl[..], lens, f, s, top, extra, base, optLen, optLen0) == true
  {
    optLen := optLen0;
    var h: nat, bits: nat := heap.Length, m;
    ghost var p: nat := |s|;
    AssignStart(lens, s, p, top, m, c);
    assert s[p..] == [];
    while bits != 0
      invariant 0 <= bits <= m && h == heapMax + 1 + p && fc[..] == f && blCount[..] == c
      invariant heap[..][heapMax + 1..] == s
      invariant Assigning(dl[..], lens, s, p, top, m, c, bits, c[bits]) == true
      invariant p <= |s| && CostMoved(dl[..], lens, f, s[p..], top, extra, base, optLen, optLen0) == true
    {
      var n := blCount[bits];
      while n != 0
        invariant 0 <= n && h == heapMax + 1 + p && fc[..] == f && blCount[..] == c && heap[..][heapMax + 1..] == s
        invariant Assigning(dl[..], lens, s, p, top, m, c, bits, n) == true
        invariant p <= |s| && CostMoved(dl[..], lens, f, s[p..], top, extra, base, optLen, optLen0) == true
        decreases h
      {
        h, n, p, optLen := AssignOne(fc, dl, heap, heapMax, top, m, h, bits, n, optLen, optLen0, p, f, s, lens, c,
                                     extra, base);
      }
      AssignNext(dl[..], lens, s, p, top, m, c, bits, bits - 1, c[bits - 1]);
      bits := bits - 1;
    }
    AssignEnd(dl[..], lens, s, p, top, m, c, bits);
    CostEnd(dl[..], lens, s, f, p, top, m, c, bits, extra, base, optLen, optLen0);
  }

  lemma AssignStart(lens: seq<nat>, s: seq<nat>, p: nat, top: nat, m: nat, c: seq<nat>)
    requires p == |s| && Distinct(s) && Below(s, |lens|)
    requires 1 <= m <= MAX_BITS && |c| == MAX_BITS + 1 && c[0] == 0 && forall b :: m < b <= MAX_BITS ==> c[b] == 0
    ensures Assigning(lens, lens, s, p, top, m, c, m, c[m])
  {
    assert s[p..] == [];
    HistEmpty(lens, top);
  }

  /** Takes one node off the end of the list, and gives it length bits if it is a leaf. */
  method AssignOne(fc: array<nat>, dl: array<nat>, heap: array<nat>, heapMax: nat, top: nat, m: nat, h: nat, bits: nat,
                   n: nat, optLen: int, ghost optLen0: int, ghost p: nat, ghost f: seq<nat>, ghost s: seq<nat>,
                   ghost lens: seq<nat>, ghost c: seq<nat>, ghost extra: seq<nat>, ghost base: nat)
    returns (h': nat, n': nat, ghost p': nat, optLen': int)
    requires dl != heap && dl != fc && fc[..] == f && heapMax < heap.Length && heap[..][heapMax + 1..] == s
    requires n > 0 && 1 <= bits <= m && h == heapMax + 1 + p && p <= |s| && |f| == dl.Length == |lens| && m < |c|
    requires Assigning(dl[..], lens, s, p, top, m, c, bits, n) == true && Below(s, |lens|)
    requires Total(c, m) == Sum(TopOnes(|lens|, top), s)
    requires CostMoved(dl[..], lens, f, s[p..], top, extra, base, optLen, optLen0) == true
    modifies dl
    ensures h == h' + 1 && h' == heapMax + 1 + p' && p' <= |s|
    ensures Assigning(dl[..], lens, s, p', top, m, c, bits, n') == true
    ensures CostMoved(dl[..], lens, f, s[p'..], top, extra, base, optLen', optLen0) == true
  {
    ghost var u := dl[..];
    SomeLeft(u, lens, s, p, top, m, c, bits, n);
    h', p', n', optLen' := h - 1, p - 1, n, optLen;
    var x := heap[h'];
    assert x == s[p'];
    if x >= top {
      SkipNode(u, lens, f, s, p, top, extra, base, optLen, optLen0, x, p', m, c, bits, n);
    } else {
      n' := n - 1;
      optLen' := SetLength(fc, dl, top, m, bits, n, n', optLen, x, optLen0, p, p', f, s, lens, c, extra, base);
    }
  }

  method SetLength(fc: array<nat>, dl: array<nat>, ghost top: nat, ghost m: nat, bits: nat, ghost n: nat, ghost n': nat,
                   optLen: int, x: nat, ghost optLen0: int, ghost p: nat, ghost p': nat, ghost f: seq<nat>,
                   ghost s: seq<nat>, ghost lens: seq<nat>, ghost c: seq<nat>, ghost extra: seq<nat>, ghost base: nat)
    returns (optLen': int)
    requires dl != fc && fc[..] == f && |f| == dl.Length == |lens|
    requires n == n' + 1 && 1 <= bits && p == p' + 1 && p <= |s| && x == s[p'] && x < top && x < dl.Length
    requires Assigning(dl[..], lens, s, p, top, m, c, bits, n) == true
    requires CostMoved(dl[..], lens, f, s[p..], top, extra, base, optLen, optLen0) == true
    modifies dl
    ensures Assigning(dl[..], lens, s, p', top, m, c, bits, n') == true
    ensures CostMoved(dl[..], lens, f, s[p'..], top, extra, base, optLen', optLen0) == true
  {
    ghost var u := dl[..];
    assert s[p'..] == [x] + s[p..];
    AssignLeaf(u, lens, s, p, top, m, c, bits, n, p', n', x);
    MoveCost(u, lens, f, s[p..], top, extra, base, optLen, optLen0, x, bits, s[p'..]);
    optLen' := optLen + Change(dl[x], bits, fc[x]);
    dl[x] := bits;
    assert dl[..] == u[x := bits];
  }

  lemma SkipNode(u: seq<nat>, lens: seq<nat>, f: seq<nat>, s: seq<nat>, p: nat, top: nat, extra: seq<nat>, base: nat,
                 opt: int, opt1: int, x: nat, p': nat, m: nat, c: seq<nat>, bits: nat, n: nat)
    requires Assigning(u, lens, s, p, top, m, c, bits, n) && p == p' + 1 && x == s[p'] && x >= top && |u| == |f|
    requires CostMoved(u, lens, f, s[p..], top, extra, base, opt, opt1)
    ensures Assigning(u, lens, s, p', top, m, c, bits, n) == true
    ensures CostMoved(u, lens, f, s[p'..], top, extra, base, opt, opt1) == true
  {
    AssignSkip(u, lens, s, p, top, m, c, bits, n, p');
    assert s[p'..] == [x] + s[p..] && x !in s[p..] && u[x := u[x]] == u;
    MoveCost(u, lens, f, s[p..], top, extra, base, opt, opt1, x, u[x], s[p'..]);
  }
}
