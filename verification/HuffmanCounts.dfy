/** Code length statistics, and the repair of lengths that were cut off. */
module HuffmanCounts {
  import opened Bits
  import opened Sums
  import opened HuffmanCode
  import opened HuffmanTree

  /** Which symbols below top have length b. */
  ghost function Mark(l: seq<nat>, b: nat, top: nat): (w: seq<nat>)
    ensures |w| == |l|
  {
    seq(|l|, x requires 0 <= x < |l| => if x < top && l[x] == b then 1 else 0)
  }

  /** How many of the symbols listed have each length; length 0 is not counted. */
  ghost function Hist(l: seq<nat>, s: seq<nat>, top: nat): (r: seq<nat>)
    requires Below(s, |l|)
    ensures |r| == MAX_BITS + 1
  {
    seq(MAX_BITS + 1, b requires 0 <= b => if b == 0 then 0 else Sum(Mark(l, b, top), s))
  }

  ghost function Bump(c: seq<nat>, b: nat): (r: seq<nat>)
    ensures |r| == |c|
  {
    if b < |c| then c[b := c[b] + 1] else c
  }

  lemma HistEmpty(l: seq<nat>, top: nat)
    ensures Hist(l, [], top) == seq(MAX_BITS + 1, b => 0)
  {
  }

  lemma HistSnoc(l: seq<nat>, s: seq<nat>, top: nat, x: nat)
    requires Below(s, |l|) && x < |l| && (x < top ==> l[x] >= 1)
    ensures Below(s + [x], |l|)
    ensures Hist(l, s + [x], top) == if x < top then Bump(Hist(l, s, top), l[x]) else Hist(l, s, top)
  {
    forall b | 0 <= b <= MAX_BITS
      ensures Hist(l, s + [x], top)[b] == Hist(l, s, top)[b] + if b > 0 && x < top && l[x] == b then 1 else 0
    {
      SumSnoc(Mark(l, b, top), s, x);
    }
  }

  lemma HistCons(l: seq<nat>, s: seq<nat>, top: nat, x: nat)
    requires Below(s, |l|) && x < |l| && (x < top ==> l[x] >= 1)
    ensures Below([x] + s, |l|)
    ensures Hist(l, [x] + s, top) == if x < top then Bump(Hist(l, s, top), l[x]) else Hist(l, s, top)
  {
    var xs := [x] + s;
    assert xs[1..] == s;
    forall b | 0 <= b <= MAX_BITS
      ensures Hist(l, xs, top)[b] == Hist(l, s, top)[b] + if b > 0 && x < top && l[x] == b then 1 else 0
    {
      assert Sum(Mark(l, b, top), xs) == Mark(l, b, top)[x] + Sum(Mark(l, b, top), s);
    }
  }

  lemma HistAgree(l: seq<nat>, l': seq<nat>, s: seq<nat>, top: nat)
    requires Below(s, |l|) && |l'| == |l| && forall i :: 0 <= i < |s| ==> l[s[i]] == l'[s[i]]
    ensures Hist(l, s, top) == Hist(l', s, top)
  {
    forall b | 0 <= b <= MAX_BITS ensures Hist(l, s, top)[b] == Hist(l', s, top)[b] {
      SumAgree(Mark(l, b, top), Mark(l', b, top), s);
    }
  }

  // ----- code space and number of codes -----

  /** Of the 2^b words of b bits, how many start with a code. */
  ghost function Space(c: seq<nat>, b: nat): nat
    requires b < |c|
  {
    if b == 0 then 0 else 2 * Space(c, b - 1) + c[b]
  }

  /** How many codes have 1 to b bits. */
  ghost function Total(c: seq<nat>, b: nat): nat
    requires b < |c|
  {
    if b == 0 then 0 else Total(c, b - 1) + c[b]
  }

  lemma {:induction false} SpaceAdd(c: seq<nat>, d: seq<nat>, x: nat, k: nat, b: nat)
    requires 1 <= x < |c| == |d| && b < |c| && d == c[x := c[x] + k]
    ensures Space(d, b) == Space(c, b) + if x <= b then Shl(k, b - x) else 0
    ensures Total(d, b) == Total(c, b) + if x <= b then k else 0
  {
    if b > 0 { SpaceAdd(c, d, x, k, b - 1); }
  }

  lemma SpaceBump(c: seq<nat>, x: nat, b: nat)
    requires 1 <= x < |c| && b < |c|
    ensures Space(Bump(c, x), b) == Space(c, b) + if x <= b then Pow2(b - x) else 0
    ensures Total(Bump(c, x), b) == Total(c, b) + if x <= b then 1 else 0
  {
    SpaceAdd(c, Bump(c, x), x, 1, b);
    if x <= b { ShlOne(b - x); }
  }

  lemma {:induction false} ShlOne(n: nat)
    ensures Shl(1, n) == Pow2(n)
  {
    if n > 0 { ShlOne(n - 1); }
  }

  /** The shares of the symbols below top. */
  ghost function TopShares(l: seq<nat>, b: nat, top: nat): (w: seq<nat>)
    ensures |w| == |l|
  {
    seq(|l|, x requires 0 <= x < |l| => if x < top && 1 <= l[x] <= b then Pow2(b - l[x]) else 0)
  }

  ghost function Within(l: seq<nat>, b: nat, top: nat): (w: seq<nat>)
    ensures |w| == |l|
  {
    seq(|l|, x requires 0 <= x < |l| => if x < top && 1 <= l[x] <= b then 1 else 0)
  }

  lemma {:induction false} SpaceZero(c: seq<nat>, b: nat)
    requires b < |c| && forall i :: 1 <= i <= b ==> c[i] == 0
    ensures Space(c, b) == 0 && Total(c, b) == 0
  {
    if b > 0 { SpaceZero(c, b - 1); }
  }

  lemma {:induction false} HistSpace(l: seq<nat>, s: seq<nat>, top: nat, b: nat)
    requires Below(s, |l|) && b <= MAX_BITS && forall i :: 0 <= i < |s| ==> s[i] < top ==> 1 <= l[s[i]] <= MAX_BITS
    ensures Space(Hist(l, s, top), b) == Sum(TopShares(l, b, top), s)
    ensures Total(Hist(l, s, top), b) == Sum(Within(l, b, top), s)
  {
    if s == [] {
      SpaceZero(Hist(l, s, top), b);
    } else {
      var x, rest := s[0], s[1..];
      assert s == [x] + rest;
      HistSpace(l, rest, top, b);
      HistCons(l, rest, top, x);
      if x < top { SpaceBump(Hist(l, rest, top), l[x], b); }
    }
  }

  /** The statistics are those of the lengths themselves. */
  lemma {:induction false} UsedIsSpace(lens: seq<nat>, b: nat)
    requires b <= MAX_BITS
    ensures Used(lens, b) == Space(Counts(lens), b)
  {
    if b > 0 { UsedIsSpace(lens, b - 1); }
  }

  // ----- the repair loop of gen_bitlen -----

  /** The state of the repair with lengths up to m: the code space is exceeded by half of overflow. */
  ghost predicate Repairing(c: seq<nat>, m: nat, overflow: nat, leaves: nat) {
    && |c| == MAX_BITS + 1 && 2 <= m <= MAX_BITS && overflow % 2 == 0 && c[0] == 0
    && Space(c, m) == Pow2(m) + overflow / 2
    && Space(c, m - 1) <= Pow2(m - 1)
    && Total(c, m) == leaves && leaves <= Pow2(m)
    && forall b :: m < b < |c| ==> c[b] == 0
  }

  lemma {:induction false} SomeCode(c: seq<nat>, b: nat) returns (x: nat)
    requires b < |c| && Space(c, b) > 0
    ensures 1 <= x <= b && c[x] > 0
  {
    if c[b] > 0 { x := b; } else { x := SomeCode(c, b - 1); }
  }

  /** While there is overflow, some code is shorter than m, and some has length m. */
  lemma CanRepair(c: seq<nat>, m: nat, overflow: nat, leaves: nat) returns (x: nat)
    requires Repairing(c, m, overflow, leaves) && overflow > 0
    ensures 1 <= x < m && c[x] > 0 && c[m] > 0
  {
    assert Space(c, m) == 2 * Space(c, m - 1) + c[m];
    x := SomeCode(c, m - 1);
  }

  /** One repair step on the counts. */
  ghost function Repaired(c: seq<nat>, b: nat, m: nat): (r: seq<nat>)
    requires 1 <= b < m < |c| && c[b] > 0 && c[m] > 0
    ensures |r| == |c|
  {
    var d := c[b := c[b] - 1];
    var e := d[b + 1 := d[b + 1] + 2];
    e[m := e[m] - 1]
  }

  /** The effect of a step on the code space and on the number of codes of at most k bits. */
  lemma RepairedSpace(c: seq<nat>, b: nat, m: nat, k: nat)
    requires 1 <= b < m < |c| && c[b] > 0 && c[m] > 0 && b <= k <= m
    ensures Space(Repaired(c, b, m), k) + (if k == m then 1 else 0) + (if b == k then 1 else 0) == Space(c, k)
    ensures Total(Repaired(c, b, m), k) == Total(c, k) + (if k == m then 0 else if b == k then -1 else 1)
  {
    var d := c[b := c[b] - 1];
    var e := d[b + 1 := d[b + 1] + 2];
    SpaceAdd(d, c, b, 1, k);
    SpaceAdd(d, e, b + 1, 2, k);
    SpaceAdd(Repaired(c, b, m), e, m, 1, k);
    if b < k { ShlTwice(b, k); }
  }

  lemma ShlTwice(b: nat, k: nat)
    requires b < k
    ensures Shl(1, k - b) == Shl(2, k - (b + 1))
  {
    ShlTwo(k - b - 1);
  }

  /** It removes one unit of excess and keeps the number of codes. */
  lemma RepairStep(c: seq<nat>, b: nat, m: nat, overflow: nat, leaves: nat)
    requires Repairing(c, m, overflow, leaves) && overflow > 0 && 1 <= b < m && c[b] > 0 && c[m] > 0
    ensures overflow >= 2 && Repairing(Repaired(c, b, m), m, overflow - 2, leaves)
  {
    RepairedSpace(c, b, m, m);
    RepairedSpace(c, b, m, m - 1);
  }

  lemma {:induction false} ShlTwo(n: nat)
    ensures Shl(2, n) == 2 * Shl(1, n)
  {
    if n > 0 { ShlTwo(n - 1); }
  }

  /** The code that a round lengthens is one of the longest below m. */
  ghost predicate LongestBelow(c: seq<nat>, b: nat, m: nat) {
    1 <= b < m < |c| && c[b] > 0 && forall x :: b < x < m ==> c[x] == 0
  }

  /** From c to d in n rounds, each of which splits one of the longest codes below m. */
  ghost predicate Rounds(c: seq<nat>, d: seq<nat>, m: nat, n: nat)
    decreases n
  {
    if n == 0 then d == c
    else exists b :: LongestBelow(c, b, m) && c[m] > 0 && Rounds(Repaired(c, b, m), d, m, n - 1)
  }

  lemma {:induction false} OneMore(c: seq<nat>, d: seq<nat>, b: nat, m: nat, n: nat)
    requires Rounds(c, d, m, n) && LongestBelow(d, b, m) && d[m] > 0
    ensures Rounds(c, Repaired(d, b, m), m, n + 1)
    decreases n
  {
    if n == 0 {
      assert Rounds(Repaired(d, b, m), Repaired(d, b, m), m, 0);
    } else {
      var a :| LongestBelow(c, a, m) && c[m] > 0 && Rounds(Repaired(c, a, m), d, m, n - 1);
      OneMore(Repaired(c, a, m), d, b, m, n - 1);
    }
  }

  /** The same, kept closed. */
  ghost predicate Reached(c: seq<nat>, d: seq<nat>, m: nat, n: nat) {
    forall k: int {:trigger Opened(TreeSeal, k)} :: Sealed(k) ==> Rounds(c, d, m, n)
  }

  lemma ReachedStart(c: seq<nat>, m: nat)
    ensures Reached(c, c, m, 0)
  {
    assert Rounds(c, c, m, 0);
  }

  lemma ReachedMore(c: seq<nat>, d: seq<nat>, d': seq<nat>, b: nat, m: nat, n: nat)
    requires Reached(c, d, m, n) && LongestBelow(d, b, m) && d[m] > 0 && d' == Repaired(d, b, m)
    ensures Reached(c, d', m, n + 1)
  {
    assert Rounds(c, d, m, n) by { assert Opened(TreeSeal, 0); }
    OneMore(c, d, b, m, n);
  }

  /** There is only one outcome. */
  lemma {:induction false} RoundsUnique(c: seq<nat>, d: seq<nat>, d': seq<nat>, m: nat, n: nat)
    requires Rounds(c, d, m, n) && Rounds(c, d', m, n)
    ensures d == d'
    decreases n
  {
    if n > 0 {
      var a :| LongestBelow(c, a, m) && c[m] > 0 && Rounds(Repaired(c, a, m), d, m, n - 1);
      var b :| LongestBelow(c, b, m) && c[m] > 0 && Rounds(Repaired(c, b, m), d', m, n - 1);
      assert a == b;
      RoundsUnique(Repaired(c, a, m), d, d', m, n - 1);
    }
  }

  /** The do loop of gen_bitlen that shortens some codes and lengthens others until they fit. */
  method Repair(blCount: array<nat>, m: nat, overflow0: nat, ghost leaves: nat)
    requires blCount.Length == MAX_BITS + 1 && overflow0 > 0
    requires Repairing(blCount[..], m, overflow0, leaves) == true
    modifies blCount
    ensures Repairing(blCount[..], m, 0, leaves) == true && Reached(old(blCount[..]), blCount[..], m, overflow0 / 2)
  {
    var overflow := overflow0;
    ghost var start, n := blCount[..], 0;
    ReachedStart(start, m);
    while true
      invariant overflow > 0
      invariant Repairing(blCount[..], m, overflow, leaves) == true
      invariant overflow + 2 * n == overflow0 && Reached(start, blCount[..], m, n) == true
      decreases overflow
    {
      ghost var c := blCount[..];
      ghost var b := MoveLeaf(blCount, m, overflow, leaves);
      ReachedMore(start, c, blCount[..], b, m, n);
      overflow, n := overflow - 2, n + 1;
      if overflow <= 0 { break; }
    }
  }

  /** One round: a leaf moves down the tree, and a leaf that is too deep becomes its brother. */
  method MoveLeaf(blCount: array<nat>, m: nat, ghost overflow: nat, ghost leaves: nat) returns (ghost b: nat)
    requires blCount.Length == MAX_BITS + 1 && overflow > 0 && Repairing(blCount[..], m, overflow, leaves) == true
    modifies blCount
    ensures LongestBelow(old(blCount[..]), b, m) && old(blCount[m]) > 0
    ensures blCount[..] == Repaired(old(blCount[..]), b, m)
    ensures overflow >= 2 && Repairing(blCount[..], m, overflow - 2, leaves) == true
  {
    ghost var c := blCount[..];
    var bits := FirstIncreasable(blCount, m, overflow, leaves);
    RepairStep(c, bits, m, overflow, leaves);
    blCount[bits] := blCount[bits] - 1;
    blCount[bits + 1] := blCount[bits + 1] + 2;
    blCount[m] := blCount[m] - 1;
    b := bits;
    assert blCount[..] == Repaired(c, bits, m);
  }

  /** The longest length below m that some code has. */
  method FirstIncreasable(blCount: array<nat>, m: nat, ghost overflow: nat, ghost leaves: nat) returns (bits: nat)
    requires blCount.Length == MAX_BITS + 1
    requires Repairing(blCount[..], m, overflow, leaves) && overflow > 0
    ensures 1 <= bits < m && blCount[bits] > 0 && blCount[m] > 0
    ensures forall b :: bits < b < m ==> blCount[b] == 0
  {
    ghost var x := CanRepair(blCount[..], m, overflow, leaves);
    bits := m - 1;
    while blCount[bits] == 0
      invariant x <= bits < m && forall b :: bits < b < m ==> blCount[b] == 0
      decreases bits
    {
      bits := bits - 1;
    }
  }
}
