/** The constant tables of trees.c and their construction in `ct_init`. */
module Tables {
  import opened Bits
  import opened HuffmanCode
  import opened Inflate

  const LENGTH_CODES := 29
  const D_CODES := 30
  const L_CODES := 286

  /** First normalized length (0 stands for 3) of each length code, as the running count of ct_init gives it. */
  ghost function LBase(c: nat): int
    requires c <= 28
  {
    if c < 28 then LengthBase(c) - 3 else 256
  }

  /** First normalized distance (0 stands for 1) of each distance code. */
  ghost function DBase(c: nat): int
    requires c <= 30
  {
    DistBase(c) - 1
  }

  lemma SmallPowers()
    ensures Pow2(0) == 1 && Pow2(1) == 2 && Pow2(2) == 4 && Pow2(3) == 8 && Pow2(4) == 16 && Pow2(5) == 32
    ensures Pow2(6) == 64 && Pow2(7) == 128 && Pow2(8) == 256 && Pow2(9) == 512 && Pow2(10) == 1024
    ensures Pow2(11) == 2048 && Pow2(12) == 4096 && Pow2(13) == 8192
  {
  }

  lemma LengthExtraRow(c: nat)
    requires c < LENGTH_CODES
    ensures LENGTH_EXTRA[c] == LengthExtra(c)
  {
    assert c == 0 || c == 1 || c == 2 || c == 3 || c == 4 || c == 5 || c == 6 || c == 7 || c == 8 || c == 9 || c == 10
      || c == 11 || c == 12 || c == 13 || c == 14 || c == 15 || c == 16 || c == 17 || c == 18 || c == 19 || c == 20
      || c == 21 || c == 22 || c == 23 || c == 24 || c == 25 || c == 26 || c == 27 || c == 28;
  }

  lemma LengthBaseRow(c: nat)
    requires c < 27
    ensures LENGTH_BASE[c + 1] == LENGTH_BASE[c] + Pow2(LENGTH_EXTRA[c])
  {
    SmallPowers();
    assert c == 0 || c == 1 || c == 2 || c == 3 || c == 4 || c == 5 || c == 6 || c == 7 || c == 8 || c == 9 || c == 10
      || c == 11 || c == 12 || c == 13 || c == 14 || c == 15 || c == 16 || c == 17 || c == 18 || c == 19 || c == 20
      || c == 21 || c == 22 || c == 23 || c == 24 || c == 25 || c == 26;
  }

  /** The rules give the tables of section 3.2.5 of RFC 1951. */
  lemma {:induction false} LengthRows(c: nat)
    requires c < LENGTH_CODES
    ensures LENGTH_EXTRA[c] == LengthExtra(c) && LENGTH_BASE[c] == LengthBase(c)
  {
    LengthExtraRow(c);
    if 0 < c < 28 {
      LengthRows(c - 1);
      LengthBaseRow(c - 1);
    }
  }

  lemma DistExtraRow(c: nat)
    requires c < D_CODES
    ensures DIST_EXTRA[c] == DistExtra(c)
  {
    assert c == 0 || c == 1 || c == 2 || c == 3 || c == 4 || c == 5 || c == 6 || c == 7 || c == 8 || c == 9 || c == 10
      || c == 11 || c == 12 || c == 13 || c == 14 || c == 15 || c == 16 || c == 17 || c == 18 || c == 19 || c == 20
      || c == 21 || c == 22 || c == 23 || c == 24 || c == 25 || c == 26 || c == 27 || c == 28 || c == 29;
  }

  lemma DistBaseRow(c: nat)
    requires c < 29
    ensures DIST_BASE[c + 1] == DIST_BASE[c] + Pow2(DIST_EXTRA[c])
  {
    SmallPowers();
    assert c == 0 || c == 1 || c == 2 || c == 3 || c == 4 || c == 5 || c == 6 || c == 7 || c == 8 || c == 9 || c == 10
      || c == 11 || c == 12 || c == 13 || c == 14 || c == 15 || c == 16 || c == 17 || c == 18 || c == 19 || c == 20
      || c == 21 || c == 22 || c == 23 || c == 24 || c == 25 || c == 26 || c == 27 || c == 28;
  }

  lemma {:induction false} DistRows(c: nat)
    requires c < D_CODES
    ensures DIST_EXTRA[c] == DistExtra(c) && DIST_BASE[c] == DistBase(c)
  {
    DistExtraRow(c);
    if c > 0 {
      DistRows(c - 1);
      DistBaseRow(c - 1);
    }
  }

  // The ends are named by a variable: with a constant the verifier would unroll the recursion.

  lemma DBaseAt(c: nat)
    requires c == 16 || c == 30
    ensures DBase(c) == if c == 16 then 256 else 32768
  {
    if c == 16 {
      DistRows(c);
    } else {
      DistRows(c - 1);
      SmallPowers();
    }
  }

  lemma DBaseMax(c: nat)
    requires c <= 30
    ensures DBase(c) <= 32768
  {
    var top: nat :| top == 30;
    DBaseAt(top);
    DBaseMono(c, top);
  }

  lemma LBaseStep(c: nat)
    requires c < 28
    ensures LengthExtra(c) <= 5 && LBase(c) >= 0 && LBase(c + 1) == LBase(c) + Pow2(LengthExtra(c))
    ensures LengthExtra(c) == 0 ==> c < 8
  {
    LengthRows(c);
    if c == 27 { SmallPowers(); }
  }

  lemma DBaseStep(c: nat)
    requires c < 30
    ensures DBase(c) >= 0 && DBase(c + 1) == DBase(c) + Pow2(DistExtra(c))
    ensures c >= 16 ==> 7 <= DistExtra(c) <= 13
    ensures c < 16 ==> DistExtra(c) <= 6
  {
  }

  /** Normalized length l belongs to length code c. */
  ghost predicate InLength(l: int, c: nat) {
    c < 28 && LBase(c) <= l < LBase(c + 1)
  }

  ghost predicate InDist(d: int, c: nat) {
    c < 30 && DBase(c) <= d < DBase(c + 1)
  }

  /** All 128 distances with top bits k belong to distance code c. */
  ghost predicate InFar(k: int, c: nat) {
    InDist(128 * k, c) && InDist(128 * k + 127, c)
  }

  ghost predicate LengthTable(lengthCode: seq<nat>, baseLength: seq<nat>) {
    && |lengthCode| == 256 && |baseLength| == LENGTH_CODES
    && (forall l :: 0 <= l < 255 ==> InLength(l, lengthCode[l]))
    && lengthCode[255] == 28
    && (forall c :: 0 <= c < 28 ==> baseLength[c] == LBase(c))
  }

  /** Entries below 256 are distances, the others the top 8 bits of 15-bit distances. */
  ghost predicate DistTable(distCode: seq<nat>, baseDist: seq<nat>) {
    && |distCode| == 512 && |baseDist| == D_CODES
    && (forall d :: 0 <= d < 256 ==> InDist(d, distCode[d]))
    && (forall i :: 258 <= i < 512 ==> InFar(i - 256, distCode[i]))
    && (forall c :: 0 <= c < 30 ==> baseDist[c] == DBase(c))
  }

  /** The d_code macro: dist is the distance minus one. */
  function DCode(distCode: seq<nat>, dist: nat): nat
    requires |distCode| == 512 && dist < 32768
  {
    if dist < 256 then distCode[dist] else distCode[256 + dist / 128]
  }

  lemma DCodeRight(distCode: seq<nat>, baseDist: seq<nat>, dist: nat)
    requires DistTable(distCode, baseDist) && dist < 32768
    ensures InDist(dist, DCode(distCode, dist))
  {
    if dist >= 256 {
      var k := dist / 128;
      assert 128 * k <= dist <= 128 * k + 127;
      assert InFar(k, distCode[256 + k]);
    }
  }

  /** The inner loops of ct_init: `count` entries from `from` on get the code. */
  method Fill(a: array<nat>, from: nat, count: nat, code: nat)
    requires from + count <= a.Length
    modifies a
    ensures forall i :: 0 <= i < a.Length ==> a[i] == if from <= i < from + count then code else old(a[i])
  {
    var n := 0;
    while n < count
      invariant 0 <= n <= count
      invariant forall i :: 0 <= i < a.Length ==> a[i] == if from <= i < from + n then code else old(a[i])
    {
      a[from + n] := code;
      n := n + 1;
    }
  }

  /** Code boundaries `lo`: code c covers 2^extra[c] values from lo[c] on. */
  ghost predicate Boundaries(lo: seq<nat>, extra: seq<nat>, top: nat) {
    && |lo| == top + 1 && top <= |extra| && lo[0] == 0
    && forall c :: 0 <= c < top ==> lo[c + 1] == lo[c] + Pow2(extra[c])
  }

  ghost predicate Covered(codes: seq<nat>, lo: seq<nat>, n: nat) {
    && n <= |codes|
    && forall v :: 0 <= v < n ==> codes[v] + 1 < |lo| && lo[codes[v]] <= v < lo[codes[v] + 1]
  }

  /** The loops that map values to codes 0..top-1 and record the first value of each. */
  method InitCodes(codes: array<nat>, bases: array<nat>, extra: seq<nat>, top: nat, ghost lo: seq<nat>)
    requires codes != bases && top <= bases.Length && Boundaries(lo, extra, top)
    requires forall c :: 0 <= c <= top ==> lo[c] <= codes.Length
    modifies codes, bases
    ensures Covered(codes[..], lo, lo[top])
    ensures bases[..top] == lo[..top]
  {
    var next, code := 0, 0;
    while code < top
      invariant 0 <= code <= top && next == lo[code]
      invariant Covered(codes[..], lo, next)
      invariant bases[..code] == lo[..code]
    {
      bases[code] := next;
      var size := Pow2(extra[code]);
      assert lo[code + 1] == next + size;
      Fill(codes, next, size, code);
      next := next + size;
      code := code + 1;
    }
  }

  lemma LBounds() returns (lo: seq<nat>)
    ensures Boundaries(lo, LENGTH_EXTRA, 28)
    ensures forall c :: 0 <= c <= 28 ==> lo[c] == LBase(c) <= 256
  {
    forall c | 0 <= c <= 28 ensures 0 <= LBase(c) <= 256 {
      LBaseMono(c);
      if c < 28 { LBaseStep(c); }
    }
    lo := seq(29, c requires 0 <= c <= 28 => LBase(c));
    forall c | 0 <= c < 28 ensures lo[c + 1] == lo[c] + Pow2(LENGTH_EXTRA[c]) {
      LengthRows(c);
      LBaseStep(c);
    }
  }

  method InitLengths() returns (lengthCode: seq<nat>, baseLength: seq<nat>)
    ensures LengthTable(lengthCode, baseLength)
  {
    var codes := new nat[256](_ => 0);
    var bases := new nat[LENGTH_CODES](_ => 0);
    ghost var lo := LBounds();
    InitCodes(codes, bases, LENGTH_EXTRA, LENGTH_CODES - 1, lo);
    assert forall c :: 0 <= c < 28 ==> bases[c] == bases[..28][c];
    codes[255] := 28;
    lengthCode, baseLength := codes[..], bases[..];
  }

  lemma DBounds() returns (lo: seq<nat>, top: nat)
    ensures top == 16 && Boundaries(lo, DIST_EXTRA, top)
    ensures forall c :: 0 <= c <= 16 ==> lo[c] == DBase(c) <= 256
  {
    top := 16;
    forall c | 0 <= c <= 16 ensures 0 <= DBase(c) <= 256 {
      var t: nat :| t == 16;
      DBaseAt(t);
      DBaseMono(c, t);
      DBaseStep(c);
    }
    lo := seq(17, c requires 0 <= c <= 16 => DBase(c));
    forall c | 0 <= c < 16 ensures lo[c + 1] == lo[c] + Pow2(DIST_EXTRA[c]) {
      DistRows(c);
      DBaseStep(c);
    }
  }

  /** The 16 short distance codes, one table entry per distance. */
  method InitNearDists(codes: array<nat>, bases: array<nat>) returns (code: nat)
    requires codes != bases && codes.Length == 512 && bases.Length == D_CODES
    modifies codes, bases
    ensures forall d :: 0 <= d < 256 ==> InDist(d, codes[d])
    ensures forall c :: 0 <= c < 16 ==> bases[c] == DBase(c)
    ensures code == 16
  {
    ghost var lo, top := DBounds();
    code := 16;
    DBaseAt(top);
    InitCodes(codes, bases, DIST_EXTRA, 16, lo);
    assert forall c :: 0 <= c < 16 ==> bases[c] == bases[..16][c];
  }

  /** The long distance codes, one entry per 128 distances. */
  method InitFarDists(codes: array<nat>, bases: array<nat>, code0: nat)
    requires code0 == 16 && codes != bases && codes.Length == 512 && bases.Length == D_CODES
    modifies codes, bases
    ensures forall i :: 258 <= i < 512 ==> InFar(i - 256, codes[i])
    ensures forall c :: 16 <= c < 30 ==> bases[c] == DBase(c)
    ensures forall d :: 0 <= d < 256 ==> codes[d] == old(codes[d])
    ensures forall c :: 0 <= c < 16 ==> bases[c] == old(bases[c])
  {
    var dist, code := 256 / 128, code0;
    ghost var codes0, bases0 := codes[..], bases[..];
    FarStart(codes0, bases0, dist, code);
    while code < D_CODES
      invariant 16 <= code <= 30 && 2 <= dist <= 256
      invariant FarDone(codes[..], bases[..], codes0, bases0, dist, code) == true
    {
      ghost var cs, bs := codes[..], bases[..];
      var size := FarSize(code);
      FarNext(cs, bs, codes0, bases0, dist, code, size);
      bases[code] := dist * 128;
      Fill(codes, 256 + dist, size, code);
      assert bases[..] == bs[code := 128 * dist];
      FarFilled(cs, codes[..], 256 + dist, size, code);
      dist := dist + size;
      code := code + 1;
    }
    FarEnd(codes[..], bases[..], codes0, bases0, dist, code);
  }

  /** The table entries of the codes from 16 up to `code` are filled in. */
  ghost predicate FarDone(cs: seq<nat>, bs: seq<nat>, codes0: seq<nat>, bases0: seq<nat>, dist: nat, code: nat) {
    forall k: int {:trigger Opened(LoopSeal, k)} :: Sealed(k) ==>
      && |cs| == |codes0| == 512 && |bs| == |bases0| == D_CODES && code <= 30 && dist <= 256
      && 128 * dist == DBase(code)
      && (forall i :: 258 <= i < 256 + dist ==> InFar(i - 256, cs[i]))
      && (forall c :: 16 <= c < code ==> bs[c] == DBase(c))
      && cs[..256] == codes0[..256] && bs[..16] == bases0[..16]
  }

  lemma FarStart(cs: seq<nat>, bs: seq<nat>, dist: nat, code: nat)
    requires |cs| == 512 && |bs| == D_CODES && dist == 2 && code == 16
    ensures FarDone(cs, bs, cs, bs, dist, code)
  {
    DBaseAt(code);
  }

  ghost function Filled(cs: seq<nat>, at: nat, size: nat, code: nat): seq<nat>
    requires at + size <= |cs|
  {
    seq(|cs|, i requires 0 <= i < |cs| => if at <= i < at + size then code else cs[i])
  }

  lemma FarFilled(cs: seq<nat>, cs': seq<nat>, at: nat, size: nat, code: nat)
    requires at + size <= |cs| == |cs'|
    requires forall i :: 0 <= i < |cs| ==> cs'[i] == if at <= i < at + size then code else cs[i]
    ensures cs' == Filled(cs, at, size, code)
  {
  }

  lemma FarNext(cs: seq<nat>, bs: seq<nat>, codes0: seq<nat>, bases0: seq<nat>, dist: nat, code: nat, size: nat)
    requires FarDone(cs, bs, codes0, bases0, dist, code) && 16 <= code < 30 && 2 <= dist
    requires DistExtra(code) >= 7 && size == Pow2(DistExtra(code) - 7)
    ensures dist + size <= 256 && |cs| == 512 && |bs| == D_CODES
    ensures FarDone(Filled(cs, 256 + dist, size, code), bs[code := 128 * dist], codes0, bases0, dist + size, code + 1)
  {
    assert Opened(LoopSeal, 0);
    FarStep(code, dist, size);
    var cs' := Filled(cs, 256 + dist, size, code);
    assert cs'[..256] == cs[..256] && bs[code := 128 * dist][..16] == bs[..16];
  }

  lemma FarEnd(cs: seq<nat>, bs: seq<nat>, codes0: seq<nat>, bases0: seq<nat>, dist: nat, code: nat)
    requires FarDone(cs, bs, codes0, bases0, dist, code) && code == 30
    ensures |cs| == |codes0| == 512 && |bs| == |bases0| == D_CODES
    ensures forall i :: 258 <= i < 512 ==> InFar(i - 256, cs[i])
    ensures forall c :: 16 <= c < 30 ==> bs[c] == DBase(c)
    ensures forall d :: 0 <= d < 256 ==> cs[d] == codes0[d]
    ensures forall c :: 0 <= c < 16 ==> bs[c] == bases0[c]
  {
    assert Opened(LoopSeal, 0);
    DBaseAt(code);
    forall d | 0 <= d < 256
      ensures cs[d] == codes0[d]
    {
      assert cs[..256][d] == codes0[..256][d];
    }
    forall c | 0 <= c < 16
      ensures bs[c] == bases0[c]
    {
      assert bs[..16][c] == bases0[..16][c];
    }
  }

  /** The number of table entries of a long distance code. */
  method FarSize(code: nat) returns (size: nat)
    requires 16 <= code < 30
    ensures DistExtra(code) >= 7 && size == Pow2(DistExtra(code) - 7)
  {
    DistRows(code);
    DBaseStep(code);
    size := Pow2(DIST_EXTRA[code] - 7);
  }

  lemma FarStep(code: nat, dist: nat, size: nat)
    requires 16 <= code < 30 && 128 * dist == DBase(code) && DistExtra(code) >= 7 && size == Pow2(DistExtra(code) - 7)
    ensures 128 * (dist + size) == DBase(code + 1) <= 32768
    ensures forall k :: dist <= k < dist + size ==> InFar(k, code)
  {
    DBaseStep(code);
    DBaseMax(code + 1);
    Pow2Times128(DistExtra(code) - 7);
  }

  lemma Pow2Times128(n: nat)
    ensures Pow2(n + 7) == 128 * Pow2(n)
  {
    assert Pow2(n + 2) == 4 * Pow2(n);
    assert Pow2(n + 4) == 16 * Pow2(n);
    assert Pow2(n + 6) == 64 * Pow2(n);
  }

  method InitDists() returns (distCode: seq<nat>, baseDist: seq<nat>)
    ensures DistTable(distCode, baseDist)
  {
    var codes := new nat[512](_ => 0);
    var bases := new nat[D_CODES](_ => 0);
    var code := InitNearDists(codes, bases);
    InitFarDists(codes, bases, code);
    distCode, baseDist := codes[..], bases[..];
  }

  lemma {:induction false} DBaseMono(c: nat, top: nat)
    requires c <= top <= 30
    ensures DBase(c) <= DBase(top)
    decreases top - c
  {
    if c < top { DBaseStep(c); DBaseMono(c + 1, top); }
  }

  lemma {:induction false} LBaseMono(c: nat)
    requires c <= 28
    ensures LBase(c) <= 256
    decreases 28 - c
  {
    if c < 28 { LBaseStep(c); LBaseMono(c + 1); }
  }

  // ----- the fixed trees -----

  lemma {:induction false} KraftRep(lens: seq<nat>, n: nat, l: nat, m: nat)
    requires 0 < l <= m
    ensures KraftSum(lens + Rep(n, l), m) == KraftSum(lens, m) + n * Pow2(m - l)
  {
    if n == 0 {
      assert lens + Rep(0, l) == lens;
    } else {
      KraftRep(lens, n - 1, l, m);
      var all := lens + Rep(n, l);
      assert all[..|all| - 1] == lens + Rep(n - 1, l);
      assert n * Pow2(m - l) == (n - 1) * Pow2(m - l) + Pow2(m - l);
    }
  }

  lemma FixedLitsComplete()
    ensures Complete(FIXED_LITS)
    ensures forall n :: 0 <= n < |FIXED_LITS| ==> 0 < FIXED_LITS[n] <= 9
  {
    assert FIXED_LITS == [] + Rep(144, 8) + Rep(112, 9) + Rep(24, 7) + Rep(8, 8);
    KraftRep([], 144, 8, 15);
    KraftRep([] + Rep(144, 8), 112, 9, 15);
    KraftRep([] + Rep(144, 8) + Rep(112, 9), 24, 7, 15);
    KraftRep([] + Rep(144, 8) + Rep(112, 9) + Rep(24, 7), 8, 8, 15);
    SmallPowers();
    Pow2Words();
  }

  lemma FixedDistsDecodable()
    ensures Decodable(FIXED_DISTS)
    ensures forall n :: 0 <= n < |FIXED_DISTS| ==> FIXED_DISTS[n] == 5
  {
    assert FIXED_DISTS == [] + Rep(30, 5);
    KraftRep([], 30, 5, 15);
    SmallPowers();
    Pow2Words();
  }

  lemma {:induction false} CountRep(n: nat, l: nat, b: nat)
    ensures Count(Rep(n, l), b) == if l == b then n else 0
  {
    if n > 0 {
      CountRep(n - 1, l, b);
      assert Rep(n, l)[..n - 1] == Rep(n - 1, l);
    }
  }

  lemma {:induction false} NextCodeRep(n: nat, l: nat, b: nat)
    requires 1 <= b <= l
    ensures NextCode(Rep(n, l), b) == 0
  {
    if b > 1 {
      NextCodeRep(n, l, b - 1);
      CountRep(n, l, b - 1);
    }
  }

  lemma FixedDistCode(n: nat)
    requires n < 30
    ensures FIXED_DISTS[n] == 5 && Code(FIXED_DISTS, n) == n
  {
    NextCodeRep(30, 5, 5);
    assert FIXED_DISTS[..n] == Rep(n, 5);
    CountRep(n, 5, 5);
  }

  lemma CountsSnoc(lens: seq<nat>, l: nat)
    requires 1 <= l <= MAX_BITS
    ensures Counts(lens + [l]) == Counts(lens)[l := Counts(lens)[l] + 1]
  {
    assert (lens + [l])[..|lens|] == lens;
  }

  /** One of the loops `while (n <= last) tree[n++].Len = len, bl_count[len]++`. */
  method SetLens(dl: array<nat>, blCount: array<nat>, first: nat, last: nat, len: nat)
    requires dl != blCount && first <= last + 1 <= dl.Length && 1 <= len <= MAX_BITS
    requires blCount[..] == Counts(dl[..first])
    modifies dl, blCount
    ensures dl[..last + 1] == old(dl[..first]) + Rep(last + 1 - first, len)
    ensures blCount[..] == Counts(dl[..last + 1])
  {
    var n := first;
    while n <= last
      invariant first <= n <= last + 1
      invariant dl[..n] == old(dl[..first]) + Rep(n - first, len)
      invariant blCount[..] == Counts(dl[..n])
    {
      ghost var lens := dl[..n];
      dl[n] := len;
      CountsSnoc(lens, len);
      assert blCount[len] == blCount[..][len];
      blCount[len] := blCount[len] + 1;
      assert dl[..n + 1] == lens + [len];
      n := n + 1;
    }
  }

  method InitStaticLits(fc: array<nat>, dl: array<nat>, blCount: array<nat>)
    requires fc != dl && fc != blCount && dl != blCount
    requires fc.Length == L_CODES + 2 && dl.Length == L_CODES + 2 && blCount.Length == MAX_BITS + 1
    modifies fc, dl, blCount
    ensures dl[..] == FIXED_LITS && HasCodes(fc[..], FIXED_LITS, L_CODES + 2)
  {
    Fill(blCount, 0, MAX_BITS + 1, 0);
    assert blCount[..] == Counts(dl[..0]);
    SetLens(dl, blCount, 0, 143, 8);
    SetLens(dl, blCount, 144, 255, 9);
    SetLens(dl, blCount, 256, 279, 7);
    SetLens(dl, blCount, 280, 287, 8);
    assert dl[..288] == FIXED_LITS == dl[..];
    FixedLitsComplete();
    GenCodes(fc, dl, blCount, L_CODES + 1);
  }

  method InitStaticDists(fc: array<nat>, dl: array<nat>)
    requires fc != dl && fc.Length == D_CODES && dl.Length == D_CODES
    modifies fc, dl
    ensures dl[..] == FIXED_DISTS && HasCodes(fc[..], FIXED_DISTS, D_CODES)
  {
    var n := 0;
    while n < D_CODES
      invariant 0 <= n <= D_CODES
      invariant dl[..n] == Rep(n, 5) && HasCodes(fc[..], FIXED_DISTS, n)
    {
      ghost var fc0 := fc[..];
      dl[n] := 5;
      var r := BiReverse(n, 5);
      fc[n] := r;
      FixedDistCode(n);
      HasCodesStep(fc0, fc[..], FIXED_DISTS, n);
      n := n + 1;
    }
    assert dl[..30] == dl[..];
  }
}
