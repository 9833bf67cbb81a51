/** The header of a block with dynamic trees: `send_all_trees` writes it, the
decoder of section 3.2.7 of RFC 1951 reads it. */
module BlockHeader {
  import opened Bits
  import opened BitWriter
  import opened HuffmanCode
  import opened Inflate
  import opened Tables
  import opened CodeLengths
  import opened HuffmanLeaves
  import opened HuffmanCounts
  import opened TokenCost

  /** Every symbol of the code length code has one place in the order. */
  ghost predicate Permutes(order: seq<nat>) {
    && Below19(order)
    && (forall i, j :: 0 <= i < j < 19 ==> order[i] != order[j])
    && (forall x :: 0 <= x < 19 ==> x in order)
  }

  /** The symbol at rank i, and the rank of symbol x. */
  function SymAt(i: nat): nat
    requires i < 19
  {
    if i < 3 then 16 + i else if i == 3 then 0 else if i % 2 == 0 then 8 + (i - 4) / 2 else (19 - i) / 2
  }

  function RankOf(x: nat): nat
    requires x < 19
  {
    if x >= 16 then x - 16 else if x == 0 then 3 else if x >= 8 then 2 * x - 12 else 19 - 2 * x
  }

  lemma OrderRule(i: nat)
    requires i < 19
    ensures CL_ORDER[i] == SymAt(i)
  {
  }

  lemma OrderPermutes()
    ensures Permutes(CL_ORDER)
  {
    forall i | 0 <= i < 19
      ensures CL_ORDER[i] == SymAt(i) && RankOf(CL_ORDER[i]) == i && CL_ORDER[i] < 19
    {
      OrderRule(i);
    }
    forall x | 0 <= x < 19
      ensures x in CL_ORDER
    {
      OrderRule(RankOf(x));
      assert CL_ORDER[RankOf(x)] == x;
    }
  }

  /** The code length code lengths of ranks i to k-1, three bits each. */
  ghost function ClBits(order: seq<nat>, cl: seq<nat>, i: nat, k: nat): (r: seq<bool>)
    requires Below19(order) && |cl| == BL_CODES && i <= k <= BL_CODES
    ensures |r| == 3 * (k - i)
    decreases k - i
  {
    if i == k then [] else ToBits(cl[order[i]], 3) + ClBits(order, cl, i + 1, k)
  }

  lemma {:induction false} ClBitsSnoc(order: seq<nat>, cl: seq<nat>, i: nat, k: nat)
    requires Below19(order) && |cl| == BL_CODES && i <= k < BL_CODES
    ensures ClBits(order, cl, i, k + 1) == ClBits(order, cl, i, k) + ToBits(cl[order[k]], 3)
    decreases k - i
  {
    if i < k {
      ClBitsSnoc(order, cl, i + 1, k);
      Assoc(ToBits(cl[order[i]], 3), ClBits(order, cl, i + 1, k), ToBits(cl[order[k]], 3));
    } else {
      assert ToBits(cl[order[k]], 3) + [] == [] + ToBits(cl[order[k]], 3);
    }
  }

  /** acc has the lengths of the ranks below i, and zeros. */
  ghost predicate Filled(order: seq<nat>, cl: seq<nat>, acc: seq<nat>, i: nat) {
    && Permutes(order) && |cl| == BL_CODES && |acc| == BL_CODES
    && forall r :: 0 <= r < 19 ==> acc[order[r]] == if r < i then cl[order[r]] else 0
  }

  lemma {:induction false} DecodeCl(order: seq<nat>, cl: seq<nat>, i: nat, k: nat, acc: seq<nat>, rest: seq<bool>)
    requires Filled(order, cl, acc, i) && i <= k <= BL_CODES
    requires forall x :: 0 <= x < BL_CODES ==> cl[x] < 8
    requires forall r :: k <= r < BL_CODES ==> cl[order[r]] == 0
    ensures DecodeClLens(order, ClBits(order, cl, i, k) + rest, i, k, acc) == Some((cl, rest))
    decreases k - i
  {
    if i == k {
      assert ClBits(order, cl, i, k) + rest == rest;
      AllFilled(order, cl, acc, i);
    } else {
      var x, tail := cl[order[i]], ClBits(order, cl, i + 1, k);
      assert Pow2(3) == 8;
      Assoc(ToBits(x, 3), tail, rest);
      ReadOwnBits(x, 3, tail + rest);
      FillNext(order, cl, acc, i);
      DecodeCl(order, cl, i + 1, k, acc[order[i] := x], rest);
    }
  }

  lemma FillNext(order: seq<nat>, cl: seq<nat>, acc: seq<nat>, i: nat)
    requires Filled(order, cl, acc, i) && i < BL_CODES
    ensures Filled(order, cl, acc[order[i] := cl[order[i]]], i + 1)
  {
  }

  lemma AllFilled(order: seq<nat>, cl: seq<nat>, acc: seq<nat>, i: nat)
    requires Filled(order, cl, acc, i) && i <= BL_CODES && forall r :: i <= r < BL_CODES ==> cl[order[r]] == 0
    ensures acc == cl
  {
    forall x | 0 <= x < BL_CODES ensures acc[x] == cl[x] {
      assert x in order;
      var r :| 0 <= r < |order| && order[r] == x;
    }
  }

  /** What send_all_trees sends: three counts, the code length code, and with it the two trees. */
  ghost function HeaderBits(order: seq<nat>, cl: seq<nat>, blcodes: nat, llens: seq<nat>, dlens: seq<nat>): seq<bool>
    requires |cl| == BL_CODES && 4 <= blcodes <= BL_CODES && Below19(order)
    requires 257 <= |llens| && 1 <= |dlens|
    requires Lengths(llens) && Lengths(dlens) && Sendable(cl, Encode(llens)) && Sendable(cl, Encode(dlens))
  {
    CountBits(|llens|, |dlens|, blcodes) + (ClBits(order, cl, 0, blcodes)
                                            + (SymsBits(cl, Encode(llens)) + SymsBits(cl, Encode(dlens))))
  }

  ghost function CountBits(lcodes: nat, dcodes: nat, blcodes: nat): (r: seq<bool>)
    requires lcodes >= 257 && dcodes >= 1 && blcodes >= 4
    ensures |r| == 14
  {
    ToBits(lcodes - 257, 5) + ToBits(dcodes - 1, 5) + ToBits(blcodes - 4, 4)
  }

  lemma DecodeCounts(lcodes: nat, dcodes: nat, blcodes: nat, tail: seq<bool>)
    requires 257 <= lcodes <= L_CODES && 1 <= dcodes <= D_CODES && 4 <= blcodes <= BL_CODES
    ensures var s := CountBits(lcodes, dcodes, blcodes) + tail;
            Val(s[..5]) == lcodes - 257 && Val(s[5..10]) == dcodes - 1 && Val(s[10..14]) == blcodes - 4
                && s[14..] == tail
  {
    var s := CountBits(lcodes, dcodes, blcodes) + tail;
    assert s[..5] == ToBits(lcodes - 257, 5) && s[5..10] == ToBits(dcodes - 1, 5)
           && s[10..14] == ToBits(blcodes - 4, 4);
    SmallPowers();
    ValToBits(lcodes - 257, 5);
    ValToBits(dcodes - 1, 5);
    ValToBits(blcodes - 4, 4);
  }

  /** The two runs of symbols give back the two lists of lengths, one after the other. */
  lemma {:induction false} DecodeBoth(cl: seq<nat>, llens: seq<nat>, dlens: seq<nat>, x: seq<ClSym>, y: seq<ClSym>,
                                      total: nat, rest: seq<bool>)
    requires Lengths(llens) && Lengths(dlens) && x == Encode(llens) && y == Encode(dlens)
    requires Sendable(cl, x) && Sendable(cl, y) && Decodable(cl) && total == |llens| + |dlens|
    ensures ReadsLens(cl, (SymsBits(cl, x) + SymsBits(cl, y)) + rest, total, llens + dlens, rest)
  {
    BothExpand(llens, dlens);
    DecodeTwo(cl, x, y, llens, llens + dlens, total, rest);
  }

  lemma BothExpand(llens: seq<nat>, dlens: seq<nat>)
    requires Lengths(llens) && Lengths(dlens)
    ensures Expands([], Encode(llens), llens) && Expands(llens, Encode(dlens), llens + dlens)
  {
    EncodeExpands(llens);
    EncodeExpands(dlens);
    ExpandsShift(llens, [], Encode(dlens), dlens);
    assert llens + [] == llens;
  }

  lemma {:induction false} DecodeTwo(cl: seq<nat>, x: seq<ClSym>, y: seq<ClSym>, mid: seq<nat>, all: seq<nat>,
                                     total: nat, rest: seq<bool>)
    requires total == |all| && Sendable(cl, x) && Sendable(cl, y) && Decodable(cl) && Expands([], x, mid)
    requires Expands(mid, y, all)
    ensures ReadsLens(cl, (SymsBits(cl, x) + SymsBits(cl, y)) + rest, total, all, rest)
  {
    ExpandsGrows(mid, y, all);
    Assoc(SymsBits(cl, x), SymsBits(cl, y), rest);
    DecodeSyms(cl, x, SymsBits(cl, y) + rest, total, [], mid);
    DecodeSyms(cl, y, rest, total, mid, all);
  }

  /** The decoder gets back the two lists of lengths. */
  lemma DecodeHeaderBits(order: seq<nat>, cl: seq<nat>, blcodes: nat, llens: seq<nat>, dlens: seq<nat>, rest: seq<bool>)
    requires |cl| == BL_CODES && 4 <= blcodes <= BL_CODES && Permutes(order)
    requires 257 <= |llens| <= L_CODES && 1 <= |dlens| <= D_CODES
    requires Lengths(llens) && Lengths(dlens) && Sendable(cl, Encode(llens)) && Sendable(cl, Encode(dlens))
    requires Decodable(cl)
    requires (forall x :: 0 <= x < BL_CODES ==> cl[x] < 8) && forall r :: blcodes <= r < BL_CODES ==> cl[order[r]] == 0
    ensures DecodeHeader(order, HeaderBits(order, cl, blcodes, llens, dlens) + rest) == Some((llens, dlens, rest))
  {
    var c, trees := ClBits(order, cl, 0, blcodes), SymsBits(cl, Encode(llens)) + SymsBits(cl, Encode(dlens));
    var n, tail := CountBits(|llens|, |dlens|, blcodes), c + (trees + rest);
    Assoc(c, trees, rest);
    Assoc(n, c + trees, rest);
    ClRead(order, cl, blcodes, trees + rest);
    var nl, nd := |llens|, |dlens|;
    var total := nl + nd;
    DecodeBoth(cl, llens, dlens, Encode(llens), Encode(dlens), total, rest);
    HeaderParts(order, n + tail, tail, nl, nd, total, blcodes, cl, trees + rest, llens, dlens, rest);
  }

  ghost predicate ReadsCl(order: seq<nat>, s: seq<bool>, blcodes: nat, cl: seq<nat>, s1: seq<bool>) {
    forall k: int {:trigger Opened(LoopSeal, k)} :: Sealed(k) ==>
      Below19(order) && blcodes <= BL_CODES && DecodeClLens(order, s, 0, blcodes, Rep(19, 0)) == Some((cl, s1))
  }

  ghost predicate ReadsLens(cl: seq<nat>, s: seq<bool>, total: nat, all: seq<nat>, s2: seq<bool>) {
    forall k: int {:trigger Opened(LoopSeal, k)} :: Sealed(k) ==> DecodeLens(cl, s, total, []) == Some((all, s2))
  }

  lemma ClRead(order: seq<nat>, cl: seq<nat>, blcodes: nat, rest: seq<bool>)
    requires |cl| == BL_CODES && 4 <= blcodes <= BL_CODES && Permutes(order)
    requires (forall x :: 0 <= x < BL_CODES ==> cl[x] < 8) && forall r :: blcodes <= r < BL_CODES ==> cl[order[r]] == 0
    ensures ReadsCl(order, ClBits(order, cl, 0, blcodes) + rest, blcodes, cl, rest)
  {
    DecodeCl(order, cl, 0, blcodes, Rep(19, 0), rest);
  }

  lemma {:induction false} HeaderParts(order: seq<nat>, s: seq<bool>, tail: seq<bool>, nl: nat, nd: nat, total: nat,
                                       blcodes: nat, cl: seq<nat>, s1: seq<bool>, llens: seq<nat>, dlens: seq<nat>,
                                       s2: seq<bool>)
    requires Below19(order) && nl == |llens| && nd == |dlens| && 257 <= nl <= L_CODES && 1 <= nd <= D_CODES
    requires 4 <= blcodes <= BL_CODES
    requires s == CountBits(nl, nd, blcodes) + tail
    requires ReadsCl(order, tail, blcodes, cl, s1) == true && ReadsLens(cl, s1, total, llens + dlens, s2) == true
    requires total == nl + nd
    ensures DecodeHeader(order, s) == Some((llens, dlens, s2))
  {
    assert Opened(LoopSeal, 0);
    DecodeCounts(nl, nd, blcodes, tail);
    assert (llens + dlens)[..nl] == llens && (llens + dlens)[nl..] == dlens;
  }

  // ----- what the header costs -----

  ghost predicate ClWeigh(w: seq<nat>, cl: seq<nat>) {
    |w| >= BL_CODES && |cl| == BL_CODES && forall x :: 0 <= x < BL_CODES ==> w[x] == cl[x] + ClExtra(x)
  }

  lemma ZeroWeighted(w: seq<nat>)
    requires |w| >= BL_CODES
    ensures Weighted(Rep(BL_CODES, 0), w, BL_CODES) == 0
  {
    WeightedOne(Rep(BL_CODES, 0), w, BL_CODES, BL_CODES);
  }

  /** The tallied frequencies give the exact number of bits of the symbols. */
  lemma {:induction false} SymsLength(cl: seq<nat>, w: seq<nat>, syms: seq<ClSym>)
    requires Sendable(cl, syms) && ClWeigh(w, cl)
    ensures Weighted(Tally(Rep(BL_CODES, 0), syms), w, BL_CODES) == |SymsBits(cl, syms)|
  {
    if syms == [] {
      ZeroWeighted(w);
    } else {
      var k := |syms| - 1;
      var init, c := syms[..k], syms[k];
      SymsStep(cl, w, syms, init, c);
      SymsLength(cl, w, init);
      WeightedBump(Tally(Rep(BL_CODES, 0), init), w, BL_CODES, c.Symbol());
    }
  }

  lemma SymsStep(cl: seq<nat>, w: seq<nat>, syms: seq<ClSym>, init: seq<ClSym>, c: ClSym)
    requires Sendable(cl, syms) && ClWeigh(w, cl) && syms != [] && init == syms[..|syms| - 1] && c == syms[|syms| - 1]
    ensures Sendable(cl, init) && c.Valid() && |SymsBits(cl, syms)| == |SymsBits(cl, init)| + w[c.Symbol()]
  {
    assert syms == init + [c];
    SymsBitsAppend(cl, init, [c]);
    SymsBitsOne(cl, c);
    SymWidth(cl, c);
    var a, b := SymsBits(cl, init), SymBits(cl, c);
    assert |a + b| == |a| + |b|;
  }

  lemma SymWidth(cl: seq<nat>, c: ClSym)
    requires |cl| == BL_CODES && c.Valid() && cl[c.Symbol()] > 0
    ensures |SymBits(cl, c)| == cl[c.Symbol()] + ClExtra(c.Symbol())
  {
  }

  lemma {:induction false} TallyTotal(syms: seq<ClSym>)
    requires AllValid(syms)
    ensures Weighted(Tally(Rep(BL_CODES, 0), syms), Ones(BL_CODES), BL_CODES) == |syms|
  {
    if syms == [] {
      ZeroWeighted(Ones(BL_CODES));
    } else {
      var k := |syms| - 1;
      TallyTotal(syms[..k]);
      WeightedBump(Tally(Rep(BL_CODES, 0), syms[..k]), Ones(BL_CODES), BL_CODES, syms[k].Symbol());
    }
  }

  lemma {:induction false} TallyCovers(syms: seq<ClSym>, i: nat)
    requires AllValid(syms) && i < |syms|
    ensures Tally(Rep(BL_CODES, 0), syms)[syms[i].Symbol()] > 0
  {
    var k := |syms| - 1;
    if i < k {
      TallyCovers(syms[..k], i);
      assert syms[..k][i] == syms[i];
    }
  }

  /** Run-length coding never makes the list longer. */
  lemma {:induction false} SymCount(acc: seq<nat>, syms: seq<ClSym>, result: seq<nat>)
    requires Expands(acc, syms, result) && AllValid(syms)
    ensures |acc| + |syms| <= |result|
    decreases |syms|
  {
    if syms != [] { SymCount(Step(acc, syms[0]), syms[1..], result); }
  }

  // ----- unused codes at the end do not matter -----

  lemma {:induction false} CountPad(lens: seq<nat>, top: nat, n: nat, b: nat)
    requires top <= n <= |lens| && b >= 1 && forall x :: top <= x < n ==> lens[x] == 0
    ensures Count(lens[..n], b) == Count(lens[..top], b)
  {
    if top < n {
      CountPad(lens, top, n - 1, b);
      assert lens[..n][..n - 1] == lens[..n - 1];
    }
  }

  lemma {:induction false} NextCodePad(lens: seq<nat>, top: nat, n: nat, b: nat)
    requires top <= n <= |lens| && b >= 1 && forall x :: top <= x < n ==> lens[x] == 0
    ensures NextCode(lens[..n], b) == NextCode(lens[..top], b)
  {
    if b > 1 {
      NextCodePad(lens, top, n, b - 1);
      CountPad(lens, top, n, b - 1);
    }
  }

  lemma CodePad(lens: seq<nat>, top: nat, n: nat, m: nat)
    requires top <= n <= |lens| && (forall x :: top <= x < n ==> lens[x] == 0) && m < n && lens[..n][m] > 0
    ensures m < top && lens[..top][m] == lens[..n][m] && Code(lens[..n], m) == Code(lens[..top], m)
  {
    assert lens[..top][..m] == lens[..n][..m];
    NextCodePad(lens, top, n, lens[m]);
  }

  lemma CodesPad(fc: seq<nat>, lens: seq<nat>, top: nat, n: nat)
    requires top <= n <= |lens| && n <= |fc| && (forall x :: top <= x < n ==> lens[x] == 0)
    requires HasCodes(fc, lens[..top], top)
    ensures HasCodes(fc, lens[..n], n)
  {
    var a, b := lens[..top], lens[..n];
    forall m | 0 <= m < n && b[m] > 0
      ensures fc[m] == Reversed(Code(b, m), b[m])
    {
      CodePad(lens, top, n, m);
    }
  }

  lemma {:induction false} KraftPad(lens: seq<nat>, top: nat, n: nat, m: nat)
    requires top <= n <= |lens| && forall x :: top <= x < n ==> lens[x] == 0
    ensures KraftSum(lens[..n], m) == KraftSum(lens[..top], m)
  {
    if top < n {
      KraftPad(lens, top, n - 1, m);
      assert lens[..n][..n - 1] == lens[..n - 1];
    }
  }

  // ----- the methods -----

  /** Sends the code length code, rank by rank. */
  method SendClLens(w: Writer, bdl: seq<nat>, blcodes: nat, order: seq<nat>, ghost cl: seq<nat>)
    requires w.Valid() && Below19(order) && blcodes <= BL_CODES <= |bdl| && bdl[..BL_CODES] == cl
             && forall x :: 0 <= x < BL_CODES ==> cl[x] < 8
    modifies w, w.outbuf
    ensures w.Valid() && w.Stream() == old(w.Stream()) + ClBits(order, cl, 0, blcodes)
  {
    ghost var s := w.Stream();
    assert s + [] == s;
    var rank := 0;
    while rank < blcodes
      invariant 0 <= rank <= blcodes && w.Valid() && w.Stream() == s + ClBits(order, cl, 0, rank)
    {
      ghost var x := order[rank];
      assert bdl[x] == bdl[..BL_CODES][x] && Pow2(3) == 8;
      ClBitsSnoc(order, cl, 0, rank);
      Assoc(s, ClBits(order, cl, 0, rank), ToBits(cl[x], 3));
      w.SendBits(bdl[order[rank]], 3);
      rank := rank + 1;
    }
  }

  method SendCounts(w: Writer, lcodes: nat, dcodes: nat, blcodes: nat)
    requires w.Valid() && 257 <= lcodes <= L_CODES && 1 <= dcodes <= D_CODES && 4 <= blcodes <= BL_CODES
    modifies w, w.outbuf
    ensures w.Valid() && w.Stream() == old(w.Stream()) + CountBits(lcodes, dcodes, blcodes)
  {
    ghost var s, a, b, c := w.Stream(), ToBits(lcodes - 257, 5), ToBits(dcodes - 1, 5), ToBits(blcodes - 4, 4);
    SmallPowers();
    w.SendBits(lcodes - 257, 5);
    w.SendBits(dcodes - 1, 5);
    w.SendBits(blcodes - 4, 4);
    Assoc(s, a, b);
    Assoc(s, a + b, c);
  }

  method SendAllTrees(w: Writer, ldl: seq<nat>, ddl: seq<nat>, bfc: seq<nat>, bdl: seq<nat>, lcodes: nat, dcodes: nat,
                      blcodes: nat, order: seq<nat>, ghost cl: seq<nat>, ghost llens: seq<nat>, ghost dlens: seq<nat>)
    requires w.Valid() && Below19(order) && 257 <= lcodes <= L_CODES && 1 <= dcodes <= D_CODES
    requires 4 <= blcodes <= BL_CODES
    requires lcodes < |ldl| && ldl[..lcodes] == llens && ldl[lcodes] == GUARD
    requires dcodes < |ddl| && ddl[..dcodes] == dlens && ddl[dcodes] == GUARD
    requires Lengths(llens) && Lengths(dlens) && |cl| == BL_CODES && Sendable(cl, Encode(llens))
    requires Sendable(cl, Encode(dlens))
    requires CodesOf(bfc, bdl, cl) == true && BL_CODES <= |bdl| && bdl[..BL_CODES] == cl
             && forall x :: 0 <= x < BL_CODES ==> cl[x] < 8
    modifies w, w.outbuf
    ensures w.Valid() && w.Stream() == old(w.Stream()) + HeaderBits(order, cl, blcodes, llens, dlens)
  {
    ghost var s, a, b := w.Stream(), CountBits(lcodes, dcodes, blcodes), ClBits(order, cl, 0, blcodes);
    ghost var c := SymsBits(cl, Encode(llens)) + SymsBits(cl, Encode(dlens));
    SendCounts(w, lcodes, dcodes, blcodes);
    SendClLens(w, bdl, blcodes, order, cl);
    SendBothTrees(w, ldl, ddl, bfc, bdl, lcodes, dcodes, cl, llens, dlens);
    Assoc(s + a, b, c);
    Assoc(s, a, b + c);
  }

  method SendBothTrees(w: Writer, ldl: seq<nat>, ddl: seq<nat>, bfc: seq<nat>, bdl: seq<nat>, lcodes: nat, dcodes: nat,
                       ghost cl: seq<nat>, ghost llens: seq<nat>, ghost dlens: seq<nat>)
    requires w.Valid() && CodesOf(bfc, bdl, cl) == true && 1 <= lcodes < |ldl| && 1 <= dcodes < |ddl|
    requires ldl[..lcodes] == llens && ldl[lcodes] == GUARD && ddl[..dcodes] == dlens && ddl[dcodes] == GUARD
    requires Lengths(llens) && Lengths(dlens)
    requires Sendable(cl, Encode(llens)) == true && Sendable(cl, Encode(dlens)) == true
    modifies w, w.outbuf
    ensures w.Valid()
    ensures w.Stream() == old(w.Stream()) + (SymsBits(cl, Encode(llens)) + SymsBits(cl, Encode(dlens)))
  {
    ghost var s := w.Stream();
    SendTree(w, ldl, lcodes - 1, bfc, bdl, cl, llens);
    SendTree(w, ddl, dcodes - 1, bfc, bdl, cl, dlens);
    Assoc(s, SymsBits(cl, Encode(llens)), SymsBits(cl, Encode(dlens)));
  }

  /** A list of lengths that are not all zero needs a symbol for some length from 1 to 15. */
  lemma {:induction false} SomeLenSym(acc: seq<nat>, syms: seq<ClSym>, result: seq<nat>) returns (i: nat)
    requires Expands(acc, syms, result) && AllValid(syms) && (forall k :: 0 <= k < |acc| ==> acc[k] == 0)
    requires exists k :: 0 <= k < |result| && result[k] != 0
    ensures i < |syms| && syms[i].Len? && syms[i].l != 0
    decreases |syms|
  {
    if syms[0].Len? && syms[0].l != 0 {
      i := 0;
    } else {
      i := SomeLenSym(Step(acc, syms[0]), syms[1..], result);
      i := i + 1;
    }
  }

  /** Some rank from 3 on has a code: the first three are the repeat codes. */
  lemma SomeRank(order: seq<nat>, cl: seq<nat>, lens: seq<nat>) returns (r: nat)
    requires Permutes(order) && order[0] >= 16 && order[1] >= 16 && order[2] >= 16
    requires Lengths(lens) && Sendable(cl, Encode(lens)) && exists k :: 0 <= k < |lens| && lens[k] != 0
    ensures 3 <= r < BL_CODES && cl[order[r]] != 0
  {
    EncodeExpands(lens);
    var i := SomeLenSym([], Encode(lens), lens);
    var x := Encode(lens)[i].l;
    assert Encode(lens)[i].Valid() && Encode(lens)[i].Symbol() == x;
    assert x in order;
    r :| 0 <= r < |order| && order[r] == x;
  }

  /** The last rank that has a code. It is found before the loop of build_bl_tree runs out at rank 3. */
  method LastClIndex(bdl: seq<nat>, order: seq<nat>, ghost cl: seq<nat>, ghost some: nat) returns (maxBlindex: nat)
    requires Below19(order) && BL_CODES <= |bdl| && bdl[..BL_CODES] == cl
    requires 3 <= some < BL_CODES && cl[order[some]] != 0
    ensures 3 <= maxBlindex < BL_CODES && cl[order[maxBlindex]] != 0
    ensures forall r :: maxBlindex < r < BL_CODES ==> cl[order[r]] == 0
  {
    maxBlindex := BL_CODES - 1;
    while maxBlindex >= 3
      invariant some <= maxBlindex < BL_CODES && forall r :: maxBlindex < r < BL_CODES ==> cl[order[r]] == 0
    {
      assert bdl[order[maxBlindex]] == cl[order[maxBlindex]]
          by { assert bdl[order[maxBlindex]] == bdl[..BL_CODES][order[maxBlindex]]; }
      if bdl[order[maxBlindex]] != 0 {
        break;
      }
      maxBlindex := maxBlindex - 1;
    }
  }
}
