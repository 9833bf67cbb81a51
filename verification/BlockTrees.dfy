/** The three calls of `build_tree` for one block, and `build_bl_tree`. */
module BlockTrees {
  import opened Bits
  import opened HuffmanCode
  import opened Lz77
  import opened Inflate
  import opened Tables
  import opened CodeLengths
  import opened HuffmanMerge
  import opened HuffmanLeaves
  import opened HuffmanLengths
  import opened HuffmanBuild
  import opened HuffmanHeight
  import opened HuffmanOptimal
  import opened HuffmanCoder
  import opened TokenCode
  import opened TokenCost
  import opened BlockData
  import opened BlockHeader
  import opened BlockDecode

  /** A tree under construction: fc holds frequencies, then codes; dl holds fathers, then code lengths. */
  datatype Tree = Tree(fc: array<nat>, dl: array<nat>)

  /** A tree built from the frequencies f0: a complete code of at most m bits for the symbols that occur, in the first
  top entries. */
  ghost predicate Built(fc: seq<nat>, dl: seq<nat>, f0: seq<nat>, elems: nat, top: nat, m: nat) {
    && 1 <= top <= elems <= |dl| && elems <= |f0| && |fc| == |dl|
    && CodesOf(fc, dl, dl[..top]) && Complete(dl[..top])
    && (forall x :: 0 <= x < elems && f0[x] > 0 ==> x < top && 1 <= dl[x] <= m)
    && (forall x :: 0 <= x < top ==> dl[x] <= m)
    && (forall x :: top <= x < elems ==> dl[x] == 0)
  }

  /** lens, with no codes behind it up to n symbols. */
  ghost function Padded(lens: seq<nat>, n: nat): (r: seq<nat>)
    ensures |r| == n
  {
    seq(n, x requires 0 <= x < n => if x < |lens| then lens[x] else 0)
  }

  /** lens is what build_tree makes of the frequencies freqs: a complete code of at most m bits for exactly the symbols
  that occur, or two where fewer do; the cheapest one if any cheapest one keeps to m bits. */
  ghost predicate LengthsFor(lens: seq<nat>, freqs: seq<nat>, m: nat) {
    forall z: int {:trigger Opened(TreeSeal, z)} :: Sealed(z) ==> exists f :: LengthsBy(lens, freqs, f, m)
  }

  /** f are the frequencies after two codes were forced. */
  ghost predicate LengthsBy(lens: seq<nat>, freqs: seq<nat>, f: seq<nat>, m: nat) {
    var n, all := |freqs|, Padded(lens, |freqs|);
    1 <= |lens| <= n && TwoForced(freqs, f, n) && LensFor(all, f, n, |lens|, m) && BestCode(all, f, n, m)
  }

  lemma BestCodePrefix(dl: seq<nat>, f: seq<nat>, elems: nat, m: nat, all: seq<nat>, f1: seq<nat>)
    requires BestCode(dl, f, elems, m) && elems <= |dl| && elems <= |f| && all == dl[..elems] && f1 == f[..elems]
    ensures BestCode(all, f1, elems, m)
  {
    assert Opened(TreeSeal, 0);
    assert f1[..elems] == f[..elems];
    HarmlessAgree(f, f1, elems, m);
    WeightedSame(f, f1, Ones(elems), elems);
    SameFrequencies(f, f1, dl, elems, 0, m);
    if Optimal(dl, f1, elems) { OptimalPrefix(dl, f1, elems, all); }
  }

  lemma OptimalPrefix(dl: seq<nat>, f: seq<nat>, elems: nat, all: seq<nat>)
    requires Optimal(dl, f, elems) && all == dl[..elems]
    ensures Optimal(all, f, elems)
  {
    WeightedAgree(f, dl, all, elems);
  }

  lemma LensForPrefix(dl: seq<nat>, f: seq<nat>, elems: nat, top: nat, m: nat, all: seq<nat>, f1: seq<nat>)
    requires LensFor(dl, f, elems, top, m) && all == dl[..elems] && f1 == f[..elems]
    ensures LensFor(all, f1, elems, top, m)
  {
    assert all[..top] == dl[..top];
  }

  lemma TwoForcedPrefix(f0: seq<nat>, f: seq<nat>, elems: nat, freqs: seq<nat>, f1: seq<nat>)
    requires TwoForced(f0, f, elems) && elems <= |f0| && freqs == f0[..elems] && f1 == f[..elems]
    ensures TwoForced(freqs, f1, elems)
  {
    assert f1[..elems] == f[..elems];
    LeavesAgree(f, f1, elems);
  }

  lemma PaddedIs(dl: seq<nat>, f: seq<nat>, elems: nat, top: nat, m: nat)
    requires LensFor(dl, f, elems, top, m)
    ensures Padded(dl[..top], elems) == dl[..elems]
  {
  }

  lemma TreeLengths(dl: seq<nat>, f0: seq<nat>, f: seq<nat>, elems: nat, top: nat, m: nat)
    requires 1 <= top && elems <= |f0| && TwoForced(f0, f, elems) && LensFor(dl, f, elems, top, m)
    requires BestCode(dl, f, elems, m)
    ensures LengthsFor(dl[..top], f0[..elems], m)
  {
    var all, f1, freqs := dl[..elems], f[..elems], f0[..elems];
    PaddedIs(dl, f, elems, top, m);
    BestCodePrefix(dl, f, elems, m, all, f1);
    LensForPrefix(dl, f, elems, top, m, all, f1);
    TwoForcedPrefix(f0, f, elems, freqs, f1);
    assert LengthsBy(dl[..top], freqs, f1, m);
  }

  /** The working arrays of build_tree, all different from the tree's. */
  ghost predicate Workspace(t: Tree, heap: array<nat>, depth: array<nat>, blCount: array<nat>, elems: nat) {
    && AllApart(t.fc, t.dl, heap, depth, blCount)
    && heap.Length == HEAP_SIZE && depth.Length == HEAP_SIZE && blCount.Length == MAX_BITS + 1
    && t.fc.Length == t.dl.Length == 2 * elems + 1 <= HEAP_SIZE
  }

  lemma TreeBuilt(fc: seq<nat>, dl: seq<nat>, f0: seq<nat>, f: seq<nat>, elems: nat, top: nat, m: nat)
    requires Forced(f0, f) && LensFor(dl, f, elems, top, m) && HasCodes(fc, dl[..top], top) && |fc| == |dl|
    requires 1 <= top && m <= MAX_BITS && elems <= |f0|
    ensures Built(fc, dl, f0, elems, top, m)
  {
    LensComplete(dl, f, elems, top, m);
  }

  lemma TreeDone(fc: seq<nat>, dl: seq<nat>, f0: seq<nat>, f: seq<nat>, elems: nat, top: nat, m: nat)
    requires CodeTree(fc, dl, f0, f, elems, top, m) && |fc| == |dl| && 1 <= top && m <= MAX_BITS && elems <= |f0|
    ensures Built(fc, dl, f0, elems, top, m) && LengthsFor(dl[..top], f0[..elems], m)
  {
    assert Opened(TreeSeal, 0);
    TreeBuilt(fc, dl, f0, f, elems, top, m);
    TreeLengths(dl, f0, f, elems, top, m);
  }

  /** build_tree for one of the three trees. */
  method BuildOne(t: Tree, heap: array<nat>, depth: array<nat>, blCount: array<nat>, elems: nat, m: nat,
                  extra: seq<nat>, base: nat, slen: seq<nat>, optLen0: int, staticLen0: int, ghost f0: seq<nat>)
    returns (top: nat, optLen: int, staticLen: int)
    requires Workspace(t, heap, depth, blCount, elems) && t.fc[..] == f0
    requires 3 <= elems <= 286 && 2 <= m <= MAX_BITS && elems <= Pow2(m)
    requires (slen == [] || |slen| == elems) && forall x :: 0 <= x <= 2 ==> Xbits(extra, base, x) == 0
    requires Weighted(f0, Ones(elems), elems) < 65530
    modifies t.fc, t.dl, heap, depth, blCount
    ensures Built(t.fc[..], t.dl[..], f0, elems, top, m) == true && |f0| == t.fc.Length
    ensures LengthsFor(t.dl[..][..top], f0[..elems], m) == true
    ensures Charged(optLen, optLen0, f0, t.dl[..], extra, base, elems) == true
    ensures StaticCharged(staticLen, staticLen0, f0, slen, extra, base, elems) == true
  {
    ghost var f, last;
    var maxCode;
    maxCode, last, optLen, staticLen, f :=
      BuildTree(t.fc, t.dl, heap, depth, blCount, elems, m, extra, base, slen, optLen0, staticLen0, f0);
    top := maxCode + 1;
    TreeDone(t.fc[..], t.dl[..], f0, f, elems, top, m);
  }

  // ----- what the trees are good for -----

  /** The codes of both trees cover every token and the end of the block. */
  lemma TreesCode(tokens: seq<Token>, lf: seq<nat>, df: seq<nat>, lfc: seq<nat>, ldl: seq<nat>, dfc: seq<nat>,
                  ddl: seq<nat>, ltop: nat, dtop: nat)
    requires AllOk(tokens) && |lf| >= L_CODES && |df| >= D_CODES && lf[..L_CODES] == LitFreqs(tokens)
    requires df[..D_CODES] == DistFreqs(tokens)
    requires Built(lfc, ldl, lf, L_CODES, ltop, MAX_BITS) && Built(dfc, ddl, df, D_CODES, dtop, MAX_BITS)
    ensures AllCoded(ldl[..ltop], ddl[..dtop], tokens) && HasCode(ldl[..ltop], END_BLOCK) && 257 <= ltop <= L_CODES
  {
    EndCounted(tokens);
    assert lf[END_BLOCK] == lf[..L_CODES][END_BLOCK];
    forall i | 0 <= i < |tokens| ensures Coded(ldl[..ltop], ddl[..dtop], tokens[i]) {
      var t := tokens[i];
      FreqsCover(tokens, i);
      var x := LitSym(t);
      assert lf[x] == lf[..L_CODES][x];
      if t.Match? { assert df[DistCode(t.dist)] == df[..D_CODES][DistCode(t.dist)]; }
    }
  }

  /** The fixed codes cover every token. */
  lemma FixedCoded(tokens: seq<Token>)
    requires AllOk(tokens)
    ensures AllCoded(FIXED_LITS, FIXED_DISTS, tokens) && HasCode(FIXED_LITS, END_BLOCK)
  {
    FixedLitsComplete();
    FixedDistsDecodable();
  }

  /** The data of a block with the fixed codes. */
  ghost function FixedBits(tokens: seq<Token>): seq<bool>
    requires AllOk(tokens)
  {
    FixedCoded(tokens);
    DataBits(FIXED_LITS, FIXED_DISTS, tokens)
  }

  /** len is the number of bits of the data with the given codes. */
  ghost predicate DataCost(len: int, llens: seq<nat>, dlens: seq<nat>, tokens: seq<Token>) {
    AllCoded(llens, dlens, tokens) && HasCode(llens, END_BLOCK) && len == |DataBits(llens, dlens, tokens)|
  }

  lemma WeightsWeigh(lens: seq<nat>, dens: seq<nat>, lits: seq<nat>, dists: seq<nat>, tb: CodeTables)
    requires tb.Right() && |lens| >= L_CODES && |dens| >= D_CODES
    requires forall x :: 0 <= x < L_CODES && x < |lits| ==> lens[x] == lits[x]
    requires forall x :: 0 <= x < D_CODES && x < |dists| ==> dens[x] == dists[x]
    ensures Weigh(Weights(lens, tb.extraLbits, 257), Weights(dens, tb.extraDbits, 0), lits, dists)
  {
  }

  /** opt_len and static_len grow by the exact number of bits of the data. */
  lemma DataCharged(tokens: seq<Token>, lf: seq<nat>, df: seq<nat>, lens: seq<nat>, dens: seq<nat>, lits: seq<nat>,
                    dists: seq<nat>, tb: CodeTables, o0: int, o1: int, o2: int)
    requires tb.Right() && AllOk(tokens) && AllCoded(lits, dists, tokens) && HasCode(lits, END_BLOCK)
    requires |lf| >= L_CODES && |df| >= D_CODES && lf[..L_CODES] == LitFreqs(tokens)
    requires df[..D_CODES] == DistFreqs(tokens)
    requires |lens| >= L_CODES && |dens| >= D_CODES
    requires forall x :: 0 <= x < L_CODES && x < |lits| ==> lens[x] == lits[x]
    requires forall x :: 0 <= x < D_CODES && x < |dists| ==> dens[x] == dists[x]
    requires Charged(o1, o0, lf, lens, tb.extraLbits, 257, L_CODES)
    requires Charged(o2, o1, df, dens, tb.extraDbits, 0, D_CODES)
    ensures o2 == o0 + |DataBits(lits, dists, tokens)|
  {
    var wl, wd := Weights(lens, tb.extraLbits, 257), Weights(dens, tb.extraDbits, 0);
    WeightsWeigh(lens, dens, lits, dists, tb);
    DataLength(lits, dists, wl, wd, tokens);
    var a, b := LitFreqs(tokens), DistFreqs(tokens);
    assert a[..L_CODES] == a && b[..D_CODES] == b;
    WeightedSame(lf, a, wl, L_CODES);
    WeightedSame(df, b, wd, D_CODES);
  }

  /** The code length code cl covers both lists of lengths, and opt_len grows by what they cost. */
  lemma HeaderCharged(llens: seq<nat>, dlens: seq<nat>, bf: seq<nat>, bfc: seq<nat>, bdl: seq<nat>, btop: nat,
                      extra: seq<nat>, cl: seq<nat>, o: int, o': int)
    requires Lengths(llens) && Lengths(dlens) && |bf| >= BL_CODES
    requires bf[..BL_CODES] == Tally(Tally(Rep(BL_CODES, 0), Encode(llens)), Encode(dlens))
    requires Built(bfc, bdl, bf, BL_CODES, btop, 7) && cl == bdl[..BL_CODES]
    requires |extra| == BL_CODES && forall x :: 0 <= x < BL_CODES ==> extra[x] == ClExtra(x)
    requires Charged(o', o, bf, bdl, extra, 0, BL_CODES)
    ensures Sendable(cl, Encode(llens)) && Sendable(cl, Encode(dlens))
    ensures o' == o + |SymsBits(cl, Encode(llens))| + |SymsBits(cl, Encode(dlens))|
  {
    var syms := Encode(llens) + Encode(dlens);
    TallyAppend(Rep(BL_CODES, 0), Encode(llens), Encode(dlens));
    var f := Tally(Rep(BL_CODES, 0), syms);
    forall i | 0 <= i < |syms| ensures 0 < cl[syms[i].Symbol()] <= MAX_BITS {
      TallyCovers(syms, i);
      assert bf[syms[i].Symbol()] == bf[..BL_CODES][syms[i].Symbol()];
    }
    SymsBitsAppend(cl, Encode(llens), Encode(dlens));
    SymsLength(cl, Weights(bdl, extra, 0), syms);
    assert f[..BL_CODES] == f;
    WeightedSame(bf, f, Weights(bdl, extra, 0), BL_CODES);
  }

  lemma ClCodes(bfc: seq<nat>, bdl: seq<nat>, bf: seq<nat>, btop: nat, cl: seq<nat>)
    requires Built(bfc, bdl, bf, BL_CODES, btop, 7) && cl == bdl[..BL_CODES]
    ensures CodesOf(bfc, bdl, cl) && Decodable(cl) && |cl| == BL_CODES && forall x :: 0 <= x < BL_CODES ==> cl[x] < 8
  {
    CodesPad(bfc, bdl, btop, BL_CODES);
    KraftPad(bdl, btop, BL_CODES, MAX_BITS);
  }

  lemma BlTotal(llens: seq<nat>, dlens: seq<nat>, bf: seq<nat>)
    requires Lengths(llens) && Lengths(dlens) && |bf| >= BL_CODES
    requires bf[..BL_CODES] == Tally(Tally(Rep(BL_CODES, 0), Encode(llens)), Encode(dlens))
    ensures Weighted(bf, Ones(BL_CODES), BL_CODES) <= |llens| + |dlens|
  {
    var syms := Encode(llens) + Encode(dlens);
    TallyAppend(Rep(BL_CODES, 0), Encode(llens), Encode(dlens));
    TallyTotal(syms);
    EncodeExpands(llens);
    EncodeExpands(dlens);
    SymCount([], Encode(llens), llens);
    SymCount([], Encode(dlens), dlens);
    var f := Tally(Rep(BL_CODES, 0), syms);
    assert f[..BL_CODES] == f;
    WeightedSame(bf, f, Ones(BL_CODES), BL_CODES);
  }

  // ----- the methods -----

  /** A literal tree and a distance tree that code the tokens. */
  ghost predicate DataTrees(lfc: seq<nat>, ldl: seq<nat>, dfc: seq<nat>, ddl: seq<nat>, llens: seq<nat>,
                            dlens: seq<nat>, tokens: seq<Token>) {
    && AllOk(tokens) && CodesOf(lfc, ldl, llens) && CodesOf(dfc, ddl, dlens) && Decodable(llens) && Decodable(dlens)
    && AllCoded(llens, dlens, tokens) && HasCode(llens, END_BLOCK) && 257 <= |llens| <= L_CODES
        && 1 <= |dlens| <= D_CODES
  }

  lemma PowersBig(m: nat)
    requires m == 15 || m == 7
    ensures if m == 15 then L_CODES <= Pow2(m) else BL_CODES <= Pow2(m)
  {
    assert Pow2(m - 5) >= 1;
    assert Pow2(m) >= 32 * Pow2(m - 5) by { assert Pow2(m - 3) == 4 * Pow2(m - 5) && Pow2(m) == 8 * Pow2(m - 3); }
    if m == 15 {
      assert Pow2(m - 10) >= 1;
      assert Pow2(m - 5) >= 32 * Pow2(m - 10)
          by { assert Pow2(m - 8) == 4 * Pow2(m - 10) && Pow2(m - 5) == 8 * Pow2(m - 8); }
    }
  }

  lemma NoExtra(tb: CodeTables)
    requires tb.Right()
    ensures forall x :: 0 <= x <= 2 ==> Xbits(tb.extraLbits, 257, x) == 0 && Xbits(tb.extraDbits, 0, x) == 0
  {
  }

  /** Builds the literal and the distance tree. The two totals become the number of bits that
  the block's data takes with these trees and with the fixed ones. */
  method BuildData(lt: Tree, dt: Tree, heap: array<nat>, depth: array<nat>, blCount: array<nat>, tb: CodeTables,
                   slens: seq<nat>, sdens: seq<nat>, ghost tokens: seq<Token>)
    returns (ltop: nat, dtop: nat, optLen: int, staticLen: int)
    requires Workspace(lt, heap, depth, blCount, L_CODES) && Workspace(dt, heap, depth, blCount, D_CODES)
    requires lt.fc != dt.fc && lt.fc != dt.dl && lt.dl != dt.fc && lt.dl != dt.dl
    requires tb.Right() && slens == FIXED_LITS[..L_CODES] && sdens == FIXED_DISTS
    requires AllOk(tokens) && |tokens| < 65000 && lt.fc[..][..L_CODES] == LitFreqs(tokens)
    requires dt.fc[..][..D_CODES] == DistFreqs(tokens)
    modifies lt.fc, lt.dl, dt.fc, dt.dl, heap, depth, blCount
    ensures ltop <= L_CODES && dtop <= D_CODES
    ensures DataTrees(lt.fc[..], lt.dl[..], dt.fc[..], dt.dl[..], lt.dl[..][..ltop], dt.dl[..][..dtop], tokens) == true
    ensures DataCost(optLen, lt.dl[..][..ltop], dt.dl[..][..dtop], tokens) == true && staticLen == |FixedBits(tokens)|
    ensures LengthsFor(lt.dl[..][..ltop], LitFreqs(tokens), MAX_BITS) == true
    ensures LengthsFor(dt.dl[..][..dtop], DistFreqs(tokens), MAX_BITS) == true
  {
    ghost var lf, df := lt.fc[..], dt.fc[..];
    FreqBounds(tokens, lf, df);
    NoExtra(tb);
    PowersBig(MAX_BITS);
    var o1, s1;
    ltop, o1, s1 := BuildOne(lt, heap, depth, blCount, L_CODES, MAX_BITS, tb.extraLbits, 257, slens, 0, 0, lf);
    ghost var lfc, ldl := lt.fc[..], lt.dl[..];
    dtop, optLen, staticLen := BuildOne(dt, heap, depth, blCount, D_CODES, MAX_BITS, tb.extraDbits, 0, sdens, o1, s1,
                                        df);
    ghost var dfc, ddl := dt.fc[..], dt.dl[..];
    assert lt.fc[..] == lfc && lt.dl[..] == ldl;
    DataBuilt(tokens, lf, df, lfc, ldl, dfc, ddl, ltop, dtop, tb, slens, sdens, o1, optLen, s1, staticLen);
  }

  lemma FreqBounds(tokens: seq<Token>, lf: seq<nat>, df: seq<nat>)
    requires AllOk(tokens) && |lf| >= L_CODES && |df| >= D_CODES && lf[..L_CODES] == LitFreqs(tokens)
    requires df[..D_CODES] == DistFreqs(tokens)
    ensures Weighted(lf, Ones(L_CODES), L_CODES) == |tokens| + 1 && Weighted(df, Ones(D_CODES), D_CODES) <= |tokens|
  {
    var a, b := LitFreqs(tokens), DistFreqs(tokens);
    FreqTotals(tokens);
    assert a[..L_CODES] == a && b[..D_CODES] == b;
    WeightedSame(lf, a, Ones(L_CODES), L_CODES);
    WeightedSame(df, b, Ones(D_CODES), D_CODES);
  }

  lemma DataBuilt(tokens: seq<Token>, lf: seq<nat>, df: seq<nat>, lfc: seq<nat>, ldl: seq<nat>, dfc: seq<nat>,
                  ddl: seq<nat>, ltop: nat, dtop: nat, tb: CodeTables, slens: seq<nat>, sdens: seq<nat>, o1: int,
                  o2: int, s1: int, s2: int)
    requires AllOk(tokens) && |lf| >= L_CODES && |df| >= D_CODES && lf[..L_CODES] == LitFreqs(tokens)
    requires df[..D_CODES] == DistFreqs(tokens)
    requires Built(lfc, ldl, lf, L_CODES, ltop, MAX_BITS) && Built(dfc, ddl, df, D_CODES, dtop, MAX_BITS)
    requires tb.Right() && slens == FIXED_LITS[..L_CODES] && sdens == FIXED_DISTS
    requires Charged(o1, 0, lf, ldl, tb.extraLbits, 257, L_CODES) && Charged(o2, o1, df, ddl, tb.extraDbits, 0, D_CODES)
    requires StaticCharged(s1, 0, lf, slens, tb.extraLbits, 257, L_CODES)
    requires StaticCharged(s2, s1, df, sdens, tb.extraDbits, 0, D_CODES)
    ensures DataTrees(lfc, ldl, dfc, ddl, ldl[..ltop], ddl[..dtop], tokens)
    ensures DataCost(o2, ldl[..ltop], ddl[..dtop], tokens) && s2 == |FixedBits(tokens)|
  {
    TreesCode(tokens, lf, df, lfc, ldl, dfc, ddl, ltop, dtop);
    DataCharged(tokens, lf, df, ldl, ddl, ldl[..ltop], ddl[..dtop], tb, 0, o1, o2);
    FixedCoded(tokens);
    DataCharged(tokens, lf, df, slens, sdens, FIXED_LITS, FIXED_DISTS, tb, 0, s1, s2);
  }

  lemma HeaderLength(order: seq<nat>, cl: seq<nat>, blcodes: nat, llens: seq<nat>, dlens: seq<nat>)
    requires |cl| == BL_CODES && 4 <= blcodes <= BL_CODES && Below19(order) && 257 <= |llens| && 1 <= |dlens|
    requires Lengths(llens) && Lengths(dlens) && Sendable(cl, Encode(llens)) && Sendable(cl, Encode(dlens))
    ensures |HeaderBits(order, cl, blcodes, llens, dlens)| == 14 + 3 * blcodes + |SymsBits(cl, Encode(llens))|
              + |SymsBits(cl, Encode(dlens))|
  {
  }

  ghost predicate OrderRight(order: seq<nat>) {
    Permutes(order) && order[0] >= 16 && order[1] >= 16 && order[2] >= 16
  }

  /** The last code length sent is used. */
  ghost predicate LastUsed(order: seq<nat>, cl: seq<nat>, blcodes: nat) {
    1 <= blcodes <= |order| && order[blcodes - 1] < |cl| && cl[order[blcodes - 1]] != 0
  }

  /** build_bl_tree; blcodes is one more than the index it returns. */
  method BuildBl(ldl: array<nat>, ddl: array<nat>, bt: Tree, heap: array<nat>, depth: array<nat>, blCount: array<nat>,
                 extraBl: seq<nat>, order: seq<nat>, ltop: nat, dtop: nat, optLen0: int, ghost llens: seq<nat>,
                 ghost dlens: seq<nat>)
    returns (blcodes: nat, optLen: int, ghost cl: seq<nat>)
    requires Workspace(bt, heap, depth, blCount, BL_CODES) && ldl != ddl && ldl != bt.fc && ldl != bt.dl
    requires ddl != bt.fc && ddl != bt.dl
    requires ldl != heap && ldl != depth && ldl != blCount && ddl != heap && ddl != depth && ddl != blCount
    requires ltop < ldl.Length && ldl[..][..ltop] == llens && 257 <= ltop <= L_CODES && dtop < ddl.Length
    requires ddl[..][..dtop] == dlens && 1 <= dtop <= D_CODES
    requires Lengths(llens) && Lengths(dlens) && llens[END_BLOCK] != 0 && OrderRight(order)
    requires |extraBl| == BL_CODES && forall x :: 0 <= x < BL_CODES ==> extraBl[x] == ClExtra(x)
    requires bt.fc[..][..BL_CODES] == Rep(BL_CODES, 0)
    modifies ldl, ddl, bt.fc, bt.dl, heap, depth, blCount
    ensures ldl[..] == old(ldl[..])[ltop := GUARD] && ddl[..] == old(ddl[..])[dtop := GUARD]
    ensures HeaderOk(order, cl, blcodes, llens, dlens) == true && CodesOf(bt.fc[..], bt.dl[..], cl) == true
    ensures bt.dl[..][..BL_CODES] == cl && ClFor(cl, llens, dlens) == true && LastUsed(order, cl, blcodes) == true
    ensures optLen == optLen0 + |HeaderBits(order, cl, blcodes, llens, dlens)|
  {
    optLen, cl := BuildClTree(ldl, ddl, bt, heap, depth, blCount, extraBl, ltop, dtop, optLen0, llens, dlens);
    ghost var some := SomeRank(order, cl, llens);
    var maxBlindex := LastClIndex(bt.dl[..], order, cl, some);
    blcodes := maxBlindex + 1;
    HeaderLength(order, cl, blcodes, llens, dlens);
    optLen := optLen + 3 * (maxBlindex + 1) + 5 + 5 + 4;
  }

  /** A code length code for both lists of lengths. */
  ghost predicate ClTree(bfc: seq<nat>, bdl: seq<nat>, cl: seq<nat>, llens: seq<nat>, dlens: seq<nat>) {
    && Lengths(llens) && Lengths(dlens) && CodesOf(bfc, bdl, cl) && |cl| == BL_CODES <= |bdl| && bdl[..BL_CODES] == cl
        && Decodable(cl)
    && Sendable(cl, Encode(llens)) && Sendable(cl, Encode(dlens)) && forall x :: 0 <= x < BL_CODES ==> cl[x] < 8
  }

  /** How often each symbol of the code length code is needed. */
  ghost function ClFreqs(llens: seq<nat>, dlens: seq<nat>): seq<nat>
    requires Lengths(llens) && Lengths(dlens)
  {
    Tally(Tally(Rep(BL_CODES, 0), Encode(llens)), Encode(dlens))
  }

  /** The code length code is what build_tree makes of them. */
  ghost predicate ClFor(cl: seq<nat>, llens: seq<nat>, dlens: seq<nat>) {
    forall z: int {:trigger Opened(TreeSeal, z)} :: Sealed(z) ==>
      && Lengths(llens) && Lengths(dlens) && |cl| == BL_CODES
      && exists top :: 0 <= top <= BL_CODES && cl == Padded(cl[..top], BL_CODES)
                       && LengthsFor(cl[..top], ClFreqs(llens, dlens), 7)
  }

  lemma ClBuilt(bfc: seq<nat>, bdl: seq<nat>, bf: seq<nat>, btop: nat, cl: seq<nat>, llens: seq<nat>, dlens: seq<nat>)
    requires Lengths(llens) && Lengths(dlens) && |bf| >= BL_CODES && bf[..BL_CODES] == ClFreqs(llens, dlens)
    requires Built(bfc, bdl, bf, BL_CODES, btop, 7) && cl == bdl[..BL_CODES]
    requires LengthsFor(bdl[..btop], bf[..BL_CODES], 7)
    ensures ClFor(cl, llens, dlens)
  {
    assert cl[..btop] == bdl[..btop];
    assert cl == Padded(cl[..btop], BL_CODES);
  }

  /** Scans both trees and builds the code length tree. */
  method BuildClTree(ldl: array<nat>, ddl: array<nat>, bt: Tree, heap: array<nat>, depth: array<nat>,
                     blCount: array<nat>, extraBl: seq<nat>, ltop: nat, dtop: nat, optLen0: int, ghost llens: seq<nat>,
                     ghost dlens: seq<nat>)
    returns (optLen: int, ghost cl: seq<nat>)
    requires Workspace(bt, heap, depth, blCount, BL_CODES) && ldl != ddl && ldl != bt.fc && ldl != bt.dl
    requires ddl != bt.fc && ddl != bt.dl
    requires ldl != heap && ldl != depth && ldl != blCount && ddl != heap && ddl != depth && ddl != blCount
    requires ltop < ldl.Length && ldl[..][..ltop] == llens && 1 <= ltop <= L_CODES && dtop < ddl.Length
    requires ddl[..][..dtop] == dlens && 1 <= dtop <= D_CODES
    requires Lengths(llens) && Lengths(dlens)
    requires |extraBl| == BL_CODES && forall x :: 0 <= x < BL_CODES ==> extraBl[x] == ClExtra(x)
    requires bt.fc[..][..BL_CODES] == Rep(BL_CODES, 0)
    modifies ldl, ddl, bt.fc, bt.dl, heap, depth, blCount
    ensures ldl[..] == old(ldl[..])[ltop := GUARD] && ddl[..] == old(ddl[..])[dtop := GUARD]
    ensures ClTree(bt.fc[..], bt.dl[..], cl, llens, dlens) == true && ClFor(cl, llens, dlens) == true
    ensures optLen == optLen0 + |SymsBits(cl, Encode(llens))| + |SymsBits(cl, Encode(dlens))|
  {
    assert ldl[..ltop] == llens && ddl[..dtop] == dlens && bt.fc[..BL_CODES] == Rep(BL_CODES, 0);
    ScanTree(ldl, ltop - 1, bt.fc);
    ScanTree(ddl, dtop - 1, bt.fc);
    ghost var bf := bt.fc[..];
    ghost var l1, d1 := ldl[..], ddl[..];
    assert bf[..BL_CODES] == bt.fc[..BL_CODES];
    BlTotal(llens, dlens, bf);
    PowersBig(7);
    var btop, st;
    btop, optLen, st := BuildOne(bt, heap, depth, blCount, BL_CODES, 7, extraBl, 0, [], optLen0, 0, bf);
    assert ldl[..] == l1 && ddl[..] == d1;
    cl := bt.dl[..][..BL_CODES];
    HeaderCharged(llens, dlens, bf, bt.fc[..], bt.dl[..], btop, extraBl, cl, optLen0, optLen);
    ClCodes(bt.fc[..], bt.dl[..], bf, btop, cl);
    ClBuilt(bt.fc[..], bt.dl[..], bf, btop, cl, llens, dlens);
  }
}
