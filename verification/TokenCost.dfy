/** The frequencies that `ct_tally` counts, and what they say about the size of a block. */
module TokenCost {
  import opened Bits
  import opened HuffmanCode
  import opened Lz77
  import opened Inflate
  import opened Tables
  import opened TokenCode
  import opened HuffmanLeaves
  import opened HuffmanCounts
  import opened HuffmanLengths

  ghost predicate AllOk(tokens: seq<Token>) {
    forall i :: 0 <= i < |tokens| ==> TokenOk(tokens[i])
  }

  /** The literal/length symbol of a token. */
  ghost function LitSym(t: Token): (x: nat)
    requires TokenOk(t)
    ensures x < L_CODES && x != END_BLOCK
  {
    if t.Literal? then t.c else 257 + LenCode(t.len)
  }

  /** How often each literal/length symbol occurs in a block; its end is marked once. */
  ghost function LitFreqs(tokens: seq<Token>): (f: seq<nat>)
    requires AllOk(tokens)
    ensures |f| == L_CODES
  {
    if tokens == [] then seq(L_CODES, x => if x == END_BLOCK then 1 else 0)
    else Bump(LitFreqs(tokens[..|tokens| - 1]), LitSym(tokens[|tokens| - 1]))
  }

  ghost function DistFreqs(tokens: seq<Token>): (f: seq<nat>)
    requires AllOk(tokens)
    ensures |f| == D_CODES
  {
    if tokens == [] then seq(D_CODES, x => 0)
    else
      var f, t := DistFreqs(tokens[..|tokens| - 1]), tokens[|tokens| - 1];
      if t.Literal? then f else Bump(f, DistCode(t.dist))
  }

  lemma FreqsSnoc(tokens: seq<Token>, t: Token)
    requires AllOk(tokens) && TokenOk(t)
    ensures AllOk(tokens + [t]) && LitFreqs(tokens + [t]) == Bump(LitFreqs(tokens), LitSym(t))
    ensures DistFreqs(tokens + [t]) == if t.Literal? then DistFreqs(tokens)
              else Bump(DistFreqs(tokens), DistCode(t.dist))
  {
    assert (tokens + [t])[..|tokens|] == tokens;
  }

  lemma {:induction false} WeightedBump(f: seq<nat>, w: seq<nat>, n: nat, x: nat)
    requires n <= |f| && n <= |w| && x < |f|
    ensures Weighted(Bump(f, x), w, n) == Weighted(f, w, n) + if x < n then w[x] else 0
  {
    if n > 0 { WeightedBump(f, w, n - 1, x); }
  }

  lemma {:induction false} WeightedOne(f: seq<nat>, w: seq<nat>, n: nat, x: nat)
    requires n <= |f| && n <= |w| && forall y :: 0 <= y < n ==> f[y] == if y == x then 1 else 0
    ensures Weighted(f, w, n) == if x < n then w[x] else 0
  {
    if n > 0 { WeightedOne(f, w, n - 1, x); }
  }

  /** wl and wd are what the symbols of the two codes cost with their extra bits. */
  ghost predicate Weigh(wl: seq<nat>, wd: seq<nat>, lits: seq<nat>, dists: seq<nat>) {
    && |wl| >= L_CODES && |wd| >= D_CODES
    && (forall x :: 0 <= x < L_CODES && x < |lits| ==> wl[x] == lits[x] + if x >= 257 then LengthExtra(x - 257) else 0)
    && (forall x :: 0 <= x < D_CODES && x < |dists| ==> wd[x] == dists[x] + DistExtra(x))
  }

  lemma TokenLength(lits: seq<nat>, dists: seq<nat>, wl: seq<nat>, wd: seq<nat>, t: Token)
    requires Coded(lits, dists, t) && Weigh(wl, wd, lits, dists)
    ensures |TokenBits(lits, dists, t)| == wl[LitSym(t)] + if t.Literal? then 0 else wd[DistCode(t.dist)]
  {
  }

  /** The frequencies and the weights give the exact number of bits of a block's data. */
  lemma {:induction false} DataLength(lits: seq<nat>, dists: seq<nat>, wl: seq<nat>, wd: seq<nat>, tokens: seq<Token>)
    requires AllCoded(lits, dists, tokens) && Weigh(wl, wd, lits, dists) && AllOk(tokens)
    ensures Weighted(LitFreqs(tokens), wl, L_CODES)
              + Weighted(DistFreqs(tokens), wd, D_CODES) == |TokensBits(lits, dists, tokens)| + wl[END_BLOCK]
  {
    if tokens == [] {
      WeightedOne(LitFreqs(tokens), wl, L_CODES, END_BLOCK);
      WeightedOne(DistFreqs(tokens), wd, D_CODES, D_CODES);
    } else {
      var init, t := tokens[..|tokens| - 1], tokens[|tokens| - 1];
      assert tokens == init + [t];
      DataLength(lits, dists, wl, wd, init);
      TokensBitsSnoc(lits, dists, init, t);
      TokenLength(lits, dists, wl, wd, t);
      FreqsSnoc(init, t);
      WeightedBump(LitFreqs(init), wl, L_CODES, LitSym(t));
      if t.Match? { WeightedBump(DistFreqs(init), wd, D_CODES, DistCode(t.dist)); }
    }
  }

  /** There are as many symbols as tokens, and one end-of-block; as many distances as pairs. */
  lemma {:induction false} FreqTotals(tokens: seq<Token>)
    requires AllOk(tokens)
    ensures Weighted(LitFreqs(tokens), Ones(L_CODES), L_CODES) == |tokens| + 1
    ensures Weighted(DistFreqs(tokens), Ones(D_CODES), D_CODES) <= |tokens|
  {
    if tokens == [] {
      WeightedOne(LitFreqs(tokens), Ones(L_CODES), L_CODES, END_BLOCK);
      WeightedOne(DistFreqs(tokens), Ones(D_CODES), D_CODES, D_CODES);
    } else {
      var init, t := tokens[..|tokens| - 1], tokens[|tokens| - 1];
      assert tokens == init + [t];
      FreqTotals(init);
      FreqsSnoc(init, t);
      WeightedBump(LitFreqs(init), Ones(L_CODES), L_CODES, LitSym(t));
      if t.Match? { WeightedBump(DistFreqs(init), Ones(D_CODES), D_CODES, DistCode(t.dist)); }
    }
  }

  /** A code for the symbols that occur codes every token. */
  lemma {:induction false} FreqsCover(tokens: seq<Token>, i: nat)
    requires AllOk(tokens) && i < |tokens|
    ensures LitFreqs(tokens)[LitSym(tokens[i])] > 0
    ensures (tokens[i].Match? ==> DistFreqs(tokens)[DistCode(tokens[i].dist)] > 0)
  {
    var init := tokens[..|tokens| - 1];
    if i < |init| {
      FreqsCover(init, i);
      assert init[i] == tokens[i];
    }
  }

  lemma {:induction false} EndCounted(tokens: seq<Token>)
    requires AllOk(tokens)
    ensures LitFreqs(tokens)[END_BLOCK] == 1
  {
    if tokens != [] { EndCounted(tokens[..|tokens| - 1]); }
  }
}
