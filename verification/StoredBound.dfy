/** A block is stored only if it is short enough for the 16-bit length field. */
module StoredBound {
  import opened Bits
  import opened HuffmanCode
  import opened Lz77
  import opened Inflate
  import opened Tables
  import opened TokenCode
  import opened TokenCost
  import opened BlockData
  import opened BlockTrees

  lemma FixedLen(x: nat)
    requires x < 288
    ensures FIXED_LITS[x] == if x < 144 then 8 else if x < 256 then 9 else if x < 280 then 7 else 8
  {
  }

  lemma ShortLenCode(len: nat)
    requires len == 3 || len == 4
    ensures LenCode(len) == len - 3
  {
    var c: nat := len - 3;
    assert LengthExtra(c) == 0 && Pow2(LengthExtra(c)) == 1;
    assert LengthBase(c) == len;
    LenUnique(len, c, LenCode(len));
  }

  lemma FarBase(c: nat)
    requires c == 24
    ensures DBase(c) == TOO_FAR
  {
    DistRows(c);
  }

  lemma NearDistCode(dist: nat)
    requires 1 <= dist <= TOO_FAR
    ensures DistCode(dist) < 24
  {
    var c := DistCode(dist);
    var far: nat :| far == 24;
    FarBase(far);
    if c > far { DBaseOrder(far, c); }
  }

  /** With the fixed codes a token of width n takes at most 7n + 2 bits. */
  lemma TokenBound(t: Token)
    requires TokenOk(t) && Near(t) && Coded(FIXED_LITS, FIXED_DISTS, t)
    ensures |TokenBits(FIXED_LITS, FIXED_DISTS, t)| <= 7 * Width(t) + 2
  {
    match t
    case Literal(c) => FixedLen(c);
    case Match(len, dist) =>
      var lc, dc := LenCode(len), DistCode(dist);
      FixedLen(257 + lc);
      FixedDistsDecodable();
      assert |TokenBits(FIXED_LITS, FIXED_DISTS, t)| == FIXED_LITS[257 + lc] + LengthExtra(lc) + 5 + DistExtra(dc);
      if len == 3 { NearDistCode(dist); }
      if len <= 4 { ShortLenCode(len); }
  }

  lemma {:induction false} TokensBound(tokens: seq<Token>)
    requires AllOk(tokens) && AllNear(tokens) && AllCoded(FIXED_LITS, FIXED_DISTS, tokens)
    ensures |TokensBits(FIXED_LITS, FIXED_DISTS, tokens)| <= 7 * Widths(tokens) + 2 * |tokens|
  {
    if tokens != [] {
      var init, t := tokens[..|tokens| - 1], tokens[|tokens| - 1];
      assert tokens == init + [t];
      TokensBound(init);
      TokensBitsSnoc(FIXED_LITS, FIXED_DISTS, init, t);
      TokenBound(t);
    }
  }

  lemma FixedBound(tokens: seq<Token>)
    requires AllOk(tokens) && AllNear(tokens)
    ensures |FixedBits(tokens)| <= 7 * Widths(tokens) + 2 * |tokens| + 7
  {
    FixedCoded(tokens);
    TokensBound(tokens);
    FixedLen(END_BLOCK);
  }

  /** Whenever storing a block is no longer than coding it with the fixed codes, it has at most twice as many bytes as
  tokens. */
  lemma StoredFits(tokens: seq<Token>, storedLen: nat)
    requires AllOk(tokens) && AllNear(tokens) && storedLen == Widths(tokens)
    requires storedLen + 4 <= (|FixedBits(tokens)| + 3 + 7) / 8
    ensures storedLen <= 2 * |tokens| - 15
  {
    FixedBound(tokens);
  }

  lemma {:induction false} WidthsFront(tokens: seq<Token>)
    requires tokens != []
    ensures Widths(tokens) == Width(tokens[0]) + Widths(tokens[1..])
  {
    if |tokens| > 1 {
      var k := |tokens| - 1;
      WidthsFront(tokens[..k]);
      assert tokens[..k][1..] == tokens[1..][..k - 1];
      assert tokens[1..][k - 1] == tokens[k];
    }
  }

  lemma {:induction false} ExpandWidth(out: seq<byte>, tokens: seq<Token>)
    requires Reaches(|out|, tokens)
    ensures |Expand(out, tokens)| == |out| + Widths(tokens)
    decreases |tokens|
  {
    if tokens != [] {
      WidthsFront(tokens);
      ExpandWidth(Put(out, tokens[0]), tokens[1..]);
    }
  }
}
