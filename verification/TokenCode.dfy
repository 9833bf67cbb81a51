/** How literals and pairs are coded: `compress_block` sends these bits, the
decoder of section 3.2.3 of RFC 1951 takes them back, and their number is what
`build_tree` adds up. */
module TokenCode {
  import opened Bits
  import opened HuffmanCode
  import opened Lz77
  import opened Inflate
  import opened Tables
  import opened CodeLengths
  import opened BitWriter

  /** The tables that ct_init computes, and the numbers of extra bits. */
  datatype CodeTables = CodeTables(lengthCode: seq<nat>, baseLength: seq<nat>, distCode: seq<nat>, baseDist: seq<nat>,
                                     extraLbits: seq<nat>, extraDbits: seq<nat>) {
    ghost predicate Right() {
      && LengthTable(lengthCode, baseLength) && DistTable(distCode, baseDist)
      && |extraLbits| == LENGTH_CODES && |extraDbits| == D_CODES
      && (forall c :: 0 <= c < LENGTH_CODES ==> extraLbits[c] == LengthExtra(c))
      && (forall c :: 0 <= c < D_CODES ==> extraDbits[c] == DistExtra(c))
    }
  }

  predicate TokenOk(t: Token) {
    t.Match? ==> MIN_MATCH <= t.len <= MAX_MATCH && 1 <= t.dist <= 32768
  }

  /** Length code c covers the match length len; the longest match has a code of its own. */
  ghost predicate LenOf(len: nat, c: nat) {
    && c < LENGTH_CODES && (c == 28 <==> len == MAX_MATCH)
    && LengthBase(c) <= len < LengthBase(c) + Pow2(LengthExtra(c))
  }

  ghost predicate DistOf(dist: nat, c: nat) {
    c < D_CODES && DistBase(c) <= dist < DistBase(c) + Pow2(DistExtra(c))
  }

  lemma {:induction false} FindLen(len: nat, c: nat) returns (r: nat)
    requires 3 <= len < MAX_MATCH && c < 28 && len - 3 < LBase(c + 1)
    ensures LenOf(len, r)
  {
    LBaseStep(c);
    if LBase(c) <= len - 3 { r := c; } else { r := FindLen(len, c - 1); }
  }

  lemma {:induction false} FindDist(dist: nat, c: nat) returns (r: nat)
    requires 1 <= dist && c < D_CODES && dist - 1 < DBase(c + 1)
    ensures DistOf(dist, r)
  {
    DBaseStep(c);
    if DBase(c) <= dist - 1 { r := c; } else { r := FindDist(dist, c - 1); }
  }

  lemma SomeLen(len: nat) returns (c: nat)
    requires MIN_MATCH <= len <= MAX_MATCH
    ensures LenOf(len, c)
  {
    if len == MAX_MATCH {
      c :| c == 28;
      assert LengthExtra(c) == 0 && Pow2(LengthExtra(c)) == 1 && LengthBase(c) == 258;
    } else {
      c :| c == 27;
      c := FindLen(len, c);
    }
  }

  lemma SomeDist(dist: nat) returns (c: nat)
    requires 1 <= dist <= 32768
    ensures DistOf(dist, c)
  {
    var top: nat :| top == 30;
    DBaseAt(top);
    c := FindDist(dist, top - 1);
  }

  lemma LenExists(len: nat)
    requires MIN_MATCH <= len <= MAX_MATCH
    ensures exists c :: LenOf(len, c)
  {
    var c := SomeLen(len);
  }

  lemma DistExists(dist: nat)
    requires 1 <= dist <= 32768
    ensures exists c :: DistOf(dist, c)
  {
    var c := SomeDist(dist);
  }

  /** The code of a match length. */
  ghost function LenCode(len: nat): (c: nat)
    requires MIN_MATCH <= len <= MAX_MATCH
    ensures LenOf(len, c)
  {
    LenExists(len);
    var c :| LenOf(len, c);
    c
  }

  /** The code of a distance. */
  ghost function DistCode(dist: nat): (c: nat)
    requires 1 <= dist <= 32768
    ensures DistOf(dist, c)
  {
    DistExists(dist);
    var c :| DistOf(dist, c);
    c
  }

  lemma {:induction false} LBaseOrder(c: nat, d: nat)
    requires c < d <= 28
    ensures LBase(c) + Pow2(LengthExtra(c)) <= LBase(d)
  {
    LBaseStep(d - 1);
    if c < d - 1 { LBaseOrder(c, d - 1); }
  }

  lemma {:induction false} DBaseOrder(c: nat, d: nat)
    requires c < d <= 30
    ensures DBase(c) + Pow2(DistExtra(c)) <= DBase(d)
  {
    DBaseStep(d - 1);
    if c < d - 1 { DBaseOrder(c, d - 1); }
  }

  lemma LenUnique(len: nat, c: nat, d: nat)
    requires LenOf(len, c) && LenOf(len, d)
    ensures c == d
  {
    if c < d < 28 { LBaseOrder(c, d); }
    if d < c < 28 { LBaseOrder(d, c); }
  }

  lemma DistUnique(dist: nat, c: nat, d: nat)
    requires DistOf(dist, c) && DistOf(dist, d)
    ensures c == d
  {
    if c < d { DBaseOrder(c, d); }
    if d < c { DBaseOrder(d, c); }
  }

  /** What the tables say about a length. */
  lemma TableLen(tb: CodeTables, len: nat, c: nat)
    requires tb.Right() && MIN_MATCH <= len <= MAX_MATCH && c == tb.lengthCode[len - MIN_MATCH]
    ensures c == LenCode(len) && tb.extraLbits[c] == LengthExtra(c)
    ensures LengthExtra(c) > 0 ==>
              tb.baseLength[c] <= len - MIN_MATCH && len - MIN_MATCH - tb.baseLength[c] == len - LengthBase(c)
  {
    if len == MAX_MATCH {
      var d := SomeLen(len);
      LenUnique(len, c, LenCode(len));
    } else {
      assert InLength(len - MIN_MATCH, c);
      LBaseStep(c);
      LenUnique(len, c, LenCode(len));
    }
  }

  lemma TableDist(tb: CodeTables, dist: nat, c: nat)
    requires tb.Right() && 1 <= dist <= 32768 && c == DCode(tb.distCode, dist - 1)
    ensures c == DistCode(dist) && tb.extraDbits[c] == DistExtra(c)
    ensures tb.baseDist[c] <= dist - 1 && dist - 1 - tb.baseDist[c] == dist - DistBase(c)
  {
    DCodeRight(tb.distCode, tb.baseDist, dist - 1);
    DBaseStep(c);
    DistUnique(dist, c, DistCode(dist));
  }

  ghost predicate HasCode(lens: seq<nat>, n: nat) {
    n < |lens| && 0 < lens[n] <= MAX_BITS
  }

  /** The two codes have what the token needs. */
  ghost predicate Coded(lits: seq<nat>, dists: seq<nat>, t: Token) {
    && TokenOk(t)
    && match t
       case Literal(c) => HasCode(lits, c)
       case Match(len, dist) => HasCode(lits, 257 + LenCode(len)) && HasCode(dists, DistCode(dist))
  }

  /** A distance. */
  ghost function DistBits(dists: seq<nat>, dist: nat): seq<bool>
    requires 1 <= dist <= 32768 && HasCode(dists, DistCode(dist))
  {
    CodeBits(dists, DistCode(dist)) + ToBits(dist - DistBase(DistCode(dist)), DistExtra(DistCode(dist)))
  }

  /** The extra bits of a length. */
  ghost function LenRest(len: nat): seq<bool>
    requires MIN_MATCH <= len <= MAX_MATCH
  {
    ToBits(len - LengthBase(LenCode(len)), LengthExtra(LenCode(len)))
  }

  ghost function TokenBits(lits: seq<nat>, dists: seq<nat>, t: Token): seq<bool>
    requires Coded(lits, dists, t)
  {
    match t
    case Literal(c) => CodeBits(lits, c)
    case Match(len, dist) => CodeBits(lits, 257 + LenCode(len)) + (LenRest(len) + DistBits(dists, dist))
  }

  ghost predicate AllCoded(lits: seq<nat>, dists: seq<nat>, tokens: seq<Token>) {
    forall i :: 0 <= i < |tokens| ==> Coded(lits, dists, tokens[i])
  }

  ghost function TokensBits(lits: seq<nat>, dists: seq<nat>, tokens: seq<Token>): seq<bool>
    requires AllCoded(lits, dists, tokens)
  {
    if tokens == [] then [] else TokenBits(lits, dists, tokens[0]) + TokensBits(lits, dists, tokens[1..])
  }

  lemma {:induction false} TokensBitsSnoc(lits: seq<nat>, dists: seq<nat>, tokens: seq<Token>, t: Token)
    requires AllCoded(lits, dists, tokens) && Coded(lits, dists, t)
    ensures AllCoded(lits, dists, tokens + [t])
    ensures TokensBits(lits, dists, tokens + [t]) == TokensBits(lits, dists, tokens) + TokenBits(lits, dists, t)
  {
    var all := tokens + [t];
    if tokens == [] {
      assert all[1..] == [];
    } else {
      assert all[1..] == tokens[1..] + [t];
      TokensBitsSnoc(lits, dists, tokens[1..], t);
      Assoc(TokenBits(lits, dists, tokens[0]), TokensBits(lits, dists, tokens[1..]), TokenBits(lits, dists, t));
    }
  }

  // ----- decoding -----

  lemma {:induction false} ReadDist(dists: seq<nat>, c: nat, w: nat, x: nat, rest: seq<bool>)
    requires Decodable(dists) && HasCode(dists, c) && x < Pow2(w)
    ensures DecodeSymbol(dists, CodeBits(dists, c) + ToBits(x, w) + rest) == Some((c, ToBits(x, w) + rest))
    ensures ReadBits(ToBits(x, w) + rest, w) == Some((x, rest))
  {
    Assoc(CodeBits(dists, c), ToBits(x, w), rest);
    DecodeOwnCode(dists, c, ToBits(x, w) + rest);
    ReadOwnBits(x, w, rest);
  }

  lemma {:induction false} ReadPair(dists: seq<nat>, lc: nat, lw: nat, lx: nat, dc: nat, dw: nat, dx: nat,
                                    rest: seq<bool>, len: nat, dist: nat)
    requires len == LengthBase(lc) + lx && dist == DistBase(dc) + dx
    requires lc < LENGTH_CODES && lw == LengthExtra(lc) && lx < Pow2(lw)
    requires dc < D_CODES && dw == DistExtra(dc) && dx < Pow2(dw) && HasCode(dists, dc) && Decodable(dists)
    ensures DecodeMatch(lc, dists, ToBits(lx, lw) + (CodeBits(dists, dc) + ToBits(dx, dw)) + rest)
            == Some((len, dist, rest))
  {
    var a, b := ToBits(lx, lw), CodeBits(dists, dc) + ToBits(dx, dw);
    Assoc(a, b, rest);
    ReadOwnBits(lx, lw, b + rest);
    ReadDist(dists, dc, dw, dx, rest);
  }

  lemma {:induction false} DecodeLenDist(dists: seq<nat>, len: nat, dist: nat, rest: seq<bool>)
    requires TokenOk(Match(len, dist)) && HasCode(dists, DistCode(dist)) && Decodable(dists)
    ensures DecodeMatch(LenCode(len), dists, LenRest(len) + DistBits(dists, dist) + rest) == Some((len, dist, rest))
  {
    var lc, dc := LenCode(len), DistCode(dist);
    var lw, lx, dw, dx := LengthExtra(lc), len - LengthBase(lc), DistExtra(dc), dist - DistBase(dc);
    assert LenRest(len) == ToBits(lx, lw) && DistBits(dists, dist) == CodeBits(dists, dc) + ToBits(dx, dw);
    ReadPair(dists, lc, lw, lx, dc, dw, dx, rest, len, dist);
  }

  /** What a token appends to the output. */
  function Put(out: seq<byte>, t: Token): seq<byte>
    requires t.Match? ==> 1 <= t.dist <= |out|
  {
    if t.Literal? then out + [t.c] else CopyMatch(out, t.len, t.dist)
  }

  lemma {:induction false} DecodeLiteral(lits: seq<nat>, dists: seq<nat>, c: byte, rest: seq<bool>, out: seq<byte>)
    requires HasCode(lits, c) && Decodable(lits)
    ensures DecodeData(lits, dists, CodeBits(lits, c) + rest, out) == DecodeData(lits, dists, rest, out + [c])
  {
    DecodeOwnCode(lits, c, rest);
  }

  lemma {:induction false} DecodePair(lits: seq<nat>, dists: seq<nat>, lc: nat, tail: seq<bool>, len: nat, dist: nat,
                                      rest: seq<bool>, out: seq<byte>)
    requires HasCode(lits, 257 + lc) && lc < LENGTH_CODES && Decodable(lits)
    requires DecodeMatch(lc, dists, tail) == Some((len, dist, rest)) && 1 <= dist <= |out|
    ensures DecodeData(lits, dists, CodeBits(lits, 257 + lc) + tail, out) ==
              DecodeData(lits, dists, rest, CopyMatch(out, len, dist))
  {
    DecodeOwnCode(lits, 257 + lc, tail);
  }

  lemma {:induction false} DecodeToken(lits: seq<nat>, dists: seq<nat>, t: Token, rest: seq<bool>, out: seq<byte>)
    requires Coded(lits, dists, t) && Decodable(lits) && Decodable(dists) && (t.Match? ==> t.dist <= |out|)
    ensures DecodeData(lits, dists, TokenBits(lits, dists, t) + rest, out) == DecodeData(lits, dists, rest, Put(out, t))
  {
    match t
    case Literal(c) =>
      DecodeLiteral(lits, dists, c, rest, out);
    case Match(len, dist) =>
      var lc, tail := LenCode(len), LenRest(len) + DistBits(dists, dist);
      Assoc(CodeBits(lits, 257 + lc), tail, rest);
      DecodeLenDist(dists, len, dist, rest);
      DecodePair(lits, dists, lc, tail + rest, len, dist, rest, out);
  }

  /** The decoder does the same from both points. */
  ghost predicate SameData(lits: seq<nat>, dists: seq<nat>, s: seq<bool>, out: seq<byte>, s': seq<bool>,
                           out': seq<byte>)
  {
    forall k: int {:trigger Opened(LoopSeal, k)} :: Sealed(k) ==>
      DecodeData(lits, dists, s, out) == DecodeData(lits, dists, s', out')
  }

  lemma SameToken(lits: seq<nat>, dists: seq<nat>, t: Token, rest: seq<bool>, out: seq<byte>)
    requires Coded(lits, dists, t) && Decodable(lits) && Decodable(dists) && (t.Match? ==> t.dist <= |out|)
    ensures SameData(lits, dists, TokenBits(lits, dists, t) + rest, out, rest, Put(out, t))
  {
    DecodeToken(lits, dists, t, rest, out);
  }

  lemma SameChain(lits: seq<nat>, dists: seq<nat>, s: seq<bool>, out: seq<byte>, s1: seq<bool>, out1: seq<byte>,
                  s2: seq<bool>, out2: seq<byte>)
    requires SameData(lits, dists, s, out, s1, out1) && SameData(lits, dists, s1, out1, s2, out2)
    ensures SameData(lits, dists, s, out, s2, out2)
  {
    assert Opened(LoopSeal, 0);
  }

  lemma ExpandHead(out: seq<byte>, tokens: seq<Token>)
    requires tokens != [] && Reaches(|out|, tokens)
    ensures tokens[0].Match? ==> 1 <= tokens[0].dist <= |out|
    ensures Reaches(|Put(out, tokens[0])|, tokens[1..])
    ensures Expand(out, tokens) == Expand(Put(out, tokens[0]), tokens[1..])
  {
  }

  lemma {:induction false} DecodeEach(lits: seq<nat>, dists: seq<nat>, tokens: seq<Token>, tail: seq<bool>,
                                      out: seq<byte>)
    requires AllCoded(lits, dists, tokens) && Decodable(lits) && Decodable(dists) && Reaches(|out|, tokens)
    ensures SameData(lits, dists, TokensBits(lits, dists, tokens) + tail, out, tail, Expand(out, tokens))
    decreases |tokens|
  {
    if tokens == [] {
      assert TokensBits(lits, dists, tokens) + tail == tail;
    } else {
      var t, ts := tokens[0], tokens[1..];
      var a, b := TokenBits(lits, dists, t), TokensBits(lits, dists, ts);
      ExpandHead(out, tokens);
      Assoc(a, b, tail);
      SameToken(lits, dists, t, b + tail, out);
      DecodeEach(lits, dists, ts, tail, Put(out, t));
      SameChain(lits, dists, a + (b + tail), out, b + tail, Put(out, t), tail, Expand(Put(out, t), ts));
    }
  }

  /** The decoder takes back exactly the tokens and the end-of-block symbol. */
  lemma {:induction false} DecodeTokens(lits: seq<nat>, dists: seq<nat>, tokens: seq<Token>, rest: seq<bool>,
                                        out: seq<byte>)
    requires AllCoded(lits, dists, tokens) && HasCode(lits, END_BLOCK) && Decodable(lits) && Decodable(dists)
    requires Reaches(|out|, tokens)
    ensures DecodeData(lits, dists, TokensBits(lits, dists, tokens) + (CodeBits(lits, END_BLOCK) + rest), out) ==
              Some((Expand(out, tokens), rest))
  {
    DecodeEach(lits, dists, tokens, CodeBits(lits, END_BLOCK) + rest, out);
    assert Opened(LoopSeal, 0);
    DecodeOwnCode(lits, END_BLOCK, rest);
  }
}
