/** The state of the block coder and its two entry points: `ct_tally` collects
tokens, `flush_block` sends them in the shortest of the three ways. */
module BlockCoder {
  import opened Bits
  import opened BitWriter
  import opened HuffmanCode
  import opened Lz77
  import opened Inflate
  import opened Tables
  import opened CodeLengths
  import opened HuffmanMerge
  import opened HuffmanLeaves
  import opened HuffmanCounts
  import opened HuffmanCoder
  import opened TokenCode
  import opened TokenCost
  import opened TokenBuffer
  import opened BlockData
  import opened BlockHeader
  import opened BlockDecode
  import opened BlockTrees
  import opened StoredBound

  /** The bytes that n bits and a block's first three bits fill. */
  function LenB(n: nat): nat {
    (n + 3 + 7) / 8
  }

  /** flush_block's choice between the block stored, with fixed codes and with dynamic codes. */
  ghost function BestBlock(off: nat, data: seq<byte>, fixedBits: seq<bool>, dynBits: seq<bool>, eof: bool): seq<bool> {
    var best := if LenB(|fixedBits|) <= LenB(|dynBits|) then LenB(|fixedBits|) else LenB(|dynBits|);
    if |data| + 4 <= best then KindBits(0, eof) + StoredBody(off, data)
    else if LenB(|fixedBits|) == best then KindBits(1, eof) + fixedBits
    else KindBits(2, eof) + dynBits
  }

  function EndByte(bits: nat): nat {
    (bits + 7) / 8
  }

  /** A block of n bits ends at most two bytes after the shortest of the three ways to send it. */
  ghost predicate NearShortest(off: nat, n: nat, data: seq<byte>, fixedBits: seq<bool>, dynBits: seq<bool>) {
    var end := EndByte(off + n);
    && end <= EndByte(off + 3 + |fixedBits|) + 2
    && end <= EndByte(off + 3 + |dynBits|) + 2
    && end <= EndByte(off + 3 + |StoredBody(off, data)|)
  }

  /** The block chosen ends at most two bytes after the shortest of the three: the choice does not count the
  alignment. */
  lemma BestWithinTwoBytes(off: nat, data: seq<byte>, fixedBits: seq<bool>, dynBits: seq<bool>, eof: bool)
    ensures NearShortest(off, |BestBlock(off, data, fixedBits, dynBits, eof)|, data, fixedBits, dynBits)
  {
    StoredBits(off, data);
    var n, f, d, pad := |data|, |fixedBits|, |dynBits|, Padding(off + 3);
    StoredEnd(off, n, f, pad);
    StoredEnd(off, n, d, pad);
    CodedEnd(off, f, d);
    CodedEnd(off, d, f);
  }

  /** It ends no later than any of the three. */
  ghost predicate EndsFirst(off: nat, n: nat, data: seq<byte>, fixedBits: seq<bool>, dynBits: seq<bool>) {
    var end := EndByte(off + n);
    && end <= EndByte(off + 3 + |fixedBits|)
    && end <= EndByte(off + 3 + |dynBits|)
    && end <= EndByte(off + 3 + |StoredBody(off, data)|)
  }

  /** The bytes that c bits take after the byte in which the block type ends, of which they fill `pad` bits. */
  function MoreBytes(c: nat, pad: nat): nat
    requires pad < 8
  {
    (c + 7 - pad) / 8
  }

  /** The block chosen ends first exactly when the tests that chose it also hold with the padding counted. */
  lemma BestIff(off: nat, data: seq<byte>, fixedBits: seq<bool>, dynBits: seq<bool>, eof: bool)
    ensures var n, f, d, pad := |data|, |fixedBits|, |dynBits|, Padding(off + 3);
            EndsFirst(off, |BestBlock(off, data, fixedBits, dynBits, eof)|, data, fixedBits, dynBits)
            <==> if n + 4 <= LenB(f) && n + 4 <= LenB(d) then n + 4 <= MoreBytes(f, pad) && n + 4 <= MoreBytes(d, pad)
                 else LenB(f) > LenB(d) || MoreBytes(f, pad) <= MoreBytes(d, pad)
  {
    StoredBits(off, data);
    var n, f, d, pad := |data|, |fixedBits|, |dynBits|, Padding(off + 3);
    EndBytes(off, n, f, pad);
    EndBytes(off, n, d, pad);
    CodedOrder(f, d, pad);
    var end := EndByte(off + |BestBlock(off, data, fixedBits, dynBits, eof)|);
    var es, ef, ed := EndByte(off + 3 + |StoredBody(off, data)|), EndByte(off + 3 + f), EndByte(off + 3 + d);
    BestLength(off, data, fixedBits, dynBits, eof, LenB(f), LenB(d));
    FirstOfThree(end, es, ef, ed, (off + 3 + pad) / 8, n, MoreBytes(f, pad), MoreBytes(d, pad), LenB(f), LenB(d));
  }

  lemma BestLength(off: nat, data: seq<byte>, fixedBits: seq<bool>, dynBits: seq<bool>, eof: bool, lf: nat, ld: nat)
    requires lf == LenB(|fixedBits|) && ld == LenB(|dynBits|)
    ensures |BestBlock(off, data, fixedBits, dynBits, eof)|
            == 3 + if |data| + 4 <= lf && |data| + 4 <= ld then |StoredBody(off, data)|
                   else if lf <= ld then |fixedBits| else |dynBits|
  {
  }

  lemma FirstOfThree(end: nat, es: nat, ef: nat, ed: nat, q: nat, n: nat, mf: nat, md: nat, lf: nat, ld: nat)
    requires es == q + 4 + n && ef == q + mf && ed == q + md && (lf > ld ==> md <= mf)
    requires (n + 4 > lf ==> mf <= 4 + n) && (n + 4 > ld ==> md <= 4 + n)
    requires end == if n + 4 <= lf && n + 4 <= ld then es else if lf <= ld then ef else ed
    ensures end <= ef && end <= ed && end <= es
            <==> if n + 4 <= lf && n + 4 <= ld then n + 4 <= mf && n + 4 <= md else lf > ld || mf <= md
  {
  }

  lemma EndBytes(off: nat, n: nat, c: nat, pad: nat)
    requires pad < 8 && (off + 3 + pad) % 8 == 0
    ensures var q := (off + 3 + pad) / 8;
            EndByte(off + 3 + pad + 32 + 8 * n) == q + 4 + n && EndByte(off + 3 + c) == q + MoreBytes(c, pad)
    ensures n + 4 > LenB(c) ==> MoreBytes(c, pad) <= 4 + n
  {
    var q := (off + 3 + pad) / 8;
    assert off + 3 + pad == 8 * q;
  }

  lemma CodedOrder(f: nat, d: nat, pad: nat)
    requires pad < 8
    ensures LenB(f) > LenB(d) ==> MoreBytes(d, pad) <= MoreBytes(f, pad)
  {
    assert LenB(f) > LenB(d) ==> f > d;
  }

  lemma StoredEnd(off: nat, n: nat, c: nat, pad: nat)
    requires pad < 8 && (off + 3 + pad) % 8 == 0
    ensures n + 4 <= LenB(c) ==> EndByte(off + 3 + pad + 32 + 8 * n) <= EndByte(off + 3 + c) + 2
    ensures n + 4 > LenB(c) ==> EndByte(off + 3 + c) <= EndByte(off + 3 + pad + 32 + 8 * n)
  {
    var q := (off + 3 + pad) / 8;
    assert off + 3 + pad == 8 * q;
    assert EndByte(off + 3 + pad + 32 + 8 * n) == q + 4 + n;
    assert EndByte(off + 3 + c) == q + (c + 7 - pad) / 8;
  }

  lemma CodedEnd(off: nat, c: nat, d: nat)
    ensures LenB(c) <= LenB(d) ==> EndByte(off + 3 + c) <= EndByte(off + 3 + d) + 1
  {
    assert LenB(c) <= LenB(d) ==> c <= d + 7;
  }

  lemma StoredBits(off: nat, data: seq<byte>)
    ensures |StoredBody(off, data)| == Padding(off + 3) + 32 + 8 * |data|
    ensures Padding(off + 3) < 8 && (off + 3 + Padding(off + 3)) % 8 == 0
  {
  }

  /** The trees are the ones that build_tree makes for the tokens. */
  ghost predicate OwnTrees(order: seq<nat>, cl: seq<nat>, blcodes: nat, llens: seq<nat>, dlens: seq<nat>,
                           tokens: seq<Token>)
  {
    forall k: int {:trigger Opened(TreeSeal, k)} :: Sealed(k) ==>
      && AllOk(tokens)
      && LengthsFor(llens, LitFreqs(tokens), MAX_BITS) && LengthsFor(dlens, DistFreqs(tokens), MAX_BITS)
      && ClFor(cl, llens, dlens) && LastUsed(order, cl, blcodes)
  }

  /** The dynamic trees, ready to send. */
  ghost predicate Ready(l: Codes, d: Codes, b: Codes, order: seq<nat>, cl: seq<nat>, blcodes: nat, llens: seq<nat>,
                        dlens: seq<nat>, tokens: seq<Token>)
  {
    && DataTrees(l.fc, l.dl, d.fc, d.dl, llens, dlens, tokens) && OwnTrees(order, cl, blcodes, llens, dlens, tokens)
    && |llens| < |l.dl| && l.dl[|llens|] == GUARD && |dlens| < |d.dl| && d.dl[|dlens|] == GUARD
    && HeaderOk(order, cl, blcodes, llens, dlens) && CodesOf(b.fc, b.dl, cl) && BL_CODES <= |b.dl|
        && b.dl[..BL_CODES] == cl
  }

  /** What the dynamic block body consists of. */
  ghost function DynBits(order: seq<nat>, cl: seq<nat>, blcodes: nat, llens: seq<nat>, dlens: seq<nat>,
                         tokens: seq<Token>): seq<bool>
    requires HeaderOk(order, cl, blcodes, llens, dlens) && AllCoded(llens, dlens, tokens) && HasCode(llens, END_BLOCK)
  {
    HeaderBits(order, cl, blcodes, llens, dlens) + DataBits(llens, dlens, tokens)
  }

  /** The trees are ready, and the two lengths are those of the two ways to code the tokens. */
  ghost predicate Weighed(l: Codes, d: Codes, b: Codes, order: seq<nat>, cl: seq<nat>, lcodes: nat, dcodes: nat,
                          blcodes: nat, llens: seq<nat>, dlens: seq<nat>, tokens: seq<Token>, optLen: int,
                          staticLen: int, fixedBits: seq<bool>, dynBits: seq<bool>) {
    forall k: int {:trigger Opened(WeighedSeal, k)} :: Sealed(k) ==>
    && Ready(l, d, b, order, cl, blcodes, llens, dlens, tokens) && lcodes == |llens| && dcodes == |dlens|
    && dynBits == DynBits(order, cl, blcodes, llens, dlens, tokens) && fixedBits == FixedBits(tokens)
    && optLen == |dynBits| && staticLen == |fixedBits|
  }

  method SendKind(w: Writer, kind: nat, eof: bool)
    requires w.Valid() && kind < 3
    modifies w, w.outbuf
    ensures w.Valid() && w.Stream() == old(w.Stream()) + KindBits(kind, eof)
  {
    var n: nat := 3;
    assert 2 * kind + (if eof then 1 else 0) < Pow2(n) by { assert Pow2(3) == 8; }
    w.SendBits(2 * kind + if eof then 1 else 0, 3);
  }

  method SendHead(w: Writer, l: Codes, d: Codes, b: Codes, order: seq<nat>, eof: bool, lcodes: nat, dcodes: nat,
                  blcodes: nat, ghost cl: seq<nat>, ghost llens: seq<nat>, ghost dlens: seq<nat>,
                  ghost tokens: seq<Token>)
    requires w.Valid() && Ready(l, d, b, order, cl, blcodes, llens, dlens, tokens) && lcodes == |llens|
    requires dcodes == |dlens|
    modifies w, w.outbuf
    ensures w.Valid()
    ensures w.Stream() == old(w.Stream()) + (KindBits(2, eof) + HeaderBits(order, cl, blcodes, llens, dlens))
  {
    ghost var s := w.Stream();
    SendKind(w, 2, eof);
    SendAllTrees(w, l.dl, d.dl, b.fc, b.dl, lcodes, dcodes, blcodes, order, cl, llens, dlens);
    Assoc(s, KindBits(2, eof), HeaderBits(order, cl, blcodes, llens, dlens));
  }

  method SendDynamic(w: Writer, buf: Buffer, l: Codes, d: Codes, b: Codes, tb: CodeTables, order: seq<nat>, eof: bool,
                     lcodes: nat, dcodes: nat, blcodes: nat, ghost cl: seq<nat>, ghost llens: seq<nat>,
                     ghost dlens: seq<nat>)
    requires w.Valid() && buf.Valid() == true && buf.FlagsSaved() == true && w.outbuf != buf.lBuf
    requires w.outbuf != buf.flagBuf && tb.Right() == true
    requires Ready(l, d, b, order, cl, blcodes, llens, dlens, buf.tokens) == true && lcodes == |llens|
    requires dcodes == |dlens|
    modifies w, w.outbuf
    ensures w.Valid()
    ensures w.Stream() == old(w.Stream()) + (KindBits(2, eof) + DynBits(order, cl, blcodes, llens, dlens, buf.tokens))
  {
    ghost var s := w.Stream();
    SendHead(w, l, d, b, order, eof, lcodes, dcodes, blcodes, cl, llens, dlens, buf.tokens);
    CompressBlock(w, buf, l, d, tb, llens, dlens);
    ghost var k, h, data := KindBits(2, eof), HeaderBits(order, cl, blcodes, llens, dlens),
        DataBits(llens, dlens, buf.tokens);
    Assoc(s, k + h, data);
    Assoc(k, h, data);
  }

  /** The contents of the two fixed trees. */
  ghost predicate FixedTrees(sl: Codes, sd: Codes) {
    && sl.dl == FIXED_LITS && sd.dl == FIXED_DISTS
    && CodesOf(sl.fc, sl.dl, FIXED_LITS) && CodesOf(sd.fc, sd.dl, FIXED_DISTS)
  }

  method SendFixed(w: Writer, buf: Buffer, sl: Codes, sd: Codes, tb: CodeTables, eof: bool)
    requires w.Valid() && buf.Valid() == true && buf.FlagsSaved() == true && w.outbuf != buf.lBuf
    requires w.outbuf != buf.flagBuf && tb.Right() == true && AllOk(buf.tokens)
    requires FixedTrees(sl, sd) == true
    modifies w, w.outbuf
    ensures w.Valid() && w.Stream() == old(w.Stream()) + (KindBits(1, eof) + FixedBits(buf.tokens))
  {
    ghost var s := w.Stream();
    FixedCoded(buf.tokens);
    SendKind(w, 1, eof);
    CompressBlock(w, buf, sl, sd, tb, FIXED_LITS, FIXED_DISTS);
    Assoc(s, KindBits(1, eof), FixedBits(buf.tokens));
  }

  method SendStored(w: Writer, window: array<byte>, start: nat, storedLen: nat, eof: bool, ghost data: seq<byte>)
    requires w.Valid() && window != w.outbuf && start + storedLen <= window.Length
    requires window[start..start + storedLen] == data
    modifies w, w.outbuf
    ensures w.Valid() && w.Stream() == old(w.Stream()) + (KindBits(0, eof) + StoredBody(|old(w.Stream())|, data))
  {
    ghost var s := w.Stream();
    SendKind(w, 0, eof);
    w.CopyBlock(window, start, storedLen, true);
    StoredShapeOf(s, KindBits(0, eof), |s| + 3, storedLen, data);
  }

  lemma StoredShapeOf(s: seq<bool>, k: seq<bool>, off': nat, len: nat, data: seq<byte>)
    requires |k| == 3 && off' == |s| + 3 && len == |data|
    ensures off' == |s + k|
    ensures s + k + ToBits(0, Padding(off')) + LengthWords(len) + BytesToBits(data) == s + (k + StoredBody(|s|, data))
  {
    var a, b, c := ToBits(0, Padding(off')), LengthWords(len), BytesToBits(data);
    Assoc(s + k + a, b, c);
    Assoc(s + k, a, b + c);
    Assoc(s, k, a + (b + c));
  }

  /** compressed_len counts the bits sent after the first skip ones, which are whole bytes. */
  ghost predicate Tallies(len: nat, skip: nat, bits: nat) {
    skip % 8 == 0 && len + skip == bits
  }

  lemma StoredLength(off: nat, data: seq<byte>, eof: bool, len: nat, skip: nat)
    requires Tallies(len, skip, off)
    ensures Tallies((len + 3 + 7) / 8 * 8 + (|data| + 4) * 8, skip, off + |KindBits(0, eof) + StoredBody(off, data)|)
  {
    var pad := Padding(off + 3);
    StoredBits(off, data);
    WholeBytes(off + 3, pad);
    SkipBytes(len + 3 + 7, skip);
  }

  lemma WholeBytes(n: nat, pad: nat)
    requires pad < 8 && (n + pad) % 8 == 0
    ensures (n + 7) / 8 * 8 == n + pad
  {
  }

  lemma SkipBytes(n: nat, skip: nat)
    requires skip % 8 == 0
    ensures n / 8 * 8 + skip == (n + skip) / 8 * 8
  {
  }

  /** flush_block's comparisons pick the best block. */
  lemma Choose(off: nat, data: seq<byte>, fixedBits: seq<bool>, dynBits: seq<bool>, eof: bool, optLenb: nat,
               staticLenb: nat)
    requires staticLenb == LenB(|fixedBits|) && optLenb == if staticLenb <= LenB(|dynBits|) then staticLenb
               else LenB(|dynBits|)
    ensures BestBlock(off, data, fixedBits, dynBits, eof) ==
            if |data| + 4 <= optLenb then KindBits(0, eof) + StoredBody(off, data)
            else if staticLenb == optLenb then KindBits(1, eof) + fixedBits
            else KindBits(2, eof) + dynBits
  {
  }

  /** The data of the block is in the window, unless the block is a long one that began before the window does. */
  ghost predicate AtHand(window: array<byte>, start: int, storedLen: nat, data: seq<byte>)
    reads window
  {
    && |data| == storedLen
    && if start >= 0 then start + storedLen <= window.Length && window[start..start + storedLen] == data
       else storedLen >= 2 * LIT_BUFSIZE
  }

  /** A block never vanishes: when it is to be stored, its data is still at hand, and its length fits in 16 bits. */
  lemma NeverVanishes(tokens: seq<Token>, storedLen: nat, start: int)
    requires AllOk(tokens) && AllNear(tokens) && storedLen == Widths(tokens) && |tokens| < LIT_BUFSIZE
    requires start < 0 ==> storedLen >= 2 * LIT_BUFSIZE
    ensures storedLen + 4 <= LenB(|FixedBits(tokens)|) ==> start >= 0 && storedLen < 65536
  {
    if storedLen + 4 <= LenB(|FixedBits(tokens)|) {
      StoredFits(tokens, storedLen);
    }
  }

  /** The choice in flush_block, and the count of bits sent. */
  method SendBest(w: Writer, buf: Buffer, l: Codes, d: Codes, b: Codes, sl: Codes, sd: Codes, tb: CodeTables,
                  order: seq<nat>, window: array<byte>, start: int, storedLen: nat, eof: bool, lcodes: nat, dcodes: nat,
                  blcodes: nat, optLen: int, staticLen: int, compressedLen: nat, ghost skip: nat, ghost cl: seq<nat>,
                  ghost llens: seq<nat>, ghost dlens: seq<nat>, ghost data: seq<byte>, ghost fixedBits: seq<bool>,
                  ghost dynBits: seq<bool>)
    returns (compressedLen': nat)
    requires w.Valid() && buf.Valid() == true && buf.FlagsSaved() == true && w.outbuf != buf.lBuf
    requires w.outbuf != buf.flagBuf && tb.Right() == true
    requires FixedTrees(sl, sd) == true
    requires Weighed(l, d, b, order, cl, lcodes, dcodes, blcodes, llens, dlens, buf.tokens, optLen, staticLen,
                     fixedBits, dynBits) == true
    requires Tallies(compressedLen, skip, |w.Stream()|) && window != w.outbuf && AtHand(window, start, storedLen, data)
    requires storedLen + 4 <= LenB(|fixedBits|) ==> start >= 0
    modifies w, w.outbuf
    ensures w.Valid() && Tallies(compressedLen', skip, |w.Stream()|)
    ensures w.Stream() == old(w.Stream()) + BestBlock(|old(w.Stream())|, data, fixedBits, dynBits, eof)
  {
    assert Opened(WeighedSeal, 0);
    ghost var off := |w.Stream()|;
    var optLenb, staticLenb := (optLen + 3 + 7) / 8, (staticLen + 3 + 7) / 8;
    if staticLenb <= optLenb {
      optLenb := staticLenb;
    }
    Choose(off, data, fixedBits, dynBits, eof, optLenb, staticLenb);
    if storedLen + 4 <= optLenb && start >= 0 {
      StoredLength(off, data, eof, compressedLen, skip);
      SendStored(w, window, start, storedLen, eof, data);
      compressedLen' := (compressedLen + 3 + 7) / 8 * 8 + (storedLen + 4) * 8;
    } else {
      compressedLen' := SendCoded(w, buf, l, d, b, sl, sd, tb, order, staticLenb == optLenb, eof, lcodes, dcodes,
                                  blcodes, optLen, staticLen, compressedLen, skip,
                                  cl, llens, dlens, fixedBits, dynBits);
    }
  }

  /** The block with fixed or with dynamic codes. */
  method SendCoded(w: Writer, buf: Buffer, l: Codes, d: Codes, b: Codes, sl: Codes, sd: Codes, tb: CodeTables,
                   order: seq<nat>, useFixed: bool, eof: bool, lcodes: nat, dcodes: nat, blcodes: nat, optLen: int,
                   staticLen: int, compressedLen: nat, ghost skip: nat, ghost cl: seq<nat>, ghost llens: seq<nat>,
                   ghost dlens: seq<nat>, ghost fixedBits: seq<bool>, ghost dynBits: seq<bool>)
    returns (compressedLen': nat)
    requires w.Valid() && buf.Valid() == true && buf.FlagsSaved() == true && w.outbuf != buf.lBuf
    requires w.outbuf != buf.flagBuf && tb.Right() == true
    requires FixedTrees(sl, sd) == true && Tallies(compressedLen, skip, |w.Stream()|)
    requires Weighed(l, d, b, order, cl, lcodes, dcodes, blcodes, llens, dlens, buf.tokens, optLen, staticLen,
                     fixedBits, dynBits) == true
    modifies w, w.outbuf
    ensures w.Valid() && Tallies(compressedLen', skip, |w.Stream()|)
    ensures w.Stream() == old(w.Stream()) + if useFixed then KindBits(1, eof) + fixedBits
              else KindBits(2, eof) + dynBits
  {
    assert Opened(WeighedSeal, 0);
    if useFixed {
      SendFixed(w, buf, sl, sd, tb, eof);
      compressedLen' := compressedLen + 3 + staticLen;
    } else {
      SendDynamic(w, buf, l, d, b, tb, order, eof, lcodes, dcodes, blcodes, cl, llens, dlens);
      compressedLen' := compressedLen + 3 + optLen;
    }
  }

  /** Whichever way is chosen, the decoder gets the data back. */
  lemma BestCarries(off: nat, tokens: seq<Token>, hist: seq<byte>, data: seq<byte>, order: seq<nat>, cl: seq<nat>,
                    blcodes: nat, llens: seq<nat>, dlens: seq<nat>, eof: bool, l: Codes, d: Codes, b: Codes,
                    lcodes: nat, dcodes: nat, optLen: int, staticLen: int, fixedBits: seq<bool>, dynBits: seq<bool>)
    requires StandFor(tokens, hist, data) && AllNear(tokens) && |tokens| < LIT_BUFSIZE
    requires order == CL_ORDER
    requires Weighed(l, d, b, order, cl, lcodes, dcodes, blcodes, llens, dlens, tokens, optLen, staticLen, fixedBits,
                     dynBits)
    ensures Carries(off, BestBlock(off, data, fixedBits, dynBits, eof), hist, data, eof)
  {
    assert Opened(WeighedSeal, 0);
    ExpandWidth(hist, tokens);
    var best := if LenB(|fixedBits|) <= LenB(|dynBits|) then LenB(|fixedBits|) else LenB(|dynBits|);
    if |data| + 4 <= best {
      StoredFits(tokens, |data|);
      StoredCarries(off, data, eof, hist);
    } else if LenB(|fixedBits|) == best {
      FixedCoded(tokens);
      FixedCarries(off, tokens, eof, hist, data);
    } else {
      DynamicCarries(off, order, cl, blcodes, llens, dlens, tokens, eof, hist, data);
    }
  }

  lemma WeighedAtHand(l: Codes, d: Codes, b: Codes, order: seq<nat>, cl: seq<nat>, lcodes: nat, dcodes: nat,
                      blcodes: nat, llens: seq<nat>, dlens: seq<nat>, tokens: seq<Token>, optLen: int, staticLen: int,
                      fixedBits: seq<bool>, dynBits: seq<bool>, hist: seq<byte>, data: seq<byte>, storedLen: nat,
                      start: int)
    requires Weighed(l, d, b, order, cl, lcodes, dcodes, blcodes, llens, dlens, tokens, optLen, staticLen, fixedBits,
                     dynBits)
    requires StandFor(tokens, hist, data) && AllNear(tokens) && |tokens| < LIT_BUFSIZE && storedLen == |data|
    requires start < 0 ==> storedLen >= 2 * LIT_BUFSIZE
    ensures storedLen + 4 <= LenB(|fixedBits|) ==> start >= 0
  {
    assert Opened(WeighedSeal, 0);
    ExpandWidth(hist, tokens);
    NeverVanishes(tokens, storedLen, start);
  }

  /** The bits of a block with codes of its own, those that build_tree makes for it. */
  ghost predicate Dynamic(bits: seq<bool>, tokens: seq<Token>) {
    exists cl, blcodes, llens, dlens :: DynamicWith(bits, tokens, cl, blcodes, llens, dlens)
  }

  ghost predicate DynamicWith(bits: seq<bool>, tokens: seq<Token>, cl: seq<nat>, blcodes: nat, llens: seq<nat>,
                              dlens: seq<nat>)
  {
    && HeaderOk(CL_ORDER, cl, blcodes, llens, dlens) && OwnTrees(CL_ORDER, cl, blcodes, llens, dlens, tokens)
    && Decodable(llens) && Decodable(dlens) && AllCoded(llens, dlens, tokens) && HasCode(llens, END_BLOCK)
    && bits == DynBits(CL_ORDER, cl, blcodes, llens, dlens, tokens)
  }

  /** The bits sent are the best block for the tokens: stored, with the fixed codes, or with codes of its own. */
  ghost predicate Chosen(off: nat, enc: seq<bool>, tokens: seq<Token>, data: seq<byte>, eof: bool) {
    forall k: int {:trigger Opened(ChoiceSeal, k)} :: Sealed(k) ==>
      && AllOk(tokens)
      && exists dynBits :: Dynamic(dynBits, tokens) && enc == BestBlock(off, data, FixedBits(tokens), dynBits, eof)
                           && NearShortest(off, |enc|, data, FixedBits(tokens), dynBits)
  }

  lemma WeighedChosen(off: nat, l: Codes, d: Codes, b: Codes, order: seq<nat>, cl: seq<nat>, lcodes: nat, dcodes: nat,
                      blcodes: nat, llens: seq<nat>, dlens: seq<nat>, tokens: seq<Token>, optLen: int, staticLen: int,
                      fixedBits: seq<bool>, dynBits: seq<bool>, data: seq<byte>, eof: bool)
    requires Weighed(l, d, b, order, cl, lcodes, dcodes, blcodes, llens, dlens, tokens, optLen, staticLen, fixedBits,
                     dynBits)
    requires order == CL_ORDER
    ensures Chosen(off, BestBlock(off, data, fixedBits, dynBits, eof), tokens, data, eof)
  {
    WeighedDynamic(l, d, b, order, cl, lcodes, dcodes, blcodes, llens, dlens, tokens, optLen, staticLen, fixedBits,
                   dynBits);
    BestWithinTwoBytes(off, data, fixedBits, dynBits, eof);
    ChosenOf(off, BestBlock(off, data, fixedBits, dynBits, eof), tokens, data, eof, dynBits);
  }

  lemma WeighedDynamic(l: Codes, d: Codes, b: Codes, order: seq<nat>, cl: seq<nat>, lcodes: nat, dcodes: nat,
                       blcodes: nat, llens: seq<nat>, dlens: seq<nat>, tokens: seq<Token>, optLen: int, staticLen: int,
                       fixedBits: seq<bool>, dynBits: seq<bool>)
    requires Weighed(l, d, b, order, cl, lcodes, dcodes, blcodes, llens, dlens, tokens, optLen, staticLen, fixedBits,
                     dynBits)
    requires order == CL_ORDER
    ensures AllOk(tokens) && fixedBits == FixedBits(tokens) && Dynamic(dynBits, tokens)
  {
    assert Opened(WeighedSeal, 0);
    assert DynamicWith(dynBits, tokens, cl, blcodes, llens, dlens);
  }

  lemma ChosenOf(off: nat, enc: seq<bool>, tokens: seq<Token>, data: seq<byte>, eof: bool, dynBits: seq<bool>)
    requires AllOk(tokens) && Dynamic(dynBits, tokens) && enc == BestBlock(off, data, FixedBits(tokens), dynBits, eof)
    requires NearShortest(off, |enc|, data, FixedBits(tokens), dynBits)
    ensures Chosen(off, enc, tokens, data, eof)
  {
  }

  /** The second half of flush_block. */
  method SendPrepared(w: Writer, buf: Buffer, l: Codes, d: Codes, b: Codes, sl: Codes, sd: Codes, tb: CodeTables,
                      order: seq<nat>, window: array<byte>, start: int, storedLen: nat, eof: bool, lcodes: nat,
                      dcodes: nat, blcodes: nat, optLen: int, staticLen: int, compressedLen: nat, ghost skip: nat,
                      ghost cl: seq<nat>, ghost llens: seq<nat>, ghost dlens: seq<nat>, ghost hist: seq<byte>,
                      ghost data: seq<byte>, ghost fixedBits: seq<bool>, ghost dynBits: seq<bool>)
    returns (compressedLen': nat, ghost enc: seq<bool>)
    requires w.Valid() && buf.Valid() == true && buf.FlagsSaved() == true && w.outbuf != buf.lBuf
    requires w.outbuf != buf.flagBuf
    requires ConstantsOk(sl, sd, tb, order) == true
    requires Weighed(l, d, b, order, cl, lcodes, dcodes, blcodes, llens, dlens, buf.tokens, optLen, staticLen,
                     fixedBits, dynBits) == true
    requires Tallies(compressedLen, skip, |w.Stream()|) && window != w.outbuf
    requires AtHand(window, start, storedLen, data) == true
    requires |buf.tokens| < LIT_BUFSIZE
    requires StandFor(buf.tokens, hist, data) == true && AllNear(buf.tokens) == true
    modifies w, w.outbuf
    ensures w.Valid() && Tallies(compressedLen', skip, |w.Stream()|) && w.Stream() == old(w.Stream()) + enc
    ensures Carries(|old(w.Stream())|, enc, hist, data, eof) == true
    ensures Chosen(|old(w.Stream())|, enc, buf.tokens, data, eof) == true
  {
    assert Opened(TablesSeal, 0);
    ghost var s := w.Stream();
    enc := BestBlock(|s|, data, fixedBits, dynBits, eof);
    WeighedAtHand(l, d, b, order, cl, lcodes, dcodes, blcodes, llens, dlens, buf.tokens, optLen, staticLen, fixedBits,
                  dynBits, hist, data, storedLen, start);
    WeighedChosen(|s|, l, d, b, order, cl, lcodes, dcodes, blcodes, llens, dlens, buf.tokens, optLen, staticLen,
                  fixedBits, dynBits, data, eof);
    BestCarries(|s|, buf.tokens, hist, data, order, cl, blcodes, llens, dlens, eof, l, d, b, lcodes, dcodes, optLen,
                staticLen, fixedBits, dynBits);
    compressedLen' := SendBest(w, buf, l, d, b, sl, sd, tb, order, window, start, storedLen, eof, lcodes, dcodes,
                               blcodes, optLen, staticLen, compressedLen, skip,
                               cl, llens, dlens, data, fixedBits, dynBits);
  }

  /** The tables of ct_init are right. */
  ghost predicate ConstantsOk(sl: Codes, sd: Codes, tb: CodeTables, order: seq<nat>) {
    forall k: int {:trigger Opened(TablesSeal, k)} :: Sealed(k) ==>
      FixedTrees(sl, sd) && tb.Right() && OrderRight(order) && order == CL_ORDER
  }

  // ----- the trees of a block -----

  ghost predicate ExtraRight(extraBl: seq<nat>) {
    forall k: int {:trigger Opened(TablesSeal, k)} :: Sealed(k) ==>
    |extraBl| == BL_CODES && forall x :: 0 <= x < BL_CODES ==> extraBl[x] == ClExtra(x)
  }

  lemma Owned(order: seq<nat>, cl: seq<nat>, blcodes: nat, llens: seq<nat>, dlens: seq<nat>, tokens: seq<Token>)
    requires AllOk(tokens) && LengthsFor(llens, LitFreqs(tokens), MAX_BITS)
    requires LengthsFor(dlens, DistFreqs(tokens), MAX_BITS) && ClFor(cl, llens, dlens) && LastUsed(order, cl, blcodes)
    ensures OwnTrees(order, cl, blcodes, llens, dlens, tokens)
  {
  }

  lemma TreesReady(lfc: seq<nat>, ldl: seq<nat>, dfc: seq<nat>, ddl: seq<nat>, bfc: seq<nat>, bdl: seq<nat>,
                   order: seq<nat>, cl: seq<nat>, blcodes: nat, lcodes: nat, dcodes: nat, llens: seq<nat>,
                   dlens: seq<nat>, tokens: seq<Token>, l: Codes, d: Codes, b: Codes)
    requires lcodes == |llens| < |ldl| && dcodes == |dlens| < |ddl|
    requires DataTrees(lfc, ldl, dfc, ddl, llens, dlens, tokens) && OwnTrees(order, cl, blcodes, llens, dlens, tokens)
    requires HeaderOk(order, cl, blcodes, llens, dlens) && CodesOf(bfc, bdl, cl) && BL_CODES <= |bdl|
    requires bdl[..BL_CODES] == cl
    requires l == Codes(lfc, ldl[lcodes := GUARD]) && d == Codes(dfc, ddl[dcodes := GUARD]) && b == Codes(bfc, bdl)
    ensures Ready(l, d, b, order, cl, blcodes, llens, dlens, tokens)
  {
    assert ldl[lcodes := GUARD][..lcodes] == ldl[..lcodes] && ddl[dcodes := GUARD][..dcodes] == ddl[..dcodes];
  }

  lemma TreesShape(lfc: seq<nat>, ldl: seq<nat>, dfc: seq<nat>, ddl: seq<nat>, llens: seq<nat>, dlens: seq<nat>,
                   tokens: seq<Token>)
    requires DataTrees(lfc, ldl, dfc, ddl, llens, dlens, tokens)
    ensures 257 <= |llens| <= L_CODES && 1 <= |dlens| <= D_CODES && Lengths(llens) && Lengths(dlens)
    ensures llens[END_BLOCK] != 0
  {
  }

  /** The frequencies counted are those of the tokens. */
  ghost predicate Counted(lf: seq<nat>, df: seq<nat>, bf: seq<nat>, tokens: seq<Token>) {
    && AllOk(tokens) && |lf| >= L_CODES && |df| >= D_CODES && |bf| >= BL_CODES
    && lf[..L_CODES] == LitFreqs(tokens) && df[..D_CODES] == DistFreqs(tokens) && bf[..BL_CODES] == Rep(BL_CODES, 0)
  }

  method NewTree(n: nat) returns (t: Tree)
    ensures fresh(t.fc) && fresh(t.dl) && t.fc != t.dl && t.fc.Length == t.dl.Length == n
  {
    var fc, dl := new nat[n](_ => 0), new nat[n](_ => 0);
    t := Tree(fc, dl);
  }

  /** One of the loops of init_block. */
  method ZeroFreqs(fc: array<nat>, n: nat)
    requires n <= fc.Length
    modifies fc
    ensures fc[..][..n] == Rep(n, 0)
  {
    var i := 0;
    while i < n
      invariant 0 <= i <= n && forall k :: 0 <= k < i ==> fc[k] == 0
    {
      fc[i] := 0;
      i := i + 1;
    }
  }

  method CountUp(fc: array<nat>, i: nat)
    requires i < fc.Length
    modifies fc
    ensures fc[..] == Bump(old(fc[..]), i)
  {
    fc[i] := fc[i] + 1;
  }

  lemma NothingCounted(lf: seq<nat>, df: seq<nat>, bf: seq<nat>)
    requires |lf| >= L_CODES && |df| >= D_CODES && |bf| >= BL_CODES
    requires lf[..L_CODES] == Rep(L_CODES, 0) && df[..D_CODES] == Rep(D_CODES, 0) && bf[..BL_CODES] == Rep(BL_CODES, 0)
    ensures Counted(lf[END_BLOCK := 1], df, bf, [])
  {
    assert lf[END_BLOCK := 1][..L_CODES] == lf[..L_CODES][END_BLOCK := 1];
  }

  lemma BumpPrefix(f: seq<nat>, x: nat, n: nat)
    requires x < n <= |f|
    ensures Bump(f, x)[..n] == Bump(f[..n], x)
  {
  }

  lemma CountOne(lf: seq<nat>, df: seq<nat>, bf: seq<nat>, tokens: seq<Token>, t: Token)
    requires Counted(lf, df, bf, tokens) && TokenOk(t)
    ensures Counted(Bump(lf, LitSym(t)), if t.Literal? then df else Bump(df, DistCode(t.dist)), bf, tokens + [t])
  {
    FreqsSnoc(tokens, t);
    BumpPrefix(lf, LitSym(t), L_CODES);
    if t.Match? { BumpPrefix(df, DistCode(t.dist), D_CODES); }
  }

  /** A distance is estimated at 5 bits and its extra bits. */
  ghost predicate FivePlus(w: seq<nat>) {
    |w| == D_CODES && forall c :: 0 <= c < D_CODES ==> w[c] == 5 + DistExtra(c)
  }

  /** dyn_ltree, dyn_dtree and bl_tree, and the arrays that build_tree works with. */
  class Trees {
    const lt: Tree
    const dt: Tree
    const bt: Tree
    const heap: array<nat>
    const depth: array<nat>
    const blCount: array<nat>

    /** The arrays are all different. */
    ghost predicate Shape() {
      && Workspace(lt, heap, depth, blCount, L_CODES) && Workspace(dt, heap, depth, blCount, D_CODES)
          && Workspace(bt, heap, depth, blCount, BL_CODES)
      && lt.fc != dt.fc && lt.fc != dt.dl && lt.dl != dt.fc && lt.dl != dt.dl
      && lt.fc != bt.fc && lt.fc != bt.dl && lt.dl != bt.fc && lt.dl != bt.dl
      && dt.fc != bt.fc && dt.fc != bt.dl && dt.dl != bt.fc && dt.dl != bt.dl
    }

    ghost function Arrays(): set<array<nat>> {
      {lt.fc, lt.dl, dt.fc, dt.dl, bt.fc, bt.dl, heap, depth, blCount}
    }

    ghost predicate Counts(tokens: seq<Token>)
      reads lt.fc, dt.fc, bt.fc
    {
      Counted(lt.fc[..], dt.fc[..], bt.fc[..], tokens)
    }

    constructor ()
      ensures Shape() == true && fresh(Arrays()) && Counts([]) == true
    {
      var l := NewTree(HEAP_SIZE);
      var d := NewTree(2 * D_CODES + 1);
      var b := NewTree(2 * BL_CODES + 1);
      lt, dt, bt := l, d, b;
      heap, depth, blCount := new nat[HEAP_SIZE](_ => 0), new nat[HEAP_SIZE](_ => 0), new nat[MAX_BITS + 1](_ => 0);
      new;
      Init();
    }

    /** init_block: nothing is counted yet but the end of the block. */
    method Init()
      requires Shape() == true
      modifies Arrays()
      ensures Counts([]) == true
    {
      ZeroFreqs(lt.fc, L_CODES);
      ZeroFreqs(dt.fc, D_CODES);
      ZeroFreqs(bt.fc, BL_CODES);
      ghost var lf := lt.fc[..];
      lt.fc[END_BLOCK] := 1;
      assert lt.fc[..] == lf[END_BLOCK := 1];
      NothingCounted(lf, dt.fc[..], bt.fc[..]);
    }

    /** The counting part of ct_tally. */
    method Count(tb: CodeTables, dist: nat, lc: byte, ghost t: Token, ghost tokens: seq<Token>)
      requires Shape() == true && Counts(tokens) == true && tb.Right() == true && TokenOk(t) && lc == Lc(t)
      requires if dist == 0 then t.Literal? else t.Match? && t.dist == dist
      modifies lt.fc, dt.fc
      ensures Counts(tokens + [t]) == true
    {
      ghost var lf, df := lt.fc[..], dt.fc[..];
      if dist == 0 {
        CountUp(lt.fc, lc);
        CountOne(lf, df, bt.fc[..], tokens, t);
      } else {
        var code, dcode := tb.lengthCode[lc], DCode(tb.distCode, dist - 1);
        TableLen(tb, t.len, code);
        TableDist(tb, t.dist, dcode);
        CountUp(lt.fc, code + 257);
        CountUp(dt.fc, dcode);
        CountOne(lf, df, bt.fc[..], tokens, t);
      }
    }

    /** ct_tally's estimate of the bits that the distances take. */
    method DistanceBits(tb: CodeTables, ghost tokens: seq<Token>, ghost w: seq<nat>) returns (bits: nat)
      requires Shape() == true && Counts(tokens) == true && tb.Right() == true && FivePlus(w)
      ensures bits == Weighted(DistFreqs(tokens), w, D_CODES)
    {
      bits := 0;
      ghost var f := DistFreqs(tokens);
      var dcode := 0;
      while dcode < D_CODES
        invariant 0 <= dcode <= D_CODES && bits == Weighted(f, w, dcode)
      {
        assert dt.fc[dcode] == dt.fc[..][..D_CODES][dcode];
        bits := bits + dt.fc[dcode] * (5 + tb.extraDbits[dcode]);
        dcode := dcode + 1;
      }
    }

    /** All three trees for the tokens counted. The two totals are the bits of the block's body with dynamic and with
    fixed codes. */
    method Make(sl: Codes, sd: Codes, tb: CodeTables, extraBl: seq<nat>, order: seq<nat>, ghost tokens: seq<Token>)
      returns (l: Codes, d: Codes, b: Codes, lcodes: nat, dcodes: nat, blcodes: nat, optLen: int, staticLen: int,
               ghost cl: seq<nat>, ghost llens: seq<nat>, ghost dlens: seq<nat>)
      requires Shape() == true && Counts(tokens) == true && |tokens| < 65000
      requires ConstantsOk(sl, sd, tb, order) == true && ExtraRight(extraBl) == true
      modifies Arrays()
      ensures Ready(l, d, b, order, cl, blcodes, llens, dlens, tokens) == true && lcodes == |llens| && dcodes == |dlens|
      ensures optLen == |DynBits(order, cl, blcodes, llens, dlens, tokens)| && staticLen == |FixedBits(tokens)|
    {
      assert Opened(TablesSeal, 0);
      ghost var bf := bt.fc[..];
      lcodes, dcodes, optLen, staticLen := BuildData(lt, dt, heap, depth, blCount, tb, sl.dl[..L_CODES], sd.dl, tokens);
      ghost var lfc, ldl, dfc, ddl := lt.fc[..], lt.dl[..], dt.fc[..], dt.dl[..];
      llens, dlens := ldl[..lcodes], ddl[..dcodes];
      assert bt.fc[..] == bf;
      TreesShape(lfc, ldl, dfc, ddl, llens, dlens, tokens);
      blcodes, optLen, cl := BuildBl(lt.dl, dt.dl, bt, heap, depth, blCount, extraBl, order, lcodes, dcodes, optLen,
                                     llens, dlens);
      assert lt.fc[..] == lfc && dt.fc[..] == dfc;
      l, d, b := Codes(lt.fc[..], lt.dl[..]), Codes(dt.fc[..], dt.dl[..]), Codes(bt.fc[..], bt.dl[..]);
      Owned(order, cl, blcodes, llens, dlens, tokens);
      TreesReady(lfc, ldl, dfc, ddl, bt.fc[..], bt.dl[..], order, cl, blcodes, lcodes, dcodes, llens, dlens, tokens,
                 l, d, b);
    }
  }

  // ----- ct_init -----

  const EXTRA_BLBITS: seq<nat> := [0, 0, 0, 0, 0, 0, 0, 0, 0, 0, 0, 0, 0, 0, 0, 0, 2, 3, 7]

  lemma ConstantsRight()
    ensures ExtraRight(EXTRA_BLBITS) && OrderRight(CL_ORDER)
  {
    OrderPermutes();
    forall x | 0 <= x < BL_CODES ensures EXTRA_BLBITS[x] == ClExtra(x) {
      assert x == 0 || x == 1 || x == 2 || x == 3 || x == 4 || x == 5 || x == 6 || x == 7 || x == 8 || x == 9 || x == 10
        || x == 11 || x == 12 || x == 13 || x == 14 || x == 15 || x == 16 || x == 17 || x == 18;
    }
  }

  method InitTables() returns (tb: CodeTables)
    ensures tb.Right()
  {
    var lengthCode, baseLength := InitLengths();
    var distCode, baseDist := InitDists();
    tb := CodeTables(lengthCode, baseLength, distCode, baseDist, LENGTH_EXTRA, DIST_EXTRA);
    forall c | 0 <= c < LENGTH_CODES ensures LENGTH_EXTRA[c] == LengthExtra(c) { LengthExtraRow(c); }
    forall c | 0 <= c < D_CODES ensures DIST_EXTRA[c] == DistExtra(c) { DistExtraRow(c); }
  }

  method InitStatic() returns (sl: Codes, sd: Codes)
    ensures FixedTrees(sl, sd)
  {
    var blCount := new nat[MAX_BITS + 1](_ => 0);
    var slt := NewTree(L_CODES + 2);
    var sdt := NewTree(D_CODES);
    InitStaticLits(slt.fc, slt.dl, blCount);
    InitStaticDists(sdt.fc, sdt.dl);
    FixedLitsComplete();
    FixedDistsDecodable();
    sl, sd := Codes(slt.fc[..], slt.dl[..]), Codes(sdt.fc[..], sdt.dl[..]);
    assert sl.dl[..L_CODES + 2] == FIXED_LITS && sd.dl[..D_CODES] == FIXED_DISTS;
  }
}
