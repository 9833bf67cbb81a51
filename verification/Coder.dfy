/** The block coder as a whole: `ct_init`, `ct_tally` and `flush_block`. */
module Coder {
  import opened Bits
  import opened BitWriter
  import opened Lz77
  import opened Inflate
  import opened Tables
  import opened HuffmanLeaves
  import opened TokenCode
  import opened TokenCost
  import opened TokenBuffer
  import opened BlockData
  import opened BlockHeader
  import opened BlockDecode
  import opened BlockTrees
  import opened StoredBound
  import opened BlockCoder

  ghost function FiveWeights(): (w: seq<nat>)
    ensures FivePlus(w)
  {
    seq(D_CODES, c requires 0 <= c < D_CODES => 5 + DistExtra(c))
  }

  /** ct_tally's guess whether it is profitable to end the block here: every 4096 tokens, few pairs, and less than
  half the input size. */
  ghost predicate GoodPlace(tokens: seq<Token>, inLength: int)
    requires AllOk(tokens)
  {
    && |tokens| % 4096 == 0 && |Dists(tokens)| < |tokens| / 2
    && (8 * |tokens| + Weighted(DistFreqs(tokens), FiveWeights(), D_CODES)) / 8 < inLength / 2
  }

  lemma WholeBytes(len: nat, skip: nat, bits: nat)
    requires Tallies(len, skip, bits)
    ensures Tallies((len + 7) / 8 * 8, skip, bits + Padding(bits))
  {
  }

  /** The end of flush_block: after the last block, the stream is filled up to a whole byte. */
  method AlignEnd(w: Writer, eof: bool, len: nat, ghost skip: nat) returns (len': nat, total: nat)
    requires w.Valid() && Tallies(len, skip, |w.Stream()|)
    modifies w, w.outbuf
    ensures w.Valid() && w.Stream() == old(w.Stream()) + if eof then ToBits(0, Padding(|old(w.Stream())|)) else []
    ensures if eof then w.Stream() == BytesToBits(w.Bytes()) && Tallies(total * 8, skip, |w.Stream()|)
              else Tallies(len', skip, |w.Stream()|) && total == len' / 8
    ensures eof ==> w.biValid == 0
  {
    len' := len;
    assert w.Stream() + [] == w.Stream();
    if eof {
      WholeBytes(len, skip, |w.Stream()|);
      w.Windup();
      len' := len + 7;
    }
    total := len' / 8;
  }

  class BlockEncoder {
    const w: Writer
    const buf: Buffer
    const trees: Trees
    const sl: Codes
    const sd: Codes
    const tb: CodeTables
    const extraBl: seq<nat>
    const order: seq<nat>
    var compressedLen: nat

    /** What never changes. */
    ghost predicate Shape() {
      && trees.Shape() == true && buf.dBuf !in trees.Arrays() && w.outbuf != buf.lBuf && w.outbuf != buf.flagBuf
      && ConstantsOk(sl, sd, tb, order) == true && ExtraRight(extraBl) == true
    }

    ghost predicate Valid()
      reads this, w, buf, buf.lBuf, buf.dBuf, buf.flagBuf, trees.lt.fc, trees.dt.fc, trees.bt.fc
    {
      Shape() == true && w.Valid() && buf.Valid() == true && trees.Counts(buf.tokens) == true
    }

    constructor (w: Writer)
      requires w.Valid()
      ensures Holds(w.Stream(), []) == true && this.w == w && compressedLen == 0
      ensures fresh(buf) && fresh(buf.lBuf) && fresh(buf.dBuf) && fresh(buf.flagBuf) && fresh(trees.Arrays())
    {
      this.w := w;
      buf := new Buffer();
      trees := new Trees();
      var l, d := InitStatic();
      var t := InitTables();
      ConstantsRight();
      sl, sd, tb, extraBl, order, compressedLen := l, d, t, EXTRA_BLBITS, CL_ORDER, 0;
      new;
      assert Valid();
    }

    /** ct_tally: keeps the token t and tells whether the block must be flushed. */
    method Tally(dist: nat, lc: byte, inLength: int, ghost t: Token) returns (flush: bool)
      requires Valid() && buf.lastLit < LIT_BUFSIZE - 1 && TokenOk(t) && lc == Lc(t)
      requires if dist == 0 then t.Literal? else t.Match? && t.dist == dist
      modifies buf, buf.lBuf, buf.dBuf, buf.flagBuf, trees.lt.fc, trees.dt.fc
      ensures Valid() == true && buf.tokens == old(buf.tokens) + [t] && AllOk(buf.tokens)
      ensures flush == (|buf.tokens| == LIT_BUFSIZE - 1 || GoodPlace(buf.tokens, inLength))
    {
      assert Opened(TablesSeal, 0);
      ghost var was := buf.tokens;
      trees.Count(tb, dist, lc, t, was);
      buf.Add(dist, lc, t);
      if buf.lastLit % 4096 == 0 {
        var bits := trees.DistanceBits(tb, buf.tokens, FiveWeights());
        var outLength := (8 * buf.lastLit + bits) / 8;
        if buf.lastDist < buf.lastLit / 2 && outLength < inLength / 2 {
          return true;
        }
      }
      flush := buf.lastLit == LIT_BUFSIZE - 1 || buf.lastDist == DIST_BUFSIZE;
    }

    /** Sends the block of the tokens collected, which stand for data after hist, in the best of the three ways.
    start < 0 tells that not all of the data is in the window any more. */
    method FlushBlock(window: array<byte>, start: int, storedLen: nat, eof: bool, ghost hist: seq<byte>,
                      ghost data: seq<byte>, ghost skip: nat)
      returns (total: nat, ghost enc: seq<bool>)
      requires Valid() == true && Tallies(compressedLen, skip, |w.Stream()|)
      requires StandFor(buf.tokens, hist, data) == true && AllNear(buf.tokens) == true
      requires AtHand(window, start, storedLen, data) == true
      requires window != w.outbuf && window != buf.flagBuf
      modifies this, w, w.outbuf, buf, buf.flagBuf, trees.Arrays()
      ensures Valid() == true && buf.tokens == []
      ensures w.Stream() == old(w.Stream()) + enc + if eof then ToBits(0, Padding(|old(w.Stream()) + enc|)) else []
      ensures Carries(|old(w.Stream())|, enc, hist, data, eof) == true
      ensures Chosen(|old(w.Stream())|, enc, old(buf.tokens), data, eof) == true
      ensures if eof
              then w.biValid == 0 && w.Stream() == BytesToBits(w.Bytes()) && Tallies(total * 8, skip, |w.Stream()|)
              else Tallies(compressedLen, skip, |w.Stream()|) && total == compressedLen / 8
    {
      enc := SendBlock(window, start, storedLen, eof, hist, data, skip);
      total := Align(eof, skip);
    }

    /** The padding behind the last block. */
    method Align(eof: bool, ghost skip: nat) returns (total: nat)
      requires Valid() == true && buf.tokens == [] && Tallies(compressedLen, skip, |w.Stream()|)
      modifies this, w, w.outbuf
      ensures Valid() == true && buf.tokens == []
      ensures w.Stream() == old(w.Stream()) + if eof then ToBits(0, Padding(|old(w.Stream())|)) else []
      ensures if eof
              then w.biValid == 0 && w.Stream() == BytesToBits(w.Bytes()) && Tallies(total * 8, skip, |w.Stream()|)
              else Tallies(compressedLen, skip, |w.Stream()|) && total == compressedLen / 8
    {
      compressedLen, total := AlignEnd(w, eof, compressedLen, skip);
    }

    /** flush_block without the final padding. */
    method SendBlock(window: array<byte>, start: int, storedLen: nat, eof: bool, ghost hist: seq<byte>,
                     ghost data: seq<byte>, ghost skip: nat) returns (ghost enc: seq<bool>)
      requires Valid() == true && Tallies(compressedLen, skip, |w.Stream()|)
      requires StandFor(buf.tokens, hist, data) == true && AllNear(buf.tokens) == true
      requires AtHand(window, start, storedLen, data) == true
      requires window != w.outbuf && window != buf.flagBuf
      modifies this, w, w.outbuf, buf, buf.flagBuf, trees.Arrays()
      ensures Valid() == true && buf.tokens == []
      ensures w.Stream() == old(w.Stream()) + enc && Tallies(compressedLen, skip, |w.Stream()|)
      ensures Carries(|old(w.Stream())|, enc, hist, data, eof) == true
      ensures Chosen(|old(w.Stream())|, enc, old(buf.tokens), data, eof) == true
    {
      enc := SendTokens(window, start, storedLen, eof, hist, data, skip);
      NewBlock();
    }

    /** init_block. */
    method NewBlock()
      requires Shape() == true && w.Valid() && buf.Valid() == true
      modifies buf, trees.Arrays()
      ensures Valid() == true && buf.tokens == []
      ensures w.Stream() == old(w.Stream())
    {
      trees.Init();
      buf.Reset();
    }

    method SendTokens(window: array<byte>, start: int, storedLen: nat, eof: bool, ghost hist: seq<byte>,
                      ghost data: seq<byte>, ghost skip: nat) returns (ghost enc: seq<bool>)
      requires Valid() == true && Tallies(compressedLen, skip, |w.Stream()|)
      requires StandFor(buf.tokens, hist, data) == true && AllNear(buf.tokens) == true
      requires AtHand(window, start, storedLen, data) == true
      requires window != w.outbuf && window != buf.flagBuf
      modifies this, w, w.outbuf, buf.flagBuf, trees.Arrays()
      ensures w.Valid() && buf.Valid() == true && buf.tokens == old(buf.tokens)
      ensures w.Stream() == old(w.Stream()) + enc && Tallies(compressedLen, skip, |w.Stream()|)
      ensures Carries(|old(w.Stream())|, enc, hist, data, eof) == true
      ensures Chosen(|old(w.Stream())|, enc, old(buf.tokens), data, eof) == true
    {
      var l, d, b, lcodes, dcodes, blcodes, optLen, staticLen;
      ghost var cl, llens, dlens, fixedBits, dynBits;
      l, d, b, lcodes, dcodes, blcodes, optLen, staticLen, cl, llens, dlens, fixedBits, dynBits := Prepare();
      compressedLen, enc := SendPrepared(w, buf, l, d, b, sl, sd, tb, order, window, start, storedLen, eof, lcodes,
                                         dcodes, blcodes, optLen, staticLen, compressedLen, skip,
                                         cl, llens, dlens, hist, data, fixedBits, dynBits);
    }

    /** The first half of flush_block: the last flags are saved and the trees are built. */
    method Prepare()
      returns (l: Codes, d: Codes, b: Codes, lcodes: nat, dcodes: nat, blcodes: nat, optLen: int, staticLen: int,
               ghost cl: seq<nat>, ghost llens: seq<nat>, ghost dlens: seq<nat>, ghost fixedBits: seq<bool>,
                   ghost dynBits: seq<bool>)
      requires Valid() == true
      modifies buf.flagBuf, trees.Arrays()
      ensures buf.Valid() == true && buf.FlagsSaved() == true && w.Valid() && w.Stream() == old(w.Stream())
      ensures |buf.tokens| < LIT_BUFSIZE
      ensures Weighed(l, d, b, order, cl, lcodes, dcodes, blcodes, llens, dlens, buf.tokens, optLen, staticLen,
                      fixedBits, dynBits) == true
    {
      buf.Seal();
      l, d, b, lcodes, dcodes, blcodes, optLen, staticLen, cl, llens,
          dlens := trees.Make(sl, sd, tb, extraBl, order, buf.tokens);
      fixedBits, dynBits := FixedBits(buf.tokens), DynBits(order, cl, blcodes, llens, dlens, buf.tokens);
    }

    // ----- as deflate sees it -----

    /** The coder has sent `stream` and holds `tokens`. */
    ghost predicate Holds(stream: seq<bool>, tokens: seq<Token>)
      reads this, w, w.outbuf, buf, buf.lBuf, buf.dBuf, buf.flagBuf, trees.lt.fc, trees.dt.fc, trees.bt.fc
    {
      forall k: int {:trigger Opened(CoderSeal, k)} :: Sealed(k) ==>
        Valid() && w.Stream() == stream && buf.tokens == tokens
    }

    /** One more token. When no flush is called for, there is room for another one. */
    method Collect(dist: nat, lc: byte, inLength: int, ghost t: Token, ghost stream: seq<bool>,
                   ghost tokens: seq<Token>) returns (flush: bool)
      requires Holds(stream, tokens) == true && |tokens| < LIT_BUFSIZE - 1 && TokenOk(t) && lc == Lc(t)
      requires if dist == 0 then t.Literal? else t.Match? && t.dist == dist
      modifies buf, buf.lBuf, buf.dBuf, buf.flagBuf, trees.lt.fc, trees.dt.fc
      ensures Holds(stream, tokens + [t]) == true && AllOk(tokens + [t])
      ensures flush == (|tokens| + 1 == LIT_BUFSIZE - 1 || GoodPlace(tokens + [t], inLength))
    {
      assert Opened(CoderSeal, 0);
      flush := Tally(dist, lc, inLength, t);
      assert w.Stream() == stream;
    }

    /** A block that is not the last one. */
    method SendNext(window: array<byte>, start: int, storedLen: nat, ghost hist: seq<byte>, ghost data: seq<byte>,
                    ghost skip: nat, ghost stream: seq<bool>, ghost tokens: seq<Token>) returns (ghost enc: seq<bool>)
      requires Holds(stream, tokens) == true && Tallies(compressedLen, skip, |stream|)
      requires StandFor(tokens, hist, data) == true && AllNear(tokens) == true
      requires AtHand(window, start, storedLen, data) == true
      requires window != w.outbuf && window != buf.flagBuf
      modifies this, w, w.outbuf, buf, buf.flagBuf, trees.Arrays()
      ensures Holds(stream + enc, []) == true && Tallies(compressedLen, skip, |stream + enc|)
      ensures Carries(|stream|, enc, hist, data, false) == true && Chosen(|stream|, enc, tokens, data, false) == true
    {
      assert Opened(CoderSeal, 0);
      var total;
      total, enc := FlushBlock(window, start, storedLen, false, hist, data, skip);
      assert stream + enc + [] == stream + enc;
    }

    /** The last block: the stream ends on a byte boundary. */
    method SendLast(window: array<byte>, start: int, storedLen: nat, ghost hist: seq<byte>, ghost data: seq<byte>,
                    ghost skip: nat, ghost stream: seq<bool>,
                    ghost tokens: seq<Token>) returns (total: nat, ghost enc: seq<bool>)
      requires Holds(stream, tokens) == true && Tallies(compressedLen, skip, |stream|)
      requires StandFor(tokens, hist, data) == true && AllNear(tokens) == true
      requires AtHand(window, start, storedLen, data) == true
      requires window != w.outbuf && window != buf.flagBuf
      modifies this, w, w.outbuf, buf, buf.flagBuf, trees.Arrays()
      ensures w.Valid() && w.biValid == 0 && w.Stream() == BytesToBits(w.Bytes())
      ensures w.Stream() == stream + enc + ToBits(0, Padding(|stream + enc|)) && Tallies(total * 8, skip, |w.Stream()|)
      ensures Carries(|stream|, enc, hist, data, true) == true && Chosen(|stream|, enc, tokens, data, true) == true
    {
      assert Opened(CoderSeal, 0);
      total, enc := FlushBlock(window, start, storedLen, true, hist, data, skip);
    }
  }
}
