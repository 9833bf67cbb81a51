/** `compress_block`: the buffered tokens are sent with two given trees. */
module BlockData {
  import opened Bits
  import opened BitWriter
  import opened HuffmanCode
  import opened Lz77
  import opened Inflate
  import opened Tables
  import opened CodeLengths
  import opened TokenCode
  import opened TokenCost
  import opened TokenBuffer

  /** The contents of a tree: its codes and its code lengths. */
  datatype Codes = Codes(fc: seq<nat>, dl: seq<nat>)

  /** Sends the extra bits of a length code or distance code, if it has any. */
  method SendExtra(w: Writer, value: nat, base: nat, extra: nat, ghost x: nat)
    requires w.Valid() && extra <= 13 && x < Pow2(extra) && (extra > 0 ==> base <= value && value - base == x)
    modifies w, w.outbuf
    ensures w.Valid() && w.Stream() == old(w.Stream()) + ToBits(x, extra)
  {
    if extra != 0 {
      w.SendBits(value - base, extra);
    } else {
      assert w.Stream() + ToBits(x, extra) == w.Stream();
    }
  }

  lemma ExtraBound(len: nat, dist: nat)
    requires MIN_MATCH <= len <= MAX_MATCH && 1 <= dist <= 32768
    ensures LengthExtra(LenCode(len)) <= 13 && DistExtra(DistCode(dist)) <= 13
  {
  }

  /** The first half of a pair: the length. */
  method SendLen(w: Writer, lc: nat, lt: Codes, tb: CodeTables, ghost lits: seq<nat>, ghost len: nat)
    requires w.Valid() && tb.Right() == true && MIN_MATCH <= len <= MAX_MATCH && HasCode(lits, 257 + LenCode(len))
    requires lc == len - MIN_MATCH && CodesOf(lt.fc, lt.dl, lits) == true
    modifies w, w.outbuf
    ensures w.Valid() && w.Stream() == old(w.Stream()) + (CodeBits(lits, 257 + LenCode(len)) + LenRest(len))
  {
    ghost var s := w.Stream();
    ExtraBound(len, 1);
    var code := tb.lengthCode[lc];
    TableLen(tb, len, code);
    SendCode(w, code + 257, lt.fc, lt.dl, lits);
    SendExtra(w, lc, tb.baseLength[code], tb.extraLbits[code], len - LengthBase(code));
    Assoc(s, CodeBits(lits, 257 + code), LenRest(len));
  }

  /** The second half: the distance. */
  method SendDist(w: Writer, dist: nat, dt: Codes, tb: CodeTables, ghost dists: seq<nat>, ghost d: nat)
    requires w.Valid() && tb.Right() == true && 1 <= d <= 32768 && HasCode(dists, DistCode(d))
    requires dist == d - 1 && CodesOf(dt.fc, dt.dl, dists) == true
    modifies w, w.outbuf
    ensures w.Valid() && w.Stream() == old(w.Stream()) + DistBits(dists, d)
  {
    ghost var s := w.Stream();
    ExtraBound(MIN_MATCH, d);
    var dcode := DCode(tb.distCode, dist);
    TableDist(tb, d, dcode);
    SendCode(w, dcode, dt.fc, dt.dl, dists);
    SendExtra(w, dist, tb.baseDist[dcode], tb.extraDbits[dcode], d - DistBase(dcode));
    Assoc(s, CodeBits(dists, dcode), ToBits(d - DistBase(dcode), DistExtra(dcode)));
  }

  method SendPair(w: Writer, lc: nat, dist: nat, lt: Codes, dt: Codes, tb: CodeTables, ghost lits: seq<nat>,
                  ghost dists: seq<nat>, ghost t: Token)
    requires w.Valid() && tb.Right() == true && t.Match? && Coded(lits, dists, t)
    requires lc == t.len - MIN_MATCH && dist == t.dist - 1
    requires CodesOf(lt.fc, lt.dl, lits) == true && CodesOf(dt.fc, dt.dl, dists) == true
    modifies w, w.outbuf
    ensures w.Valid() && w.Stream() == old(w.Stream()) + TokenBits(lits, dists, t)
  {
    ghost var s := w.Stream();
    SendLen(w, lc, lt, tb, lits, t.len);
    SendDist(w, dist, dt, tb, dists, t.dist);
    PairStream(s, CodeBits(lits, 257 + LenCode(t.len)), LenRest(t.len), DistBits(dists, t.dist));
  }

  lemma PairStream(s: seq<bool>, a: seq<bool>, b: seq<bool>, c: seq<bool>)
    ensures s + (a + b) + c == s + (a + (b + c))
  {
    Assoc(s, a + b, c);
    Assoc(a, b, c);
  }

  /** The bits of a block's data: all tokens and the end-of-block symbol. */
  ghost function DataBits(lits: seq<nat>, dists: seq<nat>, tokens: seq<Token>): seq<bool>
    requires AllCoded(lits, dists, tokens) && HasCode(lits, END_BLOCK)
  {
    TokensBits(lits, dists, tokens) + CodeBits(lits, END_BLOCK)
  }

  /** Everything before token lx has been sent. */
  ghost predicate SentUpTo(stream: seq<bool>, s: seq<bool>, lits: seq<nat>, dists: seq<nat>, tokens: seq<Token>,
                           lx: nat) {
    lx <= |tokens| && AllCoded(lits, dists, tokens[..lx]) && stream == s + TokensBits(lits, dists, tokens[..lx])
  }

  lemma TakeOneMore(tokens: seq<Token>, n: nat)
    requires n < |tokens|
    ensures tokens[..n + 1] == tokens[..n] + [tokens[n]]
  {
  }

  lemma SentNext(stream: seq<bool>, s: seq<bool>, lits: seq<nat>, dists: seq<nat>, tokens: seq<Token>, lx: nat)
    requires SentUpTo(stream, s, lits, dists, tokens, lx) && lx < |tokens| && Coded(lits, dists, tokens[lx])
    ensures SentUpTo(stream + TokenBits(lits, dists, tokens[lx]), s, lits, dists, tokens, lx + 1)
  {
    var t, init := tokens[lx], tokens[..lx];
    TakeOneMore(tokens, lx);
    TokensBitsSnoc(lits, dists, init, t);
    Assoc(s, TokensBits(lits, dists, init), TokenBits(lits, dists, t));
  }

  /** The place in the buffers where token lx is read. */
  ghost predicate Cursor(tokens: seq<Token>, lx: nat, dx: nat, fx: nat, flag: nat) {
    lx <= |tokens| && AllOk(tokens) && dx == |Dists(tokens[..lx])| && Loaded(Marks(tokens), lx, fx, flag)
  }

  /** Reads one token from the buffers. */
  method ReadToken(buf: Buffer, lx: nat, dx: nat, fx: nat, flag: nat)
    returns (lc: nat, dist: nat, dx': nat, fx': nat, flag': nat)
    requires buf.Valid() && buf.FlagsSaved() && Cursor(buf.tokens, lx, dx, fx, flag) && lx < buf.lastLit
    ensures Cursor(buf.tokens, lx + 1, dx', fx', flag')
    ensures TokenOk(buf.tokens[lx]) && lc == Lc(buf.tokens[lx])
    ensures if buf.tokens[lx].Match? then dist == buf.tokens[lx].dist else dist == 0
  {
    fx', flag', dx', dist := fx, flag, dx, 0;
    ghost var marks := Marks(buf.tokens);
    if lx % 8 == 0 {
      LoadFlags(marks, buf.flagBuf[..], lx, fx, flag);
      flag' := buf.flagBuf[fx];
      fx' := fx + 1;
    }
    ShiftFlags(marks, lx, fx', flag');
    DistAt(buf.tokens, lx);
    lc := buf.lBuf[lx];
    if flag' % 2 == 1 {
      assert buf.dBuf[dx] == buf.dBuf[..][..buf.lastDist][dx];
      dist := buf.dBuf[dx] + 1;
      dx' := dx + 1;
    }
    flag' := flag' / 2;
  }

  method SendToken(w: Writer, lc: nat, dist: nat, lt: Codes, dt: Codes, tb: CodeTables, ghost lits: seq<nat>,
                   ghost dists: seq<nat>, ghost t: Token)
    requires w.Valid() && tb.Right() == true && Coded(lits, dists, t)
    requires lc == Lc(t) && if t.Match? then dist == t.dist else dist == 0
    requires CodesOf(lt.fc, lt.dl, lits) == true && CodesOf(dt.fc, dt.dl, dists) == true
    modifies w, w.outbuf
    ensures w.Valid() && w.Stream() == old(w.Stream()) + TokenBits(lits, dists, t)
  {
    if dist == 0 {
      SendCode(w, lc, lt.fc, lt.dl, lits);
    } else {
      SendPair(w, lc, dist - 1, lt, dt, tb, lits, dists, t);
    }
  }

  /** Sends the buffered tokens and the end of the block. */
  method CompressBlock(w: Writer, buf: Buffer, lt: Codes, dt: Codes, tb: CodeTables, ghost lits: seq<nat>,
                       ghost dists: seq<nat>)
    requires w.Valid() && buf.Valid() == true && buf.FlagsSaved() == true && w.outbuf != buf.lBuf
    requires w.outbuf != buf.flagBuf
    requires tb.Right() == true && AllCoded(lits, dists, buf.tokens) == true && HasCode(lits, END_BLOCK)
    requires CodesOf(lt.fc, lt.dl, lits) == true && CodesOf(dt.fc, dt.dl, dists) == true
    modifies w, w.outbuf
    ensures w.Valid() && w.Stream() == old(w.Stream()) + DataBits(lits, dists, buf.tokens)
  {
    ghost var s, tokens := w.Stream(), buf.tokens;
    var lx, dx, fx, flag := 0, 0, 0, 0;
    assert tokens[..0] == [] && s + [] == s;
    if buf.lastLit != 0 {
      while lx < buf.lastLit
        invariant w.Valid() && buf.Valid() && buf.FlagsSaved() && lx <= buf.lastLit
        invariant Cursor(tokens, lx, dx, fx, flag) == true
        invariant SentUpTo(w.Stream(), s, lits, dists, tokens, lx) == true
      {
        ghost var was, t := w.Stream(), tokens[lx];
        var lc, dist;
        lc, dist, dx, fx, flag := ReadToken(buf, lx, dx, fx, flag);
        SentNext(was, s, lits, dists, tokens, lx);
        SendToken(w, lc, dist, lt, dt, tb, lits, dists, t);
        lx := lx + 1;
      }
    }
    assert tokens[..lx] == tokens;
    SendCode(w, END_BLOCK, lt.fc, lt.dl, lits);
    Assoc(s, TokensBits(lits, dists, tokens), CodeBits(lits, END_BLOCK));
  }
}
