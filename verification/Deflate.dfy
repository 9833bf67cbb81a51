/** `deflate`: the whole input is turned into blocks. */
module Deflate {
  import opened Bits
  import opened BitWriter
  import opened Lz77
  import opened TokenCode
  import opened TokenBuffer
  import opened BlockDecode
  import opened BlockCoder
  import opened Coder
  import opened Input
  import opened MatchIndex
  import opened LM = LongestMatch
  import opened Window
  import opened Matcher
  import opened Lazy
  import opened LazyRule
  import opened DeflateSpec

  /** No array serves two purposes. */
  ghost predicate Apart(f: Finder, e: BlockEncoder) {
    && f.window != e.w.outbuf && f.window != e.buf.lBuf && f.window != e.buf.flagBuf
    && f.prev !in e.trees.Arrays() && f.head !in e.trees.Arrays() && f.prev != e.buf.dBuf && f.head != e.buf.dBuf
  }

  /** The coder has sent and holds what st says, and that stands for the data up to `covered`. */
  ghost predicate Coding(e: BlockEncoder, st: Progress, data: seq<byte>, eof: bool)
    reads e, e.w, e.w.outbuf, e.buf, e.buf.lBuf, e.buf.dBuf, e.buf.flagBuf, e.trees.lt.fc, e.trees.dt.fc, e.trees.bt.fc
  {
    forall k: int {:trigger Opened(CodingSeal, k)} :: Sealed(k) ==>
    e.Holds(st.stream, st.tokens) == true && Tallies(e.compressedLen, |st.pre|, |st.stream|)
        && OnTrack(st, data) == true && Parts(st, data) == true && Lawful(st, data, eof) == true
  }

  /** Gives the coder what an iteration emits. */
  method Emit(e: BlockEncoder, step: Step, inLength: int, ghost st: Progress, ghost data: seq<byte>, ghost to: int,
              ghost eof: bool) returns (flush: bool, ghost st': Progress)
    requires Coding(e, st, data, eof) && |st.tokens| < LIT_BUFSIZE - 1 && Follows(data, st.covered, step, to) == true
    requires StepRuled(data, st.covered, step, eof) == true
    requires Calm(st.tokens) && (!step.Wait? ==> inLength == st.covered + 1 - st.done)
    modifies e.buf, e.buf.lBuf, e.buf.dBuf, e.buf.flagBuf, e.trees.lt.fc, e.trees.dt.fc
    ensures Coding(e, st', data, eof) && st'.covered == to && st'.done == st.done && st'.pre == st.pre
    ensures (if flush then Asks(st'.tokens) else Calm(st'.tokens)) && (!flush ==> |st'.tokens| < LIT_BUFSIZE - 1)
  {
    assert Opened(CodingSeal, 0);
    flush, st' := false, st;
    match step
    case Wait =>
    case Lit(c) =>
      OnTrackLiteral(st, data, c);
      TokensWide(st, data);
      st' := AfterLiteral(st, c);
      PartsToken(st, st', Literal(c), data);
      LawfulToken(st, st', Literal(c), data, eof);
      flush := e.Collect(0, c, inLength, Literal(c), st.stream, st.tokens);
      AsksAfter(st.tokens, Literal(c), inLength);
    case Pair(len, dist) =>
      OnTrackPair(st, data, len, dist);
      TokensWide(st, data);
      st' := AfterPair(st, len, dist);
      PartsToken(st, st', Match(len, dist), data);
      LawfulToken(st, st', Match(len, dist), data, eof);
      flush := e.Collect(dist, len - MIN_MATCH, inLength, Match(len, dist), st.stream, st.tokens);
      AsksAfter(st.tokens, Match(len, dist), inLength);
  }

  /** The bytes of the current block are in the window, unless it began before the window does: then it is a long one,
  since a slide leaves MAX_DIST bytes before strstart. */
  lemma BlockAtHand(f: Finder, st: Progress, data: seq<byte>, end: nat)
    requires f.Filled() && OnTrack(st, data) && data == f.reader.delivered && f.strstart - 1 <= end <= f.strstart
    requires st.covered == f.base + end && f.base + f.blockStart == st.done
    ensures st.done <= st.covered <= |data| && end - f.blockStart == st.covered - st.done
    ensures AllNear(st.tokens) && StandFor(st.tokens, data[..st.done], data[st.done..st.covered])
    ensures AtHand(f.window, f.blockStart, end - f.blockStart, data[st.done..st.covered])
  {
    OnTrackTokens(st, data);
    if f.blockStart >= 0 { WindowBlock(f.window[..], data, f.base, f.valid, f.blockStart, end, st.done, st.covered); }
  }

  /** FLUSH_BLOCK(0): a block of everything up to end. */
  method Flush(f: Finder, e: BlockEncoder, end: nat, ghost st: Progress, ghost data: seq<byte>, ghost eof: bool)
    returns (ghost st': Progress)
    requires Apart(f, e) && f.Filled() && Coding(e, st, data, eof) && data == f.reader.delivered
    requires f.strstart - 1 <= end <= f.strstart
    requires st.covered == f.base + end && f.base + f.blockStart == st.done && Asks(st.tokens)
    modifies e, e.w, e.w.outbuf, e.buf, e.buf.flagBuf, e.trees.Arrays()
    ensures Coding(e, st', data, eof) && st'.tokens == [] && Calm([]) && st'.covered == st.covered == st'.done
    ensures st'.pre == st.pre
  {
    assert Opened(CodingSeal, 0);
    BlockAtHand(f, st, data, end);
    ghost var enc := e.SendNext(f.window, f.blockStart, end - f.blockStart, data[..st.done],
                                data[st.done..st.covered], |st.pre|, st.stream, st.tokens);
    ghost var b := Block(enc, st.tokens, data[st.done..st.covered]);
    OnTrackBlock(st, data, enc, b);
    PartsBlock(st, data, b);
    LawfulBlock(st, b, data, eof);
    PartsStart([], data);
    st' := AfterBlock(st, b);
  }

  /** One iteration: what the matcher emits goes to the coder. */
  method Advance(f: Finder, e: BlockEncoder, matchLength: nat, avail: bool, ghost dist: nat, ghost st: Progress)
    returns (flush: bool, matchLength': nat, avail': bool, ghost dist': nat, ghost st': Progress)
    requires Apart(f, e) && Between(f, matchLength, avail, dist) == true && f.lookahead > 0
    requires f.lookahead < MIN_LOOKAHEAD ==> f.eofile
    requires Coding(e, st, f.reader.delivered, f.eofile) && st.covered == Emitted(f, avail)
    requires |st.tokens| < LIT_BUFSIZE - 1 && f.base + f.blockStart == st.done && Calm(st.tokens)
    modifies f`insH, f`hs, f`matchStart, f`strstart, f`lookahead, f.prev, f.head
    modifies e.buf, e.buf.lBuf, e.buf.dBuf, e.buf.flagBuf, e.trees.lt.fc, e.trees.dt.fc
    ensures Between(f, matchLength', avail', dist') == true
    ensures old(f.lookahead) - MAX_MATCH < f.lookahead < old(f.lookahead)
    ensures Coding(e, st', f.reader.delivered, f.eofile) && st'.covered == Emitted(f, avail') && st'.done == st.done
    ensures st'.pre == st.pre
    ensures (if flush then Asks(st'.tokens) else Calm(st'.tokens)) && (!flush ==> |st'.tokens| < LIT_BUFSIZE - 1)
  {
    ghost var data := f.reader.delivered;
    var step, inLength;
    step, matchLength', avail', dist', inLength := NextRuled(f, matchLength, avail, dist);
    flush, st' := Emit(e, step, inLength, st, data, Emitted(f, avail'), f.eofile);
  }

  /** FLUSH_BLOCK(0), block_start = strstart: the block ends where the emitted input does. */
  method EndBlock(f: Finder, e: BlockEncoder, matchLength: nat, avail: bool, ghost dist: nat, ghost st: Progress)
    returns (ghost st': Progress)
    requires Apart(f, e) && Between(f, matchLength, avail, dist) == true
    requires Coding(e, st, f.reader.delivered, f.eofile) && st.covered == Emitted(f, avail)
    requires f.base + f.blockStart == st.done && Asks(st.tokens)
    modifies f`blockStart, e, e.w, e.w.outbuf, e.buf, e.buf.flagBuf, e.trees.Arrays()
    ensures Between(f, matchLength, avail, dist) == true && f.lookahead == old(f.lookahead)
    ensures Coding(e, st', f.reader.delivered, f.eofile) && st'.covered == st.covered
    ensures f.base + f.blockStart == st'.done && st'.tokens == [] && Calm([]) && st'.pre == st.pre
  {
    var end := BlockEnd(f, matchLength, avail, dist);
    st' := Flush(f, e, end, st, f.reader.delivered, f.eofile);
    NewBlock(f, matchLength, avail, dist, end);
  }

  /** Where the emitted input ends in the window. */
  method BlockEnd(f: Finder, matchLength: nat, avail: bool, ghost dist: nat) returns (end: nat)
    requires Between(f, matchLength, avail, dist) == true
    ensures f.Filled() && f.strstart - 1 <= end <= f.strstart && f.base + end == Emitted(f, avail)
  {
    assert Opened(StepSeal, 0);
    end := if avail then f.strstart - 1 else f.strstart;
  }

  method NewBlock(f: Finder, matchLength: nat, avail: bool, ghost dist: nat, end: nat)
    requires Between(f, matchLength, avail, dist) == true && end <= f.strstart
    modifies f`blockStart
    ensures Between(f, matchLength, avail, dist) == true && f.blockStart == end
  {
    assert Opened(StepSeal, 0);
    f.blockStart := end;
  }

  /** What holds before and after every iteration. */
  ghost predicate Good(f: Finder, e: BlockEncoder, matchLength: nat, avail: bool, dist: nat, st: Progress)
    reads f, f.window, f.prev, f.head, f.reader
    reads e, e.w, e.w.outbuf, e.buf, e.buf.lBuf, e.buf.dBuf, e.buf.flagBuf, e.trees.lt.fc, e.trees.dt.fc, e.trees.bt.fc
  {
    forall k: int {:trigger Opened(LoopSeal, k)} :: Sealed(k) ==>
    && Apart(f, e) && Between(f, matchLength, avail, dist) && Coding(e, st, f.reader.delivered, f.eofile)
    && st.covered == Emitted(f, avail) && f.base + f.blockStart == st.done
    && |st.tokens| < LIT_BUFSIZE - 1 && Calm(st.tokens)
  }

  /** More input, while the coder waits. */
  method ReadOn(f: Finder, e: BlockEncoder, matchLength: nat, avail: bool, ghost dist: nat, ghost st: Progress)
    requires Good(f, e, matchLength, avail, dist, st) == true && (f.eofile || f.lookahead >= 2)
    modifies f, f.window, f.prev, f.head, f.reader
    ensures Good(f, e, matchLength, avail, dist, st) == true && (f.lookahead < MIN_LOOKAHEAD ==> f.eofile)
    ensures |f.reader.rest| + f.lookahead == |old(f.reader.rest)| + old(f.lookahead)
  {
    assert Opened(LoopSeal, 0);
    assert Opened(CodingSeal, 0);
    ghost var data, eof := f.reader.delivered, f.eofile;
    Refill(f, matchLength, avail, dist);
    OnTrackGrow(st, data, f.reader.delivered);
    PartsGrow(st, data, f.reader.delivered);
    LawfulGrow(st, data, f.reader.delivered, eof, f.eofile);
  }

  /** The body of the loop of deflate. */
  method Iterate(f: Finder, e: BlockEncoder, matchLength: nat, avail: bool, ghost dist: nat, ghost st: Progress)
    returns (matchLength': nat, avail': bool, ghost dist': nat, ghost st': Progress)
    requires Good(f, e, matchLength, avail, dist, st) == true && f.lookahead > 0
    requires f.lookahead < MIN_LOOKAHEAD ==> f.eofile
    modifies f, f.window, f.prev, f.head, f.reader
    modifies e, e.w, e.w.outbuf, e.buf, e.buf.lBuf, e.buf.dBuf, e.buf.flagBuf, e.trees.Arrays()
    ensures Good(f, e, matchLength', avail', dist', st') == true && st'.pre == st.pre
    ensures f.lookahead < MIN_LOOKAHEAD ==> f.eofile
    ensures |f.reader.rest| + f.lookahead < |old(f.reader.rest)| + old(f.lookahead)
  {
    matchLength', avail', dist', st' := AdvanceBlock(f, e, matchLength, avail, dist, st);
    ReadOn(f, e, matchLength', avail', dist', st');
  }

  /** An iteration without the reading. */
  method AdvanceBlock(f: Finder, e: BlockEncoder, matchLength: nat, avail: bool, ghost dist: nat, ghost st: Progress)
    returns (matchLength': nat, avail': bool, ghost dist': nat, ghost st': Progress)
    requires Good(f, e, matchLength, avail, dist, st) == true && f.lookahead > 0
    requires f.lookahead < MIN_LOOKAHEAD ==> f.eofile
    modifies f`insH, f`hs, f`matchStart, f`strstart, f`lookahead, f`blockStart, f.prev, f.head
    modifies e, e.w, e.w.outbuf, e.buf, e.buf.lBuf, e.buf.dBuf, e.buf.flagBuf, e.trees.Arrays()
    ensures Good(f, e, matchLength', avail', dist', st') == true && st'.pre == st.pre
    ensures old(f.lookahead) - MAX_MATCH < f.lookahead < old(f.lookahead)
  {
    assert Opened(LoopSeal, 0);
    var flush;
    flush, matchLength', avail', dist', st' := Advance(f, e, matchLength, avail, dist, st);
    st' := EndIf(flush, f, e, matchLength', avail', dist', st');
  }

  /** The block ends if ct_tally asked for it. */
  method EndIf(flush: bool, f: Finder, e: BlockEncoder, matchLength: nat, avail: bool, ghost dist: nat,
               ghost st: Progress) returns (ghost st': Progress)
    requires Apart(f, e) && Between(f, matchLength, avail, dist) == true
    requires Coding(e, st, f.reader.delivered, f.eofile)
    requires st.covered == Emitted(f, avail) && f.base + f.blockStart == st.done
    requires if flush then Asks(st.tokens) else |st.tokens| < LIT_BUFSIZE - 1 && Calm(st.tokens)
    modifies f`blockStart, e, e.w, e.w.outbuf, e.buf, e.buf.flagBuf, e.trees.Arrays()
    ensures Good(f, e, matchLength, avail, dist, st') == true && f.lookahead == old(f.lookahead) && st'.pre == st.pre
  {
    st' := st;
    if flush {
      st' := EndBlock(f, e, matchLength, avail, dist, st);
    }
    assert st'.covered == Emitted(f, avail) && Calm(st'.tokens) && Between(f, matchLength, avail, dist);
    assert Coding(e, st', f.reader.delivered, f.eofile);
  }

  /** The loop of deflate: everything the reader delivers is in blocks or tokens, or waits as one literal. */
  method Compress(f: Finder, e: BlockEncoder, ghost pre: seq<bool>)
    returns (matchLength: nat, avail: bool, ghost dist: nat, ghost st: Progress)
    requires Apart(f, e) && f.Filled() && (f.lookahead > 0 ==> f.Ready()) && (f.lookahead < MIN_LOOKAHEAD ==> f.eofile)
    requires f.base == 0 && f.strstart == 0 && f.blockStart == 0 && e.Holds(pre, []) == true
    requires Tallies(e.compressedLen, |pre|, |pre|)
    modifies f, f.window, f.prev, f.head, f.reader
    modifies e, e.w, e.w.outbuf, e.buf, e.buf.lBuf, e.buf.dBuf, e.buf.flagBuf, e.trees.Arrays()
    ensures f.lookahead == 0 && f.eofile && Good(f, e, matchLength, avail, dist, st) == true && st.pre == pre
  {
    matchLength, avail, dist := 2, false, 0;
    st := Progress(pre, [], pre, [], 0, 0, []);
    OnTrackStart(pre, f.reader.delivered);
    PartsStart(pre, f.reader.delivered);
    LawfulStart(pre, f.reader.delivered, f.eofile);
    assert f.Filled() && (f.lookahead > 0 ==> f.Ready());
    assert Between(f, matchLength, avail, dist) && Coding(e, st, f.reader.delivered, f.eofile);
    assert st.covered == Emitted(f, avail);
    while f.lookahead != 0
      invariant Good(f, e, matchLength, avail, dist, st) == true && st.pre == pre
      invariant f.lookahead < MIN_LOOKAHEAD ==> f.eofile
      decreases |f.reader.rest| + f.lookahead
    {
      matchLength, avail, dist, st := Iterate(f, e, matchLength, avail, dist, st);
    }
  }

  /** The end of deflate: the byte that waits, and FLUSH_BLOCK(1). Then the stream, after pre, decodes to all input
  delivered. */
  method Finish(f: Finder, e: BlockEncoder, matchLength: nat, avail: bool, ghost dist: nat, ghost st: Progress)
    returns (total: nat, ghost body: seq<bool>, ghost blocks: seq<Block>, ghost last: Block)
    requires Good(f, e, matchLength, avail, dist, st) == true && f.lookahead == 0 && f.eofile
    modifies e, e.w, e.w.outbuf, e.buf, e.buf.lBuf, e.buf.dBuf, e.buf.flagBuf, e.trees.Arrays()
    ensures Ended(e.w, st.pre, body, f.reader.delivered) == true && f.reader.Valid()
    ensures Complete(blocks, last, |st.pre|, body, f.reader.delivered) == true
    ensures AllRuled(AllTokens(blocks) + last.tokens, f.reader.delivered) == true
    ensures Stopped(f.reader.file, f.reader.chunks, f.reader.delivered) == true
  {
    assert Opened(LoopSeal, 0);
    assert Opened(StepSeal, 0);
    ghost var data, st' := f.reader.delivered, st;
    if avail {
      WindowByte(f.window[..], data, f.base, f.valid, f.strstart - 1, f.base + f.strstart - 1);
      var flush;
      FacingOf(f, matchLength, avail, dist);
      flush, st' := Emit(e, Lit(f.window[f.strstart - 1]), f.strstart - f.blockStart, st, data, f.base + f.strstart,
                         f.eofile);
    }
    blocks := st'.blocks;
    total, body, last := LastBlock(f, e, st', data, f.eofile);
  }

  /** The stream is pre, then blocks that decode to the data, then less than a byte of padding. */
  ghost predicate Ended(w: Writer, pre: seq<bool>, body: seq<bool>, data: seq<byte>)
    reads w, w.outbuf
  {
    && w.Valid() && w.biValid == 0 && w.Stream() == BytesToBits(w.Bytes())
    && w.Stream() == pre + body + ToBits(0, Padding(|pre + body|)) && Carries(|pre|, body, [], data, true)
  }

  method LastBlock(f: Finder, e: BlockEncoder, ghost st: Progress, ghost data: seq<byte>, ghost eof: bool)
    returns (total: nat, ghost body: seq<bool>, ghost last: Block)
    requires Apart(f, e) && f.Filled() && f.lookahead == 0 && Coding(e, st, data, eof) && data == f.reader.delivered
    requires st.covered == f.base + f.strstart && f.base + f.blockStart == st.done
    modifies e, e.w, e.w.outbuf, e.buf, e.buf.flagBuf, e.trees.Arrays()
    ensures Ended(e.w, st.pre, body, data) == true && Complete(st.blocks, last, |st.pre|, body, data) == true
    ensures AllRuled(AllTokens(st.blocks) + last.tokens, data) == true
  {
    assert Opened(CodingSeal, 0);
    BlockAtHand(f, st, data, f.strstart);
    ghost var enc;
    total, enc := e.SendLast(f.window, f.blockStart, f.strstart - f.blockStart, data[..st.done],
                             data[st.done..st.covered], |st.pre|, st.stream, st.tokens);
    OnTrackLast(st, data, enc);
    body, last := st.body + enc, Block(enc, st.tokens, data[st.done..st.covered]);
    PartsLast(st, data, last);
    LawfulLast(st, data, eof);
  }

  /** deflate: the stream, after pre, becomes blocks that decode to everything the reader has delivered, up to the end
  of the file or the first read that failed. Every block but the last ends after the first token at which ct_tally asks
  for it, all are sent in the best way, and all tokens keep to the lazy rule. */
  method DeflateAll(f: Finder, e: BlockEncoder, ghost pre: seq<bool>)
    returns (total: nat, ghost body: seq<bool>, ghost blocks: seq<Block>, ghost last: Block)
    requires Apart(f, e) && f.Filled() && (f.lookahead > 0 ==> f.Ready()) && (f.lookahead < MIN_LOOKAHEAD ==> f.eofile)
    requires f.base == 0 && f.strstart == 0 && f.blockStart == 0 && e.Holds(pre, []) == true
    requires Tallies(e.compressedLen, |pre|, |pre|)
    modifies f, f.window, f.prev, f.head, f.reader
    modifies e, e.w, e.w.outbuf, e.buf, e.buf.lBuf, e.buf.dBuf, e.buf.flagBuf, e.trees.Arrays()
    ensures Ended(e.w, pre, body, f.reader.delivered) == true && f.reader.Valid()
    ensures Complete(blocks, last, |pre|, body, f.reader.delivered) == true
    ensures AllRuled(AllTokens(blocks) + last.tokens, f.reader.delivered) == true
    ensures Stopped(f.reader.file, f.reader.chunks, f.reader.delivered) == true
  {
    var matchLength, avail;
    ghost var dist, st;
    matchLength, avail, dist, st := Compress(f, e, pre);
    total, body, blocks, last := Finish(f, e, matchLength, avail, dist, st);
  }
}
