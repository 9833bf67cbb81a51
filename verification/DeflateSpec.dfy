/** What the main loop of `deflate` keeps: how much of the input is in blocks
already sent, in the tokens collected since, and in a match still pending. */
module DeflateSpec {
  import opened Bits
  import opened BitWriter
  import opened Lz77
  import opened TokenCode
  import opened StoredBound
  import opened BlockDecode
  import opened TokenCost
  import opened TokenBuffer
  import opened BlockCoder
  import opened Coder
  import opened LM = LongestMatch
  import opened Lazy
  import opened LazyRule

  /** A block that was sent: its bits, its tokens and the bytes they stand for. */
  datatype Block = Block(enc: seq<bool>, tokens: seq<Token>, data: seq<byte>)

  /** How far compression has come: what the stream held before the first block, the blocks sent, all of the stream,
  the tokens of the next block, and how much of the input is in the blocks and in blocks and tokens. */
  datatype Progress = Progress(pre: seq<bool>, body: seq<bool>, stream: seq<bool>, tokens: seq<Token>, done: nat,
                               covered: nat, blocks: seq<Block>)

  /** The blocks sent and the tokens collected stand for the input up to `covered`. */
  ghost predicate OnTrack(st: Progress, data: seq<byte>) {
    forall k: int {:trigger Opened(TrackSeal, k)} :: Sealed(k) ==>
    Sent(st.stream, st.pre, st.body, data, st.done) && Covers(st.tokens, data, st.done, st.covered)
  }

  lemma OnTrackGrow(st: Progress, data: seq<byte>, data': seq<byte>)
    requires OnTrack(st, data) && data <= data'
    ensures OnTrack(st, data')
  {
    assert Sent(st.stream, st.pre, st.body, data, st.done) && Covers(st.tokens, data, st.done, st.covered)
        by { assert Opened(TrackSeal, 0); }
    SentGrow(st.stream, st.pre, st.body, data, data', st.done);
    CoversGrow(st.tokens, data, data', st.done, st.covered);
  }

  /** The state at the start. */
  lemma OnTrackStart(pre: seq<bool>, data: seq<byte>)
    ensures OnTrack(Progress(pre, [], pre, [], 0, 0, []), data)
  {
    NothingSent(pre, data);
    CoversNothing(data, 0);
  }

  ghost function AfterLiteral(st: Progress, c: byte): Progress {
    st.(tokens := st.tokens + [Literal(c)], covered := st.covered + 1)
  }

  ghost function AfterPair(st: Progress, len: nat, dist: nat): Progress {
    st.(tokens := st.tokens + [Match(len, dist)], covered := st.covered + len)
  }

  ghost function AfterBlock(st: Progress, b: Block): Progress {
    Progress(st.pre, st.body + b.enc, st.stream + b.enc, [], st.covered, st.covered, st.blocks + [b])
  }

  lemma OnTrackLiteral(st: Progress, data: seq<byte>, c: byte)
    requires OnTrack(st, data) && st.covered < |data| && c == data[st.covered]
    ensures OnTrack(AfterLiteral(st, c), data)
  {
    assert Sent(st.stream, st.pre, st.body, data, st.done) && Covers(st.tokens, data, st.done, st.covered)
        by { assert Opened(TrackSeal, 0); }
    CoversLiteral(st.tokens, data, st.done, st.covered, st.covered + 1);
  }

  lemma OnTrackPair(st: Progress, data: seq<byte>, len: nat, dist: nat)
    requires OnTrack(st, data) && Pending(data, st.covered, len, dist)
    ensures OnTrack(AfterPair(st, len, dist), data) && TokenOk(Match(len, dist)) && dist <= MAX_DIST
  {
    assert Sent(st.stream, st.pre, st.body, data, st.done) && Covers(st.tokens, data, st.done, st.covered)
        by { assert Opened(TrackSeal, 0); }
    PendingPair(data, st.covered, len, dist);
    CoversPair(st.tokens, data, st.done, st.covered, len, dist, st.covered + len);
  }

  lemma OnTrackBlock(st: Progress, data: seq<byte>, enc: seq<bool>, b: Block)
    requires OnTrack(st, data) && st.done <= st.covered <= |data| && b.enc == enc
    requires Carries(|st.stream|, enc, data[..st.done], data[st.done..st.covered], false)
    ensures OnTrack(AfterBlock(st, b), data)
  {
    assert Sent(st.stream, st.pre, st.body, data, st.done) by { assert Opened(TrackSeal, 0); }
    SentBlock(st.stream, st.pre, st.body, data, st.done, enc, st.covered, false);
    CoversNothing(data, st.covered);
  }

  /** With the last block, the stream decodes to the whole input. */
  lemma OnTrackLast(st: Progress, data: seq<byte>, enc: seq<bool>)
    requires OnTrack(st, data) && st.done <= st.covered == |data|
    requires Carries(|st.stream|, enc, data[..st.done], data[st.done..st.covered], true)
    ensures Carries(|st.pre|, st.body + enc, [], data, true) && st.stream + enc == st.pre + (st.body + enc)
  {
    assert Sent(st.stream, st.pre, st.body, data, st.done) by { assert Opened(TrackSeal, 0); }
    SentBlock(st.stream, st.pre, st.body, data, st.done, enc, st.covered, true);
    assert data[..st.covered] == data;
  }

  lemma OnTrackTokens(st: Progress, data: seq<byte>)
    requires OnTrack(st, data)
    ensures st.done <= st.covered <= |data| && AllNear(st.tokens)
    ensures StandFor(st.tokens, data[..st.done], data[st.done..st.covered])
  {
    assert Covers(st.tokens, data, st.done, st.covered) by { assert Opened(TrackSeal, 0); }
    CoversBlock(st.tokens, data, st.done, st.covered);
  }

  /** The tokens stand for data[done..covered]. */
  ghost predicate Covers(tokens: seq<Token>, data: seq<byte>, done: nat, covered: nat) {
    forall k: int {:trigger Opened(CoversSeal, k)} :: Sealed(k) ==>
    done <= covered <= |data| && AllNear(tokens) && StandFor(tokens, data[..done], data[done..covered])
  }

  lemma CoversNothing(data: seq<byte>, done: nat)
    requires done <= |data|
    ensures Covers([], data, done, done)
  {
    var none: seq<Token> := [];
    assert data[..done] + data[done..done] == data[..done];
    assert StandFor(none, data[..done], data[done..done]) && AllNear(none);
  }

  /** More input changes nothing. */
  lemma CoversGrow(tokens: seq<Token>, data: seq<byte>, data': seq<byte>, done: nat, covered: nat)
    requires Covers(tokens, data, done, covered) && data <= data'
    ensures Covers(tokens, data', done, covered)
  {
    assert Opened(CoversSeal, 0);
    assert data'[..done] == data[..done] && data'[done..covered] == data[done..covered];
  }

  lemma CoversLiteral(tokens: seq<Token>, data: seq<byte>, done: nat, covered: nat, covered': nat)
    requires Covers(tokens, data, done, covered) && covered < |data| && covered' == covered + 1
    ensures Covers(tokens + [Literal(data[covered])], data, done, covered')
  {
    assert Opened(CoversSeal, 0);
    var hist, t := data[..done], Literal(data[covered]);
    ExpandSnoc(hist, tokens, t);
    assert hist + data[done..covered] + [data[covered]] == hist + data[done..covered'];
  }

  lemma CoversPair(tokens: seq<Token>, data: seq<byte>, done: nat, covered: nat, len: nat, dist: nat, covered': nat)
    requires Covers(tokens, data, done, covered) && Repeats(data, covered, len, dist) && covered' == covered + len
    requires Near(Match(len, dist))
    ensures Covers(tokens + [Match(len, dist)], data, done, covered')
  {
    assert Opened(CoversSeal, 0);
    var hist, t := data[..done], Match(len, dist);
    assert hist + data[done..covered] == data[..covered];
    CopyRepeats(data, covered, len, dist);
    assert Reaches(|hist|, tokens + [t]) && Expand(hist, tokens + [t]) == data[..covered'] by {
      ExpandSnoc(hist, tokens, t);
    }
    assert hist + data[done..covered'] == data[..covered'];
  }

  /** What the block coder asks for. */
  lemma CoversBlock(tokens: seq<Token>, data: seq<byte>, done: nat, covered: nat)
    requires Covers(tokens, data, done, covered)
    ensures done <= covered <= |data| && AllNear(tokens) && StandFor(tokens, data[..done], data[done..covered])
  {
    assert Opened(CoversSeal, 0);
  }

  // ----- where blocks end -----

  /** What ct_tally answers after the last of these tokens. For its guess it takes the block to stand for one byte more
  than the other tokens do. */
  ghost predicate Asks(tokens: seq<Token>) {
    forall k: int {:trigger Opened(AskSeal, k)} :: Sealed(k) ==>
    && tokens != [] && AllOk(tokens)
    && (|tokens| == LIT_BUFSIZE - 1 || GoodPlace(tokens, Widths(tokens[..|tokens| - 1]) + 1))
  }

  ghost predicate Calm(tokens: seq<Token>) {
    forall k: int {:trigger Opened(AskSeal, k)} :: Sealed(k) ==> !Asks(tokens)
  }

  /** It did not ask for the end of the block before the last token. */
  ghost predicate Unasked(tokens: seq<Token>) {
    forall k :: 0 < k < |tokens| ==> !Asks(tokens[..k])
  }

  /** A block at bit `off` of the stream, after hist: its tokens stand for its bytes, it is sent in the best way, and it
  did not go on after ct_tally asked for its end. */
  ghost predicate Made(b: Block, off: nat, hist: seq<byte>, last: bool) {
    forall k: int {:trigger Opened(AskSeal, k)} :: Sealed(k) ==>
    StandFor(b.tokens, hist, b.data) && Chosen(off, b.enc, b.tokens, b.data, last) && Unasked(b.tokens)
  }

  lemma MadeOf(b: Block, off: nat, hist: seq<byte>, last: bool)
    requires StandFor(b.tokens, hist, b.data) && Chosen(off, b.enc, b.tokens, b.data, last) && Unasked(b.tokens)
    ensures Made(b, off, hist, last)
  {
  }

  /** The blocks make up the bits and the bytes, and each ends where ct_tally asked for it. */
  ghost predicate Parted(blocks: seq<Block>, pre: nat, body: seq<bool>, data: seq<byte>)
    decreases |blocks|
  {
    if blocks == [] then body == [] && data == []
    else
      var b := blocks[|blocks| - 1];
      var n, m := |body| - |b.enc|, |data| - |b.data|;
      && n >= 0 && m >= 0 && body[n..] == b.enc && data[m..] == b.data
      && Parted(blocks[..|blocks| - 1], pre, body[..n], data[..m])
      && Made(b, pre + n, data[..m], false) && Asks(b.tokens)
  }

  /** The same with a last block, which ends with the input. */
  ghost predicate Complete(blocks: seq<Block>, last: Block, pre: nat, body: seq<bool>, data: seq<byte>) {
    var n, m := |body| - |last.enc|, |data| - |last.data|;
    && n >= 0 && m >= 0 && body[n..] == last.enc && data[m..] == last.data
    && Parted(blocks, pre, body[..n], data[..m]) && Made(last, pre + n, data[..m], true)
  }

  /** The blocks sent so far, and the tokens of the next one. */
  ghost predicate Parts(st: Progress, data: seq<byte>) {
    forall k: int {:trigger Opened(PartsSeal, k)} :: Sealed(k) ==>
    && st.done <= |data| && |st.stream| == |st.pre| + |st.body|
    && Parted(st.blocks, |st.pre|, st.body, data[..st.done]) && Unasked(st.tokens)
  }

  lemma PartsStart(pre: seq<bool>, data: seq<byte>)
    ensures Parts(Progress(pre, [], pre, [], 0, 0, []), data) && Calm([])
  {
    assert !Asks([]) by { assert Opened(AskSeal, 0); }
    assert Unasked([]) && Parted([], |pre|, [], data[..0]);
  }

  lemma PartsGrow(st: Progress, data: seq<byte>, data': seq<byte>)
    requires Parts(st, data) && data <= data'
    ensures Parts(st, data')
  {
    assert Opened(PartsSeal, 0);
    assert data'[..st.done] == data[..st.done];
  }

  lemma PartsToken(st: Progress, st': Progress, t: Token, data: seq<byte>)
    requires Parts(st, data) && Calm(st.tokens)
    requires st' == st.(tokens := st.tokens + [t], covered := st'.covered)
    ensures Parts(st', data)
  {
    assert Opened(PartsSeal, 0);
    assert !Asks(st.tokens) by { assert Opened(AskSeal, 0); }
    UnaskedToken(st.tokens, t);
  }

  lemma UnaskedToken(tokens: seq<Token>, t: Token)
    requires Unasked(tokens) && !Asks(tokens)
    ensures Unasked(tokens + [t])
  {
    forall k | 0 < k < |tokens + [t]| ensures !Asks((tokens + [t])[..k]) {
      assert (tokens + [t])[..k] == tokens[..k];
      if k == |tokens| { assert tokens[..k] == tokens; }
    }
  }

  /** After a token, ct_tally's answer is the one stated. */
  lemma AsksAfter(tokens: seq<Token>, t: Token, inLength: int)
    requires AllOk(tokens + [t]) && inLength == Widths(tokens) + 1
    ensures if |tokens| + 1 == LIT_BUFSIZE - 1 || GoodPlace(tokens + [t], inLength) then Asks(tokens + [t])
            else Calm(tokens + [t])
  {
    assert Opened(AskSeal, 0);
    assert (tokens + [t])[..|tokens + [t]| - 1] == tokens;
  }

  lemma TokensWide(st: Progress, data: seq<byte>)
    requires OnTrack(st, data)
    ensures Widths(st.tokens) == st.covered - st.done
  {
    OnTrackTokens(st, data);
    ExpandWidth(data[..st.done], st.tokens);
  }

  lemma PartsBlock(st: Progress, data: seq<byte>, b: Block)
    requires Parts(st, data) && st.done <= st.covered <= |data| && b.tokens == st.tokens && Asks(st.tokens)
    requires b.data == data[st.done..st.covered] && StandFor(st.tokens, data[..st.done], b.data)
    requires Chosen(|st.stream|, b.enc, b.tokens, b.data, false)
    ensures Parts(AfterBlock(st, b), data)
  {
    assert Opened(PartsSeal, 0);
    MadeOf(b, |st.stream|, data[..st.done], false);
    PartedMore(st.blocks, |st.pre|, st.body, data[..st.done], b);
    assert data[..st.done] + b.data == data[..st.covered];
  }

  lemma PartedMore(blocks: seq<Block>, pre: nat, body: seq<bool>, data: seq<byte>, b: Block)
    requires Parted(blocks, pre, body, data) && Made(b, pre + |body|, data, false) && Asks(b.tokens)
    ensures Parted(blocks + [b], pre, body + b.enc, data + b.data)
  {
    var all, body', data' := blocks + [b], body + b.enc, data + b.data;
    assert all[..|all| - 1] == blocks && body'[..|body|] == body && data'[..|data|] == data;
    assert body'[|body|..] == b.enc && data'[|data|..] == b.data;
  }

  lemma PartsLast(st: Progress, data: seq<byte>, last: Block)
    requires Parts(st, data) && st.done <= st.covered == |data| && last.tokens == st.tokens
    requires last.data == data[st.done..st.covered] && StandFor(st.tokens, data[..st.done], last.data)
    requires Chosen(|st.stream|, last.enc, last.tokens, last.data, true)
    ensures Complete(st.blocks, last, |st.pre|, st.body + last.enc, data)
  {
    assert Opened(PartsSeal, 0);
    var body := st.body + last.enc;
    assert data[st.done..] == data[st.done..st.covered];
    MadeOf(last, |st.stream|, data[..st.done], true);
    assert body[..|st.body|] == st.body && body[|st.body|..] == last.enc;
  }

  // ----- the blocks sent -----

  /** The stream is pre and then blocks that decode to data[..done]. */
  ghost predicate Sent(stream: seq<bool>, pre: seq<bool>, body: seq<bool>, data: seq<byte>, done: nat) {
    forall k: int {:trigger Opened(SentSeal, k)} :: Sealed(k) ==>
    stream == pre + body && done <= |data| && Carries(|pre|, body, [], data[..done], false)
  }

  lemma NothingSent(pre: seq<bool>, data: seq<byte>)
    ensures Sent(pre, pre, [], data, 0)
  {
    var body: seq<bool>, none: seq<byte> := [], [];
    assert none + data[..0] == none;
    forall rest: seq<bool> | Whole(|pre|, body, rest) ensures DecodesTo(body + rest, none, data[..0], false, rest) {
      assert body + rest == rest;
    }
    assert Carries(|pre|, body, none, data[..0], false);
    assert pre + body == pre;
  }

  lemma SentGrow(stream: seq<bool>, pre: seq<bool>, body: seq<bool>, data: seq<byte>, data': seq<byte>, done: nat)
    requires Sent(stream, pre, body, data, done) && data <= data'
    ensures Sent(stream, pre, body, data', done)
  {
    assert Opened(SentSeal, 0);
    assert data'[..done] == data[..done];
  }

  /** One more block after those sent. */
  lemma CarriesJoin(off: nat, off': nat, a: seq<bool>, b: seq<bool>, hist: seq<byte>, data: seq<byte>, last: bool)
    requires Carries(off, a, [], hist, false) && Carries(off', b, hist, data, last) && off' == off + |a|
    ensures Carries(off, a + b, [], hist + data, last)
  {
    forall rest: seq<bool> | Whole(off, a + b, rest) ensures DecodesTo(a + b + rest, [], hist + data, last, rest) {
      JoinOne(off, off', a, b, hist, data, last, rest);
    }
  }

  lemma {:induction false} JoinOne(off: nat, off': nat, a: seq<bool>, b: seq<bool>, hist: seq<byte>, data: seq<byte>,
                                   last: bool, rest: seq<bool>)
    requires Carries(off, a, [], hist, false) && Carries(off', b, hist, data, last) && off' == off + |a|
    requires Whole(off, a + b, rest)
    ensures DecodesTo(a + b + rest, [], hist + data, last, rest)
  {
    Assoc(a, b, rest);
    assert off + |a + b| + |rest| == off + |a| + |b + rest| == off' + |b| + |rest|;
    assert Whole(off, a, b + rest) && Whole(off', b, rest);
    assert DecodesTo(a + (b + rest), [], hist, false, b + rest);
    assert DecodesTo(b + rest, hist, data, last, rest);
    var none: seq<byte> := [];
    assert none + hist == hist && none + (hist + data) == hist + data;
  }

  lemma SentBlock(stream: seq<bool>, pre: seq<bool>, body: seq<bool>, data: seq<byte>, done: nat, enc: seq<bool>,
                  pos: nat, last: bool)
    requires Sent(stream, pre, body, data, done) && done <= pos <= |data|
    requires Carries(|stream|, enc, data[..done], data[done..pos], last)
    ensures Carries(|pre|, body + enc, [], data[..pos], last) && stream + enc == pre + (body + enc)
    ensures !last ==> Sent(stream + enc, pre, body + enc, data, pos)
  {
    assert Opened(SentSeal, 0);
    CarriesJoin(|pre|, |stream|, body, enc, data[..done], data[done..pos], last);
    assert data[..done] + data[done..pos] == data[..pos];
    Assoc(pre, body, enc);
  }

  // ----- the lazy rule for all tokens -----

  ghost function AllTokens(blocks: seq<Block>): seq<Token> {
    if blocks == [] then [] else AllTokens(blocks[..|blocks| - 1]) + blocks[|blocks| - 1].tokens
  }

  ghost function History(st: Progress): seq<Token> {
    AllTokens(st.blocks) + st.tokens
  }

  /** Every token is the right one at the place where the tokens before it end. */
  ghost predicate AllRuled(tokens: seq<Token>, data: seq<byte>) {
    forall i :: 0 <= i < |tokens| ==> Ruled(data, Widths(tokens[..i]), tokens[i])
  }

  /** Enough input was there to see the longest match. */
  ghost predicate AllSeen(tokens: seq<Token>, data: seq<byte>, eof: bool) {
    eof || forall i :: 0 <= i < |tokens| ==> Widths(tokens[..i]) + 1 + MAX_MATCH <= |data|
  }

  ghost predicate Lawful(st: Progress, data: seq<byte>, eof: bool) {
    forall k: int {:trigger Opened(LawSeal, k)} :: Sealed(k) ==>
    Widths(History(st)) == st.covered && AllRuled(History(st), data) && AllSeen(History(st), data, eof)
  }

  lemma LawfulStart(pre: seq<bool>, data: seq<byte>, eof: bool)
    ensures Lawful(Progress(pre, [], pre, [], 0, 0, []), data, eof)
  {
    var st := Progress(pre, [], pre, [], 0, 0, []);
    assert History(st) == [] && Widths(History(st)) == 0;
    assert AllRuled(History(st), data) && AllSeen(History(st), data, eof);
  }

  lemma AllRuledGrow(tokens: seq<Token>, data: seq<byte>, data': seq<byte>)
    requires AllRuled(tokens, data) && AllSeen(tokens, data, false) && data <= data'
    ensures AllRuled(tokens, data') && AllSeen(tokens, data', false)
  {
    forall i | 0 <= i < |tokens| ensures Ruled(data', Widths(tokens[..i]), tokens[i]) {
      RuledGrow(data, data', Widths(tokens[..i]), tokens[i]);
    }
  }

  lemma LawfulGrow(st: Progress, data: seq<byte>, data': seq<byte>, eof: bool, eof': bool)
    requires Lawful(st, data, eof) && data <= data' && (eof ==> eof' && data' == data)
    ensures Lawful(st, data', eof')
  {
    assert Opened(LawSeal, 0);
    if !eof { AllRuledGrow(History(st), data, data'); }
  }

  lemma AllRuledMore(tokens: seq<Token>, t: Token, data: seq<byte>, eof: bool)
    requires AllRuled(tokens, data) && AllSeen(tokens, data, eof) && Ruled(data, Widths(tokens), t)
    requires eof || Widths(tokens) + 1 + MAX_MATCH <= |data|
    ensures AllRuled(tokens + [t], data) && AllSeen(tokens + [t], data, eof)
    ensures Widths(tokens + [t]) == Widths(tokens) + Width(t)
  {
    var all := tokens + [t];
    forall i | 0 <= i < |all|
      ensures Ruled(data, Widths(all[..i]), all[i]) && (eof || Widths(all[..i]) + 1 + MAX_MATCH <= |data|)
    {
      if i < |tokens| { assert all[..i] == tokens[..i]; } else { assert all[..i] == tokens; }
    }
    assert all[..|all| - 1] == tokens;
  }

  lemma LawfulToken(st: Progress, st': Progress, t: Token, data: seq<byte>, eof: bool)
    requires Lawful(st, data, eof) && Ruled(data, st.covered, t) && (eof || st.covered + 1 + MAX_MATCH <= |data|)
    requires st' == st.(tokens := st.tokens + [t], covered := st.covered + Width(t))
    ensures Lawful(st', data, eof)
  {
    assert Opened(LawSeal, 0);
    AllRuledMore(History(st), t, data, eof);
    assert History(st') == History(st) + [t];
  }

  lemma LawfulBlock(st: Progress, b: Block, data: seq<byte>, eof: bool)
    requires Lawful(st, data, eof) && b.tokens == st.tokens
    ensures Lawful(AfterBlock(st, b), data, eof)
  {
    assert Opened(LawSeal, 0);
    var st' := AfterBlock(st, b);
    assert st'.blocks[..|st'.blocks| - 1] == st.blocks;
    assert History(st') == History(st);
  }

  lemma LawfulLast(st: Progress, data: seq<byte>, eof: bool)
    requires Lawful(st, data, eof)
    ensures AllRuled(AllTokens(st.blocks) + st.tokens, data)
  {
    assert Opened(LawSeal, 0);
  }
}
