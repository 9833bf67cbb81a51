/** The lazy rule as a property of the tokens and the input alone. */
module LazyRule {
  import opened Bits
  import opened Lz77
  import opened Input
  import opened LM = LongestMatch
  import opened MatchChoice
  import opened Matcher
  import opened Lazy

  /** A match at `at`, and no candidate there has a longer one. */
  ghost predicate Best(data: seq<byte>, at: nat, len: nat, dist: nat) {
    len >= MIN_MATCH && Pending(data, at, len, dist) && NoneLonger(data, at, len, Depth(len - 1))
  }

  /** The best match at `at` is given up for a longer one at the next position. */
  ghost predicate Outdone(data: seq<byte>, at: nat) {
    exists len: nat, dist: nat :: Best(data, at, len, dist) && LongerAt(data, at + 1, len)
  }

  ghost predicate LongerAt(data: seq<byte>, at: nat, len: nat) {
    exists len': nat, dist: nat :: Best(data, at, len', dist) && len' > len
  }

  /** The token is the right one at this place of the input: a literal where no candidate has a match, or where the best
  one is outdone at the next position; otherwise the best match. */
  ghost predicate Ruled(data: seq<byte>, at: nat, t: Token) {
    match t
    case Literal(_) => NoneLonger(data, at, 2, Depth(2)) || Outdone(data, at)
    case Match(len, dist) => Best(data, at, len, dist) && NoneLonger(data, at + 1, len, Depth(len))
  }

  lemma BestGrow(data: seq<byte>, data': seq<byte>, at: nat, len: nat, dist: nat)
    requires Best(data, at, len, dist) && data <= data' && at + MAX_MATCH <= |data|
    ensures Best(data', at, len, dist)
  {
    PendingGrow(data, data', at, len, dist);
    NoneLongerGrow(data, data', at, len, Depth(len - 1));
  }

  /** More input does not change that, when enough bytes were there to see the longest match. */
  lemma RuledGrow(data: seq<byte>, data': seq<byte>, at: nat, t: Token)
    requires Ruled(data, at, t) && data <= data' && at + 1 + MAX_MATCH <= |data|
    ensures Ruled(data', at, t)
  {
    if t.Match? {
      BestGrow(data, data', at, t.len, t.dist);
      NoneLongerGrow(data, data', at + 1, t.len, Depth(t.len));
    } else if NoneLonger(data, at, 2, Depth(2)) {
      NoneLongerGrow(data, data', at, 2, Depth(2));
    } else {
      var len: nat, dist: nat :| Best(data, at, len, dist) && LongerAt(data, at + 1, len);
      var len': nat, dist': nat :| Best(data, at + 1, len', dist') && len' > len;
      BestGrow(data, data', at, len, dist);
      BestGrow(data, data', at + 1, len', dist');
    }
  }

  // ----- one iteration -----

  /** What is known of the byte that waits. */
  ghost predicate Facing(data: seq<byte>, at: int, avail: bool, length: nat, dist: nat) {
    avail ==> at >= 0 && if length >= MIN_MATCH then Best(data, at, length, dist) else NoneLonger(data, at, 2, Depth(2))
  }

  lemma FacingOf(f: Finder, matchLength: nat, avail: bool, dist: nat)
    requires Between(f, matchLength, avail, dist)
    ensures Facing(f.reader.delivered, Emitted(f, avail), avail, matchLength, dist)
    ensures (!avail ==> matchLength == 2) && |f.reader.delivered| == f.base + f.strstart + f.lookahead
  {
    assert Opened(StepSeal, 0);
  }

  /** What an iteration emits keeps to the rule, and enough input was there to see it. */
  ghost predicate StepRuled(data: seq<byte>, at: int, step: Step, eof: bool) {
    !step.Wait? ==>
      && at >= 0 && (eof || at + 1 + MAX_MATCH <= |data|)
      && Ruled(data, at, if step.Lit? then Literal(step.c) else Match(step.len, step.dist))
  }

  lemma StepRules(data: seq<byte>, at: int, at': int, step: Step, avail: bool, length: nat, length': nat, dist: nat,
                  dist': nat, eof: bool)
    requires Facing(data, at, avail, length, dist) && Facing(data, at', step.Lit?, length', dist')
    requires Follows(data, at, step, at') && Lazily(data, at, step, length, length')
    requires !step.Wait? ==> avail && (eof || at + 1 + MAX_MATCH <= |data|)
    ensures StepRuled(data, at, step, eof)
  {
    match step
    case Wait =>
    case Lit(c) =>
      if length >= MIN_MATCH {
        assert Best(data, at, length, dist) && Best(data, at + 1, length', dist') && LongerAt(data, at + 1, length);
      }
    case Pair(len, d) =>
  }

  /** An iteration, with the rule. */
  method NextRuled(f: Finder, matchLength: nat, avail: bool, ghost dist: nat)
    returns (step: Step, matchLength': nat, avail': bool, ghost dist': nat, inLength: int)
    requires Between(f, matchLength, avail, dist) == true && f.lookahead > 0
    requires f.lookahead < MIN_LOOKAHEAD ==> f.eofile
    modifies f`insH, f`hs, f`matchStart, f`strstart, f`lookahead, f.prev, f.head
    ensures Between(f, matchLength', avail', dist') == true
    ensures !step.Wait? ==> inLength == old(Emitted(f, avail)) + 1 - (f.base + f.blockStart)
    ensures Follows(f.reader.delivered, old(Emitted(f, avail)), step, Emitted(f, avail')) == true
    ensures StepRuled(f.reader.delivered, old(Emitted(f, avail)), step, f.eofile) == true
    ensures old(f.lookahead) - MAX_MATCH < f.lookahead < old(f.lookahead)
  {
    ghost var data, at := f.reader.delivered, Emitted(f, avail);
    FacingOf(f, matchLength, avail, dist);
    assert f.eofile || at + 1 + MAX_MATCH <= |data|;
    step, matchLength', avail', dist', inLength := Next(f, matchLength, avail, dist);
    FacingOf(f, matchLength', avail', dist');
    StepRules(data, at, Emitted(f, avail'), step, avail, matchLength, matchLength', dist, dist', f.eofile);
  }
}
