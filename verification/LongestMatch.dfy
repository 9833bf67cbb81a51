/** `longest_match`: following one hash chain finds what a search of the whole window would find. */
module LongestMatch {
  import opened Bits
  import opened Lz77
  import opened MatchHash
  import opened MatchIndex

  const MIN_LOOKAHEAD := MAX_MATCH + MIN_MATCH + 1
  const MAX_DIST := WSIZE - MIN_LOOKAHEAD
  const MAX_CHAIN_LENGTH := 4096
  const GOOD_MATCH := 32
  const NICE_MATCH := 258

  /** The match at p is longer than b. */
  ghost predicate Beats(win: seq<byte>, p: nat, s: nat, b: nat) {
    Same(win, p, s, b + 1)
  }

  lemma BeatsLess(win: seq<byte>, p: nat, s: nat, b: nat, b': nat)
    requires b <= b' && Beats(win, p, s, b')
    ensures Beats(win, p, s, b)
  {
  }

  /** One round of up to eight comparisons, stopping at the first difference. */
  method CompareEight(window: array<byte>, p: nat, s: nat, k0: nat) returns (k: nat, equal: bool)
    requires p < s && s + k0 + 8 < window.Length && Same(window[..], p, s, k0 + 1)
    ensures k0 < k <= k0 + 8 && (equal ==> k == k0 + 8)
    ensures Same(window[..], p, s, k) && equal == Same(window[..], p, s, k + 1)
  {
    k, equal := k0, true;
    while k < k0 + 8 && equal
      invariant k0 <= k <= k0 + 8 && (equal ==> Same(window[..], p, s, k + 1))
      invariant !equal ==> k0 < k && Same(window[..], p, s, k) && window[p + k] != window[s + k]
      decreases k0 + 8 - k, equal
    {
      k := k + 1;
      equal := window[s + k] == window[p + k];
    }
    if !equal {
      assert window[..][p + k] != window[..][p + k - p + s];
    }
  }

  /** The length of the match at p, of which the first three bytes are known to agree. */
  method Compare(window: array<byte>, p: nat, s: nat) returns (len: nat)
    requires p < s && s + MAX_MATCH < window.Length && Same(window[..], p, s, MIN_MATCH)
    ensures MIN_MATCH <= len <= MAX_MATCH && Same(window[..], p, s, len)
    ensures len < MAX_MATCH ==> !Beats(window[..], p, s, len)
  {
    len := 2;
    var equal := true;
    ghost var round := 0;
    while true
      invariant len == 2 + 8 * round && round < 32 && Same(window[..], p, s, len + 1)
      decreases 32 - round
    {
      len, equal := CompareEight(window, p, s, len);
      round := round + 1;
      if !equal || len >= MAX_MATCH {
        break;
      }
    }
  }

  /** Where the search stops: matches may not reach further back. */
  function Limit(s: nat): nat {
    if s > MAX_DIST then s - MAX_DIST else NIL
  }

  /** A match of length len at m, the nearest of that length. */
  ghost predicate Found(win: seq<byte>, s: nat, m: nat, len: nat) {
    && 1 <= m < s && s - m <= MAX_DIST && len <= MAX_MATCH && Same(win, m, s, len)
    && forall r: nat :: m < r < s ==> !Same(win, r, s, len)
  }

  /** How many positions of a chain are tried, when there is already a match of length least. */
  function Depth(least: nat): nat {
    if least >= GOOD_MATCH then MAX_CHAIN_LENGTH / 4 else MAX_CHAIN_LENGTH
  }

  /** How many positions from lo on, and before s, have the hash of s. */
  ghost function OnChain(hs: seq<nat>, s: nat, lo: nat): nat
    requires s < |hs|
    decreases s - lo
  {
    if lo >= s then 0 else (if hs[lo] == hs[s] then 1 else 0) + OnChain(hs, s, lo + 1)
  }

  lemma {:induction false} OnChainLess(hs: seq<nat>, s: nat, lo: nat, hi: nat)
    requires s < |hs| && lo <= hi
    ensures OnChain(hs, s, hi) <= OnChain(hs, s, lo)
    decreases hi - lo
  {
    if lo < hi { OnChainLess(hs, s, lo + 1, hi); }
  }

  lemma {:induction false} OnChainSkip(hs: seq<nat>, s: nat, lo: nat, hi: nat)
    requires s < |hs| && lo <= hi <= s && forall r :: lo <= r < hi ==> hs[r] != hs[s]
    ensures OnChain(hs, s, lo) == OnChain(hs, s, hi)
    decreases hi - lo
  {
    if lo < hi { OnChainSkip(hs, s, lo + 1, hi); }
  }

  /** All positions after cur have been tried, or cannot match at all; `left` more may be tried. */
  ghost predicate Searched(win: seq<byte>, hs: seq<nat>, s: nat, cur: nat, left: nat, best: nat, least: nat, m: nat,
                           m0: nat)
  {
    && 2 <= least <= best < MAX_MATCH && s < |hs| && OnChain(hs, s, cur + 1) + left == Depth(least)
    && (forall r: nat :: cur < r < s ==> !Beats(win, r, s, best))
    && if best > least then Found(win, s, m, best) && cur <= m && OnChain(hs, s, m + 1) < Depth(least) else m == m0
  }

  /** r is in reach, and among the positions of its chain that are tried. */
  ghost predicate Tried(hs: seq<nat>, s: nat, r: nat, least: nat)
    requires s < |hs|
  {
    Limit(s) < r < s && OnChain(hs, s, r + 1) < Depth(least)
  }

  /** What the search promises when it ends: an improvement is a genuine match among those tried, the nearest of its
  length, and none of those tried is longer. */
  ghost predicate SearchDone(win: seq<byte>, hs: seq<nat>, s: nat, best: nat, least: nat, m: nat, m0: nat) {
    forall k: int {:trigger Opened(LoopSeal, k)} :: Sealed(k) ==>
    && least <= best <= MAX_MATCH && s < |hs|
    && (if best > least then Found(win, s, m, best) && OnChain(hs, s, m + 1) < Depth(least) else m == m0)
    && (best < MAX_MATCH ==> forall r: nat :: Tried(hs, s, r, least) ==> !Beats(win, r, s, best))
  }

  /** The index as longest_match sees it: the current string at s is in it, and its chain goes on at `first`. */
  ghost predicate Indexed(win: seq<byte>, hs: seq<nat>, prev: seq<nat>, head: seq<nat>, s: nat, first: nat) {
    forall k: int {:trigger Opened(IndexSeal, k)} :: Sealed(k) ==>
    s + 1 == |hs| && HashesOf(win, hs) && Chains(hs, prev, head) && LastWith(hs, hs[s], first, s)
  }

  lemma SearchStart(win: seq<byte>, hs: seq<nat>, prev: seq<nat>, head: seq<nat>, s: nat, cur: nat, least: nat, m0: nat)
    requires Indexed(win, hs, prev, head, s, cur) && NIL != cur && 2 <= least < MAX_MATCH
    ensures |hs| == s + 1 && HashesOf(win, hs) && cur < s && hs[cur] == hs[s] && |prev| == WSIZE
    ensures Searched(win, hs, s, cur, Depth(least), least, least, m0, m0)
  {
    assert Opened(IndexSeal, 0);
    NoneBetween(win, hs, cur, s, s, least + 1);
    OnChainSkip(hs, s, cur + 1, s);
  }

  /** The next position to try. */
  lemma NextOnChain(win: seq<byte>, hs: seq<nat>, prev: seq<nat>, head: seq<nat>, s: nat, cur: nat, left: nat,
                    best: nat, least: nat, m: nat, m0: nat, next: nat, first: nat)
    requires Indexed(win, hs, prev, head, s, first) && s + 1 == |hs| && |prev| == WSIZE && left > 0
    requires 1 <= cur < s && s - cur <= MAX_DIST && hs[cur] == hs[s]
    requires Searched(win, hs, s, cur, left, best, least, m, m0) && !Beats(win, cur, s, best)
    requires next == prev[cur % WSIZE]
    ensures next < cur && (next == NIL || hs[next] == hs[s])
    ensures Searched(win, hs, s, next, left - 1, best, least, m, m0)
  {
    assert Opened(IndexSeal, 0);
    assert LastWith(hs, hs[cur], next, cur);
    NoneBetween(win, hs, next, cur, s, best + 1);
    OnChainSkip(hs, s, next + 1, cur);
  }

  lemma SameBeats(win: seq<byte>, p: nat, s: nat, len: nat, best: nat)
    requires best < len
    ensures Same(win, p, s, len) ==> Beats(win, p, s, best)
    ensures Beats(win, p, s, len) ==> Beats(win, p, s, best)
  {
  }

  /** A longer match at cur replaces the best one. */
  lemma Improved(win: seq<byte>, hs: seq<nat>, s: nat, cur: nat, left: nat, best: nat, least: nat, m: nat, m0: nat,
                 len: nat)
    requires Searched(win, hs, s, cur, left, best, least, m, m0) && left > 0 && 1 <= cur < s && s - cur <= MAX_DIST
    requires best < len <= MAX_MATCH && Same(win, cur, s, len) && (len < MAX_MATCH ==> !Beats(win, cur, s, len))
    ensures len < MAX_MATCH ==> Searched(win, hs, s, cur, left, len, least, cur, m0)
    ensures len == MAX_MATCH ==> SearchDone(win, hs, s, len, least, cur, m0)
  {
    forall r: nat | cur < r < s ensures !Same(win, r, s, len) && !Beats(win, r, s, len) {
      SameBeats(win, r, s, len, best);
    }
    assert Found(win, s, cur, len) && OnChain(hs, s, cur + 1) < Depth(least);
  }

  /** The search ends out of reach, or when as many positions as allowed have been tried. */
  lemma SearchEnds(win: seq<byte>, hs: seq<nat>, s: nat, cur: nat, left: nat, best: nat, least: nat, m: nat, m0: nat)
    requires Searched(win, hs, s, cur, left, best, least, m, m0) && (cur <= Limit(s) || left == 0)
    ensures SearchDone(win, hs, s, best, least, m, m0)
  {
    forall r: nat | Tried(hs, s, r, least) ensures !Beats(win, r, s, best) {
      if r <= cur { OnChainLess(hs, s, r + 1, cur + 1); }
    }
  }

  /** When no more positions in reach have this hash than are tried, the search is complete. */
  lemma SearchComplete(win: seq<byte>, hs: seq<nat>, s: nat, best: nat, least: nat, m: nat, m0: nat)
    requires HashesOf(win, hs) && s < |hs| && 2 <= least && SearchDone(win, hs, s, best, least, m, m0)
    requires best < MAX_MATCH
    requires OnChain(hs, s, Limit(s) + 1) <= Depth(least)
    ensures forall r: nat :: Limit(s) < r < s ==> !Beats(win, r, s, best)
  {
    assert Opened(LoopSeal, 0);
    forall r: nat | Limit(s) < r < s ensures !Beats(win, r, s, best) {
      if Beats(win, r, s, best) {
        assert Same(win, r, s, 3);
        SameHash(win, hs, r, s);
        OnChainLess(hs, s, Limit(s) + 1, r);
      }
    }
  }

  /** The quick test that most candidates fail, and then the comparison; len is 0 if cur cannot beat best. */
  method Try(window: array<byte>, cur: nat, s: nat, best: nat, ghost hs: seq<nat>) returns (len: nat)
    requires 1 <= cur < s && 2 <= best < MAX_MATCH && s + MAX_MATCH < window.Length
    requires HashesOf(window[..], hs) && s < |hs| && hs[cur] == hs[s]
    ensures len <= MAX_MATCH && (len > 0 ==> Same(window[..], cur, s, len))
    ensures len <= best ==> !Beats(window[..], cur, s, best)
    ensures best < len < MAX_MATCH ==> !Beats(window[..], cur, s, len)
  {
    ghost var win := window[..];
    if window[cur + best] != window[s + best] || window[cur + best - 1] != window[s + best - 1]
        || window[cur] != window[s] || window[cur + 1] != window[s + 1] {
      Differs(win, cur, s, best);
      return 0;
    }
    SkipThird(win, hs, cur, s);
    len := Compare(window, cur, s);
    if len <= best && Beats(win, cur, s, best) { BeatsLess(win, cur, s, len, best); }
  }

  lemma Differs(win: seq<byte>, p: nat, s: nat, best: nat)
    requires p < s && 2 <= best && s + best < |win|
    requires win[p + best] != win[s + best] || win[p + best - 1] != win[s + best - 1] || win[p] != win[s]
             || win[p + 1] != win[s + 1]
    ensures !Beats(win, p, s, best)
  {
    assert p + best - p + s == s + best && p + best - 1 - p + s == s + best - 1 && p + 1 - p + s == s + 1;
  }

  /** longest_match. least is prev_length; matchStart0 stays if nothing longer is found. */
  method LongestMatch(window: array<byte>, prev: array<nat>, s: nat, curMatch: nat, least: nat, matchStart0: nat,
                      ghost hs: seq<nat>, ghost head: seq<nat>)
    returns (best: nat, matchStart: nat)
    requires s + MAX_MATCH < window.Length && Indexed(window[..], hs, prev[..], head, s, curMatch) == true
    requires curMatch != NIL && s - curMatch <= MAX_DIST && 2 <= least < MAX_MATCH
    ensures SearchDone(window[..], hs, s, best, least, matchStart, matchStart0) == true
    ensures least <= best <= MAX_MATCH && (best > least ==> matchStart < s)
  {
    ghost var win := window[..];
    var chainLength := MAX_CHAIN_LENGTH;
    var cur, limit := curMatch, Limit(s);
    best, matchStart := least, matchStart0;
    if least >= GOOD_MATCH {
      chainLength := chainLength / 4;
    }
    SearchStart(win, hs, prev[..], head, s, cur, least, matchStart0);
    while true
      invariant 1 <= cur < s && s - cur <= MAX_DIST && hs[cur] == hs[s] && chainLength > 0
      invariant Searched(win, hs, s, cur, chainLength, best, least, matchStart, matchStart0) == true
      decreases chainLength
    {
      var len := Try(window, cur, s, best, hs);
      if len > best {
        Improved(win, hs, s, cur, chainLength, best, least, matchStart, matchStart0, len);
        matchStart := cur;
        best := len;
        if len >= NICE_MATCH {
          return;
        }
      }
      var next := prev[cur % WSIZE];
      NextOnChain(win, hs, prev[..], head, s, cur, chainLength, best, least, matchStart, matchStart0, next,
                  curMatch);
      cur := next;
      if !(cur > limit) {
        SearchEnds(win, hs, s, cur, chainLength - 1, best, least, matchStart, matchStart0);
        return;
      }
      chainLength := chainLength - 1;
      if chainLength == 0 {
        SearchEnds(win, hs, s, cur, chainLength, best, least, matchStart, matchStart0);
        return;
      }
    }
  }
}
