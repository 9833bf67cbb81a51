/** What the search for matches promises about the input: among the positions it tries, none has a longer match. */
module MatchChoice {
  import opened Bits
  import opened Lz77
  import opened MatchHash
  import opened MatchIndex
  import opened LM = LongestMatch
  import opened Window

  /** The hash of the three bytes at q. */
  ghost function HashAt(data: seq<byte>, q: nat): nat
    requires q + 3 <= |data|
  {
    Hash3(data[q], data[q + 1], data[q + 2])
  }

  /** How many positions from lo on, and before at, have the hash of at. */
  ghost function Equals(data: seq<byte>, at: nat, lo: nat): nat
    requires at + 3 <= |data|
    decreases at - lo
  {
    if lo >= at then 0 else (if HashAt(data, lo) == HashAt(data, at) then 1 else 0) + Equals(data, at, lo + 1)
  }

  /** Matches may begin at q: not at the first byte of the input, and not too far back. */
  predicate InReach(at: nat, q: nat) {
    1 <= q < at && at - q < MAX_DIST
  }

  /** q is in reach and among the last `depth` positions with the hash of at. */
  ghost predicate Candidate(data: seq<byte>, at: nat, q: nat, depth: nat)
    requires at + 3 <= |data|
  {
    InReach(at, q) && Equals(data, at, q + 1) < depth
  }

  /** A match of the minimal length is given up when it is too distant. At the very end of the input, the one looked at
  need not be the nearest. */
  predicate GivenUp(data: seq<byte>, at: nat, len: nat, dist: nat) {
    len == MIN_MATCH && (dist > TOO_FAR || |data| == at + MIN_MATCH)
  }

  /** A match at `at`, with the bytes from q on, that is longer than len. */
  ghost predicate Longer(data: seq<byte>, at: nat, len: nat, q: nat) {
    q < at && len < MAX_MATCH && Repeats(data, at, len + 1, at - q) && !GivenUp(data, at, len + 1, at - q)
  }

  /** No candidate has a match longer than len that may be used. */
  ghost predicate NoneLonger(data: seq<byte>, at: nat, len: nat, depth: nat) {
    forall k: int {:trigger Opened(ChoiceSeal, k)} :: Sealed(k) ==>
      at + 3 <= |data| ==> forall q: nat :: Candidate(data, at, q, depth) ==> !Longer(data, at, len, q)
  }

  lemma NoneLongerLess(data: seq<byte>, at: nat, len: nat, depth: nat, depth': nat)
    requires NoneLonger(data, at, len, depth) && depth' <= depth
    ensures NoneLonger(data, at, len, depth')
  {
    assert Opened(ChoiceSeal, 0);
    if at + 3 <= |data| {
      forall q: nat | Candidate(data, at, q, depth') ensures !Longer(data, at, len, q) {
        assert Candidate(data, at, q, depth);
      }
    }
  }

  lemma {:induction false} EqualsLess(data: seq<byte>, at: nat, lo: nat, hi: nat)
    requires at + 3 <= |data| && lo <= hi
    ensures Equals(data, at, hi) <= Equals(data, at, lo)
    decreases hi - lo
  {
    if lo < hi { EqualsLess(data, at, lo + 1, hi); }
  }

  lemma LongerHash(data: seq<byte>, at: nat, len: nat, q: nat)
    requires Longer(data, at, len, q) && len >= 2
    ensures at + 3 <= |data| && HashAt(data, q) == HashAt(data, at)
  {
    assert data[at] == data[at - (at - q)] && data[at + 1] == data[at + 1 - (at - q)]
           && data[at + 2] == data[at + 2 - (at - q)];
  }

  /** When no more positions in reach have the hash than are tried, no match in reach at all is longer. */
  lemma NoneInReach(data: seq<byte>, at: nat, len: nat, depth: nat, q: nat)
    requires NoneLonger(data, at, len, depth) && len >= 2 && InReach(at, q)
    requires at + 3 <= |data| ==> Equals(data, at, if at < MAX_DIST then 1 else at - MAX_DIST + 1) <= depth
    ensures !Longer(data, at, len, q)
  {
    assert Opened(ChoiceSeal, 0);
    if Longer(data, at, len, q) {
      LongerHash(data, at, len, q);
      EqualsLess(data, at, if at < MAX_DIST then 1 else at - MAX_DIST + 1, q);
    }
  }

  // More input does not matter once the longest possible match is there.

  lemma HashGrow(data: seq<byte>, data': seq<byte>, q: nat)
    requires q + 3 <= |data| && data <= data'
    ensures HashAt(data', q) == HashAt(data, q)
  {
  }

  lemma {:induction false} EqualsGrow(data: seq<byte>, data': seq<byte>, at: nat, lo: nat)
    requires at + 3 <= |data| && data <= data'
    ensures Equals(data', at, lo) == Equals(data, at, lo)
    decreases at - lo
  {
    if lo < at {
      HashGrow(data, data', lo);
      HashGrow(data, data', at);
      EqualsGrow(data, data', at, lo + 1);
    }
  }

  lemma NoneLongerGrow(data: seq<byte>, data': seq<byte>, at: nat, len: nat, depth: nat)
    requires NoneLonger(data, at, len, depth) && data <= data' && at + MAX_MATCH <= |data|
    ensures NoneLonger(data', at, len, depth)
  {
    assert Opened(ChoiceSeal, 0);
    forall q: nat | Candidate(data', at, q, depth) ensures !Longer(data', at, len, q) {
      CandidateGrow(data, data', at, q, depth);
      LongerBefore(data, data', at, len, q);
    }
  }

  lemma CandidateGrow(data: seq<byte>, data': seq<byte>, at: nat, q: nat, depth: nat)
    requires at + 3 <= |data| && data <= data'
    ensures Candidate(data', at, q, depth) == Candidate(data, at, q, depth)
  {
    EqualsGrow(data, data', at, q + 1);
  }

  lemma LongerBefore(data: seq<byte>, data': seq<byte>, at: nat, len: nat, q: nat)
    requires data <= data' && at + MAX_MATCH <= |data|
    ensures Longer(data', at, len, q) ==> Longer(data, at, len, q)
  {
  }

  // From the window to the input.

  lemma HashMoves(win: seq<byte>, data: seq<byte>, base: nat, n: nat, hs: seq<nat>, r: nat)
    requires Content(win, data, base, n) && HashesOf(win, hs) && r < |hs| && r + 3 <= n
    ensures base + r + 3 <= |data| && hs[r] == HashAt(data, base + r)
  {
    assert Opened(ContentSeal, 0);
    assert win[..n][r] == data[base..][r] && win[..n][r + 1] == data[base..][r + 1]
           && win[..n][r + 2] == data[base..][r + 2];
  }

  lemma {:induction false} EqualsMoves(win: seq<byte>, data: seq<byte>, base: nat, n: nat, hs: seq<nat>, s: nat,
                                       at: nat, lo: nat, q: nat)
    requires Content(win, data, base, n) && HashesOf(win, hs) && s < |hs| && s + 3 <= n
    requires at == base + s && q == base + lo
    ensures at + 3 <= |data| && Equals(data, at, q) == OnChain(hs, s, lo)
    decreases s - lo
  {
    HashMoves(win, data, base, n, hs, s);
    if lo < s {
      HashMoves(win, data, base, n, hs, lo);
      EqualsMoves(win, data, base, n, hs, s, at, lo + 1, q + 1);
    }
  }

  lemma RepeatsSame(win: seq<byte>, data: seq<byte>, base: nat, n: nat, s: nat, r: nat, len: nat, at: nat, q: nat)
    requires Content(win, data, base, n) && r < s && at == base + s && q == base + r && Repeats(data, at, len, at - q)
    ensures Same(win, r, s, len)
  {
    assert Opened(ContentSeal, 0);
    forall i | r <= i < r + len ensures win[i] == win[i - r + s] {
      var j := i - r + s;
      assert win[..n][i] == data[base..][i] && win[..n][j] == data[base..][j];
      assert data[base + j] == data[base + j - (at - q)];
    }
  }

  function Max(a: nat, b: nat): nat {
    if a > b then a else b
  }

  /** len is what remains of a match of length best, found at m. */
  ghost predicate Trimmed(best: nat, ahead: nat, dist: int, len: nat) {
    || (len == best && best <= ahead)
    || (len == ahead && ahead <= best)
    || (len == 2 && dist > TOO_FAR && (best == MIN_MATCH <= ahead || ahead == MIN_MATCH <= best))
  }

  /** The candidate r = q - base is one of those tried. */
  lemma CandidateTried(win: seq<byte>, data: seq<byte>, base: nat, n: nat, hs: seq<nat>, s: nat, at: nat, q: nat,
                       r: nat, least: nat)
    requires Content(win, data, base, n) && HashesOf(win, hs) && s < |hs| && s + 3 <= n && at == base + s
    requires at + 3 <= |data| && Candidate(data, at, q, Depth(least)) && (base > 0 ==> s >= MAX_DIST)
    requires q == base + r
    ensures Tried(hs, s, r, least)
  {
    EqualsMoves(win, data, base, n, hs, s, at, r + 1, q + 1);
  }

  /** What the search leaves behind, about the input. */
  lemma SearchedInput(win: seq<byte>, data: seq<byte>, base: nat, n: nat, hs: seq<nat>, s: nat, best: nat, least: nat,
                      m: nat, m0: nat, at: nat, len: nat, longest: nat)
    requires Content(win, data, base, n) && HashesOf(win, hs) && s < |hs| && s < n && at == base + s && least >= 2
    requires (base > 0 ==> s >= MAX_DIST) && SearchDone(win, hs, s, best, least, m, m0)
    requires best > least ==> Trimmed(best, n - s, s - m, len)
    requires longest == Max(least, len)
    ensures NoneLonger(data, at, longest, Depth(least))
  {
    assert |data| == base + n by { assert Opened(ContentSeal, 0); }
    if at + 3 <= |data| {
      forall q: nat | Candidate(data, at, q, Depth(least)) ensures !Longer(data, at, longest, q) {
        assert q >= base;
        NotLonger(win, data, base, n, hs, s, best, least, m, m0, at, len, longest, q, q - base);
      }
    }
  }

  lemma NotLonger(win: seq<byte>, data: seq<byte>, base: nat, n: nat, hs: seq<nat>, s: nat, best: nat, least: nat,
                  m: nat, m0: nat, at: nat, len: nat, longest: nat, q: nat, r: nat)
    requires Content(win, data, base, n) && HashesOf(win, hs) && s < |hs| && s + 3 <= n && at == base + s
    requires (base > 0 ==> s >= MAX_DIST) && SearchDone(win, hs, s, best, least, m, m0) && least >= 2
    requires best > least ==> Trimmed(best, n - s, s - m, len)
    requires longest == Max(least, len) && q == base + r && |data| == base + n
    requires Candidate(data, at, q, Depth(least))
    ensures !Longer(data, at, longest, q)
  {
    CandidateTried(win, data, base, n, hs, s, at, q, r, least);
    assert Opened(LoopSeal, 0);
    if longest >= best { SameBeats(win, r, s, longest + 1, best); }
    if longest < MAX_MATCH && Repeats(data, at, longest + 1, at - q) {
      RepeatsSame(win, data, base, n, s, r, longest + 1, at, q);
      if longest < best {
        assert longest == 2 && s - m > TOO_FAR;
        assert best == MIN_MATCH ==> r <= m;
        assert GivenUp(data, at, longest + 1, at - q);
      }
    }
  }

  /** When the head of the chain is out of reach, there is nothing to search. */
  lemma NothingToSearch(win: seq<byte>, hs: seq<nat>, s: nat, head: nat, least: nat, m: nat)
    requires HashesOf(win, hs) && s < |hs| && LastWith(hs, hs[s], head, s) && 2 <= least <= MAX_MATCH
    requires head == NIL || s - head > MAX_DIST
    ensures SearchDone(win, hs, s, least, least, m, m)
  {
    NoneBetween(win, hs, head, s, s, least + 1);
    assert forall r: nat :: Tried(hs, s, r, least) ==> !Beats(win, r, s, least);
  }

  /** No match is longer than the longest that can be sent. */
  lemma NoneLongerThanMax(data: seq<byte>, at: nat, len: nat, depth: nat)
    requires len >= MAX_MATCH
    ensures NoneLonger(data, at, len, depth)
  {
    assert forall q: nat :: !Longer(data, at, len, q);
  }
}
