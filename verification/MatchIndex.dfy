/** The hash chains: head[h] is the last position inserted with hash h, prev
links a position to the one before it with the same hash. Position 0 doubles
as the end of a chain. */
module MatchIndex {
  import opened Bits
  import opened MatchHash

  const WSIZE := 0x8000
  const NIL := 0

  /** q is the last position before p, and after 0, whose hash is h; or there is none and q is NIL. */
  ghost predicate LastWith(hs: seq<nat>, h: nat, q: nat, p: nat) {
    && p <= |hs| && (q == NIL || (q < p && hs[q] == h))
    && forall r :: q < r < p ==> hs[r] != h
  }

  /** Exactly the positions 0..|hs|-1, with hashes hs, are in the index; prev has room for the last WSIZE of them. */
  ghost predicate Chains(hs: seq<nat>, prev: seq<nat>, head: seq<nat>) {
    && |prev| == WSIZE && |head| == HASH_SIZE
    && (forall h :: 0 <= h < HASH_SIZE ==> LastWith(hs, h, head[h], |hs|))
    && (forall p :: 0 <= p < |hs| && p + WSIZE >= |hs| ==> LastWith(hs, hs[p], prev[p % WSIZE], p))
  }

  lemma NoChains(prev: seq<nat>, head: seq<nat>)
    requires |prev| == WSIZE && |head| == HASH_SIZE && forall h :: 0 <= h < HASH_SIZE ==> head[h] == NIL
    ensures Chains([], prev, head)
  {
  }

  lemma LastGrows(hs: seq<nat>, h: nat, q: nat, p: nat, x: nat)
    requires LastWith(hs, h, q, p)
    ensures LastWith(hs + [x], h, q, p)
    ensures p == |hs| && x != h ==> LastWith(hs + [x], h, q, p + 1)
  {
    var hs' := hs + [x];
    assert forall r :: 0 <= r < |hs| ==> hs'[r] == hs[r];
  }

  lemma OtherSlot(p: nat, n: nat)
    requires p < n < p + WSIZE
    ensures p % WSIZE != n % WSIZE
  {
  }

  /** INSERT_STRING keeps the index. */
  lemma Inserted(hs: seq<nat>, prev: seq<nat>, head: seq<nat>, h: nat, n: nat, slot: nat)
    requires Chains(hs, prev, head) && h < HASH_SIZE && n == |hs| && slot == n % WSIZE
    ensures Chains(hs + [h], prev[slot := head[h]], head[h := n])
    ensures LastWith(hs, h, head[h], n)
  {
    var hs', prev', head' := hs + [h], prev[slot := head[h]], head[h := n];
    forall g | 0 <= g < HASH_SIZE ensures LastWith(hs', g, head'[g], n + 1) {
      if g != h { LastGrows(hs, g, head[g], n, h); }
    }
    forall p | 0 <= p < |hs'| && p + WSIZE >= |hs'| ensures LastWith(hs', hs'[p], prev'[p % WSIZE], p) {
      if p == n {
        LastGrows(hs, h, head[h], n, h);
      } else {
        OtherSlot(p, n);
        assert hs'[p] == hs[p];
        LastGrows(hs, hs[p], prev[p % WSIZE], p, h);
      }
    }
  }

  /** A table entry after the window has slid. */
  function Slid(m: nat): nat {
    if m >= WSIZE then m - WSIZE else NIL
  }

  lemma LastSlides(hs: seq<nat>, h: nat, q: nat, p: nat, p': nat)
    requires LastWith(hs, h, q, p) && p == p' + WSIZE
    ensures LastWith(hs[WSIZE..], h, Slid(q), p')
  {
    var hs' := hs[WSIZE..];
    forall r | Slid(q) < r < p' ensures hs'[r] != h { assert hs'[r] == hs[r + WSIZE]; }
  }

  /** Sliding the window by WSIZE keeps the index of what remains. */
  lemma ChainsSlide(hs: seq<nat>, prev: seq<nat>, head: seq<nat>, prev': seq<nat>, head': seq<nat>)
    requires Chains(hs, prev, head) && |hs| >= WSIZE
    requires |prev'| == WSIZE && forall i :: 0 <= i < WSIZE ==> prev'[i] == Slid(prev[i])
    requires |head'| == HASH_SIZE && forall i :: 0 <= i < HASH_SIZE ==> head'[i] == Slid(head[i])
    ensures Chains(hs[WSIZE..], prev', head')
  {
    var hs' := hs[WSIZE..];
    forall h | 0 <= h < HASH_SIZE ensures LastWith(hs', h, head'[h], |hs'|) {
      LastSlides(hs, h, head[h], |hs|, |hs'|);
    }
    forall p | 0 <= p < |hs'| && p + WSIZE >= |hs'| ensures LastWith(hs', hs'[p], prev'[p % WSIZE], p) {
      var was := p + WSIZE;
      assert hs'[p] == hs[was] && was % WSIZE == p % WSIZE;
      LastSlides(hs, hs[was], prev[was % WSIZE], was, p);
    }
  }

  // ----- hashes and bytes -----

  /** hs are the hashes of the strings that start at the first |hs| positions. */
  ghost predicate HashesOf(win: seq<byte>, hs: seq<nat>) {
    |hs| + 2 <= |win| && forall p :: 0 <= p < |hs| ==> hs[p] == Hash3(win[p], win[p + 1], win[p + 2])
  }

  /** The strings at p and at s have their first len bytes in common. */
  ghost predicate Same(win: seq<byte>, p: nat, s: nat, len: nat) {
    p + len <= |win| && s + len <= |win| && forall i :: p <= i < p + len ==> win[i] == win[i - p + s]
  }

  lemma SameHash(win: seq<byte>, hs: seq<nat>, p: nat, s: nat)
    requires HashesOf(win, hs) && p < |hs| && s < |hs| && Same(win, p, s, 3)
    ensures hs[p] == hs[s]
  {
    assert win[p] == win[p - p + s] && win[p + 1] == win[p + 1 - p + s] && win[p + 2] == win[p + 2 - p + s];
  }

  /** The comparison of byte 2 may be skipped. */
  lemma SkipThird(win: seq<byte>, hs: seq<nat>, p: nat, s: nat)
    requires HashesOf(win, hs) && p < |hs| && s < |hs| && hs[p] == hs[s]
    requires win[p] == win[s] && win[p + 1] == win[s + 1]
    ensures Same(win, p, s, 3)
  {
    ThirdByte(win[p], win[p + 1], win[p + 2], win[s + 2]);
  }

  /** No string between q and p agrees with the one at s in more than two bytes, if q is the link of p. */
  lemma NoneBetween(win: seq<byte>, hs: seq<nat>, q: nat, p: nat, s: nat, len: nat)
    requires HashesOf(win, hs) && s < |hs| && LastWith(hs, hs[s], q, p) && len >= 3
    ensures forall r :: q < r < p ==> !Same(win, r, s, len)
  {
    forall r | q < r < p ensures !Same(win, r, s, len) {
      if Same(win, r, s, len) {
        assert Same(win, r, s, 3);
        SameHash(win, hs, r, s);
      }
    }
  }
}
