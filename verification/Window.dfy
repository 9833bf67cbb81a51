/** The sliding window, the strings indexed in it, and the input that feeds it:
`INSERT_STRING` and `fill_window`. */
module Window {
  import opened Bits
  import opened Lz77
  import opened Input
  import opened MatchHash
  import opened MatchIndex
  import opened LongestMatch

  const WINDOW_SIZE := 2 * WSIZE

  /** The first n bytes of the window are the last n bytes of the input delivered so far; base bytes have left the
  window. */
  ghost predicate Content(win: seq<byte>, data: seq<byte>, base: nat, n: nat) {
    forall k: int {:trigger Opened(ContentSeal, k)} :: Sealed(k) ==>
      n <= |win| && base + n == |data| && win[..n] == data[base..]
  }

  /** Exactly the first |hs| positions are indexed, and insH is ready for the next one. */
  ghost predicate Index(win: seq<byte>, hs: seq<nat>, prev: seq<nat>, head: seq<nat>, insH: nat) {
    forall k: int {:trigger Opened(IndexSeal, k)} :: Sealed(k) ==>
    HashesOf(win, hs) && Chains(hs, prev, head) && Rolled(insH, win[|hs|], win[|hs| + 1])
  }

  lemma HashFits(h: nat)
    requires h < Pow2(HASH_BITS)
    ensures h < HASH_SIZE
  {
    var n: nat :| n == HASH_BITS;
    assert Pow2(n - 5) == Pow2(8) by { assert n - 5 == 8; }
    assert Pow2(8) == 256;
    assert Pow2(n - 3) == 4 * Pow2(n - 5) && Pow2(n - 1) == 4 * Pow2(n - 3);
  }

  /** The effect of INSERT_STRING at the next position s. */
  lemma IndexNext(win: seq<byte>, hs: seq<nat>, prev: seq<nat>, head: seq<nat>, insH: nat, s: nat, h: nat, slot: nat)
    requires Index(win, hs, prev, head, insH) && s == |hs| && s + 3 <= |win| && h == UpdateHash(insH, win[s + 2])
    requires slot == s % WSIZE
    ensures h < HASH_SIZE == |head| && slot < WSIZE == |prev|
    ensures Index(win, hs + [h], prev[slot := head[h]], head[h := s], h)
    ensures Indexed(win, hs + [h], prev[slot := head[h]], head[h := s], s, head[h])
  {
    assert Opened(IndexSeal, 0);
    HashFits(h);
    RollHash(insH, win[s], win[s + 1], win[s + 2]);
    Inserted(hs, prev, head, h, s, slot);
    LastGrows(hs, h, head[h], s, h);
    var hs' := hs + [h];
    forall p | 0 <= p < |hs'| ensures hs'[p] == Hash3(win[p], win[p + 1], win[p + 2]) {
      if p < s { assert hs'[p] == hs[p]; }
    }
  }

  /** Bytes after the two that follow the indexed positions do not matter to the index. */
  lemma IndexFrame(win: seq<byte>, hs: seq<nat>, prev: seq<nat>, head: seq<nat>, insH: nat, win': seq<byte>, n: nat)
    requires Index(win, hs, prev, head, insH) && |hs| + 2 <= n <= |win| && |win'| == |win| && win'[..n] == win[..n]
    ensures Index(win', hs, prev, head, insH)
  {
    assert Opened(IndexSeal, 0);
    assert forall i :: 0 <= i < n ==> win'[i] == win'[..n][i] && win[i] == win[..n][i];
  }

  /** The window after its upper half has been copied to the lower half. */
  ghost function Moved(win: seq<byte>): (r: seq<byte>)
    requires |win| >= WINDOW_SIZE
    ensures |r| == |win|
  {
    win[WSIZE..WINDOW_SIZE] + win[WSIZE..]
  }

  lemma MovedAt(win: seq<byte>, i: nat)
    requires |win| >= WINDOW_SIZE && i < WSIZE
    ensures Moved(win)[i] == win[i + WSIZE]
  {
  }

  lemma HashesMoved(win: seq<byte>, hs: seq<nat>, win': seq<byte>, hs': seq<nat>)
    requires HashesOf(win, hs) && |win| >= WINDOW_SIZE && WSIZE <= |hs| && |hs| + 2 <= WINDOW_SIZE
    requires win' == Moved(win) && hs' == hs[WSIZE..]
    ensures HashesOf(win', hs')
  {
    forall p | 0 <= p < |hs'| ensures hs'[p] == Hash3(win'[p], win'[p + 1], win'[p + 2]) {
      var q := p + WSIZE;
      assert hs'[p] == hs[q];
      MovedAt(win, p);
      MovedAt(win, p + 1);
      MovedAt(win, p + 2);
      assert win'[p] == win[q] && win'[p + 1] == win[q + 1] && win'[p + 2] == win[q + 2];
    }
  }

  lemma IndexMoved(win: seq<byte>, hs: seq<nat>, prev: seq<nat>, head: seq<nat>, insH: nat, prev': seq<nat>,
                   head': seq<nat>)
    requires Index(win, hs, prev, head, insH) && |win| >= WINDOW_SIZE && WSIZE <= |hs| && |hs| + 2 <= WINDOW_SIZE
    requires |prev'| == WSIZE && |prev| == WSIZE && forall i :: 0 <= i < WSIZE ==> prev'[i] == Slid(prev[i])
    requires |head'| == HASH_SIZE && |head| == HASH_SIZE && forall i :: 0 <= i < HASH_SIZE ==> head'[i] == Slid(head[i])
    ensures Index(Moved(win), hs[WSIZE..], prev', head', insH)
  {
    assert HashesOf(win, hs) && Chains(hs, prev, head) && Rolled(insH, win[|hs|], win[|hs| + 1])
        by { assert Opened(IndexSeal, 0); }
    var hs', win' := hs[WSIZE..], Moved(win);
    ChainsSlide(hs, prev, head, prev', head');
    HashesMoved(win, hs, win', hs');
    MovedAt(win, |hs'|);
    MovedAt(win, |hs'| + 1);
    assert win'[|hs'|] == win[|hs|] && win'[|hs'| + 1] == win[|hs| + 1];
  }

  lemma ContentMoved(win: seq<byte>, data: seq<byte>, base: nat, n: nat, base': nat, n': nat)
    requires Content(win, data, base, n) && n == n' + WSIZE && n <= WINDOW_SIZE <= |win| && base' == base + WSIZE
    ensures Content(Moved(win), data, base', n')
  {
    assert Opened(ContentSeal, 0);
    var a, b := Moved(win)[..n'], data[base'..];
    forall i | 0 <= i < n' ensures a[i] == b[i] {
      MovedAt(win, i);
      assert win[..n][i + WSIZE] == data[base..][i + WSIZE];
    }
  }

  lemma EmptyContent(win: seq<byte>, data: seq<byte>)
    requires data == []
    ensures Content(win, data, 0, 0)
  {
  }

  lemma IndexEmpty(win: seq<byte>, prev: seq<nat>, head: seq<nat>, insH: nat)
    requires |win| >= 2 && |prev| == WSIZE && |head| == HASH_SIZE && (forall h :: 0 <= h < HASH_SIZE ==> head[h] == NIL)
    requires insH == UpdateHash(UpdateHash(0, win[0]), win[1])
    ensures Index(win, [], prev, head, insH)
  {
    var x: nat, hs: seq<nat> := 0, [];
    assert insH == UpdateHash(UpdateHash(x, win[0]), win[1]);
    assert Rolled(insH, win[|hs|], win[|hs| + 1]);
    NoChains(prev, head);
    assert HashesOf(win, hs) && Chains(hs, prev, head);
  }

  lemma ContentMore(win: seq<byte>, data: seq<byte>, base: nat, n: nat, chunk: seq<byte>, win': seq<byte>, n': nat)
    requires Content(win, data, base, n) && n' == n + |chunk| && n' <= |win| && win' == win[..n] + chunk + win[n'..]
    ensures Content(win', data + chunk, base, n') && |win'| == |win| && win'[..n] == win[..n]
  {
    assert Opened(ContentSeal, 0);
    assert win'[..n'] == win[..n] + chunk;
    assert (data + chunk)[base..] == data[base..] + chunk;
  }

  // ----- arithmetic modulo 2^32 -----

  /** What is left of a number in 32 bits. */
  function U32(x: int): (r: nat)
    ensures r < 0x1_0000_0000
  {
    x % 0x1_0000_0000
  }

  lemma U32Minus(x: int, d: nat)
    ensures U32(U32(x) - d) == U32(x - d)
  {
  }

  /** A distance survives the detour through a start position kept in 32 bits. */
  lemma U32Distance(s: int, d: nat)
    requires d < 0x1_0000_0000
    ensures U32(s - U32(s - d)) == d
  {
  }

  // ----- the window as an object -----

  method SlideTable(a: array<nat>)
    modifies a
    ensures forall i :: 0 <= i < a.Length ==> a[i] == Slid(old(a[i]))
  {
    var n := 0;
    while n < a.Length
      invariant 0 <= n <= a.Length
      invariant forall i :: 0 <= i < a.Length ==> a[i] == if i < n then Slid(old(a[i])) else old(a[i])
    {
      a[n] := Slid(a[n]);
      n := n + 1;
    }
  }

  /** The loops of fill_window that move everything down by WSIZE. */
  method SlideAll(window: array<byte>, prev: array<nat>, head: array<nat>, ghost hs: seq<nat>, ghost insH: nat,
                  ghost data: seq<byte>, ghost base: nat, ghost base': nat, ghost n: nat, ghost n': nat)
    requires window.Length >= WINDOW_SIZE && prev.Length == WSIZE && head.Length == HASH_SIZE && prev != head
    requires Index(window[..], hs, prev[..], head[..], insH) == true && WSIZE <= |hs| && |hs| + 2 <= n
    requires Content(window[..], data, base, n) == true && n == n' + WSIZE && n <= WINDOW_SIZE && base' == base + WSIZE
    modifies window, prev, head
    ensures Index(window[..], hs[WSIZE..], prev[..], head[..], insH) == true
    ensures Content(window[..], data, base', n') == true
  {
    ghost var win, pr, hd := window[..], prev[..], head[..];
    IndexShape(win, hs, pr, hd, insH);
    MoveDown(window);
    SlideTable(head);
    SlideTable(prev);
    IndexMoved(win, hs, pr, hd, insH, prev[..], head[..]);
    ContentMoved(win, data, base, n, base', n');
  }

  lemma IndexShape(win: seq<byte>, hs: seq<nat>, prev: seq<nat>, head: seq<nat>, insH: nat)
    requires Index(win, hs, prev, head, insH)
    ensures |prev| == WSIZE && |head| == HASH_SIZE && |hs| + 2 <= |win|
  {
    assert Opened(IndexSeal, 0);
  }

  method MoveDown(window: array<byte>)
    requires window.Length >= WINDOW_SIZE
    modifies window
    ensures window[..] == Moved(old(window[..]))
  {
    var n := 0;
    while n < WSIZE
      invariant 0 <= n <= WSIZE
      invariant forall i :: 0 <= i < window.Length ==> window[i] == old(window[if i < n then i + WSIZE else i])
    {
      window[n] := window[n + WSIZE];
      n := n + 1;
    }
    ghost var was, now := old(window[..]), window[..];
    forall i | 0 <= i < |now| ensures now[i] == Moved(was)[i] {
      if i < WSIZE { MovedAt(was, i); }
    }
  }
}
