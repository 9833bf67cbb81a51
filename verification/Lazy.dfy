/** Lazy matching: a match is taken only if there is no longer one at the next
position. The steps of `deflate` that concern the window. */
module Lazy {
  import opened Bits
  import opened Lz77
  import opened Input
  import opened MatchHash
  import opened MatchIndex
  import opened LM = LongestMatch
  import opened Window
  import opened MatchChoice
  import opened Matcher

  const MAX_LAZY_MATCH := 258

  // ----- the pending match -----

  /** data[at..at+len] is a copy of the bytes dist before, fit to be sent as a pair. */
  ghost predicate Pending(data: seq<byte>, at: nat, len: nat, dist: nat) {
    forall k: int {:trigger Opened(PendingSeal, k)} :: Sealed(k) ==>
    MIN_MATCH <= len <= MAX_MATCH && 1 <= dist <= MAX_DIST && Repeats(data, at, len, dist) && Near(Match(len, dist))
  }

  lemma PendingGrow(data: seq<byte>, data': seq<byte>, at: nat, len: nat, dist: nat)
    requires Pending(data, at, len, dist) && data <= data'
    ensures Pending(data', at, len, dist)
  {
    assert Opened(PendingSeal, 0);
  }

  /** A match found in the window, cut to the valid bytes, is a repetition in the input. */
  lemma FoundPending(win: seq<byte>, data: seq<byte>, base: nat, n: nat, s: nat, m: nat, found: nat, len: nat, at: nat,
                     dist: nat)
    requires Content(win, data, base, n) && Found(win, s, m, found) && MIN_MATCH <= len <= found && s + len <= n
    requires at == base + s && dist == s - m && (len == MIN_MATCH ==> dist <= TOO_FAR)
    ensures Pending(data, at, len, dist)
  {
    assert Opened(ContentSeal, 0);
    forall i | at <= i < at + len ensures data[i] == data[i - dist] {
      var j := i - base;
      assert win[..n][j] == data[base..][j] && win[..n][j - dist] == data[base..][j - dist];
      assert win[j - dist] == win[j - dist - m + s];
    }
    assert Repeats(data, at, len, dist) && Near(Match(len, dist));
  }

  lemma PendingPair(data: seq<byte>, at: nat, len: nat, dist: nat)
    requires Pending(data, at, len, dist)
    ensures MIN_MATCH <= len <= MAX_MATCH && Near(Match(len, dist)) && Repeats(data, at, len, dist)
    ensures 1 <= dist <= MAX_DIST
  {
    assert Opened(PendingSeal, 0);
  }

  /** A byte in the window and in the input. */
  lemma WindowByte(win: seq<byte>, data: seq<byte>, base: nat, n: nat, i: nat, at: nat)
    requires Content(win, data, base, n) && i < n && at == base + i
    ensures n <= |win| && at < |data| == base + n && win[i] == data[at]
  {
    assert Opened(ContentSeal, 0);
    assert win[..n][i] == data[base..][i];
  }

  /** The block in the window, when it has not left it. */
  lemma WindowBlock(win: seq<byte>, data: seq<byte>, base: nat, n: nat, start: nat, end: nat, done: nat, pos: nat)
    requires Content(win, data, base, n) && start <= end <= n && done == base + start && pos == base + end
    ensures n <= |win| && pos <= |data| && win[start..end] == data[done..pos]
  {
    assert Opened(ContentSeal, 0);
    var a, b := win[start..end], data[done..pos];
    forall i | 0 <= i < end - start ensures a[i] == b[i] {
      assert win[..n][start + i] == data[base..][start + i];
    }
  }
  // ----- one iteration -----

  /** A match is cut to the bytes that are there, and one of minimal length that is too distant is given up. */
  method Trim(best: nat, s: nat, m: nat, lookahead: nat) returns (len: nat)
    requires best >= 2 && s <= WINDOW_SIZE
    ensures len <= best && len <= lookahead && (len >= 2 || len == lookahead)
    ensures len == MIN_MATCH && m <= s ==> s - m <= TOO_FAR
    ensures m <= s ==> Trimmed(best, lookahead, s - m, len)
  {
    len := best;
    if len > lookahead {
      len := lookahead;
    }
    if len == MIN_MATCH && U32(s - m) > TOO_FAR {
      len := len - 1;
    }
  }

  /** The search for a match longer than prevLength, from the head of the chain on, and what is left of it. */
  method Search(f: Finder, hashHead: nat, prevLength: nat) returns (matchLength: nat, ghost dist: nat)
    requires f.Filled() && f.lookahead > 0 && 2 <= prevLength < MAX_MATCH && hashHead != NIL
    requires f.strstart - hashHead <= MAX_DIST
    requires Indexed(f.window[..], f.hs, f.prev[..], f.head[..], f.strstart, hashHead) == true
    modifies f`matchStart
    ensures f.Filled()
    ensures matchLength <= MAX_MATCH && (matchLength >= 2 || matchLength == f.lookahead)
    ensures matchLength > prevLength ==> matchLength <= f.lookahead && f.matchStart == U32(f.strstart - dist)
    ensures matchLength > prevLength ==> Pending(f.reader.delivered, f.base + f.strstart, matchLength, dist) == true
    ensures NoneLonger(f.reader.delivered, f.base + f.strstart, Max(prevLength, matchLength), Depth(prevLength)) == true
  {
    ghost var m0 := f.matchStart;
    var best, m :=
      LM.LongestMatch(f.window, f.prev, f.strstart, hashHead, prevLength, f.matchStart, f.hs, f.head[..]);
    f.matchStart := m;
    matchLength := Trim(best, f.strstart, m, f.lookahead);
    dist := if matchLength > prevLength then f.strstart - m else 0;
    SearchResult(f.window[..], f.reader.delivered, f.base, f.valid, f.hs, f.prev[..], f.head[..], f.strstart, best,
                 prevLength, m, m0, f.base + f.strstart, matchLength, f.lookahead, hashHead);
  }

  lemma SearchResult(win: seq<byte>, data: seq<byte>, base: nat, n: nat, hs: seq<nat>, prev: seq<nat>, head: seq<nat>,
                     s: nat, best: nat, least: nat, m: nat, m0: nat, at: nat, len: nat, ahead: nat, first: nat)
    requires Content(win, data, base, n) && Indexed(win, hs, prev, head, s, first) && ahead > 0 && n == s + ahead
    requires (base > 0 ==> s >= MAX_DIST) && SearchDone(win, hs, s, best, least, m, m0) && least >= 2 && at == base + s
    requires len <= best && (m <= s ==> Trimmed(best, ahead, s - m, len))
    requires len == MIN_MATCH && m <= s ==> s - m <= TOO_FAR
    ensures len > least ==> m <= s && len <= ahead && Pending(data, at, len, s - m)
    ensures NoneLonger(data, at, Max(least, len), Depth(least))
  {
    assert HashesOf(win, hs) && |hs| == s + 1 by { assert Opened(IndexSeal, 0); }
    assert best > least ==> Found(win, s, m, best) by { assert Opened(LoopSeal, 0); }
    assert best <= least || m < s;
    SearchedInput(win, data, base, n, hs, s, best, least, m, m0, at, len, Max(least, len));
    if len > least { FoundPending(win, data, base, n, s, m, best, len, at, s - m); }
  }

  /** Without a search there is nothing longer to be found. */
  lemma NotSearched(win: seq<byte>, data: seq<byte>, base: nat, n: nat, hs: seq<nat>, prev: seq<nat>, head: seq<nat>,
                    s: nat, first: nat, least: nat, at: nat)
    requires Content(win, data, base, n) && Indexed(win, hs, prev, head, s, first) && s < n && at == base + s
    requires (base > 0 ==> s >= MAX_DIST) && 2 <= least <= MAX_MATCH
    requires first == NIL || least >= MAX_LAZY_MATCH || s - first > MAX_DIST
    ensures NoneLonger(data, at, Max(least, 2), Depth(least))
  {
    if least >= MAX_LAZY_MATCH {
      NoneLongerThanMax(data, at, least, Depth(least));
    } else {
      assert Opened(IndexSeal, 0);
      NothingToSearch(win, hs, s, first, least, 0);
      SearchedInput(win, data, base, n, hs, s, least, least, 0, 0, at, 2, least);
    }
  }

  /** The first part of an iteration: the string at strstart is inserted, and a match longer than prevLength is looked
  for. */
  method FindMatch(f: Finder, prevLength: nat) returns (matchLength: nat, ghost dist: nat)
    requires f.Filled() && f.Ready() && f.lookahead > 0 && 2 <= prevLength <= MAX_MATCH
    modifies f`insH, f`hs, f`matchStart, f.prev, f.head
    ensures f.Filled() && |f.hs| == f.strstart + 1 && Index(f.window[..], f.hs, f.prev[..], f.head[..], f.insH) == true
    ensures matchLength <= MAX_MATCH && (matchLength >= 2 || matchLength == f.lookahead)
    ensures matchLength > prevLength ==> matchLength <= f.lookahead && f.matchStart == U32(f.strstart - dist)
    ensures matchLength > prevLength ==> Pending(f.reader.delivered, f.base + f.strstart, matchLength, dist) == true
    ensures NoneLonger(f.reader.delivered, f.base + f.strstart, Max(prevLength, matchLength), Depth(prevLength)) == true
  {
    var hashHead := f.InsertString(f.strstart);
    assert f.Filled() == true;
    matchLength, dist := 2, 0;
    if hashHead != NIL && prevLength < MAX_LAZY_MATCH && f.strstart - hashHead <= MAX_DIST {
      matchLength, dist := Search(f, hashHead, prevLength);
    } else {
      NotSearched(f.window[..], f.reader.delivered, f.base, f.valid, f.hs, f.prev[..], f.head[..], f.strstart, hashHead,
                  prevLength, f.base + f.strstart);
    }
  }

  /** The loop that inserts the strings inside an emitted match, and the step behind it. */
  method InsertRun(f: Finder, count: nat)
    requires f.Shape() && |f.hs| == f.strstart + 1 && Index(f.window[..], f.hs, f.prev[..], f.head[..], f.insH) == true
    requires count >= 1 && f.strstart + count + 1 <= WINDOW_SIZE
    modifies f`insH, f`hs, f`strstart, f.prev, f.head
    ensures f.strstart == old(f.strstart) + count + 1 && f.Ready()
  {
    var left := count;
    while left != 0
      invariant 0 <= left <= count && f.strstart == old(f.strstart) + count - left
      invariant |f.hs| == f.strstart + 1 && Index(f.window[..], f.hs, f.prev[..], f.head[..], f.insH) == true
    {
      f.strstart := f.strstart + 1;
      var hashHead := f.InsertString(f.strstart);
      left := left - 1;
    }
    f.strstart := f.strstart + 1;
  }

  /** What an iteration emits: nothing yet, a literal, or a pair. */
  datatype Step = Wait | Lit(c: byte) | Pair(len: nat, dist: nat)

  /** How much of the input has been emitted: all before strstart, except a byte that waits. */
  ghost function Emitted(f: Finder, avail: bool): int
    reads f
  {
    f.base + f.strstart - if avail then 1 else 0
  }

  /** Between iterations: the window is filled and indexed, and a byte that waits may have a match pending. */
  ghost predicate Between(f: Finder, matchLength: nat, avail: bool, dist: nat)
    reads f, f.window, f.prev, f.head, f.reader
  {
    forall k: int {:trigger Opened(StepSeal, k)} :: Sealed(k) ==>
    && f.Filled() && (f.lookahead > 0 ==> f.Ready() && matchLength >= 2) && matchLength <= MAX_MATCH
    && (avail ==> f.strstart >= 1) && (!avail ==> matchLength == 2)
    && (matchLength >= MIN_MATCH ==>
          && avail && matchLength <= f.lookahead + 1 && f.matchStart == U32(f.strstart - 1 - dist)
          && Pending(f.reader.delivered, Emitted(f, avail), matchLength, dist) == true
          && NoneLonger(f.reader.delivered, Emitted(f, avail), matchLength, Depth(matchLength - 1)) == true
          && (f.eofile || f.lookahead + 1 >= MAX_MATCH))
    && (avail && matchLength < MIN_MATCH ==>
          && NoneLonger(f.reader.delivered, Emitted(f, avail), 2, Depth(2)) == true
          && (f.eofile || f.lookahead + 1 >= MAX_MATCH))
  }

  /** What has been emitted follows what was emitted before. */
  ghost predicate Follows(data: seq<byte>, from: int, step: Step, to: int) {
    && 0 <= from <= to <= |data|
    && match step
       case Wait => to == from
       case Lit(c) => to == from + 1 && c == data[from]
       case Pair(len, dist) => to == from + len && Pending(data, from, len, dist)
  }

  /** The lazy rule. A match is sent only if nothing longer was found where it begins, nor at the next position. A
  literal is sent only where no candidate has a match, or where the match was given up because something longer was
  found at the next position. */
  ghost predicate Lazily(data: seq<byte>, from: int, step: Step, length: nat, length': nat) {
    && 0 <= from
    && (step.Lit? ==> if length >= MIN_MATCH then length' > length else NoneLonger(data, from, 2, Depth(2)))
    && (step.Pair? ==>
          && step.len == length >= MIN_MATCH
          && NoneLonger(data, from, length, Depth(length - 1)) && NoneLonger(data, from + 1, length, Depth(length)))
  }

  /** The previous match is taken: its distance, and the window moves behind it. */
  method TakePair(f: Finder, prevLength: nat, prevMatch: nat, ghost dist: nat, ghost at: nat) returns (d: nat)
    requires f.Filled() && |f.hs| == f.strstart + 1 && Index(f.window[..], f.hs, f.prev[..], f.head[..], f.insH) == true
    requires at + 1 == f.base + f.strstart && f.strstart >= 1 && MIN_MATCH <= prevLength <= f.lookahead + 1
    requires Pending(f.reader.delivered, at, prevLength, dist) == true && prevMatch == U32(f.strstart - 1 - dist)
    modifies f`insH, f`hs, f`strstart, f`lookahead, f.prev, f.head
    ensures d == dist && f.Filled() && f.Ready() && f.base + f.strstart == at + prevLength
    ensures f.lookahead == old(f.lookahead) - (prevLength - 1)
  {
    PendingPair(f.reader.delivered, at, prevLength, dist);
    U32Distance(f.strstart - 1, dist);
    d := U32(f.strstart - 1 - prevMatch);
    f.lookahead := f.lookahead - (prevLength - 1);
    InsertRun(f, prevLength - 2);
  }

  /** One iteration of deflate, as far as the window is concerned. inLength is what ct_tally takes for the input of
  the block so far. */
  method Next(f: Finder, matchLength: nat, avail: bool, ghost dist: nat)
    returns (step: Step, matchLength': nat, avail': bool, ghost dist': nat, inLength: int)
    requires Between(f, matchLength, avail, dist) && f.lookahead > 0 && (f.lookahead < MIN_LOOKAHEAD ==> f.eofile)
    modifies f`insH, f`hs, f`matchStart, f`strstart, f`lookahead, f.prev, f.head
    ensures Between(f, matchLength', avail', dist') == true && inLength == old(f.strstart) - f.blockStart
    ensures !step.Wait? ==> inLength == old(Emitted(f, avail)) + 1 - (f.base + f.blockStart)
    ensures Follows(f.reader.delivered, old(Emitted(f, avail)), step, Emitted(f, avail')) == true
    ensures Lazily(f.reader.delivered, old(Emitted(f, avail)), step, matchLength, matchLength') == true
    ensures old(f.lookahead) - MAX_MATCH < f.lookahead < old(f.lookahead)
  {
    assert Opened(StepSeal, 0);
    inLength, dist' := f.strstart - f.blockStart, dist;
    ghost var data, from, at := f.reader.delivered, Emitted(f, avail), f.base + f.strstart;
    var prevLength, prevMatch := matchLength, f.matchStart;
    ghost var found;
    matchLength', found := FindMatch(f, prevLength);
    if prevLength >= MIN_MATCH && matchLength' <= prevLength {
      var d := TakePair(f, prevLength, prevMatch, dist, from);
      step := Pair(prevLength, d);
      avail', matchLength' := false, 2;
    } else {
      NextPending(data, at, prevLength, matchLength');
      step := PassOn(f, avail, prevLength, matchLength', found);
      avail', dist' := true, found;
    }
  }

  lemma NextPending(data: seq<byte>, at: nat, prevLength: nat, length: nat)
    requires NoneLonger(data, at, Max(prevLength, length), Depth(prevLength))
    ensures length > prevLength ==> NoneLonger(data, at, length, Depth(length - 1))
    ensures prevLength == 2 && length <= 2 ==> NoneLonger(data, at, 2, Depth(2))
  {
    if length > prevLength { NoneLongerLess(data, at, length, Depth(prevLength), Depth(length - 1)); }
  }

  /** The byte that waits, if there is one, becomes a literal, and the next one waits. */
  method PassOn(f: Finder, avail: bool, ghost prevLength: nat, ghost matchLength: nat, ghost dist: nat)
    returns (step: Step)
    requires f.Filled() && |f.hs| == f.strstart + 1 && Index(f.window[..], f.hs, f.prev[..], f.head[..], f.insH) == true
    requires f.lookahead > 0 && (f.lookahead < MIN_LOOKAHEAD ==> f.eofile) && (avail ==> f.strstart >= 1)
    requires matchLength <= MAX_MATCH && (matchLength >= 2 || matchLength == f.lookahead)
    requires matchLength >= MIN_MATCH ==> matchLength > prevLength
    requires matchLength > prevLength ==> matchLength <= f.lookahead && f.matchStart == U32(f.strstart - dist)
    requires matchLength > prevLength ==> Pending(f.reader.delivered, f.base + f.strstart, matchLength, dist) == true
    requires matchLength > prevLength ==>
               NoneLonger(f.reader.delivered, f.base + f.strstart, matchLength, Depth(matchLength - 1)) == true
    requires matchLength < MIN_MATCH ==> NoneLonger(f.reader.delivered, f.base + f.strstart, 2, Depth(2)) == true
    modifies f`strstart, f`lookahead
    ensures Between(f, matchLength, true, dist) == true && f.lookahead == old(f.lookahead) - 1
    ensures Follows(f.reader.delivered, old(Emitted(f, avail)), step, Emitted(f, true)) == true && !step.Pair?
    ensures step.Lit? == avail
  {
    if avail {
      WindowByte(f.window[..], f.reader.delivered, f.base, f.valid, f.strstart - 1, f.base + f.strstart - 1);
      step := Lit(f.window[f.strstart - 1]);
    } else {
      step := Wait;
    }
    f.strstart := f.strstart + 1;
    f.lookahead := f.lookahead - 1;
    assert f.Filled() && f.Ready() && Emitted(f, true) == old(f.base + f.strstart);
  }

  /** Reading more input moves positions in the window, not in the input. */
  method Refill(f: Finder, matchLength: nat, avail: bool, ghost dist: nat)
    requires Between(f, matchLength, avail, dist) && (f.eofile || f.lookahead >= 2)
    modifies f, f.window, f.prev, f.head, f.reader
    ensures Between(f, matchLength, avail, dist) == true && (f.lookahead < MIN_LOOKAHEAD ==> f.eofile)
    ensures Emitted(f, avail) == old(Emitted(f, avail)) && f.base + f.blockStart == old(f.base + f.blockStart)
    ensures old(f.reader.delivered) <= f.reader.delivered
    ensures old(f.eofile) ==> f.eofile && f.reader.delivered == old(f.reader.delivered)
    ensures |f.reader.rest| + f.lookahead == |old(f.reader.rest)| + old(f.lookahead)
  {
    assert f.lookahead <= WINDOW_SIZE by { assert Opened(StepSeal, 0); }
    while f.lookahead < MIN_LOOKAHEAD && !f.eofile
      invariant f.lookahead <= WINDOW_SIZE
      invariant Between(f, matchLength, avail, dist) == true && (f.eofile || f.lookahead >= 2)
      invariant Emitted(f, avail) == old(Emitted(f, avail)) && f.base + f.blockStart == old(f.base + f.blockStart)
      invariant old(f.reader.delivered) <= f.reader.delivered
      invariant old(f.eofile) ==> f.eofile && f.reader.delivered == old(f.reader.delivered)
      invariant |f.reader.rest| + f.lookahead == |old(f.reader.rest)| + old(f.lookahead)
      decreases WINDOW_SIZE - f.lookahead, !f.eofile
    {
      FillOnce(f, matchLength, avail, dist);
    }
  }

  method FillOnce(f: Finder, matchLength: nat, avail: bool, ghost dist: nat)
    requires Between(f, matchLength, avail, dist) == true && !f.eofile && 2 <= f.lookahead < MIN_LOOKAHEAD
    modifies f, f.window, f.prev, f.head, f.reader
    ensures Between(f, matchLength, avail, dist) == true && f.lookahead >= old(f.lookahead)
    ensures (f.eofile || f.lookahead > old(f.lookahead))
    ensures Emitted(f, avail) == old(Emitted(f, avail)) && f.base + f.blockStart == old(f.base + f.blockStart)
    ensures old(f.reader.delivered) <= f.reader.delivered
    ensures |f.reader.rest| + f.lookahead == |old(f.reader.rest)| + old(f.lookahead)
    ensures f.lookahead <= WINDOW_SIZE
  {
    assert Opened(StepSeal, 0);
    ghost var data, at, start, b, m := f.reader.delivered, Emitted(f, avail), f.strstart, f.base, f.matchStart;
    f.FillWindow(true);
    if matchLength >= MIN_MATCH {
      PendingGrow(data, f.reader.delivered, at, matchLength, dist);
      NoneLongerGrow(data, f.reader.delivered, at, matchLength, Depth(matchLength - 1));
      U32Minus(start - 1 - dist, f.base - b);
    } else if avail {
      NoneLongerGrow(data, f.reader.delivered, at, 2, Depth(2));
    }
  }
}
