/** The state of the match finder: window, index, input and the running
positions, with `lm_init`, `fill_window` and `INSERT_STRING`. */
module Matcher {
  import opened Bits
  import opened Lz77
  import opened Input
  import opened MatchHash
  import opened MatchIndex
  import opened LongestMatch
  import opened Window

  class Finder {
    const window: array<byte>
    const prev: array<nat>
    const head: array<nat>
    const reader: Reader
    var strstart: nat
    var lookahead: nat
    var blockStart: int
    var insH: nat
    var matchStart: nat
    var eofile: bool
    ghost var base: nat      // how many bytes have left the window
    ghost var hs: seq<nat>   // the hashes of the positions indexed
    ghost var valid: nat     // how many bytes in the window are valid

    /** The window has some room behind it: near the end of the input, strings are compared, and hashed,
    beyond the bytes that are valid; what is found there is cut off later. */
    ghost predicate Shape() {
      && window.Length == WINDOW_SIZE + MAX_MATCH + 1 && prev.Length == WSIZE && head.Length == HASH_SIZE
          && prev != head
    }

    /** The window holds the end of the input delivered so far. */
    ghost predicate Filled()
      reads this, window, reader
    {
      && Shape() && reader.Valid() && valid == strstart + lookahead <= WINDOW_SIZE
      && Sound() == true && (base > 0 ==> strstart >= MAX_DIST)
      && |reader.delivered| == base + valid && Content(window[..], reader.delivered, base, valid) == true
    }

    /** The input has ended where the plan of the reads says. */
    ghost predicate Sound()
      reads this, reader
    {
      if eofile then Stopped(reader.file, reader.chunks, reader.delivered) == true
      else Going(reader.chunks, reader.plan, reader.delivered) == true
    }

    /** All positions before strstart are indexed. */
    ghost predicate Ready()
      reads this, window, prev, head
    {
      |hs| == strstart && Index(window[..], hs, prev[..], head[..], insH) == true
    }

    constructor (reader: Reader)
      requires reader.Valid() && reader.delivered == []
      ensures Shape() && this.reader == reader && fresh(window) && fresh(prev) && fresh(head)
    {
      window := new byte[WINDOW_SIZE + MAX_MATCH + 1](_ => 0);
      prev := new nat[WSIZE](_ => 0);
      head := new nat[HASH_SIZE](_ => 0);
      this.reader := reader;
      strstart, lookahead, blockStart, insH, matchStart, eofile, base, hs, valid := 0, 0, 0, 0, 0, false, 0, [], 0;
    }

    /** INSERT_STRING(s, match_head) for the next position s. */
    method InsertString(s: nat) returns (hashHead: nat)
      requires Shape() && s == |hs| && s <= WINDOW_SIZE && Index(window[..], hs, prev[..], head[..], insH) == true
      modifies this`insH, this`hs, prev, head
      ensures |hs| == s + 1 && Index(window[..], hs, prev[..], head[..], insH) == true
      ensures Indexed(window[..], hs, prev[..], head[..], s, hashHead) == true
    {
      ghost var win, pr, hd := window[..], prev[..], head[..];
      insH := UpdateHash(insH, window[s + MIN_MATCH - 1]);
      IndexNext(win, hs, pr, hd, old(insH), s, insH, s % WSIZE);
      hashHead := head[insH];
      prev[s % WSIZE] := hashHead;
      head[insH] := s;
      assert prev[..] == pr[s % WSIZE := hashHead] && head[..] == hd[insH := s];
      hs := hs + [insH];
    }

    /** The half of fill_window that makes room: all positions drop by WSIZE. */
    method Slide()
      requires Filled() && strstart >= WSIZE + MAX_DIST && lookahead >= 2 && Ready()
      modifies this`strstart, this`blockStart, this`matchStart, this`base, this`hs, this`valid, window, prev, head
      ensures Filled() && Ready()
      ensures strstart == old(strstart) - WSIZE && base == old(base) + WSIZE && blockStart == old(blockStart) - WSIZE
      ensures matchStart == U32(old(matchStart) - WSIZE)
    {
      SlideAll(window, prev, head, hs, insH, reader.delivered, base, base + WSIZE, valid, valid - WSIZE);
      matchStart := U32(matchStart - WSIZE);
      strstart := strstart - WSIZE;
      blockStart := blockStart - WSIZE;
      base, hs, valid := base + WSIZE, hs[WSIZE..], valid - WSIZE;
    }

    /** The half of fill_window that reads: at least one byte, unless the input has ended. */
    method ReadMore(more: nat, ghost hashed: bool)
      requires Filled() && more + valid == WINDOW_SIZE && more > 0 && !eofile && (hashed ==> Ready() && lookahead >= 2)
      modifies this`lookahead, this`eofile, this`valid, window, reader
      ensures Filled() && (hashed ==> Ready()) && lookahead >= old(lookahead) && (eofile || lookahead > old(lookahead))
      ensures old(reader.delivered) <= reader.delivered
      ensures |reader.rest| + lookahead == |old(reader.rest)| + old(lookahead)
    {
      ghost var win, data, rest, n0 := window[..], reader.delivered, reader.rest, valid;
      var n := reader.Read(window, strstart + lookahead, more);
      ContentMore(win, data, base, n0, rest[..n], window[..], n0 + n);
      if hashed { IndexFrame(win, hs, prev[..], head[..], insH, window[..], n0); }
      if n == 0 {
        eofile := true;
      } else {
        lookahead := lookahead + n;
      }
      valid := valid + n;
    }

    /** fill_window. Positions keep their place in the input. */
    method FillWindow(ghost hashed: bool)
      requires Filled() && !eofile && lookahead < MIN_LOOKAHEAD && if hashed then Ready() && lookahead >= 2
                 else strstart == 0
      modifies this, window, prev, head, reader
      ensures Filled() && (hashed ==> Ready()) && lookahead >= old(lookahead) && (eofile || lookahead > old(lookahead))
      ensures base + strstart == old(base + strstart) && base + blockStart == old(base + blockStart)
      ensures base >= old(base)
      ensures old(strstart) >= 1 ==> strstart >= 1
      ensures matchStart == U32(old(matchStart) - (base - old(base)))
              || (base == old(base) && matchStart == old(matchStart))
      ensures old(reader.delivered) <= reader.delivered
      ensures |reader.rest| + lookahead == |old(reader.rest)| + old(lookahead)
      ensures !hashed ==> strstart == 0 && base == old(base) && hs == old(hs) && head[..] == old(head[..])
    {
      var more := WINDOW_SIZE - lookahead - strstart;
      if strstart >= WSIZE + MAX_DIST {
        Slide();
        more := more + WSIZE;
      }
      ReadMore(more, hashed);
    }

    /** lm_init: the first bytes of the input, and the hash of the first two. */
    method LmInit()
      requires Shape() && reader.Valid() && reader.delivered == []
      requires Going(reader.chunks, reader.plan, []) == true
      modifies this, window, prev, head, reader
      ensures Filled() && base == 0 && strstart == 0 && blockStart == 0 && (lookahead > 0 ==> Ready())
      ensures lookahead < MIN_LOOKAHEAD ==> eofile
      ensures |reader.rest| + lookahead == |old(reader.rest)|
    {
      FirstRead();
      if lookahead == 0 {
        return;
      }
      FillFirst();
      insH := 0;
      insH := UpdateHash(insH, window[0]);
      insH := UpdateHash(insH, window[1]);
      IndexEmpty(window[..], prev[..], head[..], insH);
    }

    /** An empty hash table, and the first read. */
    method FirstRead()
      requires Shape() && reader.Valid() && reader.delivered == []
      requires Going(reader.chunks, reader.plan, []) == true
      modifies this, window, head, reader
      ensures Filled() && base == 0 && strstart == 0 && blockStart == 0 && hs == []
      ensures forall h :: 0 <= h < HASH_SIZE ==> head[..][h] == NIL
      ensures (lookahead == 0 ==> eofile) && |reader.rest| + lookahead == |old(reader.rest)|
    {
      ClearHead();
      strstart, blockStart, lookahead, eofile := 0, 0, 0, false;
      base, hs, valid := 0, [], 0;
      EmptyContent(window[..], reader.delivered);
      ReadMore(WINDOW_SIZE, false);
    }

    /** Make sure of enough lookahead before the first position. */
    method FillFirst()
      requires Filled() && base == 0 && strstart == 0 && blockStart == 0 && lookahead > 0 && hs == []
      modifies this, window, prev, head, reader
      ensures Filled() && base == 0 && strstart == 0 && blockStart == 0 && hs == []
      ensures (lookahead < MIN_LOOKAHEAD ==> eofile)
      ensures head[..] == old(head[..]) && |reader.rest| + lookahead == |old(reader.rest)| + old(lookahead)
    {
      while lookahead < MIN_LOOKAHEAD && !eofile
        invariant Filled() && base == 0 && strstart == 0 && blockStart == 0 && hs == []
        invariant head[..] == old(head[..]) && |reader.rest| + lookahead == |old(reader.rest)| + old(lookahead)
        decreases WINDOW_SIZE - lookahead, !eofile
      {
        FillWindow(false);
      }
    }

    method ClearHead()
      requires Shape()
      modifies head
      ensures forall h :: 0 <= h < HASH_SIZE ==> head[..][h] == NIL
    {
      var n := 0;
      while n < HASH_SIZE
        invariant 0 <= n <= HASH_SIZE && forall h :: 0 <= h < n ==> head[h] == NIL
      {
        head[n] := NIL;
        n := n + 1;
      }
    }
  }
}
