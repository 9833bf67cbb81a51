/** Run-length coding of code lengths: `scan_tree` and `send_tree`, against
the decoder of section 3.2.7 of RFC 1951. */
module CodeLengths {
  import opened Bits
  import opened BitWriter
  import opened HuffmanCode
  import opened Inflate

  const BL_CODES := 19
  const REP_3_6 := 16
  const REPZ_3_10 := 17
  const REPZ_11_138 := 18
  const GUARD := 0xffff

  datatype ClSym = Len(l: nat) | Repeat(n: nat) | ShortZeros(n: nat) | LongZeros(n: nat)
  {
    predicate Valid() {
      match this
      case Len(l) => l <= MAX_BITS
      case Repeat(n) => 3 <= n <= 6
      case ShortZeros(n) => 3 <= n <= 10
      case LongZeros(n) => 11 <= n <= 138
    }

    function Symbol(): (s: nat)
      requires Valid()
      ensures s < BL_CODES
    {
      match this
      case Len(l) => l
      case Repeat(_) => REP_3_6
      case ShortZeros(_) => REPZ_3_10
      case LongZeros(_) => REPZ_11_138
    }

    /** The repeat count, as the value of the extra bits. */
    function Extra(): (x: nat)
      requires Valid()
      ensures x < Pow2(ClExtra(Symbol()))
    {
      match this
      case Len(_) => 0
      case Repeat(n) => n - 3
      case ShortZeros(n) => n - 3
      case LongZeros(n) => assert Pow2(7) == 128; n - 11
    }
  }

  predicate AllValid(syms: seq<ClSym>) {
    forall i :: 0 <= i < |syms| ==> syms[i].Valid()
  }

  /** max_count and min_count for a run of `cur` after `prev`. */
  function MaxCount(prev: int, cur: nat): nat {
    if cur == 0 then 138 else if prev == cur then 6 else 7
  }

  function MinCount(prev: int, cur: nat): nat {
    if cur == 0 || prev == cur then 3 else 4
  }

  function Copies(count: nat, c: ClSym): (r: seq<ClSym>)
    ensures |r| == count
  {
    seq(count, _ => c)
  }

  /** The symbols for a maximal run of `count` lengths `cur`. */
  function Run(prev: int, cur: nat, count: nat): (r: seq<ClSym>)
    requires cur <= MAX_BITS && 1 <= count <= MaxCount(prev, cur)
    ensures AllValid(r)
  {
    if count < MinCount(prev, cur) then Copies(count, Len(cur))
    else if cur != 0 then
      if cur != prev then [Len(cur), Repeat(count - 1)] else [Repeat(count)]
    else if count <= 10 then [ShortZeros(count)]
    else [LongZeros(count)]
  }

  predicate Lengths(lens: seq<nat>) {
    forall i :: 0 <= i < |lens| ==> lens[i] <= MAX_BITS
  }

  /** The symbols for lens[n..], `count` lengths equal to lens[n] being already pending. */
  function Rle(lens: seq<nat>, n: nat, prev: int, count: nat): (r: seq<ClSym>)
    requires Lengths(lens) && n <= |lens|
    requires n < |lens| ==> count < MaxCount(prev, lens[n])
    ensures AllValid(r)
    decreases |lens| - n
  {
    if n == |lens| then []
    else if count + 1 < MaxCount(prev, lens[n]) && n + 1 < |lens| && lens[n + 1] == lens[n] then
      Rle(lens, n + 1, prev, count + 1)
    else
      Run(prev, lens[n], count + 1) + Rle(lens, n + 1, lens[n], 0)
  }

  function Encode(lens: seq<nat>): (r: seq<ClSym>)
    requires Lengths(lens)
    ensures AllValid(r)
  {
    Rle(lens, 0, -1, 0)
  }

  // ----- meaning -----

  /** What one symbol adds to the lengths decoded so far. */
  function Step(acc: seq<nat>, c: ClSym): seq<nat>
    requires c.Repeat? ==> acc != []
  {
    match c
    case Len(l) => acc + [l]
    case Repeat(n) => acc + Rep(n, acc[|acc| - 1])
    case ShortZeros(n) => acc + Rep(n, 0)
    case LongZeros(n) => acc + Rep(n, 0)
  }

  ghost predicate Expands(acc: seq<nat>, syms: seq<ClSym>, result: seq<nat>)
    decreases |syms|
  {
    if syms == [] then acc == result
    else (syms[0].Repeat? ==> acc != []) && Expands(Step(acc, syms[0]), syms[1..], result)
  }

  lemma {:induction false} ExpandsAppend(acc: seq<nat>, a: seq<ClSym>, mid: seq<nat>, b: seq<ClSym>, result: seq<nat>)
    requires Expands(acc, a, mid) && Expands(mid, b, result)
    ensures Expands(acc, a + b, result)
    decreases |a|
  {
    if a == [] {
      assert a + b == b;
    } else {
      ExpandsAppend(Step(acc, a[0]), a[1..], mid, b, result);
      assert (a + b)[1..] == a[1..] + b;
    }
  }

  lemma {:induction false} CopiesExpand(acc: seq<nat>, count: nat, cur: nat)
    ensures Expands(acc, Copies(count, Len(cur)), acc + Rep(count, cur))
    decreases count
  {
    if count == 0 {
      assert acc + Rep(0, cur) == acc;
    } else {
      CopiesExpand(acc + [cur], count - 1, cur);
      assert Copies(count, Len(cur))[1..] == Copies(count - 1, Len(cur));
      assert acc + [cur] + Rep(count - 1, cur) == acc + Rep(count, cur);
    }
  }

  lemma RunExpands(acc: seq<nat>, prev: int, cur: nat, count: nat)
    requires cur <= MAX_BITS && 1 <= count <= MaxCount(prev, cur)
    requires prev >= 0 ==> acc != [] && acc[|acc| - 1] == prev
    ensures Expands(acc, Run(prev, cur, count), acc + Rep(count, cur))
  {
    if count < MinCount(prev, cur) {
      CopiesExpand(acc, count, cur);
    } else {
      SingleExpands(acc, prev, cur, count);
    }
  }

  lemma SingleExpands(acc: seq<nat>, prev: int, cur: nat, count: nat)
    requires cur <= MAX_BITS && MinCount(prev, cur) <= count <= MaxCount(prev, cur)
    requires prev >= 0 ==> acc != [] && acc[|acc| - 1] == prev
    ensures Expands(acc, Run(prev, cur, count), acc + Rep(count, cur))
  {
    var run := Run(prev, cur, count);
    if cur != 0 && cur != prev {
      var one := acc + [cur];
      assert run[1..] == [Repeat(count - 1)] && run[1..][1..] == [];
      assert one + Rep(count - 1, cur) == acc + Rep(count, cur);
      assert Expands(one, run[1..], one + Rep(count - 1, cur));
    } else {
      assert run[1..] == [];
      assert Step(acc, run[0]) == acc + Rep(count, cur);
    }
  }

  lemma {:induction false} RleExpands(lens: seq<nat>, n: nat, prev: int, count: nat)
    requires Lengths(lens) && count <= n <= |lens|
    requires n < |lens| ==> count < MaxCount(prev, lens[n]) && forall i :: n - count <= i < n ==> lens[i] == lens[n]
    requires n == |lens| ==> count == 0
    requires prev >= 0 ==> n > count && lens[n - count - 1] == prev
    ensures Expands(lens[..n - count], Rle(lens, n, prev, count), lens)
    decreases |lens| - n
  {
    if n == |lens| {
      assert lens[..n] == lens;
    } else if count + 1 < MaxCount(prev, lens[n]) && n + 1 < |lens| && lens[n + 1] == lens[n] {
      RleExpands(lens, n + 1, prev, count + 1);
    } else {
      var run, tail := Run(prev, lens[n], count + 1), Rle(lens, n + 1, lens[n], 0);
      RleExpands(lens, n + 1, lens[n], 0);
      RunIsSlice(lens, n, prev, count);
      ExpandsAppend(lens[..n - count], run, lens[..n + 1], tail, lens);
    }
  }

  lemma RunIsSlice(lens: seq<nat>, n: nat, prev: int, count: nat)
    requires Lengths(lens) && count <= n < |lens|
    requires count < MaxCount(prev, lens[n]) && forall i :: n - count <= i < n ==> lens[i] == lens[n]
    requires prev >= 0 ==> n > count && lens[n - count - 1] == prev
    ensures Expands(lens[..n - count], Run(prev, lens[n], count + 1), lens[..n + 1])
  {
    var acc := lens[..n - count];
    RunExpands(acc, prev, lens[n], count + 1);
    assert acc + Rep(count + 1, lens[n]) == lens[..n + 1];
  }

  /** The symbols chosen for a sequence of lengths expand to exactly those lengths. */
  lemma EncodeExpands(lens: seq<nat>)
    requires Lengths(lens)
    ensures Expands([], Encode(lens), lens)
  {
    RleExpands(lens, 0, -1, 0);
    assert lens[..0] == [];
  }

  lemma {:induction false} ExpandsShift(p: seq<nat>, acc: seq<nat>, syms: seq<ClSym>, result: seq<nat>)
    requires Expands(acc, syms, result)
    ensures Expands(p + acc, syms, p + result)
    decreases |syms|
  {
    if syms != [] {
      ExpandsShift(p, Step(acc, syms[0]), syms[1..], result);
      assert Step(p + acc, syms[0]) == p + Step(acc, syms[0]);
    }
  }

  lemma {:induction false} ExpandsGrows(acc: seq<nat>, syms: seq<ClSym>, result: seq<nat>)
    requires Expands(acc, syms, result)
    ensures |acc| <= |result|
    decreases |syms|
  {
    if syms != [] { ExpandsGrows(Step(acc, syms[0]), syms[1..], result); }
  }

  // ----- the bits sent -----

  /** Every symbol has a code in the code length code cl. */
  ghost predicate Sendable(cl: seq<nat>, syms: seq<ClSym>) {
    && |cl| == BL_CODES && AllValid(syms)
    && forall i :: 0 <= i < |syms| ==> 0 < cl[syms[i].Symbol()] <= MAX_BITS
  }

  ghost function SymBits(cl: seq<nat>, c: ClSym): seq<bool>
    requires |cl| == BL_CODES && c.Valid() && cl[c.Symbol()] > 0
  {
    CodeBits(cl, c.Symbol()) + ToBits(c.Extra(), ClExtra(c.Symbol()))
  }

  ghost function SymsBits(cl: seq<nat>, syms: seq<ClSym>): seq<bool>
    requires Sendable(cl, syms)
  {
    if syms == [] then [] else SymBits(cl, syms[0]) + SymsBits(cl, syms[1..])
  }

  lemma {:induction false} SymsBitsAppend(cl: seq<nat>, a: seq<ClSym>, b: seq<ClSym>)
    requires Sendable(cl, a + b)
    ensures Sendable(cl, a) && Sendable(cl, b)
    ensures SymsBits(cl, a + b) == SymsBits(cl, a) + SymsBits(cl, b)
  {
    SendableSplit(cl, a, b);
    if a == [] {
      assert a + b == b;
    } else {
      assert (a + b)[1..] == a[1..] + b && (a + b)[0] == a[0];
      SymsBitsAppend(cl, a[1..], b);
      Assoc(SymBits(cl, a[0]), SymsBits(cl, a[1..]), SymsBits(cl, b));
    }
  }

  lemma SendableSplit(cl: seq<nat>, a: seq<ClSym>, b: seq<ClSym>)
    requires Sendable(cl, a + b)
    ensures Sendable(cl, a) && Sendable(cl, b)
  {
    var all := a + b;
    forall i | 0 <= i < |a| ensures a[i].Valid() && 0 < cl[a[i].Symbol()] <= MAX_BITS { assert all[i] == a[i]; }
    forall i | 0 <= i < |b| ensures b[i].Valid() && 0 < cl[b[i].Symbol()] <= MAX_BITS { assert all[|a| + i] == b[i]; }
  }

  lemma ReadOwnBits(v: nat, n: nat, rest: seq<bool>)
    requires v < Pow2(n)
    ensures ReadBits(ToBits(v, n) + rest, n) == Some((v, rest))
  {
    var s := ToBits(v, n) + rest;
    assert s[..n] == ToBits(v, n) && s[n..] == rest;
    ValToBits(v, n);
  }

  lemma DecodeOwnLen(cl: seq<nat>, c: ClSym, rest: seq<bool>, acc: seq<nat>)
    requires |cl| == BL_CODES && Decodable(cl) && c.Valid() && 0 < cl[c.Symbol()] <= MAX_BITS
    requires c.Repeat? ==> acc != []
    ensures DecodeOneLen(cl, SymBits(cl, c) + rest, acc) == Some((Step(acc, c), rest))
  {
    var sym, x := c.Symbol(), c.Extra();
    var extra := ToBits(x, ClExtra(sym));
    assert SymBits(cl, c) + rest == CodeBits(cl, sym) + (extra + rest);
    DecodeOwnCode(cl, sym, extra + rest);
    ReadOwnBits(x, ClExtra(sym), rest);
    assert ClStep(sym, x, acc) == Some(Step(acc, c));
  }

  /** The decoder reads the symbols sent and rebuilds the lengths they stand for. */
  lemma {:induction false} DecodeSyms(cl: seq<nat>, syms: seq<ClSym>, rest: seq<bool>, total: nat, acc: seq<nat>,
                                      result: seq<nat>)
    requires Sendable(cl, syms) && Decodable(cl)
    requires Expands(acc, syms, result) && |result| <= total
    ensures DecodeLens(cl, SymsBits(cl, syms) + rest, total, acc) == DecodeLens(cl, rest, total, result)
    decreases |syms|
  {
    if syms == [] {
      assert SymsBits(cl, syms) + rest == rest;
    } else {
      var c, tail := syms[0], SymsBits(cl, syms[1..]) + rest;
      ExpandsGrows(Step(acc, c), syms[1..], result);
      assert SymsBits(cl, syms) + rest == SymBits(cl, c) + tail;
      DecodeOwnLen(cl, c, tail, acc);
      DecodeSyms(cl, syms[1..], rest, total, Step(acc, c), result);
    }
  }

  // ----- the common loop of scan_tree and send_tree -----

  /** Before length n: `done` is settled, and `count` copies of lens[n] are pending after `prev`. */
  ghost predicate At(lens: seq<nat>, n: nat, prev: int, count: nat, done: seq<ClSym>) {
    && Lengths(lens) && n <= |lens| && AllValid(done)
    && (n < |lens| ==> count < MaxCount(prev, lens[n]))
    && done + Rle(lens, n, prev, count) == Encode(lens)
  }

  predicate Continues(lens: seq<nat>, n: nat, prev: int, count: nat)
    requires n < |lens|
  {
    count + 1 < MaxCount(prev, lens[n]) && n + 1 < |lens| && lens[n + 1] == lens[n]
  }

  lemma AtStart(lens: seq<nat>)
    requires Lengths(lens)
    ensures At(lens, 0, -1, 0, [])
  {
    assert [] + Encode(lens) == Encode(lens);
  }

  lemma AtStep(lens: seq<nat>, n: nat, prev: int, count: nat, done: seq<ClSym>)
    requires At(lens, n, prev, count, done) && n < |lens|
    ensures Continues(lens, n, prev, count) ==> At(lens, n + 1, prev, count + 1, done)
    ensures !Continues(lens, n, prev, count) ==> At(lens, n + 1, lens[n], 0, done + Run(prev, lens[n], count + 1))
  {
    if !Continues(lens, n, prev, count) {
      Assoc(done, Run(prev, lens[n], count + 1), Rle(lens, n + 1, lens[n], 0));
    }
  }

  lemma AtEnd(lens: seq<nat>, prev: int, count: nat, done: seq<ClSym>)
    requires At(lens, |lens|, prev, count, done)
    ensures done == Encode(lens)
  {
    assert done + [] == done;
  }

  // ----- scan_tree -----

  /** Symbol frequencies after counting syms. */
  function Tally(freq: seq<nat>, syms: seq<ClSym>): (r: seq<nat>)
    requires |freq| == BL_CODES && AllValid(syms)
    ensures |r| == BL_CODES
  {
    if syms == [] then freq
    else
      var k := |syms| - 1;
      var f, c := Tally(freq, syms[..k]), syms[k].Symbol();
      f[c := f[c] + 1]
  }

  lemma {:induction false} TallyAppend(freq: seq<nat>, a: seq<ClSym>, b: seq<ClSym>)
    requires |freq| == BL_CODES && AllValid(a) && AllValid(b)
    ensures AllValid(a + b) && Tally(freq, a + b) == Tally(Tally(freq, a), b)
  {
    if b == [] {
      assert a + b == a;
    } else {
      var k := |b| - 1;
      TallyAppend(freq, a, b[..k]);
      assert (a + b)[..|a| + k] == a + b[..k];
    }
  }

  lemma {:induction false} TallyCopies(freq: seq<nat>, count: nat, cur: nat)
    requires |freq| == BL_CODES && cur <= MAX_BITS
    ensures Tally(freq, Copies(count, Len(cur))) == freq[cur := freq[cur] + count]
  {
    if count > 0 {
      TallyCopies(freq, count - 1, cur);
      assert Copies(count, Len(cur))[..count - 1] == Copies(count - 1, Len(cur));
    }
  }

  /** The branches of scan_tree at the end of a run. */
  method CountRun(bfc: array<nat>, prev: int, cur: nat, count: nat)
    requires bfc.Length >= BL_CODES && cur <= MAX_BITS && 1 <= count <= MaxCount(prev, cur)
    modifies bfc
    ensures bfc[..BL_CODES] == Tally(old(bfc[..BL_CODES]), Run(prev, cur, count))
    ensures forall i :: BL_CODES <= i < bfc.Length ==> bfc[i] == old(bfc[i])
  {
    ghost var f := bfc[..BL_CODES];
    ghost var run := Run(prev, cur, count);
    if count < MinCount(prev, cur) {
      bfc[cur] := bfc[cur] + count;
      TallyCopies(f, count, cur);
    } else if cur != 0 {
      if cur != prev {
        bfc[cur] := bfc[cur] + 1;
        assert run[..1] == [Len(cur)] && [Len(cur)][..0] == [];
        assert Tally(f, [Len(cur)]) == f[cur := f[cur] + 1];
      } else {
        assert run[..0] == [];
      }
      bfc[REP_3_6] := bfc[REP_3_6] + 1;
    } else if count <= 10 {
      bfc[REPZ_3_10] := bfc[REPZ_3_10] + 1;
      assert run[..0] == [];
    } else {
      bfc[REPZ_11_138] := bfc[REPZ_11_138] + 1;
      assert run[..0] == [];
    }
  }

  /** Counts the symbols that SendTree will send for the lengths, and sets the guard behind them. */
  method ScanTree(dl: array<nat>, maxCode: nat, bfc: array<nat>)
    requires dl != bfc && maxCode + 1 < dl.Length && bfc.Length >= BL_CODES
    requires Lengths(dl[..maxCode + 1])
    modifies dl, bfc
    ensures bfc[..BL_CODES] == Tally(old(bfc[..BL_CODES]), Encode(old(dl[..maxCode + 1])))
    ensures dl[..] == old(dl[..])[maxCode + 1 := GUARD]
    ensures forall i :: BL_CODES <= i < bfc.Length ==> bfc[i] == old(bfc[i])
  {
    ghost var lens, f := dl[..maxCode + 1], bfc[..BL_CODES];
    ghost var done := [];
    AtStart(lens);
    var prevlen: int, nextlen, count := -1, dl[0], 0;
    var maxCount, minCount := if nextlen == 0 then 138 else 7, if nextlen == 0 then 3 else 4;
    dl[maxCode + 1] := GUARD;
    ghost var guarded := dl[..];
    var n := 0;
    while n <= maxCode
      invariant 0 <= n <= maxCode + 1 && dl[..] == guarded && nextlen == guarded[n]
      invariant maxCount == MaxCount(prevlen, nextlen) && minCount == MinCount(prevlen, nextlen)
      invariant At(lens, n, prevlen, count, done)
      invariant bfc[..BL_CODES] == Tally(f, done)
      invariant forall i :: BL_CODES <= i < bfc.Length ==> bfc[i] == old(bfc[i])
    {
      var curlen := nextlen;
      assert curlen == lens[n];
      AtStep(lens, n, prevlen, count, done);
      nextlen := dl[n + 1];
      assert nextlen == if n < maxCode then lens[n + 1] else GUARD;
      count := count + 1;
      if !(count < maxCount && curlen == nextlen) {
        CountRun(bfc, prevlen, curlen, count);
        TallyAppend(f, done, Run(prevlen, curlen, count));
        done := done + Run(prevlen, curlen, count);
        count := 0;
        prevlen := curlen;
        if nextlen == 0 {
          maxCount, minCount := 138, 3;
        } else if curlen == nextlen {
          maxCount, minCount := 6, 3;
        } else {
          maxCount, minCount := 7, 4;
        }
      }
      n := n + 1;
    }
    AtEnd(lens, prevlen, count, done);
  }

  // ----- send_tree -----

  /** The tree (fc, dl) holds the codes of the lengths `lens`. */
  ghost predicate CodesOf(fc: seq<nat>, dl: seq<nat>, lens: seq<nat>) {
    && |lens| <= |fc| && |lens| <= |dl|
    && dl[..|lens|] == lens && HasCodes(fc, lens, |lens|)
    && Lengths(lens)
  }

  /** The send_code macro. */
  method SendCode(w: Writer, c: nat, fc: seq<nat>, dl: seq<nat>, ghost lens: seq<nat>)
    requires w.Valid() && CodesOf(fc, dl, lens) == true && c < |lens| && lens[c] > 0
    modifies w, w.outbuf
    ensures w.Valid() && w.Stream() == old(w.Stream()) + CodeBits(lens, c)
  {
    assert dl[c] == dl[..|lens|][c];
    w.SendBits(fc[c], dl[c]);
  }

  lemma SymsBitsOne(cl: seq<nat>, c: ClSym)
    requires Sendable(cl, [c])
    ensures c.Valid() && cl[c.Symbol()] > 0 && SymsBits(cl, [c]) == SymBits(cl, c)
  {
    assert [c][0] == c && [c][1..] == [];
  }

  /** A symbol with a repeat count: send_code followed by send_bits. */
  method SendRepeat(w: Writer, c: ClSym, bfc: seq<nat>, bdl: seq<nat>, ghost cl: seq<nat>)
    requires w.Valid() && CodesOf(bfc, bdl, cl) == true && Sendable(cl, [c])
    modifies w, w.outbuf
    ensures w.Valid() && w.Stream() == old(w.Stream()) + SymsBits(cl, [c])
  {
    SymsBitsOne(cl, c);
    var sym := c.Symbol();
    SendCode(w, sym, bfc, bdl, cl);
    w.SendBits(c.Extra(), ClExtra(sym));
    Assoc(old(w.Stream()), CodeBits(cl, sym), ToBits(c.Extra(), ClExtra(sym)));
  }

  /** The code of one symbol, k times. */
  ghost function CopyBits(code: seq<bool>, k: nat): seq<bool> {
    if k == 0 then [] else CopyBits(code, k - 1) + code
  }

  lemma {:induction false} CopiesBits(cl: seq<nat>, cur: nat, k: nat)
    requires Sendable(cl, Copies(k, Len(cur))) && Len(cur).Valid() && |cl| == BL_CODES && cl[cur] > 0
    ensures SymsBits(cl, Copies(k, Len(cur))) == CopyBits(CodeBits(cl, cur), k)
  {
    if k > 0 {
      var init, one := Copies(k - 1, Len(cur)), [Len(cur)];
      assert Copies(k, Len(cur)) == init + one;
      SymsBitsAppend(cl, init, one);
      SymsBitsOne(cl, Len(cur));
      CopiesBits(cl, cur, k - 1);
      assert CodeBits(cl, cur) + [] == CodeBits(cl, cur);
    }
  }

  lemma CopySent(stream: seq<bool>, s: seq<bool>, code: seq<bool>, k: nat)
    requires k > 0 && stream == s + CopyBits(code, k - 1)
    ensures stream + code == s + CopyBits(code, k)
  {
    Assoc(s, CopyBits(code, k - 1), code);
  }

  lemma CopyCode(cl: seq<nat>, cur: nat, count: nat)
    requires count > 0 && Sendable(cl, Copies(count, Len(cur)))
    ensures Len(cur).Valid() && |cl| == BL_CODES && 0 < cl[cur] && cur < |cl|
  {
    assert Copies(count, Len(cur))[0] == Len(cur);
  }

  method SendCopies(w: Writer, cur: nat, count: nat, bfc: seq<nat>, bdl: seq<nat>, ghost cl: seq<nat>)
    requires w.Valid() && CodesOf(bfc, bdl, cl) == true && count > 0 && Sendable(cl, Copies(count, Len(cur))) == true
    modifies w, w.outbuf
    ensures w.Valid() && w.Stream() == old(w.Stream()) + SymsBits(cl, Copies(count, Len(cur)))
  {
    CopyCode(cl, cur, count);
    var left := count;
    ghost var s, k: nat, code := w.Stream(), 0, CodeBits(cl, cur);
    assert s + CopyBits(code, 0) == s;
    while left != 0
      invariant 0 <= left && k + left == count && w.Valid()
      invariant w.Stream() == s + CopyBits(code, k)
      decreases left
    {
      CopySent(w.Stream(), s, code, k + 1);
      SendCode(w, cur, bfc, bdl, cl);
      left, k := left - 1, k + 1;
    }
    CopiesBits(cl, cur, count);
  }

  /** The branches of send_tree at the end of a run. */
  method SendRun(w: Writer, prev: int, cur: nat, count: nat, bfc: seq<nat>, bdl: seq<nat>, ghost cl: seq<nat>)
    requires w.Valid() && CodesOf(bfc, bdl, cl) == true
    requires cur <= MAX_BITS && 1 <= count <= MaxCount(prev, cur) && Sendable(cl, Run(prev, cur, count))
    modifies w, w.outbuf
    ensures w.Valid() && w.Stream() == old(w.Stream()) + SymsBits(cl, Run(prev, cur, count))
  {
    if count < MinCount(prev, cur) {
      SendCopies(w, cur, count, bfc, bdl, cl);
    } else if cur != 0 {
      var left := count;
      if cur != prev {
        assert Run(prev, cur, count) == [Len(cur)] + [Repeat(count - 1)];
        SymsBitsAppend(cl, [Len(cur)], [Repeat(count - 1)]);
        SymsBitsOne(cl, Len(cur));
        SendCode(w, cur, bfc, bdl, cl);
        left := left - 1;
        assert SymsBits(cl, [Len(cur)]) == CodeBits(cl, cur);
        Assoc(old(w.Stream()), SymsBits(cl, [Len(cur)]), SymsBits(cl, [Repeat(count - 1)]));
      }
      SendRepeat(w, Repeat(left), bfc, bdl, cl);
    } else if count <= 10 {
      SendRepeat(w, ShortZeros(count), bfc, bdl, cl);
    } else {
      SendRepeat(w, LongZeros(count), bfc, bdl, cl);
    }
  }

  /** Between two iterations of send_tree: `done` has been sent after s, and `count` lengths are pending. */
  ghost predicate Midway(stream: seq<bool>, s: seq<bool>, cl: seq<nat>, lens: seq<nat>, n: nat, prev: int, count: nat,
                         done: seq<ClSym>) {
    forall k: int {:trigger Opened(LoopSeal, k)} :: Sealed(k) ==>
      && At(lens, n, prev, count, done) && SymsSent(stream, s, cl, done)
      && Lengths(lens) && Sendable(cl, Encode(lens))
  }

  lemma MidwayStart(s: seq<bool>, cl: seq<nat>, lens: seq<nat>)
    requires Lengths(lens) && lens != [] && Sendable(cl, Encode(lens))
    ensures Midway(s, s, cl, lens, 0, -1, 0, [])
  {
    AtStart(lens);
    var none: seq<ClSym> := [];
    assert s + SymsBits(cl, none) == s;
    assert SymsSent(s, s, cl, none) && At(lens, 0, -1, 0, none);
  }

  lemma MidwayEnd(stream: seq<bool>, s: seq<bool>, cl: seq<nat>, lens: seq<nat>, prev: int, count: nat,
                  done: seq<ClSym>)
    requires Midway(stream, s, cl, lens, |lens|, prev, count, done)
    ensures Lengths(lens) && Sendable(cl, Encode(lens)) && stream == s + SymsBits(cl, Encode(lens))
  {
    assert Opened(LoopSeal, 0);
    AtEnd(lens, prev, count, done);
  }

  /** What an iteration finds: the pending run goes on, or it can be sent. */
  lemma MidwayStep(stream: seq<bool>, s: seq<bool>, cl: seq<nat>, dl: seq<nat>, lens: seq<nat>, maxCode: nat, n: nat,
                   n1: nat, prev: int, count: nat, c: nat, cur: nat, next: nat, done: seq<ClSym>)
    requires maxCode + 1 < |dl| && dl[maxCode + 1] == GUARD && dl[..maxCode + 1] == lens && n <= maxCode
    requires Midway(stream, s, cl, lens, n, prev, count, done)
    requires n1 == n + 1 && c == count + 1 && cur == dl[n] && next == dl[n1]
    ensures cur <= MAX_BITS && 1 <= c <= MaxCount(prev, cur)
    ensures if c < MaxCount(prev, cur) && cur == next then Midway(stream, s, cl, lens, n1, prev, c, done) == true
            else && Sendable(cl, Run(prev, cur, c)) == true
                 && Midway(stream + SymsBits(cl, Run(prev, cur, c)), s, cl, lens, n1, cur, 0, done + Run(prev, cur, c))
                    == true
  {
    assert Opened(LoopSeal, 0);
    TreeStep(dl, lens, maxCode, n, n1, prev, count, c, cur, next, done);
    if !(c < MaxCount(prev, cur) && cur == next) {
      SentRun(stream, s, lens, cl, n1, cur, done, Run(prev, cur, c));
    }
  }

  /** One iteration of send_tree. */
  method TreeIteration(w: Writer, dl: seq<nat>, maxCode: nat, n: nat, prevlen: int, count: nat, maxCount: nat,
                       minCount: nat, bfc: seq<nat>, bdl: seq<nat>, ghost cl: seq<nat>, ghost lens: seq<nat>,
                       ghost s: seq<bool>, ghost done: seq<ClSym>)
    returns (prevlen': int, count': nat, maxCount': nat, minCount': nat, ghost done': seq<ClSym>)
    requires w.Valid() && CodesOf(bfc, bdl, cl) == true
    requires maxCode + 1 < |dl| && dl[maxCode + 1] == GUARD && dl[..maxCode + 1] == lens && n <= maxCode
    requires Midway(w.Stream(), s, cl, lens, n, prevlen, count, done) == true
    requires maxCount == MaxCount(prevlen, dl[n]) && minCount == MinCount(prevlen, dl[n])
    modifies w, w.outbuf
    ensures w.Valid() && Midway(w.Stream(), s, cl, lens, n + 1, prevlen', count', done') == true
    ensures maxCount' == MaxCount(prevlen', dl[n + 1]) && minCount' == MinCount(prevlen', dl[n + 1])
  {
    var curlen, nextlen := dl[n], dl[n + 1];
    prevlen', count', maxCount', done' := prevlen, count + 1, maxCount, done;
    minCount' := minCount;
    MidwayStep(w.Stream(), s, cl, dl, lens, maxCode, n, n + 1, prevlen, count, count', curlen, nextlen, done);
    if !(count' < maxCount && curlen == nextlen) {
      SendRun(w, prevlen, curlen, count', bfc, bdl, cl);
      done' := done + Run(prevlen, curlen, count');
      count', prevlen' := 0, curlen;
      if nextlen == 0 {
        maxCount', minCount' := 138, 3;
      } else if curlen == nextlen {
        maxCount', minCount' := 6, 3;
      } else {
        maxCount', minCount' := 7, 4;
      }
    }
  }

  /** Sends the lengths in compressed form with the codes of the bit length tree. */
  method SendTree(w: Writer, dl: seq<nat>, maxCode: nat, bfc: seq<nat>, bdl: seq<nat>, ghost cl: seq<nat>,
                  ghost lens: seq<nat>)
    requires w.Valid() && CodesOf(bfc, bdl, cl) == true
    requires maxCode + 1 < |dl| && dl[maxCode + 1] == GUARD
    requires dl[..maxCode + 1] == lens && Lengths(lens) && Sendable(cl, Encode(lens)) == true
    modifies w, w.outbuf
    ensures w.Valid() && w.Stream() == old(w.Stream()) + SymsBits(cl, Encode(lens))
  {
    ghost var s, done := w.Stream(), [];
    MidwayStart(s, cl, lens);
    var prevlen: int, count := -1, 0;
    var maxCount, minCount := if dl[0] == 0 then 138 else 7, if dl[0] == 0 then 3 else 4;
    var n := 0;
    while n <= maxCode
      invariant 0 <= n <= maxCode + 1 && w.Valid()
      invariant maxCount == MaxCount(prevlen, dl[n]) && minCount == MinCount(prevlen, dl[n])
      invariant Midway(w.Stream(), s, cl, lens, n, prevlen, count, done) == true
    {
      prevlen, count, maxCount, minCount, done :=
        TreeIteration(w, dl, maxCode, n, prevlen, count, maxCount, minCount, bfc, bdl, cl, lens, s, done);
      n := n + 1;
    }
    MidwayEnd(w.Stream(), s, cl, lens, prevlen, count, done);
  }

  /** What an iteration does to the pending run. */
  lemma TreeStep(dl: seq<nat>, lens: seq<nat>, maxCode: nat, n: nat, n1: nat, prev: int, count: nat, c: nat, cur: nat,
                 next: nat, done: seq<ClSym>)
    requires maxCode + 1 < |dl| && dl[maxCode + 1] == GUARD && dl[..maxCode + 1] == lens && n <= maxCode
    requires At(lens, n, prev, count, done) && n1 == n + 1 && c == count + 1 && cur == dl[n] && next == dl[n1]
    ensures cur <= MAX_BITS && 1 <= c <= MaxCount(prev, cur)
    ensures if c < MaxCount(prev, cur) && cur == next then At(lens, n1, prev, c, done) == true
            else At(lens, n1, cur, 0, done + Run(prev, cur, c)) == true
  {
    assert cur == lens[n] && next == if n < maxCode then lens[n1] else GUARD;
    AtStep(lens, n, prev, count, done);
  }

  /** The symbols in done have been sent after s. */
  ghost predicate SymsSent(stream: seq<bool>, s: seq<bool>, cl: seq<nat>, done: seq<ClSym>) {
    Sendable(cl, done) && stream == s + SymsBits(cl, done)
  }

  lemma SentRun(stream: seq<bool>, s: seq<bool>, lens: seq<nat>, cl: seq<nat>, n: nat, prev: int, done: seq<ClSym>,
                run: seq<ClSym>)
    requires SymsSent(stream, s, cl, done) && At(lens, n, prev, 0, done + run) && AllValid(run)
    requires Sendable(cl, Encode(lens))
    ensures Sendable(cl, run) && SymsSent(stream + SymsBits(cl, run), s, cl, done + run)
  {
    RunSendable(lens, cl, n, prev, done, run);
    Assoc(s, SymsBits(cl, done), SymsBits(cl, run));
  }

  lemma RunSendable(lens: seq<nat>, cl: seq<nat>, n: nat, prev: int, done: seq<ClSym>, run: seq<ClSym>)
    requires At(lens, n, prev, 0, done + run) && AllValid(done) && AllValid(run)
    requires Sendable(cl, Encode(lens))
    ensures Sendable(cl, done) && Sendable(cl, run) && Sendable(cl, done + run)
    ensures SymsBits(cl, done + run) == SymsBits(cl, done) + SymsBits(cl, run)
  {
    SendableSplit(cl, done + run, Rle(lens, n, prev, 0));
    SymsBitsAppend(cl, done, run);
  }
}
