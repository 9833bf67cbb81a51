/** A block that gzip stores although coding it takes fewer bits: the bytes 241 to 255 at the start of a file. */
module StoredExample {
  import opened Bits
  import opened HuffmanCode
  import opened Lz77
  import opened Inflate
  import opened Tables
  import opened CodeLengths
  import opened HuffmanMerge
  import opened HuffmanLeaves
  import opened HuffmanBuild
  import opened HuffmanCoder
  import opened TokenCode
  import opened TokenCost
  import opened BlockData
  import opened BlockHeader
  import opened BlockDecode
  import opened BlockTrees
  import opened StoredBound
  import opened BlockCoder

  const FIRST := 241

  /** The first n of the bytes. */
  function High(n: nat): (r: seq<byte>)
    requires n <= 15
    ensures |r| == n
  {
    seq(n, i requires 0 <= i < n => FIRST + i)
  }

  // ----- bytes that are all different leave no choice but literals -----

  ghost function Literals(data: seq<byte>): (r: seq<Token>)
    ensures AllOk(r) && |r| == |data|
  {
    seq(|data|, i requires 0 <= i < |data| => Literal(data[i]))
  }

  ghost predicate AllDifferent(s: seq<byte>) {
    forall i, j :: 0 <= i < j < |s| ==> s[i] != s[j]
  }

  lemma CopyFirst(out: seq<byte>, len: nat, dist: nat)
    requires 1 <= dist <= |out| && len >= 1
    ensures CopyMatch(out, len, dist)[|out|] == out[|out| - dist]
  {
    assert out + [out[|out| - dist]] <= CopyMatch(out, len, dist);
  }

  lemma {:induction false} OnlyLiterals(out: seq<byte>, tokens: seq<Token>, data: seq<byte>)
    requires AllOk(tokens) && Reaches(|out|, tokens) && Expand(out, tokens) == out + data && AllDifferent(out + data)
    ensures tokens == Literals(data)
    decreases |tokens|
  {
    var all := out + data;
    if tokens == [] {
      assert all[|out|..] == data;
    } else if tokens[0].Literal? {
      var c := tokens[0].c;
      assert out + [c] <= all;
      assert data[0] == all[|out|] == c;
      assert all == (out + [c]) + data[1..];
      OnlyLiterals(out + [c], tokens[1..], data[1..]);
      assert tokens == [tokens[0]] + tokens[1..];
      assert Literals(data) == [Literal(c)] + Literals(data[1..]);
    } else {
      var t := tokens[0];
      assert CopyMatch(out, t.len, t.dist) <= all;
      CopyFirst(out, t.len, t.dist);
    }
  }

  // ----- what they cost -----

  /** The sum of n code lengths from the first of the bytes on. */
  ghost function LenSum(lens: seq<nat>, n: nat): nat
    requires FIRST + n <= |lens|
  {
    if n == 0 then 0 else LenSum(lens, n - 1) + lens[FIRST + n - 1]
  }

  lemma {:induction false} LiteralBits(lits: seq<nat>, dists: seq<nat>, n: nat)
    requires n <= 15 && |lits| >= 257 && AllCoded(lits, dists, Literals(High(n)))
    ensures |TokensBits(lits, dists, Literals(High(n)))| == LenSum(lits, n)
  {
    if n > 0 {
      var init, t := Literals(High(n - 1)), Literals(High(n))[n - 1];
      assert Literals(High(n)) == init + [t];
      assert forall i :: 0 <= i < n - 1 ==> init[i] == Literals(High(n))[i];
      LiteralBits(lits, dists, n - 1);
      TokensBitsSnoc(lits, dists, init, t);
    }
  }

  /** With the fixed codes: nine bits for each, and seven for the end. */
  lemma {:induction false} FixedSum(n: nat)
    requires n <= 15
    ensures LenSum(FIXED_LITS, n) == 9 * n
  {
    if n > 0 {
      FixedSum(n - 1);
      FixedLen(FIRST + n - 1);
    }
  }

  lemma FixedTotal()
    ensures |FixedBits(Literals(High(15)))| == 142
  {
    FixedCoded(Literals(High(15)));
    LiteralBits(FIXED_LITS, FIXED_DISTS, 15);
    FixedSum(15);
    FixedLen(END_BLOCK);
  }

  lemma Powers()
    ensures Pow2(11) == 2048 && Pow2(12) == 4096 && Pow2(13) == 8192 && Pow2(MAX_BITS) == 32768
  {
    Pow2Words();
    assert Pow2(10) == 1024;
  }

  /** A tangent to the powers of two. */
  lemma Tangent(l: nat)
    requires 1 <= l <= MAX_BITS
    ensures Pow2(MAX_BITS - l) >= 2048 * (5 - l)
  {
    if l < 5 {
      Powers();
      Pow2Mono(11, MAX_BITS - l);
      if l <= 3 { Pow2Mono(12, MAX_BITS - l); }
      if l <= 2 { Pow2Mono(13, MAX_BITS - l); }
    }
  }

  lemma {:induction false} KraftPrefix(lens: seq<nat>, n: nat)
    requires n <= |lens|
    ensures KraftSum(lens[..n], MAX_BITS) <= KraftSum(lens, MAX_BITS)
    decreases |lens|
  {
    if n < |lens| {
      var init := lens[..|lens| - 1];
      KraftPrefix(init, n);
      assert init[..n] == lens[..n];
    } else {
      assert lens[..n] == lens;
    }
  }

  lemma {:induction false} KraftBound(lens: seq<nat>, n: nat)
    requires FIRST + n <= |lens| && forall x :: FIRST <= x < FIRST + n ==> HasCode(lens, x)
    ensures KraftSum(lens[..FIRST + n], MAX_BITS) >= 2048 * (5 * n - LenSum(lens, n))
  {
    if n > 0 {
      var k := FIRST + n;
      KraftBound(lens, n - 1);
      assert lens[..k][..k - 1] == lens[..k - 1] && HasCode(lens, k - 1);
      Tangent(lens[k - 1]);
    }
  }

  /** Sixteen symbols take at least four bits each, on the average. */
  lemma SixtyFourBits(lens: seq<nat>)
    requires |lens| >= 257 && Decodable(lens) && forall x :: FIRST <= x < FIRST + 16 ==> HasCode(lens, x)
    ensures LenSum(lens, 16) >= 64
  {
    KraftBound(lens, 16);
    KraftPrefix(lens, FIRST + 16);
    Powers();
  }

  /** A list of lengths takes at least a bit for every eighteen of them. */
  lemma {:induction false} SymsTake(cl: seq<nat>, acc: seq<nat>, syms: seq<ClSym>, result: seq<nat>)
    requires Expands(acc, syms, result) && AllValid(syms) && Sendable(cl, syms) && |cl| == BL_CODES
    ensures 18 * |SymsBits(cl, syms)| >= |result| - |acc|
    decreases |syms|
  {
    if syms != [] {
      var c := syms[0];
      assert c.Valid() && Sendable(cl, syms[1..]);
      SymsTake(cl, Step(acc, c), syms[1..], result);
      SymTakes(cl, acc, c);
    }
  }

  lemma SymTakes(cl: seq<nat>, acc: seq<nat>, c: ClSym)
    requires |cl| == BL_CODES && c.Valid() && cl[c.Symbol()] > 0 && (c.Repeat? ==> acc != [])
    ensures 18 * |SymBits(cl, c)| >= |Step(acc, c)| - |acc|
  {
    assert |SymBits(cl, c)| == cl[c.Symbol()] + ClExtra(c.Symbol());
  }

  // ----- the distance tree of a block without matches -----

  lemma {:induction false} NoDists(data: seq<byte>)
    ensures forall x :: 0 <= x < D_CODES ==> DistFreqs(Literals(data))[x] == 0
  {
    if data != [] {
      var k := |data| - 1;
      assert Literals(data)[..k] == Literals(data[..k]);
      NoDists(data[..k]);
    }
  }

  lemma {:induction false} NoOneBit(lens: seq<nat>)
    requires forall x :: 0 <= x < |lens| ==> lens[x] != 1 && (lens[x] > 0 ==> x <= 2)
    ensures KraftSum(lens, MAX_BITS) <= 8192 * if |lens| < 3 then |lens| else 3
  {
    if lens != [] {
      var k := |lens| - 1;
      NoOneBit(lens[..k]);
      if 0 < lens[k] <= MAX_BITS {
        Powers();
        Pow2Mono(MAX_BITS - lens[k], 13);
      }
    }
  }

  /** The codes forced into it have one bit. */
  lemma OneBit(dlens: seq<nat>, freqs: seq<nat>)
    requires LengthsFor(dlens, freqs, MAX_BITS) && forall x :: 0 <= x < |freqs| ==> freqs[x] == 0
    ensures 1 in dlens
  {
    assert Opened(TreeSeal, 0);
    var f :| LengthsBy(dlens, freqs, f, MAX_BITS);
    var all, top := Padded(dlens, |freqs|), |dlens|;
    LensComplete(all, f, |freqs|, top, MAX_BITS);
    assert all[..top] == dlens;
    Powers();
    if 1 !in dlens {
      forall x | 0 <= x < top ensures dlens[x] != 1 && (dlens[x] > 0 ==> x <= 2) {
        assert all[x] == dlens[x] && dlens[x] in dlens;
      }
      NoOneBit(dlens);
    }
  }

  /** A length that occurs needs its symbol. */
  lemma {:induction false} LenSym(acc: seq<nat>, syms: seq<ClSym>, result: seq<nat>, v: nat) returns (i: nat)
    requires Expands(acc, syms, result) && AllValid(syms) && v != 0 && v !in acc && v in result
    ensures i < |syms| && syms[i] == Len(v)
    decreases |syms|
  {
    if syms[0] == Len(v) {
      i := 0;
    } else {
      assert v !in Step(acc, syms[0]);
      i := LenSym(Step(acc, syms[0]), syms[1..], result, v);
      i := i + 1;
    }
  }

  /** The symbol of length 1 stands near the end of the order. */
  lemma ManyClLens(cl: seq<nat>, blcodes: nat, llens: seq<nat>, dlens: seq<nat>)
    requires HeaderOk(CL_ORDER, cl, blcodes, llens, dlens) && 1 in dlens
    ensures blcodes >= 18
  {
    EncodeExpands(dlens);
    var i := LenSym([], Encode(dlens), dlens, 1);
    assert Encode(dlens)[i].Valid() && Encode(dlens)[i].Symbol() == 1;
    assert CL_ORDER[17] == 1;
  }

  /** With codes of its own, the block takes more bits than with the fixed codes. */
  lemma DynamicTotal(bits: seq<bool>, cl: seq<nat>, blcodes: nat, llens: seq<nat>, dlens: seq<nat>)
    requires DynamicWith(bits, Literals(High(15)), cl, blcodes, llens, dlens)
    ensures |bits| >= 147
  {
    var tokens := Literals(High(15));
    assert 1 in dlens by {
      assert Opened(TreeSeal, 0);
      NoDists(High(15));
      OneBit(dlens, DistFreqs(tokens));
    }
    ManyClLens(cl, blcodes, llens, dlens);
    HeaderLength(CL_ORDER, cl, blcodes, llens, dlens);
    EncodeExpands(llens);
    SymsTake(cl, [], Encode(llens), llens);
    OwnTotal(llens, dlens, tokens);
  }

  lemma OwnTotal(llens: seq<nat>, dlens: seq<nat>, tokens: seq<Token>)
    requires tokens == Literals(High(15)) && AllCoded(llens, dlens, tokens) && HasCode(llens, END_BLOCK)
    requires Decodable(llens) && |llens| >= 257
    ensures |DataBits(llens, dlens, tokens)| >= 64
  {
    LiteralBits(llens, dlens, 15);
    forall x | FIRST <= x < FIRST + 16 ensures HasCode(llens, x) {
      if x < 256 { assert Coded(llens, dlens, tokens[x - FIRST]); }
    }
    SixtyFourBits(llens);
    assert LenSum(llens, 16) == LenSum(llens, 15) + llens[END_BLOCK];
  }

  // ----- the example -----

  /** Whatever tokens stand for these bytes at the start of a file, the block that flush_block chooses for them is the
  stored one, which takes at least ten bits more than the fixed codes. */
  lemma StoredTooSoon(off: nat, enc: seq<bool>, tokens: seq<Token>, eof: bool)
    requires StandFor(tokens, [], High(15)) && Chosen(off, enc, tokens, High(15), eof)
    ensures AllOk(tokens) && |enc| >= 3 + |FixedBits(tokens)| + 10
  {
    var dynBits := ChosenFrom(off, enc, tokens, High(15), eof);
    MustBeLiterals(tokens);
    DynamicLong(dynBits);
    FixedTotal();
    StoredLonger(off, FixedBits(tokens), dynBits, eof);
  }

  lemma ChosenFrom(off: nat, enc: seq<bool>, tokens: seq<Token>, data: seq<byte>, eof: bool)
    returns (dynBits: seq<bool>)
    requires Chosen(off, enc, tokens, data, eof)
    ensures AllOk(tokens) && Dynamic(dynBits, tokens)
    ensures enc == BestBlock(off, data, FixedBits(tokens), dynBits, eof)
  {
    assert Opened(ChoiceSeal, 0);
    dynBits :| Dynamic(dynBits, tokens) && enc == BestBlock(off, data, FixedBits(tokens), dynBits, eof);
  }

  lemma MustBeLiterals(tokens: seq<Token>)
    requires AllOk(tokens) && StandFor(tokens, [], High(15))
    ensures tokens == Literals(High(15))
  {
    var none: seq<byte> := [];
    assert none + High(15) == High(15);
    OnlyLiterals(none, tokens, High(15));
  }

  lemma DynamicLong(dynBits: seq<bool>)
    requires Dynamic(dynBits, Literals(High(15)))
    ensures |dynBits| >= 147
  {
    var cl, blcodes, llens, dlens :| DynamicWith(dynBits, Literals(High(15)), cl, blcodes, llens, dlens);
    DynamicTotal(dynBits, cl, blcodes, llens, dlens);
  }

  lemma StoredLonger(off: nat, fixedBits: seq<bool>, dynBits: seq<bool>, eof: bool)
    requires |fixedBits| == 142 && |dynBits| >= 147
    ensures |BestBlock(off, High(15), fixedBits, dynBits, eof)| >= 155
  {
    BestLength(off, High(15), fixedBits, dynBits, eof, LenB(|fixedBits|), LenB(|dynBits|));
    StoredBits(off, High(15));
  }
}
