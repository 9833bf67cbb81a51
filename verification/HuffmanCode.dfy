/** Canonical Huffman codes: section 3.2.2 of RFC 1951 as a specification,
`gen_codes` and `bi_reverse` of gzip as the program that must meet it. */
module HuffmanCode {
  import opened Bits

  const MAX_BITS := 15

  /** How many symbols have a code of exactly b bits. */
  function Count(lens: seq<nat>, b: nat): nat {
    if lens == [] then 0
    else Count(lens[..|lens| - 1], b) + if lens[|lens| - 1] == b then 1 else 0
  }

  /** Step 2 of section 3.2.2: the numerically smallest code of each length. */
  function NextCode(lens: seq<nat>, bits: nat): nat
    requires bits >= 1
  {
    2 * if bits == 1 then 0 else NextCode(lens, bits - 1) + Count(lens, bits - 1)
  }

  /** Step 3: consecutive values to the symbols of equal length, in symbol order. */
  function Code(lens: seq<nat>, n: nat): nat
    requires n < |lens| && lens[n] > 0
  {
    NextCode(lens, lens[n]) + Count(lens[..n], lens[n])
  }

  /** The n low bits of v, most significant first: the order in which codes are sent. */
  function RevBits(v: nat, n: nat): (r: seq<bool>)
    ensures |r| == n
  {
    if n == 0 then [] else RevBits(v / 2, n - 1) + [v % 2 == 1]
  }

  function CodeBits(lens: seq<nat>, n: nat): (r: seq<bool>)
    requires n < |lens| && lens[n] > 0
    ensures |r| == lens[n]
  {
    RevBits(Code(lens, n), lens[n])
  }

  /** The first symbol at or after n whose code is exactly `bits`. */
  function FindSymbol(lens: seq<nat>, bits: seq<bool>, n: nat): (r: Option<nat>)
    requires n <= |lens| && bits != []
    ensures r.Some? ==> n <= r.value < |lens| && lens[r.value] == |bits| && CodeBits(lens, r.value) == bits
    ensures r.None? ==> forall m :: n <= m < |lens| && lens[m] == |bits| ==> CodeBits(lens, m) != bits
    decreases |lens| - n
  {
    if n == |lens| then None
    else if lens[n] == |bits| && CodeBits(lens, n) == bits then Some(n)
    else FindSymbol(lens, bits, n + 1)
  }

  /** Reads the next symbol, trying longer and longer prefixes of s. */
  function DecodeFrom(lens: seq<nat>, s: seq<bool>, b: nat): (r: Option<(nat, seq<bool>)>)
    requires b >= 1
    ensures r.Some? ==> r.value.0 < |lens| && |r.value.1| < |s|
    decreases |s| + 1 - b
  {
    if b > MAX_BITS || b > |s| then None
    else match FindSymbol(lens, s[..b], 0)
      case Some(n) => Some((n, s[b..]))
      case None => DecodeFrom(lens, s, b + 1)
  }

  function DecodeSymbol(lens: seq<nat>, s: seq<bool>): (r: Option<(nat, seq<bool>)>)
    ensures r.Some? ==> r.value.0 < |lens| && |r.value.1| < |s|
  {
    DecodeFrom(lens, s, 1)
  }

  // ----- the Kraft sum -----

  /** How many b-bit strings begin with a code of at most b bits. */
  function Used(lens: seq<nat>, b: nat): nat {
    if b == 0 then 0 else 2 * Used(lens, b - 1) + Count(lens, b)
  }

  /** The Kraft sum in units of 2^-m. */
  function KraftSum(lens: seq<nat>, m: nat): nat {
    if lens == [] then 0
    else
      var l := lens[|lens| - 1];
      KraftSum(lens[..|lens| - 1], m) + if 0 < l <= m then Pow2(m - l) else 0
  }

  ghost predicate Decodable(lens: seq<nat>) {
    KraftSum(lens, MAX_BITS) <= Pow2(MAX_BITS)
  }

  /** No bit string is left without a code. */
  ghost predicate Complete(lens: seq<nat>) {
    KraftSum(lens, MAX_BITS) == Pow2(MAX_BITS)
  }

  lemma {:induction false} UsedSnoc(lens: seq<nat>, l: nat, b: nat)
    ensures Used(lens + [l], b) == Used(lens, b) + if 0 < l <= b then Pow2(b - l) else 0
  {
    if b > 0 {
      UsedSnoc(lens, l, b - 1);
      assert (lens + [l])[..|lens|] == lens;
    }
  }

  lemma {:induction false} KraftIsUsed(lens: seq<nat>, m: nat)
    ensures KraftSum(lens, m) == Used(lens, m)
  {
    if lens == [] {
      UsedEmpty(m);
    } else {
      var init := lens[..|lens| - 1];
      KraftIsUsed(init, m);
      UsedSnoc(init, lens[|lens| - 1], m);
      assert lens == init + [lens[|lens| - 1]];
    }
  }

  lemma {:induction false} UsedEmpty(b: nat)
    ensures Used([], b) == 0
  {
    if b > 0 { UsedEmpty(b - 1); }
  }

  lemma {:induction false} UsedGrows(lens: seq<nat>, a: nat, b: nat)
    requires a <= b
    ensures Shl(Used(lens, a), b - a) <= Used(lens, b)
  {
    if a < b { UsedGrows(lens, a, b - 1); }
  }

  lemma {:induction false} ShlPow2(v: nat, n: nat, k: nat)
    requires Shl(v, k) <= Pow2(n + k)
    ensures v <= Pow2(n)
  {
    if k > 0 { ShlPow2(v, n, k - 1); }
  }

  lemma UsedFits(lens: seq<nat>, b: nat)
    requires Decodable(lens) && b <= MAX_BITS
    ensures Used(lens, b) <= Pow2(b)
  {
    KraftIsUsed(lens, MAX_BITS);
    UsedGrows(lens, b, MAX_BITS);
    ShlPow2(Used(lens, b), b, MAX_BITS - b);
  }

  /** A code complete at a smaller maximal length is complete at MAX_BITS. */
  lemma {:induction false} CompleteAt(lens: seq<nat>, m: nat, b: nat)
    requires m <= b
    requires forall n :: 0 <= n < |lens| ==> lens[n] <= m
    requires Used(lens, m) == Pow2(m)
    ensures Used(lens, b) == Pow2(b)
  {
    if m < b {
      CompleteAt(lens, m, b - 1);
      CountAbove(lens, m, b);
    }
  }

  lemma {:induction false} CountAbove(lens: seq<nat>, m: nat, b: nat)
    requires forall n :: 0 <= n < |lens| ==> lens[n] <= m
    requires m < b
    ensures Count(lens, b) == 0
  {
    if lens != [] { CountAbove(lens[..|lens| - 1], m, b); }
  }

  // ----- codes -----

  lemma {:induction false} NextCodeUsed(lens: seq<nat>, bits: nat)
    requires bits >= 1
    ensures NextCode(lens, bits) == 2 * Used(lens, bits - 1)
  {
    if bits > 1 { NextCodeUsed(lens, bits - 1); }
  }

  lemma {:induction false} CountPrefix(lens: seq<nat>, i: nat, j: nat, b: nat)
    requires i <= j <= |lens|
    ensures Count(lens[..i], b) <= Count(lens[..j], b)
    ensures i < j && lens[i] == b ==> Count(lens[..i], b) < Count(lens[..j], b)
  {
    if i < j {
      CountPrefix(lens, i, j - 1, b);
      assert lens[..j][..j - 1] == lens[..j - 1];
      if i < j - 1 {
        assert lens[..j][i] == lens[i];
      }
    }
  }

  lemma CodeRange(lens: seq<nat>, n: nat)
    requires n < |lens| && lens[n] > 0
    ensures 2 * Used(lens, lens[n] - 1) <= Code(lens, n) < Used(lens, lens[n])
  {
    NextCodeUsed(lens, lens[n]);
    CountPrefix(lens, n, |lens|, lens[n]);
    assert lens[..|lens|] == lens;
  }

  lemma CodeFits(lens: seq<nat>, n: nat)
    requires Decodable(lens) && n < |lens| && 0 < lens[n] <= MAX_BITS
    ensures Code(lens, n) < Pow2(lens[n])
  {
    CodeRange(lens, n);
    UsedFits(lens, lens[n]);
  }

  lemma {:induction false} ShrAboveUsed(lens: seq<nat>, v: nat, a: nat, b: nat)
    requires a <= b && v >= Used(lens, b)
    ensures Shr(v, b - a) >= Used(lens, a)
  {
    if a < b { ShrAboveUsed(lens, v / 2, a, b - 1); }
  }

  lemma {:induction false} RevBitsPrefix(v: nat, n: nat, k: nat)
    requires k <= n
    ensures RevBits(v, n)[..n - k] == RevBits(Shr(v, k), n - k)
  {
    if k > 0 {
      RevBitsPrefix(v / 2, n - 1, k - 1);
      assert RevBits(v, n)[..n - k] == RevBits(v / 2, n - 1)[..n - k];
    }
  }

  lemma {:induction false} RevBitsInjective(u: nat, v: nat, n: nat)
    requires u < Pow2(n) && v < Pow2(n) && RevBits(u, n) == RevBits(v, n)
    ensures u == v
  {
    if n > 0 {
      assert RevBits(u, n)[n - 1] == (u % 2 == 1) && RevBits(v, n)[n - 1] == (v % 2 == 1);
      assert RevBits(u, n)[..n - 1] == RevBits(u / 2, n - 1) && RevBits(v, n)[..n - 1] == RevBits(v / 2, n - 1);
      RevBitsInjective(u / 2, v / 2, n - 1);
    }
  }

  /** No code is a prefix of the code of another symbol. */
  lemma PrefixFree(lens: seq<nat>, n: nat, m: nat)
    requires Decodable(lens)
    requires n < |lens| && 0 < lens[n] <= MAX_BITS
    requires m < |lens| && 0 < lens[m] <= MAX_BITS
    requires CodeBits(lens, n) <= CodeBits(lens, m)
    ensures n == m
  {
    var a, b := lens[n], lens[m];
    var c, d := Code(lens, n), Code(lens, m);
    CodeFits(lens, n);
    CodeFits(lens, m);
    RevBitsPrefix(d, b, b - a);
    ShrBound(d, b, b - a);
    RevBitsInjective(c, Shr(d, b - a), a);
    if n != m { CodesApart(lens, n, m); }
  }

  /** The truncation of a longer code lies above every shorter one. */
  lemma CodesApart(lens: seq<nat>, n: nat, m: nat)
    requires n < |lens| && m < |lens| && n != m && 0 < lens[n] <= lens[m]
    ensures Shr(Code(lens, m), lens[m] - lens[n]) != Code(lens, n)
  {
    var a, b := lens[n], lens[m];
    if a < b {
      CodeRange(lens, n);
      CodeRange(lens, m);
      ShrAboveUsed(lens, Code(lens, m) / 2, a, b - 1);
    } else if n < m {
      CountPrefix(lens, n, m, a);
    } else {
      CountPrefix(lens, m, n, a);
    }
  }

  /** Decoding a code gives back its symbol, whatever follows it. */
  lemma DecodeOwnCode(lens: seq<nat>, n: nat, rest: seq<bool>)
    requires Decodable(lens) && n < |lens| && 0 < lens[n] <= MAX_BITS
    ensures DecodeSymbol(lens, CodeBits(lens, n) + rest) == Some((n, rest))
  {
    DecodeOwnCodeFrom(lens, n, rest, 1);
  }

  lemma {:induction false} DecodeOwnCodeFrom(lens: seq<nat>, n: nat, rest: seq<bool>, b: nat)
    requires Decodable(lens) && n < |lens| && 1 <= b <= lens[n] <= MAX_BITS
    ensures DecodeFrom(lens, CodeBits(lens, n) + rest, b) == Some((n, rest))
    decreases lens[n] - b
  {
    var code := CodeBits(lens, n);
    var s := code + rest;
    assert s[..b] == code[..b];
    var found := FindSymbol(lens, s[..b], 0);
    assert b == lens[n] ==> s[..b] == code;
    if found.Some? {
      PrefixFree(lens, found.value, n);
      assert s[b..] == rest;
    } else if b < lens[n] {
      DecodeOwnCodeFrom(lens, n, rest, b + 1);
    } else {
      assert false;
    }
  }

  // ----- completeness -----

  lemma {:induction false} NthOfLength(lens: seq<nat>, b: nat, k: nat) returns (n: nat)
    requires k < Count(lens, b)
    ensures n < |lens| && lens[n] == b && Count(lens[..n], b) == k
  {
    var init := lens[..|lens| - 1];
    if k < Count(init, b) {
      n := NthOfLength(init, b, k);
      assert init[..n] == lens[..n];
    } else {
      n := |lens| - 1;
    }
  }

  lemma {:induction false} CodeAtOrAbove(lens: seq<nat>, v: nat, b: nat) returns (n: nat)
    requires v < Used(lens, b)
    ensures n < |lens| && 0 < lens[n] <= b && Code(lens, n) == Shr(v, b - lens[n])
  {
    if v < 2 * Used(lens, b - 1) {
      n := CodeAtOrAbove(lens, v / 2, b - 1);
    } else {
      NextCodeUsed(lens, b);
      n := NthOfLength(lens, b, v - 2 * Used(lens, b - 1));
    }
  }

  lemma {:induction false} BitsAreRevBits(s: seq<bool>) returns (v: nat)
    ensures v < Pow2(|s|) && RevBits(v, |s|) == s
  {
    if s == [] {
      v := 0;
    } else {
      var k := |s| - 1;
      var u := BitsAreRevBits(s[..k]);
      v := 2 * u + if s[k] then 1 else 0;
      assert v / 2 == u;
      assert s == s[..k] + [s[k]];
    }
  }

  lemma {:induction false} DecodeFinds(lens: seq<nat>, s: seq<bool>, b: nat, n: nat)
    requires n < |lens| && 1 <= b <= lens[n] <= MAX_BITS && CodeBits(lens, n) <= s
    ensures DecodeFrom(lens, s, b).Some?
    decreases lens[n] - b
  {
    assert b == lens[n] ==> s[..b] == CodeBits(lens, n);
    if FindSymbol(lens, s[..b], 0).None? {
      if b < lens[n] {
        DecodeFinds(lens, s, b + 1, n);
      } else {
        assert false;
      }
    }
  }

  /** With a Kraft sum of one, every sufficiently long bit string starts with a symbol. */
  lemma CompleteDecodes(lens: seq<nat>, s: seq<bool>)
    requires Complete(lens) && |s| >= MAX_BITS
    ensures DecodeSymbol(lens, s).Some?
  {
    var w := s[..MAX_BITS];
    var v := BitsAreRevBits(w);
    KraftIsUsed(lens, MAX_BITS);
    var n := CodeAtOrAbove(lens, v, MAX_BITS);
    RevBitsPrefix(v, MAX_BITS, MAX_BITS - lens[n]);
    assert w[..lens[n]] == CodeBits(lens, n);
    assert s[..lens[n]] == w[..lens[n]];
    DecodeFinds(lens, s, 1, n);
  }

  // ----- gzip's code generation -----

  lemma {:induction false} RevBitsFront(v: nat, n: nat)
    ensures RevBits(v, n + 1) == [Shr(v, n) % 2 == 1] + RevBits(v, n)
  {
    if n > 0 {
      RevBitsFront(v / 2, n - 1);
      assert RevBits(v, n + 1) == RevBits(v / 2, n) + [v % 2 == 1];
      assert RevBits(v, n) == RevBits(v / 2, n - 1) + [v % 2 == 1];
    }
  }

  /** The word whose low n bits, sent least significant first, are the code v. */
  function Reversed(v: nat, n: nat): (r: nat)
    ensures r < Pow2(n) && ToBits(r, n) == RevBits(v, n)
  {
    ValBound(RevBits(v, n));
    ToBitsVal(RevBits(v, n));
    Val(RevBits(v, n))
  }

  method BiReverse(value: nat, length: nat) returns (r: nat)
    requires 1 <= length <= 15
    ensures r == Reversed(value, length)
  {
    var code, len, res := value, length, 0;
    ghost var i := 0;
    while true
      invariant 1 <= len && i + len == length && code == Shr(value, i)
      invariant res == 2 * Val(RevBits(value, i))
      decreases len
    {
      var bit := code % 2;
      ghost var before := RevBits(value, i);
      RevBitsFront(value, i);
      assert ([bit == 1] + before)[1..] == before;
      res := OrBit(res, bit);
      assert res == Val(RevBits(value, i + 1));
      code, res := code / 2, 2 * res;
      ShrAdd(value, i, 1);
      i := i + 1;
      len := len - 1;
      if len == 0 { break; }
    }
    r := res / 2;
  }

  /** `res |= bit` on an even word. */
  function OrBit(res: nat, bit: nat): (r: nat)
    requires res % 2 == 0 && bit < 2
    ensures r == res + bit
  {
    assert Pow2(1) == 2 && Shl(res / 2, 1) == res;
    OrDisjoint(bit, res / 2, 1);
    OrComm(res, bit);
    Or(res, bit)
  }

  lemma {:induction false} OrComm(a: nat, b: nat)
    ensures Or(a, b) == Or(b, a)
    decreases a + b
  {
    if a != 0 && b != 0 { OrComm(a / 2, b / 2); }
  }

  lemma NextCodeFits(lens: seq<nat>, b: nat)
    requires Decodable(lens) && 1 <= b <= MAX_BITS
    ensures NextCode(lens, b) + Count(lens, b) <= 32768
  {
    NextCodeUsed(lens, b);
    UsedFits(lens, b);
    Pow2Mono(b, MAX_BITS);
    Pow2Words();
  }

  /** The cast to a 16-bit word, where nothing is lost. */
  method CastUsh(v: nat) returns (r: nat)
    requires v < 65536
    ensures r == v
  {
    r := v % 65536;
  }

  /** What bl_count holds for these lengths. */
  ghost function Counts(lens: seq<nat>): (r: seq<nat>)
    ensures |r| == MAX_BITS + 1
  {
    seq(MAX_BITS + 1, b requires 0 <= b => if b == 0 then 0 else Count(lens, b))
  }

  /** What next_code holds once the symbols below n have their codes. */
  ghost function Nexts(lens: seq<nat>, n: nat): (r: seq<nat>)
    requires n <= |lens|
    ensures |r| == MAX_BITS + 1
  {
    seq(MAX_BITS + 1, b requires 0 <= b => if b == 0 then 0 else NextCode(lens, b) + Count(lens[..n], b))
  }

  lemma NextsStart(lens: seq<nat>, b: nat)
    requires Decodable(lens) && 1 <= b <= MAX_BITS
    ensures Nexts(lens, 0)[b] == 2 * (if b == 1 then 0 else Nexts(lens, 0)[b - 1] + Counts(lens)[b - 1])
    ensures Nexts(lens, 0)[b] < 65536
  {
    NextCodeFits(lens, b);
    assert lens[..0] == [];
  }

  lemma NextsStep(lens: seq<nat>, n: nat)
    requires Decodable(lens) && n < |lens| && lens[n] <= MAX_BITS
    ensures lens[n] == 0 ==> Nexts(lens, n + 1) == Nexts(lens, n)
    ensures lens[n] > 0 ==> Nexts(lens, n)[lens[n]] == Code(lens, n) < 65535
    ensures lens[n] > 0 ==> Nexts(lens, n + 1) == Nexts(lens, n)[lens[n] := Code(lens, n) + 1]
  {
    assert lens[..n + 1][..n] == lens[..n];
    if lens[n] > 0 {
      NextCodeFits(lens, lens[n]);
      NextCodeUsed(lens, lens[n]);
      CodeRange(lens, n);
    }
  }

  /** The first loop of gen_codes: the smallest code of every length, in 16-bit words. */
  method FirstCodes(blCount: array<nat>, ghost lens: seq<nat>) returns (nextCode: array<nat>)
    requires Decodable(lens) && blCount[..] == Counts(lens)
    ensures fresh(nextCode) && nextCode[..] == Nexts(lens, 0)
  {
    nextCode := new nat[MAX_BITS + 1](_ => 0);
    ghost var counts, nexts := Counts(lens), Nexts(lens, 0);
    var code, bits := 0, 1;
    while bits <= MAX_BITS
      invariant 1 <= bits <= MAX_BITS + 1
      invariant code == if bits == 1 then 0 else nexts[bits - 1]
      invariant nextCode[..bits] == nexts[..bits]
    {
      NextsStart(lens, bits);
      code := CastUsh(2 * (code + blCount[bits - 1]));
      nextCode[bits] := code;
      bits := bits + 1;
    }
  }

  /** Symbols below n have their canonical code, bit-reversed for sending. */
  ghost predicate HasCodes(fc: seq<nat>, lens: seq<nat>, n: nat) {
    && n <= |lens| && n <= |fc|
    && forall m :: 0 <= m < n && lens[m] > 0 ==> fc[m] == Reversed(Code(lens, m), lens[m])
  }

  lemma HasCodesStep(fc: seq<nat>, fc': seq<nat>, lens: seq<nat>, n: nat)
    requires HasCodes(fc, lens, n) && n < |lens| && n < |fc'| && fc'[..n] == fc[..n]
    requires lens[n] > 0 ==> fc'[n] == Reversed(Code(lens, n), lens[n])
    ensures HasCodes(fc', lens, n + 1)
  {
    forall m | 0 <= m < n + 1 && lens[m] > 0
      ensures fc'[m] == Reversed(Code(lens, m), lens[m])
    {
      if m < n { assert fc'[..n][m] == fc[..n][m]; }
    }
  }

  method GenCodes(fc: array<nat>, dl: array<nat>, blCount: array<nat>, maxCode: int)
    requires fc != dl && -1 <= maxCode < fc.Length && maxCode < dl.Length
    requires Decodable(dl[..maxCode + 1])
    requires forall n :: 0 <= n <= maxCode ==> dl[n] <= MAX_BITS
    requires blCount[..] == Counts(dl[..maxCode + 1])
    modifies fc
    ensures HasCodes(fc[..], dl[..maxCode + 1], maxCode + 1)
    ensures forall n :: 0 <= n < fc.Length && (n > maxCode || dl[n] == 0) ==> fc[n] == old(fc[n])
  {
    ghost var lens := dl[..maxCode + 1];
    var nextCode := FirstCodes(blCount, lens);
    var n := 0;
    while n <= maxCode
      invariant 0 <= n <= maxCode + 1 && dl[..maxCode + 1] == lens
      invariant nextCode[..] == Nexts(lens, n)
      invariant HasCodes(fc[..], lens, n)
      invariant forall m :: 0 <= m < fc.Length && (m >= n || dl[m] == 0) ==> fc[m] == old(fc[m])
    {
      ghost var fc0 := fc[..];
      var len := dl[n];
      assert len == lens[n];
      NextsStep(lens, n);
      if len != 0 {
        var code := nextCode[len];
        assert code == nextCode[..][len];
        var r := BiReverse(code, len);
        fc[n] := r;
        var next := CastUsh(code + 1);
        nextCode[len] := next;
      }
      HasCodesStep(fc0, fc[..], lens, n);
      n := n + 1;
    }
  }
}
