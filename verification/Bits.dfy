/** Bit strings and the arithmetic that relates them to machine words.

A bit string is a `seq<bool>` whose first element is the least significant
bit, which is the order in which the DEFLATE format packs bits into bytes. */
module Bits {

  type byte = x: int | 0 <= x < 256

  datatype Option<+T> = None | Some(value: T)

  /** A large predicate P is sealed by writing it as `forall k: int {:trigger Opened(PSeal, k)} :: Sealed(k) ==> ...`:
  the verifier then looks into it only where `Opened(PSeal, ...)` is mentioned. */
  datatype Seal = CrcSeal | ContentSeal | IndexSeal | PendingSeal | TablesSeal | WeighedSeal | CoderSeal | CoversSeal
                | SentSeal | TrackSeal | LoopSeal | ChoiceSeal | TieSeal | TreeSeal | StepSeal
                | PartsSeal | AskSeal | CodingSeal | LawSeal

  ghost predicate Opened(s: Seal, k: int) {
    true
  }

  ghost predicate Sealed(k: int) {
    true
  }

  function Pow2(n: nat): (r: nat)
    ensures r >= 1
  {
    if n == 0 then 1 else 2 * Pow2(n - 1)
  }

  /** v << n and v >> n on unbounded words. */
  function Shl(v: nat, n: nat): nat {
    if n == 0 then v else 2 * Shl(v, n - 1)
  }

  function Shr(v: nat, n: nat): nat {
    if n == 0 then v else Shr(v / 2, n - 1)
  }

  /** The n low-order bits of v. */
  function ToBits(v: nat, n: nat): (r: seq<bool>)
    ensures |r| == n
  {
    if n == 0 then [] else [v % 2 == 1] + ToBits(v / 2, n - 1)
  }

  /** The number whose bits are s. */
  function Val(s: seq<bool>): nat {
    if s == [] then 0 else (if s[0] then 1 else 0) + 2 * Val(s[1..])
  }

  function BytesToBits(s: seq<byte>): (r: seq<bool>)
    ensures |r| == 8 * |s|
  {
    if s == [] then [] else ToBits(s[0], 8) + BytesToBits(s[1..])
  }

  function BitsToBytes(s: seq<bool>): (r: seq<byte>)
    requires |s| % 8 == 0
    ensures |r| == |s| / 8
  {
    if s == [] then []
    else
      ValBound(s[..8]);
      assert Pow2(8) == 256;
      [Val(s[..8])] + BitsToBytes(s[8..])
  }

  // ----- shifts -----

  lemma Pow2Words()
    ensures Pow2(8) == 256 && Pow2(15) == 32768 && Pow2(16) == 65536
  {
    assert Pow2(12) == 4096;
  }

  lemma {:induction false} Pow2Mono(a: nat, b: nat)
    requires a <= b
    ensures Pow2(a) <= Pow2(b)
    ensures a < b ==> 2 * Pow2(a) <= Pow2(b)
  {
    if a < b { Pow2Mono(a, b - 1); }
  }

  lemma {:induction false} ShlAdd(v: nat, a: nat, b: nat)
    ensures Shl(v, a + b) == Shl(Shl(v, a), b)
  {
    if b > 0 { ShlAdd(v, a, b - 1); }
  }

  lemma Shl8(v: nat)
    ensures Shl(v, 8) == 256 * v
  {
    assert Shl(v, 1) == 2 * v;
    assert Shl(v, 3) == 8 * v;
    assert Shl(v, 5) == 32 * v;
    assert Shl(v, 7) == 128 * v;
  }

  lemma Shl16(v: nat)
    ensures Shl(v, 16) == 65536 * v
  {
    Shl8(v);
    Shl8(256 * v);
    ShlAdd(v, 8, 8);
  }

  lemma {:induction false} ShrAdd(v: nat, a: nat, b: nat)
    ensures Shr(v, a + b) == Shr(Shr(v, a), b)
  {
    if a > 0 { ShrAdd(v / 2, a - 1, b); }
  }

  lemma {:induction false} ShrBound(v: nat, n: nat, k: nat)
    requires k <= n && v < Pow2(n)
    ensures Shr(v, k) < Pow2(n - k)
  {
    if k > 0 { ShrBound(v / 2, n - 1, k - 1); }
  }

  /** What lies above the low n bits survives a right shift by n. */
  lemma {:induction false} ShrJoin(lo: nat, hi: nat, n: nat)
    requires lo < Pow2(n)
    ensures Shr(lo + Shl(hi, n), n) == hi
  {
    if n > 0 { ShrJoin(lo / 2, hi, n - 1); }
  }

  lemma {:induction false} JoinBound(lo: nat, hi: nat, a: nat, b: nat)
    requires lo < Pow2(a) && hi < Pow2(b)
    ensures lo + Shl(hi, a) < Pow2(a + b)
  {
    if a > 0 { JoinBound(lo / 2, hi, a - 1, b); }
  }

  // ----- bit strings -----

  lemma {:induction false} ValBound(s: seq<bool>)
    ensures Val(s) < Pow2(|s|)
  {
    if s != [] { ValBound(s[1..]); }
  }

  lemma {:induction false} ValToBits(v: nat, n: nat)
    requires v < Pow2(n)
    ensures Val(ToBits(v, n)) == v
  {
    if n > 0 {
      ValToBits(v / 2, n - 1);
      assert ToBits(v, n)[1..] == ToBits(v / 2, n - 1);
    }
  }

  lemma {:induction false} ToBitsVal(s: seq<bool>)
    ensures ToBits(Val(s), |s|) == s
  {
    if s != [] {
      ToBitsVal(s[1..]);
      assert Val(s) / 2 == Val(s[1..]);
      assert s == [s[0]] + s[1..];
    }
  }

  lemma {:induction false} ToBitsSplit(v: nat, a: nat, b: nat)
    ensures ToBits(v, a + b) == ToBits(v, a) + ToBits(Shr(v, a), b)
  {
    if a > 0 {
      ToBitsSplit(v / 2, a - 1, b);
      assert ToBits(v, a + b) == [v % 2 == 1] + ToBits(v / 2, a - 1 + b);
    } else {
      assert [] + ToBits(v, b) == ToBits(v, b);
    }
  }

  lemma {:induction false} ToBitsLow(lo: nat, hi: nat, n: nat)
    ensures ToBits(lo + Shl(hi, n), n) == ToBits(lo, n)
  {
    if n > 0 {
      ToBitsLow(lo / 2, hi, n - 1);
      assert (lo + Shl(hi, n)) / 2 == lo / 2 + Shl(hi, n - 1);
    }
  }

  /** Placing `hi` above the `a` bits of `lo` concatenates the two bit strings. */
  lemma ToBitsJoin(lo: nat, hi: nat, a: nat, b: nat)
    requires lo < Pow2(a)
    ensures ToBits(lo + Shl(hi, a), a + b) == ToBits(lo, a) + ToBits(hi, b)
  {
    ToBitsSplit(lo + Shl(hi, a), a, b);
    ToBitsLow(lo, hi, a);
    ShrJoin(lo, hi, a);
  }

  /** Truncation to 16 bits keeps the 16 low bits. */
  lemma ToBits16(v: nat)
    ensures ToBits(v % 65536, 16) == ToBits(v, 16)
  {
    Shl16(v / 65536);
    ToBitsLow(v % 65536, v / 65536, 16);
  }

  lemma {:induction false} BytesToBitsAppend(s: seq<byte>, t: seq<byte>)
    ensures BytesToBits(s + t) == BytesToBits(s) + BytesToBits(t)
  {
    if s == [] {
      assert s + t == t;
    } else {
      var b, rest := s[0], s[1..];
      assert s == [b] + rest && s + t == [b] + (rest + t);
      BytesToBitsCons(b, rest);
      BytesToBitsCons(b, rest + t);
      BytesToBitsAppend(rest, t);
      assert ToBits(b, 8) + BytesToBits(rest) + BytesToBits(t) == ToBits(b, 8) + (BytesToBits(rest) + BytesToBits(t));
    }
  }

  lemma BytesToBitsCons(b: byte, s: seq<byte>)
    ensures BytesToBits([b] + s) == ToBits(b, 8) + BytesToBits(s)
  {
    assert ([b] + s)[0] == b && ([b] + s)[1..] == s;
  }

  lemma {:induction false} BytesRoundTrip(s: seq<byte>)
    ensures BitsToBytes(BytesToBits(s)) == s
  {
    if s != [] {
      var b := BytesToBits(s);
      assert b[..8] == ToBits(s[0], 8);
      assert b[8..] == BytesToBits(s[1..]);
      assert Pow2(8) == 256;
      ValToBits(s[0], 8);
      BytesRoundTrip(s[1..]);
      assert s == [s[0]] + s[1..];
    }
  }

  // ----- bitwise operators on unbounded words -----

  function Or(a: nat, b: nat): nat
    decreases a + b
  {
    if a == 0 then b else if b == 0 then a
    else (if a % 2 == 1 || b % 2 == 1 then 1 else 0) + 2 * Or(a / 2, b / 2)
  }

  function Xor(a: nat, b: nat): nat
    decreases a + b
  {
    if a == 0 then b else if b == 0 then a
    else (if a % 2 != b % 2 then 1 else 0) + 2 * Xor(a / 2, b / 2)
  }

  /** An OR whose operands share no bit position is an addition. */
  lemma {:induction false} OrDisjoint(lo: nat, hi: nat, n: nat)
    requires lo < Pow2(n)
    ensures Or(lo, Shl(hi, n)) == lo + Shl(hi, n)
  {
    if lo != 0 && Shl(hi, n) != 0 {
      OrDisjoint(lo / 2, hi, n - 1);
    }
  }
}
