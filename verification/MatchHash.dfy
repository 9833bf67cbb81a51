/** The rolling hash over three bytes: `UPDATE_HASH`. */
module MatchHash {
  import opened Bits

  const HASH_BITS := 13
  const HASH_SIZE := 8192
  const H_SHIFT := 5

  /** The UPDATE_HASH macro; keeping 13 bits is the & HASH_MASK. */
  function UpdateHash(h: nat, c: byte): (r: nat)
    ensures r < Pow2(HASH_BITS)
  {
    var bits := ToBits(Xor(Shl(h, H_SHIFT), c), HASH_BITS);
    ValBound(bits);
    Val(bits)
  }

  /** The hash of three bytes alone. */
  function Hash3(a: byte, b: byte, c: byte): nat {
    UpdateHash(UpdateHash(UpdateHash(0, a), b), c)
  }

  lemma {:induction false} XorBits(a: nat, a': nat, b: nat, n: nat)
    requires ToBits(a, n) == ToBits(a', n)
    ensures ToBits(Xor(a, b), n) == ToBits(Xor(a', b), n)
  {
    if n > 0 {
      HeadTail(a, n);
      HeadTail(a', n);
      HeadTail(Xor(a, b), n);
      HeadTail(Xor(a', b), n);
      XorBits(a / 2, a' / 2, b / 2, n - 1);
      XorHalf(a, b);
      XorHalf(a', b);
    }
  }

  lemma HeadTail(v: nat, n: nat)
    requires n > 0
    ensures ToBits(v, n)[0] == (v % 2 == 1) && ToBits(v, n)[1..] == ToBits(v / 2, n - 1)
    ensures ToBits(v, n) == [v % 2 == 1] + ToBits(v / 2, n - 1)
  {
  }

  lemma XorHalf(a: nat, b: nat)
    ensures Xor(a, b) / 2 == Xor(a / 2, b / 2)
    ensures Xor(a, b) % 2 == if a % 2 == b % 2 then 0 else 1
  {
  }

  lemma {:induction false} ShlBits(a: nat, a': nat, s: nat, n: nat)
    requires ToBits(a, n) == ToBits(a', n)
    ensures ToBits(Shl(a, s), n + s) == ToBits(Shl(a', s), n + s)
  {
    if s > 0 {
      ShlBits(a, a', s - 1, n);
      HeadTail(Shl(a, s), n + s);
      HeadTail(Shl(a', s), n + s);
    }
  }

  lemma {:induction false} PrefixBits(a: nat, a': nat, n: nat, m: nat)
    requires n <= m && ToBits(a, m) == ToBits(a', m)
    ensures ToBits(a, n) == ToBits(a', n)
  {
    if n > 0 {
      HeadTail(a, m);
      HeadTail(a', m);
      PrefixBits(a / 2, a' / 2, n - 1, m - 1);
    }
  }

  /** Two hash values whose low n bits agree still agree on 5 more bits after an update, as far as there are so many. */
  lemma UpdateAgrees(h: nat, h': nat, c: byte, n: nat, k: nat)
    requires ToBits(h, n) == ToBits(h', n) && k <= n + H_SHIFT && k <= HASH_BITS
    ensures ToBits(UpdateHash(h, c), k) == ToBits(UpdateHash(h', c), k)
  {
    var x, x' := Xor(Shl(h, H_SHIFT), c), Xor(Shl(h', H_SHIFT), c);
    ShlBits(h, h', H_SHIFT, n);
    XorBits(Shl(h, H_SHIFT), Shl(h', H_SHIFT), c, n + H_SHIFT);
    PrefixBits(x, x', k, n + H_SHIFT);
    LowBits(x, k, HASH_BITS);
    LowBits(x', k, HASH_BITS);
  }

  /** Cutting a number to m bits keeps its lowest n bits. */
  lemma LowBits(v: nat, n: nat, m: nat)
    requires n <= m
    ensures ToBits(Val(ToBits(v, m)), n) == ToBits(v, n)
  {
    ToBitsVal(ToBits(v, m));
    PrefixBits(Val(ToBits(v, m)), v, n, m);
  }

  /** After three updates the old hash is forgotten. */
  lemma Forgotten(h: nat, a: byte, b: byte, c: byte)
    ensures UpdateHash(UpdateHash(UpdateHash(h, a), b), c) == Hash3(a, b, c)
  {
    var k: nat, k1: nat, k2: nat :| k == 0 && k1 == H_SHIFT && k2 == 2 * H_SHIFT;
    assert ToBits(h, k) == ToBits(0, k) == [];
    UpdateAgrees(h, 0, a, k, k1);
    UpdateAgrees(UpdateHash(h, a), UpdateHash(0, a), b, k1, k2);
    var x, y := UpdateHash(UpdateHash(h, a), b), UpdateHash(UpdateHash(0, a), b);
    UpdateAgrees(x, y, c, k2, HASH_BITS);
    ValToBits(UpdateHash(x, c), HASH_BITS);
    ValToBits(UpdateHash(y, c), HASH_BITS);
  }

  /** h is ready to take the third byte after a and b. */
  ghost predicate Rolled(h: nat, a: byte, b: byte) {
    exists x: nat :: h == UpdateHash(UpdateHash(x, a), b)
  }

  lemma RollHash(h: nat, a: byte, b: byte, c: byte)
    requires Rolled(h, a, b)
    ensures UpdateHash(h, c) == Hash3(a, b, c) && Rolled(UpdateHash(h, c), b, c)
  {
    var x: nat :| h == UpdateHash(UpdateHash(x, a), b);
    Forgotten(x, a, b, c);
  }

  lemma {:induction false} XorCancelBits(a: nat, b: nat, b': nat, n: nat)
    requires ToBits(Xor(a, b), n) == ToBits(Xor(a, b'), n)
    ensures ToBits(b, n) == ToBits(b', n)
  {
    if n > 0 {
      HeadTail(b, n);
      HeadTail(b', n);
      HeadTail(Xor(a, b), n);
      HeadTail(Xor(a, b'), n);
      XorHalf(a, b);
      XorHalf(a, b');
      XorCancelBits(a / 2, b / 2, b' / 2, n - 1);
    }
  }

  /** With equal hashes and equal first two bytes, the third bytes are equal: the hash has at least 8 bits. */
  lemma ThirdByte(a: byte, b: byte, c: byte, c': byte)
    requires Hash3(a, b, c) == Hash3(a, b, c')
    ensures c == c'
  {
    var s := Shl(UpdateHash(UpdateHash(0, a), b), H_SHIFT);
    var n: nat :| n == 8;
    LowBits(Xor(s, c), HASH_BITS, HASH_BITS);
    LowBits(Xor(s, c'), HASH_BITS, HASH_BITS);
    XorCancelBits(s, c, c', HASH_BITS);
    PrefixBits(c, c', n, HASH_BITS);
    assert Pow2(8) == 256;
    ValToBits(c, n);
    ValToBits(c', n);
  }
}
