/** The CRC-32 of gzip: the table-driven `updcrc` and the bit-by-bit definition
of section 8 of RFC 1952. A register is its 32 bits, the lowest first. */
module Crc {
  import opened Bits

  type Register = r: seq<bool> | |r| == 32 witness seq(32, i => false)

  function XorBits(a: Register, b: Register): (r: Register) {
    seq(32, i requires 0 <= i < 32 => a[i] != b[i])
  }

  function ShiftRight(a: Register): Register {
    a[1..] + [false]
  }

  /** The polynomial of gzip, reflected. */
  function Poly(): Register {
    ToBits(0xedb88320, 32)
  }

  /** The powers of x in the polynomial are 26, 23, 22, 16, 12, 11, 10, 8, 7, 5, 4, 2, 1 and 0, besides the 32nd; the
  register holds the highest in its lowest bit. */
  lemma PolyTerms()
    ensures Val(Poly()) == Pow2(31 - 26) + Pow2(31 - 23) + Pow2(31 - 22) + Pow2(31 - 16) + Pow2(31 - 12) + Pow2(31 - 11)
                           + Pow2(31 - 10) + Pow2(31 - 8) + Pow2(31 - 7) + Pow2(31 - 5) + Pow2(31 - 4) + Pow2(31 - 2)
                           + Pow2(31 - 1) + Pow2(31 - 0)
  {
    LowPowers();
    HighPowers();
    ValToBits(0xedb88320, 32);
  }

  lemma LowPowers()
    ensures Pow2(5) == 32 && Pow2(8) == 0x100 && Pow2(9) == 0x200 && Pow2(15) == 0x8000
    ensures Pow2(19) == 0x8_0000 && Pow2(20) == 0x10_0000 && Pow2(21) == 0x20_0000
  {
  }

  lemma HighPowers()
    ensures Pow2(23) == 0x80_0000 && Pow2(24) == 0x100_0000 && Pow2(26) == 0x400_0000 && Pow2(27) == 0x800_0000
    ensures Pow2(29) == 0x2000_0000 && Pow2(30) == 0x4000_0000 && Pow2(31) == 0x8000_0000 && Pow2(32) == 0x1_0000_0000
  {
    LowPowers();
    assert Pow2(22) == 0x40_0000 && Pow2(25) == 0x200_0000 && Pow2(28) == 0x1000_0000;
  }

  /** One step of the shift register with the polynomial p. */
  function BitStep(p: Register, c: Register): Register {
    if c[0] then XorBits(ShiftRight(c), p) else ShiftRight(c)
  }

  function BitSteps(p: Register, c: Register, k: nat): Register
    decreases k
  {
    if k == 0 then c else BitSteps(p, BitStep(p, c), k - 1)
  }

  function ByteBits(b: byte): Register {
    ToBits(b, 32)
  }

  function AllOnes(): Register {
    seq(32, i => true)
  }

  function Zeros(): Register {
    seq(32, i => false)
  }

  /** One byte, bit by bit. */
  function Feed(p: Register, c: Register, b: byte): Register {
    BitSteps(p, XorBits(c, ByteBits(b)), 8)
  }

  /** All bytes of a message, one after the other. */
  function Fold(f: (Register, byte) -> Register, c: Register, s: seq<byte>): Register {
    if s == [] then c else f(Fold(f, c, s[..|s| - 1]), s[|s| - 1])
  }

  function Feeder(p: Register): (Register, byte) -> Register {
    (c, b) => Feed(p, c, b)
  }

  /** A whole message, bit by bit. */
  function FeedAll(p: Register, c: Register, s: seq<byte>): Register {
    Fold(Feeder(p), c, s)
  }

  /** The CRC of a message with the polynomial p: register preset to ones, result complemented. */
  function Crc32(p: Register, s: seq<byte>): Register {
    XorBits(FeedAll(p, AllOnes(), s), AllOnes())
  }

  lemma {:induction false} FoldAppend(f: (Register, byte) -> Register, c: Register, a: seq<byte>, b: seq<byte>)
    ensures Fold(f, c, a + b) == Fold(f, Fold(f, c, a), b)
  {
    if b == [] {
      assert a + b == a;
    } else {
      var k := |b| - 1;
      FoldAppend(f, c, a, b[..k]);
      assert (a + b)[..|a| + k] == a + b[..k];
    }
  }

  /** Feeding a message in two chunks is feeding it at once. */
  lemma FeedAppend(p: Register, c: Register, a: seq<byte>, b: seq<byte>)
    ensures FeedAll(p, c, a + b) == FeedAll(p, FeedAll(p, c, a), b)
  {
    FoldAppend(Feeder(p), c, a, b);
  }

  // ----- why a table of 256 entries is enough -----

  lemma StepXor(p: Register, x: Register, y: Register)
    ensures BitStep(p, XorBits(x, y)) == XorBits(BitStep(p, x), BitStep(p, y))
  {
    var a, b := BitStep(p, XorBits(x, y)), XorBits(BitStep(p, x), BitStep(p, y));
    forall i | 0 <= i < 32 ensures a[i] == b[i] {
      if i < 31 {
        assert ShiftRight(x)[i] == x[i + 1] && ShiftRight(y)[i] == y[i + 1]
               && ShiftRight(XorBits(x, y))[i] == XorBits(x, y)[i + 1];
      }
    }
  }

  lemma {:induction false} StepsXor(p: Register, x: Register, y: Register, k: nat)
    ensures BitSteps(p, XorBits(x, y), k) == XorBits(BitSteps(p, x, k), BitSteps(p, y, k))
    decreases k
  {
    if k > 0 {
      StepXor(p, x, y);
      StepsXor(p, BitStep(p, x), BitStep(p, y), k - 1);
    }
  }

  /** k shifts. */
  function Shifted(c: Register, k: nat): Register
    requires k <= 32
  {
    c[k..] + seq(k, i => false)
  }

  /** Steps on a register whose low k bits are zero only shift it. */
  lemma {:induction false} StepsHigh(p: Register, c: Register, k: nat)
    requires k <= 32 && forall i :: 0 <= i < k ==> !c[i]
    ensures BitSteps(p, c, k) == Shifted(c, k)
    decreases k
  {
    if k == 0 {
      assert Shifted(c, k) == c;
    } else {
      var d := ShiftRight(c);
      forall i | 0 <= i < k - 1 ensures !d[i] { assert d[i] == c[i + 1]; }
      StepsHigh(p, d, k - 1);
      assert Shifted(d, k - 1) == Shifted(c, k);
    }
  }

  /** The low byte alone, and the rest alone. */
  function LowByte(c: Register): Register {
    c[..8] + seq(24, i => false)
  }

  function HighBytes(c: Register): Register {
    seq(8, i => false) + c[8..]
  }

  lemma TableStep(p: Register, c: Register, n: nat)
    requires n == 8
    ensures BitSteps(p, c, n) == XorBits(BitSteps(p, LowByte(c), n), Shifted(c, n))
  {
    assert c == XorBits(LowByte(c), HighBytes(c));
    StepsXor(p, LowByte(c), HighBytes(c), n);
    StepsHigh(p, HighBytes(c), n);
    assert Shifted(HighBytes(c), n) == Shifted(c, n);
  }

  // ----- updcrc -----

  /** Entry i is what eight steps make of the byte i. */
  ghost predicate TableRight(p: Register, tab: seq<Register>) {
    |tab| == 256 && forall i :: 0 <= i < 256 ==> tab[i] == BitSteps(p, ByteBits(i), 8)
  }

  lemma {:induction false} ZeroSteps(p: Register, k: nat)
    ensures BitSteps(p, Zeros(), k) == Zeros()
  {
    if k > 0 {
      assert BitStep(p, Zeros()) == Zeros();
      ZeroSteps(p, k - 1);
    }
  }

  lemma {:induction false} ZeroBits(n: nat)
    ensures ToBits(0, n) == seq(n, i => false)
  {
    if n > 0 { ZeroBits(n - 1); }
  }

  /** The loop that computes the table; entry 0 is left as it is. */
  method InitTable(p: Register) returns (tab: seq<Register>)
    ensures TableRight(p, tab)
  {
    ZeroBits(32);
    ZeroSteps(p, 8);
    tab := [Zeros()];
    var i := 1;
    while i < 256
      invariant 1 <= i <= 256 && |tab| == i && forall j :: 0 <= j < i ==> tab[j] == BitSteps(p, ByteBits(j), 8)
    {
      var csr := ByteBits(i);
      var k := 8;
      while k != 0
        invariant 0 <= k <= 8 && BitSteps(p, csr, k) == BitSteps(p, ByteBits(i), 8)
      {
        csr := BitStep(p, csr);
        k := k - 1;
      }
      tab := tab + [csr];
      i := i + 1;
    }
  }

  /** The table index: the low byte of the register and the data byte, xored. */
  function Index(c: Register, b: byte): (i: nat)
    ensures i < 256 && ByteBits(i) == LowByte(XorBits(c, ByteBits(b)))
  {
    var low := XorBits(c, ByteBits(b))[..8];
    LowIndex(low);
    Val(low)
  }

  lemma LowIndex(low: seq<bool>)
    requires |low| == 8
    ensures Val(low) < 256 && ToBits(Val(low), 32) == low + seq(24, i => false)
  {
    ValBound(low);
    assert Pow2(8) == 256;
    PadBits(low, 24);
  }

  lemma {:induction false} PadBits(s: seq<bool>, n: nat)
    ensures ToBits(Val(s), |s| + n) == s + seq(n, i => false)
  {
    if s == [] {
      ZeroBits(n);
      assert s + seq(n, i => false) == seq(n, i => false);
    } else {
      var v := Val(s);
      PadBits(s[1..], n);
      assert v / 2 == Val(s[1..]) && (v % 2 == 1) == s[0];
      assert ToBits(v, |s| + n) == [s[0]] + ToBits(Val(s[1..]), |s| - 1 + n);
      assert s + seq(n, i => false) == [s[0]] + (s[1..] + seq(n, i => false));
    }
  }

  lemma {:induction false} ByteHigh(b: byte)
    ensures forall i :: 8 <= i < 32 ==> !ByteBits(b)[i]
  {
    var n: nat :| n == 8;
    var low := ToBits(b, n);
    assert Pow2(8) == 256;
    ValToBits(b, n);
    PadBits(low, 24);
  }

  /** The table does in one step what the register does in eight. */
  lemma TableFeed(p: Register, tab: seq<Register>, c: Register, b: byte)
    requires TableRight(p, tab)
    ensures XorBits(tab[Index(c, b)], Shifted(c, 8)) == Feed(p, c, b)
  {
    var x := XorBits(c, ByteBits(b));
    TableStep(p, x, 8);
    ByteHigh(b);
    assert Shifted(x, 8) == Shifted(c, 8);
  }

  lemma FeedOne(p: Register, tab: seq<Register>, reg: Register, s: seq<byte>, b: byte, c: Register)
    requires TableRight(p, tab) && c == FeedAll(p, reg, s)
    ensures XorBits(tab[Index(c, b)], Shifted(c, 8)) == FeedAll(p, reg, s + [b])
  {
    TableFeed(p, tab, c, b);
    assert (s + [b])[..|s|] == s;
  }

  /** updcrc on a chunk of the input. */
  method UpdCrc(ghost p: Register, tab: seq<Register>, reg: Register, buf: array<byte>, at: nat, n: nat)
    returns (reg': Register, crc: Register)
    requires TableRight(p, tab) && at + n <= buf.Length
    ensures reg' == FeedAll(p, reg, buf[at..at + n]) && crc == XorBits(reg', AllOnes())
  {
    var i := 0;
    reg' := reg;
    while i < n
      invariant 0 <= i <= n && reg' == FeedAll(p, reg, buf[at..at + i])
    {
      var b := buf[at + i];
      FeedOne(p, tab, reg, buf[at..at + i], b, reg');
      assert buf[at..at + i + 1] == buf[at..at + i] + [b];
      reg' := XorBits(tab[Index(reg', b)], Shifted(reg', 8));
      i := i + 1;
    }
    crc := XorBits(reg', AllOnes());
  }
}
