/** A decoder for the DEFLATE format, written from sections 3.2.2 to 3.2.7 of
RFC 1951. It is the specification that gzip's output is held against.

It consumes a bit string from the front. Streams are whole bytes, so the next
byte boundary is where the number of remaining bits is a multiple of 8. */
module Inflate {
  import opened Bits
  import opened HuffmanCode
  import opened Lz77

  // Section 3.2.5: length codes 257..285 and distance codes 0..29.
  const LENGTH_BASE: seq<nat> := [3, 4, 5, 6, 7, 8, 9, 10, 11, 13, 15, 17, 19, 23, 27, 31, 35, 43, 51, 59,
                                  67, 83, 99, 115, 131, 163, 195, 227, 258]
  const LENGTH_EXTRA: seq<nat> := [0, 0, 0, 0, 0, 0, 0, 0, 1, 1, 1, 1, 2, 2, 2, 2, 3, 3, 3, 3,
                                   4, 4, 4, 4, 5, 5, 5, 5, 0]
  const DIST_BASE: seq<nat> := [1, 2, 3, 4, 5, 7, 9, 13, 17, 25, 33, 49, 65, 97, 129, 193, 257, 385, 513, 769,
                                1025, 1537, 2049, 3073, 4097, 6145, 8193, 12289, 16385, 24577]
  const DIST_EXTRA: seq<nat> := [0, 0, 0, 0, 1, 1, 2, 2, 3, 3, 4, 4, 5, 5, 6, 6, 7, 7, 8, 8,
                                 9, 9, 10, 10, 11, 11, 12, 12, 13, 13]
  /** The same tables by rule: every four length codes, and every two distance codes, one more extra bit. */
  function LengthExtra(c: nat): nat {
    if c < 8 || c >= 28 then 0 else (c - 4) / 4
  }

  function LengthBase(c: nat): nat {
    if c == 0 then 3 else if c == 28 then 258 else LengthBase(c - 1) + Pow2(LengthExtra(c - 1))
  }

  function DistExtra(c: nat): nat {
    if c < 2 then 0 else (c - 2) / 2
  }

  function DistBase(c: nat): nat {
    if c == 0 then 1 else DistBase(c - 1) + Pow2(DistExtra(c - 1))
  }

  // Section 3.2.7: the order in which code length code lengths are stored.
  const CL_ORDER: seq<nat> := [16, 17, 18, 0, 8, 7, 9, 6, 10, 5, 11, 4, 12, 3, 13, 2, 14, 1, 15]

  const END_BLOCK := 256

  function ReadBits(s: seq<bool>, n: nat): (r: Option<(nat, seq<bool>)>)
    ensures r.Some? ==> |r.value.1| == |s| - n
  {
    if |s| < n then None else Some((Val(s[..n]), s[n..]))
  }

  /** The rest of a pair whose length code has been read. */
  function DecodeMatch(lc: nat, dists: seq<nat>, s: seq<bool>): (r: Option<(nat, nat, seq<bool>)>)
    requires lc < 29
    ensures r.Some? ==> |r.value.2| <= |s| && r.value.1 >= 1
  {
    match ReadBits(s, LengthExtra(lc))
    case None => None
    case Some((x, s1)) =>
      match DecodeSymbol(dists, s1)
      case None => None
      case Some((dc, s2)) =>
        if dc >= 30 then None
        else match ReadBits(s2, DistExtra(dc))
          case None => None
          case Some((y, s3)) => Some((LengthBase(lc) + x, DistBase(dc) + y, s3))
  }

  /** Section 3.2.3: compressed data up to the end-of-block symbol. */
  function DecodeData(lits: seq<nat>, dists: seq<nat>, s: seq<bool>, out: seq<byte>)
    : (r: Option<(seq<byte>, seq<bool>)>)
    ensures r.Some? ==> |r.value.1| < |s|
    decreases |s|
  {
    match DecodeSymbol(lits, s)
    case None => None
    case Some((sym, s1)) =>
      if sym < 256 then DecodeData(lits, dists, s1, out + [sym])
      else if sym == END_BLOCK then Some((out, s1))
      else if sym > 285 then None
      else match DecodeMatch(sym - 257, dists, s1)
        case None => None
        case Some((len, dist, s2)) =>
          if dist > |out| then None
          else DecodeData(lits, dists, s2, CopyMatch(out, len, dist))
  }

  /** Section 3.2.4: a non-compressed block, starting at the next byte boundary. */
  function DecodeStored(s: seq<bool>, out: seq<byte>): (r: Option<(seq<byte>, seq<bool>)>)
    ensures r.Some? ==> |r.value.1| <= |s|
  {
    var t := s[|s| % 8..];
    if |t| < 32 then None
    else
      var len, nlen := Val(t[..16]), Val(t[16..32]);
      if len + nlen != 65535 || |t| < 32 + 8 * len then None
      else Some((out + BitsToBytes(t[32..32 + 8 * len]), t[32 + 8 * len..]))
  }

  // Section 3.2.6: the fixed codes.
  function Rep(n: nat, v: nat): (r: seq<nat>)
    ensures |r| == n
  {
    seq(n, _ => v)
  }

  const FIXED_LITS: seq<nat> := Rep(144, 8) + Rep(112, 9) + Rep(24, 7) + Rep(8, 8)
  const FIXED_DISTS: seq<nat> := Rep(30, 5)

  /** Section 3.2.7: how many extra bits follow a symbol of the code length code. */
  function ClExtra(sym: nat): nat {
    if sym < 16 then 0 else if sym == 16 then 2 else if sym == 17 then 3 else 7
  }

  /** A length as it is, 3-6 copies of the last one, 3-10 zeros or 11-138 zeros. */
  function ClStep(sym: nat, x: nat, acc: seq<nat>): Option<seq<nat>> {
    if sym < 16 then Some(acc + [sym])
    else if sym == 16 then if acc == [] then None else Some(acc + Rep(3 + x, acc[|acc| - 1]))
    else if sym == 17 then Some(acc + Rep(3 + x, 0))
    else Some(acc + Rep(11 + x, 0))
  }

  function DecodeOneLen(cl: seq<nat>, s: seq<bool>, acc: seq<nat>): (r: Option<(seq<nat>, seq<bool>)>)
    ensures r.Some? ==> |r.value.1| < |s|
  {
    match DecodeSymbol(cl, s)
    case None => None
    case Some((sym, s1)) =>
      match ReadBits(s1, ClExtra(sym))
      case None => None
      case Some((x, s2)) =>
        match ClStep(sym, x, acc)
        case None => None
        case Some(acc1) => Some((acc1, s2))
  }

  /** The run-length coded lengths, `total` of them. */
  function DecodeLens(cl: seq<nat>, s: seq<bool>, total: nat, acc: seq<nat>): (r: Option<(seq<nat>, seq<bool>)>)
    ensures r.Some? ==> |r.value.0| == total && |r.value.1| <= |s|
    decreases |s|
  {
    if |acc| >= total then
      if |acc| == total then Some((acc, s)) else None
    else match DecodeOneLen(cl, s, acc)
      case None => None
      case Some((acc1, s1)) => DecodeLens(cl, s1, total, acc1)
  }

  predicate Below19(order: seq<nat>) {
    |order| == 19 && forall i :: 0 <= i < 19 ==> order[i] < 19
  }

  /** The first k code length code lengths, three bits each, put in symbol order. */
  function DecodeClLens(order: seq<nat>, s: seq<bool>, i: nat, k: nat,
                        acc: seq<nat>): (r: Option<(seq<nat>, seq<bool>)>)
    requires i <= k <= 19 && |acc| == 19 && Below19(order)
    ensures r.Some? ==> |r.value.0| == 19 && |r.value.1| <= |s|
    decreases k - i
  {
    if i == k then Some((acc, s))
    else match ReadBits(s, 3)
      case None => None
      case Some((x, s1)) => DecodeClLens(order, s1, i + 1, k, acc[order[i] := x])
  }

  /** The header of a block with dynamic codes: literal/length and distance code lengths. */
  function DecodeHeader(order: seq<nat>, s: seq<bool>): (r: Option<(seq<nat>, seq<nat>, seq<bool>)>)
    requires Below19(order)
    ensures r.Some? ==> |r.value.2| <= |s|
  {
    if |s| < 14 then None
    else
      var hlit, hdist, hclen := Val(s[..5]) + 257, Val(s[5..10]) + 1, Val(s[10..14]) + 4;
      if hclen > 19 then None
      else match DecodeClLens(order, s[14..], 0, hclen, Rep(19, 0))
        case None => None
        case Some((cl, s1)) =>
          match DecodeLens(cl, s1, hlit + hdist, [])
          case None => None
          case Some((lens, s2)) => Some((lens[..hlit], lens[hlit..], s2))
  }

  /** The body of one block, after its three header bits. */
  function DecodeBlock(kind: nat, s: seq<bool>, out: seq<byte>): (r: Option<(seq<byte>, seq<bool>)>)
    ensures r.Some? ==> |r.value.1| <= |s|
  {
    if kind == 0 then DecodeStored(s, out)
    else if kind == 1 then DecodeData(FIXED_LITS, FIXED_DISTS, s, out)
    else if kind == 2 then
      match DecodeHeader(CL_ORDER, s)
      case None => None
      case Some((lits, dists, s1)) => DecodeData(lits, dists, s1, out)
    else None
  }

  /** All blocks up to the one marked final: what they expand to, and the bits left over. */
  function Decode(s: seq<bool>, out: seq<byte>): (r: Option<(seq<byte>, seq<bool>)>)
    ensures r.Some? ==> |r.value.1| < |s|
    decreases |s|
  {
    if |s| < 3 then None
    else match DecodeBlock(Val(s[1..3]), s[3..], out)
      case None => None
      case Some((out1, s1)) => if s[0] then Some((out1, s1)) else Decode(s1, out1)
  }
}
