/** Each of the three kinds of block carries its bytes through the decoder of RFC 1951. */
module BlockDecode {
  import opened Bits
  import opened BitWriter
  import opened HuffmanCode
  import opened Lz77
  import opened Inflate
  import opened Tables
  import opened CodeLengths
  import opened TokenCode
  import opened BlockData
  import opened BlockHeader

  /** After `off` bits of a stream of whole bytes, enc is a block that appends data to what was decoded before. */
  ghost predicate Carries(off: nat, enc: seq<bool>, hist: seq<byte>, data: seq<byte>, last: bool) {
    forall rest: seq<bool> :: Whole(off, enc, rest) ==> DecodesTo(enc + rest, hist, data, last, rest)
  }

  /** With rest after enc, the stream ends on a byte boundary. */
  ghost predicate Whole(off: nat, enc: seq<bool>, rest: seq<bool>) {
    (off + |enc| + |rest|) % 8 == 0
  }

  ghost predicate DecodesTo(s: seq<bool>, hist: seq<byte>, data: seq<byte>, last: bool, rest: seq<bool>) {
    Decode(s, hist) == if last then Some((hist + data, rest)) else Decode(rest, hist + data)
  }

  /** The three bits that start a block. */
  function KindBits(kind: nat, last: bool): (r: seq<bool>)
    ensures |r| == 3
  {
    ToBits(2 * kind + if last then 1 else 0, 3)
  }

  lemma KindRead(kind: nat, last: bool)
    requires kind < 3
    ensures KindBits(kind, last)[0] == last && Val(KindBits(kind, last)[1..3]) == kind
  {
    var v := 2 * kind + if last then 1 else 0;
    assert v / 2 == kind && Pow2(2) == 4;
    assert KindBits(kind, last)[1..3] == ToBits(kind, 2);
    ValToBits(kind, 2);
  }

  /** The three bits kb announce a block of the given kind. */
  ghost predicate Announces(kb: seq<bool>, kind: nat, last: bool) {
    |kb| == 3 && kb[0] == last && Val(kb[1..3]) == kind
  }

  lemma {:induction false} BlockStep(kb: seq<bool>, kind: nat, last: bool, body: seq<bool>, hist: seq<byte>,
                                     data: seq<byte>, rest: seq<bool>)
    requires Announces(kb, kind, last) && DecodeBlock(kind, body, hist) == Some((hist + data, rest))
    ensures DecodesTo(kb + body, hist, data, last, rest)
  {
    var s := kb + body;
    assert s[1..3] == kb[1..3] && s[3..] == body && s[0] == kb[0];
  }

  /** A block body that decodes whatever follows it is carried. */
  lemma {:induction false} BodyCarries(off: nat, off': nat, kb: seq<bool>, kind: nat, last: bool, body: seq<bool>,
                                       hist: seq<byte>, data: seq<byte>)
    requires Announces(kb, kind, last) && off' == off + 3
    requires forall rest: seq<bool> :: Whole(off', body, rest) ==> BodyDecodes(kind, body, hist, data, rest)
    ensures Carries(off, kb + body, hist, data, last)
  {
    forall rest: seq<bool> | Whole(off, kb + body, rest) ensures DecodesTo(kb + body + rest, hist, data, last, rest) {
      WholeBody(off, off', kb, body, rest);
      CarryOne(kb, kind, last, body, hist, data, rest);
    }
  }

  lemma WholeBody(off: nat, off': nat, kb: seq<bool>, body: seq<bool>, rest: seq<bool>)
    requires |kb| == 3 && off' == off + 3 && Whole(off, kb + body, rest)
    ensures Whole(off', body, rest)
  {
    assert off + |kb + body| + |rest| == off' + |body| + |rest|;
  }

  lemma {:induction false} CarryOne(kb: seq<bool>, kind: nat, last: bool, body: seq<bool>, hist: seq<byte>,
                                    data: seq<byte>, rest: seq<bool>)
    requires Announces(kb, kind, last) && BodyDecodes(kind, body, hist, data, rest)
    ensures DecodesTo(kb + body + rest, hist, data, last, rest)
  {
    Assoc(kb, body, rest);
    BlockStep(kb, kind, last, body + rest, hist, data, rest);
  }

  ghost predicate BodyDecodes(kind: nat, body: seq<bool>, hist: seq<byte>, data: seq<byte>, rest: seq<bool>) {
    DecodeBlock(kind, body + rest, hist) == Some((hist + data, rest))
  }

  // ----- stored blocks -----

  ghost function StoredBody(off: nat, data: seq<byte>): seq<bool> {
    ToBits(0, Padding(off + 3)) + (LengthWords(|data|) + BytesToBits(data))
  }

  lemma {:induction false} ReadWords(a: nat, b: nat, n: nat, tail: seq<bool>)
    requires a < Pow2(n) && b < Pow2(n)
    ensures var t := ToBits(a, n) + ToBits(b, n) + tail; Val(t[..n]) == a && Val(t[n..2 * n]) == b && t[2 * n..] == tail
  {
    var t := ToBits(a, n) + ToBits(b, n) + tail;
    assert t[..n] == ToBits(a, n) && t[n..2 * n] == ToBits(b, n);
    ValToBits(a, n);
    ValToBits(b, n);
  }

  /** The two words in front of stored data give its length twice. */
  ghost predicate Measures(words: seq<bool>, len: nat) {
    |words| == 32 && Val(words[..16]) == len && Val(words[16..32]) == 65535 - len
  }

  lemma WordsMeasure(len: nat)
    requires len < 65536
    ensures Measures(LengthWords(len), len)
  {
    var n: nat :| n == 16;
    Pow2Words();
    assert len % 65536 == len;
    ReadWords(len, 65535 - len, n, []);
    assert LengthWords(len) + [] == LengthWords(len);
  }

  lemma {:induction false} StoredAligned(t: seq<bool>, words: seq<bool>, bytes: seq<bool>, data: seq<byte>,
                                         rest: seq<bool>)
    requires t == words + (bytes + rest) && bytes == BytesToBits(data) && Measures(words, |data|)
    ensures |t| >= 32 + 8 * |data| && Val(t[..16]) == |data| && Val(t[16..32]) == 65535 - |data|
    ensures t[32..32 + 8 * |data|] == bytes && t[32 + 8 * |data|..] == rest
  {
    assert t[..16] == words[..16] && t[16..32] == words[16..32];
  }

  lemma {:induction false} StoredDecodes(s: seq<bool>, pad: seq<bool>, t: seq<bool>, data: seq<byte>, hist: seq<byte>,
                                         rest: seq<bool>)
    requires s == pad + t && |s| % 8 == |pad| && |t| >= 32 + 8 * |data| && Val(t[..16]) == |data|
    requires Val(t[16..32]) == 65535 - |data|
    requires t[32..32 + 8 * |data|] == BytesToBits(data) && t[32 + 8 * |data|..] == rest
    ensures DecodeStored(s, hist) == Some((hist + data, rest))
  {
    assert s[|pad|..] == t;
    BytesRoundTrip(data);
  }

  lemma PadIsRest(off': nat, pad: nat, n: nat, t: nat)
    requires pad == Padding(off') && (off' + n) % 8 == 0 && n == pad + t
    ensures n % 8 == pad
  {
  }

  lemma {:induction false} StoredOne(off': nat, pad: seq<bool>, words: seq<bool>, data: seq<byte>, hist: seq<byte>,
                                     rest: seq<bool>)
    requires |pad| == Padding(off') && Measures(words, |data|) && Whole(off', pad + (words + BytesToBits(data)), rest)
    ensures BodyDecodes(0, pad + (words + BytesToBits(data)), hist, data, rest)
  {
    var bytes := BytesToBits(data);
    var t := words + (bytes + rest);
    var s := pad + t;
    Assoc(words, bytes, rest);
    Assoc(pad, words + bytes, rest);
    StoredAligned(t, words, bytes, data, rest);
    PadIsRest(off', |pad|, |s|, |t|) by { assert off' + |pad + (words + bytes)| + |rest| == off' + |s|; }
    StoredDecodes(s, pad, t, data, hist, rest);
  }

  lemma StoredCarries(off: nat, data: seq<byte>, last: bool, hist: seq<byte>)
    requires |data| < 65536
    ensures Carries(off, KindBits(0, last) + StoredBody(off, data), hist, data, last)
  {
    var off' := off + 3;
    var pad, words := ToBits(0, Padding(off')), LengthWords(|data|);
    var body := pad + (words + BytesToBits(data));
    WordsMeasure(|data|);
    forall rest: seq<bool> | Whole(off', body, rest) ensures BodyDecodes(0, body, hist, data, rest) {
      StoredOne(off', pad, words, data, hist, rest);
    }
    KindRead(0, last);
    BodyCarries(off, off', KindBits(0, last), 0, last, body, hist, data);
  }

  // ----- blocks with fixed or dynamic codes -----

  /** The tokens are within reach, and stand for data. */
  ghost predicate StandFor(tokens: seq<Token>, hist: seq<byte>, data: seq<byte>) {
    Reaches(|hist|, tokens) && Expand(hist, tokens) == hist + data
  }

  lemma {:induction false} DataDecodes(lits: seq<nat>, dists: seq<nat>, tokens: seq<Token>, hist: seq<byte>,
                                       data: seq<byte>, rest: seq<bool>)
    requires AllCoded(lits, dists, tokens) && HasCode(lits, END_BLOCK) && Decodable(lits) && Decodable(dists)
    requires StandFor(tokens, hist, data)
    ensures DecodeData(lits, dists, DataBits(lits, dists, tokens) + rest, hist) == Some((hist + data, rest))
  {
    Assoc(TokensBits(lits, dists, tokens), CodeBits(lits, END_BLOCK), rest);
    DecodeTokens(lits, dists, tokens, rest, hist);
  }

  lemma FixedCarries(off: nat, tokens: seq<Token>, last: bool, hist: seq<byte>, data: seq<byte>)
    requires AllCoded(FIXED_LITS, FIXED_DISTS, tokens) && HasCode(FIXED_LITS, END_BLOCK) && StandFor(tokens, hist, data)
    ensures Carries(off, KindBits(1, last) + DataBits(FIXED_LITS, FIXED_DISTS, tokens), hist, data, last)
  {
    var body := DataBits(FIXED_LITS, FIXED_DISTS, tokens);
    FixedLitsComplete();
    FixedDistsDecodable();
    var off' := off + 3;
    forall rest: seq<bool> | Whole(off', body, rest) ensures BodyDecodes(1, body, hist, data, rest) {
      DataDecodes(FIXED_LITS, FIXED_DISTS, tokens, hist, data, rest);
    }
    KindRead(1, last);
    BodyCarries(off, off', KindBits(1, last), 1, last, body, hist, data);
  }

  /** The lengths can be sent with cl, of which the first blcodes ranks matter. */
  ghost predicate HeaderOk(order: seq<nat>, cl: seq<nat>, blcodes: nat, llens: seq<nat>, dlens: seq<nat>) {
    && |cl| == BL_CODES && 4 <= blcodes <= BL_CODES && Permutes(order)
    && 257 <= |llens| <= L_CODES && 1 <= |dlens| <= D_CODES
    && Lengths(llens) && Lengths(dlens) && Sendable(cl, Encode(llens)) && Sendable(cl, Encode(dlens)) && Decodable(cl)
    && (forall x :: 0 <= x < BL_CODES ==> cl[x] < 8) && forall r :: blcodes <= r < BL_CODES ==> cl[order[r]] == 0
  }

  lemma {:induction false} DynamicDecodes(order: seq<nat>, cl: seq<nat>, blcodes: nat, llens: seq<nat>, dlens: seq<nat>,
                                          tokens: seq<Token>, hist: seq<byte>, data: seq<byte>, rest: seq<bool>)
    requires order == CL_ORDER && HeaderOk(order, cl, blcodes, llens, dlens) && AllCoded(llens, dlens, tokens)
    requires HasCode(llens, END_BLOCK)
    requires Decodable(llens) && Decodable(dlens) && StandFor(tokens, hist, data)
    ensures BodyDecodes(2, HeaderBits(order, cl, blcodes, llens, dlens) + DataBits(llens, dlens, tokens), hist, data,
                        rest)
  {
    Assoc(HeaderBits(order, cl, blcodes, llens, dlens), DataBits(llens, dlens, tokens), rest);
    DecodeHeaderBits(order, cl, blcodes, llens, dlens, DataBits(llens, dlens, tokens) + rest);
    DataDecodes(llens, dlens, tokens, hist, data, rest);
  }

  lemma DynamicCarries(off: nat, order: seq<nat>, cl: seq<nat>, blcodes: nat, llens: seq<nat>, dlens: seq<nat>,
                       tokens: seq<Token>, last: bool, hist: seq<byte>, data: seq<byte>)
    requires order == CL_ORDER && HeaderOk(order, cl, blcodes, llens, dlens) && AllCoded(llens, dlens, tokens)
    requires HasCode(llens, END_BLOCK)
    requires Decodable(llens) && Decodable(dlens) && StandFor(tokens, hist, data)
    ensures Carries(off, KindBits(2, last)
                    + (HeaderBits(order, cl, blcodes, llens, dlens) + DataBits(llens, dlens, tokens)), hist, data, last)
  {
    var head, body := HeaderBits(order, cl, blcodes, llens, dlens), DataBits(llens, dlens, tokens);
    var off' := off + 3;
    forall rest: seq<bool> | Whole(off', head + body, rest) ensures BodyDecodes(2, head + body, hist, data, rest) {
      DynamicDecodes(order, cl, blcodes, llens, dlens, tokens, hist, data, rest);
    }
    KindRead(2, last);
    BodyCarries(off, off', KindBits(2, last), 2, last, head + body, hist, data);
  }
}
