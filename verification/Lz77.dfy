/** Literals and (length, distance) pairs, and what they stand for. */
module Lz77 {
  import opened Bits

  datatype Token = Literal(c: byte) | Match(len: nat, dist: nat)

  /** Appends len bytes, each a copy of the byte dist places back (the copy may overlap itself). */
  function CopyMatch(out: seq<byte>, len: nat, dist: nat): (r: seq<byte>)
    requires 1 <= dist <= |out|
    ensures |r| == |out| + len && out <= r
    decreases len
  {
    if len == 0 then out else CopyMatch(out + [out[|out| - dist]], len - 1, dist)
  }

  const MIN_MATCH := 3
  const MAX_MATCH := 258
  const TOO_FAR := 4096

  /** A match of the minimal length is not too distant. */
  ghost predicate Near(t: Token) {
    t.Match? && t.len == MIN_MATCH ==> t.dist <= TOO_FAR
  }

  ghost predicate AllNear(tokens: seq<Token>) {
    forall i :: 0 <= i < |tokens| ==> Near(tokens[i])
  }

  /** How many bytes a token stands for. */
  function Width(t: Token): nat {
    if t.Literal? then 1 else t.len
  }

  /** Every distance reaches back into bytes that exist. */
  predicate Reaches(have: nat, tokens: seq<Token>)
    decreases |tokens|
  {
    tokens == [] ||
    (&& (tokens[0].Match? ==> 1 <= tokens[0].dist <= have)
     && Reaches(have + Width(tokens[0]), tokens[1..]))
  }

  function Expand(out: seq<byte>, tokens: seq<Token>): (r: seq<byte>)
    requires Reaches(|out|, tokens)
    ensures out <= r
    decreases |tokens|
  {
    if tokens == [] then out
    else if tokens[0].Literal? then Expand(out + [tokens[0].c], tokens[1..])
    else Expand(CopyMatch(out, tokens[0].len, tokens[0].dist), tokens[1..])
  }

  function Widths(tokens: seq<Token>): nat {
    if tokens == [] then 0 else Widths(tokens[..|tokens| - 1]) + Width(tokens[|tokens| - 1])
  }

  lemma {:induction false} ExpandSnoc(out: seq<byte>, tokens: seq<Token>, t: Token)
    requires Reaches(|out|, tokens)
    requires t.Match? ==> 1 <= t.dist <= |Expand(out, tokens)|
    ensures Reaches(|out|, tokens + [t])
    ensures Expand(out, tokens + [t]) ==
            if t.Literal? then Expand(out, tokens) + [t.c] else CopyMatch(Expand(out, tokens), t.len, t.dist)
    decreases |tokens|
  {
    var all := tokens + [t];
    if tokens == [] {
      assert all == [t] && all[1..] == [];
    } else {
      assert all[0] == tokens[0] && all[1..] == tokens[1..] + [t];
      if tokens[0].Literal? {
        ExpandSnoc(out + [tokens[0].c], tokens[1..], t);
      } else {
        ExpandSnoc(CopyMatch(out, tokens[0].len, tokens[0].dist), tokens[1..], t);
      }
    }
  }

  /** data[at..at+len] repeats the bytes dist places earlier. */
  ghost predicate Repeats(data: seq<byte>, at: nat, len: nat, dist: nat) {
    && 1 <= dist <= at && at + len <= |data|
    && forall i :: at <= i < at + len ==> data[i] == data[i - dist]
  }

  lemma {:induction false} CopyRepeats(data: seq<byte>, at: nat, len: nat, dist: nat)
    requires Repeats(data, at, len, dist)
    ensures CopyMatch(data[..at], len, dist) == data[..at + len]
    decreases len
  {
    if len > 0 {
      assert data[..at] + [data[..at][at - dist]] == data[..at + 1];
      CopyRepeats(data, at + 1, len - 1, dist);
    }
  }
}
