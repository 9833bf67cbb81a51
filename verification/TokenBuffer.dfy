/** The buffers l_buf, d_buf and flag_buf, in which a block's tokens wait: one
byte per token, the distances apart, and one bit per token that tells pairs
from literals. */
module TokenBuffer {
  import opened Bits
  import opened Lz77
  import opened HuffmanCounts
  import opened TokenCode
  import opened TokenCost

  const LIT_BUFSIZE := 0x2000
  const DIST_BUFSIZE := 0x2000

  /** The byte kept for a token: the literal, or the match length less 3. */
  ghost function Lc(t: Token): (b: byte)
    requires TokenOk(t)
  {
    if t.Literal? then t.c else t.len - MIN_MATCH
  }

  /** The distances of the pairs, less one. */
  ghost function Dists(tokens: seq<Token>): (r: seq<nat>)
    requires AllOk(tokens)
    ensures |r| <= |tokens|
  {
    if tokens == [] then []
    else
      var r, t := Dists(tokens[..|tokens| - 1]), tokens[|tokens| - 1];
      if t.Match? then r + [t.dist - 1] else r
  }

  /** Which tokens are pairs. */
  ghost function Marks(tokens: seq<Token>): (r: seq<bool>)
    ensures |r| == |tokens|
  {
    seq(|tokens|, i requires 0 <= i < |tokens| => tokens[i].Match?)
  }

  lemma DistsSnoc(tokens: seq<Token>, t: Token)
    requires AllOk(tokens) && TokenOk(t)
    ensures AllOk(tokens + [t]) && Dists(tokens + [t]) == if t.Match? then Dists(tokens) + [t.dist - 1]
              else Dists(tokens)
  {
    assert (tokens + [t])[..|tokens|] == tokens;
  }

  lemma {:induction false} ValSnoc(s: seq<bool>, b: bool)
    ensures Val(s + [b]) == Val(s) + if b then Pow2(|s|) else 0
  {
    if s != [] {
      assert (s + [b])[1..] == s[1..] + [b];
      ValSnoc(s[1..], b);
    }
  }

  /** The bytes in lb and the distances in db are those of the tokens. */
  ghost predicate Kept(tokens: seq<Token>, lb: seq<byte>, db: seq<nat>, lastLit: nat, lastDist: nat) {
    && AllOk(tokens) && |tokens| == lastLit <= |lb|
    && (forall i :: 0 <= i < lastLit ==> lb[i] == Lc(tokens[i]))
    && lastDist <= |db| && db[..lastDist] == Dists(tokens)
  }

  /** Flag byte j holds the marks of tokens 8j to 8j+7, as far as they exist. */
  ghost predicate FlagByte(marks: seq<bool>, fb: seq<byte>, j: nat) {
    j < |fb| && 8 * j <= |marks| && fb[j] == Val(marks[8 * j..if 8 * j + 8 <= |marks| then 8 * j + 8 else |marks|])
  }

  /** The full flag bytes are in fb, the rest in flags; flagBit is the place of the next mark. */
  ghost predicate Flagged(marks: seq<bool>, fb: seq<byte>, lastFlags: nat, flags: nat, flagBit: nat) {
    && 8 * lastFlags <= |marks| < 8 * lastFlags + 8 && lastFlags <= |fb|
    && (forall j :: 0 <= j < lastFlags ==> FlagByte(marks, fb, j))
    && flags == Val(marks[8 * lastFlags..]) && flagBit == Pow2(|marks| - 8 * lastFlags)
  }

  lemma FlagByteKept(marks: seq<bool>, fb: seq<byte>, j: nat, b: bool)
    requires FlagByte(marks, fb, j) && 8 * j + 8 <= |marks|
    ensures FlagByte(marks + [b], fb, j)
  {
    assert (marks + [b])[8 * j..8 * j + 8] == marks[8 * j..8 * j + 8];
  }

  /** A mark is set by or-ing in flagBit. */
  lemma SetMark(marks: seq<bool>, fb: seq<byte>, lastFlags: nat, flags: nat, flagBit: nat, b: bool, flags': nat)
    requires Flagged(marks, fb, lastFlags, flags, flagBit) && flags' == if b then Or(flags, flagBit) else flags
    ensures flags' == Val((marks + [b])[8 * lastFlags..])
    ensures flags' < Pow2(|marks| + 1 - 8 * lastFlags)
  {
    var m := marks[8 * lastFlags..];
    assert (marks + [b])[8 * lastFlags..] == m + [b];
    ValSnoc(m, b);
    ValBound(m);
    ValBound(m + [b]);
    if b {
      OrDisjoint(flags, 1, |m|);
      ShlOne(|m|);
    }
  }

  lemma {:induction false} MarkRoom(n: nat)
    requires n <= 8
    ensures Pow2(n) <= 256
    decreases 8 - n
  {
    if n < 8 { MarkRoom(n + 1); } else { assert Pow2(8) == 256; }
  }

  lemma FlagRoom(marks: seq<bool>, fb: seq<byte>, lastFlags: nat, flags: nat, flagBit: nat, b: bool, flags': nat)
    requires Flagged(marks, fb, lastFlags, flags, flagBit) && flags' == if b then Or(flags, flagBit) else flags
    ensures flags' < 256 && (|marks| + 1 < 8 * lastFlags + 8 ==> 2 * flagBit < 256)
  {
    SetMark(marks, fb, lastFlags, flags, flagBit, b, flags');
    MarkRoom(|marks| + 1 - 8 * lastFlags);
    if |marks| + 1 < 8 * lastFlags + 8 { MarkRoom(|marks| + 2 - 8 * lastFlags); }
  }

  lemma FlagsAdd(marks: seq<bool>, fb: seq<byte>, lastFlags: nat, flags: nat, flagBit: nat, b: bool, flags': nat,
                 flagBit': nat)
    requires Flagged(marks, fb, lastFlags, flags, flagBit) && flags' == if b then Or(flags, flagBit) else flags
    requires flagBit' == 2 * flagBit
    ensures |marks| + 1 < 8 * lastFlags + 8 ==> Flagged(marks + [b], fb, lastFlags, flags', flagBit')
  {
    SetMark(marks, fb, lastFlags, flags, flagBit, b, flags');
    forall j | 0 <= j < lastFlags ensures FlagByte(marks + [b], fb, j) { FlagByteKept(marks, fb, j, b); }
  }

  lemma FlagsFull(marks: seq<bool>, fb: seq<byte>, lastFlags: nat, flags: nat, flagBit: nat, b: bool, flags': byte)
    requires Flagged(marks, fb, lastFlags, flags, flagBit) && flags' == if b then Or(flags, flagBit) else flags
    requires |marks| + 1 == 8 * lastFlags + 8 && lastFlags < |fb|
    ensures Flagged(marks + [b], fb[lastFlags := flags'], lastFlags + 1, 0, 1)
  {
    SetMark(marks, fb, lastFlags, flags, flagBit, b, flags');
    var all := marks + [b];
    var fb' := fb[lastFlags := flags'];
    assert all[8 * lastFlags..8 * lastFlags + 8] == all[8 * lastFlags..];
    forall j | 0 <= j <= lastFlags ensures FlagByte(all, fb', j) {
      if j < lastFlags {
        FlagByteKept(marks, fb, j, b);
      }
    }
    assert all[8 * (lastFlags + 1)..] == [];
  }

  class Buffer {
    const lBuf: array<byte>
    const dBuf: array<nat>
    const flagBuf: array<byte>
    var lastLit: nat
    var lastDist: nat
    var lastFlags: nat
    var flags: byte
    var flagBit: byte
    ghost var tokens: seq<Token>

    ghost predicate Valid()
      reads this, lBuf, dBuf, flagBuf
    {
      && lBuf.Length == LIT_BUFSIZE && dBuf.Length == DIST_BUFSIZE && flagBuf.Length == LIT_BUFSIZE / 8
      && lBuf != flagBuf && lastLit < LIT_BUFSIZE
      && Kept(tokens, lBuf[..], dBuf[..], lastLit, lastDist) == true
      && Flagged(Marks(tokens), flagBuf[..], lastFlags, flags, flagBit) == true
    }

    constructor ()
      ensures Valid() == true && fresh(lBuf) && fresh(dBuf) && fresh(flagBuf) && tokens == []
    {
      lBuf := new byte[LIT_BUFSIZE](_ => 0);
      dBuf := new nat[DIST_BUFSIZE](_ => 0);
      flagBuf := new byte[LIT_BUFSIZE / 8](_ => 0);
      lastLit, lastDist, lastFlags, flags, flagBit, tokens := 0, 0, 0, 0, 1, [];
    }

    /** The part of init_block that empties the buffers. */
    method Reset()
      requires Valid()
      modifies this
      ensures Valid() == true && tokens == [] && lastLit == 0
    {
      lastLit, lastDist, lastFlags, flags, flagBit, tokens := 0, 0, 0, 0, 1, [];
      assert dBuf[..][..0] == Dists(tokens);
    }

    /** The bookkeeping of ct_tally: dist is 0 for a literal lc, otherwise lc is the match length less 3. */
    method Add(dist: nat, lc: byte, ghost t: Token)
      requires Valid() && lastLit < LIT_BUFSIZE - 1 && TokenOk(t) && lc == Lc(t)
      requires if dist == 0 then t.Literal? else t.Match? && t.dist == dist
      modifies this, lBuf, dBuf, flagBuf
      ensures Valid() == true && tokens == old(tokens) + [t]
    {
      ghost var lb: seq<byte>, db: seq<nat>, was := lBuf[..], dBuf[..], tokens;
      KeepOne(was, lb, db, lastLit, lastDist, t);
      AddFlag(dist != 0, t);
      lBuf[lastLit] := lc;
      lastLit := lastLit + 1;
      if dist != 0 {
        dBuf[lastDist] := dist - 1;
        lastDist := lastDist + 1;
      }
      tokens := tokens + [t];
      assert lBuf[..] == lb[|was| := lc];
      assert dist != 0 ==> dBuf[..] == db[lastDist - 1 := t.dist - 1];
    }

    method AddFlag(pair: bool, ghost t: Token)
      requires Valid() && lastLit < LIT_BUFSIZE - 1 && pair == t.Match?
      modifies this`flags, this`flagBit, this`lastFlags, flagBuf
      ensures Flagged(Marks(tokens + [t]), flagBuf[..], lastFlags, flags, flagBit) == true
    {
      ghost var fb, marks := flagBuf[..], Marks(tokens);
      assert Marks(tokens + [t]) == marks + [pair];
      var newFlags := if pair then Or(flags, flagBit) else flags;
      FlagRoom(marks, fb, lastFlags, flags, flagBit, pair, newFlags);
      if (lastLit + 1) % 8 == 0 {
        FlagsFull(marks, fb, lastFlags, flags, flagBit, pair, newFlags);
        flagBuf[lastFlags] := newFlags;
        assert flagBuf[..] == fb[lastFlags := newFlags];
        lastFlags, flags, flagBit := lastFlags + 1, 0, 1;
      } else {
        FlagsAdd(marks, fb, lastFlags, flags, flagBit, pair, newFlags, 2 * flagBit);
        flags, flagBit := newFlags, 2 * flagBit;
      }
    }

    /** Every flag byte is in its place. */
    ghost predicate FlagsSaved()
      reads this, flagBuf
    {
      forall j :: 0 <= j && 8 * j < |tokens| ==> FlagByte(Marks(tokens), flagBuf[..], j)
    }

    /** Saves the flags of the last tokens, as flush_block does first. */
    method Seal()
      requires Valid()
      modifies flagBuf
      ensures Valid() == true && FlagsSaved()
    {
      ghost var fb := flagBuf[..];
      flagBuf[lastFlags] := flags;
      assert flagBuf[..] == fb[lastFlags := flags];
      FlagsSealed(Marks(tokens), fb, lastFlags, flags, flagBit);
    }
  }

  lemma FlagsSealed(marks: seq<bool>, fb: seq<byte>, lastFlags: nat, flags: byte, flagBit: nat)
    requires Flagged(marks, fb, lastFlags, flags, flagBit) && lastFlags < |fb|
    ensures Flagged(marks, fb[lastFlags := flags], lastFlags, flags, flagBit)
    ensures forall j :: 0 <= j && 8 * j < |marks| ==> FlagByte(marks, fb[lastFlags := flags], j)
  {
    var fb' := fb[lastFlags := flags];
    assert marks[8 * lastFlags..|marks|] == marks[8 * lastFlags..];
    forall j | 0 <= j && 8 * j < |marks| ensures FlagByte(marks, fb', j) {
      if j < lastFlags { assert FlagByte(marks, fb, j); }
    }
  }

  // ----- reading the buffers back -----

  lemma {:induction false} DistsPrefix(tokens: seq<Token>, i: nat)
    requires AllOk(tokens) && i <= |tokens|
    ensures Dists(tokens[..i]) <= Dists(tokens)
    decreases |tokens|
  {
    if i < |tokens| {
      var init := tokens[..|tokens| - 1];
      DistsPrefix(init, i);
      assert init[..i] == tokens[..i];
    } else {
      assert tokens[..i] == tokens;
    }
  }

  /** The place of the distance of token i. */
  lemma DistAt(tokens: seq<Token>, i: nat)
    requires AllOk(tokens) && i < |tokens|
    ensures |Dists(tokens[..i + 1])| == |Dists(tokens[..i])| + if tokens[i].Match? then 1 else 0
    ensures tokens[i].Match? ==>
              |Dists(tokens[..i])| < |Dists(tokens)| && Dists(tokens)[|Dists(tokens[..i])|] == tokens[i].dist - 1
  {
    assert tokens[..i + 1] == tokens[..i] + [tokens[i]];
    DistsSnoc(tokens[..i], tokens[i]);
    DistsPrefix(tokens, i + 1);
    assert Dists(tokens)[..|Dists(tokens[..i + 1])|] == Dists(tokens[..i + 1]);
  }

  /** flag holds the marks of the tokens from lx on that flag byte fx - 1 still has. */
  ghost predicate Loaded(marks: seq<bool>, lx: nat, fx: nat, flag: nat) {
    && lx <= 8 * fx < lx + 8 && lx <= |marks|
    && (lx < 8 * fx ==> flag == Val(marks[lx..if 8 * fx <= |marks| then 8 * fx else |marks|]))
  }

  lemma LoadFlags(marks: seq<bool>, fb: seq<byte>, lx: nat, fx: nat, flag: nat)
    requires Loaded(marks, lx, fx, flag) && lx < |marks| && lx % 8 == 0 && FlagByte(marks, fb, fx)
    ensures lx == 8 * fx && fx < |fb| && fb[fx] == Val(marks[lx..if lx + 8 <= |marks| then lx + 8 else |marks|])
  {
  }

  lemma ShiftFlags(marks: seq<bool>, lx: nat, fx: nat, flag: nat)
    requires lx < 8 * fx < lx + 9 && lx < |marks|
    requires flag == Val(marks[lx..if 8 * fx <= |marks| then 8 * fx else |marks|])
    ensures flag % 2 == 1 <==> marks[lx]
    ensures Loaded(marks, lx + 1, fx, flag / 2)
  {
    var m := marks[lx..if 8 * fx <= |marks| then 8 * fx else |marks|];
    assert m[0] == marks[lx] && m[1..] == marks[lx + 1..if 8 * fx <= |marks| then 8 * fx else |marks|];
  }

  lemma KeepOne(tokens: seq<Token>, lb: seq<byte>, db: seq<nat>, lastLit: nat, lastDist: nat, t: Token)
    requires Kept(tokens, lb, db, lastLit, lastDist) && TokenOk(t) && lastLit < |lb|
    ensures |tokens| < |db| ==> lastDist < |db|
    ensures t.Match? && lastDist < |db| ==>
              Kept(tokens + [t], lb[lastLit := Lc(t)], db[lastDist := t.dist - 1], lastLit + 1, lastDist + 1)
    ensures t.Literal? ==> Kept(tokens + [t], lb[lastLit := Lc(t)], db, lastLit + 1, lastDist)
  {
    DistsSnoc(tokens, t);
    assert lastDist == |db[..lastDist]|;
    if t.Match? && lastDist < |db| {
      assert db[lastDist := t.dist - 1][..lastDist + 1] == db[..lastDist] + [t.dist - 1];
    }
  }
}
