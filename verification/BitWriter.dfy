/** The bit packer of gzip (bits.c) and the output buffer below it.

`Stream()` is everything sent so far, as bits: the bytes already put out
followed by the `biValid` bits still waiting in the 16-bit `biBuf`. */
module BitWriter {
  import opened Bits

  const OUTBUFSIZ := 8192
  const OUTBUF_EXTRA := 2048
  const BUF_SIZE := 16

  class Writer {
    const outbuf: array<byte>
    var outcnt: nat
    var written: seq<byte>  // what flush_outbuf has handed to write_buf
    var biBuf: nat
    var biValid: nat

    ghost predicate Valid()
      reads this
    {
      && outbuf.Length == OUTBUFSIZ + OUTBUF_EXTRA
      && outcnt < OUTBUFSIZ
      && biValid <= BUF_SIZE
      && biBuf < Pow2(biValid)
    }

    ghost function Bytes(): seq<byte>
      requires Valid()
      reads this, outbuf
    {
      written + outbuf[..outcnt]
    }

    ghost function Stream(): seq<bool>
      requires Valid()
      reads this, outbuf
    {
      BytesToBits(Bytes()) + ToBits(biBuf, biValid)
    }

    constructor ()
      ensures Valid() && fresh(outbuf) && Stream() == [] && Bytes() == [] && biValid == 0
    {
      outbuf := new byte[OUTBUFSIZ + OUTBUF_EXTRA](_ => 0);
      outcnt, written, biBuf, biValid := 0, [], 0, 0;
      new;
      assert Bytes() == [];
    }

    method FlushOutbuf()
      requires Valid()
      modifies this
      ensures Valid() && Bytes() == old(Bytes())
      ensures outcnt == 0 && written == old(Bytes())
      ensures biBuf == old(biBuf) && biValid == old(biValid)
    {
      if outcnt != 0 {
        written := written + outbuf[..outcnt];
        outcnt := 0;
        assert written + outbuf[..0] == written;
      }
      assert written + outbuf[..outcnt] == written;
    }

    method PutByte(c: byte)
      requires Valid()
      modifies this, outbuf
      ensures Valid() && Bytes() == old(Bytes()) + [c]
      ensures biBuf == old(biBuf) && biValid == old(biValid)
    {
      ghost var before := Bytes();
      outbuf[outcnt] := c;
      outcnt := outcnt + 1;
      assert outbuf[..outcnt] == old(outbuf[..outcnt]) + [c];
      assert written + outbuf[..outcnt] == before + [c];
      if outcnt == OUTBUFSIZ {
        written := written + outbuf[..outcnt];
        outcnt := 0;
        assert written + outbuf[..0] == written;
      }
    }

    /** Two bytes of output, the low one first. */
    method PutShort(w: nat)
      requires Valid() && w < 65536
      modifies this, outbuf
      ensures Valid() && Bytes() == old(Bytes()) + [w % 256, w / 256]
      ensures BytesToBits(Bytes()) == old(BytesToBits(Bytes())) + ToBits(w, 16)
      ensures biBuf == old(biBuf) && biValid == old(biValid)
    {
      ghost var before := Bytes();
      if outcnt < OUTBUFSIZ - 2 {
        outbuf[outcnt] := w % 256;
        outbuf[outcnt + 1] := w / 256;
        outcnt := outcnt + 2;
        assert outbuf[..outcnt] == old(outbuf[..outcnt]) + [w % 256, w / 256];
        assert written + outbuf[..outcnt] == before + [w % 256, w / 256];
      } else {
        PutByte(w % 256);
        PutByte(w / 256);
        assert before + [w % 256] + [w / 256] == before + [w % 256, w / 256];
      }
      ShortBits(before, w);
    }

    /** Appends exactly the `length` low bits of `value`. */
    method SendBits(value: nat, length: nat)
      requires Valid() && length <= 16 && value < Pow2(length)
      modifies this, outbuf
      ensures Valid() && Stream() == old(Stream()) + ToBits(value, length)
    {
      ghost var bytes := BytesToBits(Bytes());
      var word, valid := Or(biBuf, Shl(value, biValid)), biValid + length;
      if biValid > BUF_SIZE - length {
        var rest, left := Shr(value, BUF_SIZE - biValid), valid - BUF_SIZE;
        FullWord(bytes, biBuf, value, biValid, length, word, rest, left);
        PutShort(word % 65536);
        biBuf, biValid := rest, left;
      } else {
        PartWord(bytes, biBuf, value, biValid, length, word, valid);
        biBuf, biValid := word, valid;
      }
    }

    /** Flushes an incomplete byte, padding it with zero bits. */
    method Windup()
      requires Valid()
      modifies this, outbuf
      ensures Valid() && biValid == 0
      ensures Stream() == old(Stream()) + ToBits(0, Padding(|old(Stream())|))
      ensures Stream() == BytesToBits(Bytes())
    {
      ghost var bytes := Bytes();
      WindupBits(bytes, biBuf, biValid);
      if biValid > 8 {
        PutShort(biBuf);
      } else if biValid > 0 {
        PutByte(biBuf);
      }
      biBuf := 0;
      biValid := 0;
      assert BytesToBits(Bytes()) + [] == BytesToBits(Bytes());
    }

    /** Copies a stored block, byte aligned, with its length and one's complement when asked. */
    method CopyBlock(buf: array<byte>, start: nat, len: nat, header: bool)
      requires Valid() && buf != outbuf
      requires start + len <= buf.Length
      modifies this, outbuf
      ensures Valid() && biValid == 0
      ensures Stream() == old(Stream()) + ToBits(0, Padding(|old(Stream())|))
                          + (if header then LengthWords(len) else []) + BytesToBits(buf[start..start + len])
    {
      Windup();
      ghost var aligned := Stream();
      if header {
        PutShort(len % 65536);
        PutShort(65535 - len % 65536);
        Assoc(aligned, ToBits(len % 65536, 16), ToBits(65535 - len % 65536, 16));
      } else {
        assert aligned + [] == aligned;
      }
      ghost var front := Bytes();
      PutBytes(buf, start, len);
      BytesToBitsAppend(front, buf[start..start + len]);
      assert BytesToBits(Bytes()) + [] == BytesToBits(Bytes());
    }

    method PutBytes(buf: array<byte>, start: nat, len: nat)
      requires Valid() && buf != outbuf
      requires start + len <= buf.Length
      modifies this, outbuf
      ensures Valid() && biBuf == old(biBuf) && biValid == old(biValid)
      ensures Bytes() == old(Bytes()) + buf[start..start + len]
    {
      var i := 0;
      while i < len
        invariant 0 <= i <= len && Valid() && biBuf == old(biBuf) && biValid == old(biValid)
        invariant Bytes() == old(Bytes()) + buf[start..start + i]
      {
        PutByte(buf[start + i]);
        assert buf[start..start + i] + [buf[start + i]] == buf[start..start + (i + 1)];
        i := i + 1;
      }
    }
  }

  /** How many bits are missing to the next byte boundary. */
  function Padding(n: nat): (r: nat)
    ensures r < 8 && (n + r) % 8 == 0
  {
    (8 - n % 8) % 8
  }

  /** The length field of a stored block and its one's complement, 16 bits each. */
  function LengthWords(len: nat): (r: seq<bool>)
    ensures |r| == 32
  {
    ToBits(len % 65536, 16) + ToBits(65535 - len % 65536, 16)
  }

  lemma WindupBits(bytes: seq<byte>, buf: nat, valid: nat)
    requires valid <= 16 && buf < Pow2(valid)
    ensures var before := BytesToBits(bytes) + ToBits(buf, valid);
      var after := before + ToBits(0, Padding(|before|));
      && (valid > 8 ==> buf < 65536 && after == BytesToBits(bytes) + ToBits(buf, 16))
      && (0 < valid <= 8 ==> buf < 256 && after == BytesToBits(bytes + [buf]))
      && (valid == 0 ==> after == BytesToBits(bytes))
  {
    var front, bits := BytesToBits(bytes), ToBits(buf, valid);
    var pad := PaddingOf(|bytes|, valid);
    assert |front + bits| == 8 * |bytes| + valid;
    Assoc(front, bits, ToBits(0, pad));
    if valid > 0 {
      PadWord(buf, valid, valid + pad);
      if valid <= 8 { OneByteBits(bytes, buf); }
    }
  }

  lemma PaddingOf(n: nat, valid: nat) returns (pad: nat)
    requires valid <= 16
    ensures pad == Padding(8 * n + valid)
    ensures valid + pad == if valid > 8 then 16 else if valid > 0 then 8 else 0
  {
    pad := Padding(8 * n + valid);
    EightMore(n, valid);
  }

  lemma EightMore(n: nat, v: nat)
    ensures (8 * n + v) % 8 == v % 8
  {
  }

  lemma PadWord(buf: nat, valid: nat, width: nat)
    requires valid <= width <= 16 && buf < Pow2(valid)
    ensures ToBits(buf, valid) + ToBits(0, width - valid) == ToBits(buf, width)
    ensures width == 8 ==> buf < 256
    ensures width == 16 ==> buf < 65536
  {
    Pow2Mono(valid, width);
    Pow2Words();
    ZeroShl(valid);
    ToBitsJoin(buf, 0, valid, width - valid);
  }

  lemma {:induction false} ZeroShl(n: nat)
    ensures Shl(0, n) == 0
  {
    if n > 0 { ZeroShl(n - 1); }
  }

  lemma ShortBits(s: seq<byte>, w: nat)
    requires w < 65536
    ensures BytesToBits(s + [w % 256, w / 256]) == BytesToBits(s) + ToBits(w, 16)
  {
    BytesToBitsAppend(s, [w % 256, w / 256]);
    assert [w % 256, w / 256][1..] == [w / 256];
    assert BytesToBits([w / 256]) == ToBits(w / 256, 8) + BytesToBits([]);
    ShortSplit(w);
  }

  lemma ShortSplit(w: nat)
    requires w < 65536
    ensures ToBits(w, 16) == ToBits(w % 256, 8) + ToBits(w / 256, 8)
  {
    assert Pow2(8) == 256;
    Shl8(w / 256);
    ToBitsJoin(w % 256, w / 256, 8, 8);
  }

  lemma OneByteBits(s: seq<byte>, c: byte)
    ensures BytesToBits(s + [c]) == BytesToBits(s) + ToBits(c, 8)
  {
    BytesToBitsAppend(s, [c]);
    assert [c][1..] == [];
  }

  lemma Assoc<T>(a: seq<T>, b: seq<T>, c: seq<T>)
    ensures a + (b + c) == (a + b) + c
  {
  }

  /** ORing a value above the valid bits appends its bits to them. */
  lemma JoinWord(buf: nat, value: nat, valid: nat, length: nat)
    requires buf < Pow2(valid) && value < Pow2(length)
    ensures var word := Or(buf, Shl(value, valid));
      && word < Pow2(valid + length)
      && ToBits(word, valid + length) == ToBits(buf, valid) + ToBits(value, length)
  {
    OrDisjoint(buf, value, valid);
    JoinBound(buf, value, valid, length);
    ToBitsJoin(buf, value, valid, length);
  }

  /** The bits sent stay in the buffer. */
  lemma PartWord(bytes: seq<bool>, buf: nat, value: nat, valid: nat, length: nat, word: nat, total: nat)
    requires buf < Pow2(valid) && value < Pow2(length) && word == Or(buf, Shl(value, valid)) && total == valid + length
    ensures word < Pow2(total) && bytes + ToBits(word, total) == bytes + ToBits(buf, valid) + ToBits(value, length)
  {
    JoinWord(buf, value, valid, length);
    Assoc(bytes, ToBits(buf, valid), ToBits(value, length));
  }

  /** The buffer is full: 16 bits leave, the rest stays. */
  lemma FullWord(bytes: seq<bool>, buf: nat, value: nat, valid: nat, length: nat, word: nat, rest: nat, left: nat)
    requires buf < Pow2(valid) && value < Pow2(length) && valid <= 16 && left == valid + length - 16 > 0
    requires word == Or(buf, Shl(value, valid)) && rest == Shr(value, 16 - valid)
    ensures rest < Pow2(left)
    ensures bytes + ToBits(word % 65536, 16) + ToBits(rest, left) == bytes + ToBits(buf, valid) + ToBits(value, length)
  {
    PartWord(bytes, buf, value, valid, length, word, valid + length);
    SplitWord(buf, value, valid, length);
    Assoc(bytes, ToBits(word % 65536, 16), ToBits(rest, left));
  }

  /** A word wider than 16 bits, split into the 16 bits that leave and the rest that stays. */
  lemma SplitWord(buf: nat, value: nat, valid: nat, length: nat)
    requires buf < Pow2(valid) && value < Pow2(length) && valid <= 16 && valid + length > 16
    ensures var word := Or(buf, Shl(value, valid));
      var rest := Shr(value, 16 - valid);
      && rest < Pow2(valid + length - 16)
      && ToBits(word, valid + length) == ToBits(word % 65536, 16) + ToBits(rest, valid + length - 16)
  {
    var word := Or(buf, Shl(value, valid));
    OrDisjoint(buf, value, valid);
    ToBitsSplit(word, 16, valid + length - 16);
    ToBits16(word);
    ShrAdd(word, valid, 16 - valid);
    ShrJoin(buf, value, valid);
    ShrBound(value, length, 16 - valid);
  }
}
