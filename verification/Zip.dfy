/** `zip`: header, compressed data and trailer of a gzip file. */
module Zip {
  import opened Bits
  import opened BitWriter
  import opened Inflate
  import opened Crc
  import opened Input
  import opened GzipFormat
  import opened BlockDecode
  import opened BlockCoder
  import opened Coder
  import opened LM = LongestMatch
  import opened Matcher
  import opened DeflateSpec
  import opened Deflate

  const DEFLATED := 8
  const SLOW := 2
  const OS_CODE := 3

  /** The ten bytes of the header. */
  ghost predicate Header(h: seq<byte>) {
    |h| == 10 && h[0] == 0x1f && h[1] == 0x8b && h[2] == DEFLATED && h[3] == 0
  }

  /** The fields of the header that a reader may ignore: the time, the lowest byte first, then 2 for the slowest
  method and 3 for Unix (section 2.3.1 of RFC 1952). */
  ghost predicate Stamped(file: seq<byte>, timeStamp: nat) {
    |file| >= 10 && BytesToBits(file[4..8]) == ToBits(timeStamp, 32) && file[8] == 2 && file[9] == 3
  }

  lemma StillStamped(h: seq<byte>, file: seq<byte>, timeStamp: nat)
    requires |h| == 10 && h <= file && Stamped(h, timeStamp)
    ensures Stamped(file, timeStamp)
  {
    assert file[4..8] == h[4..8];
  }

  /** The bits of a file determine its first bytes and the bits of the rest. */
  lemma {:induction false} SplitFile(file: seq<byte>, h: seq<byte>, x: seq<bool>)
    requires BytesToBits(file) == BytesToBits(h) + x
    ensures |h| <= |file| && file[..|h|] == h && BytesToBits(file[|h|..]) == x
  {
    var n := |h|;
    var a, b := file[..n], file[n..];
    assert file == a + b;
    BytesToBitsAppend(a, b);
    assert BytesToBits(a) == (BytesToBits(a) + BytesToBits(b))[..8 * n] == BytesToBits(h);
    assert BytesToBits(b) == (BytesToBits(a) + BytesToBits(b))[8 * n..] == x;
    BytesRoundTrip(a);
    BytesRoundTrip(h);
  }

  /** Blocks that decode to data, padding and trailer after a header of 80 bits. */
  lemma {:induction false} MemberDecodes(body: seq<bool>, pad: seq<bool>, trailer: seq<bool>, data: seq<byte>)
    requires Carries(80, body, [], data, true) && (80 + |body| + |pad|) % 8 == 0 && |pad| < 8 && |trailer| == 64
    ensures Decode(body + (pad + trailer), []) == Some((data, pad + trailer))
  {
    var rest := pad + trailer;
    assert Whole(80, body, rest) by { WholeTrailer(|body|, |pad|, |rest|); }
    assert DecodesTo(body + rest, [], data, true, rest);
    var none: seq<byte> := [];
    assert none + data == data;
  }

  /** Header, blocks that decode to data, padding, CRC and length make a file that gunzip turns back into data. */
  lemma {:induction false} FileDecodes(p: Register, file: seq<byte>, h: seq<byte>, body: seq<bool>, pad: seq<bool>,
                                       trailer: seq<bool>, data: seq<byte>)
    requires Header(h) && BytesToBits(file) == BytesToBits(h) + (body + (pad + trailer)) && |pad| < 8 && |trailer| == 64
    requires Carries(80, body, [], data, true) && (80 + |body| + |pad|) % 8 == 0
    requires trailer[..32] == Crc32(p, data) && Val(trailer[32..]) == |data| % 0x1_0000_0000
    ensures Member(p, file) == Some(data) && h <= file
  {
    SplitFile(file, h, body + (pad + trailer));
    assert file[0] == file[..10][0] && file[1] == file[..10][1] && file[2] == file[..10][2] && file[3] == file[..10][3];
    MemberDecodes(body, pad, trailer, data);
    TrailerFits(p, pad, trailer, data);
  }

  lemma WholeTrailer(body: nat, pad: nat, rest: nat)
    requires (80 + body + pad) % 8 == 0 && rest == pad + 64
    ensures (80 + body + rest) % 8 == 0
  {
  }

  lemma TrailerFits(p: Register, pad: seq<bool>, trailer: seq<bool>, data: seq<byte>)
    requires |pad| < 8 && |trailer| == 64 && trailer[..32] == Crc32(p, data)
    requires Val(trailer[32..]) == |data| % 0x1_0000_0000
    ensures TrailerOk(p, pad + trailer, data)
  {
    var rest := pad + trailer;
    assert |rest| % 8 == |pad|;
    assert rest[|pad|..] == trailer;
  }

  lemma LongBits(v: nat)
    requires v < 0x1_0000_0000
    ensures ToBits(v % 65536, 16) + ToBits(v / 65536, 16) == ToBits(v, 32)
  {
    Pow2Words();
    Shl16(v / 65536);
    var n: nat :| n == 16;
    ToBitsJoin(v % 65536, v / 65536, n, n);
  }

  /** put_long: 32 bits, the low half first. */
  method PutLong(w: Writer, v: nat)
    requires w.Valid() && w.biValid == 0 && v < 0x1_0000_0000
    modifies w, w.outbuf
    ensures w.Valid() && w.biValid == 0 && |w.Bytes()| == |old(w.Bytes())| + 4 && old(w.Bytes()) <= w.Bytes()
    ensures BytesToBits(w.Bytes()) == old(BytesToBits(w.Bytes())) + ToBits(v, 32)
  {
    LongBits(v);
    ghost var s := BytesToBits(w.Bytes());
    w.PutShort(v % 65536);
    w.PutShort(v / 65536);
    Assoc(s, ToBits(v % 65536, 16), ToBits(v / 65536, 16));
  }

  /** The eight bytes that zip writes first. */
  method PutStart(w: Writer, timeStamp: nat)
    requires w.Valid() && w.biValid == 0 && w.Bytes() == [] && timeStamp < 0x1_0000_0000
    modifies w, w.outbuf
    ensures w.Valid() && w.biValid == 0 && |w.Bytes()| == 8 && w.Bytes()[..4] == [0x1f, 0x8b, DEFLATED, 0]
    ensures BytesToBits(w.Bytes()[4..]) == ToBits(timeStamp, 32)
  {
    w.PutByte(0x1f);
    w.PutByte(0x8b);
    w.PutByte(DEFLATED);
    w.PutByte(0);
    ghost var four := w.Bytes();
    assert four == [0x1f, 0x8b, DEFLATED, 0];
    PutLong(w, timeStamp);
    assert w.Bytes()[..4] == four;
    SplitFile(w.Bytes(), four, ToBits(timeStamp, 32));
  }

  /** The CRC and the length behind the compressed data complete a gzip file of the data. */
  method PutTrailer(w: Writer, reader: Reader, ghost h: seq<byte>, ghost body: seq<bool>)
    requires Header(h) && reader.Valid() && Ended(w, BytesToBits(h), body, reader.delivered)
    modifies w, w.outbuf
    ensures w.Valid() && Member(reader.p, w.Bytes()) == Some(reader.delivered) && h <= w.Bytes()
  {
    ghost var s := BytesToBits(w.Bytes());
    CrcValue(reader.crc);
    PutLong(w, Val(reader.crc));
    PutLong(w, reader.isize % 0x1_0000_0000);
    FileComplete(reader.p, reader.tab, reader.reg, reader.crc, reader.isize % 0x1_0000_0000, w.Bytes(), h, body,
                 reader.delivered, s);
  }

  lemma FileComplete(p: Register, tab: seq<Register>, reg: Register, crc: Register, n: nat, file: seq<byte>,
                     h: seq<byte>, body: seq<bool>, data: seq<byte>, s: seq<bool>)
    requires CrcOf(p, tab, reg, crc, data) && n == |data| % 0x1_0000_0000 && Header(h)
    requires BytesToBits(file) == s + crc + ToBits(n, 32)
    requires s == BytesToBits(h) + body + ToBits(0, Padding(|BytesToBits(h) + body|))
    requires Carries(|BytesToBits(h)|, body, [], data, true)
    ensures Member(p, file) == Some(data) && h <= file
  {
    var pre, trailer := BytesToBits(h), crc + ToBits(n, 32);
    var pad := ToBits(0, Padding(|pre + body|));
    CrcEnd(p, tab, reg, crc, data);
    TrailerParts(crc, n, trailer);
    FileBits(BytesToBits(file), pre, body, pad, crc, ToBits(n, 32), trailer);
    PadFits(pre, body, pad);
    FileDecodes(p, file, h, body, pad, trailer, data);
  }

  lemma FileBits(file: seq<bool>, pre: seq<bool>, body: seq<bool>, pad: seq<bool>, crc: seq<bool>, len: seq<bool>,
                 trailer: seq<bool>)
    requires file == pre + body + pad + crc + len && trailer == crc + len
    ensures file == pre + (body + (pad + trailer))
  {
    Assoc(pre + body + pad, crc, len);
    FileShape(pre, body, pad, trailer);
  }

  lemma PadFits(pre: seq<bool>, body: seq<bool>, pad: seq<bool>)
    requires |pre| == 80 && |pad| == Padding(|pre + body|)
    ensures |pad| < 8 && (80 + |body| + |pad|) % 8 == 0
  {
    assert |pre + body| == 80 + |body|;
  }

  lemma CrcValue(crc: Register)
    ensures Val(crc) < 0x1_0000_0000 && ToBits(Val(crc), 32) == crc
  {
    ValBound(crc);
    ToBitsVal(crc);
    Pow32(|crc|);
  }

  lemma Pow32(n: nat)
    requires n == 32
    ensures Pow2(n) == 0x1_0000_0000
  {
    var k: nat, w: nat :| k == 16 && w == 65536;
    assert Pow2(k) == w by { Pow2Words(); }
    ShlPow(k, k);
    Shl16(w);
  }

  lemma {:induction false} ShlPow(a: nat, b: nat)
    ensures Shl(Pow2(a), b) == Pow2(a + b)
  {
    if b > 0 { ShlPow(a, b - 1); }
  }

  lemma TrailerParts(crc: Register, n: nat, trailer: seq<bool>)
    requires n < 0x1_0000_0000 && trailer == crc + ToBits(n, 32)
    ensures |trailer| == 64 && trailer[..32] == crc && Val(trailer[32..]) == n
  {
    var k: nat :| k == 32;
    Pow32(k);
    ValToBits(n, k);
    assert trailer[32..] == ToBits(n, k);
  }

  lemma FileShape(pre: seq<bool>, body: seq<bool>, pad: seq<bool>, trailer: seq<bool>)
    ensures pre + body + pad + trailer == pre + (body + (pad + trailer))
  {
    Assoc(pre + body, pad, trailer);
    Assoc(pre, body, pad + trailer);
  }

  /** zip: for every file, and every way in which reads deliver it, gunzip of the output gives back exactly the bytes
  delivered: those of the reads up to the end of the file or the first read that fails. */
  method ZipFile(file: seq<byte>, chunks: seq<nat>, timeStamp: nat) returns (out: seq<byte>, ghost delivered: seq<byte>)
    requires timeStamp < 0x1_0000_0000
    ensures Gunzip(out) == Some(delivered) && Stopped(file, chunks, delivered) && Stamped(out, timeStamp)
    ensures NeverFails(file, chunks) ==> delivered == file
  {
    out, delivered := ZipWith(Poly(), file, chunks, timeStamp);
    if NeverFails(file, chunks) { WholeFile(file, chunks, delivered); }
  }

  /** zip, for any polynomial of the CRC. */
  method ZipWith(p: Register, file: seq<byte>, chunks: seq<nat>, timeStamp: nat)
    returns (out: seq<byte>, ghost delivered: seq<byte>)
    requires timeStamp < 0x1_0000_0000
    ensures Member(p, out) == Some(delivered) && Stopped(file, chunks, delivered) == true && Stamped(out, timeStamp)
  {
    var w := new Writer();
    ghost var h := PutHeader(w, timeStamp);
    var e := new BlockEncoder(w);
    var f := NewFinder(p, file, chunks);
    out := ZipRest(w, e, f, h);
    StillStamped(h, out, timeStamp);
    delivered := f.reader.delivered;
    assert f.reader.file == file && f.reader.chunks == chunks;
  }

  /** zip after the header and the initializations. */
  method ZipRest(w: Writer, e: BlockEncoder, f: Finder, ghost h: seq<byte>) returns (out: seq<byte>)
    requires e.w == w && Apart(f, e) && Header(h) && e.Holds(BytesToBits(h), []) == true && e.compressedLen == 0
    requires f.Filled() && (f.lookahead > 0 ==> f.Ready()) && (f.lookahead < MIN_LOOKAHEAD ==> f.eofile)
    requires f.base == 0 && f.strstart == 0 && f.blockStart == 0
    modifies f, f.window, f.prev, f.head, f.reader
    modifies e, e.w, e.w.outbuf, e.buf, e.buf.lBuf, e.buf.dBuf, e.buf.flagBuf, e.trees.Arrays()
    ensures f.reader.Valid() && Stopped(f.reader.file, f.reader.chunks, f.reader.delivered) == true
    ensures Member(f.reader.p, out) == Some(f.reader.delivered) && h <= out
  {
    ghost var body, blocks, last;
    var total;
    total, body, blocks, last := DeflateAll(f, e, BytesToBits(h));
    PutTrailer(w, f.reader, h, body);
    w.FlushOutbuf();
    out := w.written;
  }

  /** lm_init on a new input. */
  method NewFinder(p: Register, file: seq<byte>, chunks: seq<nat>) returns (f: Finder)
    ensures fresh(f) && fresh(f.window) && fresh(f.prev) && fresh(f.head) && fresh(f.reader)
    ensures f.reader.file == file && f.reader.chunks == chunks && f.reader.p == p
    ensures f.Filled() && (f.lookahead > 0 ==> f.Ready()) && (f.lookahead < MIN_LOOKAHEAD ==> f.eofile)
    ensures f.base == 0 && f.strstart == 0 && f.blockStart == 0
  {
    var reader := new Reader(file, chunks, p);
    f := new Finder(reader);
    f.LmInit();
  }

  /** The ten bytes of the header. */
  method PutHeader(w: Writer, timeStamp: nat) returns (ghost h: seq<byte>)
    requires w.Valid() && w.biValid == 0 && w.Bytes() == [] && timeStamp < 0x1_0000_0000
    modifies w, w.outbuf
    ensures w.Valid() && w.biValid == 0 && Header(h) && Stamped(h, timeStamp) && w.Stream() == BytesToBits(h)
  {
    PutStart(w, timeStamp);
    ghost var start := w.Bytes();
    w.PutByte(SLOW);
    w.PutByte(OS_CODE);
    h := w.Bytes();
    assert h == start + [SLOW] + [OS_CODE];
    assert h[..4] == start[..4];
    assert h[4..8] == start[4..];
    assert h[0] == h[..4][0] && h[1] == h[..4][1] && h[2] == h[..4][2] && h[3] == h[..4][3];
    assert w.Stream() == BytesToBits(h);
  }
}
