/** The input of gzip: `file_read` delivers it in chunks of any size, and keeps
the CRC and the length of what it has delivered. */
module Input {
  import opened Bits
  import opened Crc

  /** The state of updcrc after the bytes delivered. */
  ghost predicate CrcOf(p: Register, tab: seq<Register>, reg: Register, crc: Register, delivered: seq<byte>) {
    forall k: int {:trigger Opened(CrcSeal, k)} :: Sealed(k) ==>
    TableRight(p, tab) && reg == FeedAll(p, AllOnes(), delivered) && crc == XorBits(reg, AllOnes())
  }

  lemma CrcStart(p: Register, tab: seq<Register>)
    requires TableRight(p, tab)
    ensures CrcOf(p, tab, AllOnes(), XorBits(AllOnes(), AllOnes()), [])
  {
    assert FeedAll(p, AllOnes(), []) == AllOnes();
  }

  lemma CrcChunk(p: Register, tab: seq<Register>, reg: Register, crc: Register, delivered: seq<byte>, chunk: seq<byte>,
                 reg': Register, crc': Register)
    requires CrcOf(p, tab, reg, crc, delivered) && reg' == FeedAll(p, reg, chunk) && crc' == XorBits(reg', AllOnes())
    ensures CrcOf(p, tab, reg', crc', delivered + chunk)
  {
    assert Opened(CrcSeal, 0);
    FeedAppend(p, AllOnes(), delivered, chunk);
  }

  /** The register at the end is the CRC of everything delivered. */
  lemma CrcEnd(p: Register, tab: seq<Register>, reg: Register, crc: Register, delivered: seq<byte>)
    requires CrcOf(p, tab, reg, crc, delivered)
    ensures crc == Crc32(p, delivered)
  {
    assert Opened(CrcSeal, 0);
  }

  function Total(s: seq<nat>): nat {
    if s == [] then 0 else Total(s[..|s| - 1]) + s[|s| - 1]
  }

  /** k reads have succeeded: each delivered at least a byte, and no more than planned. */
  ghost predicate Succeeded(chunks: seq<nat>, k: nat, delivered: seq<byte>) {
    k <= |chunks| && (forall i :: 0 <= i < k ==> chunks[i] > 0) && k <= |delivered| <= Total(chunks[..k])
  }

  /** No read has failed yet, and `plan` is what is left. */
  ghost predicate Going(chunks: seq<nat>, plan: seq<nat>, delivered: seq<byte>) {
    forall k: int {:trigger Opened(TrackSeal, k)} :: Sealed(k) ==>
      |plan| <= |chunks| && plan == chunks[|chunks| - |plan|..] && Succeeded(chunks, |chunks| - |plan|, delivered)
  }

  /** The input has ended after k reads: with the file, with the plan, or with an error. */
  ghost predicate StoppedAfter(file: seq<byte>, chunks: seq<nat>, delivered: seq<byte>, k: nat) {
    Succeeded(chunks, k, delivered) && delivered <= file && (delivered == file || k == |chunks| || chunks[k] == 0)
  }

  ghost predicate Stopped(file: seq<byte>, chunks: seq<nat>, delivered: seq<byte>) {
    exists k: nat :: StoppedAfter(file, chunks, delivered, k)
  }

  lemma GoingStart(chunks: seq<nat>)
    ensures Going(chunks, chunks, [])
  {
    assert chunks[..0] == [];
    assert Succeeded(chunks, 0, []);
  }

  lemma GoingOn(chunks: seq<nat>, plan: seq<nat>, delivered: seq<byte>, chunk: seq<byte>)
    requires Going(chunks, plan, delivered) && plan != [] && 0 < |chunk| <= plan[0]
    ensures Going(chunks, plan[1..], delivered + chunk)
  {
    assert Opened(TrackSeal, 0);
    var k := |chunks| - |plan|;
    assert chunks[..k + 1][..k] == chunks[..k] && chunks[k] == plan[0];
    assert Succeeded(chunks, k + 1, delivered + chunk);
  }

  lemma GoingStops(file: seq<byte>, chunks: seq<nat>, plan: seq<nat>, delivered: seq<byte>)
    requires Going(chunks, plan, delivered) && delivered <= file && (delivered == file || plan == [] || plan[0] == 0)
    ensures Stopped(file, chunks, delivered)
  {
    assert Opened(TrackSeal, 0);
    assert StoppedAfter(file, chunks, delivered, |chunks| - |plan|);
  }

  /** Every read delivers something until the file has ended. */
  predicate NeverFails(file: seq<byte>, chunks: seq<nat>) {
    |file| < |chunks| && forall i :: 0 <= i < |chunks| ==> chunks[i] > 0
  }

  /** Then the input ends with the file. */
  lemma WholeFile(file: seq<byte>, chunks: seq<nat>, delivered: seq<byte>)
    requires Stopped(file, chunks, delivered) && NeverFails(file, chunks)
    ensures delivered == file
  {
    var k: nat :| StoppedAfter(file, chunks, delivered, k);
  }

  class Reader {
    var rest: seq<byte>  // what the file still holds
    var plan: seq<nat>   // how much each read delivers at most; 0 stands for an error, and so does the end of the plan
    const tab: seq<Register>
    ghost const p: Register
    var reg: Register
    var crc: Register
    var isize: nat
    ghost const file: seq<byte>
    ghost const chunks: seq<nat>
    ghost var delivered: seq<byte>

    ghost predicate Valid()
      reads this
    {
      CrcOf(p, tab, reg, crc, delivered) == true && isize == |delivered| && delivered + rest == file
    }

    /** The polynomial, a constant of updcrc, is passed in. */
    constructor (file: seq<byte>, chunks: seq<nat>, poly: Register)
      ensures Valid() && this.file == file && this.chunks == chunks && p == poly && rest == file && delivered == []
      ensures Going(chunks, plan, delivered) == true
    {
      GoingStart(chunks);
      var t := InitTable(poly);
      CrcStart(poly, t);
      rest, plan, tab, p, isize, delivered := file, chunks, t, poly, 0, [];
      this.file, this.chunks := file, chunks;
      reg, crc := AllOnes(), XorBits(AllOnes(), AllOnes());
    }

    /** What the next read delivers. */
    method Amount(size: nat) returns (n: nat)
      modifies this`plan
      ensures n <= size && n <= |rest|
      ensures n > 0 ==> old(plan) != [] && n <= old(plan[0]) && plan == old(plan[1..])
      ensures n == 0 && size > 0 ==> rest == [] || old(plan) == [] || old(plan[0]) == 0
    {
      n := 0;
      if plan != [] {
        n := if plan[0] < size then plan[0] else size;
        if |rest| < n { n := |rest|; }
        plan := plan[1..];
      }
    }

    /** file_read: the next bytes of the file, as many as the read delivers, go to buf[at..]. None means the end of
    the input. */
    method Read(buf: array<byte>, at: nat, size: nat) returns (n: nat)
      requires Valid() && at + size <= buf.Length
      modifies this, buf
      ensures Valid() && n <= size && n <= |old(rest)|
      ensures rest == old(rest)[n..] && delivered == old(delivered) + old(rest)[..n]
      ensures old(Going(chunks, plan, delivered)) && size > 0 ==>
                if n == 0 then Stopped(file, chunks, delivered) == true else Going(chunks, plan, delivered) == true
      ensures buf[..] == old(buf[..])[..at] + old(rest)[..n] + old(buf[..])[at + n..]
    {
      n := Amount(size);
      ghost var was, chunk := buf[..], rest[..n];
      PlanFollowed(file, chunks, old(plan), plan, delivered, rest, n, size);
      CopyIn(buf, at, n, rest, was);
      assert buf[at..at + n] == chunk;
      Account(buf, at, n, chunk);
      Split(old(delivered), rest, n);
      rest := rest[n..];
    }

    /** The end of file_read. */
    method Account(buf: array<byte>, at: nat, n: nat, ghost chunk: seq<byte>)
      requires CrcOf(p, tab, reg, crc, delivered) == true && isize == |delivered| && at + n <= buf.Length
      requires buf[at..at + n] == chunk
      modifies this`reg, this`crc, this`isize, this`delivered
      ensures CrcOf(p, tab, reg, crc, delivered) == true && isize == |delivered| && delivered == old(delivered) + chunk
    {
      ghost var reg0, crc0 := reg, crc;
      assert TableRight(p, tab) by { assert Opened(CrcSeal, 0); }
      if n != 0 {
        reg, crc := UpdCrc(p, tab, reg, buf, at, n);
        CrcChunk(p, tab, reg0, crc0, delivered, chunk, reg, crc);
        isize := isize + n;
      } else {
        assert delivered + chunk == delivered;
      }
      delivered := delivered + chunk;
    }
  }

  lemma PlanFollowed(file: seq<byte>, chunks: seq<nat>, plan: seq<nat>, plan': seq<nat>, delivered: seq<byte>,
                     rest: seq<byte>, n: nat, size: nat)
    requires delivered + rest == file && n <= |rest|
    requires n > 0 ==> plan != [] && n <= plan[0] && plan' == plan[1..]
    requires n == 0 && size > 0 ==> rest == [] || plan == [] || plan[0] == 0
    ensures Going(chunks, plan, delivered) && size > 0 ==>
              if n == 0 then Stopped(file, chunks, delivered + rest[..n])
              else Going(chunks, plan', delivered + rest[..n])
  {
    if Going(chunks, plan, delivered) && size > 0 {
      if n == 0 {
        assert delivered + rest[..n] == delivered;
        GoingStops(file, chunks, plan, delivered);
      } else {
        GoingOn(chunks, plan, delivered, rest[..n]);
      }
    }
  }

  lemma Split(a: seq<byte>, b: seq<byte>, n: nat)
    requires n <= |b|
    ensures a + b[..n] + b[n..] == a + b
  {
  }

  method CopyIn(buf: array<byte>, at: nat, n: nat, src: seq<byte>, ghost was: seq<byte>)
    requires at + n <= buf.Length && n <= |src| && buf[..] == was
    modifies buf
    ensures buf[..] == was[..at] + src[..n] + was[at + n..]
  {
    var i := 0;
    while i < n
      invariant 0 <= i <= n && buf[..] == was[..at] + src[..i] + was[at + i..]
    {
      buf[at + i] := src[i];
      i := i + 1;
    }
  }
}
