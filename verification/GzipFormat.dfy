/** What a gzip file stands for: a reader for one member without optional
fields, from sections 2.3 and 8 of RFC 1952. */
module GzipFormat {
  import opened Bits
  import opened Inflate
  import opened Crc

  /** The end of a member: the CRC and the length modulo 2^32 of the data, at the next byte boundary. */
  predicate TrailerOk(p: Register, rest: seq<bool>, data: seq<byte>) {
    var t := rest[|rest| % 8..];
    |t| == 64 && t[..32] == Crc32(p, data) && Val(t[32..]) == |data| % 0x1_0000_0000
  }

  /** The contents of a member whose CRC is taken with the polynomial p. */
  function Member(p: Register, file: seq<byte>): Option<seq<byte>> {
    if |file| < 10 || file[0] != 0x1f || file[1] != 0x8b || file[2] != 8 || file[3] != 0 then None
    else match Decode(BytesToBits(file[10..]), [])
      case None => None
      case Some((data, rest)) => if TrailerOk(p, rest, data) then Some(data) else None
  }

  function Gunzip(file: seq<byte>): Option<seq<byte>> {
    Member(Poly(), file)
  }
}
