/** Segments on the wire: a header of 24 bytes in network order, then the data. */
module Wire {
  import opened Seq32
  import opened Segments
  import opened SendLoop
  import opened Text
  import S = Sending

  function Bytes16(n: nat): (b: seq<byte>)
    requires n < 0x1_0000
    ensures |b| == 2
  {
    [n / 0x100, n % 0x100]
  }

  function Bytes32(n: u32): (b: seq<byte>)
    ensures |b| == 4
  {
    [n / 0x100_0000, n / 0x1_0000 % 0x100, n / 0x100 % 0x100, n % 0x100]
  }

  function Read16(b: seq<byte>, at: nat): nat
    requires at + 2 <= |b|
  {
    var x: int, y: int := b[at], b[at + 1];
    0x100 * x + y
  }

  function Read32(b: seq<byte>, at: nat): u32
    requires at + 4 <= |b|
  {
    var x: int, y: int, z: int, w: int := b[at], b[at + 1], b[at + 2], b[at + 3];
    0x100_0000 * x + 0x1_0000 * y + 0x100 * z + w
  }

  function FlagByte(f: Flags): byte {
    (if f.fin then 1 else 0) + (if f.ctl then 2 else 0) + (if f.rst then 4 else 0)
  }

  function ReadFlags(b: byte): Flags { Flags(b % 2 == 1, b / 2 % 2 == 1, b / 4 % 2 == 1) }

  /** The buffer that `packet` fills. */
  function Encode(s: S.Segment): seq<byte>
    requires s.wnd < 0x1_0000
  {
    Bytes32(s.conv) + Bytes32(s.sn) + Bytes32(s.ack) + [0, FlagByte(s.flags)] + Bytes16(s.wnd)
    + Bytes32(s.tsval) + Bytes32(s.tsecr) + s.data
  }

  /** pseudo_tcp_socket_notify_packet and `parse`: packets of an impossible length
      are refused. */
  function Decode(b: seq<byte>): Option<S.Segment> {
    if |b| > MAX_PACKET || |b| < HEADER_SIZE then None
    else Some(S.Segment(Read32(b, 0), Read32(b, 4), Read32(b, 8), ReadFlags(b[13]), Read16(b, 14), b[24..],
                        Read32(b, 16), Read32(b, 20)))
  }

  lemma Digits256(n: int)
    ensures n == 0x100_0000 * (n / 0x100_0000) + 0x1_0000 * (n / 0x1_0000 % 0x100)
                 + 0x100 * (n / 0x100 % 0x100) + n % 0x100
  {
    var a := n / 0x100;
    var c := a / 0x100;
    assert n == 0x100 * a + n % 0x100;
    assert a == 0x100 * c + a % 0x100;
    assert n / 0x1_0000 == c && n / 0x100_0000 == c / 0x100;
  }

  lemma Read32Back(n: u32, a: seq<byte>, c: seq<byte>)
    ensures Read32(a + Bytes32(n) + c, |a|) == n
  {
    var b := a + Bytes32(n) + c;
    var x := Bytes32(n);
    Digits256(n);
    assert b[|a|] == x[0] && b[|a| + 1] == x[1] && b[|a| + 2] == x[2] && b[|a| + 3] == x[3];
  }

  lemma FlagsBack(f: Flags)
    ensures ReadFlags(FlagByte(f)) == f
  {
  }

  /** A number of four bytes in network order at offset `at`. */
  ghost predicate HasNumber(b: seq<byte>, at: nat, n: u32) {
    && at + 4 <= |b|
    && var x: int, y: int, z: int, w: int := b[at], b[at + 1], b[at + 2], b[at + 3];
    n == ((x * 256 + y) * 256 + z) * 256 + w
  }

  /** The header, byte by byte: conversation, number and acknowledgement, a zero, the
      flags with FIN in the last bit, CTL in the one before and RST before that, the
      window, and the two timestamps; then the data. */
  lemma HeaderLayout(s: S.Segment)
    requires s.wnd < 0x1_0000
    ensures var b := Encode(s);
            && HasNumber(b, 0, s.conv) && HasNumber(b, 4, s.sn) && HasNumber(b, 8, s.ack)
            && b[12] == 0
            && b[13] == (if s.flags.fin then 1 else 0) + (if s.flags.ctl then 2 else 0) + (if s.flags.rst then 4 else 0)
            && b[14] == s.wnd / 256 && b[15] == s.wnd % 256
            && HasNumber(b, 16, s.tsval) && HasNumber(b, 20, s.tsecr)
            && |b| == HEADER_SIZE + |s.data| && b[24..] == s.data
  {
    hide Bytes32;
    var b := Encode(s);
    assert b[0..4] == Bytes32(s.conv) && b[4..8] == Bytes32(s.sn) && b[8..12] == Bytes32(s.ack);
    assert b[16..20] == Bytes32(s.tsval) && b[20..24] == Bytes32(s.tsecr);
    NumberAt(b, 0, s.conv);
    NumberAt(b, 4, s.sn);
    NumberAt(b, 8, s.ack);
    NumberAt(b, 16, s.tsval);
    NumberAt(b, 20, s.tsecr);
  }

  lemma NumberAt(b: seq<byte>, at: nat, n: u32)
    requires at + 4 <= |b| && b[at..at + 4] == Bytes32(n)
    ensures HasNumber(b, at, n)
  {
    var c := b[at..at + 4];
    assert b[at] == c[0] && b[at + 1] == c[1] && b[at + 2] == c[2] && b[at + 3] == c[3];
    Digits256(n);
  }

  /** Whatever segment is sent is the segment received, provided it fits a packet;
      `packet` asserts that it does. */
  lemma DecodeEncode(s: S.Segment)
    requires s.wnd < 0x1_0000 && HEADER_SIZE + |s.data| <= MAX_PACKET
    ensures Decode(Encode(s)) == Some(s)
  {
    hide Bytes32, Read32, FlagByte, ReadFlags;
    var b := Encode(s);
    var a8 := Bytes32(s.conv) + Bytes32(s.sn);
    var a12 := a8 + Bytes32(s.ack);
    var mid := [0, FlagByte(s.flags)] + Bytes16(s.wnd);
    var a16 := a12 + mid;
    var a20 := a16 + Bytes32(s.tsval);
    assert b == [] + Bytes32(s.conv) + b[4..];
    assert b == Bytes32(s.conv) + Bytes32(s.sn) + b[8..];
    assert b == a8 + Bytes32(s.ack) + b[12..];
    assert b == a16 + Bytes32(s.tsval) + b[20..];
    assert b == a20 + Bytes32(s.tsecr) + b[24..];
    Read32Back(s.conv, [], b[4..]);
    Read32Back(s.sn, Bytes32(s.conv), b[8..]);
    Read32Back(s.ack, a8, b[12..]);
    Read32Back(s.tsval, a16, b[20..]);
    Read32Back(s.tsecr, a20, b[24..]);
    assert b[12..16] == mid;
    assert b[13] == mid[1] && b[14] == mid[2] && b[15] == mid[3];
    FlagsBack(s.flags);
    assert b[24..] == s.data;
  }
}
