// The IPv4/TCP header fields that the virtual redirect reads and overwrites
// (section 3.1 of RFC 791 and section 3.1 of RFC 9293).
module Packet {
  type byte = x: int | 0 <= x < 0x100
  type uint16 = x: int | 0 <= x < 0x1_0000
  type uint32 = x: int | 0 <= x < 0x1_0000_0000

  const LOOPBACK_IPV4: uint32 := 0x7f00_0001
  const FIN: byte := 0x01
  const SYN: byte := 0x02
  const RST: byte := 0x04

  /** The two endpoints of a TCP segment. */
  datatype Addressing = Addressing(srcIP: uint32, srcPort: uint16, dstIP: uint32, dstPort: uint16) {
    function Swapped(): Addressing {
      Addressing(dstIP, dstPort, srcIP, srcPort)
    }
  }

  datatype Parsed = NotTCP | TCP(ihl: nat, addressing: Addressing)

  /** Whether a one-bit mask is set in a byte. */
  predicate HasFlag(flags: byte, mask: byte)
    requires mask > 0
  {
    (flags / mask) % 2 == 1
  }

  function Bit(b: bool): nat {
    if b then 1 else 0
  }

  /** The flags are the lowest control bits of the byte that holds them (section 3.1 of RFC 9293), whatever the
      other bits are: a reset is one also with ACK set. */
  lemma FlagsAreBits(fin: bool, syn: bool, rst: bool, rest: nat)
    requires rest < 0x20
    ensures var flags: byte := Bit(fin) + 2 * Bit(syn) + 4 * Bit(rst) + 8 * rest;
            && (HasFlag(flags, FIN) <==> fin) && (HasFlag(flags, SYN) <==> syn) && (HasFlag(flags, RST) <==> rst)
  {
  }

  /** Every byte has such bits. */
  lemma BitsOfByte(flags: byte) returns (fin: bool, syn: bool, rst: bool, rest: nat)
    ensures rest < 0x20 && flags == Bit(fin) + 2 * Bit(syn) + 4 * Bit(rst) + 8 * rest
  {
    fin, syn, rst, rest := flags % 2 == 1, flags / 2 % 2 == 1, flags / 4 % 2 == 1, flags / 8;
  }

  function ReadUint16(p: seq<byte>, at: nat): uint16
    requires at + 2 <= |p|
  {
    p[at] as int * 0x100 + p[at + 1]
  }

  function ReadUint32(p: seq<byte>, at: nat): uint32
    requires at + 4 <= |p|
  {
    p[at] as int * 0x100_0000 + p[at + 1] as int * 0x1_0000 + p[at + 2] as int * 0x100 + p[at + 3]
  }

  /** The i-th of the big-endian bytes of v. */
  function ByteOf16(v: uint16, i: nat): byte
    requires i < 2
  {
    if i == 0 then v / 0x100 else v % 0x100
  }

  function ByteOf32(v: uint32, i: nat): byte
    requires i < 4
  {
    if i == 0 then v / 0x100_0000
    else if i == 1 then v / 0x1_0000 % 0x100
    else if i == 2 then v / 0x100 % 0x100
    else v % 0x100
  }

  function HeaderLength(p: seq<byte>): nat
    requires |p| > 0
  {
    p[0] % 0x10 * 4
  }

  predicate IsIPv4TCP(p: seq<byte>) {
    && |p| >= 40 && p[0] / 0x10 == 4 && p[9] == 6
    && HeaderLength(p) >= 20 && |p| >= HeaderLength(p) + 20
  }

  function Parse(p: seq<byte>): Parsed {
    if !IsIPv4TCP(p) then NotTCP
    else
      var ihl := HeaderLength(p);
      TCP(ihl, Addressing(ReadUint32(p, 12), ReadUint16(p, ihl), ReadUint32(p, 16), ReadUint16(p, ihl + 2)))
  }

  /** An IPv4 address from its four parts. */
  function Dotted(a: byte, b: byte, c: byte, d: byte): uint32 {
    a as int * 0x100_0000 + b as int * 0x1_0000 + c as int * 0x100 + d
  }

  function Pair(high: byte, low: byte): uint16 {
    high as int * 0x100 + low
  }

  /** What is read where: version 4 and protocol 6, the header length in words, the addresses at bytes 12 and 16, and
      the ports first in the segment, all with the most significant byte first. */
  lemma ParseMeans(p: seq<byte>)
    ensures Parse(p).TCP? <==> |p| >= 40 && 0x45 <= p[0] < 0x50 && p[9] == 6 && |p| >= 4 * (p[0] - 0x40) + 20
    ensures Parse(p).TCP? ==>
              var ihl := 4 * (p[0] - 0x40);
              Parse(p) == TCP(ihl, Addressing(Dotted(p[12], p[13], p[14], p[15]), Pair(p[ihl], p[ihl + 1]),
                                              Dotted(p[16], p[17], p[18], p[19]), Pair(p[ihl + 2], p[ihl + 3])))
    ensures LOOPBACK_IPV4 == Dotted(127, 0, 0, 1)
  {
  }

  /** Whether byte i holds part of an address or of a port. */
  predicate InAddressing(ihl: nat, i: int) {
    12 <= i < 20 || ihl <= i < ihl + 4
  }

  /** The packet p with its addresses and ports replaced, every other byte kept. */
  function WithAddressing(p: seq<byte>, ihl: nat, a: Addressing): (r: seq<byte>)
    requires 20 <= ihl
    ensures |r| == |p|
  {
    seq(|p|, i requires 0 <= i < |p| =>
      if 12 <= i < 16 then ByteOf32(a.srcIP, i - 12)
      else if 16 <= i < 20 then ByteOf32(a.dstIP, i - 16)
      else if ihl <= i < ihl + 2 then ByteOf16(a.srcPort, i - ihl)
      else if ihl + 2 <= i < ihl + 4 then ByteOf16(a.dstPort, i - ihl - 2)
      else p[i])
  }

  lemma Uint32RoundTrip(v: uint32)
    ensures v == ByteOf32(v, 0) as int * 0x100_0000 + ByteOf32(v, 1) as int * 0x1_0000
                 + ByteOf32(v, 2) as int * 0x100 + ByteOf32(v, 3)
  {
    var high, low := v / 0x1_0000, v % 0x1_0000;
    assert v / 0x100_0000 == high / 0x100;
    assert v / 0x100 % 0x100 == low / 0x100;
    assert v % 0x100 == low % 0x100;
  }

  lemma ReadsBack(p: seq<byte>, ihl: nat, a: Addressing)
    requires 20 <= ihl && ihl + 4 <= |p|
    ensures ReadUint32(WithAddressing(p, ihl, a), 12) == a.srcIP
    ensures ReadUint32(WithAddressing(p, ihl, a), 16) == a.dstIP
    ensures ReadUint16(WithAddressing(p, ihl, a), ihl) == a.srcPort
    ensures ReadUint16(WithAddressing(p, ihl, a), ihl + 2) == a.dstPort
  {
    Uint32RoundTrip(a.srcIP);
    Uint32RoundTrip(a.dstIP);
    var r := WithAddressing(p, ihl, a);
    assert r[ihl] == ByteOf16(a.srcPort, 0) && r[ihl + 1] == ByteOf16(a.srcPort, 1);
    assert r[ihl + 2] == ByteOf16(a.dstPort, 0) && r[ihl + 3] == ByteOf16(a.dstPort, 1);
  }

  /** What was written is what a later parse reads back, and nothing else moved. */
  lemma ParseWithAddressing(p: seq<byte>, a: Addressing)
    requires Parse(p).TCP?
    ensures Parse(WithAddressing(p, Parse(p).ihl, a)) == TCP(Parse(p).ihl, a)
    ensures forall i | 0 <= i < |p| && !InAddressing(Parse(p).ihl, i) ::
              WithAddressing(p, Parse(p).ihl, a)[i] == p[i]
  {
    var ihl := Parse(p).ihl;
    var r := WithAddressing(p, ihl, a);
    assert r[0] == p[0] && r[9] == p[9];
    ReadsBack(p, ihl, a);
  }

  lemma Uint32Bytes(v: uint32, b0: byte, b1: byte, b2: byte, b3: byte)
    requires v == b0 as int * 0x100_0000 + b1 as int * 0x1_0000 + b2 as int * 0x100 + b3
    ensures ByteOf32(v, 0) == b0 && ByteOf32(v, 1) == b1 && ByteOf32(v, 2) == b2 && ByteOf32(v, 3) == b3
  {
    assert v == b0 as int * 0x100_0000 + (b1 as int * 0x1_0000 + b2 as int * 0x100 + b3);
    assert v / 0x1_0000 == b0 as int * 0x100 + b1;
    assert v / 0x100 == (b0 as int * 0x100 + b1) * 0x100 + b2;
  }

  /** The bytes outside the addressing together with the addressing determine the packet. */
  lemma AddressingDeterminesPacket(p: seq<byte>, q: seq<byte>)
    requires Parse(p).TCP? && Parse(p) == Parse(q) && |p| == |q|
    requires forall i | 0 <= i < |p| && !InAddressing(Parse(p).ihl, i) :: p[i] == q[i]
    ensures p == q
  {
    var TCP(ihl, a) := Parse(p);
    Uint32Bytes(a.srcIP, p[12], p[13], p[14], p[15]);
    Uint32Bytes(a.srcIP, q[12], q[13], q[14], q[15]);
    Uint32Bytes(a.dstIP, p[16], p[17], p[18], p[19]);
    Uint32Bytes(a.dstIP, q[16], q[17], q[18], q[19]);
    assert forall i | 0 <= i < |p| :: p[i] == q[i];
  }

  /** Overwrites the addresses and ports in place, field by field. */
  method PutAddressing(packet: array<byte>, ihl: nat, a: Addressing)
    requires 20 <= ihl && ihl + 4 <= packet.Length
    modifies packet
    ensures packet[..] == WithAddressing(old(packet[..]), ihl, a)
  {
    PutUint32(packet, 12, a.srcIP);
    PutUint16(packet, ihl, a.srcPort);
    PutUint32(packet, 16, a.dstIP);
    PutUint16(packet, ihl + 2, a.dstPort);
  }

  method PutUint16(packet: array<byte>, at: nat, v: uint16)
    requires at + 2 <= packet.Length
    modifies packet
    ensures forall i | 0 <= i < packet.Length ::
              packet[i] == if at <= i < at + 2 then ByteOf16(v, i - at) else old(packet[i])
  {
    packet[at] := v / 0x100;
    packet[at + 1] := v % 0x100;
  }

  method PutUint32(packet: array<byte>, at: nat, v: uint32)
    requires at + 4 <= packet.Length
    modifies packet
    ensures forall i | 0 <= i < packet.Length ::
              packet[i] == if at <= i < at + 4 then ByteOf32(v, i - at) else old(packet[i])
  {
    packet[at] := v / 0x100_0000;
    packet[at + 1] := v / 0x1_0000 % 0x100;
    packet[at + 2] := v / 0x100 % 0x100;
    packet[at + 3] := v % 0x100;
  }
}
