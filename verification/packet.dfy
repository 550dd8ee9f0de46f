/** The packet parser: framing, IPv4, the IPv6 extension-header chain, and layer 4. */
module Packet {
  import opened Common

  const ETH_LEN: nat := 14
  const ETH_P_IP: bv16 := 0x0800
  const ETH_P_IPV6: bv16 := 0x86dd
  const ETH_P_8021Q: bv16 := 0x8100
  const ETH_P_8021AD: bv16 := 0x88a8

  const IPV4_LEN: nat := 20
  const IPV6_LEN: nat := 40

  const NH_HOPOPT: bv8 := 0
  const NH_ROUTING: bv8 := 43
  const NH_FRAGMENT: bv8 := 44
  const NH_DSTOPTS: bv8 := 60
  const NH_MOBILITY: bv8 := 135

  const MAX_V6_EXT_HDRS: nat := 4
  const MAX_V6_EXT_BYTES: nat := 64

  type Bytes = seq<bv8>

  /** Malformed packets are dropped, non-IP frames pass, the rest is matched. */
  datatype ParseResult = Malformed | NotIp | Datagram(parsed: Parsed)

  datatype L4 = L4(srcPort: u16, dstPort: u16, protoByte: bv8, icmpType: bv8)

  /** Where the extension-header walk stopped. */
  datatype Upper = Upper(proto: bv8, off: nat, fragment: bool)

  function Be16(hi: bv8, lo: bv8): bv16 {
    (hi as bv16 << 8) | lo as bv16
  }

  // ---------------------------------------------------------------------
  // Layer 4
  // ---------------------------------------------------------------------

  function NormalizeProto(proto: bv8, isV6: bool): bv8 {
    if proto == PROTO_TCP then PROTO_TCP
    else if proto == PROTO_UDP then PROTO_UDP
    else if proto == PROTO_ICMP && !isV6 then PROTO_ICMP
    else if proto == PROTO_ICMPV6 && isV6 then PROTO_ICMPV6
    else PROTO_ANY
  }

  function ReadPorts(data: Bytes, off: nat): Result<(u16, u16)> {
    if off + 4 > |data| then Err
    else Ok((Be16(data[off], data[off + 1]) as u16, Be16(data[off + 2], data[off + 3]) as u16))
  }

  function ParseIcmp(data: Bytes, off: nat, proto: bv8): Result<L4> {
    if off + 8 > |data| then Err
    else
      var id := Be16(data[off + 4], data[off + 5]) as u16;
      Ok(L4(id, id, proto, data[off]))
  }

  function ParsePorts(data: Bytes, off: nat, proto: bv8): Result<L4> {
    match ReadPorts(data, off)
    case Err => Err
    case Ok(ports) => Ok(L4(ports.0, ports.1, proto, 0))
  }

  function ParseL4(data: Bytes, off: nat, proto: bv8, isV6: bool): Result<L4> {
    if proto == PROTO_TCP then ParsePorts(data, off, PROTO_TCP)
    else if proto == PROTO_UDP then ParsePorts(data, off, PROTO_UDP)
    else if proto == PROTO_ICMP && !isV6 then ParseIcmp(data, off, PROTO_ICMP)
    else if proto == PROTO_ICMPV6 && isV6 then ParseIcmp(data, off, PROTO_ICMPV6)
    else Ok(L4(0, 0, PROTO_ANY, 0))
  }

  /** A non-initial fragment carries no layer-4 header, so only its protocol is kept. */
  function L4Of(data: Bytes, upper: Upper, isV6: bool): Result<L4> {
    if upper.fragment then Ok(L4(0, 0, NormalizeProto(upper.proto, isV6), 0))
    else ParseL4(data, upper.off, upper.proto, isV6)
  }

  function Assemble(family: bv8, src: Addr, dst: Addr, l4: Result<L4>): ParseResult {
    match l4
    case Err => Malformed
    case Ok(l) => Datagram(Parsed(family, l.protoByte, l.icmpType, src, dst, l.srcPort, l.dstPort))
  }

  // ---------------------------------------------------------------------
  // IPv4
  // ---------------------------------------------------------------------

  function V4Addr(data: Bytes, off: nat): Addr
    requires off + 4 <= |data|
  {
    V4Slot(data[off..off + 4])
  }

  predicate V4Fragment(data: Bytes, ipOff: nat)
    requires ipOff + IPV4_LEN <= |data|
  {
    Be16(data[ipOff + 6], data[ipOff + 7]) & 0x1fff != 0
  }

  function ParseV4(data: Bytes, ipOff: nat): ParseResult {
    if ipOff + IPV4_LEN > |data| then Malformed
    else
      var ihl := (data[ipOff] & 0x0F) as int;
      if !(5 <= ihl <= 15) then Malformed
      else
        var upper := Upper(data[ipOff + 9], ipOff + ihl * 4, V4Fragment(data, ipOff));
        Assemble(FAMILY_V4, V4Addr(data, ipOff + 12), V4Addr(data, ipOff + 16), L4Of(data, upper, false))
  }

  // ---------------------------------------------------------------------
  // IPv6
  // ---------------------------------------------------------------------

  predicate IsTlv(nextHdr: bv8) {
    nextHdr == NH_HOPOPT || nextHdr == NH_ROUTING || nextHdr == NH_DSTOPTS || nextHdr == NH_MOBILITY
  }

  function TlvLen(extLen: bv8): nat {
    (extLen as int + 1) * 8
  }

  predicate V6Fragment(data: Bytes, off: nat)
    requires off + 8 <= |data|
  {
    Be16(data[off + 2], data[off + 3]) & 0xfff8 != 0
  }

  /** One header of the chain: out of bytes, the end of the walk, or on to the next header. */
  datatype Hop = Stuck | Arrived(upper: Upper) | Onward(nextHdr: bv8, off: nat)

  function HopFrom(data: Bytes, nextHdr: bv8, off: nat): (h: Hop)
    ensures h.Onward? ==> off < |data| && off + 8 <= h.off
  {
    if IsTlv(nextHdr) then
      if off + 2 > |data| then Stuck else Onward(data[off], off + TlvLen(data[off + 1]))
    else if nextHdr == NH_FRAGMENT then
      if off + 8 > |data| then Stuck
      else if V6Fragment(data, off) then Arrived(Upper(data[off], off + 8, true))
      else Onward(data[off], off + 8)
    else Arrived(Upper(nextHdr, off, false))
  }

  /** The walk with n iterations of its loop left. */
  function Walk(data: Bytes, nextHdr: bv8, off: nat, start: nat, n: nat): Result<Upper>
    decreases n
  {
    if n == 0 || off > start + MAX_V6_EXT_BYTES then Err
    else
      match HopFrom(data, nextHdr, off)
      case Stuck => Err
      case Arrived(u) => Ok(u)
      case Onward(nh, o) => Walk(data, nh, o, start, n - 1)
  }

  method WalkV6Ext(data: Bytes, first: bv8, start: nat) returns (r: Result<Upper>)
    ensures r == Walk(data, first, start, start, MAX_V6_EXT_HDRS)
    ensures r == Bounded(Chain(data, first, start), start, MAX_V6_EXT_HDRS)
  {
    hide Be16, TlvLen, V6Fragment, Chain, Bounded;
    WalkIsBoundedChain(data, first, start, start, MAX_V6_EXT_HDRS);
    var nextHdr, off: nat := first, start;
    for i := 0 to MAX_V6_EXT_HDRS
      invariant Walk(data, nextHdr, off, start, MAX_V6_EXT_HDRS - i) == Walk(data, first, start, start, MAX_V6_EXT_HDRS)
    {
      if off > start + MAX_V6_EXT_BYTES {
        return Err;
      }
      if IsTlv(nextHdr) {
        if off + 2 > |data| {
          return Err;
        }
        nextHdr, off := data[off], off + TlvLen(data[off + 1]);
      } else if nextHdr == NH_FRAGMENT {
        if off + 8 > |data| {
          return Err;
        }
        var fragment := V6Fragment(data, off);
        nextHdr, off := data[off], off + 8;
        if fragment {
          return Ok(Upper(nextHdr, off, true));
        }
      } else {
        return Ok(Upper(nextHdr, off, false));
      }
    }
    return Err;
  }

  function ParseV6(data: Bytes, ipOff: nat): ParseResult {
    if ipOff + IPV6_LEN > |data| then Malformed
    else
      var start := ipOff + IPV6_LEN;
      match Walk(data, data[ipOff + 6], start, start, MAX_V6_EXT_HDRS)
      case Err => Malformed
      case Ok(upper) =>
        Assemble(FAMILY_V6, data[ipOff + 8..ipOff + 24], data[ipOff + 24..ipOff + 40], L4Of(data, upper, true))
  }

  // ---------------------------------------------------------------------
  // Framing
  // ---------------------------------------------------------------------

  predicate IsVlan(ethertype: bv16) {
    ethertype == ETH_P_8021Q || ethertype == ETH_P_8021AD
  }

  function EthertypeAt(data: Bytes, off: nat): Result<bv16> {
    if off + 2 > |data| then Err else Ok(Be16(data[off], data[off + 1]))
  }

  /** Ethernet with `tags` VLAN tags already skipped; two is the deepest the parser looks. */
  function ParseEthernet(data: Bytes, tags: nat): ParseResult
    requires tags <= 2
    decreases 2 - tags
  {
    match EthertypeAt(data, 12 + 4 * tags)
    case Err => Malformed
    case Ok(et) =>
      if et == ETH_P_IP then ParseV4(data, ETH_LEN + 4 * tags)
      else if et == ETH_P_IPV6 then ParseV6(data, ETH_LEN + 4 * tags)
      else if IsVlan(et) && tags < 2 then ParseEthernet(data, tags + 1)
      else NotIp
  }

  function ParseRaw(data: Bytes): ParseResult {
    if 2 > |data| then Malformed
    else if data[0] >> 4 == 4 then ParseV4(data, 0)
    else if data[0] >> 4 == 6 then ParseV6(data, 0)
    else NotIp
  }

  function ParsePacket(data: Bytes, l2Off: nat): ParseResult {
    if l2Off == 0 then ParseRaw(data) else ParseEthernet(data, 0)
  }

  // ---------------------------------------------------------------------
  // The unbounded chain of section 4 of RFC 8200
  // ---------------------------------------------------------------------

  datatype ChainEnd = Truncated | Reached(upper: Upper, headers: nat)

  function OneMore(c: ChainEnd): ChainEnd {
    match c
    case Truncated => Truncated
    case Reached(u, h) => Reached(u, h + 1)
  }

  /**
   * One header by its assigned protocol number: hop-by-hop options (0), routing (43), destination options (60)
   * and, by section 6.1 of RFC 6275, mobility (135) give their length in 8-octet units beyond the first; a
   * fragment header (44) has eight octets and a 13-bit offset in the high bits of its second word.
   */
  function Follow(data: Bytes, nextHdr: bv8, off: nat): (h: Hop)
    ensures h.Onward? ==> off < |data| && off + 8 <= h.off
  {
    if nextHdr in {0, 43, 60, 135} then
      if |data| < off + 2 then Stuck else Onward(data[off], off + 8 + 8 * (data[off + 1] as int))
    else if nextHdr == 44 then
      if |data| < off + 8 then Stuck
      else if data[off + 2] != 0 || data[off + 3] >> 3 != 0 then Arrived(Upper(data[off], off + 8, true))
      else Onward(data[off], off + 8)
    else Arrived(Upper(nextHdr, off, false))
  }

  lemma OffsetBits(hi: bv8, lo: bv8)
    ensures Be16(hi, lo) & 0xfff8 != 0 <==> hi != 0 || lo >> 3 != 0
  {}

  /** An iteration of the loop does what the RFCs say of that header. */
  lemma HopIsFollow(data: Bytes, nextHdr: bv8, off: nat)
    ensures HopFrom(data, nextHdr, off) == Follow(data, nextHdr, off)
  {
    hide Be16;
    if off + 8 <= |data| {
      OffsetBits(data[off + 2], data[off + 3]);
    }
  }

  /** Follow the chain for as long as bytes remain, counting the headers consumed. */
  function Chain(data: Bytes, nextHdr: bv8, off: nat): ChainEnd
    decreases if off <= |data| then |data| - off else 0
  {
    match Follow(data, nextHdr, off)
    case Stuck => Truncated
    case Arrived(u) => Reached(u, if u.fragment then 1 else 0)
    case Onward(nh, o) => OneMore(Chain(data, nh, o))
  }

  /**
   * What the bounds allow. Reaching an upper-layer header takes one loop iteration more than the headers
   * consumed; a non-initial fragment ends the walk in the iteration that consumes its header.
   */
  predicate WithinBounds(u: Upper, headers: nat, start: nat, n: nat) {
    if u.fragment then headers <= n && u.off <= start + MAX_V6_EXT_BYTES + 8
    else headers < n && u.off <= start + MAX_V6_EXT_BYTES
  }

  function Bounded(c: ChainEnd, start: nat, n: nat): Result<Upper> {
    match c
    case Truncated => Err
    case Reached(u, h) => if WithinBounds(u, h, start, n) then Ok(u) else Err
  }

  lemma {:induction false} ChainAdvances(data: Bytes, nextHdr: bv8, off: nat)
    ensures var c := Chain(data, nextHdr, off);
      c.Reached? ==> c.upper.off >= off + if c.upper.fragment then 8 else 0
    decreases if off <= |data| then |data| - off else 0
  {
    var h := Follow(data, nextHdr, off);
    if h.Onward? {
      ChainAdvances(data, h.nextHdr, h.off);
    }
  }

  /**
   * The bounded loop is the unbounded chain cut off by its bounds: it succeeds exactly when the chain does
   * not run out of bytes, no header starts beyond start + 64, and n iterations suffice.
   */
  lemma {:induction false} WalkIsBoundedChain(data: Bytes, nextHdr: bv8, off: nat, start: nat, n: nat)
    ensures Walk(data, nextHdr, off, start, n) == Bounded(Chain(data, nextHdr, off), start, n)
    decreases n
  {
    hide HopFrom;
    ChainAdvances(data, nextHdr, off);
    HopIsFollow(data, nextHdr, off);
    var h := Follow(data, nextHdr, off);
    if n != 0 && off <= start + MAX_V6_EXT_BYTES && h.Onward? {
      WalkIsBoundedChain(data, h.nextHdr, h.off, start, n - 1);
    }
  }
}
