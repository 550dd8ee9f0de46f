/** Reference encoders for the packets the parser reads, and their round trips. */
module Frames {
  import opened Common
  import opened Packet
  import opened PacketLaws

  // ---------------------------------------------------------------------
  // Encoders: RFC 768, 792, 793, 791, 4443 and 8200
  // ---------------------------------------------------------------------

  /** Network byte order. */
  function Word16(w: bv16): (b: Bytes)
    ensures |b| == 2 && Be16(b[0], b[1]) == w
  {
    [(w >> 8) as bv8, (w & 0xff) as bv8]
  }

  /** An upper-layer message: TCP or UDP from its ports on, ICMP, or a protocol the parser does not know. */
  datatype Segment =
    | Ports(proto: bv8, src: bv16, dst: bv16, rest: Bytes)
    | Icmp(ty: bv8, code: bv8, checksum: bv16, id: bv16, sequence: bv16, rest: Bytes)
    | Other(proto: bv8, body: Bytes)

  predicate ValidSegment(s: Segment, isV6: bool) {
    match s
    case Ports(p, _, _, _) => p == 6 || p == 17
    case Icmp(_, _, _, _, _, _) => true
    case Other(p, _) => ProtoSlot(p, isV6) == 0 && (isV6 ==> p !in {0, 43, 44, 60, 135})
  }

  function SegmentProto(s: Segment, isV6: bool): bv8 {
    match s
    case Ports(p, _, _, _) => p
    case Icmp(_, _, _, _, _, _) => if isV6 then 58 else 1
    case Other(p, _) => p
  }

  function SegmentBytes(s: Segment): Bytes {
    match s
    case Ports(_, src, dst, rest) => Word16(src) + Word16(dst) + rest
    case Icmp(ty, code, checksum, id, sequence, rest) => [ty, code] + Word16(checksum) + Word16(id) + Word16(sequence) + rest
    case Other(_, body) => body
  }

  datatype V4Header = V4Header(
    ihl: bv8, tos: bv8, length: bv16, ident: bv16, fragment: bv16, ttl: bv8, checksum: bv16,
    src: Octets4, dst: Octets4, options: Bytes)

  predicate ValidV4(h: V4Header) {
    5 <= h.ihl <= 15 && |h.options| == 4 * (h.ihl as int - 5)
  }

  function V4Bytes(h: V4Header, proto: bv8, body: Bytes): Bytes {
    [0x40 | h.ihl, h.tos] + Word16(h.length) + Word16(h.ident) + Word16(h.fragment) + [h.ttl, proto] +
    Word16(h.checksum) + h.src + h.dst + h.options + body
  }

  datatype V6Header = V6Header(flow: Octets4, length: bv16, hopLimit: bv8, src: Addr, dst: Addr)

  function V6Bytes(h: V6Header, nextHdr: bv8, body: Bytes): (d: Bytes)
    ensures |d| == IPV6_LEN + |body|
  {
    h.flow + Word16(h.length) + [nextHdr, h.hopLimit] + h.src + h.dst + body
  }

  /** An Ethernet frame without tags. */
  function EthernetBytes(macs: Bytes, ethertype: bv16, datagram: Bytes): Bytes {
    macs + Word16(ethertype) + datagram
  }

  // ---------------------------------------------------------------------
  // What the parser must recover
  // ---------------------------------------------------------------------

  function ExpectedL4(s: Segment, isV6: bool): L4 {
    match s
    case Ports(p, sp, dp, _) => L4(sp as u16, dp as u16, p, 0)
    case Icmp(ty, _, _, id, _, _) => L4(id as u16, id as u16, SegmentProto(s, isV6), ty)
    case Other(_, _) => L4(0, 0, PROTO_ANY, 0)
  }

  function Expected(s: Segment, isV6: bool, src: Addr, dst: Addr): Parsed {
    var l := ExpectedL4(s, isV6);
    Parsed(if isV6 then FAMILY_V6 else FAMILY_V4, l.protoByte, l.icmpType, src, dst, l.srcPort, l.dstPort)
  }

  lemma PortsAt(d: Bytes, off: nat, src: bv16, dst: bv16, rest: Bytes)
    requires off <= |d| && d[off..] == Word16(src) + Word16(dst) + rest
    ensures ReadPorts(d, off) == Ok((src as u16, dst as u16))
  {
    hide Be16, Word16;
    var b := d[off..];
    assert b[0] == Word16(src)[0] && b[1] == Word16(src)[1] && b[2] == Word16(dst)[0] && b[3] == Word16(dst)[1];
    assert d[off] == b[0] && d[off + 1] == b[1] && d[off + 2] == b[2] && d[off + 3] == b[3];
  }

  lemma IcmpAt(d: Bytes, off: nat, s: Segment, proto: bv8)
    requires s.Icmp? && off <= |d| && d[off..] == SegmentBytes(s)
    ensures ParseIcmp(d, off, proto) == Ok(L4(s.id as u16, s.id as u16, proto, s.ty))
  {
    hide Be16, Word16;
    var b := d[off..];
    assert b[0] == s.ty && b[4..6] == Word16(s.id);
    assert d[off] == b[0] && d[off + 4] == b[4..6][0] && d[off + 5] == b[4..6][1];
  }

  lemma SegmentL4(d: Bytes, off: nat, s: Segment, isV6: bool)
    requires ValidSegment(s, isV6) && off <= |d| && d[off..] == SegmentBytes(s)
    ensures ParseL4(d, off, SegmentProto(s, isV6), isV6) == Ok(ExpectedL4(s, isV6))
  {
    hide Be16, Word16, ReadPorts, ParseIcmp;
    if s.Ports? {
      PortsAt(d, off, s.src, s.dst, s.rest);
    } else if s.Icmp? {
      IcmpAt(d, off, s, SegmentProto(s, isV6));
    }
  }

  /** Layer 4, wherever its bytes stand. */
  lemma SegmentRoundTrip(d: Bytes, off: nat, s: Segment, isV6: bool, src: Addr, dst: Addr)
    requires ValidSegment(s, isV6) && off <= |d| && d[off..] == SegmentBytes(s)
    ensures Assemble(if isV6 then FAMILY_V6 else FAMILY_V4, src, dst,
                     L4Of(d, Upper(SegmentProto(s, isV6), off, false), isV6)) == Datagram(Expected(s, isV6, src, dst))
  {
    hide ParseL4, ExpectedL4, SegmentBytes, SegmentProto, ValidSegment;
    SegmentL4(d, off, s, isV6);
  }

  // ---------------------------------------------------------------------
  // IPv4
  // ---------------------------------------------------------------------

  lemma V4Layout(h: V4Header, proto: bv8, body: Bytes)
    ensures var d := V4Bytes(h, proto, body);
      && |d| == IPV4_LEN + |h.options| + |body|
      && d[0] == 0x40 | h.ihl && d[6] == Word16(h.fragment)[0] && d[7] == Word16(h.fragment)[1] && d[9] == proto
      && d[12..16] == h.src && d[16..20] == h.dst
      && d[IPV4_LEN + |h.options|..] == body
  {
    hide Be16, Word16;
  }

  lemma IhlRoundTrip(ihl: bv8)
    requires 5 <= ihl <= 15
    ensures (0x40 | ihl) & 0x0F == ihl && (0x40 | ihl) >> 4 == 4 && 5 <= ihl as int <= 15
  {}

  /** A whole or first IPv4 datagram is read back as it was written, options and all. */
  lemma V4RoundTrip(h: V4Header, s: Segment)
    requires ValidV4(h) && ValidSegment(s, false) && h.fragment & 0x1fff == 0
    ensures ParseV4(V4Bytes(h, SegmentProto(s, false), SegmentBytes(s)), 0) ==
            Datagram(Expected(s, false, V4Slot(h.src), V4Slot(h.dst)))
  {
    hide Be16, Word16, V4Bytes, L4Of, Assemble, SegmentBytes, SegmentProto, Expected;
    var proto := SegmentProto(s, false);
    var d, off := V4Bytes(h, proto, SegmentBytes(s)), IPV4_LEN + |h.options|;
    V4Layout(h, proto, SegmentBytes(s));
    IhlRoundTrip(h.ihl);
    SegmentRoundTrip(d, off, s, false, V4Slot(h.src), V4Slot(h.dst));
  }

  /** A later IPv4 fragment keeps its addresses and protocol and has no ports. */
  lemma V4FragmentRoundTrip(h: V4Header, proto: bv8, body: Bytes)
    requires ValidV4(h) && h.fragment & 0x1fff != 0
    ensures ParseV4(V4Bytes(h, proto, body), 0) ==
            Datagram(Parsed(FAMILY_V4, ProtoSlot(proto, false), 0, V4Slot(h.src), V4Slot(h.dst), 0, 0))
  {
    hide Be16, Word16, V4Bytes, L4Of, Assemble, ProtoSlot;
    var d := V4Bytes(h, proto, body);
    V4Layout(h, proto, body);
    IhlRoundTrip(h.ihl);
    FragmentL4(d, Upper(proto, IPV4_LEN + |h.options|, true), false, V4Slot(h.src), V4Slot(h.dst));
  }

  lemma FragmentL4(d: Bytes, u: Upper, isV6: bool, src: Addr, dst: Addr)
    requires u.fragment
    ensures var family := if isV6 then FAMILY_V6 else FAMILY_V4;
      Assemble(family, src, dst, L4Of(d, u, isV6)) == Datagram(Parsed(family, ProtoSlot(u.proto, isV6), 0, src, dst, 0, 0))
  {}

  // ---------------------------------------------------------------------
  // IPv6 with its extension headers
  // ---------------------------------------------------------------------

  lemma V6Layout(h: V6Header, nextHdr: bv8, body: Bytes)
    ensures var d := V6Bytes(h, nextHdr, body);
      && |d| == IPV6_LEN + |body|
      && d[6] == nextHdr && d[8..24] == h.src && d[24..40] == h.dst && d[IPV6_LEN..] == body
  {
    hide Be16, Word16;
  }

  lemma SegmentProtoEndsChain(s: Segment)
    requires ValidSegment(s, true)
    ensures SegmentProto(s, true) !in {0, 43, 44, 60, 135}
  {}

  /** A datagram without extension headers. */
  lemma V6RoundTrip(h: V6Header, s: Segment)
    requires ValidSegment(s, true)
    ensures var d := V6Bytes(h, SegmentProto(s, true), SegmentBytes(s));
      && ParseV6(d, 0) == Datagram(Expected(s, true, h.src, h.dst))
      && Chain(d, d[6], IPV6_LEN) == Reached(Upper(SegmentProto(s, true), IPV6_LEN, false), 0)
  {
    hide Be16, Word16, V6Bytes, L4Of, Assemble, SegmentBytes, SegmentProto, Expected, ValidSegment;
    var d := V6Bytes(h, SegmentProto(s, true), SegmentBytes(s));
    V6Layout(h, SegmentProto(s, true), SegmentBytes(s));
    SegmentProtoEndsChain(s);
    SegmentRoundTrip(d, IPV6_LEN, s, true, h.src, h.dst);
    WalkIsBoundedChain(d, d[6], IPV6_LEN, IPV6_LEN, MAX_V6_EXT_HDRS);
  }

  /** An extension header and its type; `bytes[0]` announces the header after it. */
  datatype Ext = Ext(kind: bv8, bytes: Bytes)

  /** The extension headers, outermost first, each announced by the header before it. */
  ghost predicate Linked(d: Bytes, exts: seq<Ext>)
    requires IPV6_LEN <= |d|
  {
    exts == [] ||
    (Linked(d, exts[1..]) && IsExtHeader(exts[0].kind, exts[0].bytes, WithExts(d, exts[1..])[6]))
  }

  function WithExts(d: Bytes, exts: seq<Ext>): (e: Bytes)
    requires IPV6_LEN <= |d|
    ensures IPV6_LEN <= |e|
  {
    if exts == [] then d else InsertHeader(WithExts(d, exts[1..]), 0, exts[0].kind, exts[0].bytes)
  }

  function TotalLen(exts: seq<Ext>): nat {
    if exts == [] then 0 else |exts[0].bytes| + TotalLen(exts[1..])
  }

  lemma {:induction false} ExtsChain(d: Bytes, exts: seq<Ext>, u: Upper, n: nat)
    requires IPV6_LEN <= |d| && Linked(d, exts) && Chain(d, d[6], IPV6_LEN) == Reached(u, n)
    ensures var e := WithExts(d, exts);
      Chain(e, e[6], IPV6_LEN) == Reached(u.(off := u.off + TotalLen(exts)), n + |exts|)
  {
    hide InsertHeader, IsExtHeader, Chain;
    if exts != [] {
      var inner, x := WithExts(d, exts[1..]), exts[0];
      ExtsChain(d, exts[1..], u, n);
      InsertedChain(inner, 0, x.kind, x.bytes);
      InsertedBytes(inner, 0, x.kind, x.bytes);
    }
  }

  /** At most three headers in at most 64 bytes. */
  predicate Parseable(exts: seq<Ext>) {
    |exts| <= 3 && TotalLen(exts) <= 64
  }

  /** The fixed header is followed at once by the upper layer, or by a later fragment's header. */
  ghost predicate EndsAtOnce(c: ChainEnd) {
    || (c.Reached? && !c.upper.fragment && c.upper.off == IPV6_LEN && c.headers == 0)
    || (c.Reached? && c.upper.fragment && c.upper.off == IPV6_LEN + 8 && c.headers == 1)
  }

  lemma {:induction false} ExtsParse(d: Bytes, exts: seq<Ext>)
    requires IPV6_LEN <= |d| && Linked(d, exts) && EndsAtOnce(Chain(d, d[6], IPV6_LEN))
    ensures ParseV6(WithExts(d, exts), 0) == if Parseable(exts) then ParseV6(d, 0) else Malformed
  {
    hide InsertHeader, IsExtHeader, Chain, ParseV6;
    if exts != [] {
      var inner, x, c := WithExts(d, exts[1..]), exts[0], Chain(d, d[6], IPV6_LEN);
      ExtsParse(d, exts[1..]);
      ExtsChain(d, exts[1..], c.upper, c.headers);
      InsertedHeader(inner, 0, x.kind, x.bytes);
    }
  }

  /**
   * A datagram with any chain of extension headers is read back exactly when there are at most three of them
   * in at most 64 bytes; otherwise it is dropped.
   */
  lemma V6ExtRoundTrip(h: V6Header, exts: seq<Ext>, s: Segment)
    requires ValidSegment(s, true)
    requires Linked(V6Bytes(h, SegmentProto(s, true), SegmentBytes(s)), exts)
    ensures ParseV6(WithExts(V6Bytes(h, SegmentProto(s, true), SegmentBytes(s)), exts), 0) ==
            if Parseable(exts) then Datagram(Expected(s, true, h.src, h.dst)) else Malformed
  {
    hide Linked, V6Bytes, WithExts, ParseV6, Expected, SegmentBytes, SegmentProto, ValidSegment, Chain;
    V6RoundTrip(h, s);
    ExtsParse(V6Bytes(h, SegmentProto(s, true), SegmentBytes(s)), exts);
  }

  /** The body of a later fragment: its header, with a non-zero offset, and some bytes. */
  ghost predicate IsLaterFragment(body: Bytes) {
    8 <= |body| && (body[2] != 0 || body[3] >> 3 != 0)
  }

  /** A later IPv6 fragment behind any such chain keeps its addresses and protocol and has no ports. */
  lemma V6FragmentRoundTrip(h: V6Header, exts: seq<Ext>, body: Bytes)
    requires IsLaterFragment(body) && Linked(V6Bytes(h, 44, body), exts)
    ensures ParseV6(WithExts(V6Bytes(h, 44, body), exts), 0) ==
            if Parseable(exts) then Datagram(Parsed(FAMILY_V6, ProtoSlot(body[0], true), 0, h.src, h.dst, 0, 0))
            else Malformed
  {
    hide Be16, Linked, V6Bytes, WithExts, L4Of, Assemble, ProtoSlot;
    var d := V6Bytes(h, 44, body);
    V6Layout(h, 44, body);
    assert d[40] == d[IPV6_LEN..][0] && d[42] == d[IPV6_LEN..][2] && d[43] == d[IPV6_LEN..][3];
    assert Follow(d, d[6], IPV6_LEN) == Arrived(Upper(body[0], IPV6_LEN + 8, true));
    WalkIsBoundedChain(d, d[6], IPV6_LEN, IPV6_LEN, MAX_V6_EXT_HDRS);
    FragmentL4(d, Upper(body[0], IPV6_LEN + 8, true), true, h.src, h.dst);
    ExtsParse(d, exts);
  }

  // ---------------------------------------------------------------------
  // Frames
  // ---------------------------------------------------------------------

  /** The frame parser hands the datagram to the parser its ethertype names. */
  lemma EthernetRoundTrip(macs: Bytes, datagram: Bytes)
    requires |macs| == 12
    ensures ParsePacket(EthernetBytes(macs, 0x0800, datagram), ETH_LEN) == ParseV4(datagram, 0)
    ensures ParsePacket(EthernetBytes(macs, 0x86dd, datagram), ETH_LEN) == ParseV6(datagram, 0)
  {
    hide Be16, Word16, ParseV4, ParseV6;
    var f4, f6 := EthernetBytes(macs, 0x0800, datagram), EthernetBytes(macs, 0x86dd, datagram);
    assert f4[12] == Word16(0x0800)[0] && f4[13] == Word16(0x0800)[1];
    assert f6[12] == Word16(0x86dd)[0] && f6[13] == Word16(0x86dd)[1];
    assert Moved(datagram, f4, 0, ETH_LEN) && Moved(datagram, f6, 0, ETH_LEN);
    V4Moves(datagram, f4, 0, ETH_LEN, 0);
    V6Moves(datagram, f6, 0, ETH_LEN, 0);
  }
}
