/** Laws of the packet parser that relate the parses of two different byte strings. */
module PacketLaws {
  import opened Common
  import opened Packet

  // ---------------------------------------------------------------------
  // Moving bytes without changing them
  // ---------------------------------------------------------------------

  /** From position `at` on, e is d moved `shift` bytes to the right. */
  ghost predicate Moved(d: Bytes, e: Bytes, at: nat, shift: nat) {
    && |e| == |d| + shift
    && forall i | at <= i < |d| :: e[i + shift] == d[i]
  }

  function Move(c: ChainEnd, shift: nat): ChainEnd {
    match c
    case Truncated => Truncated
    case Reached(u, h) => Reached(u.(off := u.off + shift), h)
  }

  function MoveHop(h: Hop, shift: nat): Hop {
    match h
    case Stuck => Stuck
    case Arrived(u) => Arrived(u.(off := u.off + shift))
    case Onward(nh, o) => Onward(nh, o + shift)
  }

  lemma HopMoves(d: Bytes, e: Bytes, at: nat, shift: nat, nextHdr: bv8, off: nat)
    requires Moved(d, e, at, shift) && at <= off
    ensures Follow(e, nextHdr, off + shift) == MoveHop(Follow(d, nextHdr, off), shift)
  {
    hide Be16, TlvLen;
    assert off + 2 <= |d| ==> e[off + shift] == d[off] && e[off + 1 + shift] == d[off + 1];
    assert off + 8 <= |d| ==> e[off + 2 + shift] == d[off + 2] && e[off + 3 + shift] == d[off + 3];
  }

  lemma {:induction false} ChainMoves(d: Bytes, e: Bytes, at: nat, shift: nat, nextHdr: bv8, off: nat)
    requires Moved(d, e, at, shift) && at <= off
    ensures Chain(e, nextHdr, off + shift) == Move(Chain(d, nextHdr, off), shift)
    decreases if off <= |d| then |d| - off else 0
  {
    hide Follow, Moved;
    HopMoves(d, e, at, shift, nextHdr, off);
    var h := Follow(d, nextHdr, off);
    if h.Onward? {
      ChainMoves(d, e, at, shift, h.nextHdr, h.off);
    }
  }

  lemma L4Moves(d: Bytes, e: Bytes, at: nat, shift: nat, u: Upper, isV6: bool)
    requires Moved(d, e, at, shift) && at <= u.off
    ensures L4Of(e, u.(off := u.off + shift), isV6) == L4Of(d, u, isV6)
  {
    hide Be16;
    var off := u.off;
    assert off + 4 <= |d| ==>
      e[off + shift] == d[off] && e[off + 1 + shift] == d[off + 1] && e[off + 2 + shift] == d[off + 2] && e[off + 3 + shift] == d[off + 3];
    assert off + 8 <= |d| ==> e[off + 4 + shift] == d[off + 4] && e[off + 5 + shift] == d[off + 5];
  }

  lemma SliceMoves(d: Bytes, e: Bytes, at: nat, shift: nat, lo: nat, hi: nat)
    requires Moved(d, e, at, shift) && at <= lo <= hi <= |d|
    ensures e[lo + shift..hi + shift] == d[lo..hi]
  {
    forall i | 0 <= i < hi - lo
      ensures e[lo + shift..hi + shift][i] == d[lo..hi][i]
    {
      assert e[(lo + i) + shift] == d[lo + i];
    }
  }

  lemma V4Moves(d: Bytes, e: Bytes, at: nat, shift: nat, ipOff: nat)
    requires Moved(d, e, at, shift) && at <= ipOff
    ensures ParseV4(e, ipOff + shift) == ParseV4(d, ipOff)
  {
    hide Be16, L4Of, Assemble;
    if ipOff + IPV4_LEN <= |d| {
      assert e[ipOff + shift] == d[ipOff] && e[ipOff + 9 + shift] == d[ipOff + 9];
      assert e[ipOff + 6 + shift] == d[ipOff + 6] && e[ipOff + 7 + shift] == d[ipOff + 7];
      SliceMoves(d, e, at, shift, ipOff + 12, ipOff + 16);
      SliceMoves(d, e, at, shift, ipOff + 16, ipOff + 20);
      var ihl := (d[ipOff] & 0x0F) as int;
      L4Moves(d, e, at, shift, Upper(d[ipOff + 9], ipOff + ihl * 4, V4Fragment(d, ipOff)), false);
    }
  }

  lemma V6Moves(d: Bytes, e: Bytes, at: nat, shift: nat, ipOff: nat)
    requires Moved(d, e, at, shift) && at <= ipOff
    ensures ParseV6(e, ipOff + shift) == ParseV6(d, ipOff)
  {
    hide Be16, L4Of, Assemble, Chain, Walk;
    if ipOff + IPV6_LEN <= |d| {
      var nh, start := d[ipOff + 6], ipOff + IPV6_LEN;
      assert e[ipOff + 6 + shift] == nh;
      SliceMoves(d, e, at, shift, ipOff + 8, ipOff + 24);
      SliceMoves(d, e, at, shift, ipOff + 24, ipOff + 40);
      ChainMoves(d, e, at, shift, nh, start);
      WalkIsBoundedChain(d, nh, start, start, MAX_V6_EXT_HDRS);
      WalkIsBoundedChain(e, nh, start + shift, start + shift, MAX_V6_EXT_HDRS);
      ChainAdvances(d, nh, start);
      var c := Chain(d, nh, start);
      if c.Reached? {
        L4Moves(d, e, at, shift, c.upper, true);
      }
    }
  }

  // ---------------------------------------------------------------------
  // Framing does not change the parse
  // ---------------------------------------------------------------------

  /** The tag protocol identifiers of IEEE 802.1Q and 802.1ad. */
  predicate VlanType(ethertype: bv16) {
    ethertype == 0x8100 || ethertype == 0x88a8
  }

  ghost predicate IsTag(tag: Bytes) {
    |tag| == 4 && VlanType(Be16(tag[0], tag[1]))
  }

  /** The frame with one more VLAN tag, outermost. */
  function PushTag(f: Bytes, tag: Bytes): Bytes
    requires 12 <= |f|
  {
    f[..12] + tag + f[12..]
  }

  ghost predicate TwoTags(f: Bytes) {
    18 <= |f| && VlanType(Be16(f[12], f[13])) && VlanType(Be16(f[16], f[17]))
  }

  /** Behind two tags there is an IP ethertype, or the frame ends. */
  ghost predicate IpBehindTwoTags(f: Bytes) {
    TwoTags(f) && (|f| < 22 || Be16(f[20], f[21]) == 0x0800 || Be16(f[20], f[21]) == 0x86dd)
  }

  lemma {:induction false} TagStep(f: Bytes, tag: Bytes, tags: nat)
    requires 12 <= |f| && IsTag(tag) && tags < 2
    requires 18 <= |f| && VlanType(Be16(f[16], f[17])) ==> tags == 0 && !VlanType(Be16(f[12], f[13]))
    ensures ParseEthernet(PushTag(f, tag), tags + 1) == ParseEthernet(f, tags)
    decreases 2 - tags
  {
    hide Be16, ParseV4, ParseV6;
    var g, at := PushTag(f, tag), 12 + 4 * tags;
    assert Moved(f, g, 12, 4);
    assert EthertypeAt(g, at + 4) == EthertypeAt(f, at);
    V4Moves(f, g, 12, 4, at + 2);
    V6Moves(f, g, 12, 4, at + 2);
    if tags == 0 && at + 2 <= |f| && VlanType(Be16(f[at], f[at + 1])) {
      TagStep(f, tag, 1);
    }
  }

  /** One more VLAN tag changes the parse exactly when it hides IP behind a third tag. */
  lemma TagTransparent(f: Bytes, tag: Bytes)
    requires 12 <= |f| && IsTag(tag)
    ensures ParsePacket(PushTag(f, tag), ETH_LEN) == ParsePacket(f, ETH_LEN) <==> !IpBehindTwoTags(f)
    ensures IpBehindTwoTags(f) ==> ParsePacket(PushTag(f, tag), ETH_LEN) == NotIp
  {
    hide Be16, ParseV4, ParseV6;
    var g := PushTag(f, tag);
    assert g[12] == tag[0] && g[13] == tag[1];
    assert ParseEthernet(g, 0) == ParseEthernet(g, 1);
    if TwoTags(f) {
      assert g[16] == f[12] && g[17] == f[13] && g[20] == f[16] && g[21] == f[17];
      assert ParseEthernet(g, 1) == ParseEthernet(g, 2) == NotIp;
      assert ParseEthernet(f, 0) == ParseEthernet(f, 1) == ParseEthernet(f, 2);
      IpIsNotNotIp(f, 22);
    } else {
      TagStep(f, tag, 0);
    }
  }

  lemma IpIsNotNotIp(d: Bytes, ipOff: nat)
    ensures ParseV4(d, ipOff) != NotIp && ParseV6(d, ipOff) != NotIp
  {}

  /** Up to two tags: a frame parses like its untagged form. */
  lemma TwoTagsTransparent(f: Bytes, outer: Bytes, inner: Bytes)
    requires 14 <= |f| && !VlanType(Be16(f[12], f[13])) && IsTag(outer) && IsTag(inner)
    ensures ParsePacket(PushTag(f, inner), ETH_LEN) == ParsePacket(f, ETH_LEN)
    ensures ParsePacket(PushTag(PushTag(f, inner), outer), ETH_LEN) == ParsePacket(f, ETH_LEN)
  {
    hide Be16, ParsePacket;
    var g := PushTag(f, inner);
    assert g[16] == f[12] && g[17] == f[13];
    TagTransparent(f, inner);
    TagTransparent(g, outer);
  }

  /** The version nibble says what the ethertype says. */
  ghost predicate VersionAgrees(f: Bytes) {
    && ETH_LEN <= |f|
    && var et := Be16(f[12], f[13]);
       && (et == 0x0800 || et == 0x86dd)
       && (ETH_LEN < |f| ==> f[14] >> 4 == if et == 0x0800 then 4 else 6)
  }

  /** The bare datagram on a raw-L3 interface parses like the Ethernet frame that carries it. */
  lemma RawTransparent(f: Bytes)
    requires VersionAgrees(f)
    ensures ParsePacket(f[ETH_LEN..], 0) == ParsePacket(f, ETH_LEN)
  {
    hide Be16, ParseV4, ParseV6;
    var d := f[ETH_LEN..];
    assert Moved(d, f, 0, ETH_LEN);
    V4Moves(d, f, 0, ETH_LEN, 0);
    V6Moves(d, f, 0, ETH_LEN, 0);
    ShortIsMalformed(d, 0);
  }

  lemma ShortIsMalformed(d: Bytes, ipOff: nat)
    ensures |d| < ipOff + IPV4_LEN ==> ParseV4(d, ipOff) == Malformed && ParseV6(d, ipOff) == Malformed
  {}

  // ---------------------------------------------------------------------
  // Inserting an extension header cannot change a verdict, only drop
  // ---------------------------------------------------------------------

  /**
   * A well-formed extension header of the given protocol number, announcing `next` as the header after it:
   * hop-by-hop, routing, destination options or mobility, whose length is counted in 8-octet units beyond the
   * first, or the fragment header of a first fragment.
   */
  ghost predicate IsExtHeader(kind: bv8, h: Bytes, next: bv8) {
    || (kind in {0, 43, 60, 135} && 8 <= |h| && h[0] == next && |h| == 8 + 8 * (h[1] as int))
    || (kind == 44 && 8 == |h| && h[0] == next && h[2] == 0 && h[3] >> 3 == 0)
  }

  /** The datagram with header h, of type `kind`, inserted at the head of its chain. */
  function InsertHeader(d: Bytes, ipOff: nat, kind: bv8, h: Bytes): Bytes
    requires ipOff + IPV6_LEN <= |d|
  {
    d[..ipOff + 6] + [kind] + d[ipOff + 7..ipOff + IPV6_LEN] + h + d[ipOff + IPV6_LEN..]
  }

  lemma InsertedBytes(d: Bytes, ipOff: nat, kind: bv8, h: Bytes)
    requires ipOff + IPV6_LEN <= |d|
    ensures var e, start := InsertHeader(d, ipOff, kind, h), ipOff + IPV6_LEN;
      && Moved(d, e, start, |h|)
      && e[ipOff + 6] == kind
      && (forall i | 0 <= i < start && i != ipOff + 6 :: e[i] == d[i])
      && (forall i | 0 <= i < |h| :: e[start + i] == h[i])
  {}

  /** The walk steps over the inserted header, to where the chain now begins. */
  lemma HopInserted(e: Bytes, start: nat, kind: bv8, h: Bytes, next: bv8)
    requires IsExtHeader(kind, h, next) && start + |h| <= |e|
    requires forall i | 0 <= i < |h| :: e[start + i] == h[i]
    ensures Follow(e, kind, start) == Onward(next, start + |h|)
  {
    hide Be16;
    assert e[start + 0] == h[0] && e[start + 1] == h[1] && e[start + 2] == h[2] && e[start + 3] == h[3];
  }

  lemma InsertedChain(d: Bytes, ipOff: nat, kind: bv8, h: Bytes)
    requires ipOff + IPV6_LEN <= |d| && IsExtHeader(kind, h, d[ipOff + 6])
    ensures var e, start := InsertHeader(d, ipOff, kind, h), ipOff + IPV6_LEN;
      Chain(e, kind, start) == OneMore(Move(Chain(d, d[ipOff + 6], start), |h|))
  {
    hide InsertHeader, Follow, IsExtHeader;
    var e, start := InsertHeader(d, ipOff, kind, h), ipOff + IPV6_LEN;
    InsertedBytes(d, ipOff, kind, h);
    HopInserted(e, start, kind, h, d[ipOff + 6]);
    ChainMoves(d, e, start, |h|, d[ipOff + 6], start);
  }

  /** The bounds still hold for the longer chain, judged on the original packet. */
  ghost predicate RoomFor(d: Bytes, ipOff: nat, extra: nat)
    requires ipOff + IPV6_LEN <= |d|
  {
    var start := ipOff + IPV6_LEN;
    var c := Chain(d, d[ipOff + 6], start);
    c.Reached? && WithinBounds(c.upper.(off := c.upper.off + extra), c.headers + 1, start, MAX_V6_EXT_HDRS)
  }

  /**
   * A header inserted at the head of the chain leaves the parse as it was, or makes it an error: the former
   * exactly when the longer chain stays within the bounds or the packet was malformed anyway.
   */
  lemma InsertedHeader(d: Bytes, ipOff: nat, kind: bv8, h: Bytes)
    requires ipOff + IPV6_LEN <= |d| && IsExtHeader(kind, h, d[ipOff + 6])
    ensures ParseV6(InsertHeader(d, ipOff, kind, h), ipOff) ==
            if RoomFor(d, ipOff, |h|) then ParseV6(d, ipOff) else Malformed
  {
    hide InsertHeader, L4Of, Walk, Chain;
    var e, nh, start := InsertHeader(d, ipOff, kind, h), d[ipOff + 6], ipOff + IPV6_LEN;
    var c := Chain(d, nh, start);
    InsertedBytes(d, ipOff, kind, h);
    InsertedChain(d, ipOff, kind, h);
    ChainAdvances(d, nh, start);
    WalkIsBoundedChain(d, nh, start, start, MAX_V6_EXT_HDRS);
    WalkIsBoundedChain(e, kind, start, start, MAX_V6_EXT_HDRS);
    assert e[ipOff + 8..ipOff + 24] == d[ipOff + 8..ipOff + 24] && e[ipOff + 24..start] == d[ipOff + 24..start];
    if c.Reached? {
      L4Moves(d, e, start, |h|, c.upper, true);
    }
  }

  /** The frame carries IPv6 at ipOff, whatever its framing. */
  ghost predicate V6At(f: Bytes, l2Off: nat, ipOff: nat) {
    if l2Off == 0 then ipOff == 0 && 2 <= |f| && f[0] >> 4 == 6
    else
      && (ipOff == 14 || ipOff == 18 || ipOff == 22)
      && ipOff <= |f|
      && Be16(f[ipOff - 2], f[ipOff - 1]) == 0x86dd
      && (ipOff >= 18 ==> VlanType(Be16(f[12], f[13])))
      && (ipOff >= 22 ==> VlanType(Be16(f[16], f[17])))
  }

  lemma ParseAtV6(f: Bytes, l2Off: nat, ipOff: nat)
    requires V6At(f, l2Off, ipOff)
    ensures ParsePacket(f, l2Off) == ParseV6(f, ipOff)
  {
    hide Be16, ParseV4, ParseV6;
    if l2Off != 0 {
      if ipOff >= 18 {
        assert ParseEthernet(f, 0) == ParseEthernet(f, 1);
      }
      if ipOff >= 22 {
        assert ParseEthernet(f, 1) == ParseEthernet(f, 2);
      }
    }
  }

  /** No evasion by prepending: the longer packet parses to the same value, or is dropped. */
  lemma NoHeaderBypass(f: Bytes, l2Off: nat, ipOff: nat, kind: bv8, h: Bytes)
    requires V6At(f, l2Off, ipOff) && ipOff + IPV6_LEN <= |f| && IsExtHeader(kind, h, f[ipOff + 6])
    ensures var g := InsertHeader(f, ipOff, kind, h);
      && (ParsePacket(g, l2Off) == ParsePacket(f, l2Off) || ParsePacket(g, l2Off) == Malformed)
      && (ParsePacket(f, l2Off) == Malformed ==> ParsePacket(g, l2Off) == Malformed)
      && (RoomFor(f, ipOff, |h|) ==> ParsePacket(g, l2Off) == ParsePacket(f, l2Off))
      && (!RoomFor(f, ipOff, |h|) ==> ParsePacket(g, l2Off) == Malformed)
  {
    hide Be16, ParseV6, ParsePacket, InsertHeader, RoomFor;
    var g := InsertHeader(f, ipOff, kind, h);
    InsertedBytes(f, ipOff, kind, h);
    ParseAtV6(f, l2Off, ipOff);
    ParseAtV6(g, l2Off, ipOff);
    InsertedHeader(f, ipOff, kind, h);
  }

  // ---------------------------------------------------------------------
  // Where a frame carries its datagram
  // ---------------------------------------------------------------------

  /** Where the IP header starts and its family, if the parser finds one. */
  function LocateEthernet(f: Bytes, tags: nat): Option<(bv8, nat)>
    requires tags <= 2
    decreases 2 - tags
  {
    match EthertypeAt(f, 12 + 4 * tags)
    case Err => None
    case Ok(et) =>
      if et == 0x0800 then Some((FAMILY_V4, ETH_LEN + 4 * tags))
      else if et == 0x86dd then Some((FAMILY_V6, ETH_LEN + 4 * tags))
      else if VlanType(et) && tags < 2 then LocateEthernet(f, tags + 1)
      else None
  }

  function Locate(f: Bytes, l2Off: nat): Option<(bv8, nat)> {
    if l2Off != 0 then LocateEthernet(f, 0)
    else if 2 > |f| then None
    else if f[0] >> 4 == 4 then Some((FAMILY_V4, 0))
    else if f[0] >> 4 == 6 then Some((FAMILY_V6, 0))
    else None
  }

  function ParseAt(f: Bytes, at: (bv8, nat)): ParseResult {
    if at.0 == FAMILY_V4 then ParseV4(f, at.1) else ParseV6(f, at.1)
  }

  /** The frame ends before the parser has found what it carries. */
  ghost predicate CutShort(f: Bytes, l2Off: nat) {
    if l2Off == 0 then |f| < 2
    else
      || |f| < 14
      || (VlanType(Be16(f[12], f[13])) && |f| < 18)
      || (18 <= |f| && VlanType(Be16(f[12], f[13])) && VlanType(Be16(f[16], f[17])) && |f| < 22)
  }

  lemma {:induction false} EthernetParsesAt(f: Bytes, tags: nat)
    requires tags <= 2
    requires tags >= 1 ==> 14 <= |f| && VlanType(Be16(f[12], f[13]))
    requires tags >= 2 ==> 18 <= |f| && VlanType(Be16(f[16], f[17]))
    ensures match LocateEthernet(f, tags)
      case Some(at) => ParseEthernet(f, tags) == ParseAt(f, at)
      case None => ParseEthernet(f, tags) == if CutShort(f, ETH_LEN) then Malformed else NotIp
    decreases 2 - tags
  {
    hide Be16, ParseV4, ParseV6;
    if tags < 2 && 14 + 4 * tags <= |f| && VlanType(Be16(f[12 + 4 * tags], f[13 + 4 * tags])) {
      EthernetParsesAt(f, tags + 1);
    }
  }

  /** A frame parses as the datagram found in it; without one it is an error if cut short, else not IP. */
  lemma ParsesAt(f: Bytes, l2Off: nat)
    ensures match Locate(f, l2Off)
      case Some(at) => ParsePacket(f, l2Off) == ParseAt(f, at)
      case None => ParsePacket(f, l2Off) == if CutShort(f, l2Off) then Malformed else NotIp
  {
    hide Be16, ParseV4, ParseV6, ParseEthernet, LocateEthernet;
    EthernetParsesAt(f, 0);
  }

  // ---------------------------------------------------------------------
  // Which datagrams are malformed
  // ---------------------------------------------------------------------

  /** The upper-layer header ends early: ports take four bytes, an ICMP header eight, others are not read. */
  ghost predicate L4CutShort(d: Bytes, u: Upper, isV6: bool) {
    && !u.fragment
    && (|| ((u.proto == 6 || u.proto == 17) && |d| < u.off + 4)
        || (u.proto == (if isV6 then 58 else 1) && |d| < u.off + 8))
  }

  lemma L4MalformedExactly(d: Bytes, u: Upper, isV6: bool)
    ensures L4Of(d, u, isV6).Err? <==> L4CutShort(d, u, isV6)
  {
    hide Be16;
  }

  /** An IPv4 datagram is malformed iff its header is cut short or shorter than five words, or its layer 4 is cut short. */
  lemma V4MalformedExactly(d: Bytes, ip: nat)
    ensures ParseV4(d, ip) == Malformed <==>
      || |d| < ip + 20
      || d[ip] & 0x0F < 5
      || L4CutShort(d, Upper(d[ip + 9], ip + 4 * (d[ip] & 0x0F) as int, Be16(d[ip + 6], d[ip + 7]) & 0x1fff != 0), false)
  {
    hide Be16, L4Of, L4CutShort;
    if ip + 20 <= |d| {
      NibbleRange(d[ip]);
      L4MalformedExactly(
        d, Upper(d[ip + 9], ip + 4 * (d[ip] & 0x0F) as int, Be16(d[ip + 6], d[ip + 7]) & 0x1fff != 0), false);
    }
  }

  lemma NibbleRange(b: bv8)
    ensures (b & 0x0F) as int <= 15 && (b & 0x0F < 5 <==> (b & 0x0F) as int < 5)
  {}

  /**
   * An IPv6 datagram is malformed iff its fixed header is cut short, its chain of extension headers runs out of
   * bytes or past the bounds, or its layer 4 is cut short.
   */
  lemma V6MalformedExactly(d: Bytes, ip: nat)
    ensures ParseV6(d, ip) == Malformed <==>
      || |d| < ip + 40
      || var start := ip + 40; var c := Chain(d, d[ip + 6], start);
         || c.Truncated?
         || (!c.upper.fragment && (c.headers > 3 || c.upper.off > start + 64))
         || (c.upper.fragment && (c.headers > 4 || c.upper.off > start + 72))
         || L4CutShort(d, c.upper, true)
  {
    hide Be16, L4Of, L4CutShort, Chain, Walk;
    if ip + 40 <= |d| {
      var start := ip + 40;
      var c := Chain(d, d[ip + 6], start);
      WalkIsBoundedChain(d, d[ip + 6], start, start, MAX_V6_EXT_HDRS);
      if c.Reached? {
        L4MalformedExactly(d, c.upper, true);
      }
    }
  }

  // ---------------------------------------------------------------------
  // Packets without a layer-4 header
  // ---------------------------------------------------------------------

  /** What matching sees of a protocol number: TCP, UDP and the ICMP of the family, or 0 for any other. */
  function ProtoSlot(proto: bv8, isV6: bool): bv8 {
    if proto == 6 || proto == 17 || proto == (if isV6 then 58 else 1) then proto else 0
  }

  ghost predicate NoL4Upper(u: Upper, isV6: bool) {
    u.fragment || ProtoSlot(u.proto, isV6) == 0
  }

  /** A non-initial fragment, or an upper-layer protocol the parser does not know. */
  ghost predicate NoL4(f: Bytes, at: (bv8, nat)) {
    if at.0 == FAMILY_V4 then
      at.1 + IPV4_LEN <= |f| && NoL4Upper(Upper(f[at.1 + 9], 0, V4Fragment(f, at.1)), false)
    else
      at.1 + IPV6_LEN <= |f| &&
      var c := Chain(f, f[at.1 + 6], at.1 + IPV6_LEN);
      c.Reached? && NoL4Upper(c.upper, true)
  }

  /** Without a layer-4 header both port slots are zero. */
  lemma NoL4NoPorts(f: Bytes, l2Off: nat)
    requires Locate(f, l2Off).Some? && NoL4(f, Locate(f, l2Off).value)
    requires ParsePacket(f, l2Off).Datagram?
    ensures var p := ParsePacket(f, l2Off).parsed; p.srcPort == 0 && p.dstPort == 0
  {
    hide Locate, ParsePacket, Chain, Walk;
    var at := Locate(f, l2Off).value;
    ParsesAt(f, l2Off);
    if at.0 != FAMILY_V4 {
      var start := at.1 + IPV6_LEN;
      WalkIsBoundedChain(f, f[at.1 + 6], start, start, MAX_V6_EXT_HDRS);
    }
  }

  /** The first byte past the headers of a non-initial fragment. */
  ghost function FragmentBody(f: Bytes, at: (bv8, nat)): Option<nat> {
    if at.0 == FAMILY_V4 then
      if at.1 + IPV4_LEN <= |f| && V4Fragment(f, at.1) then Some(at.1 + IPV4_LEN) else None
    else if at.1 + IPV6_LEN > |f| then None
    else
      match Chain(f, f[at.1 + 6], at.1 + IPV6_LEN)
      case Reached(u, _) => if u.fragment then Some(u.off) else None
      case Truncated => None
  }

  lemma {:induction false} FragmentEnds(f: Bytes, nextHdr: bv8, off: nat)
    requires Chain(f, nextHdr, off).Reached? && Chain(f, nextHdr, off).upper.fragment
    ensures off + 8 <= Chain(f, nextHdr, off).upper.off <= |f|
    decreases if off <= |f| then |f| - off else 0
  {
    hide Be16;
    var h := Follow(f, nextHdr, off);
    if h.Onward? {
      FragmentEnds(f, h.nextHdr, h.off);
    }
  }

  lemma {:induction false} ChainReadsHeadersOnly(f: Bytes, g: Bytes, nextHdr: bv8, off: nat, end: nat)
    requires Chain(f, nextHdr, off).Reached? && Chain(f, nextHdr, off).upper.fragment
    requires end == Chain(f, nextHdr, off).upper.off && end <= |f| && end <= |g|
    requires forall i | off <= i < end :: f[i] == g[i]
    ensures Chain(g, nextHdr, off) == Chain(f, nextHdr, off)
    decreases if off <= |f| then |f| - off else 0
  {
    hide Be16, TlvLen;
    var h := Follow(f, nextHdr, off);
    FragmentEnds(f, nextHdr, off);
    assert Follow(g, nextHdr, off) == h;
    if h.Onward? {
      ChainReadsHeadersOnly(f, g, h.nextHdr, h.off, end);
    }
  }

  lemma {:induction false} LocateEthernetReads(f: Bytes, g: Bytes, tags: nat, end: nat)
    requires tags <= 2 && end <= |f| && end <= |g| && f[..end] == g[..end]
    requires LocateEthernet(f, tags).Some? && LocateEthernet(f, tags).value.1 <= end
    ensures LocateEthernet(g, tags) == LocateEthernet(f, tags) && 14 + 4 * tags <= LocateEthernet(f, tags).value.1
    decreases 2 - tags
  {
    hide Be16;
    var o := 12 + 4 * tags;
    if VlanType(EthertypeAt(f, o).value) && tags < 2 {
      LocateEthernetReads(f, g, tags + 1, end);
    }
    assert f[o] == f[..end][o] == g[o] && f[o + 1] == f[..end][o + 1] == g[o + 1];
  }

  lemma LocateReads(f: Bytes, g: Bytes, l2Off: nat, end: nat)
    requires 2 <= end <= |f| && end <= |g| && f[..end] == g[..end]
    requires Locate(f, l2Off).Some? && Locate(f, l2Off).value.1 <= end
    ensures Locate(g, l2Off) == Locate(f, l2Off)
  {
    hide LocateEthernet;
    if l2Off != 0 {
      LocateEthernetReads(f, g, 0, end);
    } else {
      assert f[0] == f[..end][0] == g[0];
    }
  }

  lemma V4FragmentReads(f: Bytes, g: Bytes, ip: nat)
    requires ip + IPV4_LEN <= |f| && ip + IPV4_LEN <= |g| && V4Fragment(f, ip)
    requires forall i | ip <= i < ip + IPV4_LEN :: f[i] == g[i]
    ensures ParseV4(g, ip) == ParseV4(f, ip)
  {
    hide Be16;
    assert f[ip + 12..ip + 16] == g[ip + 12..ip + 16] && f[ip + 16..ip + 20] == g[ip + 16..ip + 20];
  }

  lemma V6FragmentReads(f: Bytes, g: Bytes, ip: nat, end: nat)
    requires ip + IPV6_LEN <= |f|
    requires var c := Chain(f, f[ip + 6], ip + IPV6_LEN); c.Reached? && c.upper.fragment && c.upper.off == end
    requires end <= |f| && end <= |g| && forall i | ip <= i < end :: f[i] == g[i]
    ensures ParseV6(g, ip) == ParseV6(f, ip)
  {
    hide Chain, Walk;
    var nh, start := f[ip + 6], ip + IPV6_LEN;
    FragmentEnds(f, nh, start);
    ChainReadsHeadersOnly(f, g, nh, start, end);
    WalkIsBoundedChain(f, nh, start, start, MAX_V6_EXT_HDRS);
    WalkIsBoundedChain(g, nh, start, start, MAX_V6_EXT_HDRS);
    assert f[ip + 8..ip + 24] == g[ip + 8..ip + 24] && f[ip + 24..start] == g[ip + 24..start];
  }

  /** The parse of a non-initial fragment does not depend on its payload, length included. */
  lemma FragmentPayloadIrrelevant(f: Bytes, g: Bytes, l2Off: nat)
    requires Locate(f, l2Off).Some? && FragmentBody(f, Locate(f, l2Off).value).Some?
    requires var end := FragmentBody(f, Locate(f, l2Off).value).value; end <= |f| && end <= |g| && f[..end] == g[..end]
    ensures ParsePacket(g, l2Off) == ParsePacket(f, l2Off)
  {
    hide Locate, ParsePacket, ParseV4, ParseV6, Chain, V4Fragment;
    var at := Locate(f, l2Off).value;
    var ip, end := at.1, FragmentBody(f, at).value;
    assert forall i | 0 <= i < end :: f[i] == f[..end][i] == g[i];
    if at.0 == FAMILY_V4 {
      V4FragmentReads(f, g, ip);
    } else {
      FragmentEnds(f, f[ip + 6], ip + IPV6_LEN);
      V6FragmentReads(f, g, ip, end);
    }
    LocateReads(f, g, l2Off, end);
    ParsesAt(f, l2Off);
    ParsesAt(g, l2Off);
  }

  /** An ICMP packet carries its id in both port slots, so swapping the ports changes nothing. */
  lemma IcmpSlotsAgree(f: Bytes, l2Off: nat)
    requires ParsePacket(f, l2Off).Datagram?
    ensures var p := ParsePacket(f, l2Off).parsed;
      p.protoByte == PROTO_ICMP || p.protoByte == PROTO_ICMPV6 ==> p.srcPort == p.dstPort
  {
    hide ParsePacket, Locate, Walk;
    ParsesAt(f, l2Off);
  }
}
