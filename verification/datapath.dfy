/** The two packet programs: ingress with its reverse lookup, egress with its insertions. */
module DataPath {
  import opened Common
  import opened Packet
  import opened Rules

  const ICMPV6_RS: bv8 := 133
  const ICMPV6_RA: bv8 := 134
  const ICMPV6_NS: bv8 := 135
  const ICMPV6_NA: bv8 := 136
  const ICMPV6_REDIRECT: bv8 := 137

  datatype ConnKey = ConnKey(
    proto: bv8,
    family: bv8,
    srcAddr: Addr,
    dstAddr: Addr,
    srcPort: u16,
    dstPort: u16)

  /** Flow keys and the time an egress packet last refreshed them. */
  type ConnTable = map<ConnKey, nat>

  datatype Verdict = Pass | Drop | Aborted

  datatype Tracked = Tracked(verdict: Verdict, table: ConnTable)

  function ForwardKey(p: Parsed): ConnKey {
    ConnKey(p.protoByte, p.family, p.srcAddr, p.dstAddr, p.srcPort, p.dstPort)
  }

  function ReverseKey(p: Parsed): ConnKey {
    ConnKey(p.protoByte, p.family, p.dstAddr, p.srcAddr, p.dstPort, p.srcPort)
  }

  predicate IsNdp(p: Parsed) {
    && p.family == FAMILY_V6
    && p.protoByte == PROTO_ICMPV6
    && p.icmpType in {ICMPV6_RS, ICMPV6_RA, ICMPV6_NS, ICMPV6_NA, ICMPV6_REDIRECT}
  }

  predicate Fresh(table: ConnTable, k: ConnKey, now: nat) {
    k in table && SaturatingSub(now, table[k]) < CONNTRACK_TTL_NS
  }

  predicate RuleAllows(m: RuleMaps, q: Query) {
    Decide(Live(m), q, DefaultFor(m, q.direction)).action == ACT_ALLOW
  }

  /**
   * The ingress program on a parse result: its verdict and the connection table it leaves. CONFIG is read
   * once for `ctOn` and once by the rule walk, so the two need not agree.
   */
  function Ingress(pr: ParseResult, ifindex: u32, ctOn: bool, table: ConnTable, now: nat, m: RuleMaps): Tracked {
    match pr
    case Malformed => Tracked(Aborted, table)
    case NotIp => Tracked(Pass, table)
    case Datagram(p) =>
      if IsNdp(p) then Tracked(Pass, table)
      else if ctOn && Fresh(table, ReverseKey(p), now) then Tracked(Pass, table)
      else if RuleAllows(m, Query(DIR_IN, ifindex, p)) then Tracked(Pass, table)
      else Tracked(Drop, table)
  }

  /** The egress program on a parse result; `insertOk` says whether a map insertion would succeed. */
  function Egress(
    pr: ParseResult, ifindex: u32, ctOn: bool, table: ConnTable, now: nat, insertOk: bool, m: RuleMaps
  ): Tracked {
    match pr
    case Malformed => Tracked(Drop, table)
    case NotIp => Tracked(Pass, table)
    case Datagram(p) =>
      if IsNdp(p) then Tracked(Pass, table)
      else
        var k := ForwardKey(p);
        var stamped := if insertOk then table[k := now] else table;
        if ctOn && Fresh(table, k, now) then
          Tracked(Pass, if SaturatingSub(now, table[k]) >= CONNTRACK_REFRESH_NS then stamped else table)
        else if !RuleAllows(m, Query(DIR_OUT, ifindex, p)) then Tracked(Drop, table)
        else Tracked(Pass, if ctOn then stamped else table)
  }

  /** Maps as the kernel holds them, and the programs that run against them. */
  class Firewall {
    var maps: RuleMaps
    var conntrack: ConnTable
    var ifaceL2: map<u32, nat>

    constructor (maps: RuleMaps)
      ensures this.maps == maps && conntrack == map[] && ifaceL2 == map[]
    {
      this.maps, conntrack, ifaceL2 := maps, map[], map[];
    }

    /** Interfaces the loader has not recorded count as Ethernet. */
    function L2OffFor(ifindex: u32): nat
      reads this`ifaceL2
    {
      if ifindex in ifaceL2 then ifaceL2[ifindex] else ETH_LEN
    }

    method TryIngress(frame: Bytes, ifindex: u32, now: nat) returns (v: Verdict)
      ensures var l2Off := if ifindex in ifaceL2 then ifaceL2[ifindex] else 14;
        Tracked(v, conntrack) ==
        Ingress(ParsePacket(frame, l2Off), ifindex, maps.config.conntrackEnabled, conntrack, now, maps)
    {
      hide ParsePacket;
      var pr := ParsePacket(frame, L2OffFor(ifindex));
      if pr.Malformed? {
        return Aborted;
      }
      if pr.NotIp? {
        return Pass;
      }
      if IsNdp(pr.parsed) {
        return Pass;
      }
      if maps.config.conntrackEnabled {
        var k := ReverseKey(pr.parsed);
        if k in conntrack && SaturatingSub(now, conntrack[k]) < CONNTRACK_TTL_NS {
          return Pass;
        }
      }
      var d := WalkRules(maps, Query(DIR_IN, ifindex, pr.parsed));
      return if d.action == ACT_ALLOW then Pass else Drop;
    }

    method TryEgress(frame: Bytes, ifindex: u32, now: nat, insertOk: bool) returns (v: Verdict)
      modifies this`conntrack
      ensures var l2Off := if ifindex in ifaceL2 then ifaceL2[ifindex] else 14;
        Tracked(v, conntrack) ==
        Egress(ParsePacket(frame, l2Off), ifindex, maps.config.conntrackEnabled, old(conntrack), now, insertOk, maps)
    {
      hide ParsePacket;
      var pr := ParsePacket(frame, L2OffFor(ifindex));
      if pr.Malformed? {
        return Drop;
      }
      if pr.NotIp? {
        return Pass;
      }
      if IsNdp(pr.parsed) {
        return Pass;
      }
      var q := Query(DIR_OUT, ifindex, pr.parsed);
      if !maps.config.conntrackEnabled {
        var d := WalkRules(maps, q);
        return if d.action != ACT_ALLOW then Drop else Pass;
      }
      var k := ForwardKey(pr.parsed);
      if k in conntrack {
        var age := SaturatingSub(now, conntrack[k]);
        if age < CONNTRACK_TTL_NS {
          if age >= CONNTRACK_REFRESH_NS && insertOk {
            conntrack := conntrack[k := now];
          }
          return Pass;
        }
      }
      var d := WalkRules(maps, q);
      if d.action != ACT_ALLOW {
        return Drop;
      }
      if insertOk {
        conntrack := conntrack[k := now];
      }
      return Pass;
    }
  }

  // ---------------------------------------------------------------------
  // Packets no rule can stop
  // ---------------------------------------------------------------------

  /** Passes in both directions under any rules, defaults, connection table and clock. */
  ghost predicate Exempt(p: Parsed) {
    forall ifindex: u32, ctOn: bool, table: ConnTable, now: nat, m: RuleMaps ::
      && Ingress(Datagram(p), ifindex, ctOn, table, now, m) == Tracked(Pass, table)
      && Egress(Datagram(p), ifindex, ctOn, table, now, true, m) == Tracked(Pass, table)
  }

  /** Maps without rules that refuse everything. */
  function Closed(): RuleMaps {
    RuleMaps(seq(RULES_SLOTS, _ => EmptyRule()), GlobalConfig(false, 0, false, 0), ACT_DENY, ACT_DENY)
  }

  lemma ClosedDrops(p: Parsed)
    requires !IsNdp(p)
    ensures Ingress(Datagram(p), 1, false, map[], 0, Closed()).verdict == Drop
  {}

  /**
   * The five neighbour discovery messages of section 4 of RFC 4861, ICMPv6 types 133 to 137, are exempt from
   * filtering, and no other datagram is.
   */
  lemma ExemptExactly(p: Parsed)
    ensures Exempt(p) <==> p.family == 6 && p.protoByte == 58 && 133 <= p.icmpType <= 137
  {
    hide RuleAllows, Fresh, Closed;
    NdpTypes(p.icmpType);
    if Exempt(p) && !IsNdp(p) {
      ClosedDrops(p);
    }
  }

  lemma NdpTypes(ty: bv8)
    ensures 133 <= ty <= 137 <==> ty == 133 || ty == 134 || ty == 135 || ty == 136 || ty == 137
  {}

  // ---------------------------------------------------------------------
  // When conntrack may be left out
  // ---------------------------------------------------------------------

  /** No rule a walk would read, nor the inbound default, can deny an inbound packet. */
  ghost predicate InboundPermissive(m: RuleMaps) {
    && m.defaultIn == ACT_ALLOW
    && forall r <- Live(m) :: r.direction == DIR_IN ==> r.action == ACT_ALLOW
  }

  lemma PermissiveAllows(m: RuleMaps, ifindex: u32, p: Parsed)
    requires InboundPermissive(m)
    ensures RuleAllows(m, Query(DIR_IN, ifindex, p))
  {
    var q := Query(DIR_IN, ifindex, p);
    var i := First(Live(m), q);
    if i < |Live(m)| {
      assert Live(m)[i].direction == DIR_IN;
    }
  }

  /** With no rules and both defaults permissive every packet that parses passes, whatever conntrack holds. */
  lemma OpenMapsPass(
    m: RuleMaps, pr: ParseResult, ifindex: u32, ctOn: bool, table: ConnTable, now: nat, insertOk: bool
  )
    requires Live(m) == [] && m.defaultIn == ACT_ALLOW && m.defaultOut == ACT_ALLOW && !pr.Malformed?
    ensures Ingress(pr, ifindex, ctOn, table, now, m).verdict == Pass
    ensures Egress(pr, ifindex, ctOn, table, now, insertOk, m).verdict == Pass
  {
    hide Live, Fresh;
  }

  /** With permissive inbound maps the reverse lookup cannot change an ingress verdict. */
  lemma LookupRedundant(m: RuleMaps, pr: ParseResult, ifindex: u32, table: ConnTable, now: nat)
    requires InboundPermissive(m)
    ensures Ingress(pr, ifindex, true, table, now, m) == Ingress(pr, ifindex, false, table, now, m)
  {
    hide Decide, Fresh, RuleAllows;
    if pr.Datagram? {
      PermissiveAllows(m, ifindex, pr.parsed);
    }
  }
}
