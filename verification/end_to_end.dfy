/** Results that span the parser, the matcher, conntrack, the daemon and the publication protocol. */
module EndToEnd {
  import opened Common
  import opened Packet
  import opened PacketLaws
  import opened Rules
  import opened Wire
  import opened DataPath
  import Conntrack
  import D = Daemon
  import Laws = DaemonLaws
  import P = Publication
  import B = Bridge

  /** A packet without a layer-4 header never matches a rule with a port constraint, whatever its payload. */
  lemma NoL4NeverMatchesPorts(f: Bytes, l2Off: nat, t: Texts, r: UserRule, ruleIfindex: u32, dir: bv8, ifindex: u32)
    requires Locate(f, l2Off).Some? && NoL4(f, Locate(f, l2Off).value) && ParsePacket(f, l2Off).Datagram?
    requires (r.srcPort.Some? || r.dstPort.Some?) && BuildWireRule(t, r, ruleIfindex).Ok?
    ensures !Matches(BuildWireRule(t, r, ruleIfindex).value, Query(dir, ifindex, ParsePacket(f, l2Off).parsed))
  {
    hide Locate, NoL4, ParsePacket, BuildWireRule, Matches;
    NoL4NoPorts(f, l2Off);
    ZeroPortNeverMatches(t, r, ruleIfindex, Query(dir, ifindex, ParsePacket(f, l2Off).parsed));
  }

  /** Prepending an extension header can make a packet be dropped, and can do nothing else. */
  lemma HeaderInsertionOnlyDrops(
    f: Bytes, l2Off: nat, ipOff: nat, kind: bv8, h: Bytes,
    ifindex: u32, ctOn: bool, table: ConnTable, now: nat, insertOk: bool, m: RuleMaps
  )
    requires V6At(f, l2Off, ipOff) && ipOff + IPV6_LEN <= |f| && IsExtHeader(kind, h, f[ipOff + 6])
    ensures var g := InsertHeader(f, ipOff, kind, h);
      var before, after := ParsePacket(f, l2Off), ParsePacket(g, l2Off);
      && (|| Ingress(after, ifindex, ctOn, table, now, m) == Ingress(before, ifindex, ctOn, table, now, m)
          || Ingress(after, ifindex, ctOn, table, now, m) == Tracked(Aborted, table))
      && (|| Egress(after, ifindex, ctOn, table, now, insertOk, m) == Egress(before, ifindex, ctOn, table, now, insertOk, m)
          || Egress(after, ifindex, ctOn, table, now, insertOk, m) == Tracked(Drop, table))
  {
    hide ParsePacket, InsertHeader, V6At, RoomFor, RuleAllows;
    NoHeaderBypass(f, l2Off, ipOff, kind, h);
  }

  /** Two ICMP packets with swapped addresses and one id answer each other, at the level of frames. */
  lemma IcmpEchoAnswers(request: Bytes, reply: Bytes, l2Out: nat, l2In: nat)
    requires ParsePacket(request, l2Out).Datagram? && ParsePacket(reply, l2In).Datagram?
    requires var p, q := ParsePacket(request, l2Out).parsed, ParsePacket(reply, l2In).parsed;
      && (p.protoByte == PROTO_ICMP || p.protoByte == PROTO_ICMPV6)
      && q.protoByte == p.protoByte && q.family == p.family
      && q.srcAddr == p.dstAddr && q.dstAddr == p.srcAddr && q.srcPort == p.srcPort
    ensures Conntrack.Answers(ParsePacket(reply, l2In).parsed, ParsePacket(request, l2Out).parsed)
  {
    hide ParsePacket;
    IcmpSlotsAgree(request, l2Out);
    IcmpSlotsAgree(reply, l2In);
  }

  /**
   * A frame that hides IP behind a third VLAN tag passes in both directions, whatever the rules, the default
   * policies and the connection table say, and leaves no trace in the table.
   */
  lemma ThirdTagPasses(
    f: Bytes, tag: Bytes, ifindex: u32, ctOn: bool, table: ConnTable, now: nat, insertOk: bool, m: RuleMaps
  )
    requires 12 <= |f| && IsTag(tag) && IpBehindTwoTags(f)
    ensures var pr := ParsePacket(PushTag(f, tag), ETH_LEN);
      && Ingress(pr, ifindex, ctOn, table, now, m) == Tracked(Pass, table)
      && Egress(pr, ifindex, ctOn, table, now, insertOk, m) == Tracked(Pass, table)
  {
    hide ParsePacket, PushTag, IsTag, IpBehindTwoTags, RuleAllows;
    TagTransparent(f, tag);
  }

  /**
   * From the stored rules to the verdict on a packet, in a synchronised state: it passes if and only if conntrack
   * is on and knows its flow, or the first stored rule that holds of it, or else the default policy, says allow.
   */
  lemma VerdictMeansRules(
    h: D.Host, s: D.State, p: Parsed, ifindex: u32, ctOn: bool, table: ConnTable, now: nat, insertOk: bool
  )
    requires Laws.Synced(h, s) && RealTable(h.table) && RealIfindex(ifindex) && !IsNdp(p)
    ensures var verdict := UserVerdict(h.texts, h.table, Capped(s.store.rules), Query(0, ifindex, p), s.store.defaultIn);
      Ingress(Datagram(p), ifindex, ctOn, table, now, s.maps).verdict == Pass <==>
      verdict == Allow || (ctOn && Fresh(table, ReverseKey(p), now))
    ensures var verdict := UserVerdict(h.texts, h.table, Capped(s.store.rules), Query(1, ifindex, p), s.store.defaultOut);
      Egress(Datagram(p), ifindex, ctOn, table, now, insertOk, s.maps).verdict == Pass <==>
      verdict == Allow || (ctOn && Fresh(table, ForwardKey(p), now))
  {
    hide Laws.Synced, UserVerdict, Fresh, Live, Decide, RealTable;
    Laws.SyncedMeansStored(h, s, Query(DIR_IN, ifindex, p));
    Laws.SyncedMeansStored(h, s, Query(DIR_OUT, ifindex, p));
  }

  /** What a compiled list decides, in terms of the operator's rules. */
  lemma ListMeansRules(h: D.Host, rules: seq<UserRule>, q: Query, default: bv8)
    requires Compile(h.texts, h.table, rules).Ok? && RealTable(h.table) && RealIfindex(q.ifindex)
    ensures var list := Capped(Compile(h.texts, h.table, rules).value);
      var stored := Capped(rules);
      var i := UserFirst(h.texts, h.table, stored, q);
      Decide(list, q, default).action == if i < |stored| then ActionByte(stored[i].action) else default
  {
    hide Compile, CompileRule, First, UserFirst;
    Laws.CompileCapped(h, rules);
    var stored := Capped(rules);
    var ws := Compile(h.texts, h.table, stored).value;
    CompilationPreservesMeaning(h.texts, h.table, stored, q, Allow);
    forall i | 0 <= i < |stored|
      ensures ws[i].action == ActionByte(stored[i].action)
    {
      CompiledBytes(h.texts, h.table, stored[i]);
    }
  }

  /**
   * From the operator's requests to a walk in flight. Requests, failed ones included, run interleaved in any
   * way with any number of walks. A walk that is not overrun takes the action of the first rule that holds of
   * its packet in the store of the last Ok request completed before the walk read CONFIG, or else the default
   * policy in force when it ends.
   */
  lemma ConcurrentWalkMeansStored(
    h: D.Host, d: D.State, calls: seq<Laws.Call>, last: D.Store,
    p: P.State, before: seq<P.Step>, id: nat, q: Query, after: seq<P.Step>
  )
    requires P.Inv(p) && B.Sees(d, p) && Laws.TwoBanks(d) && Laws.Publishes(h, d.maps, last)
    requires Laws.ConfigWritesSucceed(calls) && RealTable(h.table) && RealIfindex(q.ifindex)
    requires P.Runs(p, before + [P.Snapshot(id, q)] + after)
    requires B.DaemonSteps(before + [P.Snapshot(id, q)] + after) <= B.Scripts(h, d, calls)
    ensures id in P.After(p, before + [P.Snapshot(id, q)] + after).readers
    ensures var r := P.After(p, before + [P.Snapshot(id, q)] + after).readers[id];
      var rules := Capped(B.Committed(h, d, calls, B.DaemonSteps(before), last).rules);
      var i := UserFirst(h.texts, h.table, rules, q);
      r.outcome.Some? && !r.overrun ==>
        r.outcome.value.action == if i < |rules| then ActionByte(rules[i].action) else r.default
  {
    hide P.Inv, P.Runs, P.After, B.DaemonSteps, B.Scripts, B.Committed, Compile, UserFirst, Decide, B.Sees;
    var start := before + [P.Snapshot(id, q)];
    P.Split(p, start, after);
    P.Split(p, before, [P.Snapshot(id, q)]);
    P.RunsOne(P.After(p, before), P.Snapshot(id, q));
    P.RunHistory(P.After(p, start), after, id);
    P.WalksAreAtomic(p, start + after, id);
    B.DaemonStepsConcat(before, [P.Snapshot(id, q)]);
    B.DaemonStepsConcat(start, after);
    B.PacketsAreReaders(p, p, before);
    B.PublishedIsCommitted(h, d, calls, p, B.DaemonSteps(before), last);
    var rules := B.Committed(h, d, calls, B.DaemonSteps(before), last).rules;
    ListMeansRules(h, rules, q, P.After(p, start + after).readers[id].default);
  }
}
