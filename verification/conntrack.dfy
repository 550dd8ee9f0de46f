/** Whole runs of the conntrack state machine. */
module Conntrack {
  import opened Common
  import opened Packet
  import opened Rules
  import opened DataPath

  /**
   * One atomic step: a packet in either direction, or the kernel evicting entries. Rules, defaults and
   * CONFIG may differ from packet to packet; insertions may fail.
   */
  datatype Event =
    | Outgoing(pr: ParseResult, ifindex: u32, now: nat, ctOn: bool, maps: RuleMaps, insertOk: bool)
    | Incoming(pr: ParseResult, ifindex: u32, now: nat, ctOn: bool, maps: RuleMaps)
    | Evict(keys: set<ConnKey>)

  type Run = seq<Event>

  /** The clock never goes back. */
  ghost predicate ValidRun(run: Run) {
    forall i, j | 0 <= i < j < |run| && !run[i].Evict? && !run[j].Evict? :: run[i].now <= run[j].now
  }

  function Send(e: Event, table: ConnTable): Tracked
    requires e.Outgoing?
  {
    Egress(e.pr, e.ifindex, e.ctOn, table, e.now, e.insertOk, e.maps)
  }

  function Receive(e: Event, table: ConnTable): Tracked
    requires e.Incoming?
  {
    Ingress(e.pr, e.ifindex, e.ctOn, table, e.now, e.maps)
  }

  function Step(table: ConnTable, e: Event): ConnTable {
    match e
    case Outgoing(_, _, _, _, _, _) => Send(e, table).table
    case Incoming(_, _, _, _, _) => Receive(e, table).table
    case Evict(keys) => table - keys
  }

  /** The conntrack map after a run that started from an empty one. */
  function Table(run: Run): ConnTable {
    if run == [] then map[] else Step(Table(run[..|run| - 1]), run[|run| - 1])
  }

  /** The event is an outgoing packet of flow k. */
  ghost predicate OfFlow(e: Event, k: ConnKey) {
    e.Outgoing? && e.pr.Datagram? && !IsNdp(e.pr.parsed) && ForwardKey(e.pr.parsed) == k
  }

  ghost predicate RuleAllowsOut(e: Event) {
    e.Outgoing? && e.pr.Datagram? && RuleAllows(e.maps, Query(DIR_OUT, e.ifindex, e.pr.parsed))
  }

  ghost predicate RuleAllowsIn(e: Event) {
    e.Incoming? && e.pr.Datagram? && RuleAllows(e.maps, Query(DIR_IN, e.ifindex, e.pr.parsed))
  }

  /** Event i of the run is an outgoing packet of flow k, and it was let through. */
  ghost predicate Sent(run: Run, i: nat, k: ConnKey) {
    i < |run| && OfFlow(run[i], k) && Send(run[i], Table(run[..i])).verdict == Pass
  }

  // ---------------------------------------------------------------------
  // Every entry is grounded in egress traffic
  // ---------------------------------------------------------------------

  /**
   * A chain of passed egress packets of flow k: the first was allowed by the rules themselves, and each
   * follows its predecessor by less than the TTL.
   */
  ghost predicate Grounds(run: Run, chain: seq<nat>, k: ConnKey) {
    && chain != []
    && (forall c | 0 <= c < |chain| :: Sent(run, chain[c], k))
    && RuleAllowsOut(run[chain[0]])
    && (forall c | 0 < c < |chain| :: chain[c - 1] < chain[c] && Gap(run, chain[c - 1], chain[c]) < CONNTRACK_TTL_NS)
  }

  ghost function Gap(run: Run, i: nat, j: nat): int {
    if i < |run| && j < |run| && !run[i].Evict? && !run[j].Evict? then run[j].now - run[i].now else 0
  }

  ghost function LastTime(run: Run, chain: seq<nat>, k: ConnKey): nat
    requires Grounds(run, chain, k)
  {
    run[chain[|chain| - 1]].now
  }

  lemma SentPrefix(run: Run, n: nat, i: nat, k: ConnKey)
    requires i < n <= |run|
    ensures Sent(run, i, k) <==> Sent(run[..n], i, k)
  {
    assert run[..n][..i] == run[..i];
  }

  lemma GroundsExtends(run: Run, n: nat, chain: seq<nat>, k: ConnKey)
    requires n <= |run| && Grounds(run[..n], chain, k)
    ensures Grounds(run, chain, k) && LastTime(run, chain, k) == LastTime(run[..n], chain, k)
  {
    hide Sent, RuleAllowsOut;
    forall c | 0 <= c < |chain|
      ensures Sent(run, chain[c], k) && chain[c] < n && run[chain[c]] == run[..n][chain[c]]
    {
      assert Sent(run[..n], chain[c], k);
      SentIndex(run[..n], chain[c], k);
      SentPrefix(run, n, chain[c], k);
    }
  }

  lemma SentIndex(run: Run, i: nat, k: ConnKey)
    requires Sent(run, i, k)
    ensures i < |run| && OfFlow(run[i], k)
  {}

  lemma GroundsAlone(run: Run, n: nat, k: ConnKey)
    requires Sent(run, n, k) && RuleAllowsOut(run[n])
    ensures Grounds(run, [n], k) && LastTime(run, [n], k) == run[n].now
  {}

  lemma GroundsAppend(run: Run, n: nat, chain: seq<nat>, k: ConnKey)
    requires n < |run| && ValidRun(run) && Grounds(run[..n], chain, k) && Sent(run, n, k)
    requires run[n].now - LastTime(run[..n], chain, k) < CONNTRACK_TTL_NS
    ensures Grounds(run, chain + [n], k) && LastTime(run, chain + [n], k) == run[n].now
  {
    hide Sent, RuleAllowsOut;
    GroundsExtends(run, n, chain, k);
    var last := |chain| - 1;
    assert Sent(run[..n], chain[last], k);
    SentIndex(run[..n], chain[last], k);
    SentIndex(run, n, k);
    forall c | 0 <= c < |chain + [n]|
      ensures Sent(run, (chain + [n])[c], k)
    {
    }
  }

  /** What an outgoing packet writes: its own key, now, and only if it passes. */
  lemma SendWrites(e: Event, table: ConnTable, k: ConnKey)
    requires e.Outgoing?
    ensures var t := Send(e, table);
      k in t.table && (k !in table || t.table[k] != table[k]) ==>
        && OfFlow(e, k) && t.verdict == Pass && t.table[k] == e.now
        && (RuleAllowsOut(e) || Fresh(table, k, e.now))
  {
    hide RuleAllows, Fresh;
  }

  /** Every live entry carries the time of the last packet of some grounding chain. */
  lemma {:induction false} EntryGrounded(run: Run, k: ConnKey) returns (chain: seq<nat>)
    requires ValidRun(run) && k in Table(run)
    ensures Grounds(run, chain, k) && LastTime(run, chain, k) == Table(run)[k]
  {
    hide Egress, RuleAllows, Grounds, LastTime;
    var n := |run| - 1;
    var e, before := run[n], Table(run[..n]);
    if k in before && Table(run)[k] == before[k] {
      chain := EntryGrounded(run[..n], k);
      GroundsExtends(run, n, chain, k);
    } else {
      SendWrites(e, before, k);
      assert Sent(run, n, k);
      if RuleAllowsOut(e) {
        chain := [n];
        GroundsAlone(run, n, k);
      } else {
        chain := EntryGrounded(run[..n], k);
        GroundsAppend(run, n, chain, k);
        chain := chain + [n];
      }
    }
  }

  /**
   * In every run, an incoming packet that passes is allowed by the rules, or is a reply to a flow that the
   * host itself opened and kept up: egress packets only, no gap of a TTL, the last one within the TTL of now.
   */
  lemma PassedIngressGrounded(run: Run, i: nat)
    requires ValidRun(run) && i < |run| && run[i].Incoming?
    requires run[i].pr.Datagram? && !IsNdp(run[i].pr.parsed)
    requires Receive(run[i], Table(run[..i])).verdict == Pass
    ensures RuleAllowsIn(run[i]) ||
            exists chain: seq<nat> | Grounds(run[..i], chain, ReverseKey(run[i].pr.parsed)) ::
              run[i].now - LastTime(run[..i], chain, ReverseKey(run[i].pr.parsed)) < CONNTRACK_TTL_NS
  {
    hide RuleAllows, Egress, Grounds, LastTime;
    var e, table, k := run[i], Table(run[..i]), ReverseKey(run[i].pr.parsed);
    if !RuleAllowsIn(e) {
      assert Fresh(table, k, e.now);
      var chain := EntryGrounded(run[..i], k);
      assert Grounds(run[..i], chain, k);
    }
  }

  /** Outgoing packets pass on the same terms: by the rules, or by the chain their own flow has kept up. */
  lemma PassedEgressGrounded(run: Run, i: nat)
    requires ValidRun(run) && i < |run| && run[i].Outgoing?
    requires run[i].pr.Datagram? && !IsNdp(run[i].pr.parsed)
    requires Send(run[i], Table(run[..i])).verdict == Pass
    ensures RuleAllowsOut(run[i]) ||
            exists chain: seq<nat> | Grounds(run[..i], chain, ForwardKey(run[i].pr.parsed)) ::
              run[i].now - LastTime(run[..i], chain, ForwardKey(run[i].pr.parsed)) < CONNTRACK_TTL_NS
  {
    hide RuleAllows, Grounds, LastTime;
    var e, table, k := run[i], Table(run[..i]), ForwardKey(run[i].pr.parsed);
    if !RuleAllowsOut(e) {
      assert Fresh(table, k, e.now);
      var chain := EntryGrounded(run[..i], k);
      assert Grounds(run[..i], chain, k);
    }
  }

  // ---------------------------------------------------------------------
  // Exactly which packets pass
  // ---------------------------------------------------------------------

  /** The event is a datagram that filtering applies to. */
  ghost predicate Filtered(e: Event) {
    !e.Evict? && e.pr.Datagram? && !IsNdp(e.pr.parsed)
  }

  /**
   * In every run, an outgoing packet passes if and only if the rules allow it, or conntrack is on and its flow
   * has a fresh entry. Otherwise it is dropped and leaves the table alone.
   */
  lemma EgressExactly(run: Run, i: nat)
    requires i < |run| && run[i].Outgoing? && Filtered(run[i])
    ensures var e, before := run[i], Table(run[..i]);
      var k := ForwardKey(e.pr.parsed);
      && (Send(e, before).verdict == Pass <==> RuleAllowsOut(e) || (e.ctOn && Fresh(before, k, e.now)))
      && (Send(e, before).verdict != Pass ==> Send(e, before) == Tracked(Drop, before))
  {
    hide RuleAllows, Fresh;
  }

  /**
   * What an outgoing packet leaves: its own flow stamped with the time, if it passes with conntrack on, the
   * insertion works and the entry was not refreshed within the last 10 s; every other flow as it was.
   */
  lemma EgressStampsExactly(run: Run, i: nat, k: ConnKey)
    requires i < |run| && run[i].Outgoing? && Filtered(run[i])
    ensures var e, before := run[i], Table(run[..i]);
      var after := Send(e, before).table;
      var stamps := e.ctOn && e.insertOk && Send(e, before).verdict == Pass &&
        (k !in before || e.now >= before[k] + CONNTRACK_REFRESH_NS);
      && (ForwardKey(e.pr.parsed) == k && stamps ==> k in after && after[k] == e.now)
      && (!(ForwardKey(e.pr.parsed) == k && stamps) ==> (k in after <==> k in before) && (k in before ==> after[k] == before[k]))
  {
    hide RuleAllows;
  }

  /** With conntrack off the verdict is the rules' alone and the table is never touched. */
  lemma EgressStateless(run: Run, i: nat)
    requires i < |run| && run[i].Outgoing? && Filtered(run[i]) && !run[i].ctOn
    ensures Send(run[i], Table(run[..i])).table == Table(run[..i])
    ensures Send(run[i], Table(run[..i])).verdict == if RuleAllowsOut(run[i]) then Pass else Drop
  {
    hide RuleAllows, Fresh;
  }

  /** In every run, an incoming packet passes iff the rules allow it, or conntrack is on and it answers a fresh flow. */
  lemma IngressExactly(run: Run, i: nat)
    requires i < |run| && run[i].Incoming? && Filtered(run[i])
    ensures var e, before := run[i], Table(run[..i]);
      var k := ReverseKey(e.pr.parsed);
      && (Receive(e, before).verdict == Pass <==> RuleAllowsIn(e) || (e.ctOn && Fresh(before, k, e.now)))
      && (Receive(e, before).verdict != Pass ==> Receive(e, before).verdict == Drop)
  {
    hide RuleAllows, Fresh;
  }

  /** Packets that do not parse are refused in both directions; frames that are not IP pass; neither leaves a trace. */
  lemma UnparsedExactly(e: Event, table: ConnTable)
    requires !e.Evict? && !e.pr.Datagram?
    ensures e.Incoming? ==> Receive(e, table) == Tracked(if e.pr.NotIp? then Pass else Aborted, table)
    ensures e.Outgoing? ==> Send(e, table) == Tracked(if e.pr.NotIp? then Pass else Drop, table)
  {}

  /** The run without its incoming packets. */
  function WithoutIngress(run: Run): Run {
    if run == [] then []
    else
      var n := |run| - 1;
      WithoutIngress(run[..n]) + if run[n].Incoming? then [] else [run[n]]
  }

  /** Incoming packets leave no trace: no number of them prolongs, shortens or creates an entry. */
  lemma {:induction false} IngressLeavesNoTrace(run: Run)
    ensures Table(WithoutIngress(run)) == Table(run)
  {
    hide Egress;
    if run != [] {
      var n := |run| - 1;
      IngressLeavesNoTrace(run[..n]);
      if run[n].Incoming? {
        assert WithoutIngress(run) == WithoutIngress(run[..n]);
      } else {
        assert WithoutIngress(run)[..|WithoutIngress(run)| - 1] == WithoutIngress(run[..n]);
      }
    }
  }

  // ---------------------------------------------------------------------
  // Lazy refresh loses a bounded amount
  // ---------------------------------------------------------------------

  /** Conntrack is on for every packet of flow k, its insertions succeed, and its entry is never evicted. */
  ghost predicate Undisturbed(run: Run, k: ConnKey) {
    forall e <- run :: (e.Evict? ==> k !in e.keys) && (OfFlow(e, k) ==> e.ctOn && e.insertOk)
  }

  /** Time of the last outgoing packet of flow k that passed. */
  ghost function LastSent(run: Run, k: ConnKey): Option<nat> {
    if run == [] then None
    else
      var n := |run| - 1;
      if Sent(run, n, k) then Some(run[n].now) else LastSent(run[..n], k)
  }

  lemma {:induction false} LastSentIsLast(run: Run, k: ConnKey, i: nat)
    requires ValidRun(run) && Sent(run, i, k)
    ensures LastSent(run, k).Some? && LastSent(run, k).value >= run[i].now
  {
    hide Egress;
    var n := |run| - 1;
    if i < n {
      SentPrefix(run, n, i, k);
      LastSentIsLast(run[..n], k, i);
    }
  }

  lemma {:induction false} LastSentInRun(run: Run, k: ConnKey, now: nat)
    requires forall e <- run :: !e.Evict? ==> e.now <= now
    ensures LastSent(run, k).Some? ==> LastSent(run, k).value <= now
  {
    hide Egress;
    if run != [] {
      LastSentInRun(run[..|run| - 1], k, now);
    }
  }

  /** The entry of flow k lags behind its last passed packet by less than the refresh interval. */
  ghost predicate Tracks(table: ConnTable, k: ConnKey, last: Option<nat>) {
    && (k in table <==> last.Some?)
    && (k in table ==> table[k] <= last.value < table[k] + CONNTRACK_REFRESH_NS)
  }

  lemma SendTracks(e: Event, table: ConnTable, k: ConnKey, last: Option<nat>)
    requires e.Outgoing? && (OfFlow(e, k) ==> e.ctOn && e.insertOk) && Tracks(table, k, last)
    requires last.Some? ==> last.value <= e.now
    ensures var t := Send(e, table);
      Tracks(t.table, k, if OfFlow(e, k) && t.verdict == Pass then Some(e.now) else last)
  {
    hide RuleAllows;
  }

  lemma {:induction false} LazyRefresh(run: Run, k: ConnKey)
    requires ValidRun(run) && Undisturbed(run, k)
    ensures Tracks(Table(run), k, LastSent(run, k))
  {
    hide Egress;
    if run != [] {
      var n := |run| - 1;
      var e, before := run[n], Table(run[..n]);
      LazyRefresh(run[..n], k);
      if e.Outgoing? {
        LastSentInRun(run[..n], k, e.now);
        SendTracks(e, before, k, LastSent(run[..n], k));
      }
    }
  }

  /** q answers p: swapped addresses and ports, or, for ICMP, swapped addresses and the same id. */
  ghost predicate Answers(q: Parsed, p: Parsed) {
    && q.family == p.family && q.protoByte == p.protoByte
    && q.srcAddr == p.dstAddr && q.dstAddr == p.srcAddr
    && (|| (q.srcPort == p.dstPort && q.dstPort == p.srcPort)
        || (q.srcPort == p.srcPort && q.dstPort == p.dstPort && p.srcPort == p.dstPort))
  }

  /** The two keys meet exactly for answers; no other packet reaches the entry of p's flow. */
  lemma AnswerKey(q: Parsed, p: Parsed)
    ensures Answers(q, p) <==> ReverseKey(q) == ForwardKey(p)
  {}

  /** A reply passes if it arrives at most 1 h 59 min 50 s, TTL - REFRESH, after any packet its flow got out. */
  lemma ReplyPasses(run: Run, i: nat, e: Event)
    requires ValidRun(run + [e])
    requires i < |run| && run[i].Outgoing? && run[i].pr.Datagram? && Sent(run, i, ForwardKey(run[i].pr.parsed))
    requires Undisturbed(run, ForwardKey(run[i].pr.parsed))
    requires e.Incoming? && e.ctOn && e.pr.Datagram? && Answers(e.pr.parsed, run[i].pr.parsed)
    requires e.now - run[i].now <= 7_190_000_000_000
    ensures Receive(e, Table(run)).verdict == Pass
  {
    hide RuleAllows, Egress, Sent;
    var k := ForwardKey(run[i].pr.parsed);
    assert ValidRun(run) by {
      assert forall a | 0 <= a < |run| :: run[a] == (run + [e])[a];
    }
    AnswerKey(e.pr.parsed, run[i].pr.parsed);
    LastSentIsLast(run, k, i);
    LazyRefresh(run, k);
  }

  /** So does a further outgoing packet of the flow, whatever the rules say by then. */
  lemma FlowContinues(run: Run, i: nat, e: Event)
    requires ValidRun(run + [e]) && e.Outgoing? && e.ctOn && Filtered(e)
    requires Sent(run, i, ForwardKey(e.pr.parsed)) && Undisturbed(run, ForwardKey(e.pr.parsed))
    requires e.now - run[i].now <= 7_190_000_000_000
    ensures Send(e, Table(run)).verdict == Pass
  {
    hide RuleAllows, Sent;
    var k := ForwardKey(e.pr.parsed);
    assert ValidRun(run) by {
      assert forall a | 0 <= a < |run| :: run[a] == (run + [e])[a];
    }
    LastSentIsLast(run, k, i);
    LazyRefresh(run, k);
  }

  /** Two hours, the TTL, after the last packet its flow got out, an outgoing one is new: only the rules decide. */
  lemma LateSendUntracked(run: Run, e: Event)
    requires ValidRun(run) && e.Outgoing? && Filtered(e) && Undisturbed(run, ForwardKey(e.pr.parsed))
    requires var last := LastSent(run, ForwardKey(e.pr.parsed));
      last.Some? ==> e.now - last.value >= 7_200_000_000_000
    ensures Send(e, Table(run)).verdict == Pass <==> RuleAllowsOut(e)
  {
    hide RuleAllows, LastSent;
    LazyRefresh(run, ForwardKey(e.pr.parsed));
  }

  /** Two hours after the last packet its flow got out, a reply has only the rules to rely on. */
  lemma LateReplyUntracked(run: Run, e: Event)
    requires ValidRun(run) && e.Incoming? && e.pr.Datagram? && !IsNdp(e.pr.parsed)
    requires Undisturbed(run, ReverseKey(e.pr.parsed))
    requires var last := LastSent(run, ReverseKey(e.pr.parsed));
      last.Some? ==> e.now - last.value >= 7_200_000_000_000
    ensures Receive(e, Table(run)).verdict == Pass <==> RuleAllowsIn(e)
  {
    hide RuleAllows, Egress, LastSent;
    LazyRefresh(run, ReverseKey(e.pr.parsed));
  }

  /** No rules at all, inbound denied by default and outbound allowed. */
  ghost predicate DeniesIn(m: RuleMaps) {
    m.config.ruleCount == 0 && m.defaultIn == ACT_DENY && m.defaultOut == ACT_ALLOW
  }

  lemma DefaultOnly(m: RuleMaps, p: Parsed)
    requires DeniesIn(m)
    ensures RuleAllows(m, Query(DIR_OUT, 1, p)) && !RuleAllows(m, Query(DIR_IN, 1, p))
  {}

  /**
   * Both bounds are sharp: for every gap strictly between TTL - REFRESH and TTL there is a run in which a
   * reply that late passes on conntrack alone, and one in which it does not.
   */
  lemma ReplyWindowSharp(m: RuleMaps, p: Parsed, q: Parsed, gap: nat) returns (quick: Run, slow: Run)
    requires DeniesIn(m) && !IsNdp(p) && !IsNdp(q) && Answers(q, p)
    requires CONNTRACK_TTL_NS - CONNTRACK_REFRESH_NS < gap < CONNTRACK_TTL_NS
    ensures ValidRun(quick) && ValidRun(slow)
    ensures forall flow: ConnKey :: Undisturbed(quick, flow) && Undisturbed(slow, flow)
    ensures var last := LastSent(quick, ForwardKey(p));
      last.Some? && Receive(Incoming(Datagram(q), 1, last.value + gap, true, m), Table(quick)).verdict == Pass
    ensures var last := LastSent(slow, ForwardKey(p));
      last.Some? && Receive(Incoming(Datagram(q), 1, last.value + gap, true, m), Table(slow)).verdict == Drop
  {
    hide RuleAllows;
    var k := ForwardKey(p);
    var first := Outgoing(Datagram(p), 1, 0, true, m, true);
    var second := Outgoing(Datagram(p), 1, CONNTRACK_TTL_NS - gap, true, m, true);
    quick, slow := [first], [first, second];
    DefaultOnly(m, p);
    DefaultOnly(m, q);
    AnswerKey(q, p);
    assert quick[..0] == [] && slow[..1] == quick;
    assert Table(quick) == map[k := 0];
    assert Sent(quick, 0, k);
    assert Table(slow) == map[k := 0];
    assert Sent(slow, 1, k);
  }
}
