/** First-match rule evaluation over the published bank. */
module Rules {
  import opened Common
  import opened Cidr

  /** The outcome of a walk: an action byte and the index of the rule that chose it. */
  datatype Decision = Decision(action: bv8, ruleId: u32)

  /** What a walk is asked about. */
  datatype Query = Query(direction: bv8, ifindex: u32, p: Parsed)

  predicate PortHit(lo: u16, hi: u16, port: u16) {
    hi == 0 || lo <= port <= hi
  }

  predicate Matches(r: Rule, q: Query) {
    && r.direction == q.direction
    && (r.ifaceIfindex == IFACE_ANY || r.ifaceIfindex == q.ifindex)
    && (r.proto == PROTO_ANY || r.proto == q.p.protoByte)
    && PortHit(r.dstPortMin, r.dstPortMax, q.p.dstPort)
    && PortHit(r.srcPortMin, r.srcPortMax, q.p.srcPort)
    && Contains(r.src, q.p.srcAddr, q.p.family)
    && Contains(r.dst, q.p.dstAddr, q.p.family)
  }

  /** A rule ends the walk when it matches and its action is not the "nothing chosen" marker. */
  predicate Decides(r: Rule, q: Query) {
    Matches(r, q) && r.action != ACT_NONE
  }

  /** Index of the first deciding rule, or the length of the list. */
  function First(rules: seq<Rule>, q: Query): (i: nat)
    ensures i <= |rules|
    ensures i < |rules| ==> Decides(rules[i], q)
    ensures forall j | 0 <= j < i :: !Decides(rules[j], q)
  {
    if rules == [] then 0
    else if Decides(rules[0], q) then 0
    else 1 + First(rules[1..], q)
  }

  /** The decision of a rule list, with the default policy for packets no rule decides. */
  function Decide(rules: seq<Rule>, q: Query, default: bv8): Decision
    requires |rules| <= RULES_MAX
  {
    var i := First(rules, q);
    if i < |rules| then Decision(rules[i].action, i) else Decision(default, RULE_ID_DEFAULT)
  }

  lemma FirstUnique(rules: seq<Rule>, q: Query, i: nat)
    requires i <= |rules| && (i < |rules| ==> Decides(rules[i], q))
    requires forall j | 0 <= j < i :: !Decides(rules[j], q)
    ensures First(rules, q) == i
  {}

  /** A later rule matters only to packets that no earlier rule decides. */
  lemma FirstConcat(a: seq<Rule>, b: seq<Rule>, q: Query)
    ensures First(a + b, q) == if First(a, q) < |a| then First(a, q) else |a| + First(b, q)
  {
    hide Decides;
    var i := if First(a, q) < |a| then First(a, q) else |a| + First(b, q);
    assert forall j | 0 <= j < i :: !Decides((a + b)[j], q);
    FirstUnique(a + b, q, i);
  }

  /** The three eBPF arrays a walk reads, as one packet finds them. */
  datatype RuleMaps = RuleMaps(slots: Slots, config: GlobalConfig, defaultIn: bv8, defaultOut: bv8)

  function Bank(slots: Slots, bank: nat, count: nat): seq<Rule>
    requires bank < RULE_BANKS && count <= RULES_MAX
  {
    slots[bank * RULES_MAX..bank * RULES_MAX + count]
  }

  /** The slots after the first n rules of a list have been written into a bank. */
  function WriteBank(slots: Slots, bank: nat, list: seq<Rule>, n: nat): Slots
    requires bank < RULE_BANKS && n <= |list| && n <= RULES_MAX
  {
    if n == 0 then slots else WriteBank(slots, bank, list, n - 1)[bank * RULES_MAX + (n - 1) := list[n - 1]]
  }

  lemma {:induction false} WriteBankFills(slots: Slots, bank: nat, list: seq<Rule>, n: nat)
    requires bank < RULE_BANKS && n <= |list| && n <= RULES_MAX
    ensures Bank(WriteBank(slots, bank, list, n), bank, n) == list[..n]
  {
    if n != 0 {
      WriteBankFills(slots, bank, list, n - 1);
      var before, after := WriteBank(slots, bank, list, n - 1), WriteBank(slots, bank, list, n);
      assert Bank(after, bank, n) == Bank(before, bank, n - 1) + [list[n - 1]];
      assert list[..n] == list[..n - 1] + [list[n - 1]];
    }
  }

  /** A list with its first slots overwritten; what lies past its end is not seen. */
  function Spliced(written: seq<Rule>, list: seq<Rule>): (r: seq<Rule>)
    ensures |r| == |list|
    ensures forall i | 0 <= i < |list| :: r[i] == if i < |written| then written[i] else list[i]
  {
    if |written| <= |list| then written + list[|written|..] else written[..|list|]
  }

  /** Writing into a bank that is being read splices the two lists. */
  lemma {:induction false} WriteBankSplices(slots: Slots, bank: nat, list: seq<Rule>, n: nat, count: nat)
    requires bank < RULE_BANKS && n <= |list| && n <= RULES_MAX && count <= RULES_MAX
    ensures Bank(WriteBank(slots, bank, list, n), bank, count) == Spliced(list[..n], Bank(slots, bank, count))
  {
    hide Spliced;
    if n != 0 {
      WriteBankSplices(slots, bank, list, n - 1, count);
      var before, after := WriteBank(slots, bank, list, n - 1), WriteBank(slots, bank, list, n);
      var base := bank * RULES_MAX;
      forall j | 0 <= j < count
        ensures Bank(after, bank, count)[j] == Spliced(list[..n], Bank(slots, bank, count))[j]
      {
        assert j != n - 1 ==> after[base + j] == before[base + j] == Bank(before, bank, count)[j];
      }
    }
  }

  /** Writing one bank leaves the other alone. */
  lemma {:induction false} WriteBankOther(slots: Slots, bank: nat, list: seq<Rule>, n: nat, count: nat)
    requires bank < RULE_BANKS && n <= |list| && n <= RULES_MAX && count <= RULES_MAX
    ensures Bank(WriteBank(slots, bank, list, n), 1 - bank, count) == Bank(slots, 1 - bank, count)
  {
    if n != 0 {
      WriteBankOther(slots, bank, list, n - 1, count);
      var before, after := WriteBank(slots, bank, list, n - 1), WriteBank(slots, bank, list, n);
      assert Bank(after, 1 - bank, count) == Bank(before, 1 - bank, count);
    }
  }

  /** The rules a walk that reads CONFIG now will scan. */
  function Live(m: RuleMaps): (live: seq<Rule>)
    ensures |live| == Min(m.config.ruleCount, RULES_MAX)
  {
    Bank(m.slots, m.config.activeBank % 2, Min(m.config.ruleCount, RULES_MAX))
  }

  function DefaultFor(m: RuleMaps, direction: bv8): bv8 {
    if direction == DIR_IN then m.defaultIn else m.defaultOut
  }

  /** The scanning loop: the first deciding rule of the live bank wins, else the default policy. */
  method WalkRules(m: RuleMaps, q: Query) returns (d: Decision)
    ensures d == Decide(Live(m), q, DefaultFor(m, q.direction))
    ensures d.ruleId < RULES_MAX ==>
      && d.ruleId < m.config.ruleCount
      && Decides(Live(m)[d.ruleId], q) && d.action == Live(m)[d.ruleId].action
      && forall j | 0 <= j < d.ruleId :: !Decides(Live(m)[j], q)
    ensures d.ruleId >= RULES_MAX ==>
      d == Decision(DefaultFor(m, q.direction), RULE_ID_DEFAULT) && forall r <- Live(m) :: !Decides(r, q)
  {
    hide Matches;
    var chosen, matchedId: u32 := ACT_NONE, RULE_ID_DEFAULT;
    var base, count := m.config.activeBank % 2 * RULES_MAX, m.config.ruleCount;
    for i := 0 to RULES_MAX
      invariant chosen == ACT_NONE ==> i <= count && forall j | 0 <= j < i :: !Decides(Live(m)[j], q)
      invariant chosen != ACT_NONE ==>
        && matchedId < i && matchedId < count
        && First(Live(m), q) == matchedId && chosen == Live(m)[matchedId].action
    {
      if chosen != ACT_NONE || i >= count {
        break;
      }
      var rule := m.slots[base + i];
      assert rule == Live(m)[i];
      if Matches(rule, q) {
        chosen := rule.action;
        matchedId := i;
        if chosen != ACT_NONE {
          FirstUnique(Live(m), q, i);
        }
      }
    }
    if chosen == ACT_NONE {
      FirstUnique(Live(m), q, |Live(m)|);
      return Decision(DefaultFor(m, q.direction), RULE_ID_DEFAULT);
    }
    return Decision(chosen, matchedId);
  }
}
