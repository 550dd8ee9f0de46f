/** The link watcher: which interface changes need a re-sync, and what a skipped one preserves. */
module Watcher {
  import opened Common
  import opened Rules
  import opened Wire
  import opened Daemon
  import Laws = DaemonLaws

  /** Names that appeared, disappeared, or changed index or operational state. */
  function Changed(last: IfaceTable, current: IfaceTable): set<string> {
    (set n | n in current && (n !in last || last[n] != current[n])) + (set n | n in last && n !in current)
  }

  predicate Touches(rules: seq<UserRule>, names: set<string>) {
    exists r <- rules :: r.iface.Some? && r.iface.value in names
  }

  /** The poll loop's memory: the snapshot of the previous tick. */
  class LinkWatcher {
    var last: IfaceTable

    constructor (snapshot: IfaceTable)
      ensures last == snapshot
    {
      last := snapshot;
    }

    /** One tick. The answer says whether the rules must be synchronised again. */
    method Tick(current: IfaceTable, rules: seq<UserRule>) returns (resync: bool)
      modifies this
      ensures last == current
      ensures resync == Touches(rules, Changed(old(last), current))
    {
      if current == last {
        assert Changed(last, current) == {};
        return false;
      }
      var changed := Changed(last, current);
      resync := false;
      for i := 0 to |rules|
        invariant resync == Touches(rules[..i], changed)
      {
        assert rules[..i + 1] == rules[..i] + [rules[i]];
        if rules[i].iface.Some? && rules[i].iface.value in changed {
          resync := true;
        }
      }
      assert rules[..|rules|] == rules;
      last := current;
    }
  }

  // ---------------------------------------------------------------------
  // A skipped re-sync loses nothing
  // ---------------------------------------------------------------------

  /** Both tables resolve every interface the rules name to the same index. */
  ghost predicate SameIfaces(a: IfaceTable, b: IfaceTable, rules: seq<UserRule>) {
    forall r <- rules :: ResolveIface(a, r.iface) == ResolveIface(b, r.iface)
  }

  lemma UntouchedSame(last: IfaceTable, current: IfaceTable, rules: seq<UserRule>)
    requires !Touches(rules, Changed(last, current))
    ensures SameIfaces(last, current, rules)
  {
    forall r | r in rules
      ensures ResolveIface(last, r.iface) == ResolveIface(current, r.iface)
    {
      if r.iface.Some? {
        assert r.iface.value !in Changed(last, current);
      }
    }
  }

  function Lookup(table: IfaceTable, name: string): Option<Iface> {
    if name in table then Some(table[name]) else None
  }

  /** A tick re-syncs exactly when some interface named by a rule looks different from before. */
  lemma TouchesExactly(last: IfaceTable, current: IfaceTable, rules: seq<UserRule>)
    ensures Touches(rules, Changed(last, current)) <==>
            exists r <- rules :: r.iface.Some? && Lookup(last, r.iface.value) != Lookup(current, r.iface.value)
  {
    forall n: string
      ensures n in Changed(last, current) <==> Lookup(last, n) != Lookup(current, n)
    {
    }
  }

  /** The index a rule compiled with can be read back from it. */
  lemma BuildKeepsIfindex(t: Texts, r: UserRule, i: u32, j: u32)
    requires BuildWireRule(t, r, i).Ok?
    ensures BuildWireRule(t, r, j).Ok? && BuildWireRule(t, r, i).value.ifaceIfindex == i
    ensures BuildWireRule(t, r, i) == BuildWireRule(t, r, j) <==> i == j
  {}

  lemma RuleSeesIface(t: Texts, a: IfaceTable, b: IfaceTable, r: UserRule)
    ensures CompileRule(t, a, r).Ok? <==> CompileRule(t, b, r).Ok?
    ensures CompileRule(t, a, r).Ok? ==>
      (CompileRule(t, a, r) == CompileRule(t, b, r) <==> ResolveIface(a, r.iface) == ResolveIface(b, r.iface))
  {
    hide BuildWireRule, ResolveIface;
    var i, j := ResolveIface(a, r.iface), ResolveIface(b, r.iface);
    if BuildWireRule(t, r, i).Ok? {
      BuildKeepsIfindex(t, r, i, j);
    } else if BuildWireRule(t, r, j).Ok? {
      BuildKeepsIfindex(t, r, j, i);
    }
  }

  /** Two tables compile a list to the same wire rules exactly when they agree on the interfaces it names. */
  lemma CompileSeesIfaces(t: Texts, a: IfaceTable, b: IfaceTable, rules: seq<UserRule>)
    ensures Compile(t, a, rules).Ok? <==> Compile(t, b, rules).Ok?
    ensures Compile(t, a, rules).Ok? ==> (Compile(t, a, rules) == Compile(t, b, rules) <==> SameIfaces(a, b, rules))
  {
    hide CompileRule, ResolveIface, Compile;
    forall r | r in rules
      ensures CompileRule(t, a, r).Ok? <==> CompileRule(t, b, r).Ok?
      ensures CompileRule(t, a, r).Ok? ==>
        (CompileRule(t, a, r) == CompileRule(t, b, r) <==> ResolveIface(a, r.iface) == ResolveIface(b, r.iface))
    {
      RuleSeesIface(t, a, b, r);
    }
    var ca, cb := Compile(t, a, rules), Compile(t, b, rules);
    if ca.Ok? && SameIfaces(a, b, rules) {
      CompileUnique(t, b, rules, ca.value);
    }
  }

  /** If no changed name is referenced, recompiling against the new snapshot gives the very same wire rules. */
  lemma SkipIsExact(t: Texts, last: IfaceTable, current: IfaceTable, rules: seq<UserRule>)
    requires !Touches(rules, Changed(last, current))
    ensures Compile(t, current, rules) == Compile(t, last, rules)
  {
    hide Touches, Changed, SameIfaces, Compile;
    UntouchedSame(last, current, rules);
    CompileSeesIfaces(t, last, current, rules);
  }

  // ---------------------------------------------------------------------
  // Runs of ticks and control requests
  // ---------------------------------------------------------------------

  /** The watcher's memory and the daemon it shares the maps with. */
  datatype Watch = Watch(last: IfaceTable, daemon: State)

  /**
   * A tick polls the interfaces, and re-syncs against what it polled; a request synchronises against the
   * interfaces of its own moment. Any of their writes may fail.
   */
  datatype Event = Poll(current: IfaceTable, faults: Faults) | Control(req: Request, table: IfaceTable, faults: Faults)

  predicate Resyncs(w: Watch, current: IfaceTable) {
    Touches(w.daemon.store.rules, Changed(w.last, current))
  }

  /** The tick remembers what it saw, also when its re-sync fails. */
  function OnEvent(t: Texts, w: Watch, e: Event): (w': Watch)
    requires w.daemon.activeBank <= 1
    ensures w'.daemon.activeBank <= 1
  {
    match e
    case Poll(current, f) =>
      Watch(current, if Resyncs(w, current) then SyncRules(Host(t, current), w.daemon, f).state else w.daemon)
    case Control(req, table, f) => Watch(w.last, Handle(Host(t, table), w.daemon, req, f).state)
  }

  ghost function OnEvents(t: Texts, w: Watch, events: seq<Event>): (w': Watch)
    requires w.daemon.activeBank <= 1
    ensures w'.daemon.activeBank <= 1
    decreases |events|
  {
    if events == [] then w else OnEvents(t, OnEvent(t, w, events[0]), events[1..])
  }

  /** The live bank is what a full recompilation of the stored rules against `table` would give. */
  ghost predicate Current(t: Texts, s: State, table: IfaceTable) {
    && Compile(t, table, s.store.rules).Ok?
    && Live(s.maps) == Capped(Compile(t, table, s.store.rules).value)
  }

  /** A bank that is current for one table is current for another exactly when the two agree on its interfaces. */
  lemma CurrentSeesIfaces(t: Texts, s: State, a: IfaceTable, b: IfaceTable)
    requires Current(t, s, a)
    ensures Current(t, s, b) <==> SameIfaces(a, b, Capped(s.store.rules))
  {
    hide Compile, SameIfaces, Live, Capped;
    CompileSeesIfaces(t, a, b, s.store.rules);
    Laws.CompileCapped(Host(t, a), s.store.rules);
    Laws.CompileCapped(Host(t, b), s.store.rules);
    CompileSeesIfaces(t, a, b, Capped(s.store.rules));
  }

  lemma SyncedIsCurrent(t: Texts, s: State, table: IfaceTable, f: Faults)
    requires s.activeBank <= 1 && SyncRules(Host(t, table), s, f).ok
    ensures Current(t, SyncRules(Host(t, table), s, f).state, table)
  {
    hide SyncRules, Compile, Live;
    Laws.SyncRulesOk(Host(t, table), s, f);
  }

  /**
   * A tick leaves the live bank up to date exactly when its re-sync succeeds or the last sync, against
   * `synced`, saw the same interfaces.
   */
  lemma TickExact(t: Texts, w: Watch, synced: IfaceTable, current: IfaceTable, f: Faults)
    requires Laws.TwoBanks(w.daemon) && Laws.InStep(w.daemon) && Current(t, w.daemon, synced)
    ensures Current(t, OnEvent(t, w, Poll(current, f)).daemon, current) <==>
            || (Resyncs(w, current) && SyncRules(Host(t, current), w.daemon, f).ok)
            || SameIfaces(synced, current, Capped(w.daemon.store.rules))
  {
    hide Resyncs, SyncRules, SameIfaces, Compile, Live, Capped;
    CurrentSeesIfaces(t, w.daemon, synced, current);
    if SyncRules(Host(t, current), w.daemon, f).ok {
      SyncedIsCurrent(t, w.daemon, current, f);
    } else {
      Laws.FailedSyncKeepsLive(Host(t, current), w.daemon, f);
    }
  }

  /** The tick's re-sync, if it needs one, succeeds. */
  ghost predicate SmoothTick(t: Texts, w: Watch, current: IfaceTable, f: Faults)
    requires w.daemon.activeBank <= 1
  {
    Resyncs(w, current) ==> SyncRules(Host(t, current), w.daemon, f).ok
  }

  /** The request is refused outright, or succeeds against the interfaces the previous tick saw. */
  ghost predicate SmoothRequest(t: Texts, w: Watch, req: Request, table: IfaceTable, f: Faults)
    requires w.daemon.activeBank <= 1
  {
    var o := Handle(Host(t, table), w.daemon, req, f);
    Edit(w.daemon.store, req).Err? || (o.ok && SameIfaces(table, w.last, o.state.store.rules))
  }

  ghost predicate Smooth(t: Texts, w: Watch, events: seq<Event>)
    requires w.daemon.activeBank <= 1
    decreases |events|
  {
    events != [] ==>
      && (match events[0]
          case Poll(current, f) => SmoothTick(t, w, current, f)
          case Control(req, table, f) => SmoothRequest(t, w, req, table, f))
      && Smooth(t, OnEvent(t, w, events[0]), events[1..])
  }

  lemma TickKeepsCurrent(t: Texts, w: Watch, current: IfaceTable, f: Faults)
    requires w.daemon.activeBank <= 1 && Current(t, w.daemon, w.last) && SmoothTick(t, w, current, f)
    ensures Current(t, OnEvent(t, w, Poll(current, f)).daemon, current)
  {
    hide SyncRules, Compile, Live, Touches, Changed;
    if Resyncs(w, current) {
      SyncedIsCurrent(t, w.daemon, current, f);
    } else {
      SkipIsExact(t, w.last, current, w.daemon.store.rules);
    }
  }

  lemma RequestKeepsCurrent(t: Texts, w: Watch, req: Request, table: IfaceTable, f: Faults)
    requires w.daemon.activeBank <= 1 && Current(t, w.daemon, w.last) && SmoothRequest(t, w, req, table, f)
    ensures Current(t, OnEvent(t, w, Control(req, table, f)).daemon, w.last)
  {
    var o := Handle(Host(t, table), w.daemon, req, f);
    if Edit(w.daemon.store, req).Err? {
      hide Edit, Live, Compile;
    } else {
      hide Handle, Compile, Live, SameIfaces;
      Laws.OkMeansSynced(Host(t, table), w.daemon, req, f);
      CompileSeesIfaces(t, table, w.last, o.state.store.rules);
    }
  }

  /** In every smooth run the live bank always equals full recompilation against the last snapshot. */
  lemma {:induction false} WatcherKeepsCurrent(t: Texts, w: Watch, events: seq<Event>)
    requires w.daemon.activeBank <= 1 && Current(t, w.daemon, w.last) && Smooth(t, w, events)
    ensures var w' := OnEvents(t, w, events); Current(t, w'.daemon, w'.last)
    decreases |events|
  {
    hide Current, SmoothTick, SmoothRequest, SyncRules, Handle;
    if events != [] {
      match events[0] {
        case Poll(current, f) => TickKeepsCurrent(t, w, current, f);
        case Control(req, table, f) => RequestKeepsCurrent(t, w, req, table, f);
      }
      WatcherKeepsCurrent(t, OnEvent(t, w, events[0]), events[1..]);
    }
  }

  // ---------------------------------------------------------------------
  // Runs that are not smooth
  // ---------------------------------------------------------------------

  lemma QuietTick(t: Texts, w: Watch, f: Faults)
    requires w.daemon.activeBank <= 1
    ensures OnEvent(t, w, Poll(w.last, f)) == w
  {
    hide SyncRules;
    assert Changed(w.last, w.last) == {};
  }

  function Polls(table: IfaceTable, faults: seq<Faults>): seq<Event> {
    seq(|faults|, i requires 0 <= i < |faults| => Poll(table, faults[i]))
  }

  lemma {:induction false} QuietTicks(t: Texts, w: Watch, faults: seq<Faults>)
    requires w.daemon.activeBank <= 1
    ensures OnEvents(t, w, Polls(w.last, faults)) == w
    decreases |faults|
  {
    hide OnEvent;
    if faults != [] {
      QuietTick(t, w, faults[0]);
      assert Polls(w.last, faults)[1..] == Polls(w.last, faults[1..]);
      QuietTicks(t, w, faults[1..]);
    }
  }

  /**
   * A failed re-sync is never retried: the tick has remembered the new snapshot, so as long as the interfaces
   * stay as they are no later tick sees a change, and the live bank keeps the old indices.
   */
  lemma FailedResyncIsForgotten(t: Texts, w: Watch, current: IfaceTable, f: Faults, later: seq<Faults>)
    requires Laws.TwoBanks(w.daemon) && Laws.InStep(w.daemon) && Current(t, w.daemon, w.last)
    requires Resyncs(w, current) && !SyncRules(Host(t, current), w.daemon, f).ok
    ensures var w' := OnEvents(t, OnEvent(t, w, Poll(current, f)), Polls(current, later));
      && Live(w'.daemon.maps) == Live(w.daemon.maps)
      && (Current(t, w'.daemon, current) <==> SameIfaces(w.last, current, Capped(w.daemon.store.rules)))
  {
    hide Resyncs, SyncRules, SameIfaces, Current, Live, Polls, Capped;
    TickExact(t, w, w.last, current, f);
    Laws.FailedSyncKeepsLive(Host(t, current), w.daemon, f);
    QuietTicks(t, OnEvent(t, w, Poll(current, f)), later);
  }

  /**
   * The watcher can miss a flap: a request adds a rule while its interface is down, the interface comes back
   * before the next tick, the tick sees no change, and the rule stays disabled.
   */
  lemma FlapIsMissed(t: Texts, w: Watch, r: UserRule, name: string, down: IfaceTable, f: Faults, g: Faults)
    requires r.iface == Some(name) && name !in down
    requires name in w.last && w.last[name].up && RealIfindex(w.last[name].ifindex)
    requires w.daemon.activeBank <= 1 && Handle(Host(t, down), w.daemon, AddRule(r), f).ok
    ensures var w' := OnEvent(t, OnEvent(t, w, Control(AddRule(r), down, f)), Poll(w.last, g));
      && w'.last == w.last && !Current(t, w'.daemon, w.last)
      && var live := Live(w'.daemon.maps);
      && live != [] && live[|live| - 1].ifaceIfindex == IFACE_ABSENT
  {
    hide Handle, SyncRules, Compile, CompileRule, Live, ConfigFor;
    var s := Handle(Host(t, down), w.daemon, AddRule(r), f).state;
    Laws.OkMeansSynced(Host(t, down), w.daemon, AddRule(r), f);
    QuietTick(t, Watch(w.last, s), g);
    CurrentSeesIfaces(t, s, down, w.last);
    assert r in Capped(s.store.rules);
    CompiledIfindex(t, down, r);
  }

  lemma CompiledIfindex(t: Texts, table: IfaceTable, r: UserRule)
    requires CompileRule(t, table, r).Ok?
    ensures CompileRule(t, table, r).value.ifaceIfindex == ResolveIface(table, r.iface)
  {}
}
