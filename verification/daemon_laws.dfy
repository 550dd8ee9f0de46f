/** What control requests keep, publish and change, over whole sequences of requests. */
module DaemonLaws {
  import opened Common
  import opened Rules
  import opened Wire
  import opened Packet
  import opened DataPath
  import opened Daemon

  // ---------------------------------------------------------------------
  // Synchronised states
  // ---------------------------------------------------------------------

  /** CONFIG and the live bank are the image of a store; the default policies are not spoken of. */
  ghost predicate Publishes(h: Host, m: RuleMaps, store: Store) {
    && m.config.activeBank <= 1
    && Compile(h.texts, h.table, store.rules).Ok?
    && m.config == ConfigFor(store, m.config.activeBank)
    && Live(m) == Capped(Compile(h.texts, h.table, store.rules).value)
  }

  ghost predicate PublishesDefaults(m: RuleMaps, store: Store) {
    m.defaultIn == ActionByte(store.defaultIn) && m.defaultOut == ActionByte(store.defaultOut)
  }

  /** Bank numbers are 0 or 1, in CONFIG and in the daemon. */
  ghost predicate TwoBanks(s: State) {
    s.activeBank <= 1 && s.maps.config.activeBank <= 1
  }

  /** The bank the daemon takes to be live is the one CONFIG names. */
  ghost predicate InStep(s: State) {
    s.maps.config.activeBank == s.activeBank
  }

  ghost predicate Synced(h: Host, s: State) {
    TwoBanks(s) && InStep(s) && Publishes(h, s.maps, s.store) && PublishesDefaults(s.maps, s.store)
  }

  /** The compilation of the capped list is the capped compilation. */
  lemma CompileCapped(h: Host, rules: seq<UserRule>)
    requires Compile(h.texts, h.table, rules).Ok?
    ensures Compile(h.texts, h.table, Capped(rules)) == Ok(Capped(Compile(h.texts, h.table, rules).value))
  {
    hide CompileRule, Compile;
    CompileUnique(h.texts, h.table, Capped(rules), Capped(Compile(h.texts, h.table, rules).value));
  }

  /** A bank written in full and flipped in is what the next walk reads. */
  lemma FlippedIsLive(m: RuleMaps, slots: Slots, bank: nat, ws: seq<Rule>)
    requires bank <= 1 && m.config.activeBank == bank && m.config.ruleCount == |Capped(ws)|
    requires m.slots == WriteBank(slots, bank, ws, |Capped(ws)|)
    ensures Live(m) == Capped(ws)
  {
    hide WriteBank, Bank;
    WriteBankFills(slots, bank, ws, |Capped(ws)|);
    assert ws[..|Capped(ws)|] == Capped(ws);
  }

  lemma SyncRulesOk(h: Host, s: State, f: Faults)
    requires s.activeBank <= 1 && SyncRules(h, s, f).ok
    ensures var s' := SyncRules(h, s, f).state;
      && TwoBanks(s') && InStep(s') && Publishes(h, s'.maps, s.store)
      && s'.store == s.store && s'.maps.defaultIn == s.maps.defaultIn && s'.maps.defaultOut == s.maps.defaultOut
  {
    hide Compile, NeedsConntrack, WriteBank, Live;
    var ws := Compile(h.texts, h.table, s.store.rules).value;
    FlippedIsLive(SyncRules(h, s, f).state.maps, s.maps.slots, 1 - s.activeBank, ws);
  }

  /** A request that answers Ok leaves every map equal to the compilation of what is stored. */
  lemma OkMeansSynced(h: Host, s: State, req: Request, f: Faults)
    requires s.activeBank <= 1 && Handle(h, s, req, f).ok
    ensures Synced(h, Handle(h, s, req, f).state)
    ensures Edit(s.store, req) == Ok(Handle(h, s, req, f).state.store)
  {
    hide SyncRules, Compile, Live, Edit, ConfigFor;
    var s1 := s.(store := Edit(s.store, req).value);
    SyncRulesOk(h, SyncDefaults(s1, f).state, f);
  }

  // ---------------------------------------------------------------------
  // What each request does
  // ---------------------------------------------------------------------

  /** One to fifteen characters, none of them a slash, a space or NUL. */
  ghost predicate GoodName(name: string) {
    1 <= |name| <= 15 && forall c <- name :: c != '/' && c != ' ' && c != '\0'
  }

  /** The requests that are not refused outright. Rules are numbered from 1. */
  ghost predicate Accepted(store: Store, req: Request) {
    match req
    case AddRule(r) => |store.rules| < 256 && (r.iface.Some? ==> GoodName(r.iface.value))
    case DeleteRule(i) => 1 <= i <= |store.rules|
    case _ => true
  }

  /** The rules are those of before, in order, but for the one at index i. */
  ghost predicate Removed(before: seq<UserRule>, i: nat, after: seq<UserRule>) {
    && i < |before| && |after| == |before| - 1
    && (forall j | 0 <= j < i :: after[j] == before[j])
    && (forall j | i <= j < |after| :: after[j] == before[j + 1])
  }

  /** What an accepted request changes in the store, and nothing else. */
  ghost predicate Edited(before: Store, req: Request, after: Store) {
    match req
    case AddRule(r) => after.rules == before.rules + [r] && after == before.(rules := after.rules)
    case DeleteRule(i) => i > 0 && Removed(before.rules, i - 1, after.rules) && after == before.(rules := after.rules)
    case SetDefault(In, a) => after.defaultIn == a && after == before.(defaultIn := a)
    case SetDefault(Out, a) => after.defaultOut == a && after == before.(defaultOut := a)
    case SetLogging(b) => after.logging == b && after == before.(logging := b)
    case Reset => after.rules == [] && after.defaultIn == Allow && after.defaultOut == Allow && !after.logging
  }

  lemma EditExactly(store: Store, req: Request)
    ensures Edit(store, req).Ok? <==> Accepted(store, req)
    ensures Edit(store, req).Ok? ==> Edited(store, req, Edit(store, req).value)
  {}

  /**
   * A refused request changes nothing at all. An accepted one makes its edit, also when it goes on to fail,
   * and edits exactly its own part of the store.
   */
  lemma RequestExactly(h: Host, s: State, req: Request, f: Faults)
    requires s.activeBank <= 1
    ensures var o := Handle(h, s, req, f);
      if Accepted(s.store, req) then Edited(s.store, req, o.state.store) else o == Outcome(s, false)
  {
    hide Edit, Edited, Accepted, SyncRules;
    EditExactly(s.store, req);
    if Edit(s.store, req).Ok? {
      StoreAfter(h, s, req, f);
    }
  }

  /** No write fails that a request over n rules gets to make. */
  ghost predicate NoFaults(f: Faults, n: nat) {
    !f.save && !f.defaultIn && !f.defaultOut && !f.config && (f.slot.Some? ==> f.slot.value >= n)
  }

  lemma CompileExactly(h: Host, rules: seq<UserRule>)
    ensures Compile(h.texts, h.table, rules).Ok? <==> forall r <- rules :: Compilable(h.texts, r)
  {
    hide Compile, CompileRule, Compilable;
    forall r | r in rules
      ensures CompileRule(h.texts, h.table, r).Ok? <==> Compilable(h.texts, r)
    {
      CompilesExactly(h.texts, h.table, r);
    }
  }

  /** A request answers Ok iff it is accepted, every rule then stored is well-formed and no write fails. */
  lemma AnswersOkExactly(h: Host, s: State, req: Request, f: Faults)
    requires s.activeBank <= 1
    ensures var o := Handle(h, s, req, f);
      o.ok <==>
        && Accepted(s.store, req)
        && NoFaults(f, Min(|o.state.store.rules|, 256))
        && forall r <- o.state.store.rules :: Compilable(h.texts, r)
  {
    hide Edit, Accepted, Compile, Compilable, NeedsConntrack, WriteBank;
    EditExactly(s.store, req);
    if Edit(s.store, req).Ok? {
      StoreAfter(h, s, req, f);
      CompileExactly(h, Edit(s.store, req).value.rules);
    }
  }

  // ---------------------------------------------------------------------
  // Requests that fail
  // ---------------------------------------------------------------------

  /** The wire rules a request sets out to write, if it gets as far as the slots. */
  function Compiled(h: Host, s: State, req: Request, f: Faults): Result<seq<Rule>> {
    match Edit(s.store, req)
    case Err => Err
    case Ok(store) =>
      if f.save || f.defaultIn || f.defaultOut then Err else Compile(h.texts, h.table, store.rules)
  }

  /** The wire rules it does write. */
  function Written(h: Host, s: State, req: Request, f: Faults): seq<Rule> {
    match Compiled(h, s, req, f)
    case Err => []
    case Ok(ws) => ws[..SlotsWritten(|Capped(ws)|, f)]
  }

  predicate ReachesConfig(h: Host, s: State, req: Request, f: Faults) {
    match Compiled(h, s, req, f)
    case Err => false
    case Ok(ws) => SlotsWritten(|Capped(ws)|, f) == |Capped(ws)|
  }

  /** What one request does to the rule maps, whatever fails. */
  lemma HandleMaps(h: Host, s: State, req: Request, f: Faults)
    requires TwoBanks(s)
    ensures var o := Handle(h, s, req, f);
      && TwoBanks(o.state)
      && (o.ok <==> ReachesConfig(h, s, req, f) && !f.config)
      && (o.state.activeBank == if ReachesConfig(h, s, req, f) then 1 - s.activeBank else s.activeBank)
      && (!o.ok ==>
            && o.state.maps.config == s.maps.config
            && o.state.maps.slots ==
               if Compiled(h, s, req, f).Err? then s.maps.slots
               else WriteBank(s.maps.slots, 1 - s.activeBank, Compiled(h, s, req, f).value, |Written(h, s, req, f)|))
  {
    hide Edit, Compile, NeedsConntrack, WriteBank;
  }

  /**
   * After a request the daemon is in step if and only if it reached its CONFIG write and either that write
   * went through or the daemon was out of step before, or else it did not reach it and was in step before.
   */
  lemma InStepExactly(h: Host, s: State, req: Request, f: Faults)
    requires TwoBanks(s)
    ensures InStep(Handle(h, s, req, f).state) <==>
            if ReachesConfig(h, s, req, f) then !f.config || !InStep(s) else InStep(s)
  {
    hide Handle, ReachesConfig, WriteBank;
    HandleMaps(h, s, req, f);
    if Handle(h, s, req, f).ok {
      OkMeansSynced(h, s, req, f);
    }
  }

  /**
   * A failed request never touches CONFIG. In step it touches no live slot either; out of step it writes
   * straight into the live bank, and what packets then meet is a splice of two lists.
   */
  lemma FailedSplices(h: Host, s: State, req: Request, f: Faults)
    requires TwoBanks(s) && !Handle(h, s, req, f).ok
    ensures var m := Handle(h, s, req, f).state.maps;
      && m.config == s.maps.config
      && Live(m) == if InStep(s) then Live(s.maps) else Spliced(Written(h, s, req, f), Live(s.maps))
  {
    hide Handle, Compiled, WriteBank, Bank, Spliced;
    HandleMaps(h, s, req, f);
    var c, k := Compiled(h, s, req, f), |Written(h, s, req, f)|;
    if c.Ok? && InStep(s) {
      WriteBankOther(s.maps.slots, 1 - s.activeBank, c.value, k, |Live(s.maps)|);
    } else if c.Ok? {
      WriteBankSplices(s.maps.slots, 1 - s.activeBank, c.value, k, |Live(s.maps)|);
    } else {
      NothingSpliced(Live(s.maps));
    }
  }

  /** The same for a re-sync on its own: failing in step, it changes no live slot. */
  lemma FailedSyncKeepsLive(h: Host, s: State, f: Faults)
    requires TwoBanks(s) && InStep(s) && !SyncRules(h, s, f).ok
    ensures var s' := SyncRules(h, s, f).state; s'.store == s.store && Live(s'.maps) == Live(s.maps)
  {
    hide Compile, NeedsConntrack, WriteBank, Bank;
    var c := Compile(h.texts, h.table, s.store.rules);
    if c.Ok? {
      WriteBankOther(s.maps.slots, 1 - s.activeBank, c.value, SlotsWritten(|Capped(c.value)|, f), |Live(s.maps)|);
    }
  }

  lemma NothingSpliced(list: seq<Rule>)
    ensures Spliced([], list) == list
  {}

  /** A request that fails in step, before the flip or at it, changes neither CONFIG nor any live slot. */
  lemma FailedKeepsLive(h: Host, s: State, req: Request, f: Faults)
    requires TwoBanks(s) && InStep(s) && !Handle(h, s, req, f).ok
    ensures var s' := Handle(h, s, req, f).state;
      && s'.maps.config == s.maps.config && Live(s'.maps) == Live(s.maps)
      && (s'.activeBank == s.activeBank <==> !ReachesConfig(h, s, req, f))
  {
    hide Handle, ReachesConfig, Live;
    HandleMaps(h, s, req, f);
    FailedSplices(h, s, req, f);
  }

  /** AddRule never takes the list past the limit. */
  lemma AddRuleRespectsLimit(h: Host, s: State, r: UserRule, f: Faults)
    requires s.activeBank <= 1
    ensures var after := Handle(h, s, AddRule(r), f).state.store.rules;
      after != s.store.rules ==> |after| <= RULES_MAX
  {
    hide SyncRules, Compile;
    SyncRulesKeepsStore(h, SyncDefaults(s.(store := s.store.(rules := s.store.rules + [r])), f).state, f);
  }

  lemma SyncRulesKeepsStore(h: Host, s: State, f: Faults)
    requires s.activeBank <= 1
    ensures var s' := SyncRules(h, s, f).state;
      && s'.store == s.store && s'.activeBank <= 1
      && s'.maps.defaultIn == s.maps.defaultIn && s'.maps.defaultOut == s.maps.defaultOut
  {
    hide Compile, NeedsConntrack;
  }

  // ---------------------------------------------------------------------
  // Sequences of requests
  // ---------------------------------------------------------------------

  datatype Call = Call(req: Request, faults: Faults)

  ghost function RunAll(h: Host, s: State, calls: seq<Call>): (s': State)
    requires s.activeBank <= 1
    ensures s'.activeBank <= 1
    decreases |calls|
  {
    if calls == [] then s
    else RunAll(h, Handle(h, s, calls[0].req, calls[0].faults).state, calls[1..])
  }

  /** The store as it was when a request last answered Ok, or `last` if none did. */
  ghost function LastOk(h: Host, s: State, calls: seq<Call>, last: Store): Store
    requires s.activeBank <= 1
    decreases |calls|
  {
    if calls == [] then last
    else
      var o := Handle(h, s, calls[0].req, calls[0].faults);
      LastOk(h, o.state, calls[1..], if o.ok then o.state.store else last)
  }

  /** CONFIG writes that failed since the last one that went through, on top of `missed`. */
  ghost function MissedFlips(h: Host, s: State, calls: seq<Call>, missed: nat): nat
    requires s.activeBank <= 1
    decreases |calls|
  {
    if calls == [] then missed
    else
      var c := calls[0];
      var missed' :=
        if !ReachesConfig(h, s, c.req, c.faults) then missed else if c.faults.config then missed + 1 else 0;
      MissedFlips(h, Handle(h, s, c.req, c.faults).state, calls[1..], missed')
  }

  /** Over every sequence of requests, the daemon is in step exactly when it has missed an even number of flips. */
  lemma {:induction false} InStepIsParity(h: Host, s: State, calls: seq<Call>, missed: nat)
    requires TwoBanks(s) && (InStep(s) <==> missed % 2 == 0)
    ensures InStep(RunAll(h, s, calls)) <==> MissedFlips(h, s, calls, missed) % 2 == 0
    decreases |calls|
  {
    hide Handle, ReachesConfig, InStep;
    if calls != [] {
      var c := calls[0];
      InStepExactly(h, s, c.req, c.faults);
      HandleMaps(h, s, c.req, c.faults);
      var missed' :=
        if !ReachesConfig(h, s, c.req, c.faults) then missed else if c.faults.config then missed + 1 else 0;
      InStepIsParity(h, Handle(h, s, c.req, c.faults).state, calls[1..], missed');
    }
  }

  /** The slots a request gets to write hold what is live there already. */
  ghost predicate Repeats(written: seq<Rule>, live: seq<Rule>) {
    forall i | 0 <= i < |written| && i < |live| :: written[i] == live[i]
  }

  /** A request that fails while the daemon is out of step, having written something new. */
  ghost predicate Damages(h: Host, s: State, c: Call) {
    && !InStep(s)
    && !(ReachesConfig(h, s, c.req, c.faults) && !c.faults.config)
    && !Repeats(Written(h, s, c.req, c.faults), Live(s.maps))
  }

  lemma SplicedSame(written: seq<Rule>, list: seq<Rule>)
    ensures Spliced(written, list) == list <==> Repeats(written, list)
  {
    if Repeats(written, list) {
      assert forall i | 0 <= i < |list| :: Spliced(written, list)[i] == list[i];
    } else {
      var i :| 0 <= i < |written| && i < |list| && written[i] != list[i];
      assert Spliced(written, list)[i] != list[i];
    }
  }

  /** One request keeps "live is the store of the last Ok" exactly when it does no damage. */
  lemma CallKeepsLastOk(h: Host, s: State, c: Call, last: Store)
    requires TwoBanks(s) && Publishes(h, s.maps, last)
    ensures var o := Handle(h, s, c.req, c.faults);
      Publishes(h, o.state.maps, if o.ok then o.state.store else last) <==> !Damages(h, s, c)
  {
    hide Handle, ReachesConfig, Written, Compile, Live, Repeats, ConfigFor;
    HandleMaps(h, s, c.req, c.faults);
    if Handle(h, s, c.req, c.faults).ok {
      OkMeansSynced(h, s, c.req, c.faults);
    } else {
      FailedSplices(h, s, c.req, c.faults);
      SplicedSame(Written(h, s, c.req, c.faults), Live(s.maps));
    }
  }

  /** At every moment of the run the data path has the compilation of the store of the last Ok request. */
  ghost predicate AlwaysLastOk(h: Host, s: State, calls: seq<Call>, last: Store)
    requires s.activeBank <= 1
    decreases |calls|
  {
    && Publishes(h, s.maps, last)
    && (calls != [] ==>
          var o := Handle(h, s, calls[0].req, calls[0].faults);
          AlwaysLastOk(h, o.state, calls[1..], if o.ok then o.state.store else last))
  }

  ghost predicate NeverDamaged(h: Host, s: State, calls: seq<Call>)
    requires s.activeBank <= 1
    decreases |calls|
  {
    calls != [] ==>
      && !Damages(h, s, calls[0])
      && NeverDamaged(h, Handle(h, s, calls[0].req, calls[0].faults).state, calls[1..])
  }

  /**
   * Over every sequence of requests, with any writes failing, the data path runs the complete compilation of
   * the store of the last Ok request all the time if and only if no request does damage.
   */
  lemma {:induction false} LiveIsLastOk(h: Host, s: State, calls: seq<Call>, last: Store)
    requires TwoBanks(s) && Publishes(h, s.maps, last)
    ensures AlwaysLastOk(h, s, calls, last) <==> NeverDamaged(h, s, calls)
    ensures NeverDamaged(h, s, calls) ==> Publishes(h, RunAll(h, s, calls).maps, LastOk(h, s, calls, last))
    decreases |calls|
  {
    hide Handle, Publishes, Damages;
    if calls != [] {
      var c := calls[0];
      var o := Handle(h, s, c.req, c.faults);
      HandleMaps(h, s, c.req, c.faults);
      CallKeepsLastOk(h, s, c, last);
      if !Damages(h, s, c) {
        LiveIsLastOk(h, o.state, calls[1..], if o.ok then o.state.store else last);
      } else {
        assert !Publishes(h, o.state.maps, if o.ok then o.state.store else last);
        NotAlways(h, o.state, calls[1..], if o.ok then o.state.store else last);
      }
    }
  }

  lemma NotAlways(h: Host, s: State, calls: seq<Call>, last: Store)
    requires s.activeBank <= 1 && !Publishes(h, s.maps, last)
    ensures !AlwaysLastOk(h, s, calls, last)
  {
    hide Publishes;
  }

  ghost predicate ConfigWritesSucceed(calls: seq<Call>) {
    forall c <- calls :: !c.faults.config
  }

  /** In particular nothing is ever damaged while CONFIG writes go through. */
  lemma {:induction false} ConfigWritesProtect(h: Host, s: State, calls: seq<Call>)
    requires TwoBanks(s) && InStep(s) && ConfigWritesSucceed(calls)
    ensures NeverDamaged(h, s, calls) && InStep(RunAll(h, s, calls))
    decreases |calls|
  {
    hide Handle, ReachesConfig, Written;
    if calls != [] {
      var c := calls[0];
      HandleMaps(h, s, c.req, c.faults);
      InStepExactly(h, s, c.req, c.faults);
      ConfigWritesProtect(h, Handle(h, s, c.req, c.faults).state, calls[1..]);
    }
  }

  // ---------------------------------------------------------------------
  // Default policies
  // ---------------------------------------------------------------------

  /** The request gets past its write of this direction's default policy. */
  predicate WritesDefault(s: State, c: Call, dir: Direction) {
    Edit(s.store, c.req).Ok? && !c.faults.save && !c.faults.defaultIn && (dir == Out ==> !c.faults.defaultOut)
  }

  function StoredDefault(store: Store, dir: Direction): Action {
    match dir
    case In => store.defaultIn
    case Out => store.defaultOut
  }

  /** The default policy stored when a request last got past writing it, or `last` if none did. */
  ghost function LastDefault(h: Host, s: State, calls: seq<Call>, dir: Direction, last: Action): Action
    requires s.activeBank <= 1
    decreases |calls|
  {
    if calls == [] then last
    else
      var c := calls[0];
      var s' := Handle(h, s, c.req, c.faults).state;
      LastDefault(h, s', calls[1..], dir, if WritesDefault(s, c, dir) then StoredDefault(s'.store, dir) else last)
  }

  lemma DefaultAfter(h: Host, s: State, c: Call, dir: Direction)
    requires s.activeBank <= 1
    ensures var s' := Handle(h, s, c.req, c.faults).state;
      && s'.activeBank <= 1
      && DefaultFor(s'.maps, DirectionByte(dir)) ==
         if WritesDefault(s, c, dir) then ActionByte(StoredDefault(s'.store, dir))
         else DefaultFor(s.maps, DirectionByte(dir))
  {
    hide SyncRules, Edit;
    var e := Edit(s.store, c.req);
    if e.Ok? {
      SyncRulesKeepsStore(h, SyncDefaults(s.(store := e.value), c.faults).state, c.faults);
    }
  }

  /**
   * Default policies are published apart from the rules: over every sequence of requests the live default is
   * that of the last request that got past writing it, whether or not that request went on to answer Ok.
   */
  lemma {:induction false} DefaultIsLastWritten(h: Host, s: State, calls: seq<Call>, dir: Direction, last: Action)
    requires s.activeBank <= 1 && DefaultFor(s.maps, DirectionByte(dir)) == ActionByte(last)
    ensures DefaultFor(RunAll(h, s, calls).maps, DirectionByte(dir)) == ActionByte(LastDefault(h, s, calls, dir, last))
    decreases |calls|
  {
    hide Handle, WritesDefault, DefaultFor;
    if calls != [] {
      var c := calls[0];
      var s' := Handle(h, s, c.req, c.faults).state;
      DefaultAfter(h, s, c, dir);
      var last' := if WritesDefault(s, c, dir) then StoredDefault(s'.store, dir) else last;
      DefaultIsLastWritten(h, s', calls[1..], dir, last');
    }
  }

  // ---------------------------------------------------------------------
  // What a synchronised data path does
  // ---------------------------------------------------------------------

  /** The rule walk a packet would get from these maps. */
  function WalkResult(m: RuleMaps, q: Query): Decision {
    Decide(Live(m), q, DefaultFor(m, q.direction))
  }

  function DefaultAction(store: Store, direction: bv8): Action {
    if direction == DIR_IN then store.defaultIn else store.defaultOut
  }

  /** From the operator's text to the kernel's verdict: the walk gives what the stored rules mean. */
  lemma SyncedMeansStored(h: Host, s: State, q: Query)
    requires Synced(h, s) && RealTable(h.table) && RealIfindex(q.ifindex)
    ensures WalkResult(s.maps, q).action ==
            ActionByte(UserVerdict(h.texts, h.table, Capped(s.store.rules), q, DefaultAction(s.store, q.direction)))
  {
    hide Compile, UserVerdict, First, Live, ConfigFor;
    CompileCapped(h, s.store.rules);
    CompilationPreservesMeaning(h.texts, h.table, Capped(s.store.rules), q, DefaultAction(s.store, q.direction));
  }

  lemma CompiledInbound(h: Host, store: Store, w: Rule)
    requires Compile(h.texts, h.table, store.rules).Ok? && w in Capped(Compile(h.texts, h.table, store.rules).value)
    requires !NeedsConntrack(store) && w.direction == DIR_IN
    ensures w.action == ACT_ALLOW
  {
    hide Compile, CompileRule;
    var ws := Compile(h.texts, h.table, store.rules).value;
    var i :| 0 <= i < |ws| && ws[i] == w;
    CompiledBytes(h.texts, h.table, store.rules[i]);
    assert store.rules[i] in store.rules;
  }

  lemma ElidedInbound(h: Host, m: RuleMaps, store: Store)
    requires Publishes(h, m, store) && !m.config.conntrackEnabled
    ensures forall w <- Live(m) :: w.direction == DIR_IN ==> w.action == ACT_ALLOW
  {
    hide Compile, Live;
    forall w | w in Live(m) && w.direction == DIR_IN
      ensures w.action == ACT_ALLOW
    {
      CompiledInbound(h, store, w);
    }
  }

  /** A reply that only the connection table would let in: no rule decides it and the default refuses it. */
  ghost predicate NeedsLookup(m: RuleMaps, pr: ParseResult, ifindex: u32, table: ConnTable, now: nat) {
    && m.defaultIn != ACT_ALLOW
    && pr.Datagram? && !IsNdp(pr.parsed) && Fresh(table, ReverseKey(pr.parsed), now)
    && First(Live(m), Query(DIR_IN, ifindex, pr.parsed)) == |Live(m)|
  }

  /** Whichever store is live, switching conntrack off loses exactly the replies that only it would let in. */
  lemma ElisionLoses(h: Host, m: RuleMaps, store: Store, pr: ParseResult, ifindex: u32, table: ConnTable, now: nat)
    requires Publishes(h, m, store) && !m.config.conntrackEnabled
    ensures Ingress(pr, ifindex, false, table, now, m) == Ingress(pr, ifindex, true, table, now, m) <==>
            !NeedsLookup(m, pr, ifindex, table, now)
  {
    hide Publishes, Live, Fresh, Decides;
    ElidedInbound(h, m, store);
    if pr.Datagram? {
      var q := Query(DIR_IN, ifindex, pr.parsed);
      DecidesIsInbound(Live(m), q);
    }
  }

  lemma DecidesIsInbound(rules: seq<Rule>, q: Query)
    ensures First(rules, q) < |rules| ==> rules[First(rules, q)].direction == q.direction
  {}

  /** In a synchronised state there are none: where conntrack is off, switching it on changes no verdict. */
  lemma ElisionSound(h: Host, s: State, pr: ParseResult, ifindex: u32, table: ConnTable, now: nat)
    requires Synced(h, s) && !s.maps.config.conntrackEnabled
    ensures Ingress(pr, ifindex, false, table, now, s.maps) == Ingress(pr, ifindex, true, table, now, s.maps)
    ensures !pr.Malformed? ==> Ingress(pr, ifindex, false, table, now, s.maps).verdict == Pass
  {
    hide Compile, Live, Decide;
    ElidedInbound(h, s.maps, s.store);
    LookupRedundant(s.maps, pr, ifindex, table, now);
    if pr.Datagram? {
      PermissiveAllows(s.maps, ifindex, pr.parsed);
    }
  }

  /**
   * A request to refuse inbound traffic that fails after its first write leaves the new default with
   * conntrack still off: packets no rule decides are dropped, replies to the host's own flows included.
   */
  lemma FailedDefaultDrops(
    h: Host, s: State, a: Action, f: Faults, p: Parsed, ifindex: u32, table: ConnTable, now: nat
  )
    requires Synced(h, s) && !s.maps.config.conntrackEnabled && a != Allow
    requires !Handle(h, s, SetDefault(In, a), f).ok && !f.save && !f.defaultIn
    requires !IsNdp(p) && First(Live(s.maps), Query(DIR_IN, ifindex, p)) == |Live(s.maps)|
    ensures var m := Handle(h, s, SetDefault(In, a), f).state.maps;
      && !m.config.conntrackEnabled
      && Ingress(Datagram(p), ifindex, m.config.conntrackEnabled, table, now, m) == Tracked(Drop, table)
  {
    hide Handle, Live, First, Compile;
    FailedKeepsLive(h, s, SetDefault(In, a), f);
    DefaultAfter(h, s, Call(SetDefault(In, a), f), In);
    StoreAfter(h, s, SetDefault(In, a), f);
  }

  lemma StoreAfter(h: Host, s: State, req: Request, f: Faults)
    requires s.activeBank <= 1 && Edit(s.store, req).Ok?
    ensures Handle(h, s, req, f).state.store == Edit(s.store, req).value
  {
    hide SyncRules, Edit;
    SyncRulesKeepsStore(h, SyncDefaults(s.(store := Edit(s.store, req).value), f).state, f);
  }

  /** With at most 256 rules, conntrack is off exactly when the live maps cannot deny an inbound packet. */
  lemma ElisionExact(h: Host, s: State)
    requires Synced(h, s) && |s.store.rules| <= RULES_MAX
    ensures !s.maps.config.conntrackEnabled <==> InboundPermissive(s.maps)
  {
    hide Compile, CompileRule, Live;
    if !NeedsConntrack(s.store) {
      forall w | w in Live(s.maps) && w.direction == DIR_IN
        ensures w.action == ACT_ALLOW
      {
        CompiledInbound(h, s.store, w);
      }
    } else if s.store.defaultIn == Allow {
      var i :| 0 <= i < |s.store.rules| && s.store.rules[i].direction == In && s.store.rules[i].action != Allow;
      CompiledBytes(h.texts, h.table, s.store.rules[i]);
      assert Live(s.maps)[i] in Live(s.maps);
    }
  }

  // ---------------------------------------------------------------------
  // Edits act locally
  // ---------------------------------------------------------------------

  /** Appending a rule changes the walk only for packets that no earlier rule decided. */
  lemma AppendIsLocal(h: Host, s: State, r: UserRule, f: Faults, q: Query)
    requires Synced(h, s) && Handle(h, s, AddRule(r), f).ok
    ensures var m' := Handle(h, s, AddRule(r), f).state.maps;
      var w := CompileRule(h.texts, h.table, r);
      && w.Ok?
      && WalkResult(m', q) ==
         if First(Live(s.maps), q) < |Live(s.maps)| then WalkResult(s.maps, q)
         else if Decides(w.value, q) then Decision(ActionByte(r.action), |s.store.rules|)
         else WalkResult(s.maps, q)
  {
    hide Handle, Compile, CompileRule, Decides, Live, ConfigFor, First;
    var s' := Handle(h, s, AddRule(r), f).state;
    OkMeansSynced(h, s, AddRule(r), f);
    var rules := s.store.rules;
    assert r in rules + [r];
    var w := CompileRule(h.texts, h.table, r).value;
    CompileUnique(h.texts, h.table, rules + [r], Compile(h.texts, h.table, rules).value + [w]);
    CompiledBytes(h.texts, h.table, r);
    FirstConcat(Live(s.maps), [w], q);
    FirstSingle(w, q);
    assert Live(s'.maps) == Live(s.maps) + [w];
  }

  lemma FirstSingle(w: Rule, q: Query)
    ensures First([w], q) == if Decides(w, q) then 0 else 1
  {
    hide Decides;
    FirstUnique([w], q, if Decides(w, q) then 0 else 1);
  }

  lemma DecideWithout(a: seq<Rule>, x: Rule, b: seq<Rule>, q: Query, default: bv8)
    requires |a| + 1 + |b| <= RULES_MAX
    ensures Decide(a + b, q, default).action ==
            if First(a + ([x] + b), q) == |a| then Decide(b, q, default).action
            else Decide(a + ([x] + b), q, default).action
  {
    hide Decides, First;
    FirstConcat(a, [x] + b, q);
    FirstConcat([x], b, q);
    FirstSingle(x, q);
    FirstConcat(a, b, q);
  }

  lemma CompileWithout(h: Host, rules: seq<UserRule>, j: nat)
    requires j < |rules| && Compile(h.texts, h.table, rules).Ok?
    ensures Compile(h.texts, h.table, WithoutIndex(rules, j)) ==
            Ok(WithoutIndex(Compile(h.texts, h.table, rules).value, j))
  {
    hide CompileRule, Compile;
    CompileUnique(h.texts, h.table, WithoutIndex(rules, j), WithoutIndex(Compile(h.texts, h.table, rules).value, j));
  }

  /**
   * Deleting rule j changes the action only for packets whose first match was j; those get the action of
   * their next match, or the default.
   */
  lemma DeleteIsLocal(h: Host, s: State, j: nat, f: Faults, q: Query)
    requires Synced(h, s) && |s.store.rules| <= RULES_MAX && j < |s.store.rules|
    requires Handle(h, s, DeleteRule(j + 1), f).ok
    ensures var m' := Handle(h, s, DeleteRule(j + 1), f).state.maps;
      WalkResult(m', q).action ==
        if First(Live(s.maps), q) == j then Decide(Live(s.maps)[j + 1..], q, DefaultFor(s.maps, q.direction)).action
        else WalkResult(s.maps, q).action
  {
    hide Handle, Compile, Decide, Live, ConfigFor, First;
    var s' := Handle(h, s, DeleteRule(j + 1), f).state;
    OkMeansSynced(h, s, DeleteRule(j + 1), f);
    CompileWithout(h, s.store.rules, j);
    var ws := Live(s.maps);
    assert ws == ws[..j] + ([ws[j]] + ws[j + 1..]);
    DecideWithout(ws[..j], ws[j], ws[j + 1..], q, DefaultFor(s.maps, q.direction));
    assert Live(s'.maps) == WithoutIndex(ws, j);
  }

  /** A default policy reaches exactly the packets of its direction that no rule decides. */
  lemma SetDefaultIsLocal(h: Host, s: State, dir: Direction, a: Action, f: Faults, q: Query)
    requires Synced(h, s) && Handle(h, s, SetDefault(dir, a), f).ok
    requires q.direction == DIR_IN || q.direction == DIR_OUT
    ensures WalkResult(Handle(h, s, SetDefault(dir, a), f).state.maps, q) ==
            if q.direction == DirectionByte(dir) && First(Live(s.maps), q) == |Live(s.maps)|
            then Decision(ActionByte(a), RULE_ID_DEFAULT)
            else WalkResult(s.maps, q)
  {
    hide Handle, Compile, Live, ConfigFor, First;
    OkMeansSynced(h, s, SetDefault(dir, a), f);
  }

  /** Switching logging changes no verdict and no conntrack decision. */
  lemma SetLoggingIsInert(h: Host, s: State, b: bool, f: Faults, q: Query)
    requires Synced(h, s) && Handle(h, s, SetLogging(b), f).ok
    ensures var m' := Handle(h, s, SetLogging(b), f).state.maps;
      WalkResult(m', q) == WalkResult(s.maps, q) && m'.config.loggingEnabled == b &&
      m'.config.conntrackEnabled == s.maps.config.conntrackEnabled
  {
    hide Handle, Compile, Live, First;
    OkMeansSynced(h, s, SetLogging(b), f);
  }

  lemma ResetEmpties(h: Host, s: State, f: Faults)
    requires s.activeBank <= 1 && Handle(h, s, Reset, f).ok
    ensures var m := Handle(h, s, Reset, f).state.maps;
      Live(m) == [] && m.defaultIn == ACT_ALLOW && m.defaultOut == ACT_ALLOW
  {
    hide Handle, Live, Compile;
    OkMeansSynced(h, s, Reset, f);
  }

  /** After Reset every packet that parses passes, in both directions, whatever conntrack holds. */
  lemma ResetOpens(
    h: Host, s: State, f: Faults, pr: ParseResult, ifindex: u32, ctOn: bool, table: ConnTable, now: nat, insertOk: bool
  )
    requires s.activeBank <= 1 && Handle(h, s, Reset, f).ok && !pr.Malformed?
    ensures var m := Handle(h, s, Reset, f).state.maps;
      && Ingress(pr, ifindex, ctOn, table, now, m).verdict == Pass
      && Egress(pr, ifindex, ctOn, table, now, insertOk, m).verdict == Pass
  {
    hide *;
    ResetEmpties(h, s, f);
    OpenMapsPass(Handle(h, s, Reset, f).state.maps, pr, ifindex, ctOn, table, now, insertOk);
  }

  // ---------------------------------------------------------------------
  // What damage can do
  // ---------------------------------------------------------------------

  const CONFIG_FAULT := Faults(false, false, false, None, true)
  const SECOND_SLOT_FAULT := Faults(false, false, false, Some(1), false)

  lemma CompilePair(h: Host, a: UserRule, b: UserRule)
    requires CompileRule(h.texts, h.table, a).Ok? && CompileRule(h.texts, h.table, b).Ok?
    ensures Compile(h.texts, h.table, [a, b]) ==
            Ok([CompileRule(h.texts, h.table, a).value, CompileRule(h.texts, h.table, b).value])
    ensures Compile(h.texts, h.table, [b]).Ok?
  {
    hide CompileRule, Compile;
    CompileUnique(
      h.texts, h.table, [a, b], [CompileRule(h.texts, h.table, a).value, CompileRule(h.texts, h.table, b).value]);
  }

  lemma DeletionDesyncs(h: Host, s: State, a: UserRule, b: UserRule)
    requires TwoBanks(s) && InStep(s) && s.store.rules == [a, b] && Compile(h.texts, h.table, [b]).Ok?
    ensures var s1 := Handle(h, s, DeleteRule(1), CONFIG_FAULT).state;
      && TwoBanks(s1) && !InStep(s1) && s1.store == s.store.(rules := [b]) && Live(s1.maps) == Live(s.maps)
  {
    hide Handle, Compile, Live;
    assert WithoutIndex([a, b], 0) == [b];
    HandleMaps(h, s, DeleteRule(1), CONFIG_FAULT);
    FailedKeepsLive(h, s, DeleteRule(1), CONFIG_FAULT);
    StoreAfter(h, s, DeleteRule(1), CONFIG_FAULT);
  }

  lemma AdditionSplices(h: Host, s: State, a: UserRule, b: UserRule, wa: Rule, wb: Rule)
    requires TwoBanks(s) && !InStep(s) && s.store.rules == [b] && Live(s.maps) == [wa, wb]
    requires (a.iface.Some? ==> ValidIfaceName(a.iface.value)) && Compile(h.texts, h.table, [b, a]) == Ok([wb, wa])
    ensures var s2 := Handle(h, s, AddRule(a), SECOND_SLOT_FAULT).state;
      s2.store == s.store.(rules := [b, a]) && Live(s2.maps) == [wb, wb]
  {
    hide Handle, Compile, Live, ValidIfaceName;
    assert [b] + [a] == [b, a] && [wb, wa][..1] == [wb];
    HandleMaps(h, s, AddRule(a), SECOND_SLOT_FAULT);
    FailedSplices(h, s, AddRule(a), SECOND_SLOT_FAULT);
    StoreAfter(h, s, AddRule(a), SECOND_SLOT_FAULT);
  }

  /**
   * Out of step, a failed request can let in what every list involved refuses. An operator moves a deny rule
   * from the top of the list to its end; the deletion fails at its CONFIG write and the addition at its second
   * slot. The list last published and the list now stored both deny q, the default allows it, and the splice
   * of the two holds no deny rule at all.
   */
  lemma SpliceOpens(h: Host, s: State, deny: UserRule, other: UserRule, q: Query)
    requires Synced(h, s) && s.store.rules == [deny, other] && DefaultFor(s.maps, q.direction) == ACT_ALLOW
    requires deny.action == Deny && (deny.iface.Some? ==> ValidIfaceName(deny.iface.value))
    requires Decides(CompileRule(h.texts, h.table, deny).value, q)
    requires !Decides(CompileRule(h.texts, h.table, other).value, q)
    ensures WalkResult(s.maps, q).action == ACT_DENY
    ensures var s1 := Handle(h, s, DeleteRule(1), CONFIG_FAULT).state;
      && s1.activeBank <= 1
      && var s2 := Handle(h, s1, AddRule(deny), SECOND_SLOT_FAULT).state;
      && s2.store.rules == [other, deny]
      && Decide(Compile(h.texts, h.table, s2.store.rules).value, q, ACT_ALLOW).action == ACT_DENY
      && WalkResult(s2.maps, q).action == ACT_ALLOW
  {
    hide Handle, Compile, CompileRule, Decides, First, Live, ValidIfaceName, ConfigFor;
    var wd, wo := CompileRule(h.texts, h.table, deny).value, CompileRule(h.texts, h.table, other).value;
    assert deny in s.store.rules && other in s.store.rules;
    CompiledBytes(h.texts, h.table, deny);
    CompilePair(h, deny, other);
    CompilePair(h, other, deny);
    FirstUnique([wd, wo], q, 0);
    FirstUnique([wo, wd], q, 1);
    FirstUnique([wo, wo], q, 2);
    DeletionDesyncs(h, s, deny, other);
    var s1 := Handle(h, s, DeleteRule(1), CONFIG_FAULT).state;
    AdditionSplices(h, s1, deny, other, wd, wo);
    DefaultAfter(h, s, Call(DeleteRule(1), CONFIG_FAULT), In);
    DefaultAfter(h, s, Call(DeleteRule(1), CONFIG_FAULT), Out);
    DefaultAfter(h, s1, Call(AddRule(deny), SECOND_SLOT_FAULT), In);
    DefaultAfter(h, s1, Call(AddRule(deny), SECOND_SLOT_FAULT), Out);
  }
}
