/** The control plane: stored rules, requests, and their synchronisation into the maps. */
module Daemon {
  import opened Common
  import opened Rules
  import opened Wire

  /** What is persisted: default policies, the logging switch and the rules, in order. */
  datatype Store = Store(defaultIn: Action, defaultOut: Action, logging: bool, rules: seq<UserRule>)

  datatype State = State(store: Store, maps: RuleMaps, activeBank: nat)

  datatype Request =
    | AddRule(rule: UserRule)
    | DeleteRule(index: u32)
    | SetDefault(dir: Direction, action: Action)
    | SetLogging(enabled: bool)
    | Reset

  /** Which of a request's writes fail, if it gets that far. */
  datatype Faults = Faults(save: bool, defaultIn: bool, defaultOut: bool, slot: Option<nat>, config: bool)

  datatype Outcome = Outcome(state: State, ok: bool)

  /** What the compiler sees of the host. */
  datatype Host = Host(texts: Texts, table: IfaceTable)

  // ---------------------------------------------------------------------
  // The specification of a request
  // ---------------------------------------------------------------------

  function WithoutIndex<T>(s: seq<T>, i: nat): seq<T>
    requires i < |s|
  {
    s[..i] + s[i + 1..]
  }

  /** The in-memory edit, or an error before anything is touched. */
  function Edit(s: Store, req: Request): Result<Store> {
    match req
    case AddRule(r) =>
      if |s.rules| >= RULES_MAX || (r.iface.Some? && !ValidIfaceName(r.iface.value)) then Err
      else Ok(s.(rules := s.rules + [r]))
    case DeleteRule(i) =>
      if i == 0 || i > |s.rules| then Err else Ok(s.(rules := WithoutIndex(s.rules, i - 1)))
    case SetDefault(In, a) => Ok(s.(defaultIn := a))
    case SetDefault(Out, a) => Ok(s.(defaultOut := a))
    case SetLogging(b) => Ok(s.(logging := b))
    case Reset => Ok(Store(Allow, Allow, false, []))
  }

  predicate NeedsConntrack(s: Store) {
    s.defaultIn != Allow || exists r <- s.rules :: r.direction == In && r.action != Allow
  }

  function ConfigFor(s: Store, bank: nat): GlobalConfig {
    GlobalConfig(s.logging, bank, NeedsConntrack(s), Min(|s.rules|, RULES_MAX))
  }

  function SyncDefaults(s: State, f: Faults): Outcome {
    if f.defaultIn then Outcome(s, false)
    else
      var s1 := s.(maps := s.maps.(defaultIn := ActionByte(s.store.defaultIn)));
      if f.defaultOut then Outcome(s1, false)
      else Outcome(s1.(maps := s1.maps.(defaultOut := ActionByte(s.store.defaultOut))), true)
  }

  /** How many slots get written before the first failing one. */
  function SlotsWritten(n: nat, f: Faults): nat {
    if f.slot.Some? && f.slot.value < n then f.slot.value else n
  }

  function SyncRules(h: Host, s: State, f: Faults): (o: Outcome)
    requires s.activeBank <= 1
    ensures o.state.activeBank <= 1
  {
    match Compile(h.texts, h.table, s.store.rules)
    case Err => Outcome(s, false)
    case Ok(ws) =>
      var target, n := 1 - s.activeBank, |Capped(ws)|;
      var k := SlotsWritten(n, f);
      var s1 := s.(maps := s.maps.(slots := WriteBank(s.maps.slots, target, ws, k)));
      if k < n then Outcome(s1, false)
      else
        var s2 := s1.(activeBank := target);
        if f.config then Outcome(s2, false)
        else Outcome(s2.(maps := s2.maps.(config := ConfigFor(s.store, target))), true)
  }

  function SyncAll(h: Host, s: State, f: Faults): (o: Outcome)
    requires s.activeBank <= 1
    ensures o.state.activeBank <= 1
  {
    var d := SyncDefaults(s, f);
    if d.ok then SyncRules(h, d.state, f) else d
  }

  /** A request: edit, persist, synchronise. Nothing is rolled back when a later step fails. */
  function Handle(h: Host, s: State, req: Request, f: Faults): (o: Outcome)
    requires s.activeBank <= 1
    ensures o.state.activeBank <= 1
  {
    match Edit(s.store, req)
    case Err => Outcome(s, false)
    case Ok(store) =>
      var s1 := s.(store := store);
      if f.save then Outcome(s1, false) else SyncAll(h, s1, f)
  }

  // ---------------------------------------------------------------------
  // The daemon, as it updates its fields
  // ---------------------------------------------------------------------

  class DaemonState {
    var store: Store
    var maps: RuleMaps
    var activeBank: nat

    constructor (store: Store, maps: RuleMaps)
      ensures View() == State(store, maps, 0)
    {
      this.store, this.maps, activeBank := store, maps, 0;
    }

    function View(): State
      reads this
    {
      State(store, maps, activeBank)
    }

    method WriteConfig(fails: bool) returns (ok: bool)
      modifies this`maps
      ensures ok == !fails
      ensures maps == if ok then old(maps).(config := ConfigFor(store, activeBank)) else old(maps)
    {
      var needs := store.defaultIn != Allow;
      for i := 0 to |store.rules|
        invariant needs <==>
          store.defaultIn != Allow || exists r <- store.rules[..i] :: r.direction == In && r.action != Allow
      {
        assert store.rules[..i + 1] == store.rules[..i] + [store.rules[i]];
        needs := needs || (store.rules[i].direction == In && store.rules[i].action != Allow);
      }
      assert store.rules[..|store.rules|] == store.rules;
      if fails {
        return false;
      }
      var cfg := GlobalConfig(store.logging, activeBank, needs, Min(|store.rules|, RULES_MAX));
      maps := maps.(config := cfg);
      return true;
    }

    method SyncDefaultsNow(f: Faults) returns (ok: bool)
      modifies this`maps
      ensures Outcome(View(), ok) == SyncDefaults(old(View()), f)
      ensures ok <==> !f.defaultIn && !f.defaultOut
      ensures maps.slots == old(maps).slots && maps.config == old(maps).config
    {
      if f.defaultIn {
        return false;
      }
      maps := maps.(defaultIn := ActionByte(store.defaultIn));
      if f.defaultOut {
        return false;
      }
      maps := maps.(defaultOut := ActionByte(store.defaultOut));
      return true;
    }

    method CompileRules(h: Host) returns (ws: Result<seq<Rule>>)
      ensures ws == Compile(h.texts, h.table, store.rules)
    {
      hide CompileRule;
      var rules: seq<Rule> := [];
      for i := 0 to |store.rules|
        invariant Compile(h.texts, h.table, store.rules[..i]) == Ok(rules)
      {
        assert store.rules[..i + 1][..i] == store.rules[..i];
        var w := CompileRule(h.texts, h.table, store.rules[i]);
        if w.Err? {
          return Err;
        }
        rules := rules + [w.value];
      }
      assert store.rules[..|store.rules|] == store.rules;
      return Ok(rules);
    }

    method SyncRulesNow(h: Host, f: Faults) returns (ok: bool)
      requires activeBank <= 1
      modifies this`maps, this`activeBank
      ensures Outcome(View(), ok) == SyncRules(h, old(View()), f)
    {
      hide Compile, NeedsConntrack;
      var compiled := CompileRules(h);
      if compiled.Err? {
        return false;
      }
      var ws := compiled.value;
      var target, n := 1 - activeBank, |Capped(ws)|;
      for i := 0 to n
        modifies this`maps
        invariant maps == old(maps).(slots := WriteBank(old(maps).slots, target, ws, i))
        invariant i <= SlotsWritten(n, f)
      {
        if f.slot == Some(i) {
          return false;
        }
        maps := maps.(slots := maps.slots[target * RULES_MAX + i := ws[i]]);
      }
      activeBank := target;
      ok := WriteConfig(f.config);
    }

    method SyncAllNow(h: Host, f: Faults) returns (ok: bool)
      requires activeBank <= 1
      modifies this`maps, this`activeBank
      ensures Outcome(View(), ok) == SyncAll(h, old(View()), f)
    {
      hide SyncRules, Compile;
      ok := SyncDefaultsNow(f);
      if ok {
        ok := SyncRulesNow(h, f);
      }
    }

    /** One control request; the environment says which writes fail. */
    method Dispatch(h: Host, req: Request, f: Faults) returns (ok: bool)
      requires activeBank <= 1
      modifies this
      ensures Outcome(View(), ok) == Handle(h, old(View()), req, f)
    {
      hide SyncRules, Compile;
      match req {
        case AddRule(r) =>
          if |store.rules| >= RULES_MAX {
            return false;
          }
          if r.iface.Some? && !ValidIfaceName(r.iface.value) {
            return false;
          }
          store := store.(rules := store.rules + [r]);
        case DeleteRule(i) =>
          if i == 0 || i - 1 >= |store.rules| {
            return false;
          }
          store := store.(rules := store.rules[..i - 1] + store.rules[i..]);
        case SetDefault(dir, a) =>
          match dir {
            case In => store := store.(defaultIn := a);
            case Out => store := store.(defaultOut := a);
          }
        case SetLogging(b) =>
          store := store.(logging := b);
        case Reset =>
          store := store.(rules := [], defaultIn := Allow, defaultOut := Allow, logging := false);
      }
      if f.save {
        return false;
      }
      ok := SyncAllNow(h, f);
    }
  }
}
