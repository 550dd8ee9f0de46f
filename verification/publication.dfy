/** The double-buffered publication of rule lists, interleaved with packet walks. */
module Publication {
  import opened Common
  import opened Rules

  /** A sync in progress: it writes its list slot by slot into the bank that is not live. */
  datatype Writer = Idle | Writing(list: seq<Rule>, next: nat)

  /**
   * A packet's walk. `bank` and `count` are its snapshot of CONFIG. The rest is history: `list` is what was
   * published at the snapshot, `flipped` says that CONFIG was rewritten before the walk ended, `overrun` that
   * a sync wrote a slot the walk still had to read, and `default` is the policy it ended with.
   */
  datatype Reader = Reader(
    q: Query,
    bank: nat,
    count: nat,
    i: nat,
    outcome: Option<Decision>,
    list: seq<Rule>,
    flipped: bool,
    overrun: bool,
    default: bv8)

  /** Shared maps, the daemon's own bank number, and the walks in flight. `published` is the list last flipped in. */
  datatype State = State(
    maps: RuleMaps,
    activeBank: nat,
    writer: Writer,
    published: seq<Rule>,
    readers: map<nat, Reader>)

  datatype Step =
    | Begin(list: seq<Rule>)              // sync_rules has compiled a list and starts writing it
    | WriteSlot                           // one slot of the inactive bank
    | FailSlot                            // a slot write fails and aborts the sync
    | Flip(logging: bool, conntrack: bool) // every slot is written: one store publishes the whole CONFIG
    | SetDefault(dir: bv8, action: bv8)
    | Snapshot(id: nat, q: Query)         // a packet reads CONFIG
    | Scan(id: nat)                       // a walk looks at one more slot
    | Finish(id: nat)                     // a walk has exhausted its rules and reads the default policy

  function Target(s: State): nat
    requires s.activeBank <= 1
  {
    1 - s.activeBank
  }

  /** A slot write overruns the walks of that bank which have that slot still ahead of them. */
  function NoteWrite(r: Reader, bank: nat, slot: nat): Reader {
    r.(overrun := r.overrun || (r.bank == bank && r.outcome.None? && r.i <= slot < r.count))
  }

  function NoteFlip(r: Reader): Reader {
    r.(flipped := r.flipped || r.outcome.None?)
  }

  predicate Unfinished(s: State, id: nat) {
    id in s.readers && s.readers[id].outcome.None?
  }

  predicate Enabled(s: State, step: Step) {
    match step
    case Begin(_) => s.writer.Idle?
    case WriteSlot => s.writer.Writing? && s.writer.next < |Capped(s.writer.list)| && s.activeBank <= 1
    case FailSlot => s.writer.Writing? && s.writer.next < |Capped(s.writer.list)|
    case Flip(_, _) => s.writer.Writing? && s.writer.next == |Capped(s.writer.list)| && s.activeBank <= 1
    case SetDefault(_, _) => true
    case Snapshot(id, _) => id !in s.readers
    case Scan(id) =>
      Unfinished(s, id) && s.readers[id].i < s.readers[id].count && s.readers[id].i < RULES_MAX && s.readers[id].bank <= 1
    case Finish(id) =>
      Unfinished(s, id) && (s.readers[id].i >= s.readers[id].count || s.readers[id].i >= RULES_MAX)
  }

  function AfterWrite(s: State): State
    requires Enabled(s, WriteSlot)
  {
    var w := s.writer;
    s.(maps := s.maps.(slots := s.maps.slots[Target(s) * RULES_MAX + w.next := w.list[w.next]]),
       writer := Writing(w.list, w.next + 1),
       readers := map id | id in s.readers :: NoteWrite(s.readers[id], Target(s), w.next))
  }

  function AfterFlip(s: State, logging: bool, conntrack: bool): State
    requires Enabled(s, Flip(logging, conntrack))
  {
    var list := Capped(s.writer.list);
    s.(maps := s.maps.(config := GlobalConfig(logging, Target(s), conntrack, |list|)),
       activeBank := Target(s),
       writer := Idle,
       published := list,
       readers := map id | id in s.readers :: NoteFlip(s.readers[id]))
  }

  /** The walk after looking at its next slot. */
  function Scanned(s: State, r: Reader): Reader
    requires r.i < RULES_MAX && r.bank <= 1
  {
    var rule := s.maps.slots[r.bank * RULES_MAX + r.i];
    if Decides(rule, r.q) then r.(outcome := Some(Decision(rule.action, r.i))) else r.(i := r.i + 1)
  }

  function Finished(s: State, r: Reader): Reader {
    var d := DefaultFor(s.maps, r.q.direction);
    r.(outcome := Some(Decision(d, RULE_ID_DEFAULT)), default := d)
  }

  function Start(s: State, q: Query): Reader {
    Reader(q, s.maps.config.activeBank % 2, s.maps.config.ruleCount, 0, None, s.published, false, false, ACT_ALLOW)
  }

  function Next(s: State, step: Step): State
    requires Enabled(s, step)
  {
    match step
    case Begin(list) => s.(writer := Writing(list, 0))
    case WriteSlot => AfterWrite(s)
    case FailSlot => s.(writer := Idle)
    case Flip(logging, conntrack) => AfterFlip(s, logging, conntrack)
    case SetDefault(dir, action) =>
      s.(maps := if dir == DIR_IN then s.maps.(defaultIn := action) else s.maps.(defaultOut := action))
    case Snapshot(id, q) => s.(readers := s.readers[id := Start(s, q)])
    case Scan(id) => s.(readers := s.readers[id := Scanned(s, s.readers[id])])
    case Finish(id) => s.(readers := s.readers[id := Finished(s, s.readers[id])])
  }

  ghost predicate Initial(s: State) {
    && s.maps.config.activeBank == 0 && s.maps.config.ruleCount == 0 && s.activeBank == 0
    && s.writer.Idle? && s.published == [] && s.readers == map[]
  }

  // ---------------------------------------------------------------------
  // The invariant
  // ---------------------------------------------------------------------

  ghost predicate Holds(slots: Slots, bank: nat, list: seq<Rule>) {
    bank <= 1 && |list| <= RULES_MAX && Bank(slots, bank, |list|) == list
  }

  ghost predicate WriterOk(s: State)
    requires s.activeBank <= 1
  {
    s.writer.Writing? ==>
      && s.writer.next <= |Capped(s.writer.list)|
      && Holds(s.maps.slots, Target(s), s.writer.list[..s.writer.next])
  }

  /** The live bank holds exactly the published list. */
  ghost predicate LiveOk(s: State) {
    && s.maps.config.activeBank == s.activeBank
    && s.maps.config.ruleCount == |s.published|
    && Holds(s.maps.slots, s.activeBank, s.published)
  }

  /** So far the walk has passed over rules of its list that do not decide, or has its outcome from the list. */
  ghost predicate Faithful(r: Reader) {
    && |r.list| <= RULES_MAX && r.i <= |r.list|
    && (forall j | 0 <= j < r.i :: !Decides(r.list[j], r.q))
    && (r.outcome.Some? ==> r.outcome.value == Decide(r.list, r.q, r.default))
  }

  /** From slot `from` on the bank holds the list. */
  ghost predicate HoldsFrom(slots: Slots, bank: nat, list: seq<Rule>, from: nat) {
    && bank <= 1 && |list| <= RULES_MAX
    && forall j | from <= j < |list| :: slots[bank * RULES_MAX + j] == list[j]
  }

  /** A walk that was not overrun has the rest of its list still ahead of it. */
  ghost predicate ReaderOk(s: State, r: Reader) {
    && r.bank <= 1
    && (!r.overrun ==> Faithful(r))
    && (!r.overrun && r.outcome.None? ==> r.count == |r.list| && HoldsFrom(s.maps.slots, r.bank, r.list, r.i))
    && (!r.flipped && r.outcome.None? ==> r.bank == s.activeBank)
    && (r.overrun ==> r.flipped)
  }

  ghost predicate Inv(s: State) {
    && LiveOk(s)
    && WriterOk(s)
    && forall id <- s.readers :: ReaderOk(s, s.readers[id])
  }

  lemma HeldFromStart(slots: Slots, bank: nat, list: seq<Rule>)
    ensures Holds(slots, bank, list) <==> HoldsFrom(slots, bank, list, 0)
  {
    if bank <= 1 && |list| <= RULES_MAX {
      assert forall j | 0 <= j < |list| :: Bank(slots, bank, |list|)[j] == slots[bank * RULES_MAX + j];
    }
  }

  /** A slot write leaves alone what the other bank holds, and what its own bank holds elsewhere. */
  lemma WriteElsewhere(slots: Slots, target: nat, i: nat, rule: Rule, bank: nat, list: seq<Rule>, from: nat)
    requires target <= 1 && i < RULES_MAX && HoldsFrom(slots, bank, list, from)
    requires bank != target || i < from || |list| <= i
    ensures HoldsFrom(slots[target * RULES_MAX + i := rule], bank, list, from)
  {}

  lemma WriteGrows(slots: Slots, bank: nat, list: seq<Rule>, i: nat)
    requires bank <= 1 && i < |Capped(list)| && Holds(slots, bank, list[..i])
    ensures Holds(slots[bank * RULES_MAX + i := list[i]], bank, list[..i + 1])
  {
    var slots' := slots[bank * RULES_MAX + i := list[i]];
    forall j | 0 <= j < i + 1
      ensures Bank(slots', bank, i + 1)[j] == list[j]
    {
      if j < i {
        assert list[..i][j] == Bank(slots, bank, i)[j];
      }
    }
  }

  lemma WriteKeepsLive(s: State)
    requires LiveOk(s) && Enabled(s, WriteSlot)
    ensures LiveOk(AfterWrite(s))
  {
    hide Holds, HoldsFrom;
    var w := s.writer;
    HeldFromStart(s.maps.slots, s.activeBank, s.published);
    WriteElsewhere(s.maps.slots, Target(s), w.next, w.list[w.next], s.activeBank, s.published, 0);
    HeldFromStart(AfterWrite(s).maps.slots, s.activeBank, s.published);
  }

  lemma WriteKeepsReader(s: State, r: Reader)
    requires Enabled(s, WriteSlot) && ReaderOk(s, r) && (r.bank == Target(s) ==> r.overrun || r.outcome.Some? || r.flipped)
    ensures ReaderOk(AfterWrite(s), NoteWrite(r, Target(s), s.writer.next))
  {
    hide Faithful, HoldsFrom;
    var w, r' := s.writer, NoteWrite(r, Target(s), s.writer.next);
    HistoryIsGhost(r, Target(s), w.next);
    if !r'.overrun && r.outcome.None? {
      WriteElsewhere(s.maps.slots, Target(s), w.next, w.list[w.next], r.bank, r.list, r.i);
    }
  }

  lemma WriteKeepsInv(s: State)
    requires Inv(s) && Enabled(s, WriteSlot)
    ensures Inv(AfterWrite(s))
  {
    hide LiveOk, Holds, ReaderOk;
    var w, s' := s.writer, AfterWrite(s);
    WriteKeepsLive(s);
    WriteGrows(s.maps.slots, Target(s), w.list, w.next);
    forall id | id in s'.readers
      ensures ReaderOk(s', s'.readers[id])
    {
      UnflippedIsLive(s, s.readers[id]);
      WriteKeepsReader(s, s.readers[id]);
    }
  }

  /** Until CONFIG is rewritten a walk reads the bank no sync writes. */
  lemma UnflippedIsLive(s: State, r: Reader)
    requires s.activeBank <= 1 && ReaderOk(s, r)
    ensures r.bank == Target(s) ==> r.overrun || r.outcome.Some? || r.flipped
  {
    hide Faithful, HoldsFrom;
  }

  lemma HistoryIsGhost(r: Reader, bank: nat, slot: nat)
    ensures Faithful(r) ==> Faithful(NoteWrite(r, bank, slot)) && Faithful(NoteFlip(r))
  {
    hide Decides, Decide;
  }

  lemma FlipKeepsInv(s: State, logging: bool, conntrack: bool)
    requires Inv(s) && Enabled(s, Flip(logging, conntrack))
    ensures Inv(AfterFlip(s, logging, conntrack))
  {
    hide Holds, HoldsFrom, Faithful;
    var s' := AfterFlip(s, logging, conntrack);
    assert s.writer.list[..s.writer.next] == Capped(s.writer.list);
    forall id | id in s'.readers
      ensures ReaderOk(s', s'.readers[id])
    {
      assert ReaderOk(s, s.readers[id]);
      HistoryIsGhost(s.readers[id], 0, 0);
    }
  }

  lemma ScanKeeps(s: State, r: Reader)
    requires ReaderOk(s, r) && r.i < r.count && r.i < RULES_MAX && r.bank <= 1 && r.outcome.None?
    ensures ReaderOk(s, Scanned(s, r))
  {
    hide Decides, First, Matches;
    if !r.overrun {
      var rule := s.maps.slots[r.bank * RULES_MAX + r.i];
      assert rule == r.list[r.i];
      if Decides(rule, r.q) {
        FirstUnique(r.list, r.q, r.i);
      }
    }
  }

  lemma FinishKeeps(s: State, r: Reader)
    requires ReaderOk(s, r) && (r.i >= r.count || r.i >= RULES_MAX) && r.outcome.None?
    ensures ReaderOk(s, Finished(s, r))
  {
    hide Decides;
    if !r.overrun {
      FirstUnique(r.list, r.q, |r.list|);
    }
  }

  lemma StartOk(s: State, q: Query)
    requires LiveOk(s)
    ensures ReaderOk(s, Start(s, q))
  {
    hide Decides, Decide, Holds;
    HeldFromStart(s.maps.slots, s.activeBank, s.published);
    HeldBank(s.maps.slots, s.activeBank, s.published);
  }

  lemma HeldBank(slots: Slots, bank: nat, list: seq<Rule>)
    requires Holds(slots, bank, list)
    ensures bank <= 1 && |list| <= RULES_MAX
  {}

  /** A walk's step concerns that walk alone. */
  lemma ReaderKeepsInv(s: State, id: nat, r: Reader)
    requires Inv(s) && ReaderOk(s, r)
    ensures Inv(s.(readers := s.readers[id := r]))
  {
    hide Holds, HoldsFrom, Faithful;
    var s' := s.(readers := s.readers[id := r]);
    forall j | j in s'.readers
      ensures ReaderOk(s', s'.readers[j])
    {
      assert j != id ==> ReaderOk(s, s.readers[j]);
    }
  }

  /** Steps that move neither a slot nor a bank number are invisible to walks. */
  lemma QuietKeepsInv(s: State, s': State)
    requires Inv(s) && s'.maps.slots == s.maps.slots && s'.maps.config == s.maps.config
    requires s'.activeBank == s.activeBank && s'.published == s.published && s'.readers == s.readers
    requires s'.activeBank <= 1 ==> WriterOk(s')
    ensures Inv(s')
  {
    hide Holds, HoldsFrom, Faithful, WriterOk;
    HeldBank(s.maps.slots, s.activeBank, s.published);
    forall id | id in s'.readers
      ensures ReaderOk(s', s'.readers[id])
    {
      assert ReaderOk(s, s.readers[id]);
    }
  }

  /** Every step of every participant keeps the invariant. */
  lemma StepKeepsInv(s: State, step: Step)
    requires Inv(s) && Enabled(s, step)
    ensures Inv(Next(s, step))
  {
    hide LiveOk, ReaderOk, AfterWrite, AfterFlip, Scanned, Finished, Start, Capped;
    match step
    case WriteSlot =>
      WriteKeepsInv(s);
    case Flip(logging, conntrack) =>
      FlipKeepsInv(s, logging, conntrack);
    case Snapshot(id, q) =>
      StartOk(s, q);
      ReaderKeepsInv(s, id, Start(s, q));
    case Scan(id) =>
      ScanKeeps(s, s.readers[id]);
      ReaderKeepsInv(s, id, Scanned(s, s.readers[id]));
    case Finish(id) =>
      FinishKeeps(s, s.readers[id]);
      ReaderKeepsInv(s, id, Finished(s, s.readers[id]));
    case Begin(list) =>
      assert list[..0] == [];
      QuietKeepsInv(s, Next(s, step));
    case _ =>
      QuietKeepsInv(s, Next(s, step));
  }

  // ---------------------------------------------------------------------
  // Whole runs
  // ---------------------------------------------------------------------

  /** The steps can be taken one after another from s. */
  ghost predicate Runs(s: State, steps: seq<Step>)
    decreases |steps|
  {
    steps == [] || (Enabled(s, steps[0]) && Runs(Next(s, steps[0]), steps[1..]))
  }

  ghost function After(s: State, steps: seq<Step>): State
    requires Runs(s, steps)
    decreases |steps|
  {
    if steps == [] then s else After(Next(s, steps[0]), steps[1..])
  }

  lemma InitialInv(s: State)
    requires Initial(s)
    ensures Inv(s)
  {
    assert Bank(s.maps.slots, 0, 0) == [];
  }

  lemma {:induction false} RunKeepsInv(s: State, steps: seq<Step>)
    requires Inv(s) && Runs(s, steps)
    ensures Inv(After(s, steps))
    decreases |steps|
  {
    hide Inv, Enabled, Next;
    if steps != [] {
      StepKeepsInv(s, steps[0]);
      RunKeepsInv(Next(s, steps[0]), steps[1..]);
    }
  }

  /** In every interleaving the live bank is a complete list some sync flipped in, never a half-written one. */
  lemma LiveIsPublished(s: State, steps: seq<Step>)
    requires Inv(s) && Runs(s, steps)
    ensures Live(After(s, steps).maps) == After(s, steps).published
  {
    hide Runs, After, Faithful;
    RunKeepsInv(s, steps);
  }

  /**
   * In every interleaving, a walk none of whose slots was rewritten before the walk read it decides by
   * exactly the list that was published when it read CONFIG. Only a flip followed by another sync's slot
   * writes can overrun a walk.
   */
  lemma WalksAreAtomic(s: State, steps: seq<Step>, id: nat)
    requires Inv(s) && Runs(s, steps) && id in After(s, steps).readers
    ensures var r := After(s, steps).readers[id];
      && (r.outcome.Some? && !r.overrun ==>
            |r.list| <= RULES_MAX && r.outcome.value == Decide(r.list, r.q, r.default))
      && (r.overrun ==> r.flipped)
  {
    hide Runs, After;
    RunKeepsInv(s, steps);
  }

  // ---------------------------------------------------------------------
  // Composing runs
  // ---------------------------------------------------------------------

  lemma {:induction false} Extend(s: State, steps: seq<Step>, step: Step)
    requires Runs(s, steps) && Enabled(After(s, steps), step)
    ensures Runs(s, steps + [step]) && After(s, steps + [step]) == Next(After(s, steps), step)
    decreases |steps|
  {
    hide Enabled, Next;
    if steps == [] {
      assert steps + [step] == [step];
    } else {
      Extend(Next(s, steps[0]), steps[1..], step);
      assert (steps + [step])[1..] == steps[1..] + [step];
    }
  }

  lemma {:induction false} ExtendAll(s: State, steps: seq<Step>, more: seq<Step>)
    requires Runs(s, steps) && Runs(After(s, steps), more)
    ensures Runs(s, steps + more) && After(s, steps + more) == After(After(s, steps), more)
    decreases |more|
  {
    hide Enabled, Next;
    if more == [] {
      assert steps + more == steps;
    } else {
      Extend(s, steps, more[0]);
      ExtendAll(s, steps + [more[0]], more[1..]);
      assert steps + [more[0]] + more[1..] == steps + more;
    }
  }

  lemma {:induction false} Split(s: State, steps: seq<Step>, more: seq<Step>)
    requires Runs(s, steps + more)
    ensures Runs(s, steps) && Runs(After(s, steps), more)
    ensures After(s, steps + more) == After(After(s, steps), more)
    decreases |steps|
  {
    hide Enabled, Next;
    if steps == [] {
      assert steps + more == more;
    } else {
      assert (steps + more)[1..] == steps[1..] + more;
      Split(Next(s, steps[0]), steps[1..], more);
    }
  }

  /** What a step leaves of a walk's history. */
  lemma StepHistory(s: State, step: Step, id: nat)
    requires Enabled(s, step) && id in s.readers
    ensures var s' := Next(s, step);
      && id in s'.readers
      && s'.readers[id].list == s.readers[id].list && s'.readers[id].q == s.readers[id].q
      && (!step.Flip? ==> s'.readers[id].flipped == s.readers[id].flipped)
      && (!step.WriteSlot? ==> s'.readers[id].overrun == s.readers[id].overrun)
      && (s.readers[id].outcome.Some? ==> s'.readers[id] == s.readers[id])
  {
    hide Decides;
  }

  lemma {:induction false} RunHistory(s: State, steps: seq<Step>, id: nat)
    requires Runs(s, steps) && id in s.readers
    ensures var s' := After(s, steps);
      && id in s'.readers
      && s'.readers[id].list == s.readers[id].list && s'.readers[id].q == s.readers[id].q
      && ((forall t <- steps :: !t.Flip?) ==> s'.readers[id].flipped == s.readers[id].flipped)
      && ((forall t <- steps :: !t.WriteSlot?) ==> s'.readers[id].overrun == s.readers[id].overrun)
      && (s.readers[id].outcome.Some? ==> s'.readers[id] == s.readers[id])
    decreases |steps|
  {
    hide Enabled, Next;
    if steps != [] {
      StepHistory(s, steps[0], id);
      RunHistory(Next(s, steps[0]), steps[1..], id);
    }
  }

  /**
   * The same over the steps themselves. A walk starts after `before`; until the next flip anything may
   * happen, other syncs' slot writes and failures included; after it, anything but slot writes. Then the
   * walk decides by the complete list that was published when it started.
   */
  lemma WalkDecidesBySnapshot(s: State, before: seq<Step>, id: nat, q: Query, pre: seq<Step>, post: seq<Step>)
    requires Inv(s) && Runs(s, before + [Snapshot(id, q)] + pre + post)
    requires (forall t <- pre :: !t.Flip?) && (forall t <- post :: !t.WriteSlot?)
    ensures Runs(s, before) && id in After(s, before + [Snapshot(id, q)] + pre + post).readers
    ensures var r := After(s, before + [Snapshot(id, q)] + pre + post).readers[id];
      var list := After(s, before).published;
      r.outcome.Some? ==> |list| <= RULES_MAX && r.outcome.value == Decide(list, q, r.default)
  {
    hide Runs, After, Decide;
    var start := before + [Snapshot(id, q)];
    Split(s, start + pre, post);
    Split(s, start, pre);
    Split(s, before, [Snapshot(id, q)]);
    RunsOne(After(s, before), Snapshot(id, q));
    RunHistory(After(s, start), pre, id);
    RunHistory(After(s, start + pre), post, id);
    WalksAreAtomic(s, start + pre, id);
    WalksAreAtomic(s, start + pre + post, id);
  }

  // ---------------------------------------------------------------------
  // The default policy a walk ends with
  // ---------------------------------------------------------------------

  /** A walk that finishes takes the policy in force at that moment, and keeps its outcome ever after. */
  lemma FinishTakesDefault(s: State, before: seq<Step>, id: nat, after: seq<Step>)
    requires Runs(s, before + [Finish(id)] + after)
    ensures Runs(s, before) && id in After(s, before + [Finish(id)] + after).readers
    ensures var r := After(s, before + [Finish(id)] + after).readers[id];
      var policy := DefaultFor(After(s, before).maps, r.q.direction);
      r.outcome == Some(Decision(policy, RULE_ID_DEFAULT)) && r.default == policy
  {
    hide Runs, After;
    Split(s, before + [Finish(id)], after);
    Split(s, before, [Finish(id)]);
    RunsOne(After(s, before), Finish(id));
    RunHistory(After(s, before + [Finish(id)]), after, id);
  }

  /** What a walk ended with by default is the policy of the maps. */
  ghost predicate EndedBy(m: RuleMaps, r: Reader) {
    r.outcome.Some? && r.outcome.value.ruleId == RULE_ID_DEFAULT ==> r.default == DefaultFor(m, r.q.direction)
  }

  lemma StepKeepsDefaults(s: State, step: Step)
    requires Enabled(s, step) && !step.SetDefault?
    ensures Next(s, step).maps.defaultIn == s.maps.defaultIn && Next(s, step).maps.defaultOut == s.maps.defaultOut
  {
    hide Decides, Capped, Scanned, Finished, Start;
  }

  lemma ReaderSteady(s: State, r: Reader, bank: nat, slot: nat)
    requires r.outcome.None?
    ensures EndedBy(s.maps, NoteWrite(r, bank, slot)) && EndedBy(s.maps, NoteFlip(r)) && EndedBy(s.maps, Finished(s, r))
    ensures r.i < RULES_MAX && r.bank <= 1 ==> EndedBy(s.maps, Scanned(s, r))
  {
    hide Decides;
  }

  lemma StepSteady(s: State, step: Step, id: nat)
    requires Enabled(s, step) && !step.SetDefault? && id in s.readers && EndedBy(s.maps, s.readers[id])
    ensures var s' := Next(s, step);
      && s'.maps.defaultIn == s.maps.defaultIn && s'.maps.defaultOut == s.maps.defaultOut
      && id in s'.readers && EndedBy(s'.maps, s'.readers[id])
  {
    StepKeepsDefaults(s, step);
    StepHistory(s, step, id);
    SameDefaultsEnd(s.maps, Next(s, step).maps, Next(s, step).readers[id]);
    hide EndedBy, Finished, Scanned, NoteWrite, NoteFlip, Capped;
    if s.readers[id].outcome.None? {
      ReaderSteady(s, s.readers[id], if s.activeBank <= 1 then Target(s) else 0, if s.writer.Writing? then s.writer.next else 0);
    }
  }

  lemma SameDefaultsEnd(m: RuleMaps, m': RuleMaps, r: Reader)
    requires m'.defaultIn == m.defaultIn && m'.defaultOut == m.defaultOut
    ensures EndedBy(m, r) <==> EndedBy(m', r)
  {}

  lemma {:induction false} RunSteady(s: State, steps: seq<Step>, id: nat)
    requires Runs(s, steps) && (forall t <- steps :: !t.SetDefault?)
    requires id in s.readers && EndedBy(s.maps, s.readers[id])
    ensures var s' := After(s, steps);
      && s'.maps.defaultIn == s.maps.defaultIn && s'.maps.defaultOut == s.maps.defaultOut
      && id in s'.readers && EndedBy(s'.maps, s'.readers[id])
    decreases |steps|
  {
    hide Enabled, Next, EndedBy;
    if steps != [] {
      StepSteady(s, steps[0], id);
      RunSteady(Next(s, steps[0]), steps[1..], id);
    }
  }

  /**
   * While no default policy is written, a walk in any interleaving that does not overrun it decides as the
   * uninterrupted walk would have on the maps it started from.
   */
  lemma WalkAsIfAlone(s: State, id: nat, q: Query, steps: seq<Step>)
    requires Inv(s) && Runs(s, [Snapshot(id, q)] + steps) && forall t <- steps :: !t.SetDefault?
    ensures id in After(s, [Snapshot(id, q)] + steps).readers
    ensures var r := After(s, [Snapshot(id, q)] + steps).readers[id];
      r.outcome.Some? && !r.overrun ==>
        r.outcome.value == Decide(Live(s.maps), q, DefaultFor(s.maps, q.direction))
  {
    hide Runs, After, Decides, First, Inv, Live;
    Split(s, [Snapshot(id, q)], steps);
    RunsOne(s, Snapshot(id, q));
    var s1 := After(s, [Snapshot(id, q)]);
    RunSteady(s1, steps, id);
    RunHistory(s1, steps, id);
    WalksAreAtomic(s, [Snapshot(id, q)] + steps, id);
    RunsNil(s);
    LiveIsPublished(s, []);
  }

  /** A walk never gets stuck: left to itself it comes to an end, whatever was done to its bank. */
  lemma {:induction false} WalkCompletes(s: State, id: nat) returns (steps: seq<Step>)
    requires Inv(s) && Unfinished(s, id)
    ensures Runs(s, steps) && forall t <- steps :: t == Scan(id) || t == Finish(id)
    ensures id in After(s, steps).readers && After(s, steps).readers[id].outcome.Some?
    decreases if s.readers[id].i < RULES_MAX then RULES_MAX - s.readers[id].i else 0
  {
    hide LiveOk, WriterOk, Faithful, HoldsFrom, Decides;
    var r := s.readers[id];
    assert ReaderOk(s, r);
    var step := if r.i < r.count && r.i < RULES_MAX then Scan(id) else Finish(id);
    var s' := Next(s, step);
    StepKeepsInv(s, step);
    steps := [step];
    assert steps[1..] == [];
    if s'.readers[id].outcome.None? {
      var rest := WalkCompletes(s', id);
      steps := [step] + rest;
      assert steps[1..] == rest;
    }
  }

  lemma RunsNil(s: State)
    ensures Runs(s, []) && After(s, []) == s
  {}

  lemma RunsOne(s: State, step: Step)
    requires Runs(s, [step])
    ensures Enabled(s, step) && After(s, [step]) == Next(s, step)
  {
    hide Enabled, Next;
    assert [step][1..] == [];
  }

  function Writes(n: nat): seq<Step> {
    if n == 0 then [] else Writes(n - 1) + [WriteSlot]
  }

  /** A sync that has written its first n slots. */
  function SyncPrefix(list: seq<Rule>, n: nat): seq<Step> {
    [Begin(list)] + Writes(n)
  }

  /** What the first n slot writes of a sync leave of a walk's history. */
  function NoteWrites(r: Reader, bank: nat, n: nat): Reader {
    r.(overrun := r.overrun || (r.bank == bank && r.outcome.None? && r.i < n && r.i < r.count))
  }

  lemma {:induction false} SyncPrefixRuns(s: State, list: seq<Rule>, n: nat)
    requires s.writer.Idle? && s.activeBank <= 1 && n <= |Capped(list)|
    ensures Runs(s, SyncPrefix(list, n))
    ensures After(s, SyncPrefix(list, n)) ==
            s.(maps := s.maps.(slots := WriteBank(s.maps.slots, Target(s), list, n)),
               writer := Writing(list, n),
               readers := map id | id in s.readers :: NoteWrites(s.readers[id], Target(s), n))
  {
    hide Runs, After;
    if n == 0 {
      RunsNil(s);
      Extend(s, [], Begin(list));
      assert SyncPrefix(list, 0) == [] + [Begin(list)];
    } else {
      SyncPrefixRuns(s, list, n - 1);
      Extend(s, SyncPrefix(list, n - 1), WriteSlot);
      assert SyncPrefix(list, n) == SyncPrefix(list, n - 1) + [WriteSlot];
    }
  }

  /** Run on its own, a sync publishes its list: the maps end up as sync_rules leaves them. */
  lemma SyncRuns(s: State, list: seq<Rule>, logging: bool, conntrack: bool)
    requires s.writer.Idle? && s.activeBank <= 1
    ensures var n := |Capped(list)|;
      var steps := SyncPrefix(list, n) + [Flip(logging, conntrack)];
      && Runs(s, steps)
      && After(s, steps).maps ==
         s.maps.(slots := WriteBank(s.maps.slots, Target(s), list, n),
                 config := GlobalConfig(logging, Target(s), conntrack, n))
      && After(s, steps).activeBank == Target(s)
      && After(s, steps).writer.Idle?
      && After(s, steps).published == Capped(list)
      && After(s, steps).readers == map id | id in s.readers :: NoteFlip(NoteWrites(s.readers[id], Target(s), n))
  {
    hide Runs, After;
    SyncPrefixRuns(s, list, |Capped(list)|);
    Extend(s, SyncPrefix(list, |Capped(list)|), Flip(logging, conntrack));
  }

  // ---------------------------------------------------------------------
  // The condition is sharp: an overrun walk may return anything
  // ---------------------------------------------------------------------

  function Scans(id: nat, n: nat): seq<Step> {
    if n == 0 then [] else Scans(id, n - 1) + [Scan(id)]
  }

  function SyncSteps(list: seq<Rule>): seq<Step> {
    SyncPrefix(list, |Capped(list)|) + [Flip(false, true)]
  }

  /** A walk starts on `list` and passes over its first i rules. */
  function WalkSteps(q: Query, list: seq<Rule>, i: nat): seq<Step> {
    SyncSteps(list) + [Snapshot(0, q)] + Scans(0, i)
  }

  /**
   * While it sleeps, a sync of [] flips the banks and the sync of `next` writes slots 0..i of the walk's bank.
   * Then the walk reads slot i.
   */
  function OvertakeSteps(next: seq<Rule>, i: nat): seq<Step> {
    SyncSteps([]) + SyncPrefix(next, i + 1) + [Scan(0)]
  }

  function MixSteps(q: Query, list: seq<Rule>, i: nat, next: seq<Rule>): seq<Step> {
    WalkSteps(q, list, i) + OvertakeSteps(next, i)
  }

  /** Passing over n rules that do not decide. */
  lemma {:induction false} ScansRun(s: State, id: nat, n: nat)
    requires Unfinished(s, id)
    requires var r := s.readers[id]; r.count == |r.list| && r.i + n <= |r.list| && HoldsFrom(s.maps.slots, r.bank, r.list, r.i)
    requires var r := s.readers[id]; forall j | r.i <= j < r.i + n :: !Decides(r.list[j], r.q)
    ensures Runs(s, Scans(id, n))
    ensures After(s, Scans(id, n)) == s.(readers := s.readers[id := s.readers[id].(i := s.readers[id].i + n)])
  {
    hide Runs, After, Decides;
    if n == 0 {
      RunsNil(s);
      assert s.readers[id := s.readers[id]] == s.readers;
    } else {
      var r := s.readers[id];
      ScansRun(s, id, n - 1);
      Extend(s, Scans(id, n - 1), Scan(id));
      assert s.maps.slots[r.bank * RULES_MAX + (r.i + n - 1)] == r.list[r.i + n - 1];
      assert s.readers[id := r.(i := r.i + n - 1)][id := r.(i := r.i + n)] == s.readers[id := r.(i := r.i + n)];
    }
  }

  /** The walk on `list` stands before slot i of bank 1, and bank 1 is live. */
  ghost predicate Halfway(s: State, q: Query, list: seq<Rule>, i: nat) {
    && s.writer.Idle? && s.activeBank == 1 && 0 in s.readers
    && var r := s.readers[0];
      r.q == q && r.bank == 1 && r.count == |list| && r.i == i && r.outcome.None? && r.list == list
  }

  lemma WalkHalfway(s: State, q: Query, list: seq<Rule>, i: nat)
    requires Initial(s) && i < |list| <= RULES_MAX && i <= First(list, q)
    ensures Runs(s, WalkSteps(q, list, i)) && Halfway(After(s, WalkSteps(q, list, i)), q, list, i)
  {
    hide Decides, First, Runs, After, Writes, Scans, SyncPrefix, WriteBank;
    var steps, n := SyncSteps(list), |list|;
    SyncRuns(s, list, false, true);
    WriteBankFills(s.maps.slots, 1, list, n);
    HeldFromStart(After(s, steps).maps.slots, 1, list);
    Extend(s, steps, Snapshot(0, q));
    ScansRun(After(s, steps + [Snapshot(0, q)]), 0, i);
    ExtendAll(s, steps + [Snapshot(0, q)], Scans(0, i));
  }

  lemma Overtake(s: State, q: Query, list: seq<Rule>, i: nat, next: seq<Rule>)
    requires Halfway(s, q, list, i) && i < |list| <= RULES_MAX && i < |next| && Decides(next[i], q)
    ensures Runs(s, OvertakeSteps(next, i))
    ensures var r := After(s, OvertakeSteps(next, i)).readers;
      0 in r && r[0].q == q && r[0].list == list && r[0].overrun && r[0].outcome == Some(Decision(next[i].action, i))
  {
    hide Decides, Runs, After, Writes, SyncPrefix, WriteBank;
    var steps, prefix := SyncSteps([]), SyncPrefix(next, i + 1);
    SyncRuns(s, [], false, true);
    var mid := After(s, steps);
    SyncPrefixRuns(mid, next, i + 1);
    var slots := WriteBank(mid.maps.slots, 1, next, i + 1);
    WriteBankFills(mid.maps.slots, 1, next, i + 1);
    assert slots[RULES_MAX + i] == Bank(slots, 1, i + 1)[i] == next[i];
    ExtendAll(s, steps, prefix);
    Extend(s, steps + prefix, Scan(0));
  }

  /**
   * Whatever list a walk started on and whichever slot it has reached, if that slot is overrun the walk takes
   * the action of the rule it finds there.
   */
  lemma OverrunDecides(s: State, q: Query, list: seq<Rule>, i: nat, next: seq<Rule>)
    requires Initial(s) && i < |list| <= RULES_MAX && i <= First(list, q) && i < |next| && Decides(next[i], q)
    ensures Runs(s, MixSteps(q, list, i, next))
    ensures var r := After(s, MixSteps(q, list, i, next)).readers;
      0 in r && r[0].q == q && r[0].list == list && r[0].overrun && r[0].outcome == Some(Decision(next[i].action, i))
  {
    hide Decides, Runs, After, WalkSteps, OvertakeSteps, Halfway, First;
    WalkHalfway(s, q, list, i);
    Overtake(After(s, WalkSteps(q, list, i)), q, list, i, next);
    ExtendAll(s, WalkSteps(q, list, i), OvertakeSteps(next, i));
  }

  /** The lists the steps set out to publish. */
  ghost predicate OnlySyncs(steps: seq<Step>, lists: seq<seq<Rule>>) {
    forall t <- steps :: !t.SetDefault? && (t.Begin? ==> t.list in lists)
  }

  lemma {:induction false} WritesAndScans(n: nat, lists: seq<seq<Rule>>)
    ensures OnlySyncs(Writes(n), lists) && OnlySyncs(Scans(0, n), lists)
  {
    if n != 0 {
      WritesAndScans(n - 1, lists);
    }
  }

  lemma PrefixSyncs(list: seq<Rule>, n: nat, lists: seq<seq<Rule>>)
    requires list in lists
    ensures OnlySyncs(SyncPrefix(list, n), lists)
  {
    hide Writes;
    WritesAndScans(n, lists);
  }

  lemma MixSyncs(q: Query, list: seq<Rule>, i: nat, next: seq<Rule>)
    ensures OnlySyncs(MixSteps(q, list, i, next), [list, [], next])
  {
    hide SyncPrefix, Scans, Capped;
    var lists := [list, [], next];
    assert lists[0] == list && lists[1] == [] && lists[2] == next;
    PrefixSyncs(list, |Capped(list)|, lists);
    PrefixSyncs([], |Capped<Rule>([])|, lists);
    PrefixSyncs(next, i + 1, lists);
    WritesAndScans(i, lists);
  }

  /** A rule for every packet of the query's direction. */
  function CatchAll(q: Query, action: bv8): Rule {
    EmptyRule().(direction := q.direction, action := action)
  }

  /**
   * No weaker condition on slots would do: for every list, every packet and every slot of the list that the
   * walk reaches, there is a run in which that slot is overrun and the verdict is not that of the snapshot.
   */
  lemma OverrunSharp(s: State, q: Query, list: seq<Rule>, i: nat) returns (steps: seq<Step>)
    requires Initial(s) && i < |list| <= RULES_MAX && i <= First(list, q)
    ensures Runs(s, steps) && forall t <- steps :: !t.SetDefault?
    ensures var r := After(s, steps).readers;
      && 0 in r && r[0].q == q && r[0].list == list && r[0].overrun && r[0].outcome.Some?
      && r[0].outcome.value.action != Decide(list, q, DefaultFor(s.maps, q.direction)).action
  {
    hide Runs, After, First, MixSteps;
    var was := Decide(list, q, DefaultFor(s.maps, q.direction)).action;
    var rule := CatchAll(q, if was == ACT_ALLOW then ACT_DENY else ACT_ALLOW);
    var next := seq(i + 1, _ => rule);
    OverrunDecides(s, q, list, i, next);
    MixSyncs(q, list, i, next);
    steps := MixSteps(q, list, i, next);
  }

  /**
   * An overrun walk can even let through a packet that every list denies. For every list that denies it at
   * slot i > 0 or later there is a run that tries to publish only lists denying it, under a default that
   * denies it, and yet a walk started on that list allows it.
   */
  lemma OverrunMixes(s: State, q: Query, list: seq<Rule>, i: nat) returns (steps: seq<Step>)
    requires Initial(s) && DefaultFor(s.maps, q.direction) == ACT_DENY
    requires 0 < i < |list| <= RULES_MAX && i <= First(list, q) && Decide(list, q, ACT_DENY).action == ACT_DENY
    ensures Runs(s, steps) && forall t <- steps :: !t.SetDefault?
    ensures forall t <- steps :: t.Begin? ==> Decide(Capped(t.list), q, ACT_DENY).action == ACT_DENY
    ensures var r := After(s, steps).readers;
      0 in r && r[0].q == q && r[0].list == list && r[0].overrun && r[0].outcome == Some(Decision(ACT_ALLOW, i))
  {
    hide Runs, After, MixSteps;
    var next := seq(i, _ => CatchAll(q, ACT_DENY)) + [CatchAll(q, ACT_ALLOW)];
    FirstUnique(next, q, 0);
    FirstUnique([], q, 0);
    OverrunDecides(s, q, list, i, next);
    MixSyncs(q, list, i, next);
    steps := MixSteps(q, list, i, next);
    forall t | t in steps && t.Begin?
      ensures Decide(Capped(t.list), q, ACT_DENY).action == ACT_DENY
    {
      assert t.list in [list, [], next];
    }
  }
}
