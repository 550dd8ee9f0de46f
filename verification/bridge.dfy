/** The daemon's requests, as one participant of the publication protocol. */
module Bridge {
  import opened Common
  import opened Rules
  import opened Wire
  import D = Daemon
  import Laws = DaemonLaws
  import P = Publication

  /** The protocol state seen by a daemon that is not in the middle of a request. */
  ghost predicate Sees(d: D.State, p: P.State) {
    p.maps == d.maps && p.activeBank == d.activeBank && p.writer.Idle?
  }

  // ---------------------------------------------------------------------
  // A request is a run of protocol steps
  // ---------------------------------------------------------------------

  function DefaultsScript(d: D.State, f: D.Faults): seq<P.Step> {
    if f.defaultIn then []
    else
      [P.SetDefault(DIR_IN, ActionByte(d.store.defaultIn))] +
      if f.defaultOut then [] else [P.SetDefault(DIR_OUT, ActionByte(d.store.defaultOut))]
  }

  /** The steps of a sync, complete or aborted by a failing slot write. */
  function SyncScript(h: D.Host, d: D.State, f: D.Faults): seq<P.Step> {
    match Compile(h.texts, h.table, d.store.rules)
    case Err => []
    case Ok(ws) =>
      var n := |Capped(ws)|;
      var k := D.SlotsWritten(n, f);
      P.SyncPrefix(ws, k) + [if k < n then P.FailSlot else P.Flip(d.store.logging, D.NeedsConntrack(d.store))]
  }

  /** The steps of a request whose CONFIG write, if it gets that far, succeeds. */
  function Script(h: D.Host, d: D.State, c: Laws.Call): seq<P.Step> {
    match D.Edit(d.store, c.req)
    case Err => []
    case Ok(store) =>
      if c.faults.save then []
      else
        var s := D.SyncDefaults(d.(store := store), c.faults);
        DefaultsScript(d.(store := store), c.faults) + if s.ok then SyncScript(h, s.state, c.faults) else []
  }

  /** With the CONFIG write succeeding, a sync leaves the maps its protocol steps leave. */
  lemma SyncIsARun(h: D.Host, d: D.State, f: D.Faults, p: P.State)
    requires d.activeBank <= 1 && !f.config && Sees(d, p)
    ensures P.Runs(p, SyncScript(h, d, f))
    ensures Sees(D.SyncRules(h, d, f).state, P.After(p, SyncScript(h, d, f)))
  {
    hide P.Runs, P.After, P.SyncPrefix, Compile, D.NeedsConntrack, WriteBank;
    var c := Compile(h.texts, h.table, d.store.rules);
    if c.Err? {
      P.RunsNil(p);
    } else {
      var n := |Capped(c.value)|;
      var k := D.SlotsWritten(n, f);
      if k < n {
        P.SyncPrefixRuns(p, c.value, k);
        P.Extend(p, P.SyncPrefix(c.value, k), P.FailSlot);
      } else {
        P.SyncRuns(p, c.value, d.store.logging, D.NeedsConntrack(d.store));
      }
    }
  }

  lemma DefaultsAreARun(d: D.State, f: D.Faults, p: P.State)
    requires Sees(d, p)
    ensures P.Runs(p, DefaultsScript(d, f))
    ensures Sees(D.SyncDefaults(d, f).state, P.After(p, DefaultsScript(d, f)))
  {
    hide P.Runs, P.After;
    P.RunsNil(p);
    if !f.defaultIn {
      var first := P.SetDefault(DIR_IN, ActionByte(d.store.defaultIn));
      P.Extend(p, [], first);
      assert [] + [first] == [first] && [first] + [] == [first];
      if !f.defaultOut {
        P.Extend(p, [first], P.SetDefault(DIR_OUT, ActionByte(d.store.defaultOut)));
      }
    }
  }

  /** A whole request, failed or not, is a run of its script. */
  lemma RequestIsARun(h: D.Host, d: D.State, c: Laws.Call, p: P.State)
    requires d.activeBank <= 1 && !c.faults.config && Sees(d, p)
    ensures P.Runs(p, Script(h, d, c))
    ensures Sees(D.Handle(h, d, c.req, c.faults).state, P.After(p, Script(h, d, c)))
  {
    hide P.Runs, P.After, D.Edit, D.SyncRules, SyncScript, DefaultsScript;
    var e := D.Edit(d.store, c.req);
    P.RunsNil(p);
    if e.Ok? && !c.faults.save {
      var d1 := d.(store := e.value);
      var s, first := D.SyncDefaults(d1, c.faults), DefaultsScript(d1, c.faults);
      DefaultsAreARun(d1, c.faults, p);
      assert first + [] == first;
      if s.ok {
        SyncIsARun(h, s.state, c.faults, P.After(p, first));
        P.ExtendAll(p, first, SyncScript(h, s.state, c.faults));
      }
    }
  }

  // ---------------------------------------------------------------------
  // The flip is the last step
  // ---------------------------------------------------------------------

  lemma {:induction false} PrefixNeverFlips(list: seq<Rule>, n: nat)
    ensures forall t <- P.SyncPrefix(list, n) :: !t.Flip?
  {
    if n != 0 {
      PrefixNeverFlips(list, n - 1);
      assert P.SyncPrefix(list, n) == P.SyncPrefix(list, n - 1) + [P.WriteSlot];
    }
  }

  lemma FlipIsLast(h: D.Host, d: D.State, c: Laws.Call)
    ensures forall i | 0 <= i < |Script(h, d, c)| - 1 :: !Script(h, d, c)[i].Flip?
  {
    hide P.SyncPrefix, D.Edit, Compile, D.NeedsConntrack;
    var e := D.Edit(d.store, c.req);
    if e.Ok? {
      var s := D.SyncDefaults(d.(store := e.value), c.faults);
      var ws := Compile(h.texts, h.table, e.value.rules);
      if s.ok && ws.Ok? {
        PrefixNeverFlips(ws.value, D.SlotsWritten(|Capped(ws.value)|, c.faults));
      }
    }
  }

  lemma {:induction false} OnlyFlipsPublish(p: P.State, steps: seq<P.Step>)
    requires P.Runs(p, steps) && forall t <- steps :: !t.Flip?
    ensures P.After(p, steps).published == p.published
    decreases |steps|
  {
    if steps != [] {
      OnlyFlipsPublish(P.Next(p, steps[0]), steps[1..]);
    }
  }

  // ---------------------------------------------------------------------
  // Requests interleaved with packets
  // ---------------------------------------------------------------------

  /** The steps of a packet's walk; all others are the daemon's. */
  predicate ByPacket(t: P.Step) {
    t.Snapshot? || t.Scan? || t.Finish?
  }

  function DaemonSteps(steps: seq<P.Step>): seq<P.Step> {
    if steps == [] then []
    else (if ByPacket(steps[0]) then [] else [steps[0]]) + DaemonSteps(steps[1..])
  }

  lemma {:induction false} DaemonStepsConcat(a: seq<P.Step>, b: seq<P.Step>)
    ensures DaemonSteps(a + b) == DaemonSteps(a) + DaemonSteps(b)
    decreases |a|
  {
    if a == [] {
      assert a + b == b;
    } else {
      assert (a + b)[1..] == a[1..] + b;
      DaemonStepsConcat(a[1..], b);
    }
  }

  /** The two states differ in their walks only. */
  ghost predicate SameControl(a: P.State, b: P.State) {
    a.maps == b.maps && a.activeBank == b.activeBank && a.writer == b.writer && a.published == b.published
  }

  lemma StepControl(a: P.State, b: P.State, t: P.Step)
    requires SameControl(a, b) && P.Enabled(a, t)
    ensures ByPacket(t) ==> SameControl(P.Next(a, t), b)
    ensures !ByPacket(t) ==> P.Enabled(b, t) && SameControl(P.Next(a, t), P.Next(b, t))
  {
    hide Decides;
  }

  /** Packets never influence the control plane: without them the daemon's steps run just the same. */
  lemma {:induction false} PacketsAreReaders(a: P.State, b: P.State, steps: seq<P.Step>)
    requires SameControl(a, b) && P.Runs(a, steps)
    ensures P.Runs(b, DaemonSteps(steps)) && SameControl(P.After(a, steps), P.After(b, DaemonSteps(steps)))
    decreases |steps|
  {
    hide P.Enabled, P.Next, SameControl, ByPacket;
    if steps != [] {
      var t, rest := steps[0], steps[1..];
      StepControl(a, b, t);
      if ByPacket(t) {
        PacketsAreReaders(P.Next(a, t), b, rest);
        assert DaemonSteps(steps) == DaemonSteps(rest);
      } else {
        PacketsAreReaders(P.Next(a, t), P.Next(b, t), rest);
        assert DaemonSteps(steps)[1..] == DaemonSteps(rest);
      }
    }
  }

  /** The steps of a sequence of requests, one after another. */
  ghost function Scripts(h: D.Host, d: D.State, calls: seq<Laws.Call>): seq<P.Step>
    requires d.activeBank <= 1
    decreases |calls|
  {
    if calls == [] then []
    else Script(h, d, calls[0]) + Scripts(h, D.Handle(h, d, calls[0].req, calls[0].faults).state, calls[1..])
  }

  /**
   * The daemon has taken `steps`, some way into the requests. This is the store of the last request that has
   * come to its end with Ok, or `last` if there is none.
   */
  ghost function Committed(h: D.Host, d: D.State, calls: seq<Laws.Call>, steps: seq<P.Step>, last: D.Store): D.Store
    requires d.activeBank <= 1
    decreases |calls|
  {
    if calls == [] || |steps| < |Script(h, d, calls[0])| then last
    else
      var o := D.Handle(h, d, calls[0].req, calls[0].faults);
      Committed(h, o.state, calls[1..], steps[|Script(h, d, calls[0])|..], if o.ok then o.state.store else last)
  }

  /** At every point within a sequence of requests the published list is that of the last Ok request. */
  lemma {:induction false} PublishedIsCommitted(
    h: D.Host, d: D.State, calls: seq<Laws.Call>, p: P.State, steps: seq<P.Step>, last: D.Store
  )
    requires P.Inv(p) && Sees(d, p) && Laws.TwoBanks(d) && Laws.Publishes(h, d.maps, last)
    requires Laws.ConfigWritesSucceed(calls)
    requires P.Runs(p, steps) && steps <= Scripts(h, d, calls)
    ensures var rules := Committed(h, d, calls, steps, last).rules;
      && Compile(h.texts, h.table, rules).Ok?
      && P.After(p, steps).published == Capped(Compile(h.texts, h.table, rules).value)
    decreases |calls|
  {
    hide P.Inv, P.Runs, P.After, D.Handle, Script, Compile, Live, D.ConfigFor;
    P.RunsNil(p);
    P.LiveIsPublished(p, []);
    if calls != [] {
      var c := calls[0];
      var script, o := Script(h, d, c), D.Handle(h, d, c.req, c.faults);
      if |steps| < |script| {
        assert forall i | 0 <= i < |steps| :: steps[i] == Scripts(h, d, calls)[i] == script[i];
        FlipIsLast(h, d, c);
        OnlyFlipsPublish(p, steps);
      } else {
        var rest := steps[|script|..];
        assert steps == script + rest;
        P.Split(p, script, rest);
        P.RunKeepsInv(p, script);
        RequestIsARun(h, d, c, p);
        StepsLive(d, p);
        Laws.HandleMaps(h, d, c.req, c.faults);
        Laws.CallKeepsLastOk(h, d, c, last);
        PublishedIsCommitted(h, o.state, calls[1..], P.After(p, script), rest, if o.ok then o.state.store else last);
      }
    }
  }

  /** Freshly loaded maps, all zero, publish the empty store. */
  lemma FreshPublishes(h: D.Host, p: P.State)
    requires P.Initial(p) && !p.maps.config.loggingEnabled && !p.maps.config.conntrackEnabled
    ensures P.Inv(p) && Laws.Publishes(h, p.maps, D.Store(Allow, Allow, false, []))
  {
    P.InitialInv(p);
  }

  lemma StepsLive(d: D.State, p: P.State)
    requires P.Inv(p) && Sees(d, p)
    ensures Laws.InStep(d)
  {}
}
