/** The one-second window that merges drop events before they are logged. */
module Dedupe {
  import opened Common

  datatype DropEvent = DropEvent(
    time: nat,
    ifindex: u32,
    ruleId: u32,
    src: Addr,
    dst: Addr,
    srcPort: u16,
    dstPort: u16,
    proto: bv8,
    family: bv8)

  datatype Key = Key(family: bv8, proto: bv8, src: Addr, dstPort: u16, ifindex: u32, ruleId: u32)

  datatype Accum = Accum(count: nat, sample: DropEvent)

  type Entries = map<Key, Accum>

  /** One logged line. */
  datatype Report = Report(key: Key, accum: Accum)

  function KeyOf(e: DropEvent): Key {
    Key(e.family, e.proto, e.src, e.dstPort, e.ifindex, e.ruleId)
  }

  function Recorded(entries: Entries, e: DropEvent): Entries {
    var k := KeyOf(e);
    if k in entries then entries[k := entries[k].(count := (entries[k].count + 1) % U32_RANGE)]
    else entries[k := Accum(1, e)]
  }

  class DedupeWindow {
    var entries: Entries

    constructor ()
      ensures entries == map[]
    {
      entries := map[];
    }

    method Record(e: DropEvent)
      modifies this
      ensures entries == Recorded(old(entries), e)
      ensures entries.Keys == old(entries).Keys + {KeyOf(e)}
      ensures forall k <- old(entries) ::
        entries[k].sample == old(entries)[k].sample && (k != KeyOf(e) ==> entries[k] == old(entries)[k])
    {
      var k := KeyOf(e);
      if k in entries {
        entries := entries[k := entries[k].(count := (entries[k].count + 1) % U32_RANGE)];
      } else {
        entries := entries[k := Accum(1, e)];
      }
    }

    /** Drain the window, in whatever order the map yields its entries. */
    method Flush() returns (reports: seq<Report>)
      modifies this
      ensures entries == map[]
      ensures Drains(reports, old(entries))
    {
      reports := [];
      if entries == map[] {
        return;
      }
      var rest := entries.Keys;
      ghost var done: Entries := map[];
      while rest != {}
        invariant entries == old(entries) && rest <= entries.Keys && done.Keys == entries.Keys - rest
        invariant forall k <- done :: done[k] == entries[k]
        invariant Drains(reports, done)
      {
        var k :| k in rest;
        DrainOne(reports, done, k, entries[k]);
        done := done[k := entries[k]];
        reports := reports + [Report(k, entries[k])];
        rest := rest - {k};
      }
      assert done == entries;
      entries := map[];
    }
  }

  /** The reports list every entry exactly once, and nothing else. */
  ghost predicate Drains(reports: seq<Report>, entries: Entries) {
    && (forall r <- reports :: r.key in entries && r.accum == entries[r.key])
    && (forall i, j | 0 <= i < j < |reports| :: reports[i].key != reports[j].key)
    && (forall k <- entries :: Report(k, entries[k]) in reports)
  }

  lemma DrainOne(reports: seq<Report>, entries: Entries, k: Key, a: Accum)
    requires Drains(reports, entries) && k !in entries
    ensures Drains(reports + [Report(k, a)], entries[k := a])
  {
    var reports', entries' := reports + [Report(k, a)], entries[k := a];
    forall k' | k' in entries'
      ensures Report(k', entries'[k']) in reports'
    {
      if k' == k {
        assert reports'[|reports|] == Report(k, a);
      } else {
        assert Report(k', entries[k']) in reports;
      }
    }
  }

  // ---------------------------------------------------------------------
  // Whole runs
  // ---------------------------------------------------------------------

  /** A run of the drainer: an event arrives, or the window is flushed with these reports. */
  datatype Op = Hit(event: DropEvent) | Tick(reports: seq<Report>)

  function Pending(ops: seq<Op>): Entries {
    if ops == [] then map[]
    else
      match ops[|ops| - 1]
      case Hit(e) => Recorded(Pending(ops[..|ops| - 1]), e)
      case Tick(_) => map[]
  }

  /** Every flush reports what was pending. */
  ghost predicate ValidOps(ops: seq<Op>) {
    forall i | 0 <= i < |ops| && ops[i].Tick? :: Drains(ops[i].reports, Pending(ops[..i]))
  }

  /** The events of the current window that fall under key k, oldest first. */
  function Window(ops: seq<Op>, k: Key): seq<DropEvent> {
    if ops == [] then []
    else
      match ops[|ops| - 1]
      case Hit(e) => Window(ops[..|ops| - 1], k) + if KeyOf(e) == k then [e] else []
      case Tick(_) => []
  }

  /** Fewer than 2^32 hits of k in every window. */
  ghost predicate NoOverflow(ops: seq<Op>, k: Key) {
    forall n | 0 <= n <= |ops| :: |Window(ops[..n], k)| < U32_RANGE
  }

  /** The pending entry of k counts the window's events and keeps the first as its sample. */
  lemma {:induction false} PendingIsWindow(ops: seq<Op>, k: Key)
    requires NoOverflow(ops, k)
    ensures k in Pending(ops) <==> Window(ops, k) != []
    ensures k in Pending(ops) ==> Pending(ops)[k] == Accum(|Window(ops, k)|, Window(ops, k)[0])
  {
    if ops != [] {
      var n := |ops| - 1;
      PrefixNoOverflow(ops, n, k);
      PendingIsWindow(ops[..n], k);
      assert ops[..|ops|] == ops;
    }
  }

  lemma PrefixNoOverflow(ops: seq<Op>, n: nat, k: Key)
    requires n <= |ops| && NoOverflow(ops, k)
    ensures NoOverflow(ops[..n], k)
  {
    forall m | 0 <= m <= n
      ensures |Window(ops[..n][..m], k)| < U32_RANGE
    {
      assert ops[..n][..m] == ops[..m];
    }
  }

  function CountIn(reports: seq<Report>, k: Key): nat {
    if reports == [] then 0
    else
      var n := |reports| - 1;
      CountIn(reports[..n], k) + if reports[n].key == k then reports[n].accum.count else 0
  }

  /** Hits of k reported by all flushes so far. */
  function Reported(ops: seq<Op>, k: Key): nat {
    if ops == [] then 0
    else
      var n := |ops| - 1;
      Reported(ops[..n], k) + if ops[n].Tick? then CountIn(ops[n].reports, k) else 0
  }

  function Hits(ops: seq<Op>, k: Key): nat {
    if ops == [] then 0
    else
      var n := |ops| - 1;
      Hits(ops[..n], k) + if ops[n].Hit? && KeyOf(ops[n].event) == k then 1 else 0
  }

  lemma {:induction false} CountAbsent(reports: seq<Report>, k: Key)
    requires forall r <- reports :: r.key != k
    ensures CountIn(reports, k) == 0
  {
    if reports != [] {
      CountAbsent(reports[..|reports| - 1], k);
    }
  }

  lemma {:induction false} CountOnce(reports: seq<Report>, k: Key, i: nat)
    requires i < |reports| && reports[i].key == k
    requires forall a, b | 0 <= a < b < |reports| :: reports[a].key != reports[b].key
    ensures CountIn(reports, k) == reports[i].accum.count
  {
    var n := |reports| - 1;
    if i == n {
      CountAbsent(reports[..n], k);
    } else {
      CountOnce(reports[..n], k, i);
    }
  }

  lemma CountDrained(reports: seq<Report>, entries: Entries, k: Key)
    requires Drains(reports, entries)
    ensures CountIn(reports, k) == if k in entries then entries[k].count else 0
  {
    if k in entries {
      var i :| 0 <= i < |reports| && reports[i] == Report(k, entries[k]);
      CountOnce(reports, k, i);
    } else {
      CountAbsent(reports, k);
    }
  }

  /** Nothing is lost or invented: reported plus pending hits of k are the hits of k. */
  lemma {:induction false} HitsConserved(ops: seq<Op>, k: Key)
    requires ValidOps(ops) && NoOverflow(ops, k)
    ensures Hits(ops, k) == Reported(ops, k) + |Window(ops, k)|
    ensures |Window(ops, k)| == if k in Pending(ops) then Pending(ops)[k].count else 0
  {
    hide Drains;
    PendingIsWindow(ops, k);
    if ops != [] {
      var n := |ops| - 1;
      PrefixNoOverflow(ops, n, k);
      assert ValidOps(ops[..n]) by {
        assert forall i | 0 <= i < n :: ops[..n][..i] == ops[..i];
      }
      HitsConserved(ops[..n], k);
      if ops[n].Tick? {
        CountDrained(ops[n].reports, Pending(ops[..n]), k);
      }
    }
  }

  /** A flush reports each key of its window once, with the window's count and first event, and no other key. */
  lemma FlushReportsWindow(ops: seq<Op>, n: nat, k: Key)
    requires ValidOps(ops) && n < |ops| && ops[n].Tick? && NoOverflow(ops[..n], k)
    ensures var w, reports := Window(ops[..n], k), ops[n].reports;
      && (w == [] ==> forall r <- reports :: r.key != k)
      && (w != [] ==>
            && Report(k, Accum(|w|, w[0])) in reports
            && forall i, j | 0 <= i < |reports| && 0 <= j < |reports| && reports[i].key == reports[j].key == k :: i == j)
  {
    PendingIsWindow(ops[..n], k);
    assert Drains(ops[n].reports, Pending(ops[..n]));
  }

  // ---------------------------------------------------------------------
  // Which events are merged
  // ---------------------------------------------------------------------

  /** One source, refused by one rule on one interface, knocking at one port; destination and source port may differ. */
  ghost predicate Alike(a: DropEvent, b: DropEvent) {
    && a.family == b.family && a.proto == b.proto && a.src == b.src
    && a.dstPort == b.dstPort && a.ifindex == b.ifindex && a.ruleId == b.ruleId
  }

  /** Events like e since the last flush. */
  ghost function AlikeSinceFlush(ops: seq<Op>, e: DropEvent): nat {
    if ops == [] then 0
    else
      match ops[|ops| - 1]
      case Hit(x) => AlikeSinceFlush(ops[..|ops| - 1], e) + if Alike(x, e) then 1 else 0
      case Tick(_) => 0
  }

  /** Over every run, the entry an event falls under counts exactly the events like it since the last flush. */
  lemma {:induction false} EntryCountsAlike(ops: seq<Op>, e: DropEvent)
    requires NoOverflow(ops, KeyOf(e))
    ensures (if KeyOf(e) in Pending(ops) then Pending(ops)[KeyOf(e)].count else 0) == AlikeSinceFlush(ops, e)
    ensures KeyOf(e) in Pending(ops) ==> Alike(Pending(ops)[KeyOf(e)].sample, e)
  {
    if ops != [] {
      var n := |ops| - 1;
      PrefixNoOverflow(ops, n, KeyOf(e));
      PendingIsWindow(ops, KeyOf(e));
      PendingIsWindow(ops[..n], KeyOf(e));
      EntryCountsAlike(ops[..n], e);
    }
  }
}
