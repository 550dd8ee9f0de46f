/** The language of rule specifications, described without a parser, and the parser's agreement with it. */
module Language {
  import opened Common
  import opened Grammar

  // ---------------------------------------------------------------------
  // The language
  // ---------------------------------------------------------------------

  datatype Clause =
    | On(name: string)
    | From(addr: string, port: Option<string>)
    | To(addr: string, port: Option<string>)
    | Port(value: string)
    | Proto(name: string)

  function Spell(c: Clause): (toks: Tokens)
    ensures toks != []
  {
    match c
    case On(n) => ["on", n]
    case From(a, p) => ["from", a] + PortClause(p)
    case To(a, p) => ["to", a] + PortClause(p)
    case Port(p) => ["port", p]
    case Proto(n) => ["proto", n]
  }

  function SpellAll(cs: seq<Clause>): Tokens {
    if cs == [] then [] else Spell(cs[0]) + SpellAll(cs[1..])
  }

  /** The clause could still take a port; a `port` written right after it is its own. */
  predicate Open(c: Clause) {
    (c.From? || c.To?) && c.port.None?
  }

  predicate NoPortAfterOpen(cs: seq<Clause>) {
    forall i | 0 < i < |cs| :: Open(cs[i - 1]) ==> !cs[i].Port?
  }

  // What the clauses give for each part of a rule, in the order written.

  function Given<T>(cs: seq<Clause>, part: Clause -> seq<T>): seq<T> {
    if cs == [] then [] else part(cs[0]) + Given(cs[1..], part)
  }

  function IfaceOf(c: Clause): seq<string> {
    if c.On? then [c.name] else []
  }

  function SourceOf(c: Clause): seq<(string, Option<string>)> {
    if c.From? then [(c.addr, c.port)] else []
  }

  function TargetOf(c: Clause): seq<string> {
    if c.To? then [c.addr] else []
  }

  function DstPortOf(c: Clause): seq<string> {
    match c
    case Port(p) => [p]
    case To(_, Some(p)) => [p]
    case _ => []
  }

  function ProtoOf(c: Clause): seq<string> {
    if c.Proto? then [c.name] else []
  }

  function Ifaces(cs: seq<Clause>): seq<string> {
    Given(cs, IfaceOf)
  }

  function Sources(cs: seq<Clause>): seq<(string, Option<string>)> {
    Given(cs, SourceOf)
  }

  function Targets(cs: seq<Clause>): seq<string> {
    Given(cs, TargetOf)
  }

  function DstPorts(cs: seq<Clause>): seq<string> {
    Given(cs, DstPortOf)
  }

  function Protos(cs: seq<Clause>): seq<string> {
    Given(cs, ProtoOf)
  }

  /** The word, in letters of either case. */
  predicate SameWord(s: string, word: string) {
    && |s| == |word|
    && forall i | 0 <= i < |s| :: s[i] == word[i] || ('A' <= s[i] <= 'Z' && s[i] as int + 32 == word[i] as int)
  }

  function Only<T>(given: seq<T>): Option<T> {
    if given == [] then None else Some(given[0])
  }

  /** An address, where `any` stands for none. */
  function OnlyAddress(given: seq<string>): Option<string> {
    if given == [] || given[0] == "any" then None else Some(given[0])
  }

  /** No part is given twice, and names of interfaces are valid. */
  ghost predicate AtMostOnce(cs: seq<Clause>) {
    && |Ifaces(cs)| <= 1 && |Sources(cs)| <= 1 && |Targets(cs)| <= 1 && |DstPorts(cs)| <= 1 && |Protos(cs)| <= 1
    && forall n <- Ifaces(cs) :: ValidIfaceName(n)
  }

  /** r has the parts the clauses give, and no others. */
  ghost predicate Describes(cs: seq<Clause>, r: UserRule) {
    && AtMostOnce(cs)
    && r.iface == Only(Ifaces(cs))
    && r.src == (if Sources(cs) == [] then None else OnlyAddress([Sources(cs)[0].0]))
    && r.srcPort == (if Sources(cs) == [] then None else Sources(cs)[0].1)
    && r.dst == OnlyAddress(Targets(cs))
    && r.dstPort == Only(DstPorts(cs))
    && (if Protos(cs) == [] then r.proto.None? else r.proto.Some? && SameWord(Protos(cs)[0], ProtoName(r.proto.value)))
  }

  /** The tokens spell at most one direction, inbound if none, and then clauses that give r. */
  ghost predicate Spells(action: Action, toks: Tokens, r: UserRule, dir: Option<Direction>, cs: seq<Clause>) {
    && toks == (if dir.Some? then [DirectionName(dir.value)] else []) + SpellAll(cs)
    && NoPortAfterOpen(cs)
    && r.action == action && r.direction == (if dir.Some? then dir.value else In)
    && Describes(cs, r)
  }

  // ---------------------------------------------------------------------
  // Reading one clause
  // ---------------------------------------------------------------------

  function FirstClause(toks: Tokens): Result<Clause>
    requires toks != []
  {
    if |toks| < 2 then Err
    else if toks[0] == "on" then Ok(On(toks[1]))
    else if toks[0] == "port" then Ok(Port(toks[1]))
    else if toks[0] == "proto" then Ok(Proto(toks[1]))
    else if toks[0] != "from" && toks[0] != "to" then Err
    else if |toks| > 2 && toks[2] == "port" then
      if |toks| == 3 then Err
      else Ok(if toks[0] == "from" then From(toks[1], Some(toks[3])) else To(toks[1], Some(toks[3])))
    else Ok(if toks[0] == "from" then From(toks[1], None) else To(toks[1], None))
  }

  lemma FirstSpelled(toks: Tokens)
    requires toks != [] && FirstClause(toks).Ok?
    ensures var c := FirstClause(toks).value; |Spell(c)| <= |toks| && toks == Spell(c) + toks[|Spell(c)|..]
    ensures var c := FirstClause(toks).value;
      Open(c) && |Spell(c)| < |toks| ==> toks[|Spell(c)|] != "port"
  {}

  lemma SpelledFirst(c: Clause, rest: Tokens)
    requires Open(c) && rest != [] ==> rest[0] != "port"
    ensures FirstClause(Spell(c) + rest) == Ok(c) && (Spell(c) + rest)[|Spell(c)|..] == rest
  {}

  /** The parser would take this clause next. */
  predicate Fits(rule: UserRule, f: bool, t: bool, c: Clause) {
    match c
    case On(n) => rule.iface.None? && ValidIfaceName(n)
    case From(_, _) => !f
    case To(_, p) => !t && (p.Some? ==> rule.dstPort.None?)
    case Port(_) => rule.dstPort.None?
    case Proto(n) => rule.proto.None? && ParseProto(n).Ok?
  }

  function Filled(rule: UserRule, c: Clause): UserRule
    requires c.Proto? ==> ParseProto(c.name).Ok?
  {
    match c
    case On(n) => rule.(iface := Some(n))
    case From(a, p) => rule.(src := Address(a, rule.src), srcPort := if p.Some? then p else rule.srcPort)
    case To(a, p) => rule.(dst := Address(a, rule.dst), dstPort := if p.Some? then p else rule.dstPort)
    case Port(p) => rule.(dstPort := Some(p))
    case Proto(n) => rule.(proto := Some(ParseProto(n).value))
  }

  /** The parser works through the tokens clause by clause. */
  lemma ClausesStep(rule: UserRule, f: bool, t: bool, toks: Tokens)
    requires toks != []
    ensures FirstClause(toks).Err? ==> Clauses(rule, f, t, toks) == Err
    ensures FirstClause(toks).Ok? ==>
      var c := FirstClause(toks).value;
      && |Spell(c)| <= |toks|
      && Clauses(rule, f, t, toks) ==
         if Fits(rule, f, t, c) then Clauses(Filled(rule, c), f || c.From?, t || c.To?, toks[|Spell(c)|..]) else Err
  {
    hide ParseProto, ValidIfaceName;
  }

  // ---------------------------------------------------------------------
  // What has been read so far
  // ---------------------------------------------------------------------

  lemma {:induction false} GivenConcat<T>(a: seq<Clause>, b: seq<Clause>, part: Clause -> seq<T>)
    ensures Given(a + b, part) == Given(a, part) + Given(b, part)
  {
    if a == [] {
      assert a + b == b;
    } else {
      assert (a + b)[1..] == a[1..] + b;
      GivenConcat(a[1..], b, part);
    }
  }

  lemma GivenMore<T>(done: seq<Clause>, c: Clause, part: Clause -> seq<T>)
    ensures Given(done + [c], part) == if part(c) == [] then Given(done, part) else Given(done, part) + part(c)
  {
    GivenConcat(done, [c], part);
    assert [c][1..] == [];
    assert Given([c], part) == part(c);
  }

  lemma AllGivenMore(done: seq<Clause>, c: Clause)
    ensures Ifaces(done + [c]) == if c.On? then Ifaces(done) + [c.name] else Ifaces(done)
    ensures Sources(done + [c]) == if c.From? then Sources(done) + [(c.addr, c.port)] else Sources(done)
    ensures Targets(done + [c]) == if c.To? then Targets(done) + [c.addr] else Targets(done)
    ensures DstPorts(done + [c]) == if DstPortOf(c) == [] then DstPorts(done) else DstPorts(done) + DstPortOf(c)
    ensures Protos(done + [c]) == if c.Proto? then Protos(done) + [c.name] else Protos(done)
  {
    hide Given;
    GivenMore(done, c, IfaceOf);
    GivenMore(done, c, SourceOf);
    GivenMore(done, c, TargetOf);
    GivenMore(done, c, DstPortOf);
    GivenMore(done, c, ProtoOf);
  }

  /** Further clauses only add. */
  lemma AllGivenGrow(a: seq<Clause>, b: seq<Clause>)
    ensures Ifaces(a) <= Ifaces(a + b) && Sources(a) <= Sources(a + b) && Targets(a) <= Targets(a + b)
    ensures DstPorts(a) <= DstPorts(a + b) && Protos(a) <= Protos(a + b)
  {
    hide Given;
    GivenConcat(a, b, IfaceOf);
    GivenConcat(a, b, SourceOf);
    GivenConcat(a, b, TargetOf);
    GivenConcat(a, b, DstPortOf);
    GivenConcat(a, b, ProtoOf);
  }

  lemma ProtoReads(s: string, p: Protocol)
    ensures ParseProto(s) == Ok(p) <==> SameWord(s, ProtoName(p))
  {
    assert forall i | 0 <= i < |s| :: Lower(s)[i] == LowerChar(s[i]);
    assert |Lower(s)| == |s|;
    if SameWord(s, ProtoName(p)) {
      assert Lower(s) == ProtoName(p);
    }
  }

  /** Having read the clauses `done`, the parser holds the rule they describe. */
  ghost predicate HasRead(done: seq<Clause>, rule: UserRule, f: bool, t: bool) {
    Describes(done, rule) && f == (Sources(done) != []) && t == (Targets(done) != [])
  }

  lemma ReadName(done: seq<Clause>, rule: UserRule, f: bool, t: bool, c: Clause)
    requires HasRead(done, rule, f, t) && Fits(rule, f, t, c) && (c.On? || c.Proto?)
    ensures HasRead(done + [c], Filled(rule, c), f, t)
  {
    hide Ifaces, Sources, Targets, DstPorts, Protos, ParseProto, SameWord, ValidIfaceName, OnlyAddress;
    AllGivenMore(done, c);
    if c.Proto? {
      ProtoReads(c.name, ParseProto(c.name).value);
    }
  }

  lemma ReadPlace(done: seq<Clause>, rule: UserRule, f: bool, t: bool, c: Clause)
    requires HasRead(done, rule, f, t) && Fits(rule, f, t, c) && (c.From? || c.To? || c.Port?)
    ensures HasRead(done + [c], Filled(rule, c), f || c.From?, t || c.To?)
  {
    hide Ifaces, Sources, Targets, DstPorts, Protos, SameWord, ValidIfaceName;
    AllGivenMore(done, c);
  }

  lemma ReadOne(done: seq<Clause>, rule: UserRule, f: bool, t: bool, c: Clause)
    requires HasRead(done, rule, f, t) && Fits(rule, f, t, c)
    ensures HasRead(done + [c], Filled(rule, c), f || c.From?, t || c.To?)
  {
    hide HasRead, ParseProto, ValidIfaceName;
    if c.On? || c.Proto? {
      ReadName(done, rule, f, t, c);
    } else {
      ReadPlace(done, rule, f, t, c);
    }
  }

  /** A clause that does not fit is in no description, whatever follows. */
  lemma Misfit(done: seq<Clause>, rule: UserRule, f: bool, t: bool, c: Clause, rest: seq<Clause>, r: UserRule)
    requires HasRead(done, rule, f, t) && !Fits(rule, f, t, c)
    ensures !Describes(done + [c] + rest, r)
  {
    hide Ifaces, Sources, Targets, DstPorts, Protos, ParseProto, SameWord, ValidIfaceName;
    AllGivenGrow(done + [c], rest);
    AllGivenMore(done, c);
    if c.Proto? && r.proto.Some? {
      ProtoReads(c.name, r.proto.value);
    }
  }

  lemma DescribesUnique(cs: seq<Clause>, a: UserRule, b: UserRule)
    requires Describes(cs, a) && Describes(cs, b) && a.action == b.action && a.direction == b.direction
    ensures a == b
  {
    hide SameWord, ParseProto;
    if Protos(cs) != [] {
      ProtoReads(Protos(cs)[0], a.proto.value);
      ProtoReads(Protos(cs)[0], b.proto.value);
    }
  }

  // ---------------------------------------------------------------------
  // The parser accepts the language and nothing else
  // ---------------------------------------------------------------------

  lemma SpelledHead(cs: seq<Clause>)
    requires cs != []
    ensures SpellAll(cs) != [] && (SpellAll(cs)[0] == "port" <==> cs[0].Port?)
  {}

  lemma {:induction false} AcceptsOnly(
    done: seq<Clause>, rule: UserRule, f: bool, t: bool, toks: Tokens, r: UserRule
  ) returns (cs: seq<Clause>)
    requires HasRead(done, rule, f, t) && Clauses(rule, f, t, toks) == Ok(r)
    ensures toks == SpellAll(cs) && NoPortAfterOpen(cs) && Describes(done + cs, r)
    ensures r.action == rule.action && r.direction == rule.direction
    decreases |toks|
  {
    hide Clauses, Describes, FirstClause, Fits, Spell, ParseProto;
    if toks == [] {
      cs := [];
      assert done + cs == done;
      NothingLeft(rule, f, t);
    } else {
      ClausesStep(rule, f, t, toks);
      var c := FirstClause(toks).value;
      FirstSpelled(toks);
      ReadOne(done, rule, f, t, c);
      FilledProto(rule, f, t, c);
      FilledFrame(rule, c);
      var more := AcceptsOnly(done + [c], Filled(rule, c), f || c.From?, t || c.To?, toks[|Spell(c)|..], r);
      cs := [c] + more;
      assert done + [c] + more == done + cs;
      if more != [] {
        SpelledHead(more);
      }
    }
  }

  lemma NothingLeft(rule: UserRule, f: bool, t: bool)
    ensures Clauses(rule, f, t, []) == Ok(rule)
  {}

  lemma FilledProto(rule: UserRule, f: bool, t: bool, c: Clause)
    requires Fits(rule, f, t, c)
    ensures c.Proto? ==> ParseProto(c.name).Ok?
  {}

  lemma FilledFrame(rule: UserRule, c: Clause)
    requires c.Proto? ==> ParseProto(c.name).Ok?
    ensures Filled(rule, c).action == rule.action && Filled(rule, c).direction == rule.direction
  {}

  lemma {:induction false} AcceptsAll(done: seq<Clause>, rule: UserRule, f: bool, t: bool, cs: seq<Clause>, r: UserRule)
    requires HasRead(done, rule, f, t) && NoPortAfterOpen(cs) && Describes(done + cs, r)
    requires r.action == rule.action && r.direction == rule.direction
    ensures Clauses(rule, f, t, SpellAll(cs)) == Ok(r)
    decreases |cs|
  {
    hide Clauses, Describes, FirstClause, Fits, Spell, ParseProto;
    if cs == [] {
      assert done + cs == done;
      DescribesUnique(done, rule, r);
      NothingLeft(rule, f, t);
    } else {
      var c, rest := cs[0], cs[1..];
      assert done + cs == done + [c] + rest;
      if rest != [] {
        SpelledHead(rest);
        assert rest[0] == cs[1];
      }
      SpelledFirst(c, SpellAll(rest));
      ClausesStep(rule, f, t, SpellAll(cs));
      if !Fits(rule, f, t, c) {
        Misfit(done, rule, f, t, c, rest, r);
      }
      FilledProto(rule, f, t, c);
      FilledFrame(rule, c);
      ReadOne(done, rule, f, t, c);
      AcceptsAll(done + [c], Filled(rule, c), f || c.From?, t || c.To?, rest, r);
    }
  }

  lemma BlankRead(action: Action, dir: Direction)
    ensures HasRead([], Blank(action).(direction := dir), false, false)
  {}

  lemma NoClauseIsADirection(cs: seq<Clause>)
    ensures SpellAll(cs) != [] ==> ParseDirection(SpellAll(cs)[0]).None?
  {}

  lemma DirectionRead(d: Direction)
    ensures ParseDirection(DirectionName(d)) == Some(d)
    ensures forall s: string :: ParseDirection(s) == Some(d) ==> s == DirectionName(d)
  {}

  /**
   * The grammar, exactly. Tokens parse to r if and only if they are at most one direction followed by clauses in
   * any order, each of `on`, `from`, `to`, `proto` and the destination port at most once, that give r's parts.
   */
  lemma GrammarExactly(action: Action, toks: Tokens, r: UserRule)
    ensures ParseFull(action, toks) == Ok(r) <==>
            exists dir: Option<Direction>, cs: seq<Clause> :: Spells(action, toks, r, dir, cs)
  {
    if ParseFull(action, toks) == Ok(r) {
      AcceptedIsSpelled(action, toks, r);
    }
    if dir: Option<Direction>, cs: seq<Clause> :| Spells(action, toks, r, dir, cs) {
      SpelledIsAccepted(action, toks, r, dir, cs);
    }
  }

  lemma AcceptedIsSpelled(action: Action, toks: Tokens, r: UserRule)
    requires ParseFull(action, toks) == Ok(r)
    ensures exists dir: Option<Direction>, cs: seq<Clause> :: Spells(action, toks, r, dir, cs)
  {
    hide Clauses, Describes, NoPortAfterOpen, SpellAll, ParseDirection, DirectionName, HasRead;
    if toks == [] || ParseDirection(toks[0]).None? {
      BlankRead(action, In);
      var cs := AcceptsOnly([], Blank(action), false, false, toks, r);
      assert [] + cs == cs && [] + SpellAll(cs) == toks;
      assert Spells(action, toks, r, None, cs);
    } else {
      var dir := ParseDirection(toks[0]).value;
      DirectionRead(dir);
      BlankRead(action, dir);
      var cs := AcceptsOnly([], Blank(action).(direction := dir), false, false, toks[1..], r);
      assert [] + cs == cs && toks == [DirectionName(dir)] + toks[1..];
      assert Spells(action, toks, r, Some(dir), cs);
    }
  }

  lemma SpelledIsAccepted(action: Action, toks: Tokens, r: UserRule, dir: Option<Direction>, cs: seq<Clause>)
    requires Spells(action, toks, r, dir, cs)
    ensures ParseFull(action, toks) == Ok(r)
  {
    hide Clauses, Describes, NoPortAfterOpen, SpellAll, ParseDirection, DirectionName, HasRead;
    var d := if dir.Some? then dir.value else In;
    BlankRead(action, d);
    assert [] + cs == cs && [] + SpellAll(cs) == SpellAll(cs);
    AcceptsAll([], Blank(action).(direction := d), false, false, cs, r);
    NoClauseIsADirection(cs);
    DirectionRead(d);
    if dir.Some? {
      assert toks[0] == DirectionName(d) && toks[1..] == SpellAll(cs);
    }
  }
}
