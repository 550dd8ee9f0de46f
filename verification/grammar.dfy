/** The token grammar for rules and the printer that `list` uses. */
module Grammar {
  import opened Common

  type Tokens = seq<string>

  // ---------------------------------------------------------------------
  // Parsing
  // ---------------------------------------------------------------------

  function LowerChar(c: char): char {
    if 'A' <= c <= 'Z' then (c as int + 32) as char else c
  }

  function Lower(s: string): string {
    seq(|s|, i requires 0 <= i < |s| => LowerChar(s[i]))
  }

  function ParseProto(s: string): Result<Protocol> {
    var l := Lower(s);
    if l == "tcp" then Ok(Tcp)
    else if l == "udp" then Ok(Udp)
    else if l == "icmp" then Ok(Icmp)
    else if l == "any" then Ok(Any)
    else Err
  }

  function Blank(action: Action): UserRule {
    UserRule(In, action, None, None, None, None, None, None)
  }

  function SetDstPort(rule: UserRule, port: string): Result<UserRule> {
    if rule.dstPort.Some? then Err else Ok(rule.(dstPort := Some(port)))
  }

  function Address(s: string, unset: Option<string>): Option<string> {
    if s == "any" then unset else Some(s)
  }

  /** The clauses after the direction; the flags say whether `from` and `to` were seen. */
  function Clauses(rule: UserRule, fromSeen: bool, toSeen: bool, toks: Tokens): Result<UserRule>
    decreases |toks|
  {
    if toks == [] then Ok(rule)
    else if toks[0] == "on" then
      if rule.iface.Some? || |toks| < 2 || !ValidIfaceName(toks[1]) then Err
      else Clauses(rule.(iface := Some(toks[1])), fromSeen, toSeen, toks[2..])
    else if toks[0] == "from" then
      if fromSeen || |toks| < 2 then Err
      else
        var r := rule.(src := Address(toks[1], rule.src));
        if |toks| > 2 && toks[2] == "port" then
          if |toks| < 4 then Err else Clauses(r.(srcPort := Some(toks[3])), true, toSeen, toks[4..])
        else Clauses(r, true, toSeen, toks[2..])
    else if toks[0] == "to" then
      if toSeen || |toks| < 2 then Err
      else
        var r := rule.(dst := Address(toks[1], rule.dst));
        if |toks| > 2 && toks[2] == "port" then
          if |toks| < 4 || SetDstPort(r, toks[3]).Err? then Err
          else Clauses(SetDstPort(r, toks[3]).value, fromSeen, true, toks[4..])
        else Clauses(r, fromSeen, true, toks[2..])
    else if toks[0] == "port" then
      if |toks| < 2 || SetDstPort(rule, toks[1]).Err? then Err
      else Clauses(SetDstPort(rule, toks[1]).value, fromSeen, toSeen, toks[2..])
    else if toks[0] == "proto" then
      if rule.proto.Some? || |toks| < 2 || ParseProto(toks[1]).Err? then Err
      else Clauses(rule.(proto := Some(ParseProto(toks[1]).value)), fromSeen, toSeen, toks[2..])
    else Err
  }

  function ParseDirection(s: string): Option<Direction> {
    if s == "in" then Some(In) else if s == "out" then Some(Out) else None
  }

  function ParseFull(action: Action, toks: Tokens): Result<UserRule> {
    if toks == [] || ParseDirection(toks[0]).None? then Clauses(Blank(action), false, false, toks)
    else if |toks| > 1 && ParseDirection(toks[1]).Some? then Err
    else Clauses(Blank(action).(direction := ParseDirection(toks[0]).value), false, false, toks[1..])
  }

  /** The parser's two loops over a token cursor. */
  method ParseFullGrammar(action: Action, toks: Tokens) returns (r: Result<UserRule>)
    ensures r == ParseFull(action, toks)
  {
    hide ParseProto, ValidIfaceName;
    var rule, pos := Blank(action), 0;
    var dirSet, fromSeen, toSeen := false, false, false;
    while pos < |toks| && ParseDirection(toks[pos]).Some?
      invariant pos <= 1 && pos <= |toks| && dirSet == (pos == 1)
      invariant pos == 0 ==> rule == Blank(action)
      invariant pos == 1 ==>
        ParseDirection(toks[0]).Some? && rule == Blank(action).(direction := ParseDirection(toks[0]).value)
      decreases |toks| - pos
    {
      if dirSet {
        return Err;
      }
      rule := rule.(direction := ParseDirection(toks[pos]).value);
      dirSet := true;
      pos := pos + 1;
    }
    assert toks[0..] == toks;
    assert ParseFull(action, toks) == Clauses(rule, fromSeen, toSeen, toks[pos..]);
    hide ParseFull, ParseDirection;
    while pos < |toks|
      invariant pos <= |toks|
      invariant ParseFull(action, toks) == Clauses(rule, fromSeen, toSeen, toks[pos..])
    {
      var tok := toks[pos];
      ghost var rest := toks[pos..];
      pos := pos + 1;
      if tok == "on" {
        if rule.iface.Some? || pos >= |toks| || !ValidIfaceName(toks[pos]) {
          return Err;
        }
        rule := rule.(iface := Some(toks[pos]));
        pos := pos + 1;
      } else if tok == "from" {
        if fromSeen || pos >= |toks| {
          return Err;
        }
        fromSeen := true;
        if toks[pos] != "any" {
          rule := rule.(src := Some(toks[pos]));
        }
        pos := pos + 1;
        if pos < |toks| && toks[pos] == "port" {
          pos := pos + 1;
          if pos >= |toks| {
            return Err;
          }
          rule := rule.(srcPort := Some(toks[pos]));
          pos := pos + 1;
        }
      } else if tok == "to" {
        if toSeen || pos >= |toks| {
          return Err;
        }
        toSeen := true;
        if toks[pos] != "any" {
          rule := rule.(dst := Some(toks[pos]));
        }
        pos := pos + 1;
        if pos < |toks| && toks[pos] == "port" {
          pos := pos + 1;
          if pos >= |toks| || rule.dstPort.Some? {
            return Err;
          }
          rule := rule.(dstPort := Some(toks[pos]));
          pos := pos + 1;
        }
      } else if tok == "port" {
        if pos >= |toks| || rule.dstPort.Some? {
          return Err;
        }
        rule := rule.(dstPort := Some(toks[pos]));
        pos := pos + 1;
      } else if tok == "proto" {
        if rule.proto.Some? || pos >= |toks| {
          return Err;
        }
        var p := ParseProto(toks[pos]);
        if p.Err? {
          return Err;
        }
        rule := rule.(proto := Some(p.value));
        pos := pos + 1;
      } else {
        return Err;
      }
      assert toks[pos..] == rest[pos - (|toks| - |rest|)..];
    }
    return Ok(rule);
  }

  // ---------------------------------------------------------------------
  // Printing
  // ---------------------------------------------------------------------

  function ProtoName(p: Protocol): string {
    match p
    case Tcp => "tcp"
    case Udp => "udp"
    case Icmp => "icmp"
    case Any => "any"
  }

  function DirectionName(d: Direction): string {
    match d
    case In => "in"
    case Out => "out"
  }

  function OnPart(r: UserRule): Tokens {
    if r.iface.Some? then ["on", r.iface.value] else []
  }

  function FromPart(r: UserRule): Tokens {
    if r.src.Some? then ["from", r.src.value] else []
  }

  function SrcPortPart(r: UserRule): Tokens {
    if r.srcPort.Some? then ["src", "port", r.srcPort.value] else []
  }

  function ToPart(r: UserRule): Tokens {
    if r.dst.Some? then ["to", r.dst.value] else []
  }

  function PortClause(port: Option<string>): Tokens {
    if port.Some? then ["port", port.value] else []
  }

  function ProtoToks(r: UserRule): Tokens {
    if r.proto.Some? then ["proto", ProtoName(r.proto.value)] else []
  }

  /** The tokens of a printed rule, after its action. */
  function RenderTokens(r: UserRule): Tokens {
    [DirectionName(r.direction)] + OnPart(r) + FromPart(r) + SrcPortPart(r) + ToPart(r) + PortClause(r.dstPort) + ProtoToks(r)
  }

  /** The printer, which appends each optional part to a growing list. */
  method RenderRule(r: UserRule) returns (parts: Tokens)
    ensures parts == RenderTokens(r)
    ensures Printable(r) ==> ParseFull(r.action, parts) == Ok(r)
    ensures r.iface.Some? && r.src.Some? && r.srcPort.Some? && r.dst.Some? && r.dstPort.Some? && r.proto.Some? ==>
      parts == [DirectionName(r.direction), "on", r.iface.value, "from", r.src.value, "src", "port", r.srcPort.value,
                "to", r.dst.value, "port", r.dstPort.value, "proto", ProtoName(r.proto.value)]
  {
    hide Clauses, ParseFull, Printable;
    RoundTrip(r);
    parts := [DirectionName(r.direction)];
    if r.iface.Some? {
      parts := parts + ["on", r.iface.value];
    }
    ghost var on := [DirectionName(r.direction)] + OnPart(r);
    assert parts == on;
    if r.src.Some? {
      parts := parts + ["from", r.src.value];
    }
    ghost var from := on + FromPart(r);
    assert parts == from;
    if r.srcPort.Some? {
      parts := parts + ["src", "port", r.srcPort.value];
    }
    ghost var src := from + SrcPortPart(r);
    assert parts == src;
    if r.dst.Some? {
      parts := parts + ["to", r.dst.value];
    }
    ghost var to := src + ToPart(r);
    assert parts == to;
    if r.dstPort.Some? {
      parts := parts + ["port", r.dstPort.value];
    }
    assert parts == to + PortClause(r.dstPort);
    if r.proto.Some? {
      parts := parts + ["proto", ProtoName(r.proto.value)];
    }
  }

  // The suffixes the parser meets as it works through a printed rule.

  function PortToks(r: UserRule): Tokens {
    PortClause(r.dstPort) + ProtoToks(r)
  }

  function ToToks(r: UserRule): Tokens {
    ToPart(r) + PortToks(r)
  }

  function SrcPortToks(r: UserRule): Tokens {
    SrcPortPart(r) + ToToks(r)
  }

  function FromToks(r: UserRule): Tokens {
    FromPart(r) + SrcPortToks(r)
  }

  function OnToks(r: UserRule): Tokens {
    OnPart(r) + FromToks(r)
  }

  lemma RenderSuffixes(r: UserRule)
    ensures RenderTokens(r) == [DirectionName(r.direction)] + OnToks(r)
  {
    hide OnPart, FromPart, SrcPortPart, ToPart, PortClause, ProtoToks;
  }

  // ---------------------------------------------------------------------
  // The printer and the grammar undo each other
  // ---------------------------------------------------------------------

  /** No interface name the daemon would refuse, no address called `any`. */
  predicate Clean(r: UserRule) {
    && (r.iface.Some? ==> ValidIfaceName(r.iface.value))
    && r.src != Some("any") && r.dst != Some("any")
  }

  /** The rules whose printed form the grammar reads back. */
  predicate Printable(r: UserRule) {
    && Clean(r)
    && r.srcPort.None?
    && !BarePort(r)
  }

  lemma ProtoRoundTrip(p: Protocol)
    ensures ParseProto(ProtoName(p)) == Ok(p)
  {
    assert Lower(ProtoName(p)) == ProtoName(p);
  }

  /** Reading the protocol tail. */
  lemma ReadProto(r: UserRule, rule: UserRule, f: bool, t: bool)
    requires rule.proto.None?
    ensures Clauses(rule, f, t, ProtoToks(r)) == Ok(rule.(proto := r.proto))
  {
    hide ParseProto;
    if r.proto.Some? {
      ProtoRoundTrip(r.proto.value);
      assert ProtoToks(r)[2..] == [];
    }
  }

  lemma ReadPort(r: UserRule, rule: UserRule, f: bool, t: bool)
    requires rule.proto.None? && rule.dstPort.None?
    ensures Clauses(rule, f, t, PortToks(r)) == Ok(rule.(proto := r.proto, dstPort := r.dstPort))
  {
    hide ProtoToks;
    if r.dstPort.Some? {
      assert PortToks(r)[2..] == ProtoToks(r);
      ReadProto(r, rule.(dstPort := r.dstPort), f, t);
    } else {
      assert PortToks(r) == ProtoToks(r);
      ReadProto(r, rule, f, t);
    }
  }

  /** The address the grammar gets from a printed one: the word `any` stands for none. */
  function Named(a: Option<string>): Option<string> {
    if a == Some("any") then None else a
  }

  lemma ReadTo(r: UserRule, rule: UserRule, f: bool)
    requires rule.proto.None? && rule.dstPort.None? && rule.dst.None?
    ensures Clauses(rule, f, false, ToToks(r)) ==
            Ok(rule.(proto := r.proto, dstPort := r.dstPort, dst := Named(r.dst)))
  {
    if r.dst.None? {
      assert ToToks(r) == PortToks(r);
      ReadPort(r, rule, f, false);
    } else {
      var next := rule.(dst := Named(r.dst));
      assert ToToks(r)[2..] == PortToks(r);
      if r.dstPort.Some? {
        assert ToToks(r)[4..] == ProtoToks(r);
        ReadProto(r, next.(dstPort := r.dstPort), f, true);
      } else {
        ReadPort(r, next, f, true);
      }
    }
  }

  /** A destination port printed right after the source address. */
  predicate BarePort(r: UserRule) {
    r.src.Some? && r.dst.None? && r.dstPort.Some?
  }

  /** What becomes of a rule that is printed and read again. */
  function ReadBack(r: UserRule): Result<UserRule> {
    if r.srcPort.Some? || (r.iface.Some? && !ValidIfaceName(r.iface.value)) then Err
    else
      var x := r.(src := Named(r.src), dst := Named(r.dst));
      Ok(if BarePort(r) then x.(srcPort := r.dstPort, dstPort := None) else x)
  }

  /** The grammar takes the bare port for the source's. */
  lemma ReadBarePort(r: UserRule, rule: UserRule)
    requires rule.proto.None? && rule.src.None? && r.srcPort.None? && BarePort(r)
    ensures Clauses(rule, false, false, FromToks(r)) ==
            Ok(rule.(src := Named(r.src), srcPort := r.dstPort, proto := r.proto))
  {
    hide ParseProto;
    assert FromToks(r)[2] == "port" && FromToks(r)[4..] == ProtoToks(r);
    ReadProto(r, rule.(src := Named(r.src), srcPort := r.dstPort), true, false);
  }

  /** No clause starts with the printer's `src`. */
  lemma ReadSrcPort(r: UserRule, rule: UserRule)
    requires r.srcPort.Some?
    ensures Clauses(rule, false, false, FromToks(r)) == Err
  {
    hide ToToks;
    assert SrcPortToks(r)[0] == "src";
    if r.src.Some? {
      assert FromToks(r)[2..] == SrcPortToks(r);
    } else {
      assert FromToks(r) == SrcPortToks(r);
    }
  }

  lemma ReadFrom(r: UserRule, rule: UserRule)
    requires rule == Blank(r.action).(direction := r.direction, iface := r.iface)
    requires r.iface.Some? ==> ValidIfaceName(r.iface.value)
    ensures Clauses(rule, false, false, FromToks(r)) == ReadBack(r)
  {
    hide ToToks, ValidIfaceName;
    if r.srcPort.Some? {
      ReadSrcPort(r, rule);
    } else if BarePort(r) {
      ReadBarePort(r, rule);
    } else {
      assert SrcPortToks(r) == ToToks(r);
      if r.src.None? {
        assert FromToks(r) == ToToks(r);
        ReadTo(r, rule, false);
      } else {
        assert FromToks(r)[2..] == ToToks(r);
        ToHead(r);
        ReadTo(r, rule.(src := Named(r.src)), true);
      }
    }
  }

  lemma ToHead(r: UserRule)
    ensures ToToks(r) != [] && ToToks(r)[0] == "port" <==> r.dst.None? && r.dstPort.Some?
  {}

  /** After `from` nothing touches the source again; after `to` nothing touches the destination address. */
  lemma {:induction false} SeenIsFinal(rule: UserRule, f: bool, t: bool, toks: Tokens)
    requires Clauses(rule, f, t, toks).Ok?
    ensures var x := Clauses(rule, f, t, toks).value;
      && x.action == rule.action && x.direction == rule.direction
      && (f ==> x.src == rule.src && x.srcPort == rule.srcPort)
      && (t ==> x.dst == rule.dst)
      && (rule.iface.Some? ==> x.iface == rule.iface)
      && (Clean(rule) ==> Clean(x))
    decreases |toks|
  {
    hide ParseProto, ValidIfaceName;
    if toks != [] {
      var k := toks[0];
      if k == "on" {
        SeenIsFinal(rule.(iface := Some(toks[1])), f, t, toks[2..]);
      } else if k == "from" {
        var r := rule.(src := Address(toks[1], rule.src));
        if |toks| > 2 && toks[2] == "port" {
          SeenIsFinal(r.(srcPort := Some(toks[3])), true, t, toks[4..]);
        } else {
          SeenIsFinal(r, true, t, toks[2..]);
        }
      } else if k == "to" {
        var r := rule.(dst := Address(toks[1], rule.dst));
        if |toks| > 2 && toks[2] == "port" {
          SeenIsFinal(SetDstPort(r, toks[3]).value, f, true, toks[4..]);
        } else {
          SeenIsFinal(r, f, true, toks[2..]);
        }
      } else if k == "port" {
        SeenIsFinal(SetDstPort(rule, toks[1]).value, f, t, toks[2..]);
      } else {
        SeenIsFinal(rule.(proto := Some(ParseProto(toks[1]).value)), f, t, toks[2..]);
      }
    }
  }

  /**
   * What the grammar makes of every printed rule. A source port prints as tokens it rejects, an interface name
   * it would not accept is rejected too, an address called `any` is lost, and a bare destination port after
   * the source address silently becomes a source port.
   */
  lemma PrintedReadsBack(r: UserRule)
    ensures ParseFull(r.action, RenderTokens(r)) == ReadBack(r)
  {
    hide FromToks, ValidIfaceName, RenderTokens, ReadBack;
    var toks, rule := RenderTokens(r), Blank(r.action).(direction := r.direction);
    RenderSuffixes(r);
    assert toks[1..] == OnToks(r);
    OnHead(r);
    assert ParseFull(r.action, toks) == Clauses(rule, false, false, OnToks(r));
    if r.iface.Some? {
      assert OnToks(r)[2..] == FromToks(r);
    } else {
      assert OnToks(r) == FromToks(r);
    }
    if r.iface.None? || ValidIfaceName(r.iface.value) {
      ReadFrom(r, rule.(iface := r.iface));
    } else {
      RefusedIface(r);
    }
  }

  lemma RefusedIface(r: UserRule)
    requires r.iface.Some? && !ValidIfaceName(r.iface.value)
    ensures ReadBack(r) == Err
  {}

  /** The grammar reads a printed rule back exactly when the rule is printable. */
  lemma RoundTrip(r: UserRule)
    ensures ParseFull(r.action, RenderTokens(r)) == Ok(r) <==> Printable(r)
  {
    hide ParseFull, RenderTokens, ValidIfaceName;
    PrintedReadsBack(r);
  }

  /** In particular a source port is always rejected, and a bare destination port is taken for a source port. */
  lemma PortsMisprint(r: UserRule)
    ensures r.srcPort.Some? ==> ParseFull(r.action, RenderTokens(r)) == Err
    ensures r.srcPort.None? && Clean(r) && BarePort(r) ==>
      ParseFull(r.action, RenderTokens(r)) == Ok(r.(srcPort := r.dstPort, dstPort := None))
  {
    hide ParseFull, RenderTokens, ValidIfaceName;
    PrintedReadsBack(r);
  }

  lemma OnHead(r: UserRule)
    ensures OnToks(r) != [] ==> ParseDirection(OnToks(r)[0]).None?
  {}

  /** Whatever the grammar accepts is printable, but for a source port or a bare destination port after `from`. */
  lemma ParsedPrintable(action: Action, toks: Tokens)
    requires ParseFull(action, toks).Ok?
    ensures var r := ParseFull(action, toks).value;
      && r.action == action
      && (Printable(r) <==> r.srcPort.None? && !BarePort(r))
      && (Printable(r) ==> ParseFull(action, RenderTokens(r)) == Ok(r))
  {
    hide Clauses, RenderTokens, ValidIfaceName;
    var start :=
      if toks == [] || ParseDirection(toks[0]).None? then Blank(action)
      else Blank(action).(direction := ParseDirection(toks[0]).value);
    var rest := if toks == [] || ParseDirection(toks[0]).None? then toks else toks[1..];
    SeenIsFinal(start, false, false, rest);
    RoundTrip(ParseFull(action, toks).value);
  }

  // ---------------------------------------------------------------------
  // Every rule can be written
  // ---------------------------------------------------------------------

  function AddressOr(a: Option<string>): string {
    if a.Some? then a.value else "any"
  }

  function ToClause(r: UserRule): Tokens {
    ["to", AddressOr(r.dst)] + (PortClause(r.dstPort) + ProtoToks(r))
  }

  function FromClause(r: UserRule): Tokens {
    ["from", AddressOr(r.src)] + (PortClause(r.srcPort) + ToClause(r))
  }

  /** The full grammar with every address spelled out, so that each port follows its own address. */
  function FullTokens(r: UserRule): Tokens {
    [DirectionName(r.direction)] + (OnPart(r) + FromClause(r))
  }

  lemma ReadToClause(r: UserRule, rule: UserRule)
    requires rule.proto.None? && rule.dstPort.None? && rule.dst.None? && r.dst != Some("any")
    ensures Clauses(rule, true, false, ToClause(r)) == Ok(rule.(proto := r.proto, dstPort := r.dstPort, dst := r.dst))
  {
    hide ParseProto;
    var next := rule.(dst := r.dst);
    if r.dstPort.Some? {
      assert ToClause(r)[4..] == ProtoToks(r);
    } else {
      assert ToClause(r)[2..] == ProtoToks(r);
    }
    ReadProto(r, next.(dstPort := r.dstPort), true, true);
  }

  lemma ReadFromClause(r: UserRule, rule: UserRule)
    requires rule == Blank(r.action).(direction := r.direction, iface := r.iface) && Clean(r)
    ensures Clauses(rule, false, false, FromClause(r)) == Ok(r)
  {
    hide ParseProto, ToClause;
    ToClauseHead(r);
    if r.srcPort.Some? {
      assert FromClause(r)[4..] == ToClause(r);
    } else {
      assert FromClause(r)[2..] == ToClause(r);
    }
    ReadToClause(r, rule.(src := r.src, srcPort := r.srcPort));
  }

  lemma ToClauseHead(r: UserRule)
    ensures ToClause(r) != [] && ToClause(r)[0] == "to"
  {}

  /** Every rule with a valid interface name and no address called `any`, source port or not, is expressible. */
  lemma Expressible(r: UserRule)
    requires Clean(r)
    ensures ParseFull(r.action, FullTokens(r)) == Ok(r)
  {
    hide FromClause, ValidIfaceName;
    var toks, rule := FullTokens(r), Blank(r.action).(direction := r.direction);
    var rest := OnPart(r) + FromClause(r);
    assert toks[1..] == rest;
    FromClauseHead(r);
    assert ParseFull(r.action, toks) == Clauses(rule, false, false, rest);
    if r.iface.Some? {
      assert rest[2..] == FromClause(r);
    } else {
      assert rest == FromClause(r);
    }
    ReadFromClause(r, rule.(iface := r.iface));
  }

  lemma FromClauseHead(r: UserRule)
    ensures FromClause(r) != [] && FromClause(r)[0] == "from"
  {}
}
