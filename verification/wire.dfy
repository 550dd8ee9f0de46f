/** Compilation of operator rules into wire rules, and what it preserves. */
module Wire {
  import opened Common
  import opened Cidr
  import opened Rules

  /** The standard library's text conversions, which the compiler only calls. */
  datatype Texts = Texts(
    v4: string -> Option<Octets4>,
    v6: string -> Option<Addr>,
    u8: string -> Option<bv8>,
    u16: string -> Option<u16>)

  datatype PortRange = PortRange(lo: u16, hi: u16)

  /** What sysfs says about an interface. */
  datatype Iface = Iface(ifindex: u32, up: bool)

  type IfaceTable = map<string, Iface>

  // ---------------------------------------------------------------------
  // Text splitting
  // ---------------------------------------------------------------------

  function IndexOf(s: string, c: char): (i: nat)
    ensures i <= |s| && (i < |s| ==> s[i] == c) && c !in s[..i]
  {
    if s == [] || s[0] == c then 0 else 1 + IndexOf(s[1..], c)
  }

  function LastIndexOf(s: string, c: char): (i: int)
    ensures -1 <= i < |s| && (i >= 0 ==> s[i] == c) && c !in s[i + 1..]
  {
    if s == [] then -1
    else if s[|s| - 1] == c then |s| - 1
    else LastIndexOf(s[..|s| - 1], c)
  }

  // ---------------------------------------------------------------------
  // The compiler
  // ---------------------------------------------------------------------

  function CheckedPrefix(t: Texts, text: Option<string>, width: bv8): Result<bv8> {
    match text
    case None => Ok(width)
    case Some(s) =>
      match t.u8(s)
      case None => Err
      case Some(p) => if p > width then Err else Ok(p)
  }

  function ParseCidr(t: Texts, s: string): Result<IpCidr> {
    var i := LastIndexOf(s, '/');
    var addr := if i < 0 then s else s[..i];
    var prefix := if i < 0 then None else Some(s[i + 1..]);
    match t.v4(addr)
    case Some(o) =>
      (match CheckedPrefix(t, prefix, 32)
       case Err => Err
       case Ok(p) => Ok(IpCidr(FAMILY_V4, p, V4Slot(o))))
    case None =>
      match t.v6(addr)
      case None => Err
      case Some(o) =>
        match CheckedPrefix(t, prefix, 128)
        case Err => Err
        case Ok(p) => Ok(IpCidr(FAMILY_V6, p, o))
  }

  function ParsePortRange(t: Texts, s: string): Result<PortRange> {
    var i := IndexOf(s, '-');
    if i < |s| then
      var lo, hi := t.u16(s[..i]), t.u16(s[i + 1..]);
      if lo.None? || hi.None? then Err
      else if lo.value == 0 || hi.value == 0 || lo.value > hi.value then Err
      else Ok(PortRange(lo.value, hi.value))
    else
      var p := t.u16(s);
      if p.None? || p.value == 0 then Err else Ok(PortRange(p.value, p.value))
  }

  function OptCidr(t: Texts, s: Option<string>): Result<Option<IpCidr>> {
    match s
    case None => Ok(None)
    case Some(x) =>
      match ParseCidr(t, x)
      case Err => Err
      case Ok(c) => Ok(Some(c))
  }

  function OptPorts(t: Texts, s: Option<string>): Result<PortRange> {
    match s
    case None => Ok(PortRange(0, 0))
    case Some(x) => ParsePortRange(t, x)
  }

  function AnyCidr(family: bv8): IpCidr {
    IpCidr(if family == FAMILY_V6 then FAMILY_V6 else FAMILY_V4, 0, seq(16, _ => 0))
  }

  function DirectionByte(d: Direction): bv8 {
    match d
    case In => DIR_IN
    case Out => DIR_OUT
  }

  function ActionByte(a: Action): bv8 {
    match a
    case Allow => ACT_ALLOW
    case Deny => ACT_DENY
    case Reject => ACT_REJECT
  }

  function ProtoByte(p: Option<Protocol>): bv8 {
    match p
    case None => PROTO_ANY
    case Some(Any) => PROTO_ANY
    case Some(Tcp) => PROTO_TCP
    case Some(Udp) => PROTO_UDP
    case Some(Icmp) => PROTO_ICMP
  }

  function BuildWireRule(t: Texts, user: UserRule, ifindex: u32): Result<Rule> {
    if user.proto == Some(Icmp) && (user.srcPort.Some? || user.dstPort.Some?) then Err
    else
      var src, dst := OptCidr(t, user.src), OptCidr(t, user.dst);
      var sport, dport := OptPorts(t, user.srcPort), OptPorts(t, user.dstPort);
      if src.Err? || dst.Err? || sport.Err? || dport.Err? then Err
      else if src.value.Some? && dst.value.Some? && src.value.value.family != dst.value.value.family then Err
      else
        var family :=
          if src.value.Some? then src.value.value.family
          else if dst.value.Some? then dst.value.value.family
          else FAMILY_V4;
        Ok(Rule(
             1,
             DirectionByte(user.direction),
             ActionByte(user.action),
             ProtoByte(user.proto),
             ifindex,
             if src.value.Some? then src.value.value else AnyCidr(family),
             if dst.value.Some? then dst.value.value else AnyCidr(family),
             sport.value.lo, sport.value.hi, dport.value.lo, dport.value.hi,
             1))
  }

  function ResolveIface(table: IfaceTable, name: Option<string>): u32 {
    match name
    case None => IFACE_ANY
    case Some(n) => if n in table && table[n].up then table[n].ifindex else IFACE_ABSENT
  }

  function CompileRule(t: Texts, table: IfaceTable, r: UserRule): Result<Rule> {
    BuildWireRule(t, r, ResolveIface(table, r.iface))
  }

  /** All rules in order, or an error if any of them does not compile. */
  function Compile(t: Texts, table: IfaceTable, rules: seq<UserRule>): (ws: Result<seq<Rule>>)
    ensures ws.Ok? <==> forall r <- rules :: CompileRule(t, table, r).Ok?
    ensures ws.Ok? ==> |ws.value| == |rules|
    ensures ws.Ok? ==> forall i | 0 <= i < |rules| :: CompileRule(t, table, rules[i]) == Ok(ws.value[i])
  {
    if rules == [] then Ok([])
    else
      var n := |rules| - 1;
      assert rules == rules[..n] + [rules[n]];
      var rest, w := Compile(t, table, rules[..n]), CompileRule(t, table, rules[n]);
      if rest.Err? || w.Err? then Err else Ok(rest.value + [w.value])
  }

  /** The compilation of a list is the list of compilations. */
  lemma CompileUnique(t: Texts, table: IfaceTable, rules: seq<UserRule>, ws: seq<Rule>)
    requires |ws| == |rules|
    requires forall i | 0 <= i < |rules| :: CompileRule(t, table, rules[i]) == Ok(ws[i])
    ensures Compile(t, table, rules) == Ok(ws)
  {
    hide CompileRule, Compile;
    var c := Compile(t, table, rules);
    assert c.Ok?;
    forall i | 0 <= i < |rules|
      ensures c.value[i] == ws[i]
    {
      assert Ok(c.value[i]) == CompileRule(t, table, rules[i]) == Ok(ws[i]);
    }
    assert c.value == ws;
  }

  // ---------------------------------------------------------------------
  // The declarative meaning of a rule
  // ---------------------------------------------------------------------

  ghost predicate IfaceHolds(table: IfaceTable, name: Option<string>, ifindex: u32) {
    name.Some? ==> name.value in table && table[name.value].up && table[name.value].ifindex == ifindex
  }

  /** `proto icmp` means ICMP for IPv4, whatever the family of the rule. */
  ghost predicate ProtoHolds(proto: Option<Protocol>, byte: bv8) {
    match proto
    case None => true
    case Some(Any) => true
    case Some(Tcp) => byte == PROTO_TCP
    case Some(Udp) => byte == PROTO_UDP
    case Some(Icmp) => byte == PROTO_ICMP
  }

  /** The text `a` is the address of c; IPv4 notation is tried first. */
  ghost predicate DenotesAddress(t: Texts, a: string, c: IpCidr) {
    || (t.v4(a).Some? && c.family == FAMILY_V4 && c.addr == V4Slot(t.v4(a).value))
    || (t.v4(a).None? && t.v6(a).Some? && c.family == FAMILY_V6 && c.addr == t.v6(a).value)
  }

  ghost predicate DenotesWithPrefix(t: Texts, a: string, p: string, c: IpCidr) {
    DenotesAddress(t, a, c) && t.u8(p) == Some(c.prefix) && c.prefix <= Width(c.family)
  }

  /** The text s denotes the network c: an address, a host unless a prefix follows the last slash. */
  ghost predicate DenotesCidr(t: Texts, s: string, c: IpCidr) {
    if '/' !in s then DenotesAddress(t, s, c) && c.prefix == Width(c.family)
    else exists a: string, p: string | s == a + "/" + p && '/' !in p :: DenotesWithPrefix(t, a, p, c)
  }

  ghost predicate DenotesBounds(t: Texts, a: string, b: string, r: PortRange) {
    t.u16(a) == Some(r.lo) && t.u16(b) == Some(r.hi) && 0 < r.lo <= r.hi
  }

  /** The text s denotes the ports lo..hi: one port, or two joined by the first dash; port 0 never. */
  ghost predicate DenotesPorts(t: Texts, s: string, r: PortRange) {
    if '-' !in s then t.u16(s) == Some(r.lo) && r.lo == r.hi && r.lo > 0
    else exists a: string, b: string | s == a + "-" + b && '-' !in a :: DenotesBounds(t, a, b, r)
  }

  ghost predicate AddressHolds(t: Texts, text: Option<string>, addr: Addr, family: bv8) {
    text.Some? ==> exists c: IpCidr | DenotesCidr(t, text.value, c) :: Covers(c, addr, family)
  }

  ghost predicate PortHolds(t: Texts, text: Option<string>, port: u16) {
    text.Some? ==> exists r: PortRange | DenotesPorts(t, text.value, r) :: r.lo <= port <= r.hi
  }

  ghost predicate UserMatches(t: Texts, table: IfaceTable, r: UserRule, q: Query) {
    && q.direction == DirectionByte(r.direction)
    && IfaceHolds(table, r.iface, q.ifindex)
    && ProtoHolds(r.proto, q.p.protoByte)
    && AddressHolds(t, r.src, q.p.srcAddr, q.p.family)
    && AddressHolds(t, r.dst, q.p.dstAddr, q.p.family)
    && PortHolds(t, r.srcPort, q.p.srcPort)
    && PortHolds(t, r.dstPort, q.p.dstPort)
  }

  ghost function UserFirst(t: Texts, table: IfaceTable, rules: seq<UserRule>, q: Query): (i: nat)
    ensures i <= |rules|
    ensures i < |rules| ==> UserMatches(t, table, rules[i], q)
    ensures forall j | 0 <= j < i :: !UserMatches(t, table, rules[j], q)
  {
    if rules == [] || UserMatches(t, table, rules[0], q) then 0 else 1 + UserFirst(t, table, rules[1..], q)
  }

  /** The action of the first user rule whose conditions all hold, else the default. */
  ghost function UserVerdict(t: Texts, table: IfaceTable, rules: seq<UserRule>, q: Query, default: Action): Action {
    var i := UserFirst(t, table, rules, q);
    if i < |rules| then rules[i].action else default
  }

  /** Kernel interface indices lie strictly between the two sentinels. */
  predicate RealIfindex(i: u32) {
    0 < i < 0xFFFF_FFFF
  }

  ghost predicate RealTable(table: IfaceTable) {
    forall n <- table :: RealIfindex(table[n].ifindex)
  }

  // ---------------------------------------------------------------------
  // Compilation preserves meaning
  // ---------------------------------------------------------------------

  /** A compiled port range never uses the zero bounds that mean "any port". */
  lemma PortsNonZero(t: Texts, s: string)
    requires ParsePortRange(t, s).Ok?
    ensures var r := ParsePortRange(t, s).value; 0 < r.lo <= r.hi
  {}

  lemma SplitUnique(s: string, c: char, a: string, b: string)
    requires s == a + [c] + b
    ensures c !in a ==> IndexOf(s, c) == |a| && s[..IndexOf(s, c)] == a && s[IndexOf(s, c) + 1..] == b
    ensures c !in b ==> LastIndexOf(s, c) == |a| && s[..|a|] == a && s[|a| + 1..] == b
  {
    assert s[|a|] == c && s[..|a|] == a && s[|a| + 1..] == b;
  }

  /** The CIDR parser computes exactly what the text denotes, and accepts nothing else. */
  lemma ParseCidrExact(t: Texts, s: string, c: IpCidr)
    ensures ParseCidr(t, s) == Ok(c) <==> DenotesCidr(t, s, c)
  {
    var i := LastIndexOf(s, '/');
    if i < 0 {
      assert s[0..] == s;
    } else {
      assert s[i] == '/' && s == s[..i] + "/" + s[i + 1..];
      assert ParseCidr(t, s) == Ok(c) <==> DenotesWithPrefix(t, s[..i], s[i + 1..], c);
      forall a: string, p: string | s == a + "/" + p && '/' !in p
        ensures a == s[..i] && p == s[i + 1..]
      {
        SplitUnique(s, '/', a, p);
      }
    }
  }

  lemma ParsePortsExact(t: Texts, s: string, r: PortRange)
    ensures ParsePortRange(t, s) == Ok(r) <==> DenotesPorts(t, s, r)
  {
    var i := IndexOf(s, '-');
    if i == |s| {
      assert s[..i] == s;
    } else {
      assert s[i] == '-' && s == s[..i] + "-" + s[i + 1..];
      assert ParsePortRange(t, s) == Ok(r) <==> DenotesBounds(t, s[..i], s[i + 1..], r);
      forall a: string, b: string | s == a + "-" + b && '-' !in a
        ensures a == s[..i] && b == s[i + 1..]
      {
        SplitUnique(s, '-', a, b);
      }
    }
  }

  lemma PortsMeanPorts(t: Texts, s: Option<string>, port: u16)
    requires OptPorts(t, s).Ok?
    ensures PortHit(OptPorts(t, s).value.lo, OptPorts(t, s).value.hi, port) <==> PortHolds(t, s, port)
  {
    hide ParsePortRange, DenotesPorts;
    if s.Some? {
      PortsNonZero(t, s.value);
      forall r: PortRange
        ensures DenotesPorts(t, s.value, r) <==> ParsePortRange(t, s.value) == Ok(r)
      {
        ParsePortsExact(t, s.value, r);
      }
    }
  }

  lemma CidrMeansCidr(t: Texts, s: Option<string>, c: IpCidr, addr: Addr, family: bv8)
    requires OptCidr(t, s).Ok?
    requires if s.Some? then Ok(c) == ParseCidr(t, s.value) else c.prefix == 0
    ensures Contains(c, addr, family) <==> AddressHolds(t, s, addr, family)
  {
    hide Contains, ParseCidr, DenotesCidr, Covers;
    ContainsIsCovers(c, addr, family);
    if s.Some? {
      forall d: IpCidr
        ensures DenotesCidr(t, s.value, d) <==> ParseCidr(t, s.value) == Ok(d)
      {
        ParseCidrExact(t, s.value, d);
      }
    } else {
      ZeroPrefixContains(c, addr, family);
    }
  }

  lemma ZeroPrefixContains(c: IpCidr, addr: Addr, family: bv8)
    ensures c.prefix == 0 ==> Contains(c, addr, family)
  {}

  lemma IfaceMeansIface(table: IfaceTable, name: Option<string>, ifindex: u32)
    requires RealTable(table) && RealIfindex(ifindex)
    ensures var i := ResolveIface(table, name);
      i == IFACE_ANY || i == ifindex <==> IfaceHolds(table, name, ifindex)
  {}

  /** One compiled rule matches exactly the packets its user rule describes. */
  lemma RuleMeansRule(t: Texts, table: IfaceTable, r: UserRule, q: Query)
    requires CompileRule(t, table, r).Ok? && RealTable(table) && RealIfindex(q.ifindex)
    ensures Decides(CompileRule(t, table, r).value, q) <==> UserMatches(t, table, r, q)
  {
    hide Contains, PortHit, PortHolds, AddressHolds, IfaceHolds, ResolveIface, ParseCidr, ParsePortRange;
    var w := CompileRule(t, table, r).value;
    IfaceMeansIface(table, r.iface, q.ifindex);
    PortsMeanPorts(t, r.srcPort, q.p.srcPort);
    PortsMeanPorts(t, r.dstPort, q.p.dstPort);
    CidrMeansCidr(t, r.src, w.src, q.p.srcAddr, q.p.family);
    CidrMeansCidr(t, r.dst, w.dst, q.p.dstAddr, q.p.family);
  }

  /** The compiled list decides every packet as the user's list does. */
  lemma CompilationPreservesMeaning(t: Texts, table: IfaceTable, rules: seq<UserRule>, q: Query, default: Action)
    requires Compile(t, table, rules).Ok? && |rules| <= RULES_MAX
    requires RealTable(table) && RealIfindex(q.ifindex)
    ensures var ws := Compile(t, table, rules).value;
      && First(ws, q) == UserFirst(t, table, rules, q)
      && Decide(ws, q, ActionByte(default)).action == ActionByte(UserVerdict(t, table, rules, q, default))
  {
    hide Decides, UserMatches, CompileRule, Compile;
    var ws := Compile(t, table, rules).value;
    forall i | 0 <= i < |rules|
      ensures Decides(ws[i], q) <==> UserMatches(t, table, rules[i], q)
    {
      RuleMeansRule(t, table, rules[i], q);
    }
    FirstUnique(ws, q, UserFirst(t, table, rules, q));
    forall i | 0 <= i < |rules|
      ensures ws[i].action == ActionByte(rules[i].action)
    {
      CompiledBytes(t, table, rules[i]);
    }
  }

  lemma CompiledBytes(t: Texts, table: IfaceTable, r: UserRule)
    requires CompileRule(t, table, r).Ok?
    ensures var w := CompileRule(t, table, r).value;
      && w.action == ActionByte(r.action) && w.direction == DirectionByte(r.direction)
      && w.action == (if r.action == Allow then 0 else if r.action == Deny then 1 else 2)
      && w.direction == (if r.direction == In then 0 else 1)
      && w.version == 1 && w.enabled == 1
  {}

  // ---------------------------------------------------------------------
  // Which rules compile
  // ---------------------------------------------------------------------

  ghost predicate DenotesSome(t: Texts, text: Option<string>) {
    text.Some? ==> exists c: IpCidr :: DenotesCidr(t, text.value, c)
  }

  ghost predicate DenotesSomePorts(t: Texts, text: Option<string>) {
    text.Some? ==> exists r: PortRange :: DenotesPorts(t, text.value, r)
  }

  /** Two addresses are of one family, if both are given. */
  ghost predicate OneFamily(t: Texts, src: Option<string>, dst: Option<string>) {
    src.Some? && dst.Some? ==>
      forall c: IpCidr, d: IpCidr :: DenotesCidr(t, src.value, c) && DenotesCidr(t, dst.value, d) ==> c.family == d.family
  }

  /** Every text denotes what its place asks for, addresses agree on the family, and `proto icmp` comes without ports. */
  ghost predicate Compilable(t: Texts, r: UserRule) {
    && DenotesSome(t, r.src) && DenotesSome(t, r.dst) && OneFamily(t, r.src, r.dst)
    && DenotesSomePorts(t, r.srcPort) && DenotesSomePorts(t, r.dstPort)
    && (r.proto == Some(Icmp) ==> r.srcPort.None? && r.dstPort.None?)
  }

  lemma OptCidrExact(t: Texts, text: Option<string>)
    ensures OptCidr(t, text).Ok? <==> DenotesSome(t, text)
    ensures OptCidr(t, text).Ok? && text.Some? ==>
      OptCidr(t, text).value.Some? && forall c: IpCidr :: DenotesCidr(t, text.value, c) <==> c == OptCidr(t, text).value.value
  {
    hide ParseCidr, DenotesCidr;
    if text.Some? {
      forall c: IpCidr
        ensures ParseCidr(t, text.value) == Ok(c) <==> DenotesCidr(t, text.value, c)
      {
        ParseCidrExact(t, text.value, c);
      }
    }
  }

  lemma OptPortsExact(t: Texts, text: Option<string>)
    ensures OptPorts(t, text).Ok? <==> DenotesSomePorts(t, text)
  {
    hide ParsePortRange, DenotesPorts;
    if text.Some? {
      forall r: PortRange
        ensures ParsePortRange(t, text.value) == Ok(r) <==> DenotesPorts(t, text.value, r)
      {
        ParsePortsExact(t, text.value, r);
      }
    }
  }

  /** A rule compiles, against any interfaces, if and only if it is well-formed in every part. */
  lemma CompilesExactly(t: Texts, table: IfaceTable, r: UserRule)
    ensures CompileRule(t, table, r).Ok? <==> Compilable(t, r)
  {
    hide OptCidr, OptPorts, DenotesCidr, DenotesSome, DenotesSomePorts;
    OptCidrExact(t, r.src);
    OptCidrExact(t, r.dst);
    OptPortsExact(t, r.srcPort);
    OptPortsExact(t, r.dstPort);
    OptNone(t);
  }

  lemma OptNone(t: Texts)
    ensures OptCidr(t, None) == Ok(None)
  {}

  /** A packet whose port slot is zero never matches a compiled rule that constrains that port. */
  lemma ZeroPortNeverMatches(t: Texts, r: UserRule, ifindex: u32, q: Query)
    requires BuildWireRule(t, r, ifindex).Ok?
    requires (r.srcPort.Some? && q.p.srcPort == 0) || (r.dstPort.Some? && q.p.dstPort == 0)
    ensures !Matches(BuildWireRule(t, r, ifindex).value, q)
  {
    hide ParsePortRange, ParseCidr, Contains;
    if r.srcPort.Some? {
      PortsNonZero(t, r.srcPort.value);
    }
    if r.dstPort.Some? {
      PortsNonZero(t, r.dstPort.value);
    }
  }
}
