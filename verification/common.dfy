/** Types and constants shared by the control plane and the data path. */
module Common {

  const RULES_MAX: nat := 256
  const RULE_BANKS: nat := 2
  const RULES_SLOTS: nat := RULES_MAX * RULE_BANKS

  const PROTO_ANY: bv8 := 0
  const PROTO_ICMP: bv8 := 1
  const PROTO_TCP: bv8 := 6
  const PROTO_UDP: bv8 := 17
  const PROTO_ICMPV6: bv8 := 58

  const DIR_IN: bv8 := 0
  const DIR_OUT: bv8 := 1

  const ACT_ALLOW: bv8 := 0
  const ACT_DENY: bv8 := 1
  const ACT_REJECT: bv8 := 2
  // The walk's "nothing chosen yet" marker, u8::MAX.
  const ACT_NONE: bv8 := 255

  const FAMILY_V4: bv8 := 4
  const FAMILY_V6: bv8 := 6

  const IFACE_ANY: u32 := 0
  const IFACE_ABSENT: u32 := 0xFFFF_FFFF
  const RULE_ID_DEFAULT: u32 := 0xFFFF_FFFF

  const CONNTRACK_TTL_NS: nat := 7_200_000_000_000
  const CONNTRACK_REFRESH_NS: nat := 10_000_000_000

  const LOG_BUCKET_MAX: nat := 100
  const LOG_BUCKET_REFILL_NS: nat := 10_000_000

  /** One more than the largest 32-bit value. */
  const U32_RANGE: nat := 0x1_0000_0000

  type u16 = x: int | 0 <= x < 0x1_0000

  type u32 = x: int | 0 <= x < 0x1_0000_0000

  /** An address slot: an IPv4 address occupies the first four bytes. */
  type Addr = a: seq<bv8> | |a| == 16 witness seq(16, _ => 0)

  type Octets4 = o: seq<bv8> | |o| == 4 witness [0, 0, 0, 0]

  /** The address slot of an IPv4 address. */
  function V4Slot(o: Octets4): Addr {
    o + seq(12, _ => 0)
  }

  datatype Option<+T> = None | Some(value: T)

  datatype Result<+T> = Ok(value: T) | Err

  datatype IpCidr = IpCidr(family: bv8, prefix: bv8, addr: Addr)

  datatype Rule = Rule(
    version: bv8,
    direction: bv8,
    action: bv8,
    proto: bv8,
    ifaceIfindex: u32,
    src: IpCidr,
    dst: IpCidr,
    srcPortMin: u16,
    srcPortMax: u16,
    dstPortMin: u16,
    dstPortMax: u16,
    enabled: bv8)

  function AnyV4(): IpCidr {
    IpCidr(FAMILY_V4, 0, seq(16, _ => 0))
  }

  function EmptyRule(): Rule {
    Rule(1, DIR_IN, ACT_ALLOW, PROTO_ANY, IFACE_ANY, AnyV4(), AnyV4(), 0, 0, 0, 0, 0)
  }

  /** The RULES array: two banks of RULES_MAX slots. */
  type Slots = s: seq<Rule> | |s| == RULES_SLOTS witness seq(RULES_SLOTS, _ => EmptyRule())

  /** What the packet parser hands to the matcher and to conntrack. */
  datatype Parsed = Parsed(
    family: bv8,
    protoByte: bv8,
    icmpType: bv8,
    srcAddr: Addr,
    dstAddr: Addr,
    srcPort: u16,
    dstPort: u16)

  datatype GlobalConfig = GlobalConfig(
    loggingEnabled: bool,
    activeBank: nat,
    conntrackEnabled: bool,
    ruleCount: nat)

  datatype Direction = In | Out

  datatype Action = Allow | Deny | Reject

  datatype Protocol = Tcp | Udp | Icmp | Any

  /** A rule as the operator wrote it; addresses and ports are still text. */
  datatype UserRule = UserRule(
    direction: Direction,
    action: Action,
    iface: Option<string>,
    proto: Option<Protocol>,
    src: Option<string>,
    dst: Option<string>,
    srcPort: Option<string>,
    dstPort: Option<string>)

  function Min(a: int, b: int): int {
    if a <= b then a else b
  }

  function SaturatingSub(a: nat, b: nat): nat {
    if a < b then 0 else a - b
  }

  /** Only the first RULES_MAX rules of a list are published. */
  function Capped<T>(list: seq<T>): (capped: seq<T>)
    ensures |capped| == Min(|list|, RULES_MAX)
  {
    if |list| <= RULES_MAX then list else list[..RULES_MAX]
  }

  /** What the daemon and the grammar accept as the name of an interface. */
  predicate ValidIfaceName(name: string) {
    0 < |name| <= 15 && '/' !in name && ' ' !in name && '\0' !in name
  }
}
