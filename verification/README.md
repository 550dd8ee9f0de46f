# moatd: a verified model of the firewall's decision path

moatd is a host firewall. A daemon compiles ufw-style rules into fixed-size wire rules and publishes them,
double-buffered, to two eBPF programs that parse every packet, look replies up in a connection table and walk the
rules. This project models that path from the operator's text to the packet verdict and proves what each stage
promises: for every input, every reachable state and every run.

`dafny verify dfyconfig.toml` checks everything. The modules follow the program:

| file | module | content |
|---|---|---|
| common.dfy | Common | wire records, constants, user rules |
| cidr.dfy | Cidr | masked-word prefix tests and their bit-by-bit meaning |
| packet.dfy, packet_laws.dfy, frames.dfy | Packet, PacketLaws, Frames | the parser, laws relating parses of different packets, reference encoders and round trips |
| rules.dfy | Rules | first-match evaluation over the live bank |
| wire.dfy | Wire | rule compilation against a declarative meaning of rules |
| datapath.dfy, conntrack.dfy | DataPath, Conntrack | the ingress and egress programs, whole runs of the connection table |
| publication.dfy, bridge.dfy | Publication, Bridge | the bank protocol as an interleaved step system, and the daemon's requests as one participant |
| daemon.dfy, daemon_laws.dfy | Daemon, DaemonLaws | control requests with injected faults, sequences of requests, local effect of edits |
| watcher.dfy | Watcher | the link watcher's incremental re-sync |
| bucket.dfy, dedupe.dfy | Bucket, Dedupe | log rate limiting and event merging |
| grammar.dfy, language.dfy | Grammar, Language | the rule grammar and the rule printer; the language described without a parser |
| end_to_end.dfy | EndToEnd | results that cross several of the above |

How things are represented. Packet bytes, address bytes and prefixes are `bv8`; masks and shifts are the source's own
bit operations. Ports and interface indices are bounded integers, times are naturals. State the source updates in
place is a class whose methods are tied to a specification function (`DataPath.Firewall`, `Daemon.DaemonState`,
`Watcher.LinkWatcher`, `Bucket.LogBucket`, `Dedupe.DedupeWindow`); loops are loops (`WalkV6Ext`, `WalkRules`,
`ParseFullGrammar`, the slot writer). The address and integer conversions of the standard library are parameters of
the compiler (`Wire.Texts`), and so is the interface table read from sysfs. Clock values, failing map writes,
insertion failures and evictions are inputs of the steps, so every theorem holds for all of them.

Where code and documentation disagree the model follows the code:

- `book/src/conntrack.md:57` gives a 60 s lifetime; the constant is two hours (`crates/moatd-common/src/lib.rs:46`).
- `book/src/conntrack.md:68-70` says ICMP ports are zero; the parser stores the ICMP id in both port slots.
- `book/src/architecture.md` walks the egress rules for every packet; an established flow skips them.
- `proto icmp` compiles to protocol 1 for both families, so it never matches ICMPv6.
- A prefix of length 0 matches both families, even when the operator wrote one family explicitly.

Properties that fail, with their exact conditions:

- A third VLAN tag hides IP from the parser: `PacketLaws.TagTransparent` states that one more tag changes the parse if
  and only if behind two tags there is already an IP ethertype or the end of the frame, and `EndToEnd.ThirdTagPasses`
  that such a frame passes in both directions under every rule list, default policy and connection table.
- A walk can mix rule lists and allow what every list denies (`Publication.OverrunMixes`). It needs a flip and then
  another sync's write to a slot the walk has still to read; without that a walk is faithful to its snapshot
  (`Publication.WalksAreAtomic`), and for every list and every slot a walk reaches, overrunning that slot can turn the
  verdict around (`Publication.OverrunSharp`).
- When a CONFIG write fails, the daemon's bank number no longer names the live bank. `DaemonLaws.InStepExactly` and
  `DaemonLaws.InStepIsParity` say when the two agree: exactly after an even number of missed flips. Out of step, a
  failing request writes into the live bank (`DaemonLaws.FailedSplices`), which can let in a packet that the published
  and the stored list both deny (`DaemonLaws.SpliceOpens`). `DaemonLaws.LiveIsLastOk` gives the exact condition under
  which the data path always runs the rules of the last Ok request.
- Default policies are written apart from the rules and a failed request leaves them behind
  (`DaemonLaws.DefaultIsLastWritten`). A failed request to deny inbound traffic can leave conntrack off under a denying
  default (`DaemonLaws.FailedDefaultDrops`); `DaemonLaws.ElisionLoses` says exactly which replies are then lost.
- A link flap around a control request between two polls is missed (`Watcher.FlapIsMissed`), and a re-sync that fails is
  not retried (`Watcher.FailedResyncIsForgotten`); `Watcher.TickExact` says exactly when a tick leaves the live bank up
  to date.
- A printed rule is read back if and only if it is printable (`Grammar.RoundTrip`). `Grammar.PrintedReadsBack` gives the
  result for every rule: a source port prints as tokens the grammar rejects, and a bare destination port after `from` is
  read as a source port (`Grammar.PortsMisprint`).
- The refill count is truncated to 32 bits, so a long idle period can leave a bucket short
  (`Bucket.BurstAfterIdle` gives the exact condition).

## Model

| member | source | states |
|---|---|---|
| Cidr.ContainsIsCovers | crates/moatd-ebpf/src/main.rs:477-547 | for every CIDR, address and family the one- or two-word masked compare holds iff the prefix is 0, or families agree, the prefix is in range and the first prefix bits agree one by one |
| Cidr.MaskedWord | crates/moatd-ebpf/src/main.rs:534-546 | a masked 64-bit compare is agreement of exactly the first p bits |
| Cidr.MaskedV4 | crates/moatd-ebpf/src/main.rs:495-507 | the 32-bit compare is agreement of the first p address bits |
| Cidr.MaskedV6Low | crates/moatd-ebpf/src/main.rs:539-546 | for prefixes 64..128 the high-word equality plus masked low word is agreement of the first p address bits |
| Cidr.HostBitsIrrelevant | crates/moatd-ebpf/src/main.rs:477-547 | CIDRs equal on their network bits accept the same addresses |
| Cidr.NestedOrDisjoint | crates/moatd-ebpf/src/main.rs:477-547 | two CIDRs of one family are nested iff they agree on the shorter prefix, and disjoint iff they do not |
| Packet.WalkV6Ext | crates/moatd-ebpf/src/main.rs:353-391 | the bounded loop computes the unbounded RFC 8200 chain cut off by its bounds |
| Packet.HopIsFollow | crates/moatd-ebpf/src/main.rs:357-389 | one loop iteration does what RFC 8200 and RFC 6275 say of the header with that protocol number |
| Packet.WalkIsBoundedChain | crates/moatd-ebpf/src/main.rs:353-391 | the walk succeeds with the result of the RFC 8200 chain iff the chain is not truncated, no header starts beyond start + 64 and the iterations suffice (offset at most start + 64, or start + 72 for a later fragment) |
| Packet.ChainAdvances | crates/moatd-ebpf/src/main.rs:364-387 | the chain never moves backwards |
| PacketLaws.V4Moves | crates/moatd-ebpf/src/main.rs:270-305 | the IPv4 parse depends only on the bytes from the IP header on, not on where they stand |
| PacketLaws.V6Moves | crates/moatd-ebpf/src/main.rs:308-333 | the same for IPv6, extension headers included |
| PacketLaws.TagTransparent | crates/moatd-ebpf/src/main.rs:249-266 | one more VLAN tag leaves the parse unchanged iff two tags do not already stand before IP or the end of the frame; otherwise the frame counts as non-IP |
| PacketLaws.TwoTagsTransparent | crates/moatd-ebpf/src/main.rs:249-266 | a frame with one or two 802.1Q/802.1ad tags parses like its untagged form |
| PacketLaws.RawTransparent | crates/moatd-ebpf/src/main.rs:239-254 | the bare datagram on a raw-L3 interface parses like the Ethernet frame, when version nibble and ethertype agree |
| PacketLaws.InsertedHeader | crates/moatd-ebpf/src/main.rs:308-391 | inserting a well-formed hop-by-hop, routing, destination-options, mobility or first-fragment header at the head of the chain gives the identical parse if the longer chain stays in bounds, and an error otherwise |
| PacketLaws.NoHeaderBypass | crates/moatd-ebpf/src/main.rs:235-391 | in any framing the longer packet parses to the same value or is malformed, and stays malformed if it was |
| PacketLaws.ParsesAt | crates/moatd-ebpf/src/main.rs:235-267 | a frame parses as the datagram at the located offset; without one it is malformed iff cut short, else not IP |
| PacketLaws.V4MalformedExactly | crates/moatd-ebpf/src/main.rs:270-290 | an IPv4 datagram is malformed iff its header is cut short or shorter than five words, or its layer 4 is cut short |
| PacketLaws.V6MalformedExactly | crates/moatd-ebpf/src/main.rs:308-391 | an IPv6 datagram is malformed iff its header, chain or layer 4 is cut short or the chain leaves the bounds |
| PacketLaws.NoL4NoPorts | crates/moatd-ebpf/src/main.rs:282-289 | later fragments and unknown protocols parse with both port slots zero |
| PacketLaws.FragmentPayloadIrrelevant | crates/moatd-ebpf/src/main.rs:374-386 | the parse of a later fragment is independent of its payload bytes and length |
| PacketLaws.IcmpSlotsAgree | crates/moatd-ebpf/src/main.rs:466-473 | every parsed ICMP packet has equal port slots |
| Frames.SegmentRoundTrip | crates/moatd-ebpf/src/main.rs:405-474 | encoded TCP/UDP ports and ICMP type and id are recovered wherever they stand |
| Frames.V4RoundTrip | crates/moatd-ebpf/src/main.rs:270-305 | parsing an encoded IPv4 datagram, options included, returns the encoded addresses, protocol and ports |
| Frames.V4FragmentRoundTrip | crates/moatd-ebpf/src/main.rs:282-289 | a later IPv4 fragment returns addresses and protocol, ports zero |
| Frames.V6RoundTrip | crates/moatd-ebpf/src/main.rs:308-333 | parsing an encoded IPv6 datagram returns what was encoded |
| Frames.V6ExtRoundTrip | crates/moatd-ebpf/src/main.rs:308-391 | behind any linked chain of extension headers the datagram is recovered iff there are at most three in at most 64 bytes, else it is malformed |
| Frames.V6FragmentRoundTrip | crates/moatd-ebpf/src/main.rs:374-386 | the same for a later IPv6 fragment, with ports zero |
| Frames.EthernetRoundTrip | crates/moatd-ebpf/src/main.rs:252-254 | an untagged frame is handed to the parser its ethertype names |
| Rules.WalkRules | crates/moatd-ebpf/src/main.rs:550-600 | the loop returns the first deciding rule of the live bank with its index, or the default policy of the direction when none decides |
| Rules.First | crates/moatd-ebpf/src/main.rs:559-592 | the index found decides and no earlier rule does |
| Rules.FirstConcat | crates/moatd-ebpf/src/main.rs:559-592 | a later rule matters only when no earlier one decides |
| Rules.WriteBankFills | crates/moatd/src/bin/moatd.rs:548-552 | writing n slots puts exactly the first n rules into the bank |
| Rules.WriteBankOther | crates/moatd/src/bin/moatd.rs:548-552 | writing one bank leaves the other unchanged |
| Rules.WriteBankSplices | crates/moatd/src/bin/moatd.rs:548-552 | writing n slots of a bank that is read shows a splice of the two lists |
| Wire.ParseCidrExact | crates/moatd/src/wire.rs:159-192 | the parser returns c iff the text denotes c: host prefix without a slash, checked prefix after the last slash, IPv4 tried first |
| Wire.ParsePortsExact | crates/moatd/src/wire.rs:194-209 | a port text is accepted as lo..hi iff it denotes those bounds with 0 < lo <= hi |
| Wire.PortsNonZero | crates/moatd/src/wire.rs:194-209 | a compiled range never collides with the "any port" encoding |
| Wire.IfaceMeansIface | crates/moatd/src/wire.rs:99-116 | the two interface sentinels never collide with a real constraint |
| Wire.Compile | crates/moatd/src/bin/moatd.rs:535-544 | a list compiles iff every rule does, to the list of compilations in order |
| Wire.CompilesExactly | crates/moatd/src/wire.rs:11-56 | a rule compiles iff every address and port text denotes something, the two families agree and proto icmp has no ports |
| Wire.RuleMeansRule | crates/moatd/src/wire.rs:11-56 | a compiled rule decides exactly the packets whose direction, interface, protocol, addresses and ports satisfy the user rule |
| Wire.CompilationPreservesMeaning | crates/moatd/src/wire.rs:11-56 | the compiled list takes the action of the first user rule that holds, else the default, for every packet |
| Wire.ZeroPortNeverMatches | crates/moatd-ebpf/src/main.rs:574-583 | a zero port slot never matches a compiled rule constraining that port |
| DataPath.Firewall.TryIngress | crates/moatd-ebpf/src/main.rs:116-167 | the ingress program's verdict and the connection table it leaves, with Ethernet framing for unknown interfaces |
| DataPath.Firewall.TryEgress | crates/moatd-ebpf/src/main.rs:169-225 | the egress program's verdict and its only effect on the connection table |
| DataPath.LookupRedundant | crates/moatd-ebpf/src/main.rs:138-167 | when no live inbound rule nor default can deny, the reverse lookup changes no verdict |
| DataPath.ExemptExactly | crates/moatd-ebpf/src/main.rs:227-232 | the ICMPv6 types 133 to 137, and no other datagrams, pass in both directions under all maps, tables and clocks |
| Conntrack.EntryGrounded | crates/moatd-ebpf/src/main.rs:194-224 | in every run each entry's time is that of the last packet of a grounding chain of passed egress packets |
| Conntrack.PassedIngressGrounded | crates/moatd-ebpf/src/main.rs:140-166 | in every run a passed non-NDP ingress packet is rule-allowed, or its reversed key has a chain of passed egress packets: first rule-allowed, gaps below the TTL, last within the TTL |
| Conntrack.PassedEgressGrounded | crates/moatd-ebpf/src/main.rs:203-224 | the same for egress packets and their own key |
| Conntrack.EgressExactly | crates/moatd-ebpf/src/main.rs:180-224 | in every run an outgoing datagram passes iff the rules allow it, or conntrack is on and its flow is fresh; otherwise it is dropped and the table kept |
| Conntrack.EgressStampsExactly | crates/moatd-ebpf/src/main.rs:203-224 | exactly when an outgoing packet stamps its flow; every other entry stays |
| Conntrack.EgressStateless | crates/moatd-ebpf/src/main.rs:186-193 | with conntrack off the verdict is the rules' alone and the table is untouched |
| Conntrack.IngressExactly | crates/moatd-ebpf/src/main.rs:138-166 | in every run an incoming datagram passes iff the rules allow it, or conntrack is on and it answers a fresh flow |
| Conntrack.UnparsedExactly | crates/moatd-ebpf/src/main.rs:75-94 | malformed packets are refused and non-IP frames pass, both ways, without a trace |
| Conntrack.IngressLeavesNoTrace | crates/moatd-ebpf/src/main.rs:150-157 | removing all ingress packets from a run leaves the same table |
| Conntrack.LazyRefresh | crates/moatd-ebpf/src/main.rs:203-224 | while its own flow is undisturbed, an entry exists iff its flow got a packet out, and last_seen <= last sent < last_seen + REFRESH |
| Conntrack.AnswerKey | crates/moatd-ebpf/src/main.rs:141-149 | the reversed key of q is the key of p iff q answers p |
| Conntrack.ReplyPasses | crates/moatd-ebpf/src/main.rs:141-157 | a reply at most two hours less ten seconds (TTL - REFRESH) after any packet its flow got out passes |
| Conntrack.FlowContinues | crates/moatd-ebpf/src/main.rs:203-215 | so does a further outgoing packet of the flow, whatever the rules then say |
| Conntrack.LateSendUntracked | crates/moatd-ebpf/src/main.rs:203-220 | two hours after the last such packet only the rules decide on a further one |
| Conntrack.LateReplyUntracked | crates/moatd-ebpf/src/main.rs:150-166 | two hours after the last such packet only the rules decide on a reply |
| Conntrack.ReplyWindowSharp | crates/moatd-ebpf/src/main.rs:208-213 | for every gap strictly between those bounds both outcomes occur |
| Publication.StepKeepsInv | crates/moatd/src/bin/moatd.rs:546-555 | every writer, reader and failure step keeps the protocol invariant |
| Publication.LiveIsPublished | crates/moatd/src/bin/moatd.rs:546-555 | in every interleaving the live bank is a complete published list |
| Publication.WalksAreAtomic | crates/moatd-ebpf/src/main.rs:553-592 | in every interleaving a walk none of whose slots was rewritten before it read them decides by the list published at its snapshot, and only a flip can make such a write possible |
| Publication.WalkDecidesBySnapshot | crates/moatd-ebpf/src/main.rs:550-600 | over the steps: anything before the next flip, anything but slot writes after it, and the walk decides by the complete list of its snapshot |
| Publication.FinishTakesDefault | crates/moatd-ebpf/src/main.rs:593-599 | in every interleaving a walk no rule decides takes the default in force when it ends, and keeps that outcome |
| Publication.WalkAsIfAlone | crates/moatd-ebpf/src/main.rs:550-600 | while no default is written, a walk not overrun decides as the uninterrupted walk would on the maps it started from |
| Publication.WalkCompletes | crates/moatd-ebpf/src/main.rs:550-600 | in every reachable state an unfinished walk can run to its end by its own steps |
| Publication.SyncRuns | crates/moatd/src/bin/moatd.rs:534-555 | a sync run to its flip publishes its first 256 rules and count in the other bank |
| Publication.OverrunDecides | crates/moatd-ebpf/src/main.rs:559-592 | from every list and every slot a walk reaches, a run in which the walk takes the action another sync wrote there |
| Publication.OverrunSharp | crates/moatd-ebpf/src/main.rs:559-592 | for every list, packet and slot the walk reaches, a run that overruns the slot and whose verdict is not the snapshot's |
| Publication.OverrunMixes | crates/moatd/src/bin/moatd.rs:546-555 | for every list denying a packet past its first slot, a run publishing only lists that deny it, under a denying default, in which a walk on that list allows it |
| Bridge.SyncIsARun | crates/moatd/src/bin/moatd.rs:534-555 | the daemon's sync, completed or aborted, is a run of writer steps with the same maps |
| Bridge.RequestIsARun | crates/moatd/src/bin/moatd.rs:498-555 | a whole request, refused, failed or Ok, is a run of its protocol steps with the same maps |
| Bridge.PacketsAreReaders | crates/moatd-ebpf/src/main.rs:550-600 | packets never influence the control plane: dropping their steps from any run leaves the same maps, writer and published list |
| Bridge.PublishedIsCommitted | crates/moatd/src/bin/moatd.rs:534-555 | at every point within any sequence of requests the published list compiles the store of the last request completed with Ok |
| Bridge.FreshPublishes | crates/moatd/src/bin/moatd.rs:489-496 | freshly loaded zeroed maps publish the empty store |
| Daemon.DaemonState.WriteConfig | crates/moatd/src/bin/moatd.rs:513-532 | CONFIG becomes the image of the store and bank, or stays when the write fails |
| Daemon.DaemonState.SyncDefaultsNow | crates/moatd/src/bin/moatd.rs:504-508 | both default policies, stopping at the first failing write |
| Daemon.DaemonState.CompileRules | crates/moatd/src/bin/moatd.rs:535-544 | the compiled list or an error |
| Daemon.DaemonState.SyncRulesNow | crates/moatd/src/bin/moatd.rs:534-555 | slots of the inactive bank, bank number, CONFIG, with the exact state after each failure |
| Daemon.DaemonState.SyncAllNow | crates/moatd/src/bin/moatd.rs:498-502 | defaults, then rules |
| Daemon.DaemonState.Dispatch | crates/moatd/src/bin/moatd.rs:596-681 | each mutating request: validation, edit, persistence, sync, no rollback |
| DaemonLaws.OkMeansSynced | crates/moatd/src/bin/moatd.rs:498-555 | a request answering Ok leaves defaults, CONFIG and live bank equal to the compilation of the stored rules |
| DaemonLaws.RequestExactly | crates/moatd/src/bin/moatd.rs:627-676 | which requests are refused and change nothing, and exactly which field each other request changes, whatever fails later |
| DaemonLaws.AnswersOkExactly | crates/moatd/src/bin/moatd.rs:627-681 | a request answers Ok iff it is accepted, every rule then stored is well-formed and no write fails |
| DaemonLaws.FailedKeepsLive | crates/moatd/src/bin/moatd.rs:534-555 | in step, a failing request changes neither CONFIG nor a live slot, and moves the bank number iff it failed at the flip |
| DaemonLaws.HandleMaps | crates/moatd/src/bin/moatd.rs:534-555 | for every state, request and fault: Ok iff the CONFIG write is reached and succeeds, the bank number moves iff it is reached, and a failed request leaves CONFIG and writes just the slots it got to |
| DaemonLaws.InStepExactly | crates/moatd/src/bin/moatd.rs:546-555 | CONFIG and the daemon name the same bank after a request iff the CONFIG write was reached and succeeded or they differed before, or it was not reached and they agreed before |
| DaemonLaws.InStepIsParity | crates/moatd/src/bin/moatd.rs:546-555 | over every sequence of requests they agree iff an even number of flips was missed since the last one that went through |
| DaemonLaws.FailedSplices | crates/moatd/src/bin/moatd.rs:546-555 | a failed request leaves CONFIG, and the live bank as it was if in step, else spliced with the rules it wrote |
| DaemonLaws.SpliceOpens | crates/moatd/src/bin/moatd.rs:546-555 | two failing requests after which a packet denied by the published and by the stored list is allowed |
| DaemonLaws.AddRuleRespectsLimit | crates/moatd/src/bin/moatd.rs:627-636 | AddRule never takes the list past 256 |
| DaemonLaws.CallKeepsLastOk | crates/moatd/src/bin/moatd.rs:596-681 | a request keeps the live rules and CONFIG those of the last Ok request iff it does not fail out of step after writing something new |
| DaemonLaws.LiveIsLastOk | crates/moatd/src/bin/moatd.rs:596-681 | over every sequence of requests with any faults, the live rules and CONFIG are at all times those of the last Ok request iff no request does such damage |
| DaemonLaws.ConfigWritesProtect | crates/moatd/src/bin/moatd.rs:546-555 | while CONFIG writes succeed no request does damage |
| DaemonLaws.DefaultIsLastWritten | crates/moatd/src/bin/moatd.rs:504-508 | over every sequence of requests the live default of a direction is the one stored when a request last got past writing it, Ok or not |
| DaemonLaws.SyncedMeansStored | crates/moatd/src/bin/moatd.rs:498-555 | a synchronised walk gives what the first 256 stored rules mean |
| DaemonLaws.ElisionSound | crates/moatd/src/bin/moatd.rs:513-532 | where conntrack is switched off, switching it on changes no ingress verdict, for any table and time |
| DaemonLaws.ElisionLoses | crates/moatd/src/bin/moatd.rs:513-532 | with conntrack off, whichever store is live, the verdict differs from that with it on iff the packet is a fresh reply no rule decides under a denying default |
| DaemonLaws.FailedDefaultDrops | crates/moatd/src/bin/moatd.rs:498-508 | a request to deny inbound that fails after its first write leaves conntrack off and drops every packet no rule decides, replies included |
| DaemonLaws.ElisionExact | crates/moatd/src/bin/moatd.rs:513-532 | with at most 256 rules it is off iff the live maps cannot deny an inbound packet |
| DaemonLaws.AppendIsLocal | crates/moatd/src/bin/moatd.rs:627-636 | appending changes the walk only for packets no earlier rule decided |
| DaemonLaws.DeleteIsLocal | crates/moatd/src/bin/moatd.rs:645-655 | deleting rule j changes the action only for packets whose first match was j, which get their next match or the default |
| DaemonLaws.SetDefaultIsLocal | crates/moatd/src/bin/moatd.rs:657-663 | a default reaches exactly the undecided packets of its direction |
| DaemonLaws.SetLoggingIsInert | crates/moatd/src/bin/moatd.rs:665-668 | logging changes no verdict |
| DaemonLaws.ResetOpens | crates/moatd/src/bin/moatd.rs:670-676 | after Reset every packet that is not malformed passes in both directions |
| Watcher.LinkWatcher.Tick | crates/moatd/src/bin/moatd.rs:750-774 | the tick remembers the snapshot and asks for a re-sync iff a changed name is referenced |
| Watcher.TouchesExactly | crates/moatd/src/bin/moatd.rs:754-766 | re-sync iff some interface a rule names looks different |
| Watcher.CompileSeesIfaces | crates/moatd/src/wire.rs:99-116 | two tables compile a list alike iff they resolve its interfaces alike |
| Watcher.SkipIsExact | crates/moatd/src/bin/moatd.rs:750-774 | if no changed name is referenced, recompilation gives the same wire rules |
| Watcher.TickExact | crates/moatd/src/bin/moatd.rs:750-774 | a tick leaves the live bank equal to recompilation of the stored rules iff its re-sync succeeds or the last sync saw the same interfaces |
| Watcher.WatcherKeepsCurrent | crates/moatd/src/bin/moatd.rs:713-776 | over every run of ticks and requests against the daemon, in which re-syncs succeed and requests are refused or succeed against the interfaces last polled, the live bank is the full recompilation of the stored rules |
| Watcher.FailedResyncIsForgotten | crates/moatd/src/bin/moatd.rs:767-774 | after a failed re-sync no number of further ticks over unchanged interfaces repairs the live bank |
| Watcher.FlapIsMissed | crates/moatd/src/bin/moatd.rs:750-774 | a rule added while its interface is down stays disabled when the interface returns before the next tick |
| Bucket.LogBucket.TryTake | crates/moatd-ebpf/src/main.rs:613-632 | refill, cap and take |
| Bucket.TakenIsPaid | crates/moatd-ebpf/src/main.rs:613-632 | tokens taken are covered by the bucket and the elapsed intervals |
| Bucket.AlwaysRateLimited | crates/moatd-ebpf/src/main.rs:613-632 | in every stretch a..b of every run at most 100 + ceil((b - a) / REFILL) tokens are taken |
| Bucket.RateLimited | crates/moatd-ebpf/src/main.rs:613-632 | the same from any capped bucket |
| Bucket.TokensCapped | crates/moatd-ebpf/src/main.rs:620-625 | tokens never exceed 100 |
| Bucket.RefillAccuracy | crates/moatd-ebpf/src/main.rs:619-625 | refills spanning D grant more than D / (2 REFILL) and at most D / REFILL tokens before the cap |
| Bucket.BurstAfterIdle | crates/moatd-ebpf/src/main.rs:619-631 | from any capped bucket, a burst at a refilling time logs exactly 100 events iff the tokens left plus the truncated interval count reach 100 |
| Bucket.BurstExactly | crates/moatd-ebpf/src/main.rs:613-632 | what a burst of any size takes from any capped bucket that refills |
| Bucket.TokensConserved | crates/moatd-ebpf/src/main.rs:613-632 | over every run, tokens held and granted equal tokens taken, left and spilled over the cap |
| Bucket.StockIsUsable | crates/moatd-ebpf/src/main.rs:626-631 | as many attempts succeed as there are tokens to begin with |
| Bucket.SpacedAllTaken | crates/moatd-ebpf/src/main.rs:613-632 | events at most one per 10 ms are all logged |
| Dedupe.DedupeWindow.Record | crates/moatd/src/bin/moatd.rs:834-847 | one event counted under its key, first event kept as sample, other keys unchanged |
| Dedupe.DedupeWindow.Flush | crates/moatd/src/bin/moatd.rs:849-878 | every entry reported exactly once, window emptied |
| Dedupe.PendingIsWindow | crates/moatd/src/bin/moatd.rs:834-847 | a pending entry counts the window's events of its key and holds the first |
| Dedupe.EntryCountsAlike | crates/moatd/src/bin/moatd.rs:834-847 | over every run an entry counts exactly the events since the last flush that agree on family, protocol, source, destination port, interface and rule |
| Dedupe.HitsConserved | crates/moatd/src/bin/moatd.rs:833-879 | reported plus pending hits equal recorded hits, per key, over every run |
| Dedupe.FlushReportsWindow | crates/moatd/src/bin/moatd.rs:849-878 | a flush reports each key of its window once with count and first event, and no other key |
| Grammar.ParseFullGrammar | crates/moatd/src/parser.rs:65-152 | the two token loops compute the recursive grammar |
| Language.GrammarExactly | crates/moatd/src/parser.rs:65-160 | tokens parse to r iff they spell at most one direction and then clauses in any order, none of the parts given twice, that give exactly the fields of r |
| Grammar.RenderRule | crates/moatd/src/bin/moatd.rs:224-245 | the printer's tokens after the action, which the grammar reads back when the rule is printable |
| Grammar.RoundTrip | crates/moatd/src/parser.rs:65-160 | a printed rule is read back as itself iff it is printable |
| Grammar.PrintedReadsBack | crates/moatd/src/parser.rs:65-160 | what the grammar makes of the printed form of every rule |
| Grammar.PortsMisprint | crates/moatd/src/parser.rs:106-136 | a printed source port is always rejected; a bare destination port after the source is read as its port |
| Grammar.ParsedPrintable | crates/moatd/src/parser.rs:65-160 | what the grammar accepts is printable but for a source port or a bare destination port after `from` |
| Grammar.Expressible | crates/moatd/src/parser.rs:106-136 | every rule, source port included, has tokens that parse to it |
| Grammar.SeenIsFinal | crates/moatd/src/parser.rs:106-136 | no later clause overwrites a source, destination or interface already given |
| EndToEnd.NoL4NeverMatchesPorts | crates/moatd-ebpf/src/main.rs:282-289 | a frame without a layer-4 header never matches a compiled rule with a port constraint |
| EndToEnd.HeaderInsertionOnlyDrops | crates/moatd-ebpf/src/main.rs:349-351 | prepending an extension header leaves verdict and conntrack effect alone, or drops |
| EndToEnd.ThirdTagPasses | crates/moatd-ebpf/src/main.rs:249-266 | a third tag before IP makes the frame pass in both directions under all maps and tables |
| EndToEnd.VerdictMeansRules | crates/moatd-ebpf/src/main.rs:124-225 | in a synchronised state a datagram passes iff conntrack is on and knows its flow, or the first stored rule that holds of it, else the default, says allow; both directions |
| EndToEnd.IcmpEchoAnswers | crates/moatd-ebpf/src/main.rs:459-473 | ICMP frames with swapped addresses and one id answer each other |
| EndToEnd.ConcurrentWalkMeansStored | crates/moatd/src/bin/moatd.rs:534-555 | requests interleaved with walks in any way: a walk not overrun takes the action of the first rule that holds in the store of the last Ok request before its snapshot, or the default in force when it ends |

## Left out

- Tokio tasks, the Unix socket and its framing, signals, systemd and tracing: input and output only.
- JSON and TOML encoding and the rules file: persisting is a step that succeeds or fails.
- Text of IPv4 and IPv6 addresses and of integers: standard library conversions, parameters of the compiler.
- Common.ValidIfaceName: counts characters where the source counts bytes, which differs only for non-ASCII names.
- Shorthand specs, app profiles and the read-only requests: each is a single small branch.
- Attaching programs to interfaces, driver fallback and the interface filter: foreign calls.
- The ring buffer and the emission of drop events: the packet methods return verdicts, the token bucket is modelled on its own.
- The LRU policy and capacity of the connection table: entries may be evicted at any step instead.
- Weak-memory effects within one packet's table access: a packet is one step of the conntrack model.
- Publication.WalksAreAtomic: takes the 8-byte CONFIG store and a slot read as atomic, and covers runs whose CONFIG writes succeed.
- EndToEnd.ConcurrentWalkMeansStored: covers requests whose CONFIG writes succeed; what a failed one does is stated for the daemon alone, in DaemonLaws.
- Watcher.WatcherKeepsCurrent: takes a tick as one atomic step, although the source reads the interfaces again in `sync_rules` and lets a request in between the check and the re-sync.
- Dedupe.HitsConserved: needs fewer than 2^32 hits per key and window; the counter wraps there as in an unchecked build.
- Atomicity of default policies with the rule flip: the code does not provide it, so a walk ends with the default then in force.
- The `version` and `enabled` fields of a wire rule: carried, but no program reads them.
