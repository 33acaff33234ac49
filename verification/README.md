# A model of the firewall's decision core

An XDP/eBPF program drops packets from a handful of kernel maps; a daemon compiles a configuration into those maps,
scores sources from the events the program streams back, bans them, and keeps a ledger of bans across sweeps, edits by
hand and reboots. This project models that core in Dafny and proves what it is for. `dafny verify dfyconfig.toml`
checks all of it.

The modules follow the program:

| modules | files of the program |
|---|---|
| `Cidrs`, `Configuration` | `config.rs` |
| `RuleKeys`, `Compiler`, `MapSync`, `Loader`, `Overflow`, `Daemon` | `daemon.rs`: compilation and the maps |
| `Common`, `RateLimiter`, `UdpFlows`, `XdpFilter`, `XdpProgram`, `RateRuns`, `LimitRuns`, `StrictUdp` | the eBPF program and the shared constants |
| `Postures`, `PostureRuns` | `posture.rs` |
| `Detectors`, `DetectorRuns`, `DetectorLog`, `Detection`, `ScanRuns`, `Escalation` | `detector.rs`, and the event stream to it |
| `BanStates`, `Persistence`, `Ledgers` | `state.rs`, and the ledger in `daemon.rs` |
| `Feeds`, `BanNotices`, `ThinkFilters` | `feeds.rs`, `history.rs`, `assistant.rs` |
| `Words`, `Sorting`, `Collections`, `Wrappers` | machine words, sorting, sets and maps, results |

State that the program changes in place is a class (`Xdp`, `Kernel`, `Detector`, `Blocklist`, `Shared`, `BanNotes`,
`ThinkFilter`) whose methods are proved against functions on its value; the theorems over whole runs are about those
functions. Loops over hash sets and maps pick their elements in any order.

## How to read the model

- Integers are bounded subset types. Where the program's arithmetic can wrap (a limit in minutes, an expiry, a window's
  elapsed time, the limiter's count) the wrap is written out, as a release build behaves; saturating operations are
  saturating functions. Scores are exact rationals.
- A configuration's profiles are a sequence; `InNameOrder` says they come by name, each once, as from the program's map.
- Text is taken as already split: a port range is a pair of numbers or unreadable, likewise addresses and limits.
- A packet is its parsed facts. `XdpFilter.Inbound` is the verdict and the memory after one inbound packet, and
  `XdpFilter.MemoryAfter` the memory after a run of packets in and out, under whatever rules and bans are in force at
  each. An LRU map may forget any entries at any insert (`forgets`); only the completeness statements assume it does not.
- A trie stores a node per prefix (length and leading bits) and holds a bounded number of them; a lookup succeeds when
  some node matches.
- Theorems speak of what is written or on the wire where they can: ports and limits as the configuration has them, TCP
  flags as header bits, ICMP types, address intervals, seconds; lemmas tie the program's own tests to these.
- Clocks are arguments: nanoseconds since boot in 64 bits, wall-clock time, seconds for the detector. One call sees one
  instant. Runs take the clock as non-decreasing.
- `DetectorRuns.Fade` and `View` say what of a source still matters from a moment on: a finished window and a forgiven
  offender do not. `Alone` is the detector for one source. The detector is deaf to a new source while 16384 others have
  unfinished windows.

## Where the code differs from what it says

For each, a member gives an input or a state that shows it, and one the exact condition under which the promise holds.

- A limit's window "at most 1h": minutes are multiplied in 32 bits before the check, so 71582789 minutes becomes 44 s
  (`RateWindowExactIff`, `RateWindowWraps`).
- A ban's expiry wraps at 2^64 ns (`ExpiryExactIff`, `HugeBanIsShort`, `RebootKeepsEndIff`).
- A limiter window lets opener 2^32 in (`AdmittedIff`, `WrapReached`).
- "6/30s" is not 6 in any 30 s: an interval as long as the window can let in up to 2 * max - 1 openers, and every limit a
  rule can set has a run that does it (`IntervalWithinMaxIff`, `IntervalBound`, `EveryLimitReachesBound`).
- A trie update that stops half way leaves trie and mirror different, and later updates may never repair it
  (`HalfDoneThenSyncedIff`, `HalfDoneLeaks`, `ApplyCrowdedThenClosed`). What such a failure leaves can also refuse every
  later policy with another restricted port (`Wedged`, `WedgedForGood`, `ApplyCrowdedThenLone`). From any such state,
  `ApplyConfig` says exactly when an apply succeeds and when it leaves the maps as the policy says.
- From maps in step, a valid configuration can still be one that never applies, for want of trie entries or of room for
  its blocked addresses (`ApplyConfig`, `ValidCanOverflow`, `BlockedCanOverflow`).
- A feed network that once did not fit is recorded as loaded and not tried again while it stays listed
  (`SkippedThenAlone`, `SkippedStaysOut`, `FedInStepIff`).
- An address taken out of the configuration while the daemon is down is banned again from the saved state at the next
  start, and lifted by the next apply (`StartUp`, `StartedConfigIff`, `ApplyConfig`).
- An automatic ban replaces a longer ban set by hand or in the configuration (`EnactShortensIff`, `HourReplacesForever`).
- The streamed answer keeps white space after `</think>` when a piece ends right behind the tag (`ChunkingIrrelevant`,
  `CutShowsSpace`).

## Model

| member | source | states |
|---|---|---|
| `Compiler.CompilePreservesMeaning` | ai-firewall/src/daemon.rs:649-696 | for every policy that compiles, and every protocol, source and port: the compiled sets and trie entries open the port to the source exactly when the policy as written does (a list entry names it, itself or as a range; a rule names it with no `from` or with a network containing the source; or it is UDP 68 or 546) |
| `Compiler.Compile` | ai-firewall/src/daemon.rs:649-696 | compilation succeeds exactly when every port, network and limit of the policy reads, and its result is then the compiled form of the policy |
| `Compiler.AddRule` | ai-firewall/src/daemon.rs:658-693 | the loop over one rule's ports extends a compiled form of the rules before it to one that includes it, and fails exactly when the rule does not read |
| `Compiler.CompiledIsUnique` | ai-firewall/src/daemon.rs:649-696 | a policy has one compiled form, whatever order sets are walked in |
| `Compiler.TrieMeansRules` | ai-firewall/src/daemon.rs:666-679 | some compiled entry matches the 48-bit key of (port, source) exactly when some restricted rule covers the port and admits the source |
| `Compiler.EntriesAreCanonical` | ai-firewall/src/daemon.rs:666-679 | every trie entry is the entry of one port and one prefix network |
| `Compiler.LowestRateWins` | ai-firewall/src/daemon.rs:681-692 | a port has a limit exactly when a rule limits it; the limit is one of those rules' pairs, no rule's count per second is lower, and it is never the 0 word |
| `Compiler.RuleOrderIrrelevant` | ai-firewall/src/daemon.rs:681-692 | reordering or repeating rules changes no opening, and no limit except between equal rates |
| `Compiler.Unpack` | ai-firewall-common/src/lib.rs:120-124 | a packed limit unpacks to the same pair; with a positive count it is not the "no limit" word |
| `RuleKeys.RuleMatchIsContains` | ai-firewall-ebpf/src/main.rs:330-338 | the 48-bit longest-prefix match of an entry holds exactly when the port is equal and the network contains the address |
| `RuleKeys.RuleEntryLeadInjective` | ai-firewall/src/daemon.rs:666-672 | entries of one length that share their leading bits are the same entry, so no entry shadows another |
| `RuleKeys.WordOfKey` | ai-firewall/src/daemon.rs:667-672 | the six key bytes are the port followed by the address, most significant first |
| `Cidrs.ParsedIsPrefix` | ai-firewall/src/config.rs:392-417 | what the parser accepts is a prefix mask of the written length and a network containing the written address |
| `Cidrs.LeadingOnesOfMask` | ai-firewall/src/config.rs:409-413 | the mask built by a shift has exactly that many leading ones |
| `Cidrs.ContainsIsInterval` | ai-firewall/src/config.rs:426-428 | for a prefix network the mask test, the block number and the address interval agree |
| `Cidrs.NetworkFits` | ai-firewall/src/daemon.rs:605-607 | counting up from a network's address for its size never leaves the 32-bit address space |
| `Cidrs.SingleIsPrefix` | ai-firewall/src/config.rs:419-424 | a single address is the /32 network of itself alone |
| `Configuration.PortSpec.Ports` | ai-firewall/src/config.rs:159-179 | what is written is accepted exactly when it is a port from 1 on or a rising range of at most 4096 of them, and then its first and last port enclose exactly the ports named |
| `Configuration.Expand` | ai-firewall/src/config.rs:195-203 | the expanded list holds every port named, itself or in a range, once, in increasing order; an error exactly when some entry is malformed |
| `Configuration.Rule.Rate` | ai-firewall/src/config.rs:218-244 | a written limit is accepted exactly when it has a count of at least 1 and comes to 1 to 3600 seconds, and as that count and those seconds |
| `Configuration.RateBounds` | ai-firewall/src/config.rs:240-243 | an accepted limit has a count of at least 1 and a window of 1 to 3600 s |
| `Configuration.RateWindowExactIff` | ai-firewall/src/config.rs:235-243 | an accepted window is the written one exactly when the written one fits 32 bits |
| `Configuration.RateWindowWraps` | ai-firewall/src/config.rs:235-243 | the input for which it is not: 71582789 minutes is accepted as 44 seconds |
| `Configuration.Config.Validate` | ai-firewall/src/config.rs:474-550 | validation succeeds exactly on the configurations that meet every written demand, profiles and feeds included |
| `Configuration.FeedConfig.Validate` | ai-firewall/src/config.rs:514-528 | succeeds exactly when every list is a known one and every url is https |
| `Configuration.ChosenIffLowest` | ai-firewall/src/config.rs:438-443 | a profile is chosen exactly when it lists an active connection and every other that does comes later by name |
| `Configuration.FoundByName` | ai-firewall/src/config.rs:446 | a profile is found under its own name |
| `Configuration.ActiveProfileDecides` | ai-firewall/src/config.rs:438-460 | the lowest profile by name that lists an active connection decides: each setting it has replaces the configuration's, which holds where it has none |
| `Configuration.NoProfileDecides` | ai-firewall/src/config.rs:438-460 | with no such profile the configuration's own settings hold |
| `Configuration.ValidPolicies` | ai-firewall/src/config.rs:445-460 | a valid configuration gives a valid policy, which compiles, under every profile name, known or not |
| `MapSync.SyncTrie` | ai-firewall/src/daemon.rs:698-711 | the update by difference, from any state of trie and mirror: it succeeds exactly when what it would make of the trie fits (from a trie that matches its mirror: exactly when everything wanted fits); the new trie and mirror on success; on failure a full trie with everything stale out and something new not in, and the unchanged mirror |
| `MapSync.DoneIffFits` | ai-firewall/src/daemon.rs:698-711 | the count behind it: an update that stopped at a full trie could not have fitted |
| `MapSync.InStepIffClean` | ai-firewall/src/daemon.rs:698-711 | a completed update leaves a load from scratch exactly when the trie held nothing that neither mirror nor wanted set has, and lacked nothing both have |
| `MapSync.RemoveAll` | ai-firewall/src/daemon.rs:703-705 | takes out exactly the stale nodes |
| `MapSync.InsertUntilFull` | ai-firewall/src/daemon.rs:706-708 | stops exactly at a node that does not fit, with the trie full |
| `MapSync.InsertSkipping` | ai-firewall/src/daemon.rs:760-768 | counts the networks that do not fit and puts in all others |
| `MapSync.SyncFeeds` | ai-firewall/src/daemon.rs:754-775 | the feed update records even what did not fit; nothing is skipped exactly when what the trie would hold fits, and from a trie with nothing outside its mirror it ends as the wanted one exactly when nothing was skipped and no network that stays was missing |
| `MapSync.FedInStepIff` | ai-firewall/src/daemon.rs:754-775 | the condition behind it |
| `MapSync.SkippedStaysOut` | ai-firewall/src/daemon.rs:754-775 | a network once skipped is not tried again: while every later load lists it, it is missing from the trie after each |
| `MapSync.UpdateFits` | ai-firewall/src/daemon.rs:698-711 | counting nodes: the update completes, and the trie is a load from scratch, exactly when the wanted set is within capacity |
| `MapSync.CanonicalDistinct` | ai-firewall/src/daemon.rs:666-672 | prefix entries never share a trie node, so removing one never removes another |
| `MapSync.NoResidue` | ai-firewall/src/daemon.rs:698-711 | after any run of successful updates the trie is a load of the last wanted set from scratch |
| `MapSync.NodeResidueIff` | ai-firewall/src/daemon.rs:698-711 | from an arbitrary start, a node ends as wanted exactly when some update touched it or trie and mirror agreed on it |
| `MapSync.HalfDoneThenSyncedIff` | ai-firewall/src/daemon.rs:703-709 | after an update that stopped half way, with something new not in, the next one is clean exactly when it wants all that went in and nothing that was taken out |
| `MapSync.FedStaysInside` | ai-firewall/src/daemon.rs:754-775 | over any run of feed updates, whatever did not fit, no trie node is outside the last wanted networks |
| `MapSync.FeedMatchIsContains` | ai-firewall-ebpf/src/main.rs:163-166 | a feed node matches exactly the addresses of its network |
| `Loader.SyncPorts` | ai-firewall/src/daemon.rs:798-811 | slot by slot, what the port array reads after the update |
| `Loader.SyncRates` | ai-firewall/src/daemon.rs:590-596 | slot by slot, what the rate array reads after the update |
| `Loader.LoadTrie` | ai-firewall/src/daemon.rs:588-589 | between canonical entry sets: success exactly when the updated trie fits 4096 entries, and then a load of the wanted set exactly when the trie held no residue; what is left on failure |
| `Loader.Kernel.constructor` | ai-firewall/src/daemon.rs:204-217 | empty maps and empty mirrors agree, and `WellKept` holds; every load keeps it, failed ones included |
| `Loader.Kernel.LoadPorts` | ai-firewall/src/daemon.rs:586-587 | port arrays that match their mirrors match the new sets afterwards; nothing else in the kernel changes |
| `Loader.Kernel.LoadTries` | ai-firewall/src/daemon.rs:588-589 | both tries, TCP first, from any state: success exactly when both updated tries fit, and then in step exactly when neither held residue; from tries in step, exactly within capacity; what is left on failure; nothing else changes |
| `Loader.Kernel.LoadRates` | ai-firewall/src/daemon.rs:590-596 | the rate array reads the wanted limits and 0 elsewhere; nothing else changes |
| `Loader.Kernel.LoadCompiled` | ai-firewall/src/daemon.rs:586-596 | from any state: success exactly when both updated tries fit, and then the maps are a load from scratch exactly when the tries held no residue, always so from maps in step; on failure the port arrays already read the new sets and the rates still the old ones |
| `Loader.Kernel.LoadPolicy` | ai-firewall/src/daemon.rs:575-596 | settings, compilation and maps together, from any state: success exactly when the policy compiles and both updated tries fit, and then a load from scratch exactly when the tries held no residue, always so from maps in step; what settings, arrays, tries and mirrors hold after each kind of failure |
| `Loader.Kernel.LoadFeeds` | ai-firewall/src/daemon.rs:746-775 | none fails exactly when what the trie would hold fits; the trie is in step afterwards exactly when none failed and no network listed before and now was missing (from a trie in step: exactly when all networks fit); it holds no node outside them in any case; bans are untouched |
| `Overflow.ValidCanOverflow` | ai-firewall/src/config.rs:474-550 | validation does not bound trie entries: two rules that validate and compile need 4097 of the 4096 |
| `Overflow.FullTrieOpens` | ai-firewall/src/daemon.rs:706-708 | a trie filled by that policy lets each source of its network in to all of the 4097 ports but one |
| `Overflow.HalfDoneLeaks` | ai-firewall/src/daemon.rs:698-711 | an update that stops half way leaks: after that policy has failed on empty tries, one that restricts nothing applies cleanly and all of those ports but one stay open |
| `Overflow.ApplyCrowdedThenClosed` | ai-firewall/src/daemon.rs:575-596 | the same through the daemon's own apply, twice: an error, then success, and ports open that the policy in force does not open |
| `Overflow.Wedged` | ai-firewall/src/daemon.rs:698-711 | with a full trie and an empty mirror, as that failure leaves them, an update that wants any other node fails and changes neither |
| `Overflow.WedgedForGood` | ai-firewall/src/daemon.rs:698-711 | so over any run of such updates, every one fails, and trie and mirror end as they began |
| `Overflow.ApplyCrowdedThenLone` | ai-firewall/src/daemon.rs:575-596 | through the daemon's own apply: after the crowded policy, one restricted port fails too, although any trie could hold it |
| `Overflow.SkippedThenAlone` | ai-firewall/src/daemon.rs:754-775 | feeds that list more networks than fit leave one missing, and listing it alone next empties the trie |
| `Overflow.SinglesCount` | ai-firewall/src/daemon.rs:754-775 | such lists exist: any number of single addresses |
| `Loader.HitsIsTrieHit` | ai-firewall-ebpf/src/main.rs:330-338 | a lookup in the trie of nodes answers as the entries it was loaded from |
| `Loader.KernelMeansPolicy` | ai-firewall-ebpf/src/main.rs:378-406 | end to end: what the kernel opens, and whether it limits, from loaded maps is what the policy as written says |
| `Loader.FeedTrieMeansNetworks` | ai-firewall-ebpf/src/main.rs:163-166 | the feed trie drops exactly the sources inside a loaded network |
| `Loader.VerdictIff` | ai-firewall-ebpf/src/main.rs:137-441 | the whole verdict on any packet, as bans, mode and written policy: bans before everything, monitor mode suppressing only policy and ping drops |
| `XdpProgram.Xdp.constructor` | ai-firewall-ebpf/src/main.rs:29-75 | starts with empty memory, no events and zero counters |
| `XdpFilter.FlagsRead` | ai-firewall-ebpf/src/main.rs:380-388 | the kernel's flag tests by the header's bits: malformed is no flag at all, FIN with URG and PSH, or FIN without ACK; an opener is SYN without ACK that is not malformed |
| `XdpFilter.EventIff` | ai-firewall-ebpf/src/main.rs:380-428 | what is streamed, exactly: openers, malformed segments and UDP that answers nothing, aimed at this host and neither banned nor a fragment; each as it is, and as dropped exactly when enforcing would drop it; so what the policy drops is what is reported as dropped |
| `XdpFilter.PingIsEcho` | ai-firewall-ebpf/src/main.rs:256-265 | the ping dropped is the echo request of either family, type 8 or 128 |
| `XdpFilter.SourceIsAddressOrSlash64` | ai-firewall-ebpf/src/main.rs:209-217 | a source is the IPv4 address, or the /64 the IPv6 address lies in |
| `XdpFilter.MonitorDropsOnlyBanned` | ai-firewall-ebpf/src/main.rs:408-409 | out of enforcement nothing but a ban or a feed drops a packet |
| `XdpProgram.Xdp.OverRateLimit` | ai-firewall-ebpf/src/main.rs:342-376 | the in-place limiter is one bump of the source's own state, and over exactly when the window's seconds, the low 16 bits of the slot, are not past and the count comes above its high 16 bits |
| `XdpFilter.KnownSourceForgetsNone` | ai-firewall-ebpf/src/main.rs:351-360 | counting a known source makes the limiter forget nobody and touches no other count |
| `XdpProgram.Xdp.Police` | ai-firewall-ebpf/src/main.rs:378-441 | verdict, memory, drop counter and the streamed (or lost) event of one judged segment |
| `XdpProgram.Xdp.Unbanned` | ai-firewall-ebpf/src/main.rs:168-262 | the same for a source neither banned nor listed: fragments, ping, unparsed protocols and segments |
| `XdpProgram.Xdp.Ingress` | ai-firewall-ebpf/src/main.rs:82-166 | every inbound packet is counted exactly once, in the counter that names what happened to it; verdict, memory and event are those of the specification, and one event is streamed, or counted as lost, exactly for a reportable packet |
| `XdpProgram.Xdp.Egress` | ai-firewall-ebpf/src/main.rs:451-509 | an outbound UDP packet records exactly its flow, for 180 s, and nothing else changes |
| `RateLimiter.AfterIs` | ai-firewall-ebpf/src/main.rs:342-376 | after any openers the state is the start of the current window and the openers since, in 32 bits |
| `RateLimiter.AdmittedIff` | ai-firewall-ebpf/src/main.rs:354-361 | opener number n of its window is let in exactly when n, wrapped to 32 bits, is at most the limit |
| `RateLimiter.FirstMaxAdmitted` | ai-firewall-ebpf/src/main.rs:354-361 | short of 2^32 openers a window lets in exactly its first `max` |
| `RateLimiter.CountWraps` | ai-firewall-ebpf/src/main.rs:359-360 | the exception: opener 2^32 of a window is let in whatever the limit |
| `RateLimiter.WrapReached` | ai-firewall-ebpf/src/main.rs:359-360 | such a run: of 2^32 openers at one instant the last is let in and the one before is not, under any limit and window |
| `RateLimiter.IntervalCount` | ai-firewall-ebpf/src/main.rs:342-376 | exactly how many openers a closed interval no longer than the window lets in: the rest of one window's share, and the share of a window begun inside it |
| `RateLimiter.IntervalWithinMaxIff` | ai-firewall-ebpf/src/main.rs:342-376 | such an interval stays within the limit exactly when no window begins in it, the window it starts in is used up, or the two together let in no more than the limit |
| `RateLimiter.IntervalBound` | ai-firewall-ebpf/src/main.rs:342-376 | it never lets in 2 * max |
| `RateLimiter.IntervalBoundReached` | ai-firewall-ebpf/src/main.rs:342-376 | for every limit and window a run of openers, all but the first within one window's length, lets in 2 * max - 1 |
| `RateRuns.LimiterSeesOwnOpeners` | ai-firewall-ebpf/src/main.rs:342-376 | over any stretch of a run of any packets, a source's limiter state is what it held at the start and what its own openers since leave |
| `RateRuns.PassedIffAdmitted` | ai-firewall-ebpf/src/main.rs:389-392 | an opener passes exactly when it reaches the limiter and is admitted after what the limiter held and the openers since |
| `RateRuns.PassedOpenersCount` | ai-firewall-ebpf/src/main.rs:342-376 | over any stretch no longer than the seconds of the limit, exactly how many of a source's openers to a limited port pass |
| `RateRuns.PassedOpenersBounded` | ai-firewall-ebpf/src/main.rs:342-376 | at most 2 * max - 1, over any stretch of any run no longer than the seconds of the limit, whatever happened before it, whatever else arrives and whatever else is reconfigured; within the stretch the limit stays, the entry is not forgotten and the 32-bit count does not come round to 0 |
| `RateRuns.EveryLimitReachesBound` | ai-firewall-common/src/lib.rs:120-124 | every limit a rule can set has a run of openers that reaches it |
| `LimitRuns.LimitInForce` | ai-firewall/src/daemon.rs:681-692 | of the limits written for a port the slowest is in force, and it is what the kernel is given, as connections and seconds |
| `LimitRuns.WrittenLimitBounds` | ai-firewall-ebpf/src/main.rs:340-376 | from the rule to the packets: in any stretch of any run no longer than the written seconds, fewer than twice the written connections get in from one source |
| `LimitRuns.WrittenLimitExact` | ai-firewall-ebpf/src/main.rs:340-376 | and exactly: when the kernel held nothing of the source, of the openers within the written seconds of the first one the first `max` pass and every other is turned away |
| `UdpFlows.LiveWasSent` | ai-firewall-ebpf/src/main.rs:114-119 | a live flow entry was recorded less than 180 s before, whatever was forgotten |
| `UdpFlows.SentStaysLive` | ai-firewall-ebpf/src/main.rs:451-482 | without forgetting, the converse |
| `StrictUdp.LicenseIsKey` | ai-firewall-ebpf/src/main.rs:186-198 | the two keys a reply is looked up under are recorded exactly by packets to that remote, or to multicast, broadcast or the wildcard end, from that port |
| `StrictUdp.StrictUdpSafety` | ai-firewall-ebpf/src/main.rs:396-408 | over every run: with strict on, a UDP packet passing to a port not open to its source was licensed by a packet out less than 180 s before |
| `StrictUdp.StrictUdpIff` | ai-firewall-ebpf/src/main.rs:396-408 | and while nothing is forgotten, exactly those pass |
| `Postures.Posture.Validate` | ai-firewall/src/posture.rs:60-72 | succeeds exactly for a known name and networks that all read |
| `Postures.Apply` | ai-firewall/src/posture.rs:102-153 | the in-place overlay is the posture's relation between configurations, profile by profile |
| `Postures.PostureKeepsValid` | ai-firewall/src/posture.rs:102-153 | every posture turns a valid configuration into a valid one, which compiles under every profile |
| `Postures.PostureKeepsProfileChoice` | ai-firewall/src/posture.rs:112-120 | no posture changes which profile a network selects |
| `Postures.PostureKeepsNameOrder` | ai-firewall/src/posture.rs:112-120 | nor the order of the profiles by name |
| `Postures.LockdownPassesIff` | ai-firewall/src/posture.rs:106-121 | exactly what lockdown lets in: answers, segments of running connections (by flag bits), UDP 68 and 546, and what the firewall never judges |
| `Postures.LockdownPassesLess` | ai-firewall/src/posture.rs:106-121 | packet by packet, with the same bans and flow tables, lockdown passes a subset of what the configuration passes without it |
| `PostureRuns.LockdownRunPassesLess` | ai-firewall/src/posture.rs:106-121 | over any run: two machines fed the same packets, each with its own memory, and every packet that passes under lockdown passes without it |
| `Postures.StealthOpensIff` | ai-firewall/src/posture.rs:125-149 | stealth opens exactly the decoy ports, to exactly the given networks, on top of what was open, under every profile |
| `Postures.StealthKeepsRates` | ai-firewall/src/posture.rs:126-142 | stealth changes no limit |
| `Postures.StealthOpensNothingOutside` | ai-firewall/src/posture.rs:125-149 | packet by packet, with the same flow tables and the same count for the source, a source outside the given networks gets no packet through that it did not get through before |
| `PostureRuns.StealthRunOpensNothingOutside` | ai-firewall/src/posture.rs:125-149 | over any run: two machines fed the same packets, each with its own memory; the same holds as long as neither limiter forgets the source |
| `Postures.StealthOpensOrLimited` | ai-firewall/src/posture.rs:125-149 | packet by packet, whatever the counts: what stealth lets in from outside, the policy alone lets in too, except exactly the openers its limiter turns away |
| `PostureRuns.StealthRunOpensOrLimited` | ai-firewall/src/posture.rs:125-149 | over any run, whatever either limiter forgets: a packet from outside that passes under stealth fails to pass without it exactly when it is an opener the limiter there turns away |
| `Postures.ScaledLimits` | ai-firewall/src/posture.rs:157-167 | limits are doubled up to the 32-bit ceiling, or halved down to 1 |
| `Postures.PostureSettings` | ai-firewall/src/posture.rs:102-124 | by name: relaxed doubles the detector's limits; lockdown halves them, bans four times as long and enforces; no posture changes the mode, ban lengths, blocked addresses or feeds otherwise |
| `Postures.DecoysAre` | ai-firewall/src/posture.rs:38-39 | the decoys are TCP 21, 22, 23, 25, 80, 445, 3306, 3389 and 8080, and UDP 53 |
| `DetectorLog.PosturesOrderThresholds` | ai-firewall/src/posture.rs:157-167 | under the posture named lockdown the detector is tighter, under relaxed looser than the configured one, over the same window |
| `Escalation.LockdownBansAreFourfold` | ai-firewall/src/posture.rs:121-123 | under lockdown every ban is four times as long, at every strike, short of 2^64 s |
| `Detectors.CountEvent` | ai-firewall/src/detector.rs:130-147 | one event counted field by field, openers and malformed segments by their flag bits; no 32-bit counter overflows |
| `Detectors.ProtectedIff` | ai-firewall/src/detector.rs:88-94 | protected is: in a protected IPv4 network, a protected /64, or link-local (fe80::/10) |
| `Detectors.LastMax` | ai-firewall/src/detector.rs:167-171 | the reason is the last of the largest signals |
| `Detectors.BelowLimits` | ai-firewall/src/detector.rs:149-166 | a score below 1 puts every counter strictly below its limit and at most `port_limit` ports in the list |
| `Detectors.ObservedSound` | ai-firewall/src/detector.rs:109-184 | every event keeps at most 16384 tracks, each safe to increment |
| `Detectors.PrunedSound` | ai-firewall/src/detector.rs:222-229 | so does pruning |
| `Detectors.Detector.constructor` | ai-firewall/src/detector.rs:62-71 | starts empty and sound |
| `Detectors.Detector.Reconfigure` | ai-firewall/src/detector.rs:73-76 | changes the settings only |
| `Detectors.Detector.SetProtected` | ai-firewall/src/detector.rs:78-86 | new protected addresses, and exactly the tracks of unprotected sources kept |
| `Detectors.Detector.RestoreOffender` | ai-firewall/src/detector.rs:104-106 | one offender put in place |
| `Detectors.Detector.Prune` | ai-firewall/src/detector.rs:222-229 | in-place pruning is the specification's |
| `Detectors.Detector.Observe` | ai-firewall/src/detector.rs:109-184 | the whole new state and the answer for one event, with the early returns |
| `Detectors.Detector.Assess` | ai-firewall/src/detector.rs:121-183 | counts the event in its source's window and bans at a score of 1, touching no other source |
| `Detectors.Detector.Escalate` | ai-firewall/src/detector.rs:187-219 | strikes, last ban and length of the new ban |
| `DetectorRuns.PruneInvisible` | ai-firewall/src/detector.rs:222-229 | over any run with a non-decreasing clock, and any number of sources, prunes inserted anywhere change no answer |
| `DetectorRuns.SourcesDoNotInterfere` | ai-firewall/src/detector.rs:109-219 | the answers to one source over a whole run are those of the run of its events alone, as long as the table is never full of others when it is heard |
| `DetectorRuns.AnsweredAsIfAlone` | ai-firewall/src/detector.rs:109-219 | equivalently: they are those of a detector that knows one source |
| `DetectorRuns.FewSourcesNeverDeaf` | ai-firewall/src/detector.rs:114-119 | with at most 16384 sources that condition always holds |
| `DetectorRuns.StepIsAloneIff` | ai-firewall/src/detector.rs:114-119 | step by step it is exact: an event is treated as if its source were alone exactly when the table is not saturated |
| `DetectorRuns.DeafIff` | ai-firewall/src/detector.rs:114-119 | the early return is taken exactly when 16384 other sources have unfinished windows |
| `DetectorRuns.ObservedViews` | ai-firewall/src/detector.rs:109-184 | what one event changes about every source, as far as can ever be seen |
| `DetectorRuns.ReprotectedView` | ai-firewall/src/detector.rs:78-86 | newly protected sources have what was running against them forgotten, and nothing else of anyone changes |
| `DetectorRuns.PruneKeepsIff` | ai-firewall/src/detector.rs:222-229 | pruning keeps an offender exactly while the longest ban and the time to be forgiven after it may still run |
| `DetectorLog.DetectorRefinesLog` | ai-firewall/src/detector.rs:109-184 | the incremental detector refines a recount of the event log: it bans at exactly the events where the log's score reaches 1 (openers and malformed segments by flag bits, UDP, drops and distinct ports, each count over its limit), and the track between bans is the recount |
| `DetectorLog.EveryBanExplained` | ai-firewall/src/detector.rs:149-184 | each ban names its source, the score of its log, the reason with the largest share (of equal ones the last listed), the protocols seen, and the first four ports with the number of others |
| `DetectorLog.CountedByBits` | ai-firewall-common/src/lib.rs:80-109 | the detector counts as openers and as odd exactly the segments the kernel program takes for openers and malformed |
| `DetectorLog.TallyIsRecount` | ai-firewall/src/detector.rs:121-147 | counting an event in the track is recounting the longer log: the cap on listed ports never loses one that matters |
| `DetectorLog.RetainedTrackIsRecount` | ai-firewall/src/detector.rs:109-184 | in the full table too, offenders restored or not: a source's unfinished track is the recount of its own events since its window began or its last ban, with a score below 1 |
| `DetectorLog.RetainedBelowLimits` | ai-firewall/src/detector.rs:149-166 | every count of a retained track is below its limit, and it lists each probed port once |
| `DetectorLog.TighterScoresHigher` | ai-firewall/src/detector.rs:149-163 | the same log scores at least as high under tighter limits |
| `DetectorLog.TighterNeverDetectsLater` | ai-firewall/src/posture.rs:157-167 | on the same run, a detector with tighter limits and the same window bans each source for the first time no later |
| `Detection.BannedInWindowIff` | ai-firewall/src/detector.rs:109-184 | within one window, whatever other sources do and wherever the table is pruned, a source is banned by one of its events exactly when the score of all of them together reaches 1 |
| `Detection.LimitReachedIsBanned` | ai-firewall/src/detector.rs:149-166 | so the event that takes any count to its limit bans the source, if none did before: openers, malformed segments (3), UDP, drops, or more distinct ports than the limit |
| `Detection.OpenersAloneIff` | ai-firewall/src/detector.rs:149-166 | openers let in to one port alone are banned exactly from `syn_limit` on |
| `ScanRuns.ScanIsBanned` | ai-firewall-ebpf/src/main.rs:380-428 | from packets to the ban: a source that within one window sends openers to more distinct ports than `port_limit`, open or closed and amid any traffic, is banned |
| `ScanRuns.ClosedProbesAreBanned` | ai-firewall-ebpf/src/main.rs:380-428 | likewise one that probes ports the policy closes to it `drop_limit` times, enforcing or not |
| `Escalation.BanSecsExact` | ai-firewall/src/detector.rs:205-210 | ban length is min(base * 2^min(strikes-1, 20), max), within base and max: the saturating product cannot be noticed |
| `Escalation.BanExtendsRecord` | ai-firewall/src/detector.rs:195-204 | each ban extends the source's chain or starts a new one |
| `Escalation.EscalationOverHistory` | ai-firewall/src/detector.rs:187-219 | over a full run, prunes included, every ban's strikes are the length of the trailing chain of the source's ban times with gaps at most `forgive_secs`, those its standing record stands for included |
| `Escalation.EveryRecordHasHistory` | ai-firewall/src/daemon.rs:854-863 | every standing record, a restored one too, stands for some such history |
| `Escalation.ChainNeverShortens` | ai-firewall/src/detector.rs:187-219 | along a chain strikes go up by one and neither lengths nor ends go down |
| `BanStates.ExpiryExactIff` | ai-firewall/src/state.rs:98-104 | an expiry is the instant asked for exactly when that is before 2^64 ns |
| `BanStates.HugeBanIsShort` | ai-firewall/src/state.rs:98-104 | the input for which it is not: a ban of 18446744074 s ends within half a second |
| `BanStates.RemainingIsLive` | ai-firewall/src/state.rs:107-113 | what userspace calls over is exactly what the kernel no longer drops |
| `BanStates.Blocklist.constructor` | ai-firewall/src/state.rs:29-31 | over the pinned maps, keeping the bans already there |
| `BanStates.Blocklist.Insert` | ai-firewall/src/state.rs:33-43 | in, or refused exactly for want of a map or of room, leaving the map as it was |
| `BanStates.Blocklist.Remove` | ai-firewall/src/state.rs:45-55 | takes out exactly that source |
| `Ledgers.StepKeepsInvariant` | ai-firewall/src/daemon.rs:940-952 | every step (event, prune, sweep, refresh, configuration in full or in part, ban and unban by hand) keeps automatic bans off protected addresses |
| `Ledgers.RefreshEstablishes` | ai-firewall/src/daemon.rs:813-830 | a protection refresh establishes that from any ledger |
| `Ledgers.NeverProtectedAuto` | ai-firewall/src/daemon.rs:813-830 | so from the first refresh on it holds under every interleaving |
| `Ledgers.ProtectedNotBanned` | ai-firewall/src/daemon.rs:813-830 | over any run that has read the protected addresses, a source protected at its end that was neither banned at the start nor by anybody's asking is not banned |
| `Ledgers.MonitorHears` | ai-firewall/src/daemon.rs:942-943 | out of enforcement an event changes no ban and no record |
| `Ledgers.MonitorBansNobody` | ai-firewall/src/daemon.rs:942-943 | so over any run out of enforcement only those somebody asked to ban are banned |
| `Ledgers.EnforcedHears` | ai-firewall/src/daemon.rs:940-954 | when enforcing, a source the detector bans is out from then on, for exactly the ban's seconds |
| `Ledgers.HandBanHolds` | ai-firewall/src/state.rs:33-43 | a ban by hand keeps its source out for exactly its seconds, or for good, and changes no other source's |
| `Ledgers.HandUnbanLifts` | ai-firewall/src/state.rs:45-55 | an unban by hand lets that source in and no other |
| `Ledgers.PruneDropsFinished` | ai-firewall/src/daemon.rs:399-401 | the daemon's prune drops exactly the windows that are over by the clock, and touches no ban |
| `Ledgers.LatestAreLastTwenty` | ai-firewall/src/daemon.rs:978-995 | what is remembered of a run of bans is the last twenty |
| `Ledgers.SweepSettles` | ai-firewall/src/daemon.rs:878-901 | after a sweep records and bans have the same sources, none is over, and a second sweep changes nothing |
| `Ledgers.SweepInvisibleToKernel` | ai-firewall/src/daemon.rs:878-901 | a sweep changes nothing the kernel drops, then or later |
| `Ledgers.EarlierSweepsInvisible` | ai-firewall/src/daemon.rs:878-901 | how often the ledger is swept does not matter: a sweep leaves the same bans and the same records, causes and strikes included, whether or not it was swept before |
| `Ledgers.EnactShortensIff` | ai-firewall/src/daemon.rs:940-952 | an automatic ban overwrites what stood: the source gets back in earlier than before exactly when the old ban was forever or ended later |
| `Ledgers.HourReplacesForever` | ai-firewall/src/daemon.rs:940-952 | such an input: a ban for good gives way to an automatic one of an hour |
| `Ledgers.EnactedStaysBanned` | ai-firewall/src/daemon.rs:940-952 | over any run in which nobody hears, bans, unbans, protects or lists the source, and no sweep comes after the end, an automatic ban keeps its source out at exactly the times before its end |
| `Ledgers.BanStays` | ai-firewall/src/daemon.rs:878-901 | any ban and its record stay as they are over any run of steps that leave them |
| `Ledgers.Addresses` | ai-firewall/src/daemon.rs:604-610 | counting through each network lists exactly the addresses the mask test finds |
| `Ledgers.Shared.constructor` | ai-firewall/src/daemon.rs:220-229 | starts with no records and a sound detector |
| `Ledgers.Shared.Enact` | ai-firewall/src/daemon.rs:940-996 | the whole effect of one ban: blocklist, record, dirty flag, note, and the last twenty |
| `Ledgers.Shared.Hear` | ai-firewall/src/daemon.rs:928-934 | one event observed and enacted at once: ledger, dirty flag, note and the last twenty |
| `Ledgers.Shared.RefreshProtection` | ai-firewall/src/daemon.rs:813-830 | the refresh in place, and dirty exactly when it lifted something |
| `Ledgers.ConfigRecordsAre` | ai-firewall/src/daemon.rs:611-631 | once all are in, the records marked config are exactly the listed addresses, whatever was there before |
| `Ledgers.Shared.Lift` | ai-firewall/src/daemon.rs:824-826 | takes a set of sources out of blocklist and records |
| `Ledgers.Shared.ApplyBlocked` | ai-firewall/src/daemon.rs:598-633 | the ban half of applying a configuration, over exactly the addresses of the blocked networks: it succeeds exactly when the kernel map has room for them beside the bans that stay, and otherwise `done` is what got in; the whole ledger, the notify setting and the dirty flag in both cases |
| `Ledgers.Shared.Settle` | ai-firewall/src/daemon.rs:598-601 | the settings' part changes nothing else |
| `Ledgers.Shared.ReplaceConfigBans` | ai-firewall/src/daemon.rs:611-631 | the bans' part: what is lifted, what is set, and when there is room |
| `Ledgers.Shared.BanAll` | ai-firewall/src/daemon.rs:621-631 | bans the listed addresses for good, exactly when the kernel map has room for them all; otherwise `done` is what got in before the first refusal |
| `Ledgers.Shared.Restore` | ai-firewall/src/daemon.rs:832-867 | saved bans go back where none stands and the map takes them, none refused exactly when all that are due fit; records in any case, offenders with their strikes |
| `Ledgers.StartedConfigIff` | ai-firewall/src/daemon.rs:843-852 | after a start the records marked config are the listed addresses exactly when no saved config ban still to run is on an unlisted one |
| `Ledgers.NoneRefusedIff` | ai-firewall/src/daemon.rs:845-847 | the count behind it |
| `Ledgers.Shared.RestoreBans` | ai-firewall/src/daemon.rs:836-853 | the bans' half, naming exactly the refused |
| `Ledgers.Shared.RestoreOffenders` | ai-firewall/src/daemon.rs:854-863 | the offenders' half |
| `Ledgers.Shared.SweepEntries` | ai-firewall/src/daemon.rs:879-894 | the pass over the kernel's entries |
| `Ledgers.Shared.Sweep` | ai-firewall/src/daemon.rs:878-901 | the sweep in place, and dirty exactly when it changed something |
| `Persistence.ForeverIffForever` | ai-firewall/src/state.rs:165-179 | across a reboot a ban forever stays forever, and short of a wrap no finite ban becomes one |
| `Persistence.RebootKeepsEnd` | ai-firewall/src/state.rs:159-179 | a restored ban ends less than 1 s before and 2 s after its original wall-clock end; a dropped one had less than 1 s left |
| `Persistence.RebootKeepsEndIff` | ai-firewall/src/state.rs:98-104 | the end is kept that closely exactly when the new expiry fits 64 bits |
| `Persistence.DriftOverReboots` | ai-firewall/src/daemon.rs:832-853 | over n reboots it drifts by less than n s early and 2n s late, and forever stays forever |
| `Persistence.RestoredIsRebooted` | ai-firewall/src/daemon.rs:836-853 | saving and restoring a whole blocklist is that round trip for each source, and nothing else comes back; each ban comes back with its own record, cause and strikes included, and each offender with its strikes |
| `Persistence.RestoredAge` | ai-firewall/src/daemon.rs:854-863 | a restored offender keeps its strikes and its age is the true one, cut to the time since boot, never overstated |
| `Daemon.ApplyBans` | ai-firewall/src/daemon.rs:598-633 | settings and config bans of a valid configuration, succeeding exactly when its blocked addresses fit the ban map; then exactly those are config bans, for good; when they do not, what is lifted, set and left unsaved |
| `Daemon.LoadConfig` | ai-firewall/src/daemon.rs:575-596 | the kernel half for a valid configuration, from any state: success exactly when both updated tries fit, and then a load from scratch exactly when they held no residue; from maps in step: exactly when its restricted rules fit, and always |
| `Daemon.ApplyConfig` | ai-firewall/src/daemon.rs:568-634 | the whole step, whatever earlier applies left: success exactly when both updated tries fit and the blocked addresses fit the ban map; then config bans are exactly those addresses, and the rule maps a load from scratch exactly when the tries held no residue (from maps in step, when the restricted rules fit, and always); tries that do not fit stop it before the ledger is touched, and a full ban map leaves the part in `done` |
| `Daemon.StartUp` | ai-firewall/src/daemon.rs:231-243 | configuration, saved bans, protected addresses, in the order of a start: the listed addresses are banned for good, no automatic ban stands on a protected one, and the config bans are the listed addresses exactly when no saved config ban still to run is on an unlisted one |
| `Daemon.BlockedCanOverflow` | ai-firewall/src/config.rs:529-534 | validation does not bound blocked addresses: seventeen /20 networks validate and never fit |
| `Daemon.ApplyFeeds` | ai-firewall/src/daemon.rs:746-775 | loading any lists, however much fits, leaves no reserved or protected source dropped by the feeds |
| `Daemon.BannedIsLive` | ai-firewall-ebpf/src/main.rs:158-166 | the kernel drops a source as banned exactly when the ledger's blocklist or a feed has it |
| `Daemon.SweepChangesNoVerdict` | ai-firewall/src/daemon.rs:878-901 | a sweep changes no verdict and no memory of the kernel program on any packet, then or later |
| `Daemon.ProtectedNeverAutoBanned` | ai-firewall/src/daemon.rs:813-830 | after the first refresh, whatever happened since, no live ban on a protected source is recorded as automatic once swept |
| `Daemon.MonitorDropsNobody` | ai-firewall/src/daemon.rs:942-943 | down to the packet: over any run in monitor mode a packet from a source that nobody asked to ban and no feed lists passes |
| `Daemon.ProtectedNotDropped` | ai-firewall/src/daemon.rs:813-830 | nor does a ban drop a packet of a protected source that nobody asked to ban |
| `Feeds.OverlapsIff` | ai-firewall/src/feeds.rs:53-55 | for prefix networks the overlap test holds exactly when some address is in both |
| `Feeds.OverlapsNeedsPrefixes` | ai-firewall/src/feeds.rs:53-55 | against a protected mask that is not a prefix it does not: 1.0.0.1 under 255.0.0.255 and 1.0.1.0/24 share 1.0.1.1 |
| `Feeds.ReservedIff` | ai-firewall/src/feeds.rs:38-51 | the reserved networks hold exactly the special-use addresses of RFC 6890 that the list names, as intervals |
| `Feeds.KeptIff` | ai-firewall/src/feeds.rs:69-73 | a candidate is kept exactly when it is /8 or longer and holds no reserved or protected address |
| `Feeds.Parse` | ai-firewall/src/feeds.rs:59-80 | one list: exactly the networks kept, sorted by address and mask, each once |
| `Feeds.Load` | ai-firewall/src/feeds.rs:169-201 | all lists: the same for their union |
| `Feeds.FeedsSpareProtected` | ai-firewall/src/feeds.rs:38-51 | down to the packet: a trie with nodes of these lists only never drops a reserved or protected source |
| `Feeds.LoadsSpareProtected` | ai-firewall/src/daemon.rs:754-775 | so over any run of loads, complete or not, no source reserved or protected at the last one is dropped |
| `BanNotices.NothingLost` | ai-firewall/src/history.rs:135-175 | over any run, pushes are the announced plus the pending, and the pending names are the first three pushed since the last notification |
| `BanNotices.NotesAreFaithful` | ai-firewall/src/history.rs:142-175 | each notification announces at least one ban, exactly the next ones in order, and names the first three of them |
| `BanNotices.LastSentIs` | ai-firewall/src/history.rs:145-148 | the throttle remembers the last notification |
| `BanNotices.AtMostOneAMinute` | ai-firewall/src/history.rs:142-150 | consecutive notifications are at least 60 s apart, even if the clock is set back in between |
| `BanNotices.SentIff` | ai-firewall/src/history.rs:142-150 | asked for a notification, one goes out exactly when a ban is pending and the last went out at least 60 s before |
| `BanNotices.BanNotes.Push` | ai-firewall/src/history.rs:135-140 | one ban pending more, named if among the first three |
| `BanNotices.BanNotes.Take` | ai-firewall/src/history.rs:143-175 | the notification due, if any, and nothing pending after it |
| `ThinkFilters.ChunkingIrrelevant` | ai-firewall/src/assistant.rs:535-570 | however a reply is cut, what is shown is up to leading white space what the whole reply would show, and exactly that unless a cut separates the closing tag from white space after it |
| `ThinkFilters.CutShowsSpace` | ai-firewall/src/assistant.rs:553-558 | such a cut: after `<think></think>` in one piece, the blank that starts the next is shown |
| `ThinkFilters.StreamIsOneShot` | ai-firewall/src/assistant.rs:535-570 | the same from the first piece on |
| `ThinkFilters.OneShotIsOnePiece` | ai-firewall/src/assistant.rs:535-570 | the one-shot result is what the filter shows for a reply in one piece |
| `ThinkFilters.BlockIsDropped` | ai-firewall/src/assistant.rs:535-570 | a reply that thinks first shows exactly what follows its block, less the white space in between |
| `ThinkFilters.OthersAreKept` | ai-firewall/src/assistant.rs:535-570 | any other reply is shown whole, less leading white space |
| `ThinkFilters.RestIsTrimmed` | ai-firewall/src/assistant.rs:535-570 | a fragment of the tag, or a block never closed, is shown whole, less the white space around it |
| `ThinkFilters.SpaceIsWhiteSpace` | ai-firewall/src/assistant.rs:535-570 | white space is the 25 characters with the Unicode property White_Space |
| `ThinkFilters.ThinkFilter.Push` | ai-firewall/src/assistant.rs:537-562 | the in-place filter is the specification's step |
| `ThinkFilters.ThinkFilter.Finish` | ai-firewall/src/assistant.rs:565-570 | held text is shown at the end, trimmed, and nothing is kept |

## Left out

- Parsing of packets, TOML, JSON, addresses and list files: the model starts from parsed values. `PacketEvent.payload_len` and padding are dropped; nothing reads them.
- The kernel's own hash, LRU and trie code: abstract maps with a capacity, which for LRU maps may forget.
- Rounding in the detector's f32 score: a score within rounding of 1 may fall on the other side.
- Races between CPUs on one source's limiter state, and edits by the command line in the middle of a sweep or a restore: every step is atomic.
- Attaching programs, links, systemd, nft, downloads, files and atomic writes, the status file, history lines, log lines and the interface.
- Removing entries whose kernel call fails for other reasons than a missing map or a full one.
- `Ledgers.Shared.Restore`: when not every saved ban fits, which ones are refused depends on the order of the saved list; the contract says only that each refused one no longer fits.
- `PostureRuns.StealthRunOpensNothingOutside`: when one machine's limiter forgets a source the other remembers, the two may differ on it (the decoys' own openers can push entries out); `StealthRunOpensOrLimited` says exactly how.
- `DetectorRuns.SourcesDoNotInterfere`: nothing is said about a run that is deaf to the source; `StepIsAloneIff` says exactly when that is.
- `DetectorLog.TighterNeverDetectsLater`: about the first ban of a source; after different first bans the two runs differ in what they remember.
- `RateRuns.PassedOpenersBounded`: nothing is promised across a change of the limit, a forgotten entry or a count that comes round to 0 inside the stretch; each can begin the source's share anew.
- `ScanRuns.ScanIsBanned`: about a stream that loses no event; when the ring buffer is full `Xdp.Ingress` counts the event as lost and the detector does not hear it.
- Strikes are unbounded integers; the program's 32-bit count would need 2^32 bans of one source.
- `links.rs`, the model client, prompts, the k-means trainer, older sources kept beside the current ones, and packaging.
