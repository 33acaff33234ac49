/** The kernel program's verdict on parsed packets, from the maps the daemon writes (eBPF main.rs). */
module XdpFilter {
  import opened Words
  import opened Wrappers
  import opened Collections
  import opened Common
  import opened RuleKeys
  import opened MapSync
  import opened RateLimiter
  import opened UdpFlows

  type Addr6 = x: int | 0 <= x < 0x1_0000_0000_0000_0000_0000_0000_0000_0000

  datatype L4 =
    | Segment(proto: Proto, srcPort: u16, dstPort: u16, tcpFlags: bv8)
    | Icmp(kind: u8)
    | Unparsed

  datatype Packet =
    | Ip4(src: u32, toEveryone: bool, fragment: bool, l4: L4)
    | Ip6(src6: Addr6, toEveryone: bool, l4: L4)
    | NotIp

  datatype OutPacket =
    | Out4(dst: u32, toEveryone: bool, udp: Option<(u16, u16)>)
    | Out6(dst6: Addr6, toEveryone: bool, udp: Option<(u16, u16)>)
    | OutOther

  datatype Action = XdpPass | XdpDrop

  /** The rule maps: settings, per-port arrays (an absent slot reads 0), and the two tries. */
  datatype Rules = Rules(
    enforce: bool,
    ephemeralLow: u32,
    dropPing: bool,
    udpStrict: bool,
    tcpAllow: map<u16, u8>,
    udpAllow: map<u16, u8>,
    fromTcp: set<Node>,
    fromUdp: set<Node>,
    tcpRate: map<u16, u32>)

  /** The ban maps (source to expiry in ns since boot) and the feed trie. */
  datatype Bans = Bans(v4: map<u32, nat>, v6: map<u64, nat>, feeds: set<Node>)

  /** What the program itself remembers between packets. */
  datatype Memory = Memory(
    flows: map<UdpFlow<u32>, nat>,
    flows6: map<UdpFlow<Addr6>, nat>,
    rates: map<nat, RateState>)

  function Slot<V>(m: map<u16, V>, p: u16, zero: V): V {
    if p in m then m[p] else zero
  }

  predicate Hits(nodes: set<Node>, width: nat, word: nat) {
    exists n :: n in nodes && NodeMatches(width, n, word)
  }

  predicate AllowedFrom(nodes: set<Node>, src: Src, port: u16) {
    src.V4? && Hits(nodes, RULE_BITS, Word(KeyOf(port, src.ip)))
  }

  predicate PortOpen(r: Rules, proto: Proto, src: Src, port: u16) {
    match proto
    case Tcp => Slot(r.tcpAllow, port, 0) != 0 || AllowedFrom(r.fromTcp, src, port)
    case Udp => Slot(r.udpAllow, port, 0) != 0 || AllowedFrom(r.fromUdp, src, port)
  }

  predicate Odd(f: bv8) {
    var finUrgPsh := TCP_FLAG_FIN | TCP_FLAG_URG | TCP_FLAG_PSH;
    f == 0 || f & finUrgPsh == finUrgPsh || f & (TCP_FLAG_FIN | TCP_FLAG_ACK) == TCP_FLAG_FIN
  }

  predicate Opener(f: bv8) {
    f & TCP_FLAG_SYN != 0 && f & TCP_FLAG_ACK == 0
  }

  /** The flag tests read the header's bits. */
  lemma FlagsRead(f: bv8)
    ensures Odd(f) <==> Malformed(f)
    ensures !Odd(f) && Opener(f) <==> OpensConnection(f)
  {
  }

  function RateKey(ip: u32, port: u16): nat {
    ip * 0x1_0000 + port
  }

  /** A source with a limit on this port: the limiter is consulted for IPv4 only. */
  predicate RateLimited(r: Rules, src: Src, port: u16) {
    src.V4? && Slot(r.tcpRate, port, 0) != 0
  }

  function WindowNs(packed: u32): nat {
    RateWindow(packed) * NS_PER_SEC
  }

  /** The limiter on one opener: the new memory and whether it is over the limit. */
  function OverRate(r: Rules, m: Memory, src: Src, port: u16, t: u64, forgets: set<nat>): (Memory, bool) {
    if !RateLimited(r, src, port) then (m, false)
    else
      var packed := r.tcpRate[port];
      var k := RateKey(src.ip, port);
      var (st, over) := Bump(Lookup(m.rates, k), RateMax(packed), WindowNs(packed), t);
      var kept := if k in m.rates then m.rates else m.rates - forgets;
      (m.(rates := kept[k := st]), over)
  }

  /** Counting a source that is known makes the table forget nobody and touches no other count. */
  lemma KnownSourceForgetsNone(r: Rules, m: Memory, src: Src, port: u16, t: u64, forgets: set<nat>, key: nat)
    requires src.V4? && RateKey(src.ip, port) in m.rates && key != RateKey(src.ip, port)
    ensures var rates := OverRate(r, m, src, port, t, forgets).0.rates;
      (key in rates <==> key in m.rates) && (key in rates ==> rates[key] == m.rates[key])
  {
  }

  /** The policy's judgement of a segment: worth reporting, let in, and what the limiter remembers. */
  datatype Judgement = Judgement(interesting: bool, allowed: bool, memory: Memory)

  function Judge(r: Rules, m: Memory, src: Src, s: L4, reply: bool, t: u64, forgets: set<nat>): Judgement
    requires s.Segment?
  {
    match s.proto
    case Tcp =>
      if Odd(s.tcpFlags) then Judgement(true, false, m)
      else if Opener(s.tcpFlags) then
        if PortOpen(r, Tcp, src, s.dstPort) then
          var (m', over) := OverRate(r, m, src, s.dstPort, t, forgets);
          Judgement(true, !over, m')
        else Judgement(true, false, m)
      else Judgement(false, true, m)
    case Udp =>
      var answered := reply || (!r.udpStrict && s.dstPort >= r.ephemeralLow);
      Judgement(!answered, answered || PortOpen(r, Udp, src, s.dstPort), m)
  }

  function Prefix(a: Addr6): u64 {
    a / 0x1_0000_0000_0000_0000
  }

  function SourceOf(p: Packet): Src
    requires !p.NotIp?
  {
    if p.Ip4? then V4(p.src) else V6(Prefix(p.src6))
  }

  predicate OnBlocklist(b: Bans, p: Packet, now: nat) {
    match p
    case Ip4(src, _, _, _) => Live(b.v4, src, now)
    case Ip6(src, _, _) => Live(b.v6, Prefix(src), now)
    case NotIp => false
  }

  predicate InFeeds(b: Bans, p: Packet) {
    p.Ip4? && Hits(b.feeds, FEED_BITS, p.src)
  }

  /** Banned or listed: dropped before anything else is looked at. */
  predicate Banned(b: Bans, p: Packet, now: nat) {
    OnBlocklist(b, p, now) || InFeeds(b, p)
  }

  predicate ReplyTo<A(==)>(flows: map<UdpFlow<A>, nat>, remote: A, zero: A, s: L4, now: nat)
    requires s.Segment?
  {
    s.proto == Udp && (Live(flows, UdpFlow(remote, s.dstPort, s.srcPort), now)
                       || Live(flows, UdpFlow(zero, s.dstPort, 0), now))
  }

  predicate Reply(m: Memory, p: Packet, now: nat)
    requires !p.NotIp? && p.l4.Segment?
  {
    if p.Ip4? then ReplyTo(m.flows, p.src, 0, p.l4, now) else ReplyTo(m.flows6, p.src6, 0, p.l4, now)
  }

  predicate Ping(p: Packet) {
    !p.NotIp? && p.l4.Icmp? && p.l4.kind == (if p.Ip4? then 8 else 128)
  }

  predicate Fragmented(p: Packet) {
    p.Ip4? && p.fragment
  }

  /** An echo request: type 8 of ICMP (RFC 792), type 128 of ICMPv6 (RFC 4443). */
  predicate EchoRequest(p: Packet) {
    match p
    case Ip4(_, _, _, Icmp(kind)) => kind == 8
    case Ip6(_, _, Icmp(kind)) => kind == 128
    case _ => false
  }

  lemma PingIsEcho(p: Packet)
    ensures Ping(p) <==> EchoRequest(p)
  {
  }

  /** A source is the IPv4 address itself, or the /64 an IPv6 address lies in. */
  lemma SourceIsAddressOrSlash64(p: Packet)
    requires !p.NotIp?
    ensures p.Ip4? ==> SourceOf(p) == V4(p.src)
    ensures p.Ip6? ==> SourceOf(p).V6?
    ensures p.Ip6? ==>
      var first: int := SourceOf(p).prefix * 0x1_0000_0000_0000_0000;
      first <= p.src6 < first + 0x1_0000_0000_0000_0000
  {
  }

  /** The event streamed to the daemon about a judged segment, when it is worth one and not aimed at everyone. */
  function EventFor(r: Rules, b: Bans, m: Memory, p: Packet, now: u64, forgets: set<nat>): Option<PacketEvent> {
    if p.NotIp? || Banned(b, p, now) || Fragmented(p) || !p.l4.Segment? || p.toEveryone then None
    else
      var j := Judge(r, m, SourceOf(p), p.l4, Reply(m, p, now), now, forgets);
      if !j.interesting then None
      else Some(PacketEvent(SourceOf(p), p.l4.dstPort, p.l4.srcPort, p.l4.proto, p.l4.tcpFlags,
                            if j.allowed then Pass else DropPolicy))
  }

  /** What happens to an inbound packet, and what the program remembers of it. */
  function Inbound(r: Rules, b: Bans, m: Memory, p: Packet, now: u64, forgets: set<nat>): (Memory, Action) {
    if p.NotIp? then (m, XdpPass)
    else if Banned(b, p, now) then (m, XdpDrop)
    else if Fragmented(p) then (m, XdpPass)
    else match p.l4
      case Icmp(_) => (m, if Ping(p) && r.dropPing && r.enforce then XdpDrop else XdpPass)
      case Unparsed => (m, XdpPass)
      case Segment(_, _, _, _) =>
        var j := Judge(r, m, SourceOf(p), p.l4, Reply(m, p, now), now, forgets);
        (j.memory, if !j.allowed && r.enforce then XdpDrop else XdpPass)
  }

  /** UDP that answers something sent, or counts as such without strict UDP. */
  predicate Answer(r: Rules, m: Memory, p: Packet, now: nat)
    requires !p.NotIp? && p.l4.Segment?
  {
    p.l4.proto == Udp && (Reply(m, p, now) || (!r.udpStrict && p.l4.dstPort >= r.ephemeralLow))
  }

  /** A packet the policy judges. */
  predicate Judged(b: Bans, p: Packet, now: nat) {
    !p.NotIp? && p.l4.Segment? && !Banned(b, p, now) && !Fragmented(p)
  }

  /** What the daemon is told about: connection openers, malformed segments and unasked UDP, aimed at this host. */
  predicate Reportable(r: Rules, b: Bans, m: Memory, p: Packet, now: nat) {
    && Judged(b, p, now) && !p.toEveryone
    && match p.l4.proto
       case Tcp => OpensConnection(p.l4.tcpFlags) || Malformed(p.l4.tcpFlags)
       case Udp => !Answer(r, m, p, now)
  }

  /**
   * The stream: exactly the reportable packets are reported, whatever the mode, each as it is, and as dropped exactly
   * when enforcing drops it. So when enforcing, of the packets aimed at this host, those dropped by policy are exactly
   * those reported as dropped.
   */
  lemma EventIff(r: Rules, b: Bans, m: Memory, p: Packet, now: u64, forgets: set<nat>)
    ensures EventFor(r, b, m, p, now, forgets).Some? <==> Reportable(r, b, m, p, now)
    ensures EventFor(r, b, m, p, now, forgets).Some? ==>
      var passes := Inbound(r.(enforce := true), b, m, p, now, forgets).1 == XdpPass;
      EventFor(r, b, m, p, now, forgets).value == PacketEvent(
        SourceOf(p), p.l4.dstPort, p.l4.srcPort, p.l4.proto, p.l4.tcpFlags, if passes then Pass else DropPolicy)
    ensures r.enforce && Judged(b, p, now) && !p.toEveryone ==>
      (Inbound(r, b, m, p, now, forgets).1 == XdpDrop <==>
        EventFor(r, b, m, p, now, forgets).Some? && EventFor(r, b, m, p, now, forgets).value.verdict == DropPolicy)
  {
    if !p.NotIp? && p.l4.Segment? {
      FlagsRead(p.l4.tcpFlags);
    }
  }

  /** Out of enforcement nothing but a ban or a feed drops a packet. */
  lemma MonitorDropsOnlyBanned(r: Rules, b: Bans, m: Memory, p: Packet, now: u64, forgets: set<nat>)
    requires !r.enforce
    ensures Inbound(r, b, m, p, now, forgets).1 == XdpDrop <==> !p.NotIp? && Banned(b, p, now)
  {
  }

  /** The flow an outbound packet records: its remote end, or the wildcard for multicast and broadcast. */
  function FlowKey(p: OutPacket): Option<UdpFlow<u32>> {
    if !p.Out4? || p.udp.None? then None
    else if p.toEveryone || p.dst / 0x1000_0000 == 0xe || p.dst == U32_MAX then Some(UdpFlow(0, p.udp.value.0, 0))
    else Some(UdpFlow(p.dst, p.udp.value.0, p.udp.value.1))
  }

  function FlowKey6(p: OutPacket): Option<UdpFlow<Addr6>> {
    if !p.Out6? || p.udp.None? then None
    else if p.toEveryone || p.dst6 / 0x100_0000_0000_0000_0000_0000_0000_0000 == 0xff then
      Some(UdpFlow(0, p.udp.value.0, 0))
    else Some(UdpFlow(p.dst6, p.udp.value.0, p.udp.value.1))
  }

  /**
   * One step of the machine: a packet in, under whatever rules and bans the daemon has written by then, or a packet
   * out; with what the step's insert makes the LRU maps forget.
   */
  datatype Step =
    | In(pkt: Packet, now: u64, rules: Rules, bans: Bans, forgetsRates: set<nat>)
    | Out(out: OutPacket, now: u64, forgets: set<UdpFlow<u32>>, forgets6: set<UdpFlow<Addr6>>)

  function FlowEventOf(s: Step): FlowEvent<UdpFlow<u32>> {
    if s.Out? then FlowEvent(FlowKey(s.out), s.forgets, s.now) else FlowEvent(None, {}, s.now)
  }

  function FlowEventOf6(s: Step): FlowEvent<UdpFlow<Addr6>> {
    if s.Out? then FlowEvent(FlowKey6(s.out), s.forgets6, s.now) else FlowEvent(None, {}, s.now)
  }

  ghost function StepMemory(m: Memory, s: Step): Memory {
    match s
    case In(p, now, r, b, forgets) => Inbound(r, b, m, p, now, forgets).0
    case Out(_, _, _, _) =>
      m.(flows := Record(m.flows, FlowEventOf(s)), flows6 := Record(m.flows6, FlowEventOf6(s)))
  }

  const EMPTY: Memory := Memory(map[], map[], map[])

  /** What is remembered after a run of steps. */
  ghost function MemoryAfter(steps: seq<Step>): Memory {
    if steps == [] then EMPTY else StepMemory(MemoryAfter(steps[..|steps| - 1]), steps[|steps| - 1])
  }

  ghost predicate StepsOrdered(steps: seq<Step>) {
    forall i, j :: 0 <= i <= j < |steps| ==> steps[i].now <= steps[j].now
  }
}
