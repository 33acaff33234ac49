/** Strict UDP over whole runs: what gets in to a closed port is an answer to something sent. */
module StrictUdp {
  import opened Words
  import opened Wrappers
  import opened Common
  import opened UdpFlows
  import opened XdpFilter

  /** Sent to many: such a query may be answered by any device. */
  predicate ToMany(o: OutPacket) {
    match o
    case Out4(dst, many, _) => many || dst / 0x1000_0000 == 0xe || dst == U32_MAX
    case Out6(dst, many, _) => many || dst / 0x100_0000_0000_0000_0000_0000_0000_0000 == 0xff
    case OutOther => false
  }

  /**
   * The outbound packet `o` licenses the inbound segment `p`: UDP from the port `p` goes to, sent to exactly where
   * `p` comes from, or to many, or to address 0 port 0 (whose key is the wildcard's).
   */
  predicate Licenses(o: OutPacket, p: Packet)
    requires !p.NotIp? && p.l4.Segment?
  {
    match p
    case Ip4(src, _, _, s) =>
      o.Out4? && o.udp.Some? && o.udp.value.0 == s.dstPort
      && (ToMany(o) || (o.dst == src && o.udp.value.1 == s.srcPort) || (o.dst == 0 && o.udp.value.1 == 0))
    case Ip6(src, _, s) =>
      o.Out6? && o.udp.Some? && o.udp.value.0 == s.dstPort
      && (ToMany(o) || (o.dst6 == src && o.udp.value.1 == s.srcPort) || (o.dst6 == 0 && o.udp.value.1 == 0))
  }

  ghost predicate LicensedBy(steps: seq<Step>, p: Packet, now: nat, i: int)
    requires !p.NotIp? && p.l4.Segment?
  {
    0 <= i < |steps| && steps[i].Out? && Licenses(steps[i].out, p) && now < steps[i].now + 180_000_000_000
  }

  function Events(steps: seq<Step>): (r: seq<FlowEvent<UdpFlow<u32>>>)
    ensures |r| == |steps|
  {
    seq(|steps|, i requires 0 <= i < |steps| => FlowEventOf(steps[i]))
  }

  function Events6(steps: seq<Step>): (r: seq<FlowEvent<UdpFlow<Addr6>>>)
    ensures |r| == |steps|
  {
    seq(|steps|, i requires 0 <= i < |steps| => FlowEventOf6(steps[i]))
  }

  /** Inbound packets never touch the flow tables; the tables are the recorded packets out. */
  lemma {:induction false} FlowsAreRecorded(steps: seq<Step>)
    ensures MemoryAfter(steps).flows == RecordAll(map[], Events(steps))
    ensures MemoryAfter(steps).flows6 == RecordAll(map[], Events6(steps))
  {
    if steps != [] {
      var n := |steps| - 1;
      FlowsAreRecorded(steps[..n]);
      assert Events(steps)[..n] == Events(steps[..n]);
      assert Events6(steps)[..n] == Events6(steps[..n]);
      assert Events(steps)[n] == FlowEventOf(steps[n]) && Events6(steps)[n] == FlowEventOf6(steps[n]);
    }
  }

  /** The keys an inbound segment is looked up under, and when a packet out records one of them. */
  lemma LicenseIsKey(o: OutPacket, p: Packet)
    requires !p.NotIp? && p.l4.Segment?
    ensures p.Ip4? ==> (Licenses(o, p) <==>
      FlowKey(o) == Some(UdpFlow(p.src, p.l4.dstPort, p.l4.srcPort)) || FlowKey(o) == Some(UdpFlow(0, p.l4.dstPort, 0)))
    ensures p.Ip6? ==> (Licenses(o, p) <==>
      FlowKey6(o) == Some(UdpFlow(p.src6, p.l4.dstPort, p.l4.srcPort))
          || FlowKey6(o) == Some(UdpFlow(0, p.l4.dstPort, 0)))
  {
  }

  /** A packet that counts as a reply was licensed less than 180 s before. */
  lemma ReplyWasLicensed(steps: seq<Step>, p: Packet, now: nat)
    requires !p.NotIp? && p.l4.Segment? && Reply(MemoryAfter(steps), p, now)
    ensures exists i :: LicensedBy(steps, p, now, i)
  {
    FlowsAreRecorded(steps);
    var s := p.l4;
    if p.Ip4? {
      var k := if Live(MemoryAfter(steps).flows, UdpFlow(p.src, s.dstPort, s.srcPort), now)
        then UdpFlow(p.src, s.dstPort, s.srcPort) else UdpFlow(0, s.dstPort, 0);
      LiveWasSent(Events(steps), k, now);
      var i :| SentRecently(Events(steps), k, now, i);
      LicenseIsKey(steps[i].out, p);
      assert LicensedBy(steps, p, now, i);
    } else {
      var k := if Live(MemoryAfter(steps).flows6, UdpFlow(p.src6, s.dstPort, s.srcPort), now)
        then UdpFlow(p.src6, s.dstPort, s.srcPort) else UdpFlow(0, s.dstPort, 0);
      LiveWasSent(Events6(steps), k, now);
      var i :| SentRecently(Events6(steps), k, now, i);
      LicenseIsKey(steps[i].out, p);
      assert LicensedBy(steps, p, now, i);
    }
  }

  /** Nothing in the run makes the tables forget the keys `p` is looked up under. */
  ghost predicate NeverForgotten(steps: seq<Step>, p: Packet)
    requires !p.NotIp? && p.l4.Segment?
  {
    forall i :: 0 <= i < |steps| && steps[i].Out? ==>
      if p.Ip4? then
        UdpFlow(p.src, p.l4.dstPort, p.l4.srcPort) !in steps[i].forgets
            && UdpFlow(0, p.l4.dstPort, 0) !in steps[i].forgets
      else
        UdpFlow(p.src6, p.l4.dstPort, p.l4.srcPort) !in steps[i].forgets6
            && UdpFlow(0, p.l4.dstPort, 0) !in steps[i].forgets6
  }

  lemma LicensedIsReply(steps: seq<Step>, p: Packet, now: nat, i: int)
    requires !p.NotIp? && p.l4.Segment? && p.l4.proto == Udp
    requires StepsOrdered(steps) && NeverForgotten(steps, p) && LicensedBy(steps, p, now, i)
    ensures Reply(MemoryAfter(steps), p, now)
  {
    FlowsAreRecorded(steps);
    LicenseIsKey(steps[i].out, p);
    if p.Ip4? {
      var k := FlowKey(steps[i].out).value;
      assert SentRecently(Events(steps), k, now, i);
      SentStaysLive(Events(steps), k, now, i);
    } else {
      var k := FlowKey6(steps[i].out).value;
      assert SentRecently(Events6(steps), k, now, i);
      SentStaysLive(Events6(steps), k, now, i);
    }
  }

  /** An inbound UDP segment that the ban and feed maps let through to the policy. */
  ghost predicate JudgedUdp(b: Bans, p: Packet, now: nat) {
    !p.NotIp? && p.l4.Segment? && p.l4.proto == Udp && !Fragmented(p) && !Banned(b, p, now)
  }

  /**
   * Strict UDP is safe over every run: with strict and enforce on, a UDP packet that passes to a port not open to
   * its source answers a packet sent from that port less than 180 s before. Forgetting can only close, never open.
   */
  lemma StrictUdpSafety(steps: seq<Step>, r: Rules, b: Bans, p: Packet, now: u64, forgets: set<nat>)
    requires r.enforce && r.udpStrict && JudgedUdp(b, p, now)
    requires Inbound(r, b, MemoryAfter(steps), p, now, forgets).1 == XdpPass
    requires !PortOpen(r, Udp, SourceOf(p), p.l4.dstPort)
    ensures exists i :: LicensedBy(steps, p, now, i)
  {
    ReplyWasLicensed(steps, p, now);
  }

  /** And complete while nothing is forgotten: such a packet passes exactly when the port is open or it is an answer. */
  lemma StrictUdpIff(steps: seq<Step>, r: Rules, b: Bans, p: Packet, now: u64, forgets: set<nat>)
    requires r.enforce && r.udpStrict && JudgedUdp(b, p, now)
    requires StepsOrdered(steps) && NeverForgotten(steps, p)
    ensures Inbound(r, b, MemoryAfter(steps), p, now, forgets).1 == XdpPass <==>
            PortOpen(r, Udp, SourceOf(p), p.l4.dstPort) || exists i :: LicensedBy(steps, p, now, i)
  {
    if Reply(MemoryAfter(steps), p, now) {
      ReplyWasLicensed(steps, p, now);
    }
    if i :| LicensedBy(steps, p, now, i) {
      LicensedIsReply(steps, p, now, i);
    }
  }
}
