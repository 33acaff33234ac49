/** The kernel program itself: maps, counters and the event stream, changed packet by packet (eBPF main.rs). */
module XdpProgram {
  import opened Words
  import opened Common
  import opened RateLimiter
  import opened UdpFlows
  import opened XdpFilter

  class Xdp {
    var rules: Rules
    var bans: Bans
    var flows: map<UdpFlow<u32>, nat>
    var flows6: map<UdpFlow<Addr6>, nat>
    var rates: map<nat, RateState>
    var events: seq<PacketEvent>
    var passed: nat
    var dropBlocklist: nat
    var dropPolicy: nat
    var dropFeed: nat
    var eventsLost: nat

    constructor (rules: Rules, bans: Bans)
      ensures this.rules == rules && this.bans == bans && Mem() == EMPTY
      ensures events == [] && Seen() == 0 && eventsLost == 0
    {
      this.rules, this.bans := rules, bans;
      flows, flows6, rates := map[], map[], map[];
      events, passed, dropBlocklist, dropPolicy, dropFeed, eventsLost := [], 0, 0, 0, 0, 0;
    }

    function Mem(): Memory
      reads this
    {
      Memory(flows, flows6, rates)
    }

    /** Every packet is counted once: passed, or in one of the three drop counters. */
    function Seen(): nat
      reads this
    {
      passed + dropBlocklist + dropPolicy + dropFeed
    }

    /** The limiter's read-modify-write of one source's state. */
    method OverRateLimit(src: Src, port: u16, t: u64, forgets: set<nat>) returns (over: bool)
      modifies this`rates
      ensures (Mem(), over) == OverRate(rules, old(Mem()), src, port, t, forgets)
      ensures over <==>
        var packed: int := Slot(rules.tcpRate, port, 0);
        src.V4? && packed != 0 && RateKey(src.ip, port) in old(rates) &&
        var st := old(rates)[RateKey(src.ip, port)];
        WrapSub64(t, st.windowStart) <= packed % 0x1_0000 * 1_000_000_000 && WrapInc32(st.count) > packed / 0x1_0000
    {
      var packed := Slot(rules.tcpRate, port, 0);
      if packed == 0 || src.V6? {
        return false;
      }
      var max, window := RateMax(packed), WindowNs(packed);
      var key := RateKey(src.ip, port);
      if key in rates {
        var st := rates[key];
        if WrapSub64(t, st.windowStart) > window {
          rates := rates[key := RateState(t, 1)];
          over := false;
        } else {
          var count := WrapInc32(st.count);
          rates := rates[key := RateState(st.windowStart, count)];
          over := count > max;
        }
      } else {
        rates := (rates - forgets)[key := RateState(t, 1)];
        over := false;
      }
    }

    /** The policy on one segment: judge it, stream an event about it if it is interesting, drop it if enforcing. */
    method Police(src: Src, s: L4, toEveryone: bool, reply: bool, now: u64, forgets: set<nat>, room: bool)
      returns (action: Action)
      requires s.Segment?
      modifies this`rates, this`events, this`eventsLost, this`dropPolicy
      ensures var j := Judge(rules, old(Mem()), src, s, reply, now, forgets);
        && Mem() == j.memory
        && action == (if !j.allowed && rules.enforce then XdpDrop else XdpPass)
        && dropPolicy == old(dropPolicy) + (if action == XdpDrop then 1 else 0)
        && var report := j.interesting && !toEveryone;
        && events == old(events) + (if report && room then
             [PacketEvent(src, s.dstPort, s.srcPort, s.proto, s.tcpFlags, if j.allowed
                 then Pass else DropPolicy)] else [])
        && eventsLost == old(eventsLost) + (if report && !room then 1 else 0)
    {
      var interesting, allowed;
      if s.proto == Tcp {
        if Odd(s.tcpFlags) {
          interesting, allowed := true, false;
        } else if Opener(s.tcpFlags) {
          interesting, allowed := true, PortOpen(rules, Tcp, src, s.dstPort);
          if allowed {
            var over := OverRateLimit(src, s.dstPort, now, forgets);
            allowed := !over;
          }
        } else {
          interesting, allowed := false, true;
        }
      } else {
        var looseReply := !rules.udpStrict && s.dstPort >= rules.ephemeralLow;
        var answered := reply || looseReply;
        interesting, allowed := !answered, answered || PortOpen(rules, Udp, src, s.dstPort);
      }
      if interesting && !toEveryone {
        if room {
          var verdict := if allowed then Pass else DropPolicy;
          events := events + [PacketEvent(src, s.dstPort, s.srcPort, s.proto, s.tcpFlags, verdict)];
        } else {
          eventsLost := eventsLost + 1;
        }
      }
      if !allowed && rules.enforce {
        dropPolicy := dropPolicy + 1;
        action := XdpDrop;
      } else {
        action := XdpPass;
      }
    }

    /** A packet from a source neither banned nor listed. */
    method Unbanned(p: Packet, now: u64, forgets: set<nat>, room: bool) returns (action: Action)
      requires !p.NotIp? && !Banned(bans, p, now)
      modifies this`rates, this`events, this`eventsLost, this`dropPolicy
      ensures (Mem(), action) == Inbound(rules, bans, old(Mem()), p, now, forgets)
      ensures dropPolicy == old(dropPolicy) + (if action == XdpDrop then 1 else 0)
      ensures var e := EventFor(rules, bans, old(Mem()), p, now, forgets);
        && events == old(events) + (if e.Some? && room then [e.value] else [])
        && eventsLost == old(eventsLost) + (if e.Some? && !room then 1 else 0)
    {
      action := XdpPass;
      if Fragmented(p) {
      } else if p.l4.Icmp? {
        if Ping(p) && rules.dropPing && rules.enforce {
          dropPolicy := dropPolicy + 1;
          action := XdpDrop;
        }
      } else if p.l4.Segment? {
        action := Police(SourceOf(p), p.l4, p.toEveryone, Reply(Mem(), p, now), now, forgets, room);
      }
    }

    /** One inbound packet, counted by what became of it; `room` says whether the ring buffer can take an event. */
    method Ingress(p: Packet, now: u64, forgets: set<nat>, room: bool) returns (action: Action)
      modifies this`rates, this`events, this`eventsLost, this`dropPolicy, this`dropBlocklist, this`dropFeed, this`passed
      ensures (Mem(), action) == Inbound(rules, bans, old(Mem()), p, now, forgets)
      ensures Seen() == old(Seen()) + 1 && (passed == old(passed) + 1 <==> action == XdpPass)
      ensures dropBlocklist == old(dropBlocklist) + (if OnBlocklist(bans, p, now) then 1 else 0)
      ensures dropFeed == old(dropFeed) + (if InFeeds(bans, p) && !OnBlocklist(bans, p, now) then 1 else 0)
      ensures var e := EventFor(rules, bans, old(Mem()), p, now, forgets);
        && events == old(events) + (if e.Some? && room then [e.value] else [])
        && eventsLost == old(eventsLost) + (if e.Some? && !room then 1 else 0)
      ensures |events| - |old(events)| + eventsLost - old(eventsLost) ==
              if Reportable(rules, bans, old(Mem()), p, now) then 1 else 0
    {
      EventIff(rules, bans, Mem(), p, now, forgets);
      hide Reportable, Judge, Live, Hits, Fragmented, Ping, SourceOf, Reply;
      if p.NotIp? {
        action := XdpPass;
      } else if (if p.Ip4? then Live(bans.v4, p.src, now) else Live(bans.v6, Prefix(p.src6), now)) {
        dropBlocklist := dropBlocklist + 1;
        return XdpDrop;
      } else if p.Ip4? && Hits(bans.feeds, 32, p.src) {
        dropFeed := dropFeed + 1;
        return XdpDrop;
      } else {
        action := Unbanned(p, now, forgets, room);
      }
      if action == XdpPass {
        passed := passed + 1;
      }
    }

    /** One outbound packet: remember the flow so that its replies get in. Never drops. */
    method Egress(o: OutPacket, now: u64, forgets: set<UdpFlow<u32>>, forgets6: set<UdpFlow<Addr6>>)
      modifies this`flows, this`flows6
      ensures Mem() == StepMemory(old(Mem()), Out(o, now, forgets, forgets6))
    {
      var expiry := now + UDP_FLOW_TTL_NS;
      match o
      case Out4(dst, toEveryone, Some((localPort, remotePort))) =>
        var key := if toEveryone || dst / 0x1000_0000 == 0xe || dst == U32_MAX
          then UdpFlow(0, localPort, 0) else UdpFlow(dst, localPort, remotePort);
        flows := (flows - forgets)[key := expiry];
      case Out6(dst, toEveryone, Some((localPort, remotePort))) =>
        var key := if toEveryone || dst / 0x100_0000_0000_0000_0000_0000_0000_0000 == 0xff
          then UdpFlow(0, localPort, 0) else UdpFlow(dst, localPort, remotePort);
        flows6 := (flows6 - forgets6)[key := expiry];
      case _ =>
    }
  }
}
