/** Postures over whole runs: two machines fed the same packets, one under the posture, each with its own memory. */
module PostureRuns {
  import opened Words
  import opened Wrappers
  import opened Collections
  import opened Common
  import opened Configuration
  import opened Compiler
  import opened RateLimiter
  import opened XdpFilter
  import opened RateRuns
  import opened Loader
  import opened Postures

  /** The packet of the step passes, given what the machine remembers of the run so far. */
  ghost predicate PassesAt(steps: seq<Step>, k: nat)
    requires k < |steps| && steps[k].In?
  {
    var s := steps[k];
    Inbound(s.rules, s.bans, MemoryAfter(steps[..k]), s.pkt, s.now, s.forgetsRates).1 == XdpPass
  }

  /** The same packet out, or the same packet in, at the same time and under the same bans. */
  predicate SameTraffic(s: Step, s': Step) {
    if s.Out? then s' == s else s'.In? && s'.pkt == s.pkt && s'.now == s.now && s'.bans == s.bans
  }

  /** A machine running a configuration and one running it under a posture, packet by packet. */
  ghost predicate Twins(cfg: Config, out: Config, profile: Option<string>, c: Compiled, c': Compiled, steps: seq<Step>,
                        steps': seq<Step>)
  {
    && |steps| == |steps'|
    && (forall k :: 0 <= k < |steps| ==> SameTraffic(steps[k], steps'[k]))
    && (forall k :: 0 <= k < |steps| && steps[k].In? ==>
          && LoadedFrom(steps[k].rules, cfg, profile, c) && LoadedFrom(steps'[k].rules, out, profile, c')
          && SameHost(steps[k].rules, steps'[k].rules))
  }

  lemma StepKeepsFlows(m: Memory, m': Memory, s: Step, s': Step)
    requires SameFlows(m, m') && SameTraffic(s, s')
    ensures SameFlows(StepMemory(m, s), StepMemory(m', s'))
  {
  }

  lemma {:induction false} TwinsShareFlows(cfg: Config, out: Config, profile: Option<string>, c: Compiled, c': Compiled,
                                           steps: seq<Step>, steps': seq<Step>, k: nat)
    requires Twins(cfg, out, profile, c, c', steps, steps') && k <= |steps|
    ensures SameFlows(MemoryAfter(steps[..k]), MemoryAfter(steps'[..k]))
  {
    if k > 0 {
      hide StepMemory;
      TwinsShareFlows(cfg, out, profile, c, c', steps, steps', k - 1);
      MemorySnoc(steps, k - 1);
      MemorySnoc(steps', k - 1);
      StepKeepsFlows(MemoryAfter(steps[..k - 1]), MemoryAfter(steps'[..k - 1]), steps[k - 1], steps'[k - 1]);
    }
  }

  /** Over any run, lockdown passes a subset of the packets the configuration passes without it. */
  lemma LockdownRunPassesLess(p: Posture, cfg: Config, out: Config, profile: Option<string>, c: Compiled, c': Compiled,
                              steps: seq<Step>, steps': seq<Step>, k: nat)
    requires p.name == "lockdown" && IsApplied(p, cfg, out)
    requires Twins(cfg, out, profile, c, c', steps, steps') && k < |steps| && steps[k].In?
    requires PassesAt(steps', k)
    ensures PassesAt(steps, k)
  {
    TwinsShareFlows(cfg, out, profile, c, c', steps, steps', k);
    var s, s' := steps[k], steps'[k];
    assert SameTraffic(s, s');
    LockdownPassesLess(p, cfg, out, profile, c, c', s.rules, s'.rules, s.bans, MemoryAfter(steps[..k]),
                       MemoryAfter(steps'[..k]), s.pkt, s.now, s.forgetsRates, s'.forgetsRates);
  }

  /** The packet of the step is an opener to an open port that the limiter turns away. */
  ghost predicate TurnedAway(steps: seq<Step>, k: nat)
    requires k < |steps| && steps[k].In?
  {
    var s := steps[k];
    && s.rules.enforce && s.pkt.Ip4? && s.pkt.l4.Segment? && Reaches(s, s.pkt.src, s.pkt.l4.dstPort)
    && WouldBeOver(s.rules, MemoryAfter(steps[..k]), s.pkt, s.now)
  }

  /**
   * Whatever the limiters forget: over any run, a packet from outside the given networks that passes under stealth
   * fails to pass without it exactly when it is an opener that the limiter there turns away.
   */
  lemma StealthRunOpensOrLimited(p: Posture, cfg: Config, out: Config, profile: Option<string>, c: Compiled,
                                 c': Compiled, steps: seq<Step>, steps': seq<Step>, k: nat)
    requires p.Valid() && p.name == "stealth" && IsApplied(p, cfg, out)
    requires Twins(cfg, out, profile, c, c', steps, steps') && k < |steps| && steps[k].In?
    requires steps[k].pkt.NotIp? || !InLan(p.lan, SourceOf(steps[k].pkt))
    requires PassesAt(steps', k)
    ensures !PassesAt(steps, k) <==> TurnedAway(steps, k)
  {
    TwinsShareFlows(cfg, out, profile, c, c', steps, steps', k);
    var s, s' := steps[k], steps'[k];
    assert SameTraffic(s, s');
    StealthOpensOrLimited(p, cfg, out, profile, c, c', s.rules, s'.rules, s.bans, MemoryAfter(steps[..k]),
                          MemoryAfter(steps'[..k]), s.pkt, s.now, s.forgetsRates, s'.forgetsRates);
    TurnedAwayIff(steps, k);
  }

  lemma TurnedAwayIff(steps: seq<Step>, k: nat)
    requires k < |steps| && steps[k].In?
    ensures TurnedAway(steps, k) <==>
      var s := steps[k];
      && s.rules.enforce && !s.pkt.NotIp? && !Banned(s.bans, s.pkt, s.now) && !Fragmented(s.pkt)
      && LimitedOpener(s.rules, MemoryAfter(steps[..k]), s.pkt, s.now)
  {
  }

  /** Neither machine's limiter forgets the source in the run. */
  ghost predicate NeitherForgets(steps: seq<Step>, steps': seq<Step>, ip: u32) {
    && (forall k, port: u16 :: 0 <= k < |steps| && steps[k].In? ==> RateKey(ip, port) !in steps[k].forgetsRates)
    && (forall k, port: u16 :: 0 <= k < |steps'| && steps'[k].In? ==> RateKey(ip, port) !in steps'[k].forgetsRates)
  }

  /** An opener that reaches the limiter is counted if its port has a limit. */
  lemma ReachingStep(m: Memory, s: Step, ip: u32, port: u16)
    requires Reaches(s, ip, port)
    ensures var (key, packed) := (RateKey(ip, port), Slot(s.rules.tcpRate, port, 0));
      Lookup(StepMemory(m, s).rates, key) ==
        if packed == 0 then Lookup(m.rates, key)
        else Some(Bump(Lookup(m.rates, key), RateMax(packed), WindowNs(packed), s.now).0)
  {
  }

  lemma StealthReachesSame(p: Posture, cfg: Config, out: Config, profile: Option<string>, c: Compiled, c': Compiled,
                           s: Step, s': Step, ip: u32, port: u16)
    requires p.Valid() && p.name == "stealth" && IsApplied(p, cfg, out) && !InLan(p.lan, V4(ip))
    requires s.In? && SameTraffic(s, s')
    requires LoadedFrom(s.rules, cfg, profile, c) && LoadedFrom(s'.rules, out, profile, c')
    ensures Reaches(s, ip, port) <==> Reaches(s', ip, port)
    ensures Slot(s.rules.tcpRate, port, 0) == Slot(s'.rules.tcpRate, port, 0)
  {
    KernelMeansPolicy(cfg.PolicyFor(profile), c, s.rules, Tcp, V4(ip), port);
    KernelMeansPolicy(out.PolicyFor(profile), c', s'.rules, Tcp, V4(ip), port);
    StealthOpensIff(p, cfg, out, profile, Tcp, V4(ip), port);
    StealthKeepsRates(p, cfg, out, profile, c, c');
    SameRateSlots(c, c', s.rules, s'.rules, port);
  }

  lemma StealthStepKeepsCount(p: Posture, cfg: Config, out: Config, profile: Option<string>, c: Compiled, c': Compiled,
                              m: Memory, m': Memory, s: Step, s': Step, ip: u32, port: u16)
    requires p.Valid() && p.name == "stealth" && IsApplied(p, cfg, out) && !InLan(p.lan, V4(ip))
    requires SameTraffic(s, s') && SameCount(m, m', V4(ip), port)
    requires s.In? ==> LoadedFrom(s.rules, cfg, profile, c) && LoadedFrom(s'.rules, out, profile, c')
    requires s.In? ==> RateKey(ip, port) !in s.forgetsRates && RateKey(ip, port) !in s'.forgetsRates
    ensures SameCount(StepMemory(m, s), StepMemory(m', s'), V4(ip), port)
  {
    if s.In? {
      StealthReachesSame(p, cfg, out, profile, c, c', s, s', ip, port);
      if Reaches(s, ip, port) {
        ReachingStep(m, s, ip, port);
        ReachingStep(m', s', ip, port);
      } else {
        OtherStepsKeepRate(m, s, ip, port);
        OtherStepsKeepRate(m', s', ip, port);
      }
    }
  }

  lemma {:induction false} StealthTwinsCountAlike(p: Posture, cfg: Config, out: Config, profile: Option<string>,
                                                  c: Compiled, c': Compiled, steps: seq<Step>, steps': seq<Step>,
                                                  k: nat, ip: u32, port: u16)
    requires p.Valid() && p.name == "stealth" && IsApplied(p, cfg, out) && !InLan(p.lan, V4(ip))
    requires Twins(cfg, out, profile, c, c', steps, steps') && NeitherForgets(steps, steps', ip) && k <= |steps|
    ensures SameCount(MemoryAfter(steps[..k]), MemoryAfter(steps'[..k]), V4(ip), port)
  {
    if k > 0 {
      var s, s' := steps[k - 1], steps'[k - 1];
      assert SameTraffic(s, s');
      assert s.In? ==> LoadedFrom(s.rules, cfg, profile, c) && LoadedFrom(s'.rules, out, profile, c');
      assert s.In? ==> RateKey(ip, port) !in s.forgetsRates && RateKey(ip, port) !in s'.forgetsRates;
      hide StepMemory, Twins, NeitherForgets, MemoryAfter, LoadedFrom, SameTraffic, SameCount;
      StealthTwinsCountAlike(p, cfg, out, profile, c, c', steps, steps', k - 1, ip, port);
      MemorySnoc(steps, k - 1);
      MemorySnoc(steps', k - 1);
      StealthStepKeepsCount(p, cfg, out, profile, c, c', MemoryAfter(steps[..k - 1]), MemoryAfter(steps'[..k - 1]),
                            steps[k - 1], steps'[k - 1], ip, port);
    }
  }

  /**
   * Over any run, stealth lets a source outside the given networks get no packet through that it did not get through
   * without it, as long as neither limiter forgets the source.
   */
  lemma StealthRunOpensNothingOutside(p: Posture, cfg: Config, out: Config, profile: Option<string>, c: Compiled,
                                      c': Compiled, steps: seq<Step>, steps': seq<Step>, k: nat)
    requires p.Valid() && p.name == "stealth" && IsApplied(p, cfg, out)
    requires Twins(cfg, out, profile, c, c', steps, steps') && k < |steps| && steps[k].In?
    requires steps[k].pkt.NotIp? || !InLan(p.lan, SourceOf(steps[k].pkt))
    requires steps[k].pkt.Ip4? ==> NeitherForgets(steps, steps', steps[k].pkt.src)
    requires PassesAt(steps', k)
    ensures PassesAt(steps, k)
  {
    TwinsShareFlows(cfg, out, profile, c, c', steps, steps', k);
    var s, s' := steps[k], steps'[k];
    assert SameTraffic(s, s');
    if s.pkt.Ip4? && s.pkt.l4.Segment? {
      StealthTwinsCountAlike(p, cfg, out, profile, c, c', steps, steps', k, s.pkt.src, s.pkt.l4.dstPort);
    }
    StealthOpensNothingOutside(p, cfg, out, profile, c, c', s.rules, s'.rules, s.bans, MemoryAfter(steps[..k]),
                               MemoryAfter(steps'[..k]), s.pkt, s.now, s.forgetsRates, s'.forgetsRates);
  }
}
