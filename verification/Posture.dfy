/** Postures: a security level laid over the configuration (posture.rs), and what each means for packets. */
module Postures {
  import opened Words
  import opened Wrappers
  import opened Collections
  import opened Common
  import opened Cidrs
  import opened Configuration
  import opened Compiler
  import opened XdpFilter
  import opened Loader

  const POSTURES: seq<string> := ["secure", "relaxed", "lockdown", "stealth"]
  const DECOY_TCP: seq<u16> := [21, 22, 23, 25, 80, 445, 3306, 3389, 8080]
  const DECOY_UDP: seq<u16> := [53]

  datatype Posture = Posture(name: string, lan: seq<CidrText>) {
    function Validate(): (r: Result<()>)
      ensures r.Ok? <==> Valid()
    {
      if name !in POSTURES then Err(UnknownPosture)
      else
        var _ :- ParseAll(lan);
        Ok(())
    }

    predicate Valid() {
      && (name == "secure" || name == "relaxed" || name == "lockdown" || name == "stealth")
      && forall i :: 0 <= i < |lan| ==> ParseCidr(lan[i]).Ok?
    }
  }

  /** One limit multiplied by `up` (saturating) and divided by `down`, never below 1. */
  function ScaledLimit(v: u32, up: u32, down: u32): u32
    requires down > 0
  {
    var m := SatMul32(v, up);
    DivShrinks(m, down);
    if m / down < 1 then 1 else m / down
  }

  function ScaleDetector(d: DetectorConfig, up: u32, down: u32): DetectorConfig
    requires down > 0
  {
    d.(synLimit := ScaledLimit(d.synLimit, up, down), portLimit := ScaledLimit(d.portLimit, up, down),
       udpLimit := ScaledLimit(d.udpLimit, up, down), dropLimit := ScaledLimit(d.dropLimit, up, down))
  }

  function Decoy(proto: string, port: u16, net: CidrText): Rule {
    Rule(proto, One(port), Some(net), None)
  }

  function DecoysFor(net: CidrText): seq<Rule> {
    seq(|DECOY_TCP|, i requires 0 <= i < |DECOY_TCP| => Decoy("tcp", DECOY_TCP[i], net))
    + seq(|DECOY_UDP|, i requires 0 <= i < |DECOY_UDP| => Decoy("udp", DECOY_UDP[i], net))
  }

  /** The honeypot rules: every decoy port, open to every given network. */
  function Decoys(lan: seq<CidrText>): seq<Rule> {
    if lan == [] then [] else DecoysFor(lan[0]) + Decoys(lan[1..])
  }

  function LockedProfile(p: Profile): Profile {
    Profile(p.networks, Some([]), Some([]), Some(false), Some([]))
  }

  function StealthProfile(p: Profile, decoys: seq<Rule>): Profile {
    p.(allowPing := Some(false), rules := if p.rules.Some? then Some(p.rules.value + decoys) else None)
  }

  function LockedBans(b: BanConfig): BanConfig {
    var base := SatMul64(b.baseSecs, 4);
    b.(baseSecs := base, maxSecs := Max(SatMul64(b.maxSecs, 4), base))
  }

  ghost predicate SameProfiles(ps: seq<NamedProfile>, qs: seq<NamedProfile>, f: Profile -> Profile) {
    |ps| == |qs| && forall i :: 0 <= i < |ps| ==> qs[i] == NamedProfile(ps[i].name, f(ps[i].profile))
  }

  /** The configuration under a posture. */
  ghost predicate IsApplied(p: Posture, cfg: Config, out: Config) {
    var named := cfg.(posture := Some(p.name));
    if p.name == "relaxed" then out == named.(detector := ScaleDetector(cfg.detector, 2, 1))
    else if p.name == "lockdown" then
      && SameProfiles(cfg.profiles, out.profiles, LockedProfile)
      && out == named.(
        mode := "enforce", allowTcp := [], allowUdp := [], allowPing := false, rules := [], profiles := out.profiles,
        detector := ScaleDetector(cfg.detector, 1, 2), bans := LockedBans(cfg.bans))
    else if p.name == "stealth" then
      && SameProfiles(cfg.profiles, out.profiles, (q: Profile) => StealthProfile(q, Decoys(p.lan)))
      && out == named.(allowPing := false, rules := cfg.rules + Decoys(p.lan), profiles := out.profiles)
    else out == named
  }

  method Apply(p: Posture, cfg: Config) returns (out: Config)
    ensures IsApplied(p, cfg, out)
  {
    out := cfg.(posture := Some(p.name));
    if p.name == "relaxed" {
      out := out.(detector := ScaleDetector(out.detector, 2, 1));
    } else if p.name == "lockdown" {
      out := out.(mode := "enforce", allowTcp := [], allowUdp := [], allowPing := false, rules := []);
      var profiles := out.profiles;
      for i := 0 to |profiles|
        invariant |profiles| == |cfg.profiles|
        invariant forall j :: 0 <= j < |profiles| ==>
          profiles[j] == (if j < i
              then NamedProfile(cfg.profiles[j].name, LockedProfile(cfg.profiles[j].profile)) else cfg.profiles[j])
      {
        profiles := profiles[i := NamedProfile(profiles[i].name, LockedProfile(profiles[i].profile))];
      }
      out := out.(profiles := profiles, detector := ScaleDetector(out.detector, 1, 2));
      out := out.(bans := out.bans.(baseSecs := SatMul64(out.bans.baseSecs, 4)));
      out := out.(bans := out.bans.(maxSecs := Max(SatMul64(out.bans.maxSecs, 4), out.bans.baseSecs)));
    } else if p.name == "stealth" {
      var decoys := Decoys(p.lan);
      out := out.(allowPing := false, rules := out.rules + decoys);
      var profiles := out.profiles;
      for i := 0 to |profiles|
        invariant |profiles| == |cfg.profiles|
        invariant forall j :: 0 <= j < |profiles| ==>
          profiles[j] == (if j < i then NamedProfile(cfg.profiles[j].name, StealthProfile(cfg.profiles[j].profile,
              decoys)) else cfg.profiles[j])
      {
        profiles := profiles[i := NamedProfile(profiles[i].name, StealthProfile(profiles[i].profile, decoys))];
      }
      out := out.(profiles := profiles);
    }
  }

  lemma {:induction false} DecoysValid(lan: seq<CidrText>)
    requires forall i :: 0 <= i < |lan| ==> ParseCidr(lan[i]).Ok?
    ensures forall r :: r in Decoys(lan) ==>
      r.Valid() && r.limit.None? && r.from.Some? && r.from.value in lan
  {
    if lan != [] {
      DecoysValid(lan[1..]);
      forall r | r in DecoysFor(lan[0]) ensures r.Valid() && r.limit.None? && r.from == Some(lan[0]) {
      }
    }
  }

  lemma AppendedValid(rules: seq<Rule>, lan: seq<CidrText>)
    requires forall i :: 0 <= i < |rules| ==> rules[i].Valid()
    requires forall i :: 0 <= i < |lan| ==> ParseCidr(lan[i]).Ok?
    ensures forall i :: 0 <= i < |rules + Decoys(lan)| ==> (rules + Decoys(lan))[i].Valid()
  {
    DecoysValid(lan);
    forall i | 0 <= i < |rules + Decoys(lan)| ensures (rules + Decoys(lan))[i].Valid() {
      assert i >= |rules| ==> (rules + Decoys(lan))[i] in Decoys(lan);
    }
  }

  lemma LockedProfileOk(q: Profile)
    ensures ProfileOk(LockedProfile(q))
  {
  }

  lemma StealthProfileOk(q: Profile, lan: seq<CidrText>)
    requires ProfileOk(q) && forall i :: 0 <= i < |lan| ==> ParseCidr(lan[i]).Ok?
    ensures ProfileOk(StealthProfile(q, Decoys(lan)))
  {
    if q.rules.Some? {
      AppendedValid(q.rules.value, lan);
    }
  }

  lemma ScaledValid(d: DetectorConfig, up: u32, down: u32)
    requires d.Valid() && down > 0
    ensures ScaleDetector(d, up, down).Valid() && ScaleDetector(d, up, down).windowSecs == d.windowSecs
  {
  }

  /** A posture turns a valid configuration into a valid one, which compiles under every profile. */
  lemma PostureKeepsValid(p: Posture, cfg: Config, out: Config, profile: Option<string>)
    requires p.Valid() && cfg.Valid() && IsApplied(p, cfg, out)
    ensures out.Valid() && out.PolicyFor(profile).Compiles()
  {
    AppliedIsValid(p, cfg, out);
    hide *;
    ValidPolicies(out, profile);
  }

  lemma AppliedIsValid(p: Posture, cfg: Config, out: Config)
    requires p.Valid() && cfg.Valid() && IsApplied(p, cfg, out)
    ensures out.Valid()
  {
    hide ProfileOk, LockedProfile, StealthProfile, Rule.Valid, ParseCidr, Decoys;
    if p.name == "relaxed" {
      ScaledValid(cfg.detector, 2, 1);
    } else if p.name == "lockdown" {
      ScaledValid(cfg.detector, 1, 2);
      forall i | 0 <= i < |out.profiles| ensures ProfileOk(out.profiles[i].profile) {
        LockedProfileOk(cfg.profiles[i].profile);
      }
    } else if p.name == "stealth" {
      AppendedValid(cfg.rules, p.lan);
      forall i | 0 <= i < |out.profiles| ensures ProfileOk(out.profiles[i].profile) {
        var q := cfg.profiles[i].profile;
        assert out.profiles[i].profile == StealthProfile(q, Decoys(p.lan));
        StealthProfileOk(q, p.lan);
      }
    }
  }

  lemma {:induction false} FoundInMapped(ps: seq<NamedProfile>, qs: seq<NamedProfile>, f: Profile -> Profile,
                                         name: string)
    requires SameProfiles(ps, qs, f)
    ensures FindProfile(qs, name) ==
      if FindProfile(ps, name).None? then None else Some(f(FindProfile(ps, name).value))
  {
    if ps != [] {
      assert qs[0] == NamedProfile(ps[0].name, f(ps[0].profile));
      assert SameProfiles(ps[1..], qs[1..], f);
      FoundInMapped(ps[1..], qs[1..], f, name);
    }
  }

  lemma {:induction false} FirstInMapped(ps: seq<NamedProfile>, qs: seq<NamedProfile>, f: Profile -> Profile,
                                         active: seq<string>)
    requires SameProfiles(ps, qs, f)
    requires forall p :: f(p).networks == p.networks
    ensures FirstProfile(qs, active) == FirstProfile(ps, active)
  {
    if ps != [] {
      assert qs[0] == NamedProfile(ps[0].name, f(ps[0].profile));
      assert SameProfiles(ps[1..], qs[1..], f);
      FirstInMapped(ps[1..], qs[1..], f, active);
    }
  }

  /** No posture changes which profile a network selects. */
  lemma PostureKeepsProfileChoice(p: Posture, cfg: Config, out: Config, active: seq<string>)
    requires IsApplied(p, cfg, out)
    ensures out.ProfileFor(active) == cfg.ProfileFor(active)
  {
    if p.name == "lockdown" {
      FirstInMapped(cfg.profiles, out.profiles, LockedProfile, active);
    } else if p.name == "stealth" {
      FirstInMapped(cfg.profiles, out.profiles, (q: Profile) => StealthProfile(q, Decoys(p.lan)), active);
    }
  }

  lemma PostureKeepsNameOrder(p: Posture, cfg: Config, out: Config)
    requires IsApplied(p, cfg, out) && InNameOrder(cfg.profiles)
    ensures InNameOrder(out.profiles)
  {
  }

  lemma LockdownPolicy(p: Posture, cfg: Config, out: Config, profile: Option<string>)
    requires p.name == "lockdown" && IsApplied(p, cfg, out)
    ensures var q := out.PolicyFor(profile);
      q.allowTcp == [] && q.allowUdp == [] && q.rules == [] && !q.allowPing
    ensures out.Enforce()
  {
    if profile.Some? {
      FoundInMapped(cfg.profiles, out.profiles, LockedProfile, profile.value);
    }
  }

  lemma StealthPolicy(p: Posture, cfg: Config, out: Config, profile: Option<string>)
    requires p.name == "stealth" && IsApplied(p, cfg, out)
    ensures var (q, was) := (out.PolicyFor(profile), cfg.PolicyFor(profile));
      q.allowTcp == was.allowTcp && q.allowUdp == was.allowUdp && !q.allowPing && q.rules == was.rules + Decoys(p.lan)
    ensures out.Enforce() == cfg.Enforce()
  {
    if profile.Some? {
      FoundInMapped(cfg.profiles, out.profiles, (q: Profile) => StealthProfile(q, Decoys(p.lan)), profile.value);
    }
  }

  /** Rule maps loaded from a configuration under a profile. */
  ghost predicate LoadedFrom(r: Rules, cfg: Config, profile: Option<string>, c: Compiled) {
    var policy := cfg.PolicyFor(profile);
    && policy.Compiles() && CompiledFor(policy, c) && Holds(r, c)
    && r.enforce == (cfg.mode == "enforce") && r.dropPing == !policy.allowPing
  }

  /** Settings that do not come from the configuration's policy are the same on both sides. */
  predicate SameHost(r: Rules, r': Rules) {
    r.ephemeralLow == r'.ephemeralLow && r.udpStrict == r'.udpStrict
  }

  /** What lockdown lets in, exactly: nothing new, only answers, DHCP, and what no firewall can judge. */
  lemma LockdownPassesIff(p: Posture, cfg: Config, out: Config, profile: Option<string>, c: Compiled, r: Rules,
                          b: Bans, m: Memory, pkt: Packet, now: u64, forgets: set<nat>)
    requires p.name == "lockdown" && IsApplied(p, cfg, out) && LoadedFrom(r, out, profile, c)
    ensures Inbound(r, b, m, pkt, now, forgets).1 == XdpPass <==>
      (pkt.NotIp? || (!Banned(b, pkt, now) && (Fragmented(pkt) || pkt.l4.Unparsed?
        || (pkt.l4.Icmp? && !EchoRequest(pkt))
        || (pkt.l4.Segment? && (match pkt.l4.proto
              case Tcp => !Malformed(pkt.l4.tcpFlags) && !OpensConnection(pkt.l4.tcpFlags)
              case Udp => Reply(m, pkt, now) || (!r.udpStrict && pkt.l4.dstPort >= r.ephemeralLow)
                          || pkt.l4.dstPort == 68 || pkt.l4.dstPort == 546)))))
  {
    LockdownPolicy(p, cfg, out, profile);
    VerdictIff(out.PolicyFor(profile), c, r, b, m, pkt, now, forgets);
    if !pkt.NotIp? && pkt.l4.Segment? {
      ClosedPolicy(out.PolicyFor(profile), pkt.l4.proto, SourceOf(pkt), pkt.l4.dstPort);
    }
  }

  lemma ClosedPolicy(policy: Policy, proto: Proto, src: Src, port: u16)
    requires policy.allowTcp == [] && policy.allowUdp == [] && policy.rules == []
    ensures PolicyOpens(policy, proto, src, port) <==> proto == Udp && (port == 68 || port == 546)
  {
  }

  /** The same flow tables: what the machines remember of packets out. */
  predicate SameFlows(m: Memory, m': Memory) {
    m.flows == m'.flows && m.flows6 == m'.flows6
  }

  /** Lockdown passes a subset of what the same configuration passes without it: same bans, same flow tables. */
  lemma LockdownPassesLess(p: Posture, cfg: Config, out: Config, profile: Option<string>, c: Compiled, c': Compiled,
                           r: Rules, r': Rules, b: Bans, m: Memory, m': Memory, pkt: Packet, now: u64,
                           forgets: set<nat>, forgets': set<nat>)
    requires p.name == "lockdown" && IsApplied(p, cfg, out)
    requires LoadedFrom(r, cfg, profile, c) && LoadedFrom(r', out, profile, c') && SameHost(r, r') && SameFlows(m, m')
    requires Inbound(r', b, m', pkt, now, forgets').1 == XdpPass
    ensures Inbound(r, b, m, pkt, now, forgets).1 == XdpPass
  {
    LockdownPassesIff(p, cfg, out, profile, c', r', b, m', pkt, now, forgets');
    VerdictIff(cfg.PolicyFor(profile), c, r, b, m, pkt, now, forgets);
  }

  /** The source is in one of the networks stealth was given. */
  ghost predicate InLan(lan: seq<CidrText>, src: Src) {
    src.V4? && exists i :: 0 <= i < |lan| && ParseCidr(lan[i]).Ok? && ParseCidr(lan[i]).value.Contains(src.ip)
  }

  predicate IsDecoy(proto: Proto, port: u16) {
    match proto
    case Tcp => port in {21, 22, 23, 25, 80, 445, 3306, 3389, 8080}
    case Udp => port == 53
  }

  ghost predicate RulesOpen(rules: seq<Rule>, proto: Proto, src: Src, port: u16) {
    exists r :: r in rules && r.IsTcp() == (proto == Tcp) && r.port.Covers(port) && r.Admits(src)
  }

  /** The decoys are the ports of FTP, SSH, Telnet, SMTP, HTTP, SMB, MySQL, RDP and a proxy, and DNS over UDP. */
  lemma DecoysAre(proto: Proto, port: u16)
    ensures IsDecoy(proto, port) <==> if proto == Tcp then port in DECOY_TCP else port in DECOY_UDP
  {
    assert DECOY_TCP[0] == 21 && DECOY_TCP[1] == 22 && DECOY_TCP[2] == 23 && DECOY_TCP[3] == 25 && DECOY_TCP[4] == 80;
    assert DECOY_TCP[5] == 445 && DECOY_TCP[6] == 3306 && DECOY_TCP[7] == 3389 && DECOY_TCP[8] == 8080;
    assert DECOY_UDP[0] == 53;
  }

  lemma DecoyPlaced(net: CidrText, proto: Proto, port: u16)
    requires IsDecoy(proto, port)
    ensures Decoy(if proto == Tcp then "tcp" else "udp", port, net) in DecoysFor(net)
  {
    var rules := DecoysFor(net);
    DecoysAre(proto, port);
    if proto == Tcp {
      var i :| 0 <= i < |DECOY_TCP| && DECOY_TCP[i] == port;
      assert rules[i] == Decoy("tcp", port, net);
    } else {
      var i :| 0 <= i < |DECOY_UDP| && DECOY_UDP[i] == port;
      assert rules[|DECOY_TCP| + i] == Decoy("udp", port, net);
    }
  }

  lemma OnlyDecoysPlaced(net: CidrText, r: Rule)
    requires r in DecoysFor(net)
    ensures r.port.One? && r.port.port > 0 && r == Decoy(r.proto, r.port.port, net)
    ensures (r.proto == "tcp" && r.port.port in DECOY_TCP) || (r.proto == "udp" && r.port.port in DECOY_UDP)
  {
    var rules := DecoysFor(net);
    var k :| 0 <= k < |rules| && rules[k] == r;
    if k < |DECOY_TCP| {
      assert r == Decoy("tcp", DECOY_TCP[k], net);
    } else {
      assert r == Decoy("udp", DECOY_UDP[k - |DECOY_TCP|], net);
    }
  }

  lemma DecoyOpens(r: Rule, net: CidrText, name: string, decoy: u16, proto: Proto, src: Src, port: u16)
    requires r == Decoy(name, decoy, net) && decoy > 0
    ensures r.IsTcp() == (proto == Tcp) && r.port.Covers(port) && r.Admits(src) <==>
            (name == "tcp") == (proto == Tcp) && port == decoy
            && src.V4? && ParseCidr(net).Ok? && ParseCidr(net).value.Contains(src.ip)
  {
  }

  lemma DecoyShape(net: CidrText, proto: Proto, src: Src, port: u16)
    ensures RulesOpen(DecoysFor(net), proto, src, port) <==>
            IsDecoy(proto, port) && src.V4? && ParseCidr(net).Ok? && ParseCidr(net).value.Contains(src.ip)
  {
    var rules := DecoysFor(net);
    if IsDecoy(proto, port) {
      var name := if proto == Tcp then "tcp" else "udp";
      DecoyPlaced(net, proto, port);
      DecoyOpens(Decoy(name, port, net), net, name, port, proto, src, port);
    }
    if RulesOpen(rules, proto, src, port) {
      var r :| r in rules && r.IsTcp() == (proto == Tcp) && r.port.Covers(port) && r.Admits(src);
      OnlyDecoysPlaced(net, r);
      var name, decoy := r.proto, r.port.port;
      DecoyOpens(r, net, name, decoy, proto, src, port);
    }
  }

  /** The decoy rules cover exactly the decoy ports, for exactly the given networks. */
  lemma {:induction false} DecoysCover(lan: seq<CidrText>, proto: Proto, src: Src, port: u16)
    ensures RulesOpen(Decoys(lan), proto, src, port) <==>
            IsDecoy(proto, port) && InLan(lan, src)
  {
    if lan != [] {
      DecoysCover(lan[1..], proto, src, port);
      DecoyShape(lan[0], proto, src, port);
      assert InLan(lan, src) <==> InLan(lan[..1], src) || InLan(lan[1..], src) by {
        assert lan == lan[..1] + lan[1..];
        if InLan(lan[1..], src) {
          var i :| 0 <= i < |lan[1..]| && ParseCidr(lan[1..][i]).Ok? && ParseCidr(lan[1..][i]).value.Contains(src.ip);
          assert lan[i + 1] == lan[1..][i];
        }
      }
      assert forall r :: r in Decoys(lan) <==> r in DecoysFor(lan[0]) || r in Decoys(lan[1..]);
    }
  }

  /** Stealth opens exactly the decoy ports, to exactly the given networks, on top of what was open. */
  lemma StealthOpensIff(p: Posture, cfg: Config, out: Config, profile: Option<string>, proto: Proto, src: Src,
                        port: u16)
    requires p.name == "stealth" && IsApplied(p, cfg, out)
    ensures PolicyOpens(out.PolicyFor(profile), proto, src, port) <==>
            PolicyOpens(cfg.PolicyFor(profile), proto, src, port) || (IsDecoy(proto, port) && InLan(p.lan, src))
  {
    StealthPolicy(p, cfg, out, profile);
    DecoysCover(p.lan, proto, src, port);
    OpensByRules(cfg.PolicyFor(profile), proto, src, port);
    OpensByRules(out.PolicyFor(profile), proto, src, port);
  }

  lemma OpensByRules(policy: Policy, proto: Proto, src: Src, port: u16)
    ensures PolicyOpens(policy, proto, src, port) <==>
      || InSpecs(if proto == Tcp then policy.allowTcp else policy.allowUdp, port)
      || (proto == Udp && (port == 68 || port == 546))
      || RulesOpen(policy.rules, proto, src, port)
  {
    if RulesOpen(policy.rules, proto, src, port) {
      var r :| r in policy.rules && r.IsTcp() == (proto == Tcp) && r.port.Covers(port) && r.Admits(src);
      var k :| 0 <= k < |policy.rules| && policy.rules[k] == r;
    }
  }

  /** The decoys carry no limit, so the compiled limits are the same. */
  lemma StealthKeepsRates(p: Posture, cfg: Config, out: Config, profile: Option<string>, c: Compiled, c': Compiled)
    requires p.Valid() && p.name == "stealth" && IsApplied(p, cfg, out)
    requires CompiledFor(cfg.PolicyFor(profile), c) && CompiledFor(out.PolicyFor(profile), c')
    ensures c'.rates == c.rates
  {
    StealthPolicy(p, cfg, out, profile);
    DecoysValid(p.lan);
    var rules, rules' := cfg.PolicyFor(profile).rules, out.PolicyFor(profile).rules;
    var n, n' := |rules|, |rules'|;
    forall k | n <= k < n' ensures !Rated(rules'[k]) {
      assert rules'[k] in Decoys(p.lan);
    }
    forall q: u16 ensures q in c.rates <==> q in c'.rates
      ensures q in c.rates ==> c.rates[q] == c'.rates[q]
    {
      SameRates(rules, rules', c.rates, c'.rates, q);
    }
  }

  lemma SameRates(rules: seq<Rule>, rules': seq<Rule>, rates: map<u16, u32>, rates': map<u16, u32>, q: u16)
    requires rules <= rules' && forall k :: |rules| <= k < |rules'| ==> !Rated(rules'[k])
    requires RatesDone(rules, |rules|, 0, rates) && RatesDone(rules', |rules'|, 0, rates')
    ensures q in rates <==> q in rates'
    ensures q in rates ==> rates[q] == rates'[q]
  {
    var n, n' := |rules|, |rules'|;
    assert RateFor(rules, n, 0, rates, q) && RateFor(rules', n', 0, rates', q);
    forall k: int
      ensures Done(rules, n, 0, k, q) && Rated(rules[k]) <==> Done(rules', n', 0, k, q) && Rated(rules'[k])
    {
    }
  }

  /** What the limiters remember of the packet's source and port is the same. */
  predicate SameCount(m: Memory, m': Memory, src: Src, port: u16) {
    src.V4? ==> Lookup(m.rates, RateKey(src.ip, port)) == Lookup(m'.rates, RateKey(src.ip, port))
  }

  /** Stealth opens nothing new to a source outside the given networks: what passes then passed before. */
  lemma StealthOpensNothingOutside(p: Posture, cfg: Config, out: Config, profile: Option<string>, c: Compiled,
                                   c': Compiled, r: Rules, r': Rules, b: Bans, m: Memory, m': Memory, pkt: Packet,
                                   now: u64, forgets: set<nat>, forgets': set<nat>)
    requires p.Valid() && p.name == "stealth" && IsApplied(p, cfg, out)
    requires LoadedFrom(r, cfg, profile, c) && LoadedFrom(r', out, profile, c') && SameHost(r, r') && SameFlows(m, m')
    requires pkt.NotIp? || !InLan(p.lan, SourceOf(pkt))
    requires !pkt.NotIp? && pkt.l4.Segment? ==> SameCount(m, m', SourceOf(pkt), pkt.l4.dstPort)
    requires Inbound(r', b, m', pkt, now, forgets').1 == XdpPass
    ensures Inbound(r, b, m, pkt, now, forgets).1 == XdpPass
  {
    VerdictIff(cfg.PolicyFor(profile), c, r, b, m, pkt, now, forgets);
    VerdictIff(out.PolicyFor(profile), c', r', b, m', pkt, now, forgets');
    StealthPolicy(p, cfg, out, profile);
    if !pkt.NotIp? && pkt.l4.Segment? {
      StealthOpensIff(p, cfg, out, profile, pkt.l4.proto, SourceOf(pkt), pkt.l4.dstPort);
      StealthKeepsRates(p, cfg, out, profile, c, c');
      SameLimiter(c, c', r, r', m, m', pkt, now);
    }
  }

  /** An opener to an open port that the limiter turns away. */
  ghost predicate LimitedOpener(r: Rules, m: Memory, pkt: Packet, now: u64) {
    && !pkt.NotIp? && pkt.l4.Segment? && pkt.l4.proto == Tcp && OpensConnection(pkt.l4.tcpFlags)
    && PortOpen(r, Tcp, SourceOf(pkt), pkt.l4.dstPort) && WouldBeOver(r, m, pkt, now)
  }

  /** Whatever the counts: what stealth lets in and the policy alone does not is what the limiter turns away. */
  lemma StealthOpensOrLimited(p: Posture, cfg: Config, out: Config, profile: Option<string>, c: Compiled, c': Compiled,
                              r: Rules, r': Rules, b: Bans, m: Memory, m': Memory, pkt: Packet, now: u64,
                              forgets: set<nat>, forgets': set<nat>)
    requires p.Valid() && p.name == "stealth" && IsApplied(p, cfg, out)
    requires LoadedFrom(r, cfg, profile, c) && LoadedFrom(r', out, profile, c') && SameHost(r, r') && SameFlows(m, m')
    requires pkt.NotIp? || !InLan(p.lan, SourceOf(pkt))
    requires Inbound(r', b, m', pkt, now, forgets').1 == XdpPass
    ensures Inbound(r, b, m, pkt, now, forgets).1 != XdpPass <==>
      (r.enforce && !pkt.NotIp? && !Banned(b, pkt, now) && !Fragmented(pkt) && LimitedOpener(r, m, pkt, now))
  {
    hide Inbound, Banned, Hits, PolicyOpens, PortOpen, InLan, OverRate, Malformed, OpensConnection, EchoRequest;
    hide CompiledFor, Holds;
    VerdictIff(cfg.PolicyFor(profile), c, r, b, m, pkt, now, forgets);
    VerdictIff(out.PolicyFor(profile), c', r', b, m', pkt, now, forgets');
    StealthPolicy(p, cfg, out, profile);
    if !pkt.NotIp? && pkt.l4.Segment? {
      StealthOpensIff(p, cfg, out, profile, pkt.l4.proto, SourceOf(pkt), pkt.l4.dstPort);
      KernelMeansPolicy(cfg.PolicyFor(profile), c, r, pkt.l4.proto, SourceOf(pkt), pkt.l4.dstPort);
    }
  }

  lemma SameLimiter(c: Compiled, c': Compiled, r: Rules, r': Rules, m: Memory, m': Memory, pkt: Packet, now: u64)
    requires !pkt.NotIp? && pkt.l4.Segment? && SameCount(m, m', SourceOf(pkt), pkt.l4.dstPort)
    requires Holds(r, c) && Holds(r', c') && c.rates == c'.rates
    ensures WouldBeOver(r, m, pkt, now) == WouldBeOver(r', m', pkt, now)
  {
    SameRateSlots(c, c', r, r', pkt.l4.dstPort);
  }

  lemma SameRateSlots(c: Compiled, c': Compiled, r: Rules, r': Rules, port: u16)
    requires Holds(r, c) && Holds(r', c') && c.rates == c'.rates
    ensures Slot(r.tcpRate, port, 0) == Slot(r'.tcpRate, port, 0)
  {
    assert Slot(r.tcpRate, port, 0) == if port in c.rates then c.rates[port] else 0;
    assert Slot(r'.tcpRate, port, 0) == if port in c'.rates then c'.rates[port] else 0;
  }

  /** Every limit of `e` is the one of `d` doubled, as far as 32 bits go. */
  predicate Doubled(e: DetectorConfig, d: DetectorConfig) {
    && e.windowSecs == d.windowSecs
    && e.synLimit == Min(2 * d.synLimit, U32_MAX) && e.portLimit == Min(2 * d.portLimit, U32_MAX)
    && e.udpLimit == Min(2 * d.udpLimit, U32_MAX) && e.dropLimit == Min(2 * d.dropLimit, U32_MAX)
  }

  /** Every limit of `e` is the one of `d` halved, but at least 1. */
  predicate Halved(e: DetectorConfig, d: DetectorConfig) {
    && e.windowSecs == d.windowSecs
    && e.synLimit == Max(d.synLimit / 2, 1) && e.portLimit == Max(d.portLimit / 2, 1)
    && e.udpLimit == Max(d.udpLimit / 2, 1) && e.dropLimit == Max(d.dropLimit / 2, 1)
  }

  lemma ScaledLimits(d: DetectorConfig)
    requires d.Valid()
    ensures Doubled(ScaleDetector(d, 2, 1), d) && Halved(ScaleDetector(d, 1, 2), d)
  {
  }

  /**
   * What each posture, by its name, makes of the detector, the ban lengths and the mode: relaxed doubles every limit,
   * lockdown halves them, bans four times as long and enforces; nothing else of this changes.
   */
  lemma PostureSettings(p: Posture, cfg: Config, out: Config)
    requires cfg.detector.Valid() && cfg.bans.Valid() && IsApplied(p, cfg, out)
    ensures if p.name == "relaxed" then Doubled(out.detector, cfg.detector)
      else if p.name == "lockdown" then Halved(out.detector, cfg.detector)
      else out.detector == cfg.detector
    ensures out.bans.forgiveSecs == cfg.bans.forgiveSecs
    ensures out.bans.baseSecs == if p.name == "lockdown" then Min(4 * cfg.bans.baseSecs, U64_MAX) else cfg.bans.baseSecs
    ensures out.bans.maxSecs == if p.name == "lockdown" then Min(4 * cfg.bans.maxSecs, U64_MAX) else cfg.bans.maxSecs
    ensures out.mode == (if p.name == "lockdown" then "enforce" else cfg.mode)
    ensures out.blocked == cfg.blocked && out.trusted == cfg.trusted && out.feeds == cfg.feeds
  {
    ScaledLimits(cfg.detector);
  }
}
