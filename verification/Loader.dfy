/**
 * The daemon's side of the rule maps: mirrors of what was last written, and the writes (daemon.rs `Kernel`,
 * `apply_config`, `apply_feeds`).
 */
module Loader {
  import opened Words
  import opened Wrappers
  import opened Common
  import opened Cidrs
  import opened Configuration
  import opened RuleKeys
  import opened Compiler
  import opened MapSync
  import opened XdpFilter
  import opened XdpProgram

  const RULE_ENTRIES: nat := 4096
  const FEED_ENTRIES: nat := 131072

  /** A port array that reads 1 exactly on the open ports. */
  ghost predicate ArrayIs(m: map<u16, u8>, open: set<u16>) {
    forall p: u16 :: Slot(m, p, 0) == if p in open then 1 else 0
  }

  /** A rate array that reads the given limits, and "no limit" elsewhere. */
  ghost predicate RatesAre(m: map<u16, u32>, rates: map<u16, u32>) {
    forall p: u16 :: Slot(m, p, 0) == if p in rates then rates[p] else 0
  }

  /** The rule maps are a load of this compiled policy from scratch. */
  ghost predicate Holds(r: Rules, c: Compiled) {
    && ArrayIs(r.tcpAllow, c.tcp) && ArrayIs(r.udpAllow, c.udp)
    && r.fromTcp == NodesOf(c.fromTcp, RuleNode) && r.fromUdp == NodesOf(c.fromUdp, RuleNode)
    && RatesAre(r.tcpRate, c.rates)
  }

  predicate SameSettings(r: Rules, r': Rules) {
    r.enforce == r'.enforce && r.ephemeralLow == r'.ephemeralLow
    && r.dropPing == r'.dropPing && r.udpStrict == r'.udpStrict
  }

  method SyncPorts(m: map<u16, u8>, open: set<u16>, wanted: set<u16>) returns (m': map<u16, u8>)
    ensures forall p: u16 ::
      Slot(m', p, 0) == if p in wanted - open then 1 else if p in open - wanted then 0 else Slot(m, p, 0)
  {
    m' := m;
    var todo := open - wanted;
    while todo != {}
      invariant todo <= open - wanted
      invariant forall p: u16 :: Slot(m', p, 0) == if p in (open - wanted) - todo then 0 else Slot(m, p, 0)
    {
      var p :| p in todo;
      m', todo := m'[p := 0], todo - {p};
    }
    todo := wanted - open;
    while todo != {}
      invariant todo <= wanted - open
      invariant forall p: u16 ::
        Slot(m', p, 0) == if p in (wanted - open) - todo then 1 else if p in open - wanted then 0 else Slot(m, p, 0)
    {
      var p :| p in todo;
      m', todo := m'[p := 1], todo - {p};
    }
  }

  method SyncRates(m: map<u16, u32>, have: map<u16, u32>, wanted: map<u16, u32>) returns (m': map<u16, u32>)
    ensures forall p: u16 ::
      Slot(m', p, 0) == if p in wanted then wanted[p] else if p in have then 0 else Slot(m, p, 0)
  {
    m' := m;
    var todo := have.Keys - wanted.Keys;
    while todo != {}
      invariant todo <= have.Keys - wanted.Keys
      invariant forall p: u16 :: Slot(m', p, 0) == if p in (have.Keys - wanted.Keys) - todo then 0 else Slot(m, p, 0)
    {
      var p :| p in todo;
      m', todo := m'[p := 0], todo - {p};
    }
    todo := wanted.Keys;
    while todo != {}
      invariant todo <= wanted.Keys
      invariant forall p: u16 ::
        Slot(m', p, 0) == if p in wanted.Keys - todo then wanted[p]
          else if p in have.Keys - wanted.Keys then 0 else Slot(m, p, 0)
    {
      var p :| p in todo;
      m', todo := m'[p := wanted[p]], todo - {p};
    }
  }

  lemma CanonicalPair(have: set<(nat, RuleKey)>, wanted: set<(nat, RuleKey)>)
    requires Canonical(have) && Canonical(wanted)
    ensures Distinct(have + wanted, RuleNode)
  {
    CanonicalDistinct(have + wanted);
  }

  /** A rule update between canonical entries. */
  method LoadTrie(trie: set<Node>, have: set<(nat, RuleKey)>, wanted: set<(nat, RuleKey)>)
    returns (r: Result<()>, trie': set<Node>, have': set<(nat, RuleKey)>)
    requires |trie| <= RULE_ENTRIES && Canonical(have) && Canonical(wanted)
    ensures |trie'| <= RULE_ENTRIES && Canonical(have')
    ensures have' == if r.Ok? then wanted else have
    ensures Updated(trie, NodesOf(have, RuleNode), NodesOf(wanted, RuleNode), RULE_ENTRIES, r.Ok?, trie')
    ensures r.Ok? <==> |Synced(trie, NodesOf(have, RuleNode), NodesOf(wanted, RuleNode))| <= RULE_ENTRIES
    ensures r.Ok? ==> (trie' == NodesOf(wanted, RuleNode) <==>
                       Clean(trie, NodesOf(have, RuleNode), NodesOf(wanted, RuleNode)))
    ensures trie == NodesOf(have, RuleNode) ==> Clean(trie, NodesOf(have, RuleNode), NodesOf(wanted, RuleNode))
    ensures trie == NodesOf(have, RuleNode) ==> (r.Ok? <==> |wanted| <= RULE_ENTRIES)
  {
    CanonicalPair(have, wanted);
    r, trie', have' := SyncTrie(trie, have, wanted, RULE_ENTRIES);
    InStepIffClean(trie, NodesOf(have, RuleNode), NodesOf(wanted, RuleNode));
  }

  /** The nodes of the two tries. */
  datatype Tries = Tries(tcp: set<Node>, udp: set<Node>)

  function TriesOf(r: Rules): Tries {
    Tries(r.fromTcp, r.fromUdp)
  }

  /** The nodes a compiled policy wants in them. */
  function NodesFor(tcp: set<(nat, RuleKey)>, udp: set<(nat, RuleKey)>): Tries {
    Tries(NodesOf(tcp, RuleNode), NodesOf(udp, RuleNode))
  }

  /**
   * What an update of both tries leaves, TCP first: the second is not reached when the first stops. The mirror (`have`,
   * as nodes) follows each trie that is done.
   */
  predicate BothUpdated(t: Tries, have: Tries, want: Tries, ok: bool, t': Tries, have': Tries) {
    || (Updated(t.tcp, have.tcp, want.tcp, RULE_ENTRIES, true, t'.tcp) && have'.tcp == want.tcp
        && Updated(t.udp, have.udp, want.udp, RULE_ENTRIES, ok, t'.udp)
        && have'.udp == if ok then want.udp else have.udp)
    || (!ok && Updated(t.tcp, have.tcp, want.tcp, RULE_ENTRIES, false, t'.tcp) && t'.udp == t.udp && have' == have)
  }

  /** What updates would make of the two tries fits. */
  predicate BothFit(t: Tries, have: Tries, want: Tries) {
    && |Synced(t.tcp, have.tcp, want.tcp)| <= RULE_ENTRIES
    && |Synced(t.udp, have.udp, want.udp)| <= RULE_ENTRIES
  }

  /** Neither trie holds or lacks anything an update to these sets would not put right. */
  predicate BothClean(t: Tries, have: Tries, want: Tries) {
    Clean(t.tcp, have.tcp, want.tcp) && Clean(t.udp, have.udp, want.udp)
  }

  class Kernel {
    const xdp: Xdp
    var openTcp: set<u16>
    var openUdp: set<u16>
    var fromTcpKeys: set<(nat, RuleKey)>
    var fromUdpKeys: set<(nat, RuleKey)>
    var rateSet: map<u16, u32>
    var feedNets: set<Cidr>

    constructor (xdp: Xdp)
      requires xdp.rules == Rules(false, 0, false, false, map[], map[], {}, {}, map[]) && xdp.bans.feeds == {}
      ensures this.xdp == xdp && WellKept() && InSync() && FeedsInside()
    {
      this.xdp := xdp;
      openTcp, openUdp, fromTcpKeys, fromUdpKeys, rateSet, feedNets := {}, {}, {}, {}, map[], {};
    }

    ghost function Mirror(): Compiled
      reads this
    {
      Compiled(openTcp, openUdp, fromTcpKeys, fromUdpKeys, rateSet)
    }

    /** The port and rate arrays are what their mirrors say. */
    ghost predicate ArraysKept()
      reads this`openTcp, this`openUdp, this`rateSet, xdp`rules
    {
      && ArrayIs(xdp.rules.tcpAllow, openTcp) && ArrayIs(xdp.rules.udpAllow, openUdp)
      && RatesAre(xdp.rules.tcpRate, rateSet)
    }

    /**
     * What holds at all times, failed applies included: the arrays in step, the tries within their capacity, the
     * mirrors made of canonical entries.
     */
    ghost predicate WellKept()
      reads this, xdp
    {
      && ArraysKept()
      && |xdp.rules.fromTcp| <= RULE_ENTRIES && |xdp.rules.fromUdp| <= RULE_ENTRIES
      && |xdp.bans.feeds| <= FEED_ENTRIES
      && Canonical(fromTcpKeys) && Canonical(fromUdpKeys)
      && (forall c :: c in feedNets ==> c.IsPrefix())
    }

    /** No feed node outside the mirror: true at all times, whatever did not fit. */
    ghost predicate FeedsInside()
      reads this`feedNets, xdp`bans
    {
      xdp.bans.feeds <= NodesOf(feedNets, FeedNode)
    }

    /** The maps are what the mirrors say. A failed apply can end this, and only through the tries. */
    ghost predicate InSync()
      reads this, xdp
    {
      Holds(xdp.rules, Mirror())
    }

    ghost predicate FeedsInSync()
      reads this, xdp
    {
      xdp.bans.feeds == NodesOf(feedNets, FeedNode)
    }

    method LoadPorts(tcp: set<u16>, udp: set<u16>)
      modifies this`openTcp, this`openUdp, xdp`rules
      ensures openTcp == tcp && openUdp == udp
      ensures xdp.rules == old(xdp.rules).(tcpAllow := xdp.rules.tcpAllow, udpAllow := xdp.rules.udpAllow)
      ensures old(ArrayIs(xdp.rules.tcpAllow, openTcp)) ==> ArrayIs(xdp.rules.tcpAllow, tcp)
      ensures old(ArrayIs(xdp.rules.udpAllow, openUdp)) ==> ArrayIs(xdp.rules.udpAllow, udp)
    {
      var t := SyncPorts(xdp.rules.tcpAllow, openTcp, tcp);
      var u := SyncPorts(xdp.rules.udpAllow, openUdp, udp);
      openTcp, openUdp, xdp.rules := tcp, udp, xdp.rules.(tcpAllow := t, udpAllow := u);
    }

    ghost predicate TriesInSync()
      reads this, xdp
    {
      xdp.rules.fromTcp == NodesOf(fromTcpKeys, RuleNode) && xdp.rules.fromUdp == NodesOf(fromUdpKeys, RuleNode)
    }

    /** Room for what an update to this compiled policy would make of the tries. */
    ghost predicate Fits(want: Compiled)
      reads this`fromTcpKeys, this`fromUdpKeys, xdp`rules
    {
      BothFit(TriesOf(xdp.rules), NodesFor(fromTcpKeys, fromUdpKeys), NodesFor(want.fromTcp, want.fromUdp))
    }

    /** No residue in the tries that an update to this compiled policy would leave behind. */
    ghost predicate CleanFor(want: Compiled)
      reads this`fromTcpKeys, this`fromUdpKeys, xdp`rules
    {
      BothClean(TriesOf(xdp.rules), NodesFor(fromTcpKeys, fromUdpKeys), NodesFor(want.fromTcp, want.fromUdp))
    }

    /** Both tries, TCP first; the second is not reached when the first overflows. */
    method LoadTries(want: Compiled) returns (r: Result<()>)
      requires WellKept() && Canonical(want.fromTcp) && Canonical(want.fromUdp)
      modifies this`fromTcpKeys, this`fromUdpKeys, xdp`rules
      ensures WellKept()
      ensures xdp.rules == old(xdp.rules).(fromTcp := xdp.rules.fromTcp, fromUdp := xdp.rules.fromUdp)
      ensures BothUpdated(
        TriesOf(old(xdp.rules)), NodesFor(old(fromTcpKeys), old(fromUdpKeys)), NodesFor(want.fromTcp, want.fromUdp),
        r.Ok?, TriesOf(xdp.rules), NodesFor(fromTcpKeys, fromUdpKeys))
      ensures r.Ok? ==> fromTcpKeys == want.fromTcp && fromUdpKeys == want.fromUdp
      ensures (r.Ok? <==> old(Fits(want))) && (r.Ok? ==> (TriesInSync() <==> old(CleanFor(want))))
      ensures old(TriesInSync()) ==> old(CleanFor(want))
      ensures old(TriesInSync()) ==> (r.Ok? <==> |want.fromTcp| <= RULE_ENTRIES && |want.fromUdp| <= RULE_ENTRIES)
    {
      hide Updated, RuleNode, Canonical, Synced, ArrayIs, RatesAre;
      var trie, keys;
      r, trie, keys := LoadTrie(xdp.rules.fromTcp, fromTcpKeys, want.fromTcp);
      fromTcpKeys, xdp.rules := keys, xdp.rules.(fromTcp := trie);
      if r.Ok? {
        r, trie, keys := LoadTrie(xdp.rules.fromUdp, fromUdpKeys, want.fromUdp);
        fromUdpKeys, xdp.rules := keys, xdp.rules.(fromUdp := trie);
      }
    }

    method LoadRates(rates: map<u16, u32>)
      modifies this`rateSet, xdp`rules
      ensures rateSet == rates && xdp.rules == old(xdp.rules).(tcpRate := xdp.rules.tcpRate)
      ensures old(RatesAre(xdp.rules.tcpRate, rateSet)) ==> RatesAre(xdp.rules.tcpRate, rates)
    {
      var m := SyncRates(xdp.rules.tcpRate, rateSet, rates);
      rateSet, xdp.rules := rates, xdp.rules.(tcpRate := m);
    }

    /** Everything compiled, in the order the daemon writes it. */
    method LoadCompiled(want: Compiled) returns (r: Result<()>)
      requires WellKept() && Canonical(want.fromTcp) && Canonical(want.fromUdp)
      modifies this`openTcp, this`openUdp, this`fromTcpKeys, this`fromUdpKeys, this`rateSet, xdp`rules
      ensures WellKept()
      ensures SameSettings(xdp.rules, old(xdp.rules))
      ensures BothUpdated(
        TriesOf(old(xdp.rules)), NodesFor(old(fromTcpKeys), old(fromUdpKeys)), NodesFor(want.fromTcp, want.fromUdp),
        r.Ok?, TriesOf(xdp.rules), NodesFor(fromTcpKeys, fromUdpKeys))
      ensures openTcp == want.tcp && openUdp == want.udp && rateSet == if r.Ok? then want.rates else old(rateSet)
      ensures r.Err? ==> xdp.rules.tcpRate == old(xdp.rules.tcpRate)
      ensures r.Ok? ==> Mirror() == want
      ensures (r.Ok? <==> old(Fits(want))) && (r.Ok? ==> (InSync() <==> old(CleanFor(want))))
      ensures old(InSync()) ==> old(CleanFor(want))
      ensures old(InSync()) ==> (r.Ok? <==> |want.fromTcp| <= RULE_ENTRIES && |want.fromUdp| <= RULE_ENTRIES)
    {
      hide BothUpdated, BothFit, BothClean;
      LoadPorts(want.tcp, want.udp);
      r := LoadTries(want);
      if r.Ok? {
        LoadRates(want.rates);
      }
    }

    /**
     * The kernel half of applying a configuration. It succeeds exactly when the policy compiles and what the updates
     * would make of the tries fits, and the maps are then a load from scratch exactly when the tries held no residue.
     * From maps in step with their mirrors: exactly when its restricted rules fit, and always. A failure at the tries
     * comes after the port arrays are written and before the rates are.
     */
    method LoadPolicy(cfg: Config, policy: Policy, ephemeralLow: u32) returns (r: Result<()>, ghost c: Compiled)
      requires WellKept()
      modifies this`openTcp, this`openUdp, this`fromTcpKeys, this`fromUdpKeys, this`rateSet, xdp`rules
      ensures WellKept()
      ensures xdp.rules.enforce == (cfg.mode == "enforce") && xdp.rules.ephemeralLow == ephemeralLow
      ensures xdp.rules.dropPing == !policy.allowPing && xdp.rules.udpStrict == old(xdp.rules.udpStrict)
      ensures policy.Compiles() ==> CompiledFor(policy, c)
      ensures !policy.Compiles() ==> r.Err? && Mirror() == old(Mirror()) && xdp.rules == old(xdp.rules).(
        enforce := cfg.Enforce(), ephemeralLow := ephemeralLow, dropPing := !policy.allowPing)
      ensures policy.Compiles() ==> BothUpdated(
        TriesOf(old(xdp.rules)), NodesFor(old(fromTcpKeys), old(fromUdpKeys)), NodesFor(c.fromTcp, c.fromUdp), r.Ok?,
        TriesOf(xdp.rules), NodesFor(fromTcpKeys, fromUdpKeys))
      ensures policy.Compiles() ==> openTcp == c.tcp && openUdp == c.udp
      ensures rateSet == if r.Ok? then c.rates else old(rateSet)
      ensures r.Err? ==> xdp.rules.tcpRate == old(xdp.rules.tcpRate)
      ensures r.Ok? <==> policy.Compiles() && old(Fits(c))
      ensures r.Ok? ==> Mirror() == c && (InSync() <==> old(CleanFor(c))) && (InSync() <==> Holds(xdp.rules, c))
      ensures old(InSync()) ==> old(CleanFor(c))
      ensures old(InSync()) && policy.Compiles() ==>
        (r.Ok? <==> |c.fromTcp| <= RULE_ENTRIES && |c.fromUdp| <= RULE_ENTRIES)
    {
      xdp.rules := xdp.rules.(enforce := cfg.Enforce(), ephemeralLow := ephemeralLow, dropPing := !policy.allowPing);
      var compiled := Compile(policy);
      if compiled.Err? {
        r, c := Err(compiled.error), Compiled({}, {}, {}, {}, map[]);
      } else {
        c := compiled.value;
        CompiledCanonical(policy, c);
        r := LoadCompiled(compiled.value);
      }
    }

    /**
     * Loads the feed networks. All the new ones go in exactly when what the trie would then hold fits; the trie is in
     * step afterwards exactly when they did and no network that stays wanted was missing before: one once skipped is
     * recorded as loaded and not tried again.
     */
    method LoadFeeds(nets: seq<Cidr>) returns (failed: nat)
      requires WellKept()
      requires forall i :: 0 <= i < |nets| ==> nets[i].IsPrefix()
      modifies this`feedNets, xdp`bans
      ensures WellKept() && feedNets == (set c | c in nets)
      ensures old(FeedsInside()) ==> FeedsInside()
      ensures xdp.bans.v4 == old(xdp.bans.v4) && xdp.bans.v6 == old(xdp.bans.v6)
      ensures failed == 0 <==>
        |Synced(old(xdp.bans.feeds), NodesOf(old(feedNets), FeedNode), NodesOf(feedNets, FeedNode))| <= 131072
      ensures old(FeedsInside()) ==> (FeedsInSync() <==>
        failed == 0 && NodesOf(old(feedNets) * feedNets, FeedNode) <= old(xdp.bans.feeds))
      ensures old(FeedsInSync()) ==> (FeedsInSync() <==> |feedNets| <= 131072)
    {
      hide ArrayIs, RatesAre, Fed, Canonical, Synced, NodesOf, FeedNode, Distinct;
      var wanted := set c | c in nets;
      FeedsDistinct(feedNets + wanted);
      assert forall c :: c in wanted ==> c.IsPrefix();
      hide Cidr.IsPrefix;
      var trie, keys;
      ghost var added;
      trie, keys, failed, added := SyncFeeds(xdp.bans.feeds, feedNets, wanted, FEED_ENTRIES);
      feedNets, xdp.bans := keys, xdp.bans.(feeds := trie);
    }
  }

  lemma CompiledCanonical(policy: Policy, c: Compiled)
    requires CompiledFor(policy, c)
    ensures Canonical(c.fromTcp) && Canonical(c.fromUdp)
  {
    forall e | e in c.fromTcp ensures exists p: u16, net: Cidr :: net.IsPrefix() && e == RuleEntry(p, net) {
      var p, net := EntriesAreCanonical(policy, true, e);
    }
    forall e | e in c.fromUdp ensures exists p: u16, net: Cidr :: net.IsPrefix() && e == RuleEntry(p, net) {
      var p, net := EntriesAreCanonical(policy, false, e);
    }
  }

  lemma HitsIsTrieHit(entries: set<(nat, RuleKey)>, src: Src, port: u16)
    requires Canonical(entries)
    ensures AllowedFrom(NodesOf(entries, RuleNode), src, port) <==> TrieHit(entries, src, port)
  {
    if src.V4? {
      var key := KeyOf(port, src.ip);
      forall e | e in entries
        ensures NodeMatches(RULE_BITS, RuleNode(e), Word(key)) <==> RuleMatches(e.0, e.1, key)
      {
        var p: u16, net: Cidr :| net.IsPrefix() && e == RuleEntry(p, net);
      }
      if e :| e in entries && RuleMatches(e.0, e.1, key) {
        assert RuleNode(e) in NodesOf(entries, RuleNode);
      }
    }
  }

  /** End to end: what the kernel opens from maps holding a compiled policy is what the policy says. */
  lemma KernelMeansPolicy(policy: Policy, c: Compiled, r: Rules, proto: Proto, src: Src, port: u16)
    requires policy.Compiles() && CompiledFor(policy, c) && Holds(r, c)
    ensures PortOpen(r, proto, src, port) <==> PolicyOpens(policy, proto, src, port)
    ensures RateLimited(r, src, port) <==> src.V4? && exists k :: Limits(policy, k, port)
  {
    CompilePreservesMeaning(policy, c, proto, src, port);
    CompiledCanonical(policy, c);
    HitsIsTrieHit(c.fromTcp, src, port);
    HitsIsTrieHit(c.fromUdp, src, port);
    assert Slot(r.tcpAllow, port, 0) == if port in c.tcp then 1 else 0;
    assert Slot(r.udpAllow, port, 0) == if port in c.udp then 1 else 0;
    assert Slot(r.tcpRate, port, 0) == if port in c.rates then c.rates[port] else 0;
    LowestRateWins(policy, c, port);
  }

  /** The feed trie holding a set of networks drops exactly the sources inside one of them. */
  lemma FeedTrieMeansNetworks(nets: set<Cidr>, ip: u32)
    requires forall c :: c in nets ==> c.IsPrefix()
    ensures Hits(NodesOf(nets, FeedNode), FEED_BITS, ip) <==> exists c :: c in nets && c.Contains(ip)
  {
    forall c | c in nets ensures NodeMatches(FEED_BITS, FeedNode(c), ip) <==> c.Contains(ip) {
      FeedMatchIsContains(c, ip);
    }
    if c :| c in nets && c.Contains(ip) {
      assert FeedNode(c) in NodesOf(nets, FeedNode);
    }
  }

  /** The policy's own reading of a segment that reached it. */
  ghost predicate PolicyPasses(policy: Policy, p: Packet, reply: bool, over: bool)
    requires !p.NotIp? && p.l4.Segment?
  {
    var s := p.l4;
    match s.proto
    case Tcp =>
      && !Malformed(s.tcpFlags)
      && (OpensConnection(s.tcpFlags) ==> PolicyOpens(policy, Tcp, SourceOf(p), s.dstPort) && !over)
    case Udp => reply || PolicyOpens(policy, Udp, SourceOf(p), s.dstPort)
  }

  /** Whether the limiter would turn this opener away. */
  predicate WouldBeOver(r: Rules, m: Memory, p: Packet, now: u64)
    requires !p.NotIp? && p.l4.Segment?
  {
    OverRate(r, m, SourceOf(p), p.l4.dstPort, now, {}).1
  }

  /** The whole verdict, in terms of bans, the mode and the policy as written. */
  lemma VerdictIff(policy: Policy, c: Compiled, r: Rules, b: Bans, m: Memory, p: Packet, now: u64, forgets: set<nat>)
    requires policy.Compiles() && CompiledFor(policy, c) && Holds(r, c)
    ensures Inbound(r, b, m, p, now, forgets).1 == XdpPass <==>
      (p.NotIp? || (!Banned(b, p, now) && (!r.enforce || Fragmented(p) || p.l4.Unparsed?
        || (p.l4.Icmp? && !(EchoRequest(p) && r.dropPing))
        || (p.l4.Segment? && PolicyPasses(policy, p,
             Reply(m, p, now) || (!r.udpStrict && p.l4.dstPort >= r.ephemeralLow), WouldBeOver(r, m, p, now))))))
  {
    PingIsEcho(p);
    if !p.NotIp? && p.l4.Segment? {
      FlagsRead(p.l4.tcpFlags);
      KernelMeansPolicy(policy, c, r, p.l4.proto, SourceOf(p), p.l4.dstPort);
    }
  }
}
