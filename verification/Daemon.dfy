/** The daemon's parts together: applying a configuration, and what its ban ledger means for packets (daemon.rs). */
module Daemon {
  import opened Words
  import opened Wrappers
  import opened Collections
  import opened Common
  import opened Cidrs
  import opened Configuration
  import opened Compiler
  import opened UdpFlows
  import opened XdpFilter
  import opened RuleKeys
  import opened Loader
  import opened Feeds
  import opened Detectors
  import opened BanStates
  import opened Persistence
  import opened Ledgers

  /** An address in one of a configuration's blocked networks. */
  ghost predicate ListedIn(cfg: Config, x: Src) {
    x.V4? && exists i ::
      0 <= i < |cfg.blocked| && ParseCidr(cfg.blocked[i]).Ok? && ParseCidr(cfg.blocked[i]).value.Contains(x.ip)
  }

  /** The records and the blocklist carry exactly a configuration's blocked networks as config bans, for good. */
  ghost predicate ConfigBansAre(l: Ledger, cfg: Config) {
    && (forall x :: x in l.records && l.records[x].source == "config" <==> ListedIn(cfg, x))
    && (forall x :: ListedIn(cfg, x) ==> x in l.bans && l.bans[x] == BAN_FOREVER)
  }

  /** The addresses of a configuration's blocked networks. */
  ghost predicate ListedAre(cfg: Config, listed: set<Src>) {
    forall x :: x in listed <==> ListedIn(cfg, x)
  }

  /**
   * The ban half for a valid configuration. When the ban map is full the settings have changed, earlier config bans no
   * longer listed are lifted and only the addresses in `done` are banned, and the state is not marked for saving.
   */
  method ApplyBans(cfg: Config, s: Shared) returns (r: Result<()>, ghost listed: set<Src>, ghost done: set<Src>)
    requires cfg.Valid() && s.Valid()
    modifies s`records, s`enforce, s`notifyBans, s`dirty, s.blocklist`bans, s.detector`cfg, s.detector`bans
    ensures s.Valid() && s.detector.cfg == cfg.detector && s.detector.bans == cfg.bans
    ensures s.enforce == (cfg.mode == "enforce")
    ensures ListedAre(cfg, listed) && (r.Ok? <==> RoomFor(old(s.View()), listed))
    ensures r.Ok? ==> ConfigBansAre(s.View(), cfg)
    ensures done <= listed && (r.Ok? ==> done == listed)
    ensures s.View() == Configured(old(s.View()), cfg.detector, cfg.bans, cfg.Enforce(), listed, done)
    ensures s.notifyBans == cfg.notifyBans && s.dirty == (old(s.dirty) || r.Ok?)
  {
    var blocked := ParseAll(cfg.blocked).value;
    BlockedArePrefixes(cfg, blocked);
    ghost var before := s.View();
    r, listed, done := s.ApplyBlocked(cfg.detector, cfg.bans, cfg.Enforce(), cfg.notifyBans, blocked);
    if r.Ok? {
      ConfiguredIsListed(before, cfg, listed);
    }
  }

  lemma ConfiguredIsListed(l: Ledger, cfg: Config, listed: set<Src>)
    requires forall x :: x in listed <==> ListedIn(cfg, x)
    ensures ConfigBansAre(Configured(l, cfg.detector, cfg.bans, cfg.Enforce(), listed, listed), cfg)
  {
    forall x {
      ConfigRecordsAre(l.records, listed, x);
    }
  }

  predicate TriesHold(c: Compiled) {
    |c.fromTcp| <= 4096 && |c.fromUdp| <= 4096
  }

  /** The kernel half for a valid configuration under a profile. */
  method LoadConfig(cfg: Config, profile: Option<string>, ephemeralLow: u32, k: Kernel)
    returns (r: Result<()>, ghost c: Compiled)
    requires cfg.Valid() && k.WellKept()
    modifies k`openTcp, k`openUdp, k`fromTcpKeys, k`fromUdpKeys, k`rateSet, k.xdp`rules
    ensures k.WellKept() && CompiledFor(cfg.PolicyFor(profile), c)
    ensures k.xdp.rules.enforce == (cfg.mode == "enforce") && k.xdp.rules.dropPing == !cfg.PolicyFor(profile).allowPing
    ensures r.Ok? <==> old(k.Fits(c))
    ensures r.Ok? ==> k.Mirror() == c && (k.InSync() <==> old(k.CleanFor(c))) && (k.InSync() <==> Holds(k.xdp.rules, c))
    ensures old(k.InSync()) ==> (r.Ok? <==> TriesHold(c)) && (r.Ok? ==> k.InSync())
  {
    hide BothUpdated, Holds, CompiledFor, BothFit, BothClean;
    ValidPolicies(cfg, profile);
    r, c := k.LoadPolicy(cfg, cfg.PolicyFor(profile), ephemeralLow);
  }

  /**
   * Applying a valid configuration, whatever earlier applies left. It succeeds exactly when what the updates would make
   * of the tries fits and the blocked addresses fit the ban map. Then the config bans are exactly those addresses, and
   * the rule maps are a load of its policy from scratch exactly when the tries held no residue. From maps in step with
   * their mirrors that is: exactly when its restricted rules fit the tries, and always. A policy that does not fit
   * stops it before the bans are touched.
   */
  method ApplyConfig(cfg: Config, profile: Option<string>, ephemeralLow: u32, k: Kernel, s: Shared)
    returns (r: Result<()>, ghost c: Compiled, ghost listed: set<Src>, ghost done: set<Src>)
    requires cfg.Valid() && k.WellKept() && s.Valid()
    modifies k`openTcp, k`openUdp, k`fromTcpKeys, k`fromUdpKeys, k`rateSet, k.xdp`rules
    modifies s`records, s`enforce, s`notifyBans, s`dirty, s.blocklist`bans, s.detector`cfg, s.detector`bans
    ensures k.WellKept() && s.Valid() && CompiledFor(cfg.PolicyFor(profile), c)
    ensures k.xdp.rules.enforce == (cfg.mode == "enforce") && k.xdp.rules.dropPing == !cfg.PolicyFor(profile).allowPing
    ensures ListedAre(cfg, listed) && (r.Ok? <==> old(k.Fits(c)) && RoomFor(old(s.View()), listed))
    ensures r.Ok? ==> ConfigBansAre(s.View(), cfg)
    ensures done <= listed && (r.Ok? ==> done == listed) && s.dirty == (old(s.dirty) || r.Ok?)
    ensures s.View() ==
      if old(k.Fits(c)) then Configured(old(s.View()), cfg.detector, cfg.bans, cfg.Enforce(), listed, done)
      else old(s.View())
    ensures s.notifyBans == if old(k.Fits(c)) then cfg.notifyBans else old(s.notifyBans)
    ensures old(k.Fits(c)) ==> k.Mirror() == c
    ensures old(k.Fits(c)) ==> (k.InSync() <==> old(k.CleanFor(c))) && (k.InSync() <==> Holds(k.xdp.rules, c))
    ensures old(k.InSync()) ==> (old(k.Fits(c)) <==> TriesHold(c)) && (TriesHold(c) ==> k.InSync())
  {
    hide BothUpdated, Holds, CompiledFor, BothFit, BothClean, Configured, ConfigBansAre, ListedAre, RoomFor;
    hide Config.Valid, Sound, Bounded, ArrayIs, RatesAre;
    r, c := LoadConfig(cfg, profile, ephemeralLow, k);
    if r.Ok? {
      r, listed, done := ApplyBans(cfg, s);
    } else {
      listed := BlockedSet(cfg);
      done := {};
    }
  }

  ghost method BlockedSet(cfg: Config) returns (listed: set<Src>)
    requires cfg.Valid()
    ensures ListedAre(cfg, listed)
  {
    var blocked := ParseAll(cfg.blocked).value;
    BlockedArePrefixes(cfg, blocked);
    listed := set ip: u32 | exists i :: 0 <= i < |blocked| && blocked[i].Contains(ip) :: V4(ip);
  }

  /** Every address listed is banned for good, and the config bans are those exactly when none saved is unlisted. */
  ghost predicate StartedFrom(l: Ledger, cfg: Config, saved: Saved, unix: nat) {
    && (forall x :: ListedIn(cfg, x) ==> x in l.bans && l.bans[x] == BAN_FOREVER)
    && ((forall x :: x in l.records && l.records[x].source == "config" <==> ListedIn(cfg, x)) <==>
        (forall x :: x in saved.bans && StillConfig(saved.bans[x], unix) ==> ListedIn(cfg, x)))
  }

  /**
   * Starting up: the configuration, the saved bans, the protected addresses. The listed addresses are banned for good
   * and no automatic ban stands on a protected one. A config ban saved before its address was taken out of the file is
   * back, and the ledger's config bans are the listed addresses exactly when there is none; the next apply lifts it.
   */
  method StartUp(cfg: Config, profile: Option<string>, ephemeralLow: u32, k: Kernel, s: Shared, saved: Saved, unix: u64,
                 boot: u64, protected: seq<Cidr>, protected6: seq<u64>)
    returns (r: Result<()>)
    requires cfg.Valid() && k.WellKept() && s.Valid() && s.records == map[]
    modifies k`openTcp, k`openUdp, k`fromTcpKeys, k`fromUdpKeys, k`rateSet, k.xdp`rules
    modifies s`records, s`enforce, s`notifyBans, s`dirty, s.blocklist`bans, s.detector`cfg, s.detector`bans
    modifies s.detector`offenders, s.detector`protected, s.detector`protected6, s.detector`tracks
    ensures k.WellKept() && s.Valid()
    ensures r.Ok? ==> NoProtectedAuto(s.View()) && StartedFrom(s.View(), cfg, saved, unix)
  {
    hide StartedFrom, ListedAre, RoomFor, Configured, Restored, Refreshed, ConfigBansAre, NoProtectedAuto;
    hide Holds, CompiledFor, BothFit, BothClean;
    ghost var c, listed, done, refused;
    ghost var l := s.View();
    r, c, listed, done := ApplyConfig(cfg, profile, ephemeralLow, k, s);
    if r.Ok? {
      refused := s.Restore(saved, unix, boot);
      s.RefreshProtection(protected, protected6);
      StartedIs(l, cfg, saved, listed, refused, unix, boot, protected, protected6);
    }
  }

  /** The ledger once started. */
  function Started(l: Ledger, cfg: Config, saved: Saved, listed: set<Src>, refused: set<Src>, unix: nat, boot: u64,
                   protected: seq<Cidr>, protected6: seq<u64>): Ledger {
    var l1 := Configured(l, cfg.detector, cfg.bans, cfg.Enforce(), listed, listed);
    Refreshed(Restored(l1, saved, refused, unix, boot), protected, protected6)
  }

  lemma StartedIs(l: Ledger, cfg: Config, saved: Saved, listed: set<Src>, refused: set<Src>, unix: nat, boot: u64,
                  protected: seq<Cidr>, protected6: seq<u64>)
    requires l.records == map[] && ListedAre(cfg, listed)
    ensures var s := Started(l, cfg, saved, listed, refused, unix, boot, protected, protected6);
      NoProtectedAuto(s) && StartedFrom(s, cfg, saved, unix)
  {
    var s := Started(l, cfg, saved, listed, refused, unix, boot, protected, protected6);
    StartedRecords(l, cfg, saved, listed, refused, unix, boot, protected, protected6);
    hide Started, RestoredRecords, AllSet, AutoProtected, NoProtectedAuto, ListedIn, StillConfig;
    StartedConfigIff(saved.bans, listed, protected, protected6, unix);
    forall x | ListedIn(cfg, x) ensures x in s.bans && s.bans[x] == BAN_FOREVER {
      ListedStays(l, cfg, saved, listed, refused, unix, boot, protected, protected6, x);
    }
  }

  lemma StartedRecords(l: Ledger, cfg: Config, saved: Saved, listed: set<Src>, refused: set<Src>, unix: nat, boot: u64,
                       protected: seq<Cidr>, protected6: seq<u64>)
    requires l.records == map[]
    ensures var s := Started(l, cfg, saved, listed, refused, unix, boot, protected, protected6);
      var back := RestoredRecords(AllSet(map[], listed, CONFIGURED), saved.bans, saved.bans.Keys, unix);
      NoProtectedAuto(s) && s.records == back - AutoProtected(back, protected, protected6)
  {
    var l1 := Configured(l, cfg.detector, cfg.bans, cfg.Enforce(), listed, listed);
    assert l.records - StaleConfig(l.records, listed) == map[];
    RefreshClears(Restored(l1, saved, refused, unix, boot), protected, protected6);
  }

  lemma ListedStays(l: Ledger, cfg: Config, saved: Saved, listed: set<Src>, refused: set<Src>, unix: nat, boot: u64,
                    protected: seq<Cidr>, protected6: seq<u64>, x: Src)
    requires x in listed
    ensures var s := Started(l, cfg, saved, listed, refused, unix, boot, protected, protected6);
      x in s.bans && s.bans[x] == BAN_FOREVER
  {
  }

  /** 20.0.0.0/20 and the sixteen networks of that size after it. */
  function SeventeenNets(): seq<CidrText> {
    seq(17, i requires 0 <= i < 17 => CidrText(Some(0x1400_0000 + i * 0x1000), Some(Some(20))))
  }

  lemma NetOfSeventeen(i: nat, ip: u32)
    requires i < 17
    ensures ParseCidr(SeventeenNets()[i]).Ok? && ParseCidr(SeventeenNets()[i]).value.Bits() == 20
    ensures 0x1400_0000 + i * 0x1000 <= ip < 0x1400_0000 + (i + 1) * 0x1000 ==>
      ParseCidr(SeventeenNets()[i]).value.Contains(ip)
  {
    var start := 0x1400_0000 + i * 0x1000;
    var c := ParseCidr(SeventeenNets()[i]).value;
    ParsedIsPrefix(SeventeenNets()[i]);
    assert Span(20) == 0x1000 by {
      assert Pow2(12) == 0x1000;
    }
    MaskedIs(start, 20);
    DivUnique(start, 0x1000, 0x1_4000 + i, 0);
    ContainsIsInterval(c, ip);
  }

  function Run(base: u32, n: nat): set<Src> {
    set ip: u32 | base <= ip < base + n :: V4(ip)
  }

  lemma {:induction false} RunCount(base: u32, n: nat)
    requires base + n <= U32_MAX
    ensures |Run(base, n)| == n
  {
    if n == 0 {
      assert Run(base, 0) == {};
    } else {
      RunCount(base, n - 1);
      assert Run(base, n) == Run(base, n - 1) + {V4(base + n - 1)};
    }
  }

  lemma SeventeenValid(cfg: Config)
    requires cfg.Valid()
    ensures cfg.(blocked := SeventeenNets()).Valid()
  {
    var nets := SeventeenNets();
    forall i | 0 <= i < 17 ensures ParseCidr(nets[i]).Ok? && ParseCidr(nets[i]).value.Bits() >= 20 {
      NetOfSeventeen(i, 0);
    }
  }

  lemma SeventeenListed(cfg: Config, x: Src)
    requires x in Run(0x1400_0000, 17 * 0x1000)
    ensures ListedIn(cfg.(blocked := SeventeenNets()), x)
  {
    var i := (x.ip - 0x1400_0000) / 0x1000;
    NetOfSeventeen(i, x.ip);
  }

  /** Nor does validation count blocked addresses: seventeen /20 networks are valid, and never fit the ban map. */
  lemma BlockedCanOverflow(cfg: Config, l: Ledger, listed: set<Src>)
    requires cfg.Valid() && ListedAre(cfg.(blocked := SeventeenNets()), listed)
    ensures cfg.(blocked := SeventeenNets()).Valid() && !RoomFor(l, listed)
  {
    hide ListedIn, Config.Valid, Run;
    SeventeenValid(cfg);
    forall x | x in Run(0x1400_0000, 17 * 0x1000) ensures x in listed {
      SeventeenListed(cfg, x);
    }
    RunCount(0x1400_0000, 17 * 0x1000);
    SubsetCard(Run(0x1400_0000, 17 * 0x1000), V4Part(l.bans - StaleConfig(l.records, listed)) + listed);
  }

  /** Loading the feeds, however much of them fits: no reserved or protected source is dropped afterwards. */
  method ApplyFeeds(lists: seq<seq<CidrText>>, protected: seq<Cidr>, k: Kernel) returns (failed: nat)
    requires k.WellKept() && k.FeedsInside() && AllPrefixes(protected)
    modifies k`feedNets, k.xdp`bans
    ensures k.WellKept() && k.FeedsInside()
    ensures k.xdp.bans == old(k.xdp.bans).(feeds := k.xdp.bans.feeds)
    ensures forall ip: u32 :: Spared(protected, ip) ==> !Hits(k.xdp.bans.feeds, FEED_BITS, ip)
  {
    var nets := Load(lists, protected);
    LoadedArePrefixes(nets, lists, protected);
    failed := k.LoadFeeds(nets);
    forall ip: u32 | Spared(protected, ip) ensures !Hits(k.xdp.bans.feeds, FEED_BITS, ip) {
      FeedsSpareProtected(nets, lists, protected, k.xdp.bans.feeds, ip);
    }
  }

  lemma LoadedArePrefixes(nets: seq<Cidr>, lists: seq<seq<CidrText>>, protected: seq<Cidr>)
    requires forall c :: c in nets <==> exists i :: 0 <= i < |lists| && Listed(lists[i], protected, c)
    ensures forall c :: c in nets ==> c.IsPrefix()
  {
    forall c | c in nets ensures c.IsPrefix() {
      var i :| 0 <= i < |lists| && Listed(lists[i], protected, c);
      ListedIsPrefix(lists[i], protected, c);
    }
  }

  lemma BlockedArePrefixes(cfg: Config, blocked: seq<Cidr>)
    requires cfg.Valid() && ParseAll(cfg.blocked) == Ok(blocked)
    ensures forall i :: 0 <= i < |blocked| ==> blocked[i].IsPrefix()
    ensures forall x :: InBlocked(blocked, x) <==> ListedIn(cfg, x)
  {
    forall i | 0 <= i < |blocked| ensures blocked[i].IsPrefix() {
      ParsedIsPrefix(cfg.blocked[i]);
    }
    forall x ensures InBlocked(blocked, x) <==> ListedIn(cfg, x) {
      if ListedIn(cfg, x) {
        var i :| 0 <= i < |cfg.blocked| && ParseCidr(cfg.blocked[i]).Ok?
            && ParseCidr(cfg.blocked[i]).value.Contains(x.ip);
        assert blocked[i].Contains(x.ip);
      }
    }
  }

  /** The two kernel ban maps hold what the blocklist shows as one. */
  ghost predicate SameBans(b: Bans, bans: map<Src, u64>) {
    && (forall ip: u32 :: ip in b.v4 <==> V4(ip) in bans)
    && (forall ip: u32 :: ip in b.v4 ==> b.v4[ip] == bans[V4(ip)])
    && (forall p: u64 :: p in b.v6 <==> V6(p) in bans)
    && (forall p: u64 :: p in b.v6 ==> b.v6[p] == bans[V6(p)])
  }

  lemma BannedIsLive(b: Bans, bans: map<Src, u64>, p: Packet, now: u64)
    requires SameBans(b, bans) && !p.NotIp?
    ensures Banned(b, p, now) <==> Live(bans, SourceOf(p), now) || (p.Ip4? && Hits(b.feeds, 32, p.src))
    ensures Live(bans, SourceOf(p), now) <==>
      SourceOf(p) in bans && (bans[SourceOf(p)] == 0 || now < bans[SourceOf(p)])
  {
  }

  /**
   * Monitor mode drops nobody: whatever the detector has said over a run under configurations in monitor mode, a packet
   * from a source that nobody asked to ban passes, if no feed lists it.
   */
  lemma MonitorDropsNobody(cfg: Config, l: Ledger, steps: seq<Ledgers.Step>, r: Rules, b: Bans, m: Memory, p: Packet,
                           now: u64, forgets: set<nat>)
    requires cfg.mode == "monitor" && r.enforce == cfg.Enforce()
    requires l.detector.cfg.Valid() && StepsOk(steps) && !l.enforce
    requires forall i :: 0 <= i < |steps| && steps[i].Configure? ==> !steps[i].enforce
    requires SameBans(b, AfterAll(l, steps).bans)
    requires !p.NotIp? && SourceOf(p) !in l.bans && forall i :: 0 <= i < |steps| ==> !Asks(steps[i], SourceOf(p))
    requires p.Ip4? ==> !Hits(b.feeds, FEED_BITS, p.src)
    ensures Inbound(r, b, m, p, now, forgets).1 == XdpPass
  {
    MonitorBansNobody(l, steps, SourceOf(p));
    BannedIsLive(b, AfterAll(l, steps).bans, p, now);
    MonitorDropsOnlyBanned(r, b, m, p, now, forgets);
  }

  /** Nor does any ban, once the protected addresses are read, drop a protected source that nobody asked to ban. */
  lemma ProtectedNotDropped(l: Ledger, steps: seq<Ledgers.Step>, first: nat, b: Bans, p: Packet, now: u64)
    requires Sound(l.detector) && StepsOk(steps) && first < |steps| && steps[first].Refresh?
    requires !p.NotIp? && OnlyAuto(l, SourceOf(p)) && forall i :: 0 <= i < |steps| ==> !Asks(steps[i], SourceOf(p))
    requires var d := AfterAll(l, steps).detector; Exempt(d.protected, d.protected6, SourceOf(p))
    requires SameBans(b, AfterAll(l, steps).bans) && (p.Ip4? ==> !Hits(b.feeds, FEED_BITS, p.src))
    ensures !Banned(b, p, now)
  {
    ProtectedNotBanned(l, steps, first, SourceOf(p));
    BannedIsLive(b, AfterAll(l, steps).bans, p, now);
  }

  /** A sweep changes no verdict and no memory of the kernel program, on any packet, then or later. */
  lemma SweepChangesNoVerdict(l: Ledger, boot: u64, r: Rules, b: Bans, b': Bans, m: Memory, p: Packet, now: u64,
                              forgets: set<nat>)
    requires boot <= now && SameBans(b, l.bans) && SameBans(b', Swept(l, boot).bans) && b.feeds == b'.feeds
    ensures Inbound(r, b, m, p, now, forgets) == Inbound(r, b', m, p, now, forgets)
  {
    if !p.NotIp? {
      BannedIsLive(b, l.bans, p, now);
      BannedIsLive(b', Swept(l, boot).bans, p, now);
      SweepInvisibleToKernel(l, boot, SourceOf(p), now);
    }
  }

  /**
   * Once the protected addresses have been read, whatever has happened since, a sweep leaves no packet from a
   * protected source dropped because of an automatic ban: any live ban on one is recorded as made by other means.
   */
  lemma ProtectedNeverAutoBanned(l: Ledger, steps: seq<Ledgers.Step>, first: nat, boot: u64, x: Src)
    requires Sound(l.detector) && StepsOk(steps) && first < |steps| && steps[first].Refresh?
    requires ProtectedIn(AfterAll(l, steps), x)
    ensures var s := Swept(AfterAll(l, steps), boot);
      Live(s.bans, x, boot) ==> x in s.records && s.records[x].source != "auto"
  {
    NeverProtectedAuto(l, steps, first);
    SweepSettles(AfterAll(l, steps), boot);
  }
}
