/** The daemon's ban ledger: records beside the kernel blocklist, and the steps that keep them honest (daemon.rs). */
module Ledgers {
  import opened Words
  import opened Wrappers
  import opened Collections
  import opened Common
  import opened Cidrs
  import opened Configuration
  import opened Detectors
  import opened UdpFlows
  import opened BanStates
  import opened Persistence
  import BanNotices

  const RECENT_BANS: nat := 20

  datatype RecentBan = RecentBan(ban: Ban, enforced: bool)

  /** What the lock protects, as a value. */
  datatype Ledger = Ledger(
    detector: State,
    bans: map<Src, u64>,
    hasV6: bool,
    records: map<Src, BanRecord>,
    enforce: bool)

  predicate ProtectedIn(l: Ledger, x: Src) {
    Exempt(l.detector.protected, l.detector.protected6, x)
  }

  /** No automatic ban stands on a protected address. */
  ghost predicate NoProtectedAuto(l: Ledger) {
    forall x :: x in l.records && l.records[x].source == "auto" ==> !ProtectedIn(l, x)
  }

  function AutoRecord(ban: Ban): BanRecord {
    BanRecord(Detected(ban.reason, ban.ports), "auto", ban.strikes)
  }

  /** A ban from the detector, put into force when enforcing and when the kernel map takes it. */
  function Enacted(l: Ledger, ban: Ban, boot: u64): Ledger {
    if l.enforce && Fits(l.bans, l.hasV6, ban.ip) then
      l.(bans := l.bans[ban.ip := ExpiryFor(ban.secs, boot)], records := l.records[ban.ip := AutoRecord(ban)])
    else l
  }

  /** The last twenty bans, with one more. */
  function Latest(recent: seq<RecentBan>, b: RecentBan): seq<RecentBan> {
    (if |recent| == RECENT_BANS then recent[1..] else recent) + [b]
  }

  /** So what is remembered of a run of bans is the last twenty of them. */
  lemma LatestAreLastTwenty(bans: seq<RecentBan>, b: RecentBan)
    ensures var (before, all) := (bans[Max(0, |bans| - 20)..], bans + [b]);
      Latest(before, b) == all[Max(0, |all| - 20)..]
  {
  }

  function BanFor(l: Ledger, ev: PacketEvent, boot: u64): Option<Ban>
    requires l.detector.cfg.Valid()
  {
    DivShrinks(boot, NS_PER_SEC);
    Observed(l.detector, ev, boot / NS_PER_SEC).1
  }

  /** One event from the kernel: observed, and its ban enacted at once. */
  function Heard(l: Ledger, ev: PacketEvent, boot: u64): Ledger
    requires l.detector.cfg.Valid()
  {
    DivShrinks(boot, NS_PER_SEC);
    var (d, ban) := Observed(l.detector, ev, boot / NS_PER_SEC);
    if ban.None? then l.(detector := d)
    else Enacted(l.(detector := d), ban.value, boot)
  }

  /** Only unprotected sources are banned, each for its own events. */
  lemma BansAreOwn(s: State, ev: PacketEvent, now: nat)
    requires s.cfg.Valid()
    ensures var b := Observed(s, ev, now).1;
      b.Some? ==> b.value.ip == ev.src && !Exempt(s.protected, s.protected6, ev.src)
  {
    ProtectedIff(s.protected, s.protected6, ev.src);
  }

  /** Expired bans go, bans from elsewhere get a record, records without a ban go. */
  function Swept(l: Ledger, boot: u64): Ledger {
    var bans := map x | x in l.bans && Remaining(l.bans[x], boot).Some? :: l.bans[x];
    l.(bans := bans, records := map x | x in bans :: if x in l.records then l.records[x] else MANUAL)
  }

  function AutoProtected(records: map<Src, BanRecord>, protected: seq<Cidr>, protected6: seq<u64>): set<Src> {
    set x | x in records && records[x].source == "auto" && Protected(protected, protected6, x)
  }

  /** New protected addresses: forget their tracks, and lift automatic bans on them. */
  function Refreshed(l: Ledger, protected: seq<Cidr>, protected6: seq<u64>): Ledger {
    var lift := AutoProtected(l.records, protected, protected6);
    l.(detector := Reprotected(l.detector, protected, protected6), bans := l.bans - lift, records := l.records - lift)
  }

  /** `ai-firewall ban` and `unban` edit only the kernel blocklist. */
  function BannedByHand(l: Ledger, x: Src, secs: nat, boot: u64): Ledger {
    if Fits(l.bans, l.hasV6, x) then l.(bans := l.bans[x := ExpiryFor(secs, boot)]) else l
  }

  function UnbannedByHand(l: Ledger, x: Src): Ledger {
    l.(bans := l.bans - {x})
  }

  function StaleConfig(records: map<Src, BanRecord>, listed: set<Src>): set<Src> {
    set x | x in records && records[x].source == "config" && x !in listed
  }

  /** The map with one value for all of a set of sources. */
  function AllSet<V>(m: map<Src, V>, sources: set<Src>, v: V): map<Src, V> {
    m + map x | x in sources :: v
  }

  /**
   * Applying a configuration's ban half: settings change, listed addresses are banned forever, and earlier config
   * bans no longer listed are lifted. `done` are the listed addresses that got in before an insert failed.
   */
  function Configured(l: Ledger, cfg: DetectorConfig, bans: BanConfig, enforce: bool, listed: set<Src>,
                      done: set<Src>): Ledger {
    var stale := StaleConfig(l.records, listed);
    l.(detector := l.detector.(cfg := cfg, bans := bans), enforce := enforce,
       bans := AllSet(l.bans - stale, done, BAN_FOREVER), records := AllSet(l.records - stale, done, CONFIGURED))
  }

  datatype Step =
    | Hear(ev: PacketEvent, boot: u64)
    | PruneTracks(boot: u64)
    | Sweep(boot: u64)
    | Refresh(protected: seq<Cidr>, protected6: seq<u64>)
    | Configure(cfg: DetectorConfig, bans: BanConfig, enforce: bool, listed: set<Src>, done: set<Src>)
    | BanByHand(x: Src, secs: nat, boot: u64)
    | UnbanByHand(x: Src)

  predicate StepOk(s: Step) {
    s.Configure? ==> s.cfg.Valid() && s.bans.Valid() && s.done <= s.listed
  }

  function After(l: Ledger, s: Step): (l': Ledger)
    requires l.detector.cfg.Valid() && StepOk(s)
    ensures l'.detector.cfg.Valid()
  {
    match s
    case Hear(ev, boot) => Heard(l, ev, boot)
    case PruneTracks(boot) => DivShrinks(boot, NS_PER_SEC); l.(detector := Pruned(l.detector, boot / NS_PER_SEC))
    case Sweep(boot) => Swept(l, boot)
    case Refresh(p, p6) => Refreshed(l, p, p6)
    case Configure(cfg, bans, enforce, listed, done) => Configured(l, cfg, bans, enforce, listed, done)
    case BanByHand(x, secs, boot) => BannedByHand(l, x, secs, boot)
    case UnbanByHand(x) => UnbannedByHand(l, x)
  }

  /** Every step keeps automatic bans off protected addresses, and the detector sound. */
  lemma StepKeepsInvariant(l: Ledger, s: Step)
    requires Sound(l.detector) && NoProtectedAuto(l) && StepOk(s)
    ensures Sound(After(l, s).detector) && NoProtectedAuto(After(l, s))
  {
    match s
    case Hear(ev, boot) => HeardKeepsInvariant(l, ev, boot);
    case PruneTracks(boot) =>
      DivShrinks(boot, NS_PER_SEC);
      PrunedSound(l.detector, boot / NS_PER_SEC);
    case Sweep(boot) =>
    case Refresh(p, p6) => RefreshEstablishes(l, p, p6);
    case Configure(cfg, bans, enforce, listed, done) =>
    case BanByHand(x, secs, boot) =>
    case UnbanByHand(x) =>
  }

  lemma HeardKeepsInvariant(l: Ledger, ev: PacketEvent, boot: u64)
    requires Sound(l.detector) && NoProtectedAuto(l)
    ensures Sound(Heard(l, ev, boot).detector) && NoProtectedAuto(Heard(l, ev, boot))
  {
    DivShrinks(boot, NS_PER_SEC);
    var now := boot / NS_PER_SEC;
    ObservedSound(l.detector, ev, now);
    BansAreOwn(l.detector, ev, now);
    var (d, ban) := Observed(l.detector, ev, now);
    assert d.protected == l.detector.protected && d.protected6 == l.detector.protected6;
    assert NoProtectedAuto(l.(detector := d));
  }

  lemma RefreshClears(l: Ledger, protected: seq<Cidr>, protected6: seq<u64>)
    ensures NoProtectedAuto(Refreshed(l, protected, protected6))
  {
    forall x ensures Protected(protected, protected6, x) <==> Exempt(protected, protected6, x) {
      ProtectedIff(protected, protected6, x);
    }
  }

  /** A protection refresh establishes the invariant from any ledger. */
  lemma RefreshEstablishes(l: Ledger, protected: seq<Cidr>, protected6: seq<u64>)
    requires Sound(l.detector)
    ensures Sound(Refreshed(l, protected, protected6).detector) && NoProtectedAuto(Refreshed(l, protected, protected6))
  {
    SubsetCard(Refreshed(l, protected, protected6).detector.tracks.Keys, l.detector.tracks.Keys);
    RefreshClears(l, protected, protected6);
  }

  predicate StepsOk(steps: seq<Step>) {
    forall i :: 0 <= i < |steps| ==> StepOk(steps[i])
  }

  /** The ledger after a run of steps. */
  function AfterAll(l: Ledger, steps: seq<Step>): (l': Ledger)
    requires l.detector.cfg.Valid() && StepsOk(steps)
    ensures l'.detector.cfg.Valid()
  {
    if steps == [] then l else After(AfterAll(l, steps[..|steps| - 1]), steps[|steps| - 1])
  }

  /**
   * From the first protection refresh on, whatever is interleaved (events, sweeps, refreshes, configurations applied
   * in full or in part, bans and unbans by hand), no automatic ban ever stands on a protected address.
   */
  lemma {:induction false} NeverProtectedAuto(l: Ledger, steps: seq<Step>, first: nat)
    requires Sound(l.detector) && StepsOk(steps) && first < |steps| && steps[first].Refresh?
    ensures Sound(AfterAll(l, steps).detector) && NoProtectedAuto(AfterAll(l, steps))
  {
    var n := |steps| - 1;
    var m := AfterAll(l, steps[..n]);
    AlwaysSound(l, steps[..n]);
    if first == n {
      RefreshStep(m, steps[n]);
    } else {
      NeverProtectedAuto(l, steps[..n], first);
      StepKeepsInvariant(m, steps[n]);
    }
  }

  lemma RefreshStep(l: Ledger, s: Step)
    requires Sound(l.detector) && s.Refresh?
    ensures Sound(After(l, s).detector) && NoProtectedAuto(After(l, s))
  {
    RefreshEstablishes(l, s.protected, s.protected6);
  }

  lemma {:induction false} AlwaysSound(l: Ledger, steps: seq<Step>)
    requires Sound(l.detector) && StepsOk(steps)
    ensures Sound(AfterAll(l, steps).detector)
  {
    if steps != [] {
      var n := |steps| - 1;
      AlwaysSound(l, steps[..n]);
      SoundAfter(AfterAll(l, steps[..n]), steps[n]);
    }
  }

  lemma SoundAfter(l: Ledger, s: Step)
    requires Sound(l.detector) && StepOk(s)
    ensures Sound(After(l, s).detector)
  {
    match s
    case Hear(ev, boot) =>
      DivShrinks(boot, NS_PER_SEC);
      ObservedSound(l.detector, ev, boot / NS_PER_SEC);
    case PruneTracks(boot) =>
      DivShrinks(boot, NS_PER_SEC);
      PrunedSound(l.detector, boot / NS_PER_SEC);
    case Refresh(p, p6) => RefreshEstablishes(l, p, p6);
    case _ =>
  }

  /** A ban by hand holds from then on for its seconds, or for good when they are 0, and changes no other source's. */
  lemma HandBanHolds(l: Ledger, x: Src, secs: nat, boot: u64, y: Src, t: nat)
    requires l.detector.cfg.Valid() && Fits(l.bans, l.hasV6, x) && boot + secs * 1_000_000_000 <= U64_MAX
    ensures var l' := After(l, BanByHand(x, secs, boot));
      Live(l'.bans, y, t) <==>
        if y == x then secs == 0 || t < boot + secs * 1_000_000_000 else Live(l.bans, y, t)
  {
    if secs > 0 {
      ExpiryExactIff(secs, boot);
    }
  }

  /** An unban by hand lets the source in, and changes no other source's ban. */
  lemma HandUnbanLifts(l: Ledger, x: Src, y: Src, t: nat)
    requires l.detector.cfg.Valid()
    ensures var l' := After(l, UnbanByHand(x));
      Live(l'.bans, y, t) <==> y != x && Live(l.bans, y, t)
  {
  }

  /** The daemon's prune drops exactly the windows that are over by the clock, and touches no ban. */
  lemma PruneDropsFinished(l: Ledger, boot: u64, x: Src)
    requires l.detector.cfg.Valid()
    ensures var (l', now) := (After(l, PruneTracks(boot)), boot / 1_000_000_000);
      && l'.bans == l.bans && l'.records == l.records
      && (x in l'.detector.tracks <==>
          (x in l.detector.tracks && now - l.detector.tracks[x].windowStart < l.detector.cfg.windowSecs))
  {
  }

  /** Somebody asks for a ban of this source: by hand, or in the configuration. */
  predicate Asks(s: Step, x: Src) {
    (s.BanByHand? && s.x == x) || (s.Configure? && x in s.listed)
  }

  /** Out of enforcement what the detector says changes no ban and no record. */
  lemma MonitorHears(l: Ledger, ev: PacketEvent, boot: u64)
    requires l.detector.cfg.Valid() && !l.enforce
    ensures var l' := After(l, Hear(ev, boot));
      l'.bans == l.bans && l'.records == l.records && !l'.enforce
  {
  }

  /** When enforcing, a source the detector bans is out from then on, for the ban's seconds and no longer. */
  lemma EnforcedHears(l: Ledger, ev: PacketEvent, boot: u64, t: nat)
    requires l.detector.cfg.Valid() && l.detector.bans.Valid() && l.enforce && Fits(l.bans, l.hasV6, ev.src)
    requires BanFor(l, ev, boot).Some? && boot + BanFor(l, ev, boot).value.secs * 1_000_000_000 <= U64_MAX
    ensures var ban := BanFor(l, ev, boot).value;
      Live(After(l, Hear(ev, boot)).bans, ev.src, t) <==> t < boot + ban.secs * 1_000_000_000
  {
    DivShrinks(boot, NS_PER_SEC);
    BansAreOwn(l.detector, ev, boot / NS_PER_SEC);
    var b := BanFor(l, ev, boot).value;
    BanHasLength(l.detector, ev, boot / NS_PER_SEC);
    ExpiryExactIff(b.secs, boot);
  }

  lemma BanHasLength(s: State, ev: PacketEvent, now: nat)
    requires s.cfg.Valid() && s.bans.Valid() && Observed(s, ev, now).1.Some?
    ensures Observed(s, ev, now).1.value.secs >= 1
  {
    hide BanSecs;
    BanLasts(s.bans, Observed(s, ev, now).1.value.strikes);
  }

  /** Over any run out of enforcement nobody is banned but at somebody's asking. */
  lemma {:induction false} MonitorBansNobody(l: Ledger, steps: seq<Step>, x: Src)
    requires l.detector.cfg.Valid() && StepsOk(steps) && !l.enforce && x !in l.bans
    requires forall i :: 0 <= i < |steps| ==> !Asks(steps[i], x) && (steps[i].Configure? ==> !steps[i].enforce)
    ensures x !in AfterAll(l, steps).bans && !AfterAll(l, steps).enforce
  {
    if steps != [] {
      var n := |steps| - 1;
      MonitorBansNobody(l, steps[..n], x);
      if steps[n].Hear? {
        MonitorHears(AfterAll(l, steps[..n]), steps[n].ev, steps[n].boot);
      }
    }
  }

  /** A source nobody asked to ban: its ban has a record, and any record of it is the detector's. */
  predicate OnlyAuto(l: Ledger, x: Src) {
    (x in l.bans ==> x in l.records) && (x in l.records ==> l.records[x].source == "auto")
  }

  lemma StaysAuto(l: Ledger, s: Step, x: Src)
    requires l.detector.cfg.Valid() && StepOk(s) && OnlyAuto(l, x) && !Asks(s, x)
    ensures OnlyAuto(After(l, s), x)
  {
  }

  lemma {:induction false} OnlyAutoStands(l: Ledger, steps: seq<Step>, x: Src)
    requires l.detector.cfg.Valid() && StepsOk(steps) && OnlyAuto(l, x)
    requires forall i :: 0 <= i < |steps| ==> !Asks(steps[i], x)
    ensures OnlyAuto(AfterAll(l, steps), x)
  {
    if steps != [] {
      var n := |steps| - 1;
      OnlyAutoStands(l, steps[..n], x);
      StaysAuto(AfterAll(l, steps[..n]), steps[n], x);
    }
  }

  /**
   * A protected source is banned only at somebody's asking: over any run that has read the protected addresses, a
   * source protected at the end of it that nobody asked to ban, and that was not banned at the start, is not banned.
   */
  lemma ProtectedNotBanned(l: Ledger, steps: seq<Step>, first: nat, x: Src)
    requires Sound(l.detector) && StepsOk(steps) && first < |steps| && steps[first].Refresh?
    requires OnlyAuto(l, x) && forall i :: 0 <= i < |steps| ==> !Asks(steps[i], x)
    requires var d := AfterAll(l, steps).detector; Exempt(d.protected, d.protected6, x)
    ensures x !in AfterAll(l, steps).bans
  {
    NeverProtectedAuto(l, steps, first);
    OnlyAutoStands(l, steps, x);
  }

  /** A step that leaves a source's ban and its record as they are. */
  predicate Leaves(s: Step, x: Src, rec: BanRecord, expiry: u64) {
    match s
    case Hear(ev, _) => ev.src != x
    case PruneTracks(_) => true
    case Sweep(boot) => Remaining(expiry, boot).Some?
    case Refresh(p, p6) => rec.source == "auto" ==> !Exempt(p, p6, x)
    case Configure(_, _, _, listed, _) => rec.source != "config" && x !in listed
    case BanByHand(y, _, _) => y != x
    case UnbanByHand(y) => y != x
  }

  lemma LeftAsIs(l: Ledger, s: Step, x: Src)
    requires l.detector.cfg.Valid() && StepOk(s) && x in l.bans && x in l.records
    requires Leaves(s, x, l.records[x], l.bans[x])
    ensures var l' := After(l, s);
      x in l'.bans && x in l'.records && l'.bans[x] == l.bans[x] && l'.records[x] == l.records[x]
  {
    if s.Hear? {
      DivShrinks(s.boot, NS_PER_SEC);
      BansAreOwn(l.detector, s.ev, s.boot / NS_PER_SEC);
    }
  }

  /** A ban and its record stay as they are over any run of steps that leave them. */
  lemma {:induction false} BanStays(l: Ledger, steps: seq<Step>, x: Src)
    requires l.detector.cfg.Valid() && StepsOk(steps) && x in l.bans && x in l.records
    requires forall i :: 0 <= i < |steps| ==> Leaves(steps[i], x, l.records[x], l.bans[x])
    ensures var l' := AfterAll(l, steps);
      x in l'.bans && x in l'.records && l'.bans[x] == l.bans[x] && l'.records[x] == l.records[x]
  {
    if steps != [] {
      var n := |steps| - 1;
      BanStays(l, steps[..n], x);
      LeftAsIs(AfterAll(l, steps[..n]), steps[n], x);
    }
  }

  /**
   * An enacted ban keeps its source out until it ends, over any run in which nobody bans or unbans the source by hand,
   * protects it, lists it, hears from it, or sweeps after the end: then the kernel drops it at exactly the times
   * before the end.
   */
  lemma EnactedStaysBanned(l: Ledger, ban: Ban, boot: u64, steps: seq<Step>, t: nat)
    requires l.detector.cfg.Valid() && StepsOk(steps) && l.enforce && Fits(l.bans, l.hasV6, ban.ip)
    requires var e := ExpiryFor(ban.secs, boot);
      forall i :: 0 <= i < |steps| ==> Leaves(steps[i], ban.ip, AutoRecord(ban), e)
    ensures var e := ExpiryFor(ban.secs, boot);
      Live(AfterAll(Enacted(l, ban, boot), steps).bans, ban.ip, t) <==> e == BAN_FOREVER || t < e
  {
    var m := Enacted(l, ban, boot);
    assert m.detector == l.detector && ban.ip in m.bans && ban.ip in m.records;
    assert m.bans[ban.ip] == ExpiryFor(ban.secs, boot) && m.records[ban.ip] == AutoRecord(ban);
    hide Enacted, AfterAll, Fits, ExpiryFor, Leaves, AutoRecord;
    BanStays(m, steps, ban.ip);
  }

  /** Every ban has a record and every record a ban. */
  predicate Matched(l: Ledger) {
    l.records.Keys == l.bans.Keys
  }

  /** After a sweep records and bans match, none is over, and sweeping again at once changes nothing. */
  lemma SweepSettles(l: Ledger, boot: u64)
    ensures var s := Swept(l, boot);
      && Matched(s) && (forall x :: x in s.bans ==> Live(s.bans, x, boot))
      && Swept(s, boot) == s
  {
    var s := Swept(l, boot);
    assert Swept(s, boot).bans == s.bans;
    assert Swept(s, boot).records == s.records;
  }

  /** A sweep cannot be noticed by the kernel: then and later, exactly the same sources are dropped. */
  lemma SweepInvisibleToKernel(l: Ledger, boot: u64, x: Src, later: u64)
    requires boot <= later
    ensures Live(Swept(l, boot).bans, x, later) <==> Live(l.bans, x, later)
  {
  }

  /**
   * How often the ledger is swept does not matter: a sweep leaves the same bans and the same records, causes and
   * strikes included, whether or not it was swept before.
   */
  lemma {:induction false} EarlierSweepsInvisible(l: Ledger, boots: seq<u64>, boot: u64)
    requires forall i :: 0 <= i < |boots| ==> boots[i] <= boot
    ensures Swept(SweptAll(l, boots), boot) == Swept(l, boot)
  {
    if boots != [] {
      EarlierSweepsInvisible(l, boots[..|boots| - 1], boot);
      SweepsCompose(SweptAll(l, boots[..|boots| - 1]), boots[|boots| - 1], boot);
    }
  }

  function SweptAll(l: Ledger, boots: seq<u64>): Ledger {
    if boots == [] then l else Swept(SweptAll(l, boots[..|boots| - 1]), boots[|boots| - 1])
  }

  lemma SweepsCompose(l: Ledger, early: u64, late: u64)
    requires early <= late
    ensures Swept(Swept(l, early), late) == Swept(l, late)
  {
    assert Swept(Swept(l, early), late).bans == Swept(l, late).bans;
    assert Swept(Swept(l, early), late).records == Swept(l, late).records;
  }

  /**
   * When enforcement puts a ban in place it overwrites whatever stood there: the source is let back in earlier than
   * before exactly when the old ban was forever or ended later.
   */
  lemma EnactShortensIff(l: Ledger, ban: Ban, boot: u64)
    requires l.enforce && Fits(l.bans, l.hasV6, ban.ip) && ban.ip in l.bans
    requires ban.secs > 0 && ExpiryFor(ban.secs, boot) != BAN_FOREVER
    ensures (exists t: nat :: Live(l.bans, ban.ip, t) && !Live(Enacted(l, ban, boot).bans, ban.ip, t)) <==>
            l.bans[ban.ip] == BAN_FOREVER || l.bans[ban.ip] > ExpiryFor(ban.secs, boot)
  {
    var e := ExpiryFor(ban.secs, boot);
    assert !Live(Enacted(l, ban, boot).bans, ban.ip, e);
    if l.bans[ban.ip] == BAN_FOREVER || l.bans[ban.ip] > e {
      assert Live(l.bans, ban.ip, e);
    }
  }

  /** For one: a ban set by hand for good gives way to an automatic one of an hour. */
  lemma HourReplacesForever(l: Ledger, ban: Ban, boot: u64)
    requires l.enforce && ban.secs == 3600 && boot < 0x1000_0000_0000_0000
    requires ban.ip in l.bans && l.bans[ban.ip] == BAN_FOREVER && (ban.ip.V6? ==> l.hasV6)
    ensures var t := boot + 3600 * NS_PER_SEC;
      Live(l.bans, ban.ip, t) && !Live(Enacted(l, ban, boot).bans, ban.ip, t)
  {
    ExpiryExactIff(3600, boot);
  }

  lemma RestoreNone(bans: map<Src, u64>, records: map<Src, BanRecord>, saved: map<Src, SavedBan>, unix: u64, boot: u64)
    ensures RestoredBans(bans, saved, {}, unix, boot) == bans && RestoredRecords(records, saved, {}, unix) == records
  {
  }

  lemma RestoreOneBan(bans: map<Src, u64>, saved: map<Src, SavedBan>, done: set<Src>, x: Src, unix: u64, boot: u64)
    requires x in saved && x !in done
    ensures x in RestoredBans(bans, saved, done, unix, boot) <==> x in bans
    ensures RestoredBans(bans, saved, done + {x}, unix, boot) ==
      if SecsLeft(saved[x], unix).Some? && x !in bans
      then RestoredBans(bans, saved, done, unix, boot)[x := ExpiryFor(SecsLeft(saved[x], unix).value, boot)]
      else RestoredBans(bans, saved, done, unix, boot)
  {
  }

  lemma RestoreOneRecord(records: map<Src, BanRecord>, saved: map<Src, SavedBan>, done: set<Src>, x: Src, unix: u64)
    requires x in saved && x !in done
    ensures x in RestoredRecords(records, saved, done, unix) <==> x in records
    ensures RestoredRecords(records, saved, done + {x}, unix) ==
      if SecsLeft(saved[x], unix).Some?
          && x !in records then RestoredRecords(records, saved, done, unix)[x := saved[x].record]
      else RestoredRecords(records, saved, done, unix)
  {
  }

  /** A saved ban that is not over, on a source with no ban in the kernel. */
  predicate Due(bans: map<Src, u64>, saved: map<Src, SavedBan>, x: Src, unix: u64) {
    x in saved && x !in bans && SecsLeft(saved[x], unix).Some?
  }

  /** The kernel maps can take every saved ban that is due. */
  ghost predicate AllFit(bans: map<Src, u64>, hasV6: bool, saved: map<Src, SavedBan>, unix: u64, boot: u64) {
    && Bounded(RestoredBans(bans, saved, saved.Keys, unix, boot))
    && forall x :: Due(bans, saved, x, unix) && x.V6? ==> hasV6
  }

  /** Nothing is refused exactly when everything fits. */
  lemma NoneRefusedIff(bans: map<Src, u64>, bans': map<Src, u64>, hasV6: bool, saved: map<Src, SavedBan>,
                       refused: set<Src>, unix: u64, boot: u64)
    requires Bounded(bans') && refused <= saved.Keys
    requires bans' == RestoredBans(bans, saved, saved.Keys - refused, unix, boot)
    requires forall x :: x in refused ==> !Fits(bans', hasV6, x) && Due(bans, saved, x, unix)
    requires forall x :: x in bans' && x !in bans && x.V6? ==> hasV6
    ensures refused == {} <==> AllFit(bans, hasV6, saved, unix, boot)
  {
    var all := RestoredBans(bans, saved, saved.Keys, unix, boot);
    if x :| x in refused {
      assert bans'.Keys + {x} <= all.Keys && x !in bans';
      if AllFit(bans, hasV6, saved, unix, boot) {
        OneTooMany(bans', all, hasV6, x);
      }
    } else {
      assert saved.Keys - refused == saved.Keys;
      forall x | Due(bans, saved, x, unix) ensures x in bans' {
      }
    }
  }

  lemma OneTooMany(bans: map<Src, u64>, all: map<Src, u64>, hasV6: bool, x: Src)
    requires bans.Keys + {x} <= all.Keys && x !in bans && Bounded(all) && (x.V6? ==> hasV6)
    ensures Fits(bans, hasV6, x)
  {
    if x.V4? {
      FewerThan(V4Part(bans), V4Part(all), x);
    } else {
      FewerThan(V6Part(bans), V6Part(all), x);
    }
  }

  /** The offenders part way through a restore: those saved and no longer to do are back. */
  function PartOffenders(offenders: map<Src, Offender>, saved: map<Src, SavedOffender>, todo: set<Src>, unix: nat,
                         boot: u64)
    : map<Src, Offender>
  {
    offenders + map x | x in saved && x !in todo :: RestoredOffender(saved[x], unix, boot)
  }

  lemma OffendersNone(offenders: map<Src, Offender>, saved: map<Src, SavedOffender>, unix: nat, boot: u64)
    ensures PartOffenders(offenders, saved, saved.Keys, unix, boot) == offenders
    ensures PartOffenders(offenders, saved, {}, unix, boot) == RestoredOffenders(offenders, saved, unix, boot)
  {
  }

  lemma RestoreOneOffender(offenders: map<Src, Offender>, saved: map<Src, SavedOffender>, todo: set<Src>, x: Src,
                           unix: nat, boot: u64)
    requires x in saved && x in todo
    ensures PartOffenders(offenders, saved, todo - {x}, unix, boot) ==
            PartOffenders(offenders, saved, todo, unix, boot)[x := RestoredOffender(saved[x], unix, boot)]
  {
  }

  /** A source the kernel map refused stays refused while the map only grows. */
  lemma StillRefused(bans: map<Src, u64>, bans': map<Src, u64>, hasV6: bool, refused: set<Src>, x: Src)
    requires bans'.Keys == bans.Keys + {x} && x !in refused
    requires forall y :: y in refused ==> !Fits(bans, hasV6, y)
    ensures forall y :: y in refused ==> !Fits(bans', hasV6, y)
  {
    SubsetCard(V4Part(bans), V4Part(bans'));
    SubsetCard(V6Part(bans), V6Part(bans'));
  }

  lemma LiftedIff(records: map<Src, BanRecord>, lift: set<Src>)
    requires lift <= records.Keys
    ensures records - lift != records <==> lift != {}
  {
    if x :| x in lift {
      assert x !in records - lift;
    }
  }

  /** Once every listed address is in, the config records are exactly the listed addresses. */
  lemma ConfigRecordsAre(records: map<Src, BanRecord>, listed: set<Src>, x: Src)
    ensures var r := AllSet(records - StaleConfig(records, listed), listed, CONFIGURED);
      x in r && r[x].source == "config" <==> x in listed
  {
  }

  /** A saved config ban that is not over. */
  predicate StillConfig(b: SavedBan, unix: nat) {
    SecsLeft(b, unix).Some? && b.record.source == "config"
  }

  /** After a restart: the saved bans put back, save those the kernel refused, and every record and offender. */
  function Restored(l: Ledger, saved: Saved, refused: set<Src>, unix: nat, boot: u64): Ledger {
    l.(bans := RestoredBans(l.bans, saved.bans, saved.bans.Keys - refused, unix, boot),
       records := RestoredRecords(l.records, saved.bans, saved.bans.Keys, unix),
       detector := l.detector.(offenders := RestoredOffenders(l.detector.offenders, saved.offenders, unix, boot)))
  }

  /**
   * A start applies the configuration to an empty ledger, restores, and reads the protected addresses. Its config
   * records are then the listed addresses exactly when no saved config ban still to run is on an unlisted address.
   */
  lemma StartedConfigIff(saved: map<Src, SavedBan>, listed: set<Src>, protected: seq<Cidr>, protected6: seq<u64>,
                         unix: nat)
    ensures var back := RestoredRecords(AllSet(map[], listed, CONFIGURED), saved, saved.Keys, unix);
      var r := back - AutoProtected(back, protected, protected6);
      (forall x :: x in r && r[x].source == "config" <==> x in listed) <==>
      (forall x :: x in saved && StillConfig(saved[x], unix) ==> x in listed)
  {
    var back := RestoredRecords(AllSet(map[], listed, CONFIGURED), saved, saved.Keys, unix);
    var r := back - AutoProtected(back, protected, protected6);
    forall x
      ensures (x in r && r[x].source == "config") <==>
        (x in listed || (x in saved && StillConfig(saved[x], unix)))
    {
    }
  }

  /** The kernel's IPv4 map holds what stays and everything listed. */
  predicate RoomFor(l: Ledger, listed: set<Src>) {
    |V4Part(l.bans - StaleConfig(l.records, listed)) + listed| <= 65536
  }

  lemma V4After(bans: map<Src, u64>, done: set<Src>)
    requires forall x :: x in done ==> x.V4?
    ensures V4Part(AllSet(bans, done, BAN_FOREVER)) == V4Part(bans) + done
  {
  }

  lemma RefusedMeansFull(bans: map<Src, u64>, done: set<Src>, wanted: set<Src>, x: Src, hasV6: bool)
    requires done <= wanted && x in wanted && forall y :: y in wanted ==> y.V4?
    requires !Fits(AllSet(bans, done, BAN_FOREVER), hasV6, x)
    ensures |V4Part(bans) + wanted| > V4_ENTRIES
  {
    V4After(bans, done);
    FewerThan(V4Part(bans) + done, V4Part(bans) + wanted, x);
  }

  lemma AllInMeansRoom(bans: map<Src, u64>, wanted: set<Src>)
    requires Bounded(AllSet(bans, wanted, BAN_FOREVER)) && forall y :: y in wanted ==> y.V4?
    ensures |V4Part(bans) + wanted| <= V4_ENTRIES
  {
    V4After(bans, wanted);
  }

  lemma AddOne<V>(m: map<Src, V>, done: set<Src>, x: Src, v: V)
    ensures AllSet(m, done, v)[x := v] == AllSet(m, done + {x}, v)
  {
  }

  /** The address lies in a blocked network. */
  ghost predicate InBlocked(blocked: seq<Cidr>, x: Src) {
    x.V4? && exists i :: 0 <= i < |blocked| && blocked[i].Contains(x.ip)
  }

  /** Every address of every network, counted up from its start: the same addresses as the mask test finds. */
  method Addresses(blocked: seq<Cidr>) returns (listed: set<Src>)
    requires forall i :: 0 <= i < |blocked| ==> blocked[i].IsPrefix()
    ensures forall x :: x in listed ==> x.V4?
    ensures forall x :: x in listed <==> InBlocked(blocked, x)
  {
    listed := {};
    for i := 0 to |blocked|
      invariant forall x :: x in listed <==> InBlocked(blocked[..i], x)
    {
      var c := blocked[i];
      hide InBlocked, Cidr.IsPrefix, Cidr.Contains, Cidr.Bits, Span;
      NetworkFits(c);
      ContainsIsInterval(c, c.net);
      var size := (U32_MAX - c.mask) + 1;
      ghost var before := listed;
      for k: int := c.net to c.net + size
        invariant forall x :: x in listed <==> x in before || (x.V4? && c.net <= x.ip < k)
      {
        listed := listed + {V4(k)};
      }
      forall x ensures x in listed <==> InBlocked(blocked[..i + 1], x) {
        OneMoreBlocked(blocked, i, x);
      }
    }
    assert blocked[..|blocked|] == blocked;
  }

  lemma OneMoreBlocked(blocked: seq<Cidr>, i: nat, x: Src)
    requires i < |blocked| && blocked[i].IsPrefix()
    ensures var c := blocked[i];
      InBlocked(blocked[..i + 1], x) <==>
        InBlocked(blocked[..i], x) || (x.V4? && c.net <= x.ip < c.net + (U32_MAX - c.mask + 1))
  {
    if x.V4? {
      ContainsIsInterval(blocked[i], x.ip);
      BlockedSnoc(blocked, i, x);
    }
  }

  lemma BlockedSnoc(blocked: seq<Cidr>, i: nat, x: Src)
    requires i < |blocked| && x.V4?
    ensures InBlocked(blocked[..i + 1], x) <==> InBlocked(blocked[..i], x) || blocked[i].Contains(x.ip)
  {
    assert blocked[..i + 1] == blocked[..i] + [blocked[i]];
    if InBlocked(blocked[..i], x) {
      var k :| 0 <= k < i && blocked[..i][k].Contains(x.ip);
      assert blocked[..i + 1][k].Contains(x.ip);
    }
    if blocked[i].Contains(x.ip) {
      assert blocked[..i + 1][i].Contains(x.ip);
    }
  }

  class Shared {
    const detector: Detector
    const blocklist: Blocklist
    const notes: BanNotices.BanNotes
    var records: map<Src, BanRecord>
    var enforce: bool
    var recent: seq<RecentBan>
    var dirty: bool
    var notifyBans: bool

    constructor (detector: Detector, blocklist: Blocklist, notes: BanNotices.BanNotes, enforce: bool, notifyBans: bool)
      requires Sound(detector.St()) && notes.Valid() && blocklist.Valid()
      ensures this.detector == detector && this.blocklist == blocklist && this.notes == notes
      ensures records == map[] && this.enforce == enforce && this.notifyBans == notifyBans && recent == [] && !dirty
      ensures Valid()
    {
      this.detector, this.blocklist, this.notes := detector, blocklist, notes;
      records, this.enforce, recent, dirty, this.notifyBans := map[], enforce, [], false, notifyBans;
    }

    ghost predicate Valid()
      reads this, detector, notes, blocklist
    {
      Sound(detector.St()) && notes.Valid() && blocklist.Valid() && |recent| <= RECENT_BANS
    }

    function View(): Ledger
      reads this, detector, blocklist
    {
      Ledger(detector.St(), blocklist.bans, blocklist.hasV6, records, enforce)
    }

    /** Put a ban into force (or only note it, in monitor mode), and remember the last twenty. */
    method Enact(ban: Ban, boot: u64, item: BanNotices.Item)
      requires Valid()
      modifies this`records, this`recent, this`dirty, blocklist`bans, notes
      ensures Valid() && View() == Enacted(old(View()), ban, boot)
      ensures recent == Latest(old(recent), RecentBan(ban, enforce))
      ensures dirty == (old(dirty) || (enforce && Fits(old(blocklist.bans), blocklist.hasV6, ban.ip)))
      ensures notes.St() ==
        if enforce && notifyBans && Fits(old(blocklist.bans), blocklist.hasV6, ban.ip)
        then BanNotices.Pushed(old(notes.St()), item) else old(notes.St())
    {
      if enforce {
        var r := blocklist.Insert(ban.ip, ExpiryFor(ban.secs, boot));
        if r.Ok? {
          records := records[ban.ip := AutoRecord(ban)];
          dirty := true;
          if notifyBans {
            notes.Push(item);
          }
        }
      }
      if |recent| == RECENT_BANS {
        recent := recent[1..];
      }
      recent := recent + [RecentBan(ban, enforce)];
    }

    /** One event of the batch the reader drains under the lock. */
    method Hear(ev: PacketEvent, boot: u64, item: BanNotices.Item)
      requires Valid()
      modifies this`records, this`recent, this`dirty, blocklist`bans, notes, detector`tracks, detector`offenders
      ensures Valid() && View() == Heard(old(View()), ev, boot)
      ensures var ban := BanFor(old(View()), ev, boot);
        if ban.None? then dirty == old(dirty) && recent == old(recent) && notes.St() == old(notes.St())
        else
          var banned := enforce && Fits(old(blocklist.bans), blocklist.hasV6, ban.value.ip);
          && dirty == (old(dirty) || banned) && recent == Latest(old(recent), RecentBan(ban.value, enforce))
          && notes.St() == if banned && notifyBans then BanNotices.Pushed(old(notes.St()), item) else old(notes.St())
    {
      DivShrinks(boot, NS_PER_SEC);
      var ban := detector.Observe(ev, boot / NS_PER_SEC);
      if ban.Some? {
        Enact(ban.value, boot, item);
      }
    }

    /** New protected addresses take effect: tracks forgotten, automatic bans on them lifted. */
    method RefreshProtection(protected: seq<Cidr>, protected6: seq<u64>)
      requires Valid()
      modifies this`records, this`dirty, blocklist`bans, detector`protected, detector`protected6, detector`tracks
      ensures Valid() && View() == Refreshed(old(View()), protected, protected6)
      ensures dirty == (old(dirty) || records != old(records))
    {
      detector.SetProtected(protected, protected6);
      var lift := AutoProtected(records, protected, protected6);
      Lift(lift);
      LiftedIff(old(records), lift);
      if lift != {} {
        dirty := true;
      }
    }

    /** Takes a set of sources out of the blocklist and the records. */
    method Lift(stale: set<Src>)
      requires blocklist.Valid()
      modifies this`records, blocklist`bans
      ensures blocklist.Valid()
      ensures records == old(records) - stale && blocklist.bans == old(blocklist.bans) - stale
    {
      ghost var bans0, records0 := blocklist.bans, records;
      var todo := stale;
      while todo != {}
        invariant todo <= stale && blocklist.Valid()
        invariant blocklist.bans == bans0 - (stale - todo) && records == records0 - (stale - todo)
      {
        var x :| x in todo;
        assert stale - (todo - {x}) == (stale - todo) + {x};
        blocklist.Remove(x);
        records, todo := records - {x}, todo - {x};
      }
      assert stale - {} == stale;
    }

    /**
     * The ban half of applying a configuration, once its blocked networks are read. Stops at the first address the
     * kernel map refuses; `done` is what got in.
     */
    method ApplyBlocked(cfg: DetectorConfig, bans: BanConfig, enforce: bool, notifyBans: bool, blocked: seq<Cidr>)
      returns (r: Result<()>, ghost listed: set<Src>, ghost done: set<Src>)
      requires Valid() && cfg.Valid() && bans.Valid()
      requires forall i :: 0 <= i < |blocked| ==> blocked[i].IsPrefix()
      modifies this`records, this`enforce, this`notifyBans, this`dirty, blocklist`bans, detector`cfg, detector`bans
      ensures Valid() && forall x :: x in listed <==> InBlocked(blocked, x)
      ensures done <= listed && (r.Ok? ==> done == listed)
      ensures View() == Configured(old(View()), cfg, bans, enforce, listed, done)
      ensures r.Ok? <==> RoomFor(old(View()), listed)
      ensures this.notifyBans == notifyBans && dirty == (old(dirty) || r.Ok?)
    {
      hide Bounded, Sound, AllSet, StaleConfig, V4Part, InBlocked;
      Settle(cfg, bans, enforce, notifyBans);
      ghost var settled := View();
      var wanted := Addresses(blocked);
      listed := wanted;
      r, done := ReplaceConfigBans(wanted);
      assert View() == settled.(bans := blocklist.bans, records := records);
      if r.Ok? {
        dirty := true;
      }
    }

    /** The settings' part. */
    method Settle(cfg: DetectorConfig, bans: BanConfig, enforce: bool, notifyBans: bool)
      requires Valid() && cfg.Valid() && bans.Valid()
      modifies this`enforce, this`notifyBans, detector`cfg, detector`bans
      ensures Valid() && this.notifyBans == notifyBans
      ensures View() == old(View()).(detector := old(detector.St()).(cfg := cfg, bans := bans), enforce := enforce)
    {
      this.enforce, this.notifyBans := enforce, notifyBans;
      detector.Reconfigure(cfg, bans);
    }

    /** Lifts the config bans no longer wanted, and bans what is wanted for good. */
    method ReplaceConfigBans(wanted: set<Src>) returns (r: Result<()>, ghost done: set<Src>)
      requires blocklist.Valid() && forall x :: x in wanted ==> x.V4?
      modifies this`records, blocklist`bans
      ensures blocklist.Valid() && done <= wanted && (r.Ok? ==> done == wanted)
      ensures var stale := StaleConfig(old(records), wanted);
        && blocklist.bans == AllSet(old(blocklist.bans) - stale, done, BAN_FOREVER)
        && records == AllSet(old(records) - stale, done, CONFIGURED)
        && (r.Ok? <==> |V4Part(old(blocklist.bans) - stale) + wanted| <= V4_ENTRIES)
    {
      var stale := StaleConfig(records, wanted);
      Lift(stale);
      r, done := BanAll(wanted);
    }

    /** Bans all of a set of IPv4 addresses for good, exactly when the kernel map has room for them. */
    method BanAll(wanted: set<Src>) returns (r: Result<()>, ghost done: set<Src>)
      requires blocklist.Valid() && forall x :: x in wanted ==> x.V4?
      modifies this`records, blocklist`bans
      ensures blocklist.Valid() && (r.Ok? <==> |V4Part(old(blocklist.bans)) + wanted| <= V4_ENTRIES)
      ensures done <= wanted && (r.Ok? ==> done == wanted)
      ensures blocklist.bans == AllSet(old(blocklist.bans), done, BAN_FOREVER)
      ensures records == AllSet(old(records), done, CONFIGURED)
    {
      hide Fits, Bounded, V4Part;
      ghost var bans0, records0 := blocklist.bans, records;
      done := {};
      var todo := wanted;
      while todo != {}
        invariant todo <= wanted && done == wanted - todo && blocklist.Valid()
        invariant blocklist.bans == AllSet(bans0, done, BAN_FOREVER)
        invariant records == AllSet(records0, done, CONFIGURED)
      {
        var x :| x in todo;
        r := blocklist.Insert(x, BAN_FOREVER);
        if r.Err? {
          RefusedMeansFull(bans0, done, wanted, x, blocklist.hasV6);
          return;
        }
        AddOne(bans0, done, x, BAN_FOREVER);
        AddOne(records0, done, x, CONFIGURED);
        records := records[x := CONFIGURED];
        todo, done := todo - {x}, done + {x};
      }
      assert done == wanted;
      AllInMeansRoom(bans0, done);
      r := Ok(());
    }

    /** Saved bans not over go back, unless one stands or the kernel map refuses; their records in any case. */
    method RestoreBans(saved: map<Src, SavedBan>, unix: u64, boot: u64) returns (ghost refused: set<Src>)
      requires blocklist.Valid()
      modifies this`records, blocklist`bans
      ensures blocklist.Valid()
      ensures records == RestoredRecords(old(records), saved, saved.Keys, unix)
      ensures blocklist.bans == RestoredBans(old(blocklist.bans), saved, saved.Keys - refused, unix, boot)
      ensures refused <= saved.Keys && forall x :: x in refused ==> !Fits(blocklist.bans, blocklist.hasV6, x)
      ensures forall x :: x in refused ==> Due(old(blocklist.bans), saved, x, unix)
      ensures forall x :: x in blocklist.bans && x !in old(blocklist.bans) && x.V6? ==> blocklist.hasV6
    {
      hide Bounded, RestoredBans, RestoredRecords, Fits;
      ghost var bans0, records0 := blocklist.bans, records;
      var todo := saved.Keys;
      ghost var placed: set<Src>;
      refused, placed := {}, {};
      RestoreNone(bans0, records0, saved, unix, boot);
      assert saved.Keys - saved.Keys == {};
      while todo != {}
        invariant todo <= saved.Keys && blocklist.Valid()
        invariant refused !! placed && refused !! todo && placed !! todo && refused + placed + todo == saved.Keys
        invariant blocklist.bans == RestoredBans(bans0, saved, placed, unix, boot)
        invariant records == RestoredRecords(records0, saved, saved.Keys - todo, unix)
        invariant forall x :: x in refused ==> !Fits(blocklist.bans, blocklist.hasV6, x) && Due(bans0, saved, x, unix)
        invariant forall x :: x in blocklist.bans && x !in bans0 && x.V6? ==> blocklist.hasV6
      {
        var x :| x in todo;
        var secs := SecsLeft(saved[x], unix);
        RestoreOneBan(bans0, saved, placed, x, unix, boot);
        RestoreOneRecord(records0, saved, saved.Keys - todo, x, unix);
        assert saved.Keys - (todo - {x}) == (saved.Keys - todo) + {x};
        var fits := true;
        if secs.Some? && x !in blocklist.bans {
          fits := PutBack(x, ExpiryFor(secs.value, boot), refused);
        }
        if secs.Some? && x !in records {
          records := records[x := saved[x].record];
        }
        todo := todo - {x};
        if fits {
          placed := placed + {x};
        } else {
          refused := refused + {x};
        }
      }
      assert saved.Keys - {} == saved.Keys;
      assert placed == saved.Keys - refused;
    }

    method PutBack(x: Src, expiry: u64, ghost refused: set<Src>) returns (ok: bool)
      requires x !in refused && forall y :: y in refused ==> !Fits(blocklist.bans, blocklist.hasV6, y)
      requires blocklist.Valid()
      modifies blocklist`bans
      ensures blocklist.Valid()
      ensures blocklist.bans == if ok then old(blocklist.bans)[x := expiry] else old(blocklist.bans)
      ensures !ok ==> !Fits(blocklist.bans, blocklist.hasV6, x)
      ensures ok && x.V6? ==> blocklist.hasV6
      ensures forall y :: y in refused ==> !Fits(blocklist.bans, blocklist.hasV6, y)
    {
      ghost var before := blocklist.bans;
      var r := blocklist.Insert(x, expiry);
      ok := r.Ok?;
      if ok {
        StillRefused(before, blocklist.bans, blocklist.hasV6, refused, x);
      }
    }

    /**
     * After a restart: saved bans not over go back with the time they had left, bans still in the kernel stay as they
     * are, and offenders keep their strikes.
     */
    method Restore(saved: Saved, unix: u64, boot: u64) returns (ghost refused: set<Src>)
      requires Valid()
      modifies this`records, blocklist`bans, detector`offenders
      ensures Valid() && View() == Restored(old(View()), saved, refused, unix, boot)
      ensures refused <= saved.bans.Keys && forall x :: x in refused ==> !Fits(blocklist.bans, blocklist.hasV6, x)
      ensures refused == {} <==> AllFit(old(blocklist.bans), blocklist.hasV6, saved.bans, unix, boot)
    {
      ghost var bans0 := blocklist.bans;
      refused := RestoreBans(saved.bans, unix, boot);
      NoneRefusedIff(bans0, blocklist.bans, blocklist.hasV6, saved.bans, refused, unix, boot);
      RestoreOffenders(saved.offenders, unix, boot);
    }

    method RestoreOffenders(saved: map<Src, SavedOffender>, unix: u64, boot: u64)
      requires Sound(detector.St())
      modifies detector`offenders
      ensures Sound(detector.St())
      ensures detector.offenders == RestoredOffenders(old(detector.offenders), saved, unix, boot)
    {
      ghost var offenders0 := detector.offenders;
      var todo := saved.Keys;
      OffendersNone(offenders0, saved, unix, boot);
      while todo != {}
        invariant todo <= saved.Keys && Sound(detector.St())
        invariant detector.offenders == PartOffenders(offenders0, saved, todo, unix, boot)
      {
        var x :| x in todo;
        RestoreOneOffender(offenders0, saved, todo, x, unix, boot);
        detector.RestoreOffender(x, RestoredOffender(saved[x], unix, boot));
        todo := todo - {x};
      }
    }

    /** The sweep's pass over the kernel's entries: drop the expired, give the others a record. */
    method SweepEntries(boot: u64)
      requires blocklist.Valid()
      modifies this`records, this`dirty, blocklist`bans
      ensures blocklist.Valid() && blocklist.bans == PartBans(old(blocklist.bans), {}, boot)
      ensures records == PartRecords(old(blocklist.bans), old(records), {}, boot)
      ensures dirty == (old(dirty) || UnsettledBans(old(View()), boot))
    {
      ghost var before := View();
      var entries := blocklist.bans;
      var todo := entries.Keys;
      SweepNone(entries, records, boot);
      while todo != {}
        invariant todo <= entries.Keys && blocklist.Valid()
        invariant blocklist.bans == PartBans(entries, todo, boot)
        invariant records == PartRecords(entries, before.records, todo, boot)
        invariant dirty == (old(dirty) || exists x :: x in entries && x !in todo && Unsettled(before, x, boot))
      {
        var x :| x in todo;
        SweepOne(entries, before.records, todo, x, boot);
        if Remaining(entries[x], boot).None? {
          assert Unsettled(before, x, boot);
          blocklist.Remove(x);
          records := records - {x};
          dirty := true;
        } else if x !in records {
          assert Unsettled(before, x, boot);
          records := records[x := MANUAL];
          dirty := true;
        }
        todo := todo - {x};
      }
    }

    /** Expires bans and picks up changes made by hand. */
    method Sweep(boot: u64)
      requires Valid()
      modifies this`records, this`dirty, blocklist`bans
      ensures Valid() && View() == Swept(old(View()), boot)
      ensures dirty == (old(dirty) || View() != old(View()))
    {
      hide Swept, PartBans, PartRecords, Retained, UnsettledBans, Sound, Bounded;
      ghost var before := View();
      var present := blocklist.bans.Keys;
      SweepEntries(boot);
      var size := |records|;
      var kept := Retained(records, present);
      SweepOutcome(before, records, kept, boot);
      records := kept;
      if |kept| != size {
        dirty := true;
      }
      assert View() == before.(bans := PartBans(before.bans, {}, boot), records := kept);
    }
  }

  /** The blocklist part way through a sweep: expired entries already visited are gone. */
  function PartBans(entries: map<Src, u64>, todo: set<Src>, boot: u64): map<Src, u64> {
    map x | x in entries && (x in todo || Remaining(entries[x], boot).Some?) :: entries[x]
  }

  /** The records part way through: those of expired entries visited are gone, other entries visited have one. */
  function PartRecords(entries: map<Src, u64>, records: map<Src, BanRecord>, todo: set<Src>, boot: u64): map<Src,
                       BanRecord> {
    map x | x in records.Keys + entries.Keys
            && (if x in entries && x !in todo then Remaining(entries[x], boot).Some? else x in records)
      :: if x in records then records[x] else MANUAL
  }

  lemma SweepNone(entries: map<Src, u64>, records: map<Src, BanRecord>, boot: u64)
    ensures PartBans(entries, entries.Keys, boot) == entries
    ensures PartRecords(entries, records, entries.Keys, boot) == records
  {
  }

  lemma SweepOne(entries: map<Src, u64>, records: map<Src, BanRecord>, todo: set<Src>, x: Src, boot: u64)
    requires x in todo && todo <= entries.Keys
    ensures PartBans(entries, todo - {x}, boot) ==
      if Remaining(entries[x], boot).None? then PartBans(entries, todo, boot) - {x} else PartBans(entries, todo, boot)
    ensures x in PartRecords(entries, records, todo, boot) <==> x in records
    ensures PartRecords(entries, records, todo - {x}, boot) ==
      if Remaining(entries[x], boot).None? then PartRecords(entries, records, todo, boot) - {x}
      else if x !in records then PartRecords(entries, records, todo, boot)[x := MANUAL]
      else PartRecords(entries, records, todo, boot)
  {
  }

  /** A source a sweep has something to do about. */
  predicate Unsettled(l: Ledger, x: Src, boot: u64) {
    if x in l.bans then Remaining(l.bans[x], boot).None? || x !in l.records else x in l.records
  }

  function Retained(records: map<Src, BanRecord>, present: set<Src>): map<Src, BanRecord> {
    map x | x in records && x in present :: records[x]
  }

  ghost predicate UnsettledBans(l: Ledger, boot: u64) {
    exists x :: x in l.bans && Unsettled(l, x, boot)
  }

  lemma SettledIff(l: Ledger, boot: u64)
    ensures Swept(l, boot) != l <==> exists x :: Unsettled(l, x, boot)
  {
    var s := Swept(l, boot);
    if x :| Unsettled(l, x, boot) {
      assert (x in s.bans) != (x in l.bans) || (x in s.records) != (x in l.records);
    } else {
      forall x ensures (x in s.bans <==> x in l.bans) && (x in s.records <==> x in l.records) {
        assert !Unsettled(l, x, boot);
      }
      assert s.bans == l.bans && s.records == l.records;
    }
  }

  lemma SweepOutcome(l: Ledger, middle: map<Src, BanRecord>, kept: map<Src, BanRecord>, boot: u64)
    requires middle == PartRecords(l.bans, l.records, {}, boot)
    requires kept == Retained(middle, l.bans.Keys)
    ensures l.(bans := PartBans(l.bans, {}, boot), records := kept) == Swept(l, boot)
    ensures UnsettledBans(l, boot) || |kept| != |middle| <==> Swept(l, boot) != l
  {
    assert PartBans(l.bans, {}, boot) == Swept(l, boot).bans && kept == Swept(l, boot).records;
    RetainedCount(l, middle, kept, boot);
    SettledIff(l, boot);
  }

  /** Dropping records changes their number exactly when one had no entry in the blocklist. */
  lemma RetainedCount(l: Ledger, middle: map<Src, BanRecord>, kept: map<Src, BanRecord>, boot: u64)
    requires middle == PartRecords(l.bans, l.records, {}, boot)
    requires kept == Retained(middle, l.bans.Keys)
    ensures |kept| != |middle| <==> exists x :: x !in l.bans && Unsettled(l, x, boot)
  {
    SubsetCard(kept.Keys, middle.Keys);
    assert |kept| == |kept.Keys| && |middle| == |middle.Keys|;
    forall x ensures x in middle.Keys && x !in kept.Keys <==> x !in l.bans && Unsettled(l, x, boot) {
    }
    if forall x :: x in middle.Keys ==> x in kept.Keys {
      assert kept.Keys == middle.Keys;
    }
  }
}
