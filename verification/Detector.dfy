/**
 * The threat detector: per-source scores over a short window, escalating bans (detector.rs). Scores are exact
 * rationals.
 */
module Detectors {
  import opened Words
  import opened Wrappers
  import opened Collections
  import opened Common
  import opened Cidrs
  import opened Configuration

  /** Upper bound on sources tracked at once. */
  const MAX_TRACKED: nat := 16384
  const ODD_LIMIT: nat := 3

  datatype Track = Track(
    windowStart: nat, syn: nat, udp: nat, drops: nat, odd: nat, ports: seq<u16>, udpSeen: bool, tcpSeen: bool)

  const DEFAULT_TRACK: Track := Track(0, 0, 0, 0, 0, [], false, false)

  datatype Offender = Offender(strikes: nat, lastBan: nat)

  datatype Reason = ConnectionFlood | PortScan | UdpFlood | ClosedPorts | StealthScan

  /** The protocols seen, the first four ports probed, and how many more. */
  datatype PortSummary = PortSummary(proto: string, first: seq<u16>, more: nat)

  datatype Ban = Ban(ip: Src, secs: nat, strikes: nat, score: real, reason: Reason, ports: PortSummary)

  /** What the detector knows about one source. */
  datatype SourceState = SourceState(track: Option<Track>, offender: Option<Offender>)

  datatype State = State(
    cfg: DetectorConfig,
    bans: BanConfig,
    protected: seq<Cidr>,
    protected6: seq<u64>,
    tracks: map<Src, Track>,
    offenders: map<Src, Offender>)

  predicate Protected(protected: seq<Cidr>, protected6: seq<u64>, src: Src) {
    match src
    case V4(ip) => exists i :: 0 <= i < |protected| && protected[i].Contains(ip)
    case V6(p) => p / 0x40_0000_0000_0000 == 0x3fa || p in protected6
  }

  /** An IPv4 address in a protected network, or a /64 that is protected or link-local (fe80::/10). */
  predicate Exempt(protected: seq<Cidr>, protected6: seq<u64>, src: Src) {
    match src
    case V4(ip) => exists c :: c in protected && c.Contains(ip)
    case V6(p) => 0xfe80_0000_0000_0000 <= p < 0xfec0_0000_0000_0000 || p in protected6
  }

  lemma ProtectedIff(protected: seq<Cidr>, protected6: seq<u64>, src: Src)
    ensures Protected(protected, protected6, src) <==> Exempt(protected, protected6, src)
  {
  }

  predicate Stale(t: Track, now: nat, window: nat) {
    SatSub(now, t.windowStart) >= window
  }

  /** The track an event is counted in: the one kept, or a new one when there is none or its window is over. */
  function CurrentTrack(ot: Option<Track>, now: nat, window: nat): Track {
    var t := if ot.Some? then ot.value else DEFAULT_TRACK;
    if Stale(t, now, window) then DEFAULT_TRACK.(windowStart := now) else t
  }

  /** The one counter an event adds to: UDP, else odd flags, else a connection opener. */
  predicate CountsOdd(ev: PacketEvent) {
    ev.protocol != Udp && ev.IsOdd()
  }

  predicate CountsSyn(ev: PacketEvent) {
    ev.protocol != Udp && !ev.IsOdd() && ev.IsSyn()
  }

  function Bit(b: bool): nat {
    if b then 1 else 0
  }

  /** Count one event. */
  function Tally(cfg: DetectorConfig, t: Track, ev: PacketEvent): Track {
    Track(t.windowStart,
          t.syn + Bit(CountsSyn(ev)), t.udp + Bit(ev.protocol == Udp), t.drops + Bit(ev.verdict == DropPolicy),
          t.odd + Bit(CountsOdd(ev)),
          if |t.ports| <= cfg.portLimit && ev.dstPort !in t.ports then t.ports + [ev.dstPort] else t.ports,
          t.udpSeen || ev.protocol == Udp, t.tcpSeen || ev.protocol != Udp)
  }

  function Ratio(n: int, limit: int): real
    requires limit > 0
  {
    n as real / limit as real
  }

  /** Each signal as a fraction of its limit, in the order the reasons are listed. */
  function Signals(cfg: DetectorConfig, t: Track): (s: seq<real>)
    requires cfg.Valid()
    ensures |s| == 5
  {
    [Ratio(t.syn, cfg.synLimit), Ratio(|t.ports|, cfg.portLimit), Ratio(t.udp, cfg.udpLimit),
     Ratio(t.drops, cfg.dropLimit), Ratio(t.odd, ODD_LIMIT)]
  }

  /** The sum of the signals, less one port: one port is normal traffic. */
  function Score(cfg: DetectorConfig, t: Track): real
    requires cfg.Valid()
  {
    var s := Signals(cfg, t);
    s[0] + s[1] + s[2] + s[3] + s[4] - Ratio(1, cfg.portLimit)
  }

  const REASONS: seq<Reason> := [ConnectionFlood, PortScan, UdpFlood, ClosedPorts, StealthScan]

  /** The last of the largest values, as `max_by` picks it. */
  function LastMax(s: seq<real>): (k: nat)
    requires s != []
    ensures k < |s|
    ensures forall i :: 0 <= i < |s| ==> s[i] <= s[k] && (i > k ==> s[i] < s[k])
  {
    if |s| == 1 then 0
    else
      var n := |s| - 1;
      var k := LastMax(s[..n]);
      assert forall i :: 0 <= i < n ==> s[i] == s[..n][i];
      if s[n] >= s[k] then n else k
  }

  function Summary(t: Track): PortSummary {
    var proto := if t.tcpSeen && t.udpSeen then "tcp/udp" else if t.udpSeen then "udp" else "tcp";
    var n := Min(4, |t.ports|);
    PortSummary(proto, t.ports[..n], |t.ports| - n)
  }

  /** The ban length for a strike: base, doubled per earlier strike (20 times at most), up to the maximum. */
  function BanSecs(bans: BanConfig, strikes: nat): u64 {
    var shift := Min(strikes - 1, 20);
    var factor := if shift >= 0 then Pow2(shift) else 1;
    Pow2Small(shift);
    Min(SatMul64(bans.baseSecs, factor), bans.maxSecs)
  }

  lemma BanLasts(bans: BanConfig, strikes: nat)
    requires bans.Valid()
    ensures BanSecs(bans, strikes) >= 1
  {
    var shift := Min(strikes - 1, 20);
    var factor: int := if shift >= 0 then Pow2(shift) else 1;
    MulOrder(1, factor, bans.baseSecs);
  }

  lemma Pow2Small(n: int)
    requires n <= 20
    ensures n >= 0 ==> Pow2(n) <= 0x10_0000
  {
    if n >= 0 {
      Pow2Monotone(n, 20);
      Pow2Values();
    }
  }

  /** One more strike, counted from none when the last ban is forgiven. */
  function Struck(bans: BanConfig, o: Option<Offender>, now: nat): Offender {
    var before := if o.Some? && SatSub(now, o.value.lastBan) <= bans.forgiveSecs then o.value.strikes else 0;
    Offender(before + 1, now)
  }

  /** One event of one unprotected source, seen from what is known about that source alone. */
  function Alone(cfg: DetectorConfig, bans: BanConfig, st: SourceState, ev: PacketEvent, now: nat): (SourceState,
                 Option<Ban>)
    requires cfg.Valid()
  {
    var t := Tally(cfg, CurrentTrack(st.track, now, cfg.windowSecs), ev);
    var score := Score(cfg, t);
    if score < 1.0 then (SourceState(Some(t), st.offender), None)
    else
      var o := Struck(bans, st.offender, now);
      var reason := REASONS[LastMax(Signals(cfg, t))];
      (SourceState(None, Some(o)), Some(Ban(ev.src, BanSecs(bans, o.strikes), o.strikes, score, reason, Summary(t))))
  }

  function Put<K, V>(m: map<K, V>, k: K, v: Option<V>): map<K, V> {
    if v.Some? then m[k := v.value] else m - {k}
  }

  function Pruned(s: State, now: nat): State {
    var keep := SatAdd64(s.bans.forgiveSecs, s.bans.maxSecs);
    s.(tracks := map x | x in s.tracks && !Stale(s.tracks[x], now, s.cfg.windowSecs) :: s.tracks[x],
       offenders := map x | x in s.offenders && SatSub(now, s.offenders[x].lastBan) <= keep :: s.offenders[x])
  }

  /** New protected addresses; what was counted of them is forgotten. */
  function Reprotected(s: State, protected: seq<Cidr>, protected6: seq<u64>): State {
    s.(protected := protected, protected6 := protected6,
       tracks := map x | x in s.tracks && !Protected(protected, protected6, x) :: s.tracks[x])
  }

  function WithSource(s: State, ip: Src, st: SourceState): State {
    s.(tracks := Put(s.tracks, ip, st.track), offenders := Put(s.offenders, ip, st.offender))
  }

  function Known(s: State, ip: Src): SourceState {
    SourceState(Lookup(s.tracks, ip), Lookup(s.offenders, ip))
  }

  /** One event: the new state, and a ban when the source's score reaches 1. */
  function Observed(s: State, ev: PacketEvent, now: nat): (State, Option<Ban>)
    requires s.cfg.Valid()
  {
    var ip := ev.src;
    if Protected(s.protected, s.protected6, ip) then (s, None)
    else
      var full := |s.tracks| >= MAX_TRACKED && ip !in s.tracks;
      var s1 := if full then Pruned(s, now) else s;
      if full && |s1.tracks| >= MAX_TRACKED then (s1, None)
      else
        var (st, ban) := Alone(s.cfg, s.bans, Known(s1, ip), ev, now);
        (WithSource(s1, ip, st), ban)
  }

  /** Counters that can still be incremented in 32 bits, and a bounded table. */
  ghost predicate Sound(s: State) {
    && s.cfg.Valid() && s.bans.Valid()
    && |s.tracks| <= MAX_TRACKED
    && forall x :: x in s.tracks ==> Countable(s.tracks[x])
  }

  predicate Countable(t: Track) {
    t.syn < U32_MAX && t.udp < U32_MAX && t.drops < U32_MAX && t.odd < U32_MAX
  }

  lemma RatioBelowOne(n: int, limit: int, rest: real)
    requires limit > 0 && rest >= 0.0 && Ratio(n, limit) + rest < 1.0
    ensures n < limit
  {
    if n >= limit {
      RatioAtLeastOne(n, limit);
    }
  }

  lemma RatioAtLeastOne(n: int, limit: int)
    requires n >= limit > 0
    ensures Ratio(n, limit) >= 1.0
  {
  }

  lemma RatioNonNegative(n: nat, limit: int)
    requires limit > 0
    ensures Ratio(n, limit) >= 0.0
  {
  }

  lemma RatioSum(n: int, m: int, limit: int)
    requires limit > 0
    ensures Ratio(n, limit) - Ratio(m, limit) == Ratio(n - m, limit)
  {
  }

  /** Below a score of 1 every counter is strictly below its limit, and at most `portLimit` ports are listed. */
  lemma BelowLimits(cfg: DetectorConfig, t: Track)
    requires cfg.Valid() && |t.ports| >= 1 && Score(cfg, t) < 1.0
    ensures t.syn < cfg.synLimit && t.udp < cfg.udpLimit && t.drops < cfg.dropLimit && t.odd < ODD_LIMIT
    ensures |t.ports| <= cfg.portLimit
  {
    var a, b, c, d, e := Ratio(t.syn, cfg.synLimit), Ratio(|t.ports| - 1, cfg.portLimit), Ratio(t.udp, cfg.udpLimit),
      Ratio(t.drops, cfg.dropLimit), Ratio(t.odd, ODD_LIMIT);
    RatioSum(|t.ports|, 1, cfg.portLimit);
    assert Score(cfg, t) == a + b + c + d + e;
    RatioNonNegative(t.syn, cfg.synLimit);
    RatioNonNegative(|t.ports| - 1, cfg.portLimit);
    RatioNonNegative(t.udp, cfg.udpLimit);
    RatioNonNegative(t.drops, cfg.dropLimit);
    RatioNonNegative(t.odd, ODD_LIMIT);
    RatioBelowOne(t.syn, cfg.synLimit, b + c + d + e);
    RatioBelowOne(|t.ports| - 1, cfg.portLimit, a + c + d + e);
    RatioBelowOne(t.udp, cfg.udpLimit, a + b + d + e);
    RatioBelowOne(t.drops, cfg.dropLimit, a + b + c + e);
    RatioBelowOne(t.odd, ODD_LIMIT, a + b + c + d);
  }

  lemma TallyHasPort(cfg: DetectorConfig, t: Track, ev: PacketEvent)
    requires cfg.portLimit > 0
    ensures |Tally(cfg, t, ev).ports| >= 1
  {
  }

  lemma AloneCountable(cfg: DetectorConfig, bans: BanConfig, st: SourceState, ev: PacketEvent, now: nat)
    requires cfg.Valid()
    ensures var r := Alone(cfg, bans, st, ev, now);
      r.0.track.Some? ==> Countable(r.0.track.value) && |r.0.track.value.ports| <= cfg.portLimit
  {
    var t := Tally(cfg, CurrentTrack(st.track, now, cfg.windowSecs), ev);
    TallyHasPort(cfg, CurrentTrack(st.track, now, cfg.windowSecs), ev);
    if Score(cfg, t) < 1.0 {
      BelowLimits(cfg, t);
    }
  }

  lemma PutBounded<V>(m: map<Src, V>, k: Src, v: Option<V>, cap: nat)
    requires |m| <= cap && (|m| < cap || k in m)
    ensures |Put(m, k, v)| <= cap
  {
    var keys := Put(m, k, v).Keys;
    if v.None? {
      SubsetCard(keys, m.Keys);
    } else {
      assert keys == m.Keys + {k};
      assert k in m ==> keys == m.Keys;
    }
  }

  lemma WithSourceSound(s: State, ip: Src, st: SourceState)
    requires Sound(s) && (|s.tracks| < MAX_TRACKED || ip in s.tracks)
    requires st.track.Some? ==> Countable(st.track.value)
    ensures Sound(WithSource(s, ip, st))
  {
    PutBounded(s.tracks, ip, st.track, MAX_TRACKED);
  }

  /** Every event keeps the table bounded and every counter safe to increment. */
  lemma ObservedSound(s: State, ev: PacketEvent, now: nat)
    requires Sound(s)
    ensures Sound(Observed(s, ev, now).0)
  {
    var ip := ev.src;
    var full := |s.tracks| >= MAX_TRACKED && ip !in s.tracks;
    var s1 := if full then Pruned(s, now) else s;
    PrunedSound(s, now);
    hide Alone;
    if !Protected(s.protected, s.protected6, ip) && !(full && |s1.tracks| >= MAX_TRACKED) {
      AloneCountable(s.cfg, s.bans, Known(s1, ip), ev, now);
      WithSourceSound(s1, ip, Alone(s.cfg, s.bans, Known(s1, ip), ev, now).0);
    }
  }

  lemma PrunedSound(s: State, now: nat)
    requires Sound(s)
    ensures Sound(Pruned(s, now))
  {
    var kept := Pruned(s, now).tracks.Keys;
    assert kept <= s.tracks.Keys;
    SubsetCard(kept, s.tracks.Keys);
  }

  /** Count one event, field by field; no 32-bit counter overflows. */
  method CountEvent(cfg: DetectorConfig, t: Track, ev: PacketEvent) returns (track: Track)
    requires Countable(t)
    ensures track == Tally(cfg, t, ev)
    ensures track.syn == t.syn + Bit(ev.protocol == Tcp && OpensConnection(ev.tcpFlags))
    ensures track.odd == t.odd + Bit(ev.protocol == Tcp && Malformed(ev.tcpFlags))
    ensures track.syn <= U32_MAX && track.udp <= U32_MAX && track.drops <= U32_MAX && track.odd <= U32_MAX
  {
    var udp, odd, syn := ev.protocol == Udp, CountsOdd(ev), CountsSyn(ev);
    track := if udp then t.(udpSeen := true) else t.(tcpSeen := true);
    if udp {
      track := track.(udp := track.udp + 1);
    } else if odd {
      track := track.(odd := track.odd + 1);
    } else if syn {
      track := track.(syn := track.syn + 1);
    }
    if ev.verdict == DropPolicy {
      track := track.(drops := track.drops + 1);
    }
    if |track.ports| <= cfg.portLimit && ev.dstPort !in track.ports {
      track := track.(ports := track.ports + [ev.dstPort]);
    }
  }

  class Detector {
    var cfg: DetectorConfig
    var bans: BanConfig
    var protected: seq<Cidr>
    var protected6: seq<u64>
    var tracks: map<Src, Track>
    var offenders: map<Src, Offender>

    constructor (cfg: DetectorConfig, bans: BanConfig)
      requires cfg.Valid() && bans.Valid()
      ensures St() == State(cfg, bans, [], [], map[], map[]) && Sound(St())
    {
      this.cfg, this.bans := cfg, bans;
      protected, protected6, tracks, offenders := [], [], map[], map[];
    }

    function St(): State
      reads this
    {
      State(cfg, bans, protected, protected6, tracks, offenders)
    }

    method Reconfigure(cfg: DetectorConfig, bans: BanConfig)
      requires Sound(St()) && cfg.Valid() && bans.Valid()
      modifies this`cfg, this`bans
      ensures St() == old(St()).(cfg := cfg, bans := bans) && Sound(St())
    {
      this.cfg, this.bans := cfg, bans;
    }

    predicate IsProtected(src: Src)
      reads this
    {
      Protected(protected, protected6, src)
    }

    method SetProtected(protected: seq<Cidr>, protected6: seq<u64>)
      requires Sound(St())
      modifies this`protected, this`protected6, this`tracks
      ensures St() == Reprotected(old(St()), protected, protected6) && Sound(St())
    {
      this.protected, this.protected6 := protected, protected6;
      ghost var before := tracks;
      tracks := map x | x in tracks && !IsProtected(x) :: tracks[x];
      SubsetCard(tracks.Keys, before.Keys);
    }

    method RestoreOffender(ip: Src, offender: Offender)
      requires Sound(St())
      modifies this`offenders
      ensures offenders == old(offenders)[ip := offender] && Sound(St())
    {
      offenders := offenders[ip := offender];
    }

    /** Forgets what no longer matters: windows that are over, and bans long past. */
    method Prune(now: nat)
      requires Sound(St())
      modifies this`tracks, this`offenders
      ensures St() == Pruned(old(St()), now) && Sound(St())
    {
      PrunedSound(St(), now);
      var window := cfg.windowSecs;
      tracks := map x | x in tracks && SatSub(now, tracks[x].windowStart) < window :: tracks[x];
      var keep := SatAdd64(bans.forgiveSecs, bans.maxSecs);
      offenders := map x | x in offenders && SatSub(now, offenders[x].lastBan) <= keep :: offenders[x];
    }

    method Observe(ev: PacketEvent, now: nat) returns (ban: Option<Ban>)
      requires Sound(St())
      modifies this`tracks, this`offenders
      ensures (St(), ban) == Observed(old(St()), ev, now) && Sound(St())
    {
      ObservedSound(St(), ev, now);
      var ip := ev.src;
      if IsProtected(ip) {
        return None;
      }
      if |tracks| >= MAX_TRACKED && ip !in tracks {
        Prune(now);
        if |tracks| >= MAX_TRACKED {
          return None;
        }
      }
      ban := Assess(ip, ev, now);
    }

    /** Count the event in its source's window, and ban the source when that takes its score to 1. */
    method Assess(ip: Src, ev: PacketEvent, now: nat) returns (ban: Option<Ban>)
      requires Sound(St()) && ip == ev.src
      modifies this`tracks, this`offenders
      ensures var r := Alone(cfg, bans, old(Known(St(), ip)), ev, now);
        St() == WithSource(old(St()), ip, r.0) && ban == r.1
    {
      hide Tally, LastMax, Signals, Summary, BanSecs;
      var track := if ip in tracks then tracks[ip] else DEFAULT_TRACK;
      if SatSub(now, track.windowStart) >= cfg.windowSecs {
        track := DEFAULT_TRACK.(windowStart := now);
      }
      var counted := CountEvent(cfg, track, ev);
      var score := Score(cfg, counted);
      if score < 1.0 {
        tracks := tracks[ip := counted];
        assert Put(offenders, ip, Lookup(offenders, ip)) == offenders;
        return None;
      }
      tracks := tracks - {ip};
      var b := Escalate(ip, score, REASONS[LastMax(Signals(cfg, counted))], Summary(counted), now);
      ban := Some(b);
    }

    /** One more strike for the source, and the ban that goes with it. */
    method Escalate(ip: Src, score: real, reason: Reason, ports: PortSummary, now: nat) returns (ban: Ban)
      modifies this`offenders
      ensures var o := Struck(bans, Lookup(old(offenders), ip), now);
        && offenders == old(offenders)[ip := o]
        && ban == Ban(ip, BanSecs(bans, o.strikes), o.strikes, score, reason, ports)
    {
      var offender := if ip in offenders then offenders[ip] else Offender(0, now);
      if SatSub(now, offender.lastBan) > bans.forgiveSecs {
        offender := offender.(strikes := 0);
      }
      offender := Offender(offender.strikes + 1, now);
      offenders := offenders[ip := offender];
      ban := Ban(ip, BanSecs(bans, offender.strikes), offender.strikes, score, reason, ports);
    }
  }
}
