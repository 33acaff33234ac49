/**
 * The detector against a plain reading of the event log: counters are recounts, the port cap never matters, and
 * tighter limits never detect later.
 */
module DetectorLog {
  import opened Words
  import opened Wrappers
  import opened Common
  import opened Configuration
  import opened Detectors
  import opened DetectorRuns
  import Postures

  type Log = l: seq<Op> | forall i :: 0 <= i < |l| ==> l[i].Event?

  function CountIf(log: Log, p: PacketEvent -> bool): nat {
    if log == [] then 0 else CountIf(log[..|log| - 1], p) + Bit(p(log[|log| - 1].ev))
  }

  function PortsOf(log: Log): set<u16> {
    set i | 0 <= i < |log| :: log[i].ev.dstPort
  }

  /** The ports of a log in the order they were first probed. */
  function FirstSeen(log: Log): seq<u16> {
    if log == [] then []
    else
      var before, p := FirstSeen(log[..|log| - 1]), log[|log| - 1].ev.dstPort;
      if p in before then before else before + [p]
  }

  /** A first segment of a TCP connection, from its flag bits. */
  predicate OpensOne(ev: PacketEvent) {
    ev.protocol == Tcp && OpensConnection(ev.tcpFlags)
  }

  /** A TCP segment no real connection sends, from its flag bits. */
  predicate IsMalformed(ev: PacketEvent) {
    ev.protocol == Tcp && Malformed(ev.tcpFlags)
  }

  /** The detector's two TCP counters count these. */
  lemma CountedByBits(ev: PacketEvent)
    ensures CountsSyn(ev) <==> OpensOne(ev)
    ensures CountsOdd(ev) <==> IsMalformed(ev)
  {
  }

  predicate IsUdp(ev: PacketEvent) {
    ev.protocol == Udp
  }

  predicate IsTcpEvent(ev: PacketEvent) {
    ev.protocol != Udp
  }

  predicate IsDrop(ev: PacketEvent) {
    ev.verdict == DropPolicy
  }

  /** How far a log goes towards a ban for each reason; three malformed segments are enough on their own. */
  function Share(cfg: DetectorConfig, log: Log, reason: Reason): real
    requires cfg.Valid()
  {
    match reason
    case ConnectionFlood => CountIf(log, OpensOne) as real / cfg.synLimit as real
    case PortScan => |PortsOf(log)| as real / cfg.portLimit as real
    case UdpFlood => CountIf(log, IsUdp) as real / cfg.udpLimit as real
    case ClosedPorts => CountIf(log, IsDrop) as real / cfg.dropLimit as real
    case StealthScan => CountIf(log, IsMalformed) as real / 3.0
  }

  /** The score of a log: the sum of its shares, one port not counting as a scan. */
  function LogScore(cfg: DetectorConfig, log: Log): real
    requires cfg.Valid()
  {
    Share(cfg, log, ConnectionFlood) + Share(cfg, log, UdpFlood) + Share(cfg, log, ClosedPorts)
    + Share(cfg, log, StealthScan) + (|PortsOf(log)| - 1) as real / cfg.portLimit as real
  }

  /** Between equal shares the later of these is named. */
  function Rank(reason: Reason): nat {
    match reason
    case ConnectionFlood => 0
    case PortScan => 1
    case UdpFlood => 2
    case ClosedPorts => 3
    case StealthScan => 4
  }

  /** The reason named has the largest share. */
  ghost predicate NamesLargest(cfg: DetectorConfig, log: Log, reason: Reason)
    requires cfg.Valid()
  {
    forall q :: q != reason ==>
      Share(cfg, log, q) <= Share(cfg, log, reason)
      && (Share(cfg, log, q) == Share(cfg, log, reason) ==> Rank(q) < Rank(reason))
  }

  ghost predicate Has(log: Log, p: PacketEvent -> bool) {
    exists i :: 0 <= i < |log| && p(log[i].ev)
  }

  /** The summary names the protocols and the first four ports probed, and counts the others. */
  ghost predicate Summarises(log: Log, s: PortSummary) {
    && s.proto ==
       (if Has(log, IsTcpEvent) && Has(log, IsUdp) then "tcp/udp" else if Has(log, IsUdp) then "udp" else "tcp")
    && s.first <= FirstSeen(log) && |s.first| == Min(4, |PortsOf(log)|) && |s.first| + s.more == |PortsOf(log)|
  }

  /** When the window of a log began: with its first event, or at 0 when that came within a window of boot. */
  function Opened(log: Log, window: nat): nat
    requires log != []
  {
    if log[0].now < window then 0 else log[0].now
  }

  /** The log with one more event: a new one when there is none or its window is over. */
  function Extended(log: Log, op: Op, window: nat): Log
    requires op.Event?
  {
    if log == [] || SatSub(op.now, Opened(log, window)) >= window then [op] else log + [op]
  }

  /** A source's log empties with each ban. */
  function LogAfter(cfg: DetectorConfig, log: Log, evs: Log): Log
    requires cfg.Valid()
    decreases |evs|
  {
    if evs == [] then log
    else
      var l := Extended(log, evs[0], cfg.windowSecs);
      LogAfter(cfg, if LogScore(cfg, l) < 1.0 then l else [], evs[1..])
  }

  /** Which events are answered with a ban, from the log alone. */
  function LogBans(cfg: DetectorConfig, log: Log, evs: Log): seq<bool>
    requires cfg.Valid()
    decreases |evs|
  {
    if evs == [] then []
    else
      var l := Extended(log, evs[0], cfg.windowSecs);
      [LogScore(cfg, l) >= 1.0] + LogBans(cfg, if LogScore(cfg, l) < 1.0 then l else [], evs[1..])
  }

  /** The track a log recounts to. */
  function Recount(log: Log, window: nat): Track
    requires log != []
  {
    Track(Opened(log, window), CountIf(log, OpensOne), CountIf(log, IsUdp), CountIf(log, IsDrop),
          CountIf(log, IsMalformed), FirstSeen(log), CountIf(log, IsUdp) > 0, CountIf(log, IsTcpEvent) > 0)
  }

  /** A track is a recount of its log, below the ban threshold. */
  predicate Matches(cfg: DetectorConfig, log: Log, t: Option<Track>)
    requires cfg.Valid()
  {
    if log == [] then t == None
    else t == Some(Recount(log, cfg.windowSecs)) && LogScore(cfg, log) < 1.0
  }

  lemma {:induction false} FirstSeenIsPorts(log: Log)
    ensures |FirstSeen(log)| == |PortsOf(log)|
    ensures forall p :: p in FirstSeen(log) <==> p in PortsOf(log)
    ensures log != [] ==> |FirstSeen(log)| >= 1
  {
    if log != [] {
      var n := |log| - 1;
      FirstSeenIsPorts(log[..n]);
      assert PortsOf(log) == PortsOf(log[..n]) + {log[n].ev.dstPort};
    }
  }

  /** The running score of a recount is the log's own score. */
  lemma RecountScore(cfg: DetectorConfig, log: Log)
    requires cfg.Valid() && log != []
    ensures Score(cfg, Recount(log, cfg.windowSecs)) == LogScore(cfg, log)
    ensures LogScore(cfg, log) < 1.0 ==> |FirstSeen(log)| <= cfg.portLimit
  {
    var t := Recount(log, cfg.windowSecs);
    FirstSeenIsPorts(log);
    RatioSum(|t.ports|, 1, cfg.portLimit);
    assert Score(cfg, t) == LogScore(cfg, log);
    if LogScore(cfg, log) < 1.0 {
      BelowLimits(cfg, t);
    }
  }

  lemma CountSnoc(log: Log, op: Op, p: PacketEvent -> bool)
    requires op.Event?
    ensures CountIf(log + [op], p) == CountIf(log, p) + Bit(p(op.ev))
  {
    assert (log + [op])[..|log|] == log;
  }

  lemma RecountSnoc(cfg: DetectorConfig, log: Log, op: Op)
    requires cfg.Valid() && op.Event? && log != [] && |FirstSeen(log)| <= cfg.portLimit
    ensures Tally(cfg, Recount(log, cfg.windowSecs), op.ev) == Recount(log + [op], cfg.windowSecs)
  {
    CountedByBits(op.ev);
    CountSnoc(log, op, OpensOne);
    CountSnoc(log, op, IsUdp);
    CountSnoc(log, op, IsDrop);
    CountSnoc(log, op, IsMalformed);
    CountSnoc(log, op, IsTcpEvent);
    assert (log + [op])[..|log|] == log;
  }

  lemma CountOne(op: Op, p: PacketEvent -> bool)
    requires op.Event?
    ensures CountIf([op], p) == Bit(p(op.ev))
  {
    assert [op][..0] == [];
  }

  lemma RecountOne(cfg: DetectorConfig, op: Op)
    requires cfg.Valid() && op.Event?
    ensures Tally(cfg, DEFAULT_TRACK.(windowStart := Opened([op], cfg.windowSecs)), op.ev) == Recount([op],
        cfg.windowSecs)
  {
    CountedByBits(op.ev);
    CountOne(op, OpensOne);
    CountOne(op, IsUdp);
    CountOne(op, IsDrop);
    CountOne(op, IsMalformed);
    CountOne(op, IsTcpEvent);
    assert FirstSeen([op]) == [op.ev.dstPort] by {
      assert [op][..0] == [];
    }
  }

  /** Counting one event in the track is recounting the extended log: the cap on listed ports never bites. */
  lemma TallyIsRecount(cfg: DetectorConfig, log: Log, t: Option<Track>, op: Op)
    requires cfg.Valid() && op.Event? && Matches(cfg, log, t)
    ensures Tally(cfg, CurrentTrack(t, op.now, cfg.windowSecs), op.ev) ==
            Recount(Extended(log, op, cfg.windowSecs), cfg.windowSecs)
  {
    RecountOne(cfg, op);
    if log != [] {
      RecountScore(cfg, log);
      RecountSnoc(cfg, log, op);
    }
  }

  lemma {:induction false} HasIsCounted(log: Log, p: PacketEvent -> bool)
    ensures CountIf(log, p) > 0 <==> Has(log, p)
  {
    if log != [] {
      var n := |log| - 1;
      HasIsCounted(log[..n], p);
      if i :| 0 <= i < |log| && p(log[i].ev) {
        assert i < n ==> p(log[..n][i].ev);
      }
      if i :| 0 <= i < |log[..n]| && p(log[..n][i].ev) {
        assert p(log[i].ev);
      }
    }
  }

  lemma SummaryOfLog(log: Log, window: nat)
    requires log != []
    ensures Summarises(log, Summary(Recount(log, window)))
  {
    HasIsCounted(log, IsUdp);
    HasIsCounted(log, IsTcpEvent);
    FirstSeenIsPorts(log);
  }

  lemma SignalIsShare(cfg: DetectorConfig, log: Log, k: nat)
    requires cfg.Valid() && log != [] && k < 5
    ensures Rank(REASONS[k]) == k
    ensures Signals(cfg, Recount(log, cfg.windowSecs))[k] == Share(cfg, log, REASONS[k])
  {
    FirstSeenIsPorts(log);
  }

  lemma ReasonOfLog(cfg: DetectorConfig, log: Log)
    requires cfg.Valid() && log != []
    ensures NamesLargest(cfg, log, REASONS[LastMax(Signals(cfg, Recount(log, cfg.windowSecs)))])
  {
    var s := Signals(cfg, Recount(log, cfg.windowSecs));
    var k := LastMax(s);
    SignalIsShare(cfg, log, k);
    forall q: Reason | q != REASONS[k]
      ensures Share(cfg, log, q) <= Share(cfg, log, REASONS[k])
      ensures Share(cfg, log, q) == Share(cfg, log, REASONS[k]) ==> Rank(q) < Rank(REASONS[k])
    {
      var j := Rank(q);
      assert REASONS[j] == q;
      SignalIsShare(cfg, log, j);
    }
  }

  /** What a ban says is what the log says. */
  ghost predicate Explains(cfg: DetectorConfig, log: Log, b: Ban)
    requires cfg.Valid()
  {
    b.score == LogScore(cfg, log) && NamesLargest(cfg, log, b.reason) && Summarises(log, b.ports)
  }

  /** An event is answered with a ban exactly when its log's score reaches 1, and the ban is then explained by it. */
  ghost predicate Answered(cfg: DetectorConfig, log: Log, ev: PacketEvent, answer: Option<Ban>)
    requires cfg.Valid()
  {
    && (answer.Some? <==> LogScore(cfg, log) >= 1.0)
    && (answer.Some? ==> answer.value.ip == ev.src && Explains(cfg, log, answer.value))
  }

  lemma StepAnswered(cfg: DetectorConfig, bans: BanConfig, log: Log, st: SourceState, op: Op)
    requires cfg.Valid() && op.Event? && Matches(cfg, log, st.track)
    ensures var (l, r) := (Extended(log, op, cfg.windowSecs), Alone(cfg, bans, st, op.ev, op.now));
      && Answered(cfg, l, op.ev, r.1)
      && Matches(cfg, if LogScore(cfg, l) < 1.0 then l else [], r.0.track)
  {
    var l := Extended(log, op, cfg.windowSecs);
    hide Score, Signals, LogScore, Summarises, NamesLargest;
    StepMatchesLog(cfg, bans, log, st, op);
    TallyIsRecount(cfg, log, st.track, op);
    RecountScore(cfg, l);
    SummaryOfLog(l, cfg.windowSecs);
    ReasonOfLog(cfg, l);
  }

  /** The log event `i` of a run is counted in, itself included. */
  function LogAt(cfg: DetectorConfig, log: Log, evs: Log, i: nat): Log
    requires cfg.Valid() && i < |evs|
    decreases |evs|
  {
    var l := Extended(log, evs[0], cfg.windowSecs);
    if i == 0 then l else LogAt(cfg, if LogScore(cfg, l) < 1.0 then l else [], evs[1..], i - 1)
  }

  /**
   * Event by event: it is answered with a ban exactly when the score of the log it is counted in reaches 1, and the ban
   * then names the reason with the largest share, the protocols and the ports of that log.
   */
  lemma {:induction false} EveryBanExplained(cfg: DetectorConfig, bans: BanConfig, log: Log, st: SourceState, evs: Log,
                                             i: nat)
    requires cfg.Valid() && Matches(cfg, log, st.track) && i < |evs|
    ensures |AnswersAlone(cfg, bans, st, evs)| == |evs|
    ensures Answered(cfg, LogAt(cfg, log, evs, i), evs[i].ev, AnswersAlone(cfg, bans, st, evs)[i])
    decreases |evs|
  {
    hide *;
    var l: Log := Extended(log, evs[0], cfg.windowSecs);
    var log': Log := if LogScore(cfg, l) < 1.0 then l else [];
    var rest: Log := evs[1..];
    var r := Alone(cfg, bans, st, evs[0].ev, evs[0].now);
    StepAnswered(cfg, bans, log, st, evs[0]);
    AnswersCount(cfg, bans, st, evs);
    if i == 0 {
      FirstOfRun(cfg, bans, log, st, evs);
    } else {
      AnswersCount(cfg, bans, r.0, rest);
      RestOfRun(cfg, bans, log, st, evs, i);
      EveryBanExplained(cfg, bans, log', r.0, rest, i - 1);
    }
  }

  lemma {:induction false} AnswersCount(cfg: DetectorConfig, bans: BanConfig, st: SourceState, evs: Log)
    requires cfg.Valid()
    ensures |AnswersAlone(cfg, bans, st, evs)| == |evs|
    decreases |evs|
  {
    if evs != [] {
      AnswersCount(cfg, bans, Alone(cfg, bans, st, evs[0].ev, evs[0].now).0, evs[1..]);
    }
  }

  lemma FirstOfRun(cfg: DetectorConfig, bans: BanConfig, log: Log, st: SourceState, evs: Log)
    requires cfg.Valid() && evs != [] && |AnswersAlone(cfg, bans, st, evs)| == |evs|
    ensures LogAt(cfg, log, evs, 0) == Extended(log, evs[0], cfg.windowSecs)
    ensures AnswersAlone(cfg, bans, st, evs)[0] == Alone(cfg, bans, st, evs[0].ev, evs[0].now).1
  {
  }

  lemma RestOfRun(cfg: DetectorConfig, bans: BanConfig, log: Log, st: SourceState, evs: Log, i: nat)
    requires cfg.Valid() && 0 < i < |evs|
    requires |AnswersAlone(cfg, bans, st, evs)| == |evs|
    requires var r := Alone(cfg, bans, st, evs[0].ev, evs[0].now);
      |AnswersAlone(cfg, bans, r.0, evs[1..])| == |evs| - 1
    ensures var l := Extended(log, evs[0], cfg.windowSecs);
      LogAt(cfg, log, evs, i) == LogAt(cfg, if LogScore(cfg, l) < 1.0 then l else [], evs[1..], i - 1)
    ensures var r := Alone(cfg, bans, st, evs[0].ev, evs[0].now);
      AnswersAlone(cfg, bans, st, evs)[i] == AnswersAlone(cfg, bans, r.0, evs[1..])[i - 1] && evs[i] == evs[1..][i - 1]
  {
    hide Alone, LogScore, Extended;
  }

  lemma StepMatchesLog(cfg: DetectorConfig, bans: BanConfig, log: Log, st: SourceState, op: Op)
    requires cfg.Valid() && op.Event? && Matches(cfg, log, st.track)
    ensures var (l, r) := (Extended(log, op, cfg.windowSecs), Alone(cfg, bans, st, op.ev, op.now));
      && (r.1.Some? <==> LogScore(cfg, l) >= 1.0)
      && (r.1.Some? ==> r.1.value.score == LogScore(cfg, l) && r.1.value.ports == Summary(Recount(l, cfg.windowSecs)))
      && Matches(cfg, if LogScore(cfg, l) < 1.0 then l else [], r.0.track)
  {
    TallyIsRecount(cfg, log, st.track, op);
    RecountScore(cfg, Extended(log, op, cfg.windowSecs));
  }

  /** What is known of a source after its events. */
  function StateAlone(cfg: DetectorConfig, bans: BanConfig, st: SourceState, evs: Log): SourceState
    requires cfg.Valid()
    decreases |evs|
  {
    if evs == [] then st else StateAlone(cfg, bans, Alone(cfg, bans, st, evs[0].ev, evs[0].now).0, evs[1..])
  }

  /** Bans exactly where the marks say. */
  ghost predicate BansWhere(answers: seq<Option<Ban>>, marks: seq<bool>) {
    |answers| == |marks| && forall i :: 0 <= i < |answers| ==> (answers[i].Some? <==> marks[i])
  }

  lemma BansWhereCons(r: Option<Ban>, hit: bool, answers: seq<Option<Ban>>, marks: seq<bool>)
    requires (r.Some? <==> hit) && BansWhere(answers, marks)
    ensures BansWhere([r] + answers, [hit] + marks)
  {
  }

  /**
   * The incremental detector refines the log: it bans on exactly the events the log's score says, and between bans
   * its track is a recount of the source's events since the window began or the last ban.
   */
  lemma {:induction false} DetectorRefinesLog(cfg: DetectorConfig, bans: BanConfig, log: Log, st: SourceState, evs: Log)
    requires cfg.Valid() && Matches(cfg, log, st.track)
    ensures |AnswersAlone(cfg, bans, st, evs)| == |evs|
    ensures BansWhere(AnswersAlone(cfg, bans, st, evs), LogBans(cfg, log, evs))
    ensures Matches(cfg, LogAfter(cfg, log, evs), StateAlone(cfg, bans, st, evs).track)
    decreases |evs|
  {
    if evs != [] {
      var l := Extended(log, evs[0], cfg.windowSecs);
      var log' := if LogScore(cfg, l) < 1.0 then l else [];
      var r := Alone(cfg, bans, st, evs[0].ev, evs[0].now);
      assert (r.1.Some? <==> LogScore(cfg, l) >= 1.0) && Matches(cfg, log', r.0.track) by {
        StepMatchesLog(cfg, bans, log, st, evs[0]);
      }
      DetectorRefinesLog(cfg, bans, log', r.0, evs[1..]);
      BansWhereCons(r.1, LogScore(cfg, l) >= 1.0, AnswersAlone(cfg, bans, r.0, evs[1..]), LogBans(cfg, log', evs[1..]));
    }
  }

  /** Every counter of a retained track is below its limit, and it lists each probed port once, at most the limit. */
  lemma RetainedBelowLimits(cfg: DetectorConfig, log: Log, t: Track)
    requires cfg.Valid() && Matches(cfg, log, Some(t))
    ensures CountIf(log, OpensOne) < cfg.synLimit && CountIf(log, IsUdp) < cfg.udpLimit
    ensures CountIf(log, IsDrop) < cfg.dropLimit && CountIf(log, IsMalformed) < 3
    ensures |PortsOf(log)| <= cfg.portLimit && |t.ports| == |PortsOf(log)|
    ensures forall p :: p in t.ports <==> p in PortsOf(log)
  {
    RecountScore(cfg, log);
    FirstSeenIsPorts(log);
    BelowLimits(cfg, t);
  }

  function FinalState(s: State, ops: seq<Op>): State
    requires s.cfg.Valid()
    decreases |ops|
  {
    if ops == [] then s else FinalState(StateAfter(s, ops[0]), ops[1..])
  }

  predicate EndsBy(ops: seq<Op>, t0: nat, end: nat) {
    t0 <= end && forall i :: 0 <= i < |ops| ==> ops[i].now <= end
  }

  lemma {:induction false} StateSeesFadedRun(cfg: DetectorConfig, bans: BanConfig, st: SourceState, st': SourceState,
                                             evs: Log, t0: nat, end: nat)
    requires cfg.Valid() && Ordered(evs, t0) && EndsBy(evs, t0, end)
    requires Fade(cfg, bans, st, t0) == Fade(cfg, bans, st', t0)
    ensures Fade(cfg, bans, StateAlone(cfg, bans, st, evs), end) == Fade(cfg, bans, StateAlone(cfg, bans, st', evs),
        end)
    decreases |evs|
  {
    if evs == [] {
      FadeAgain(cfg, bans, st, t0, end);
      FadeAgain(cfg, bans, st', t0, end);
    } else {
      var ev, now := evs[0].ev, evs[0].now;
      FadeAgain(cfg, bans, st, t0, now);
      FadeAgain(cfg, bans, st', t0, now);
      AloneSeesFaded(cfg, bans, st, ev, now, now);
      AloneSeesFaded(cfg, bans, st', ev, now, now);
      StateSeesFadedRun(cfg, bans, Alone(cfg, bans, st, ev, now).0, Alone(cfg, bans, st', ev, now).0, evs[1..], now,
          end);
    }
  }

  lemma {:induction false} EventsFromEndsBy(ops: seq<Op>, x: Src, t0: nat, end: nat)
    requires EndsBy(ops, t0, end)
    ensures EndsBy(EventsFrom(ops, x), t0, end)
  {
    if ops != [] {
      assert EndsBy(ops[1..], t0, end) by {
        forall i | 0 <= i < |ops[1..]| ensures ops[1..][i].now <= end {
          assert ops[1..][i] == ops[i + 1];
        }
      }
      EventsFromEndsBy(ops[1..], x, t0, end);
    }
  }

  /** After any run not deaf to a source, what still matters of it in the table is what it would be alone. */
  lemma {:induction false} KnownAsIfAlone(s: State, ops: seq<Op>, x: Src, t0: nat, end: nat)
    requires Sound(s) && Ordered(ops, t0) && EndsBy(ops, t0, end) && NeverDeafTo(s, ops, x)
    requires !Protected(s.protected, s.protected6, x)
    ensures forall i :: 0 <= i < |EventsFrom(ops, x)| ==> EventsFrom(ops, x)[i].Event?
    ensures View(FinalState(s, ops), x, end) ==
            Fade(s.cfg, s.bans, StateAlone(s.cfg, s.bans, View(s, x, t0), EventsFrom(ops, x)), end)
    decreases |ops|
  {
    hide Alone, Observed, Pruned;
    EventsFromAreEvents(ops, x);
    if ops == [] {
      FadeAgain(s.cfg, s.bans, Known(s, x), t0, end);
    } else {
      var op, rest := ops[0], ops[1..];
      var s', now := StateAfter(s, op), op.now;
      EventsFromAreEvents(rest, x);
      EventsFromOrdered(rest, x, now);
      assert EndsBy(rest, now, end) by {
        forall i | 0 <= i < |rest| ensures rest[i].now <= end {
          assert rest[i] == ops[i + 1];
        }
      }
      EventsFromEndsBy(rest, x, now, end);
      if op.Event? && op.ev.src == x {
        OwnStepIsAlone(s, op.ev, t0, now);
        ObservedKeepsConfig(s, op.ev, now);
        KnownAsIfAlone(s', rest, x, now, end);
        var st := Alone(s.cfg, s.bans, View(s, x, t0), op.ev, now).0;
        FadeAgain(s.cfg, s.bans, st, now, now);
        StateSeesFadedRun(s.cfg, s.bans, st, View(s', x, now), EventsFrom(rest, x), now, end);
        assert EventsFrom(ops, x)[1..] == EventsFrom(rest, x);
      } else {
        OtherStepKeepsView(s, op, x, now);
        KnownAsIfAlone(s', rest, x, now, end);
        FadeAgain(s.cfg, s.bans, Known(s, x), t0, now);
        FadeAgain(s.cfg, s.bans, Known(s, x), now, now);
        StateSeesFadedRun(s.cfg, s.bans, View(s, x, t0), View(s', x, now), EventsFrom(rest, x), now, end);
        assert EventsFrom(ops, x) == EventsFrom(rest, x);
      }
    }
  }

  /**
   * In a detector started with no track, its offenders restored or not, after any run not deaf to a source, the
   * source's unfinished track is the recount of its own events since its window began or its last ban; with none
   * since, there is no such track.
   */
  lemma RetainedTrackIsRecount(s: State, ops: seq<Op>, x: Src, end: nat)
    requires Sound(s) && s.tracks == map[]
    requires Ordered(ops, 0) && EndsBy(ops, 0, end) && NeverDeafTo(s, ops, x)
    requires !Protected(s.protected, s.protected6, x)
    ensures forall i :: 0 <= i < |EventsFrom(ops, x)| ==> EventsFrom(ops, x)[i].Event?
    ensures var log := LogAfter(s.cfg, [], EventsFrom(ops, x));
      View(FinalState(s, ops), x, end).track ==
        if log == [] || SatSub(end, Opened(log, s.cfg.windowSecs)) >= s.cfg.windowSecs then None
        else Some(Recount(log, s.cfg.windowSecs))
    ensures var log := LogAfter(s.cfg, [], EventsFrom(ops, x));
      log != [] ==> LogScore(s.cfg, log) < 1.0
  {
    KnownAsIfAlone(s, ops, x, 0, end);
    DetectorRefinesLog(s.cfg, s.bans, [], View(s, x, 0), EventsFrom(ops, x));
  }

  /** Limits no higher anywhere, over the same window. */
  predicate Tighter(a: DetectorConfig, b: DetectorConfig) {
    a.Valid() && b.Valid() && a.windowSecs == b.windowSecs
    && a.synLimit <= b.synLimit && a.portLimit <= b.portLimit && a.udpLimit <= b.udpLimit && a.dropLimit <= b.dropLimit
  }

  lemma RatioAntitone(n: nat, a: int, b: int)
    requires 0 < a <= b
    ensures Ratio(n, a) >= Ratio(n, b)
  {
    var x, y := a as real, b as real;
    var u, v := n as real / x, n as real / y;
    assert u * x == n as real == v * y && v >= 0.0;
    assert v * x <= v * y;
    if u < v {
      assert u * x < v * x;
    }
  }

  /** The same log scores at least as high under tighter limits. */
  lemma TighterScoresHigher(a: DetectorConfig, b: DetectorConfig, log: Log)
    requires Tighter(a, b) && log != []
    ensures LogScore(a, log) >= LogScore(b, log)
  {
    FirstSeenIsPorts(log);
    RatioAntitone(CountIf(log, OpensOne), a.synLimit, b.synLimit);
    RatioAntitone(|PortsOf(log)| - 1, a.portLimit, b.portLimit);
    RatioAntitone(CountIf(log, IsUdp), a.udpLimit, b.udpLimit);
    RatioAntitone(CountIf(log, IsDrop), a.dropLimit, b.dropLimit);
  }

  predicate NoneTrue(s: seq<bool>) {
    forall i :: 0 <= i < |s| ==> !s[i]
  }

  lemma {:induction false} TighterBansFirst(a: DetectorConfig, b: DetectorConfig, log: Log, evs: Log)
    requires Tighter(a, b) && NoneTrue(LogBans(a, log, evs))
    ensures NoneTrue(LogBans(b, log, evs))
    decreases |evs|
  {
    if evs != [] {
      var l := Extended(log, evs[0], a.windowSecs);
      assert !LogBans(a, log, evs)[0];
      TighterScoresHigher(a, b, l);
      var rest := LogBans(a, l, evs[1..]);
      assert forall i :: 0 <= i < |rest| ==> rest[i] == LogBans(a, log, evs)[i + 1];
      TighterBansFirst(a, b, l, evs[1..]);
    }
  }

  predicate NoBan(answers: seq<Option<Ban>>) {
    forall i :: 0 <= i < |answers| ==> answers[i] == None
  }

  /**
   * Threshold monotonicity: after any run, if the detector with tighter limits has not yet banned a source it starts
   * out knowing nothing current about, neither has the one with looser limits. So the first ban never comes later.
   */
  lemma TighterNeverDetectsLater(s: State, s': State, ops: seq<Op>, x: Src, t0: nat)
    requires Sound(s) && Sound(s') && Tighter(s.cfg, s'.cfg) && Ordered(ops, t0)
    requires !Protected(s.protected, s.protected6, x) && !Protected(s'.protected, s'.protected6, x)
    requires View(s, x, t0).track == None && View(s', x, t0).track == None
    requires NeverDeafTo(s, ops, x) && NeverDeafTo(s', ops, x)
    requires NoBan(AnswersTo(s, ops, x))
    ensures NoBan(AnswersTo(s', ops, x))
  {
    hide AnswersAlone, LogBans, AnswersTo, LogAfter, StateAlone, NeverDeafTo, Recount, Observed;
    var evs := EventsFrom(ops, x);
    AnsweredAsIfAlone(s, ops, x, t0);
    AnsweredAsIfAlone(s', ops, x, t0);
    DetectorRefinesLog(s.cfg, s.bans, [], View(s, x, t0), evs);
    DetectorRefinesLog(s'.cfg, s'.bans, [], View(s', x, t0), evs);
    TighterBansFirst(s.cfg, s'.cfg, [], evs);
  }

  /** Under lockdown the limits are tighter than the configured ones, in this sense, and under relaxed looser. */
  lemma PosturesOrderThresholds(p: Postures.Posture, cfg: Config, out: Config)
    requires cfg.detector.Valid() && cfg.bans.Valid() && Postures.IsApplied(p, cfg, out)
    ensures p.name == "lockdown" ==> Tighter(out.detector, cfg.detector)
    ensures p.name == "relaxed" ==> Tighter(cfg.detector, out.detector)
  {
    Postures.PostureSettings(p, cfg, out);
  }
}
