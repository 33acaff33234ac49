/** From packets to bans: what the kernel program streams, and what the detector makes of it, over whole runs. */
module Detection {
  import opened Words
  import opened Wrappers
  import opened Collections
  import opened Common
  import opened Configuration
  import opened Compiler
  import opened XdpFilter
  import opened Loader
  import opened Detectors
  import opened DetectorRuns
  import opened DetectorLog

  lemma {:induction false} CountGrows(a: Log, b: Log, p: PacketEvent -> bool)
    ensures CountIf(a, p) <= CountIf(a + b, p)
    decreases |b|
  {
    if b == [] {
      assert a + b == a;
    } else {
      var n := |b| - 1;
      CountGrows(a, b[..n], p);
      assert (a + b)[..|a + b| - 1] == a + b[..n];
    }
  }

  lemma PortsGrow(a: Log, b: Log)
    ensures |PortsOf(a)| <= |PortsOf(a + b)|
  {
    forall p | p in PortsOf(a) ensures p in PortsOf(a + b) {
      var i :| 0 <= i < |a| && a[i].ev.dstPort == p;
      assert (a + b)[i].ev.dstPort == p;
    }
    SubsetCard(PortsOf(a), PortsOf(a + b));
  }

  lemma FractionGrows(n: int, m: int, limit: int)
    requires n <= m && limit > 0
    ensures n as real / limit as real <= m as real / limit as real
  {
  }

  /** More events never lower a score. */
  lemma ScoreGrows(cfg: DetectorConfig, a: Log, b: Log)
    requires cfg.Valid()
    ensures LogScore(cfg, a) <= LogScore(cfg, a + b)
  {
    CountGrows(a, b, OpensOne);
    CountGrows(a, b, IsUdp);
    CountGrows(a, b, IsDrop);
    CountGrows(a, b, IsMalformed);
    PortsGrow(a, b);
    FractionGrows(CountIf(a, OpensOne), CountIf(a + b, OpensOne), cfg.synLimit);
    FractionGrows(CountIf(a, IsUdp), CountIf(a + b, IsUdp), cfg.udpLimit);
    FractionGrows(CountIf(a, IsDrop), CountIf(a + b, IsDrop), cfg.dropLimit);
    FractionGrows(CountIf(a, IsMalformed), CountIf(a + b, IsMalformed), 3);
    FractionGrows(|PortsOf(a)| - 1, |PortsOf(a + b)| - 1, cfg.portLimit);
  }

  /** All in the window that the first event opens: from that event on, or from boot when it comes that early. */
  ghost predicate OneWindow(evs: Log, window: nat) {
    forall i :: 0 <= i < |evs| ==> evs[i].now < window + (if evs[0].now < window then 0 else evs[0].now)
  }

  lemma {:induction false} OneWindowBans(cfg: DetectorConfig, log: Log, evs: Log)
    requires cfg.Valid() && OneWindow(log + evs, cfg.windowSecs)
    ensures NoneTrue(LogBans(cfg, log, evs)) <==> evs == [] || LogScore(cfg, log + evs) < 1.0
    decreases |evs|
  {
    hide LogScore, NoneTrue;
    if evs == [] {
      NothingMarked(cfg, log);
    } else {
      var l, rest := log + [evs[0]], evs[1..];
      assert l + rest == log + evs;
      StillOpen(cfg, log, evs);
      hide OneWindow, Extended;
      ScoreGrows(cfg, l, rest);
      OneWindowBans(cfg, l, rest);
      NoneTrueCons(LogScore(cfg, l) >= 1.0, LogBans(cfg, if LogScore(cfg, l) < 1.0 then l else [], rest));
      assert rest == [] ==> l == log + evs;
    }
  }

  lemma StillOpen(cfg: DetectorConfig, log: Log, evs: Log)
    requires evs != [] && OneWindow(log + evs, cfg.windowSecs)
    ensures Extended(log, evs[0], cfg.windowSecs) == log + [evs[0]]
  {
    assert (log + evs)[|log|] == evs[0] && (log != [] ==> (log + evs)[0] == log[0]);
  }

  lemma NothingMarked(cfg: DetectorConfig, log: Log)
    requires cfg.Valid()
    ensures NoneTrue(LogBans(cfg, log, []))
  {
  }

  lemma NoneTrueCons(b: bool, s: seq<bool>)
    ensures NoneTrue([b] + s) <==> !b && NoneTrue(s)
  {
    var t := [b] + s;
    assert t[0] == b && forall i :: 0 <= i < |s| ==> t[i + 1] == s[i];
    if NoneTrue(t) {
      forall i | 0 <= i < |s| ensures !s[i] {
        assert !t[i + 1];
      }
    }
  }

  ghost predicate SomeBan(answers: seq<Option<Ban>>) {
    exists i :: 0 <= i < |answers| && answers[i].Some?
  }

  lemma BansIffMarked(answers: seq<Option<Ban>>, marks: seq<bool>)
    requires BansWhere(answers, marks)
    ensures SomeBan(answers) <==> !NoneTrue(marks)
  {
    if i :| 0 <= i < |marks| && marks[i] {
      assert answers[i].Some?;
    }
  }

  /** A source the detector listens to and has nothing running against, its events all in one window. */
  ghost predicate Fresh(s: State, ops: seq<Op>, x: Src, t0: nat)
    requires s.cfg.Valid()
  {
    && Sound(s) && Ordered(ops, t0) && NeverDeafTo(s, ops, x)
    && !Exempt(s.protected, s.protected6, x) && View(s, x, t0).track == None
    && (forall i :: 0 <= i < |EventsFrom(ops, x)| ==> EventsFrom(ops, x)[i].Event?)
    && OneWindow(EventsFrom(ops, x), s.cfg.windowSecs)
  }

  /**
   * Within one window a source is banned, by whichever of its events, exactly when the score of all its events together
   * reaches 1: whatever other sources do, wherever the table is pruned.
   */
  lemma BannedInWindowIff(s: State, ops: seq<Op>, x: Src, t0: nat)
    requires s.cfg.Valid() && Fresh(s, ops, x, t0)
    ensures SomeBan(AnswersTo(s, ops, x)) <==> EventsFrom(ops, x) != [] && LogScore(s.cfg, EventsFrom(ops, x)) >= 1.0
  {
    var evs: Log, st := EventsFrom(ops, x), View(s, x, t0);
    ProtectedIff(s.protected, s.protected6, x);
    hide LogScore, AnswersTo, AnswersAlone, EventsFrom, View, OneWindow, NoneTrue, SomeBan, BansWhere;
    AnsweredAsIfAlone(s, ops, x, t0);
    DetectorRefinesLog(s.cfg, s.bans, [], st, evs);
    BansIffMarked(AnswersAlone(s.cfg, s.bans, st, evs), LogBans(s.cfg, [], evs));
    assert [] + evs == evs;
    OneWindowBans(s.cfg, [], evs);
  }

  lemma AtLeastOne(n: int, limit: int)
    requires n >= limit > 0
    ensures n as real / limit as real >= 1.0
  {
  }

  lemma NotNegative(n: nat, limit: int)
    requires limit > 0
    ensures n as real / limit as real >= 0.0
  {
  }

  /** One limit reached is a score of 1: connections, UDP, drops, three malformed segments, a port over the limit. */
  lemma LimitIsEnough(cfg: DetectorConfig, log: Log)
    requires cfg.Valid() && log != []
    requires CountIf(log, OpensOne) >= cfg.synLimit || CountIf(log, IsUdp) >= cfg.udpLimit
      || CountIf(log, IsDrop) >= cfg.dropLimit || CountIf(log, IsMalformed) >= 3 || |PortsOf(log)| > cfg.portLimit
    ensures LogScore(cfg, log) >= 1.0
  {
    var syn, udp, drops, odd := CountIf(log, OpensOne), CountIf(log, IsUdp), CountIf(log, IsDrop),
      CountIf(log, IsMalformed);
    FirstSeenIsPorts(log);
    var more := |PortsOf(log)| - 1;
    NotNegative(syn, cfg.synLimit);
    NotNegative(udp, cfg.udpLimit);
    NotNegative(drops, cfg.dropLimit);
    NotNegative(odd, 3);
    NotNegative(more, cfg.portLimit);
    if syn >= cfg.synLimit {
      AtLeastOne(syn, cfg.synLimit);
    } else if udp >= cfg.udpLimit {
      AtLeastOne(udp, cfg.udpLimit);
    } else if drops >= cfg.dropLimit {
      AtLeastOne(drops, cfg.dropLimit);
    } else if odd >= 3 {
      AtLeastOne(odd, 3);
    } else {
      AtLeastOne(more, cfg.portLimit);
    }
  }

  /**
   * So a source is banned by the event that takes any of its counts in a window to its limit, if not before: connection
   * openers and malformed segments read from the flag bits, UDP, dropped packets, distinct ports.
   */
  lemma LimitReachedIsBanned(s: State, ops: seq<Op>, x: Src, t0: nat)
    requires s.cfg.Valid() && Fresh(s, ops, x, t0) && EventsFrom(ops, x) != []
    requires var evs := EventsFrom(ops, x);
      CountIf(evs, OpensOne) >= s.cfg.synLimit || CountIf(evs, IsUdp) >= s.cfg.udpLimit
      || CountIf(evs, IsDrop) >= s.cfg.dropLimit || CountIf(evs, IsMalformed) >= 3 || |PortsOf(evs)| > s.cfg.portLimit
    ensures SomeBan(AnswersTo(s, ops, x))
  {
    LimitIsEnough(s.cfg, EventsFrom(ops, x));
    BannedInWindowIff(s, ops, x, t0);
  }

  lemma {:induction false} CountAll(log: Log, p: PacketEvent -> bool)
    ensures (forall i :: 0 <= i < |log| ==> p(log[i].ev)) ==> CountIf(log, p) == |log|
    ensures (forall i :: 0 <= i < |log| ==> !p(log[i].ev)) ==> CountIf(log, p) == 0
  {
    if log != [] {
      CountAll(log[..|log| - 1], p);
    }
  }

  /** Openers that the policy lets in, all to one port, count for nothing else: the last one allowed is exact. */
  lemma OpenersAloneIff(s: State, ops: seq<Op>, x: Src, t0: nat, port: u16)
    requires s.cfg.Valid() && Fresh(s, ops, x, t0)
    requires forall i :: 0 <= i < |EventsFrom(ops, x)| ==>
      var ev := EventsFrom(ops, x)[i].ev;
      OpensOne(ev) && ev.verdict == Pass && ev.dstPort == port
    ensures SomeBan(AnswersTo(s, ops, x)) <==> |EventsFrom(ops, x)| >= s.cfg.synLimit
  {
    BannedInWindowIff(s, ops, x, t0);
    OpenersScore(s.cfg, EventsFrom(ops, x), port);
  }

  lemma OpenersScore(cfg: DetectorConfig, log: Log, port: u16)
    requires cfg.Valid()
    requires forall i :: 0 <= i < |log| ==>
      OpensOne(log[i].ev) && log[i].ev.verdict == Pass && log[i].ev.dstPort == port
    ensures log != [] ==> (LogScore(cfg, log) >= 1.0 <==> |log| >= cfg.synLimit)
  {
    if log != [] {
      CountAll(log, OpensOne);
      CountAll(log, IsUdp);
      CountAll(log, IsDrop);
      CountAll(log, IsMalformed);
      assert log[0].ev.dstPort == port;
      assert PortsOf(log) == {port};
      OneFraction(|log|, cfg.synLimit);
    }
  }

  lemma OneFraction(n: nat, limit: int)
    requires limit > 0
    ensures n as real / limit as real >= 1.0 <==> n >= limit
  {
  }
}
