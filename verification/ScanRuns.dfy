/** Scans over whole runs: packets in, what the kernel program streams of them, and the bans the detector answers. */
module ScanRuns {
  import opened Words
  import opened Wrappers
  import opened Collections
  import opened Common
  import opened Configuration
  import opened Compiler
  import opened XdpFilter
  import opened Loader
  import opened Detectors
  import opened DetectorRuns
  import opened DetectorLog
  import opened Detection

  ghost function EventAt(steps: seq<Step>, k: nat): Option<PacketEvent>
    requires k < |steps|
  {
    match steps[k]
    case In(pkt, now, rules, bans, forgets) => EventFor(rules, bans, MemoryAfter(steps[..k]), pkt, now, forgets)
    case Out(_, _, _, _) => None
  }

  /** What the detector hears over a run, in order: the stream, each event at its second. */
  ghost function Reports(steps: seq<Step>, k: nat): seq<Op>
    requires k <= |steps|
  {
    if k == 0 then []
    else
      var ev := EventAt(steps, k - 1);
      Reports(steps, k - 1) + if ev.Some? then [Event(ev.value, Second(steps[k - 1].now))] else []
  }

  function Second(ns: u64): nat {
    ns / 1_000_000_000
  }

  lemma {:induction false} OrderedSnoc(ops: seq<Op>, op: Op, t0: nat, end: nat)
    requires Ordered(ops, t0) && EndsBy(ops, t0, end) && end <= op.now
    ensures Ordered(ops + [op], t0) && EndsBy(ops + [op], t0, op.now)
    decreases |ops|
  {
    if ops == [] {
      assert ops + [op] == [op];
    } else {
      assert (ops + [op])[1..] == ops[1..] + [op];
      OrderedSnoc(ops[1..], op, ops[0].now, end);
    }
  }

  lemma EndsLater(ops: seq<Op>, end: nat, later: nat)
    requires EndsBy(ops, 0, end) && end <= later
    ensures EndsBy(ops, 0, later)
  {
  }

  lemma SecondsOrdered(a: u64, b: u64)
    requires a <= b
    ensures Second(a) <= Second(b)
  {
  }

  lemma {:induction false} ReportsOrdered(steps: seq<Step>, k: nat, end: nat)
    requires k <= |steps| && StepsOrdered(steps) && (k > 0 ==> Second(steps[k - 1].now) <= end)
    ensures Ordered(Reports(steps, k), 0) && EndsBy(Reports(steps, k), 0, end)
    decreases k
  {
    if k == 0 {
      assert Reports(steps, k) == [];
    } else {
      hide EventAt, Reports, Second, Ordered, EndsBy;
      var last := Second(steps[k - 1].now);
      if k > 1 {
        SecondsOrdered(steps[k - 2].now, steps[k - 1].now);
      }
      ReportsOrdered(steps, k - 1, last);
      var ev, before := EventAt(steps, k - 1), Reports(steps, k - 1);
      ReportsSnoc(steps, k);
      if ev.Some? {
        OrderedSnoc(before, Event(ev.value, last), 0, last);
      }
      EndsLater(Reports(steps, k), last, end);
    }
  }

  lemma ReportsSnoc(steps: seq<Step>, k: nat)
    requires 0 < k <= |steps|
    ensures var before, ev := Reports(steps, k - 1), EventAt(steps, k - 1);
      Reports(steps, k) == if ev.Some? then before + [Event(ev.value, Second(steps[k - 1].now))] else before
  {
  }

  /** Everything streamed is heard, at its second. */
  lemma {:induction false} ReportIn(steps: seq<Step>, k: nat, i: nat)
    requires i < k <= |steps| && EventAt(steps, i).Some?
    ensures Event(EventAt(steps, i).value, Second(steps[i].now)) in Reports(steps, k)
    decreases k
  {
    if i < k - 1 {
      ReportIn(steps, k - 1, i);
    }
  }

  /** Nothing else is. */
  lemma {:induction false} ReportedAt(steps: seq<Step>, k: nat, op: Op) returns (i: nat)
    requires k <= |steps| && op in Reports(steps, k)
    ensures i < k && EventAt(steps, i).Some? && op == Event(EventAt(steps, i).value, Second(steps[i].now))
    decreases k
  {
    if op in Reports(steps, k - 1) {
      i := ReportedAt(steps, k - 1, op);
    } else {
      i := k - 1;
    }
  }

  lemma {:induction false} OwnEvents(ops: seq<Op>, x: Src)
    ensures forall op :: op in EventsFrom(ops, x) <==> op in ops && op.Event? && op.ev.src == x
  {
    if ops != [] {
      OwnEvents(ops[1..], x);
    }
  }

  /** The times of a run lie in one stretch of so many seconds: the first since boot, or a later one. */
  ghost predicate InStretch(steps: seq<Step>, from: nat, secs: nat) {
    (from == 0 || from >= secs)
    && forall k :: 0 <= k < |steps| ==> from * 1_000_000_000 <= steps[k].now < (from + secs) * 1_000_000_000
  }

  lemma StretchIsWindow(steps: seq<Step>, from: nat, x: Src, window: nat)
    requires InStretch(steps, from, window) && StepsOrdered(steps)
    ensures forall i :: 0 <= i < |EventsFrom(Reports(steps, |steps|), x)| ==>
      EventsFrom(Reports(steps, |steps|), x)[i].Event?
    ensures OneWindow(EventsFrom(Reports(steps, |steps|), x), window)
  {
    var ops := Reports(steps, |steps|);
    EventsFromAreEvents(ops, x);
    var evs: Log := EventsFrom(ops, x);
    forall i | 0 <= i < |evs| ensures from <= evs[i].now < from + window {
      OwnEvents(ops, x);
      assert evs[i] in EventsFrom(ops, x);
      var k := ReportedAt(steps, |steps|, evs[i]);
    }
  }

  /** A connection opener from a source to a port, aimed at this host and neither banned nor a fragment. */
  predicate Probes(s: Step, x: Src, port: u16) {
    && s.In? && !s.pkt.NotIp? && s.pkt.l4.Segment? && SourceOf(s.pkt) == x
    && s.pkt.l4.proto == Tcp && s.pkt.l4.dstPort == port && OpensConnection(s.pkt.l4.tcpFlags)
    && !s.pkt.toEveryone && !Fragmented(s.pkt) && !Banned(s.bans, s.pkt, s.now)
  }

  /** Every probe is streamed. */
  lemma ProbeIsStreamed(steps: seq<Step>, k: nat, x: Src, port: u16)
    requires k < |steps| && Probes(steps[k], x, port)
    ensures EventAt(steps, k).Some?
    ensures var ev := EventAt(steps, k).value;
      ev.src == x && ev.dstPort == port && OpensOne(ev)
  {
    var s := steps[k];
    EventIff(s.rules, s.bans, MemoryAfter(steps[..k]), s.pkt, s.now, s.forgetsRates);
  }

  /** A detector with nothing running against the source, listening to it all through the run. */
  ghost predicate Listens(s: State, steps: seq<Step>, x: Src)
    requires s.cfg.Valid()
  {
    && Sound(s) && !Exempt(s.protected, s.protected6, x) && View(s, x, 0).track == None
    && NeverDeafTo(s, Reports(steps, |steps|), x)
  }

  lemma ListensFresh(s: State, steps: seq<Step>, x: Src, from: nat)
    requires s.cfg.Valid() && Listens(s, steps, x) && StepsOrdered(steps) && InStretch(steps, from, s.cfg.windowSecs)
    ensures Fresh(s, Reports(steps, |steps|), x, 0)
  {
    if steps == [] {
      assert Reports(steps, 0) == [];
    } else {
      ReportsOrdered(steps, |steps|, Second(steps[|steps| - 1].now));
    }
    StretchIsWindow(steps, from, x, s.cfg.windowSecs);
  }

  /**
   * A port scan is banned: a source that within one window of the detector probes more distinct ports than its limit,
   * open or closed and among whatever other traffic, is banned by the end of it.
   */
  lemma ScanIsBanned(s: State, steps: seq<Step>, x: Src, from: nat, ports: set<u16>)
    requires s.cfg.Valid() && Listens(s, steps, x) && StepsOrdered(steps) && InStretch(steps, from, s.cfg.windowSecs)
    requires |ports| > s.cfg.portLimit
    requires forall p :: p in ports ==> exists k :: 0 <= k < |steps| && Probes(steps[k], x, p)
    ensures SomeBan(AnswersTo(s, Reports(steps, |steps|), x))
  {
    var ops := Reports(steps, |steps|);
    ListensFresh(s, steps, x, from);
    var evs: Log := EventsFrom(ops, x);
    forall p | p in ports ensures p in PortsOf(evs) {
      var k :| 0 <= k < |steps| && Probes(steps[k], x, p);
      ProbeIsStreamed(steps, k, x, p);
      ReportIn(steps, |steps|, k);
      OwnEvents(ops, x);
    }
    SubsetCard(ports, PortsOf(evs));
    LimitReachedIsBanned(s, ops, x, 0);
  }

  /** A probe of a port that the policy in force closes to its source. */
  ghost predicate ProbesClosed(policy: Policy, c: Compiled, s: Step, x: Src) {
    s.In? && !s.pkt.NotIp? && s.pkt.l4.Segment? && Probes(s, x, s.pkt.l4.dstPort)
    && Holds(s.rules, c) && !PolicyOpens(policy, Tcp, x, s.pkt.l4.dstPort)
  }

  /** It is streamed as dropped, enforcing or not. */
  lemma ClosedProbeIsDropped(policy: Policy, c: Compiled, steps: seq<Step>, k: nat, x: Src)
    requires policy.Compiles() && CompiledFor(policy, c) && k < |steps| && ProbesClosed(policy, c, steps[k], x)
    ensures EventAt(steps, k).Some? && EventAt(steps, k).value.src == x && IsDrop(EventAt(steps, k).value)
  {
    var s := steps[k];
    var m := MemoryAfter(steps[..k]);
    EventIff(s.rules, s.bans, m, s.pkt, s.now, s.forgetsRates);
    VerdictIff(policy, c, s.rules.(enforce := true), s.bans, m, s.pkt, s.now, s.forgetsRates);
  }

  /** How many of the first `k` steps probe a closed port. */
  ghost function CountClosed(policy: Policy, c: Compiled, steps: seq<Step>, k: nat, x: Src): nat
    requires k <= |steps|
  {
    if k == 0 then 0
    else CountClosed(policy, c, steps, k - 1, x) + if ProbesClosed(policy, c, steps[k - 1], x) then 1 else 0
  }

  lemma {:induction false} OwnAppend(a: seq<Op>, b: seq<Op>, x: Src)
    ensures EventsFrom(a + b, x) == EventsFrom(a, x) + EventsFrom(b, x)
  {
    if a == [] {
      assert a + b == b;
    } else {
      assert (a + b)[1..] == a[1..] + b;
      OwnAppend(a[1..], b, x);
    }
  }

  /** The source's own events after one more step. */
  lemma OwnSnoc(steps: seq<Step>, k: nat, x: Src)
    requires 0 < k <= |steps|
    ensures var before, ev := EventsFrom(Reports(steps, k - 1), x), EventAt(steps, k - 1);
      EventsFrom(Reports(steps, k), x) ==
        if ev.Some? && ev.value.src == x then before + [Event(ev.value, Second(steps[k - 1].now))] else before
  {
    hide EventAt, Reports;
    ReportsSnoc(steps, k);
    var ev, before := EventAt(steps, k - 1), Reports(steps, k - 1);
    if ev.Some? {
      var op := Event(ev.value, Second(steps[k - 1].now));
      OwnAppend(before, [op], x);
      assert [op][1..] == [];
      assert EventsFrom([op], x) == if ev.value.src == x then [op] else [];
    }
  }

  lemma {:induction false} ClosedAreCounted(policy: Policy, c: Compiled, steps: seq<Step>, k: nat, x: Src)
    requires policy.Compiles() && CompiledFor(policy, c) && k <= |steps|
    ensures forall i :: 0 <= i < |EventsFrom(Reports(steps, k), x)| ==> EventsFrom(Reports(steps, k), x)[i].Event?
    ensures CountIf(EventsFrom(Reports(steps, k), x), IsDrop) >= CountClosed(policy, c, steps, k, x)
    decreases k
  {
    hide EventAt, ProbesClosed, Reports, EventsFrom, CompiledFor, Policy.Compiles, CountIf, Second;
    EventsFromAreEvents(Reports(steps, k), x);
    if k > 0 {
      ClosedAreCounted(policy, c, steps, k - 1, x);
      OwnSnoc(steps, k, x);
      var ev, before: Log := EventAt(steps, k - 1), EventsFrom(Reports(steps, k - 1), x);
      if ProbesClosed(policy, c, steps[k - 1], x) {
        ClosedProbeIsDropped(policy, c, steps, k - 1, x);
      }
      if ev.Some? && ev.value.src == x {
        CountSnoc(before, Event(ev.value, Second(steps[k - 1].now)), IsDrop);
      }
    }
  }

  /**
   * Nor does it help to keep to few ports: a source that within one window probes ports closed to it as often as the
   * limit for drops, whether or not the firewall is enforcing, is banned by the end of it.
   */
  lemma ClosedProbesAreBanned(s: State, policy: Policy, c: Compiled, steps: seq<Step>, x: Src, from: nat)
    requires s.cfg.Valid() && Listens(s, steps, x) && StepsOrdered(steps) && InStretch(steps, from, s.cfg.windowSecs)
    requires policy.Compiles() && CompiledFor(policy, c)
    requires CountClosed(policy, c, steps, |steps|, x) >= s.cfg.dropLimit
    ensures SomeBan(AnswersTo(s, Reports(steps, |steps|), x))
  {
    ListensFresh(s, steps, x, from);
    ClosedAreCounted(policy, c, steps, |steps|, x);
    assert EventsFrom(Reports(steps, |steps|), x) != [];
    LimitReachedIsBanned(s, Reports(steps, |steps|), x, 0);
  }
}
