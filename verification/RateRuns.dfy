/** The connection limit over whole runs of packets: what reaches the limiter, and how much it lets through. */
module RateRuns {
  import opened Words
  import opened Wrappers
  import opened Collections
  import opened Common
  import opened RateLimiter
  import opened XdpFilter

  /** An inbound connection opener from an IPv4 source to a port. */
  predicate IsOpener(s: Step, ip: u32, port: u16) {
    s.In? && s.pkt.Ip4? && s.pkt.src == ip && !s.pkt.fragment && s.pkt.l4.Segment? && s.pkt.l4.proto == Tcp
    && s.pkt.l4.dstPort == port && OpensConnection(s.pkt.l4.tcpFlags)
  }

  /** An opener that gets as far as the limiter: not banned, to an open port. */
  ghost predicate Reaches(s: Step, ip: u32, port: u16) {
    IsOpener(s, ip, port) && !Banned(s.bans, s.pkt, s.now) && PortOpen(s.rules, Tcp, V4(ip), port)
  }

  /** From step `i` to `j` the port keeps one limit, policy is enforced, and this source's count is not forgotten. */
  ghost predicate SteadyLimit(steps: seq<Step>, i: nat, j: nat, ip: u32, port: u16, packed: u32) {
    && packed != 0 && RateMax(packed) >= 1 && i <= j <= |steps|
    && forall k :: i <= k < j && steps[k].In? ==>
         && RateKey(ip, port) !in steps[k].forgetsRates
         && (IsOpener(steps[k], ip, port) ==> steps[k].rules.enforce && Slot(steps[k].rules.tcpRate, port, 0) == packed)
  }

  /** When the openers among steps i .. j-1 reached the limiter. */
  ghost function ReachTimes(steps: seq<Step>, i: nat, j: nat, ip: u32, port: u16): seq<u64>
    requires i <= j <= |steps|
    decreases j
  {
    if i == j then []
    else ReachTimes(steps, i, j - 1, ip, port) + (if Reaches(steps[j - 1], ip, port) then [steps[j - 1].now] else [])
  }

  /** What the limiter holds about the source and port before step `j`. */
  ghost function StateBefore(steps: seq<Step>, j: nat, ip: u32, port: u16): Option<RateState>
    requires j <= |steps|
  {
    Lookup(MemoryAfter(steps[..j]).rates, RateKey(ip, port))
  }

  /** A standing state as openers: as many as it counts, at the start of its window. */
  function Standing(st: Option<RateState>): seq<u64> {
    if st.None? then [] else AllAt(st.value.count, st.value.windowStart)
  }

  /** The openers behind the limiter's state before step `j`: those it held at step `i`, and those since. */
  ghost function Openers(steps: seq<Step>, i: nat, j: nat, ip: u32, port: u16): seq<u64>
    requires i <= j <= |steps|
  {
    Standing(StateBefore(steps, i, ip, port)) + ReachTimes(steps, i, j, ip, port)
  }

  predicate Counting(st: Option<RateState>) {
    st.Some? ==> st.value.count > 0
  }

  /** At no moment of the stretch has the 32-bit count come round to 0. */
  ghost predicate NeverWraps(steps: seq<Step>, i: nat, j: nat, ip: u32, port: u16)
    requires i <= j <= |steps|
  {
    forall k :: i <= k <= j ==> Counting(StateBefore(steps, k, ip, port))
  }

  ghost predicate PassedOpener(steps: seq<Step>, i: nat, ip: u32, port: u16)
    requires i < |steps|
  {
    var s := steps[i];
    IsOpener(s, ip, port)
    && Inbound(s.rules, s.bans, MemoryAfter(steps[..i]), s.pkt, s.now, s.forgetsRates).1 == XdpPass
  }

  ghost function CountPassed(steps: seq<Step>, i: nat, j: nat, ip: u32, port: u16): nat
    requires i <= j <= |steps|
    decreases j
  {
    if i == j then 0
    else CountPassed(steps, i, j - 1, ip, port) + (if PassedOpener(steps, j - 1, ip, port) then 1 else 0)
  }

  lemma RateKeyInjective(ip: u32, port: u16, ip': u32, port': u16)
    requires RateKey(ip, port) == RateKey(ip', port')
    ensures ip == ip' && port == port'
  {
    DivUnique(RateKey(ip, port), 0x1_0000, ip, port);
    DivUnique(RateKey(ip', port'), 0x1_0000, ip', port');
  }

  /** A step that does not reach the limiter for this source and port leaves its count alone. */
  lemma OtherStepsKeepRate(m: Memory, s: Step, ip: u32, port: u16)
    requires s.In? ==> RateKey(ip, port) !in s.forgetsRates
    requires !Reaches(s, ip, port)
    ensures Lookup(StepMemory(m, s).rates, RateKey(ip, port)) == Lookup(m.rates, RateKey(ip, port))
  {
    if s.In? && s.pkt.Ip4? && s.pkt.l4.Segment?
      && RateKey(s.pkt.src, s.pkt.l4.dstPort) == RateKey(ip, port) {
      RateKeyInjective(s.pkt.src, s.pkt.l4.dstPort, ip, port);
    }
  }

  /** One that does reach it is one bump of the limiter, and passes unless it is over. */
  lemma ReachingStepBumps(m: Memory, s: Step, ip: u32, port: u16, packed: u32)
    requires Reaches(s, ip, port) && s.rules.enforce && packed != 0 && Slot(s.rules.tcpRate, port, 0) == packed
    ensures var k := RateKey(ip, port);
      var b := Bump(Lookup(m.rates, k), RateMax(packed), WindowNs(packed), s.now);
      && Lookup(StepMemory(m, s).rates, k) == Some(b.0)
      && (Inbound(s.rules, s.bans, m, s.pkt, s.now, s.forgetsRates).1 == XdpPass <==> !b.1)
  {
  }

  lemma {:induction false} StandingIs(w: u64, c: nat, window: nat)
    requires 1 <= c < 0x1_0000_0000
    ensures After(AllAt(c, w), window) == Some(RateState(w, c))
  {
    var times := AllAt(c, w);
    assert times[..c - 1] == AllAt(c - 1, w);
    if c > 1 {
      StandingIs(w, c - 1, window);
      BumpKeepsOrOpens(RateState(w, c - 1), window, w, c - 1);
    }
  }

  lemma StandingIsState(st: Option<RateState>, window: nat)
    requires Counting(st)
    ensures After(Standing(st), window) == st
  {
    if st.Some? {
      StandingIs(st.value.windowStart, st.value.count, window);
    }
  }

  lemma MemorySnoc(steps: seq<Step>, j: nat)
    requires j < |steps|
    ensures MemoryAfter(steps[..j + 1]) == StepMemory(MemoryAfter(steps[..j]), steps[j])
  {
    var more := steps[..j + 1];
    assert more[..|more| - 1] == steps[..j];
  }

  /** One step of the run, seen from the limiter: a bump when the source's opener reaches it, nothing otherwise. */
  lemma StateStep(steps: seq<Step>, k: nat, ip: u32, port: u16, packed: u32)
    requires k < |steps| && SteadyLimit(steps, k, k + 1, ip, port, packed)
    ensures var (st, s) := (StateBefore(steps, k, ip, port), steps[k]);
      var b := Bump(st, RateMax(packed), WindowNs(packed), s.now);
      && StateBefore(steps, k + 1, ip, port) == (if Reaches(s, ip, port) then Some(b.0) else st)
      && (PassedOpener(steps, k, ip, port) <==> Reaches(s, ip, port) && !b.1)
  {
    MemorySnoc(steps, k);
    var m := MemoryAfter(steps[..k]);
    if Reaches(steps[k], ip, port) {
      ReachingStepBumps(m, steps[k], ip, port, packed);
    } else {
      OtherStepsKeepRate(m, steps[k], ip, port);
    }
  }

  lemma StateFollows(st: Option<RateState>, st': Option<RateState>, times: seq<u64>, times': seq<u64>, reached: bool,
                     t: u64, max: nat, window: nat)
    requires st == After(times, window)
    requires st' == if reached then Some(Bump(st, max, window, t).0) else st
    requires times' == if reached then times + [t] else times
    ensures st' == After(times', window)
  {
    if reached {
      assert times'[..|times|] == times;
    }
  }

  /** States that follow the openers step by step are what the openers leave behind. */
  lemma {:induction false} FollowOpeners(held: nat -> Option<RateState>, steps: seq<Step>, i: nat, j: nat, ip: u32,
                                         port: u16, max: nat, window: nat)
    requires i <= j <= |steps| && Counting(held(i))
    requires forall k {:trigger steps[k]} :: i <= k < j ==>
      held(k + 1) == if Reaches(steps[k], ip, port) then Some(Bump(held(k), max, window, steps[k].now).0) else held(k)
    ensures held(j) == After(Standing(held(i)) + ReachTimes(steps, i, j, ip, port), window)
    decreases j
  {
    var start, times := Standing(held(i)), ReachTimes(steps, i, j, ip, port);
    if i == j {
      assert start + times == start;
      StandingIsState(held(i), window);
    } else {
      var before, s := start + ReachTimes(steps, i, j - 1, ip, port), steps[j - 1];
      FollowOpeners(held, steps, i, j - 1, ip, port, max, window);
      assert start + times == if Reaches(s, ip, port) then before + [s.now] else before;
      StateFollows(held(j - 1), held(j), before, start + times, Reaches(s, ip, port), s.now, max, window);
    }
  }

  /**
   * Over any stretch of a run, the source's limiter state is what it held at the start and the source's own openers
   * since leave behind.
   */
  lemma LimiterSeesOwnOpeners(steps: seq<Step>, i: nat, j: nat, ip: u32, port: u16, packed: u32)
    requires SteadyLimit(steps, i, j, ip, port, packed) && Counting(StateBefore(steps, i, ip, port))
    ensures StateBefore(steps, j, ip, port) == After(Openers(steps, i, j, ip, port), WindowNs(packed))
  {
    var held := (k: nat) => if k <= |steps| then StateBefore(steps, k, ip, port) else None;
    forall k {:trigger steps[k]} | i <= k < j
      ensures held(k + 1) ==
        if Reaches(steps[k], ip, port)
            then Some(Bump(held(k), RateMax(packed), WindowNs(packed), steps[k].now).0) else held(k)
    {
      StateStep(steps, k, ip, port, packed);
    }
    FollowOpeners(held, steps, i, j, ip, port, RateMax(packed), WindowNs(packed));
  }

  lemma OpenersAtStart(steps: seq<Step>, i: nat, ip: u32, port: u16)
    requires i <= |steps|
    ensures Openers(steps, i, i, ip, port) == Standing(StateBefore(steps, i, ip, port))
  {
    assert ReachTimes(steps, i, i, ip, port) == [];
  }

  lemma OpenersSnoc(steps: seq<Step>, i: nat, j: nat, ip: u32, port: u16)
    requires i < j <= |steps|
    ensures var before := Openers(steps, i, j - 1, ip, port);
      Openers(steps, i, j, ip, port) == if Reaches(steps[j - 1], ip, port) then before + [steps[j - 1].now] else before
  {
  }

  /** No limiter window starts in the future. */
  lemma {:induction false} WindowsStarted(steps: seq<Step>, j: nat, ip: u32, port: u16)
    requires StepsOrdered(steps) && j < |steps|
    ensures var st := StateBefore(steps, j, ip, port);
      st.Some? ==> st.value.windowStart <= steps[j].now
    decreases j
  {
    if j > 0 {
      WindowsStarted(steps, j - 1, ip, port);
      MemorySnoc(steps, j - 1);
      StepKeepsStart(MemoryAfter(steps[..j - 1]), steps[j - 1], RateKey(ip, port));
    }
  }

  lemma StepKeepsStart(m: Memory, s: Step, key: nat)
    requires key in m.rates ==> m.rates[key].windowStart <= s.now
    ensures var rates := StepMemory(m, s).rates;
      key in rates ==> rates[key].windowStart <= s.now
  {
  }

  lemma {:induction false} ReachTimesOrdered(steps: seq<Step>, i: nat, j: nat, ip: u32, port: u16)
    requires StepsOrdered(steps) && i <= j <= |steps|
    ensures Ordered(ReachTimes(steps, i, j, ip, port))
    ensures forall k :: 0 <= k < |ReachTimes(steps, i, j, ip, port)| ==>
      i < j && steps[i].now <= ReachTimes(steps, i, j, ip, port)[k] <= steps[j - 1].now
    decreases j
  {
    if i < j {
      var before, s := ReachTimes(steps, i, j - 1, ip, port), steps[j - 1];
      assert ReachTimes(steps, i, j, ip, port) == before + (if Reaches(s, ip, port) then [s.now] else []);
      hide Reaches, ReachTimes, Ordered;
      ReachTimesOrdered(steps, i, j - 1, ip, port);
      assert steps[i].now <= s.now && (i < j - 1 ==> steps[j - 2].now <= s.now);
      if Reaches(s, ip, port) {
        OrderedOneMore(before, s.now);
      } else {
        assert before + [] == before;
      }
    }
  }

  lemma OrderedOneMore(times: seq<u64>, t: u64)
    requires Ordered(times) && forall k :: 0 <= k < |times| ==> times[k] <= t
    ensures Ordered(times + [t])
  {
  }

  lemma OpenersOrdered(steps: seq<Step>, i: nat, j: nat, ip: u32, port: u16)
    requires StepsOrdered(steps) && i <= j <= |steps|
    ensures Ordered(Openers(steps, i, j, ip, port))
  {
    ReachTimesOrdered(steps, i, j, ip, port);
    if i < j {
      WindowsStarted(steps, i, ip, port);
    }
  }

  /** The openers of a stretch lie no further apart than its first and last step. */
  lemma OpenersSpan(steps: seq<Step>, i: nat, j: nat, ip: u32, port: u16)
    requires StepsOrdered(steps) && i < j <= |steps|
    ensures var (times, held) := (Openers(steps, i, j, ip, port), |Standing(StateBefore(steps, i, ip, port))|);
      Ordered(times) && held <= |times| &&
      (held < |times| ==> times[|times| - 1] - times[held] <= steps[j - 1].now - steps[i].now)
  {
    hide StateBefore, Reaches;
    OpenersOrdered(steps, i, j, ip, port);
    ReachTimesOrdered(steps, i, j, ip, port);
  }

  lemma {:induction false} WindowStartInPrefix(a: seq<u64>, b: seq<u64>, window: nat, k: nat)
    requires a <= b && k < |a|
    ensures WindowStart(a, window, k) == WindowStart(b, window, k)
  {
    if k > 0 {
      WindowStartInPrefix(a, b, window, k - 1);
    }
  }

  /** A run whose count never comes round to 0 has no window of 2^32 openers. */
  lemma {:induction false} NeverWrapsIsUnwrapped(steps: seq<Step>, i: nat, j: nat, ip: u32, port: u16, packed: u32)
    requires SteadyLimit(steps, i, j, ip, port, packed) && StepsOrdered(steps) && NeverWraps(steps, i, j, ip, port)
    ensures Unwrapped(Openers(steps, i, j, ip, port), WindowNs(packed))
    decreases j
  {
    var times, window := Openers(steps, i, j, ip, port), WindowNs(packed);
    if i == j {
      UnwrappedAtStart(steps, i, ip, port, window);
    } else {
      assert SteadyLimit(steps, i, j - 1, ip, port, packed) && NeverWraps(steps, i, j - 1, ip, port);
      assert Counting(StateBefore(steps, i, ip, port)) && Counting(StateBefore(steps, j, ip, port));
      hide *;
      NeverWrapsIsUnwrapped(steps, i, j - 1, ip, port, packed);
      OpenersSnoc(steps, i, j, ip, port);
      assert Counting(After(times, window)) by {
        LimiterSeesOwnOpeners(steps, i, j, ip, port, packed);
      }
      OpenersOrdered(steps, i, j, ip, port);
      if Reaches(steps[j - 1], ip, port) {
        OneMoreUnwrapped(Openers(steps, i, j - 1, ip, port), times, window);
      }
    }
  }

  lemma StandingUnwrapped(st: Option<RateState>, window: nat)
    ensures Unwrapped(Standing(st), window)
  {
    forall k | 0 <= k < |Standing(st)| ensures Place(Standing(st), window, k) < 0x1_0000_0000 {
      AllInOneWindow(st.value.count, st.value.windowStart, window, k);
    }
  }

  lemma UnwrappedAtStart(steps: seq<Step>, i: nat, ip: u32, port: u16, window: nat)
    requires i <= |steps|
    ensures Unwrapped(Openers(steps, i, i, ip, port), window)
  {
    OpenersAtStart(steps, i, ip, port);
    StandingUnwrapped(StateBefore(steps, i, ip, port), window);
  }

  lemma LastIsCounted(times: seq<u64>, window: nat)
    requires Ordered(times) && times != [] && Counting(After(times, window))
    ensures Place(times, window, |times| - 1) % 0x1_0000_0000 > 0
  {
    assert times[..|times|] == times;
    AfterIs(times, window, |times| - 1);
  }

  lemma OneMoreUnwrapped(times: seq<u64>, more: seq<u64>, window: nat)
    requires Unwrapped(times, window) && Ordered(more) && |more| == |times| + 1 && times <= more
    requires Counting(After(more, window))
    ensures Unwrapped(more, window)
  {
    var n := |times|;
    LastIsCounted(more, window);
    if n > 0 {
      WindowStartInPrefix(times, more, window, n - 1);
      assert Place(times, window, n - 1) < 0x1_0000_0000;
    }
    assert Place(more, window, n) < 0x1_0000_0000;
    forall k | 0 <= k < n ensures Place(more, window, k) < 0x1_0000_0000 {
      WindowStartInPrefix(times, more, window, k);
      assert Place(times, window, k) < 0x1_0000_0000;
    }
  }

  /** An opener passes exactly when it reaches the limiter and the limiter, with what it holds by then, admits it. */
  lemma PassedIffAdmitted(steps: seq<Step>, i: nat, k: nat, ip: u32, port: u16, packed: u32)
    requires SteadyLimit(steps, i, k + 1, ip, port, packed) && i <= k && Counting(StateBefore(steps, i, ip, port))
    ensures var times := Openers(steps, i, k + 1, ip, port);
      PassedOpener(steps, k, ip, port) <==>
      Reaches(steps[k], ip, port) && |times| > 0 && Admitted(times, RateMax(packed), WindowNs(packed), |times| - 1)
  {
    hide PassedOpener, Reaches, StateBefore, Openers;
    var before := Openers(steps, i, k, ip, port);
    LimiterSeesOwnOpeners(steps, i, k, ip, port, packed);
    OpenersSnoc(steps, i, k + 1, ip, port);
    StateStep(steps, k, ip, port, packed);
    assert (before + [steps[k].now])[..|before|] == before;
  }

  lemma {:induction false} AdmittedInPrefix(a: seq<u64>, b: seq<u64>, max: nat, window: nat, i: nat, j: nat)
    requires a <= b && i <= j <= |a|
    ensures CountAdmitted(a, max, window, i, j) == CountAdmitted(b, max, window, i, j)
    decreases j
  {
    if i < j {
      AdmittedInPrefix(a, b, max, window, i, j - 1);
      assert a[..j - 1] == b[..j - 1];
    }
  }

  lemma CountOneMore(before: seq<u64>, times: seq<u64>, max: nat, window: nat, held: nat, reached: bool, t: u64,
                     passed: bool)
    requires times == (if reached then before + [t] else before) && held <= |before|
    requires passed <==> reached && Admitted(times, max, window, |times| - 1)
    ensures CountAdmitted(times, max, window, held, |times|) ==
            CountAdmitted(before, max, window, held, |before|) + (if passed then 1 else 0)
  {
    AdmittedInPrefix(before, times, max, window, held, |before|);
  }

  /** The openers that pass in a stretch are those the limiter admits after what it held at the start. */
  lemma {:induction false} PassedAreAdmitted(steps: seq<Step>, i: nat, j: nat, ip: u32, port: u16, packed: u32)
    requires SteadyLimit(steps, i, j, ip, port, packed) && Counting(StateBefore(steps, i, ip, port))
    ensures var times := Openers(steps, i, j, ip, port);
      var held := |Standing(StateBefore(steps, i, ip, port))|;
      CountPassed(steps, i, j, ip, port) == CountAdmitted(times, RateMax(packed), WindowNs(packed), held, |times|)
    decreases j
  {
    hide *;
    SteadyWithin(steps, i, j, ip, port, packed);
    if i == j {
      OpenersAtStart(steps, i, ip, port);
      NothingPassed(steps, i, ip, port, RateMax(packed), WindowNs(packed));
    } else {
      var times, before := Openers(steps, i, j, ip, port), Openers(steps, i, j - 1, ip, port);
      PassedAreAdmitted(steps, i, j - 1, ip, port, packed);
      PassedIffAdmitted(steps, i, j - 1, ip, port, packed);
      OpenersSnoc(steps, i, j, ip, port);
      PassedSnoc(steps, i, j, ip, port);
      CountOneMore(before, times, RateMax(packed), WindowNs(packed), |Standing(StateBefore(steps, i, ip, port))|,
                   Reaches(steps[j - 1], ip, port), steps[j - 1].now, PassedOpener(steps, j - 1, ip, port));
    }
  }

  lemma SteadyWithin(steps: seq<Step>, i: nat, j: nat, ip: u32, port: u16, packed: u32)
    requires SteadyLimit(steps, i, j, ip, port, packed)
    ensures packed != 0 && RateMax(packed) >= 1 && i <= j <= |steps|
    ensures i < j ==> SteadyLimit(steps, i, j - 1, ip, port, packed)
  {
    hide IsOpener;
  }

  lemma NothingPassed(steps: seq<Step>, i: nat, ip: u32, port: u16, max: nat, window: nat)
    requires i <= |steps|
    ensures CountPassed(steps, i, i, ip, port) == 0
    ensures forall times: seq<u64> :: CountAdmitted(times, max, window, |times|, |times|) == 0
  {
  }

  lemma PassedSnoc(steps: seq<Step>, i: nat, j: nat, ip: u32, port: u16)
    requires i < j <= |steps|
    ensures CountPassed(steps, i, j, ip, port) ==
            CountPassed(steps, i, j - 1, ip, port) + (if PassedOpener(steps, j - 1, ip, port) then 1 else 0)
    ensures |Standing(StateBefore(steps, i, ip, port))| <= |Openers(steps, i, j - 1, ip, port)|
  {
    hide PassedOpener, Standing, StateBefore;
  }

  /** Exactly how many openers pass in a stretch no longer than the window. */
  lemma PassedOpenersCount(steps: seq<Step>, i: nat, j: nat, ip: u32, port: u16, packed: u32)
    requires i < j && SteadyLimit(steps, i, j, ip, port, packed) && StepsOrdered(steps)
    requires NeverWraps(steps, i, j, ip, port)
    requires steps[j - 1].now - steps[i].now <= RateWindow(packed) * 1_000_000_000
    ensures var times, window: nat := Openers(steps, i, j, ip, port), RateWindow(packed) * 1_000_000_000;
      var held, n := |Standing(StateBefore(steps, i, ip, port))|, |times|;
      CountPassed(steps, i, j, ip, port) ==
        if held == n then 0
        else Share(RateMax(packed), WindowStart(times, window, held), WindowStart(times, window, n - 1), held, n)
  {
    var times := Openers(steps, i, j, ip, port);
    var held := |Standing(StateBefore(steps, i, ip, port))|;
    assert packed != 0 && RateMax(packed) >= 1 && Counting(StateBefore(steps, i, ip, port));
    hide SteadyLimit, NeverWraps, Openers, Standing, StateBefore, CountPassed, StepsOrdered, Ordered;
    PassedAreAdmitted(steps, i, j, ip, port, packed);
    if held < |times| {
      NeverWrapsIsUnwrapped(steps, i, j, ip, port, packed);
      OpenersSpan(steps, i, j, ip, port);
      IntervalCount(times, RateMax(packed), WindowNs(packed), held, |times|);
    }
  }

  /**
   * The limit as a promise about packets, over any stretch of any run no longer than the window, whatever the limiter
   * held before it, whatever else arrives and whatever else the daemon writes: from one source to one limited port
   * fewer than 2 * max connection openers pass.
   */
  lemma PassedOpenersBounded(steps: seq<Step>, i: nat, j: nat, ip: u32, port: u16, packed: u32)
    requires i < j && SteadyLimit(steps, i, j, ip, port, packed) && StepsOrdered(steps)
    requires NeverWraps(steps, i, j, ip, port)
    requires steps[j - 1].now - steps[i].now <= RateWindow(packed) * 1_000_000_000
    ensures CountPassed(steps, i, j, ip, port) <= 2 * RateMax(packed) - 1
  {
    var times := Openers(steps, i, j, ip, port);
    var held := |Standing(StateBefore(steps, i, ip, port))|;
    assert packed != 0 && RateMax(packed) >= 1 && Counting(StateBefore(steps, i, ip, port));
    hide SteadyLimit, NeverWraps, Openers, Standing, StateBefore, CountPassed, StepsOrdered, Ordered;
    PassedAreAdmitted(steps, i, j, ip, port, packed);
    if held < |times| {
      NeverWrapsIsUnwrapped(steps, i, j, ip, port, packed);
      OpenersSpan(steps, i, j, ip, port);
      IntervalBound(times, RateMax(packed), WindowNs(packed), held, |times|);
    }
  }

  /** Nor can less be promised: every limit a rule can set has a run of openers that lets in 2 * max - 1. */
  lemma EveryLimitReachesBound(packed: u32)
    requires RateMax(packed) >= 1 && 1 <= RateWindow(packed) <= U16_MAX
    ensures var max: nat, window: nat := RateMax(packed), RateWindow(packed) * 1_000_000_000;
      && 1 <= window < U64_MAX
      && var times := Burst(max, window);
      && |times| == 2 * max && Ordered(times) && times[2 * max - 1] - times[1] <= window
      && CountAdmitted(times, max, window, 1, 2 * max) == 2 * max - 1
  {
    IntervalBoundReached(RateMax(packed), WindowNs(packed));
  }
}
