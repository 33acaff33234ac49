/** Ban lengths over a source's whole ban history (detector.rs `escalate`). */
module Escalation {
  import opened Words
  import opened Wrappers
  import opened Common
  import opened Configuration
  import opened Detectors
  import opened DetectorRuns
  import opened DetectorLog
  import Postures

  /** The times of the events answered with a ban, oldest first. */
  function TimesOf(answers: seq<Option<Ban>>, evs: Log): seq<nat>
    requires |answers| == |evs|
  {
    if evs == [] then []
    else (if answers[0].Some? then [evs[0].now] else []) + TimesOf(answers[1..], evs[1..])
  }

  function BansIn(answers: seq<Option<Ban>>): seq<Ban> {
    if answers == [] then []
    else (if answers[0].Some? then [answers[0].value] else []) + BansIn(answers[1..])
  }

  /** `k` is the length of the unbroken chain a history of ban times ends in: no gap inside it longer than `forgive`. */
  ghost predicate TrailingChain(times: seq<nat>, k: nat, forgive: nat) {
    && 1 <= k <= |times|
    && (forall i :: |times| - k < i < |times| ==> times[i] <= times[i - 1] + forgive)
    && (k < |times| ==> times[|times| - k] > times[|times| - k - 1] + forgive)
  }

  /** A history ends in one chain only. */
  lemma ChainUnique(times: seq<nat>, j: nat, k: nat, forgive: nat)
    requires TrailingChain(times, j, forgive) && TrailingChain(times, k, forgive)
    ensures j == k
  {
  }

  ghost predicate NonDecreasing(times: seq<nat>) {
    forall i, j :: 0 <= i <= j < |times| ==> times[i] <= times[j]
  }

  /** What is remembered of an offender is its last ban and the length of its chain. */
  ghost predicate Recorded(times: seq<nat>, o: Option<Offender>, forgive: nat) {
    if times == [] then o == None
    else o.Some? && o.value.lastBan == times[|times| - 1] && TrailingChain(times, o.value.strikes, forgive)
  }

  /** A history of bans up to `t0` that what is remembered of the offender stands for. */
  ghost predicate History(past: seq<nat>, o: Option<Offender>, forgive: nat, t0: nat) {
    Recorded(past, o, forgive) && NonDecreasing(past) && (past != [] ==> past[|past| - 1] <= t0)
  }

  /**
   * For one: as many bans as strikes, all at the last ban. So any standing record has a history, a restored one too.
   */
  function PastOf(o: Option<Offender>): seq<nat> {
    if o.None? then [] else seq(o.value.strikes, _ => o.value.lastBan)
  }

  lemma EveryRecordHasHistory(o: Option<Offender>, forgive: nat, t0: nat)
    requires o.Some? ==> o.value.strikes >= 1 && o.value.lastBan <= t0
    ensures History(PastOf(o), o, forgive, t0)
  {
  }

  lemma StruckExtendsChain(bans: BanConfig, times: seq<nat>, o: Option<Offender>, now: nat)
    requires Recorded(times, o, bans.forgiveSecs)
    requires NonDecreasing(times + [now])
    ensures Recorded(times + [now], Some(Struck(bans, o, now)), bans.forgiveSecs)
  {
    var h := times + [now];
    if times != [] {
      var n := |times|;
      assert h[n - 1] == times[n - 1] && h[n - 1] <= h[n];
      var k := Struck(bans, o, now).strikes;
      if now - times[n - 1] <= bans.forgiveSecs {
        forall i | |h| - k < i < |h| ensures h[i] <= h[i - 1] + bans.forgiveSecs {
          if i < n {
            assert times[i] <= times[i - 1] + bans.forgiveSecs;
          }
        }
        if k < |h| {
          assert times[n - (k - 1)] > times[n - (k - 1) - 1] + bans.forgiveSecs;
        }
      }
    }
  }

  /** What a ban adds to the record of its source. */
  lemma BanExtendsRecord(cfg: DetectorConfig, bans: BanConfig, past: seq<nat>, st: SourceState, ev: PacketEvent,
                         now: nat)
    requires cfg.Valid() && Recorded(past, st.offender, bans.forgiveSecs) && NonDecreasing(past + [now])
    ensures var r := Alone(cfg, bans, st, ev, now);
      && (r.1.None? ==> r.0.offender == st.offender)
      && (r.1.Some? ==>
            Recorded(past + [now], r.0.offender, bans.forgiveSecs) && BanFollows(bans, past + [now], r.1.value))
  {
    StruckExtendsChain(bans, past, st.offender, now);
  }

  /** A ban whose strikes are the chain its history ends in, and whose length goes with them. */
  ghost predicate BanFollows(bans: BanConfig, times: seq<nat>, b: Ban) {
    TrailingChain(times, b.strikes, bans.forgiveSecs) && b.secs == BanSecs(bans, b.strikes)
  }

  /** Every ban among the answers follows from the bans before it. */
  ghost predicate AllFollow(bans: BanConfig, past: seq<nat>, answers: seq<Option<Ban>>, evs: Log)
    requires |answers| == |evs|
    decreases |evs|
  {
    if evs == [] then true
    else if answers[0].None? then AllFollow(bans, past, answers[1..], evs[1..])
    else
      BanFollows(bans, past + [evs[0].now], answers[0].value)
      && AllFollow(bans, past + [evs[0].now], answers[1..], evs[1..])
  }

  lemma {:induction false} AloneFollows(cfg: DetectorConfig, bans: BanConfig, past: seq<nat>, st: SourceState,
                                        evs: Log, t0: nat)
    requires cfg.Valid() && Ordered(evs, t0) && History(past, st.offender, bans.forgiveSecs, t0)
    ensures |AnswersAlone(cfg, bans, st, evs)| == |evs|
    ensures AllFollow(bans, past, AnswersAlone(cfg, bans, st, evs), evs)
    decreases |evs|
  {
    if evs != [] {
      var now := evs[0].now;
      var r := Alone(cfg, bans, st, evs[0].ev, now);
      assert NonDecreasing(past + [now]);
      BanExtendsRecord(cfg, bans, past, st, evs[0].ev, now);
      AloneFollows(cfg, bans, if r.1.Some? then past + [now] else past, r.0, evs[1..], now);
      var a := AnswersAlone(cfg, bans, st, evs);
      assert a[0] == r.1 && a[1..] == AnswersAlone(cfg, bans, r.0, evs[1..]);
    }
  }

  lemma {:induction false} FollowsAt(bans: BanConfig, past: seq<nat>, answers: seq<Option<Ban>>, evs: Log, i: nat)
    requires |answers| == |evs| && AllFollow(bans, past, answers, evs)
    requires i < |TimesOf(answers, evs)|
    ensures |BansIn(answers)| == |TimesOf(answers, evs)|
    ensures BanFollows(bans, past + TimesOf(answers, evs)[..i + 1], BansIn(answers)[i])
    decreases |evs|
  {
    hide BanFollows;
    SameLength(answers, evs);
    var tail := TimesOf(answers[1..], evs[1..]);
    if answers[0].None? {
      FollowsAt(bans, past, answers[1..], evs[1..], i);
      assert TimesOf(answers, evs) == tail;
    } else {
      var now := evs[0].now;
      assert TimesOf(answers, evs)[..i + 1] == [now] + tail[..i];
      assert past + ([now] + tail[..i]) == (past + [now]) + tail[..i];
      if i == 0 {
        assert (past + [now]) + tail[..0] == past + [now];
      } else {
        FollowsAt(bans, past + [now], answers[1..], evs[1..], i - 1);
      }
    }
  }

  lemma {:induction false} SameLength(answers: seq<Option<Ban>>, evs: Log)
    requires |answers| == |evs|
    ensures |BansIn(answers)| == |TimesOf(answers, evs)|
  {
    if evs != [] {
      SameLength(answers[1..], evs[1..]);
    }
  }

  lemma {:induction false} TimesOrdered(answers: seq<Option<Ban>>, evs: Log, t0: nat)
    requires |answers| == |evs| && Ordered(evs, t0)
    ensures NonDecreasing(TimesOf(answers, evs))
    ensures forall i :: 0 <= i < |TimesOf(answers, evs)| ==> TimesOf(answers, evs)[i] >= t0
  {
    if evs != [] {
      TimesOrdered(answers[1..], evs[1..], evs[0].now);
    }
  }

  /** The multiplication saturates only beyond the maximum, so saturation cannot be noticed. */
  lemma BanSecsExact(bans: BanConfig, strikes: nat)
    requires bans.Valid() && strikes >= 1
    ensures BanSecs(bans, strikes) == Min(bans.baseSecs * Pow2(Min(strikes - 1, 20)), bans.maxSecs)
    ensures bans.baseSecs <= BanSecs(bans, strikes) <= bans.maxSecs
  {
    var f := Pow2(Min(strikes - 1, 20));
    assert bans.baseSecs * f >= bans.baseSecs;
  }

  lemma FourfoldCapped(base: nat, most: nat, f: nat, cap: nat)
    requires f >= 1 && 0 < base <= most <= cap
    ensures var (b, m) := (Min(4 * base, cap), Min(4 * most, cap));
      Min(b * f, m) == Min(4 * Min(base * f, most), cap)
  {
    MulMonotone(base, 1, f);
    if 4 * base > cap {
      MulMonotone(cap, 1, f);
    } else {
      assert 4 * base * f == 4 * (base * f);
    }
  }

  /** Lockdown's promise: every ban is four times as long, short of 2^64 seconds. */
  lemma LockdownBansAreFourfold(bans: BanConfig, strikes: nat)
    requires bans.Valid() && strikes >= 1
    ensures Postures.LockedBans(bans).Valid()
    ensures BanSecs(Postures.LockedBans(bans), strikes) == Min(4 * BanSecs(bans, strikes), U64_MAX)
  {
    var locked := Postures.LockedBans(bans);
    assert locked.baseSecs == Min(4 * bans.baseSecs, U64_MAX) && locked.maxSecs == Min(4 * bans.maxSecs, U64_MAX);
    BanSecsExact(bans, strikes);
    BanSecsExact(locked, strikes);
    FourfoldCapped(bans.baseSecs, bans.maxSecs, Pow2(Min(strikes - 1, 20)), U64_MAX);
  }

  lemma BanSecsMonotone(bans: BanConfig, j: nat, k: nat)
    requires bans.Valid() && 1 <= j <= k
    ensures BanSecs(bans, j) <= BanSecs(bans, k)
  {
    BanSecsExact(bans, j);
    BanSecsExact(bans, k);
    Pow2Monotone(Min(j - 1, 20), Min(k - 1, 20));
    MulMonotone(bans.baseSecs, Pow2(Min(j - 1, 20)), Pow2(Min(k - 1, 20)));
  }

  lemma MulMonotone(a: nat, x: nat, y: nat)
    requires x <= y
    ensures a * x <= a * y
  {
  }

  /** The answers a source gets in a full run, and its own events, one answer each. */
  lemma AnswersFollow(s: State, ops: seq<Op>, x: Src, t0: nat, past: seq<nat>)
    requires Sound(s) && Ordered(ops, t0) && NeverDeafTo(s, ops, x)
    requires !Protected(s.protected, s.protected6, x) && History(past, View(s, x, t0).offender, s.bans.forgiveSecs, t0)
    ensures forall i :: 0 <= i < |EventsFrom(ops, x)| ==> EventsFrom(ops, x)[i].Event?
    ensures |AnswersTo(s, ops, x)| == |EventsFrom(ops, x)|
    ensures AllFollow(s.bans, past, AnswersTo(s, ops, x), EventsFrom(ops, x))
  {
    AnsweredAsIfAlone(s, ops, x, t0);
    EventsFromOrdered(ops, x, t0);
    AloneFollows(s.cfg, s.bans, past, View(s, x, t0), EventsFrom(ops, x), t0);
  }

  /**
   * In a full run, prunes and other sources included, every ban of a source has as strikes the length of the chain its
   * ban times end in, those its standing record stands for included, and as length base * 2^(strikes - 1), doubled at
   * most 20 times and capped at the maximum.
   */
  lemma EscalationOverHistory(s: State, ops: seq<Op>, x: Src, t0: nat, past: seq<nat>, a: seq<Option<Ban>>, evs: Log,
                              i: nat)
    requires Sound(s) && Ordered(ops, t0) && NeverDeafTo(s, ops, x)
    requires !Protected(s.protected, s.protected6, x) && History(past, View(s, x, t0).offender, s.bans.forgiveSecs, t0)
    requires a == AnswersTo(s, ops, x) && evs == EventsFrom(ops, x) && i < |BansIn(a)|
    ensures |a| == |evs| && |BansIn(a)| == |TimesOf(a, evs)|
    ensures var b := BansIn(a)[i];
      && TrailingChain(past + TimesOf(a, evs)[..i + 1], b.strikes, s.bans.forgiveSecs)
      && b.secs == Min(s.bans.baseSecs * Pow2(Min(b.strikes - 1, 20)), s.bans.maxSecs)
      && s.bans.baseSecs <= b.secs <= s.bans.maxSecs
  {
    AnswersFollow(s, ops, x, t0, past);
    HistoryAt(s.bans, past, a, evs, i);
  }

  lemma HistoryAt(bans: BanConfig, past: seq<nat>, a: seq<Option<Ban>>, evs: Log, i: nat)
    requires bans.Valid() && |a| == |evs| && AllFollow(bans, past, a, evs) && i < |BansIn(a)|
    ensures |BansIn(a)| == |TimesOf(a, evs)|
    ensures var b := BansIn(a)[i];
      && TrailingChain(past + TimesOf(a, evs)[..i + 1], b.strikes, bans.forgiveSecs)
      && b.secs == BanSecs(bans, b.strikes)
      && b.secs == Min(bans.baseSecs * Pow2(Min(b.strikes - 1, 20)), bans.maxSecs)
      && bans.baseSecs <= b.secs <= bans.maxSecs
  {
    var times, b := TimesOf(a, evs), BansIn(a);
    assert |b| == |times| by {
      SameLength(a, evs);
    }
    assert BanFollows(bans, past + times[..i + 1], b[i]) by {
      FollowsAt(bans, past, a, evs, i);
    }
    BanSecsExact(bans, b[i].strikes);
  }

  /** Along a chain neither lengths nor ends go down: each ban outlasts the one before. */
  lemma ChainNeverShortens(s: State, ops: seq<Op>, x: Src, t0: nat, past: seq<nat>, a: seq<Option<Ban>>, evs: Log,
                           i: nat)
    requires Sound(s) && Ordered(ops, t0) && NeverDeafTo(s, ops, x)
    requires !Protected(s.protected, s.protected6, x) && History(past, View(s, x, t0).offender, s.bans.forgiveSecs, t0)
    requires a == AnswersTo(s, ops, x) && evs == EventsFrom(ops, x) && i + 1 < |BansIn(a)|
    ensures |a| == |evs| && |BansIn(a)| == |TimesOf(a, evs)|
    ensures var (times, b) := (TimesOf(a, evs), BansIn(a));
      times[i + 1] - times[i] <= s.bans.forgiveSecs ==>
        && b[i + 1].strikes == b[i].strikes + 1
        && b[i].secs <= b[i + 1].secs
        && times[i] + b[i].secs <= times[i + 1] + b[i + 1].secs
  {
    AnswersFollow(s, ops, x, t0, past);
    EventsFromOrdered(ops, x, t0);
    ChainStep(s.bans, past, a, evs, t0, i);
  }

  lemma ChainStep(bans: BanConfig, past: seq<nat>, a: seq<Option<Ban>>, evs: Log, t0: nat, i: nat)
    requires bans.Valid() && |a| == |evs| && AllFollow(bans, past, a, evs) && Ordered(evs, t0)
    requires i + 1 < |BansIn(a)|
    ensures |BansIn(a)| == |TimesOf(a, evs)|
    ensures var (times, b) := (TimesOf(a, evs), BansIn(a));
      times[i + 1] - times[i] <= bans.forgiveSecs ==>
        && b[i + 1].strikes == b[i].strikes + 1
        && b[i].secs <= b[i + 1].secs
        && times[i] + b[i].secs <= times[i + 1] + b[i + 1].secs
  {
    var times, b := TimesOf(a, evs), BansIn(a);
    assert |b| == |times| by {
      SameLength(a, evs);
    }
    hide TrailingChain, AllFollow, BanSecs;
    var g, h, c := past + times[..i + 1], past + times[..i + 2], b[i + 1];
    assert TrailingChain(g, b[i].strikes, bans.forgiveSecs) && b[i].secs == BanSecs(bans, b[i].strikes) by {
      HistoryAt(bans, past, a, evs, i);
    }
    assert TrailingChain(h, c.strikes, bans.forgiveSecs) && c.secs == BanSecs(bans, c.strikes) by {
      HistoryAt(bans, past, a, evs, i + 1);
    }
    assert times[i] <= times[i + 1] by {
      TimesOrdered(a, evs, t0);
    }
    assert g == h[..|h| - 1];
    ChainPair(bans, h, g, b[i], c);
  }

  lemma ChainPair(bans: BanConfig, h: seq<nat>, g: seq<nat>, b: Ban, c: Ban)
    requires bans.Valid() && |h| >= 2 && g == h[..|h| - 1]
    requires TrailingChain(g, b.strikes, bans.forgiveSecs) && TrailingChain(h, c.strikes, bans.forgiveSecs)
    requires b.secs == BanSecs(bans, b.strikes) && c.secs == BanSecs(bans, c.strikes)
    ensures h[|h| - 1] - h[|h| - 2] <= bans.forgiveSecs ==> c.strikes == b.strikes + 1 && b.secs <= c.secs
  {
    if h[|h| - 1] - h[|h| - 2] <= bans.forgiveSecs {
      ChainPlusOne(h, b.strikes, bans.forgiveSecs);
      ChainUnique(h, b.strikes + 1, c.strikes, bans.forgiveSecs);
      BanSecsMonotone(bans, b.strikes, c.strikes);
    }
  }

  lemma ChainPlusOne(h: seq<nat>, k: nat, forgive: nat)
    requires |h| >= 2 && TrailingChain(h[..|h| - 1], k, forgive) && h[|h| - 1] <= h[|h| - 2] + forgive
    ensures TrailingChain(h, k + 1, forgive)
  {
    var g := h[..|h| - 1];
    forall i | |h| - (k + 1) < i < |h| ensures h[i] <= h[i - 1] + forgive {
      if i < |g| {
        assert g[i] <= g[i - 1] + forgive;
      }
    }
    if k + 1 < |h| {
      assert g[|g| - k] > g[|g| - k - 1] + forgive;
    }
  }
}
