/** Two runs of the detector compared: pruning cannot be noticed, and sources do not affect each other. */
module DetectorRuns {
  import opened Words
  import opened Wrappers
  import opened Collections
  import opened Common
  import opened Cidrs
  import opened Configuration
  import opened Detectors

  datatype Op = Event(ev: PacketEvent, now: nat) | PruneAt(now: nat)

  function StateAfter(s: State, op: Op): State
    requires s.cfg.Valid()
  {
    match op
    case Event(ev, now) => Observed(s, ev, now).0
    case PruneAt(now) => Pruned(s, now)
  }

  /** What `observe` returns for each event of a run. */
  function Answers(s: State, ops: seq<Op>): seq<Option<Ban>>
    requires s.cfg.Valid()
    decreases |ops|
  {
    if ops == [] then []
    else
      (if ops[0].Event? then [Observed(s, ops[0].ev, ops[0].now).1] else [])
      + Answers(StateAfter(s, ops[0]), ops[1..])
  }

  /** The answers to one source's events. */
  function AnswersTo(s: State, ops: seq<Op>, x: Src): seq<Option<Ban>>
    requires s.cfg.Valid()
    decreases |ops|
  {
    if ops == [] then []
    else
      (if ops[0].Event? && ops[0].ev.src == x then [Observed(s, ops[0].ev, ops[0].now).1] else [])
      + AnswersTo(StateAfter(s, ops[0]), ops[1..], x)
  }

  /** A clock that does not go back, from `t0` on. */
  predicate Ordered(ops: seq<Op>, t0: nat) {
    ops == [] || (t0 <= ops[0].now && Ordered(ops[1..], ops[0].now))
  }

  function EventsOnly(ops: seq<Op>): seq<Op> {
    if ops == [] then []
    else (if ops[0].Event? then [ops[0]] else []) + EventsOnly(ops[1..])
  }

  function EventsFrom(ops: seq<Op>, x: Src): seq<Op> {
    if ops == [] then []
    else (if ops[0].Event? && ops[0].ev.src == x then [ops[0]] else []) + EventsFrom(ops[1..], x)
  }

  /** What still matters of a source at time `now`: an unfinished window, an unforgiven ban. */
  function Fade(cfg: DetectorConfig, bans: BanConfig, st: SourceState, now: nat): SourceState {
    SourceState(
      if st.track.Some? && !Stale(st.track.value, now, cfg.windowSecs) then st.track else None,
      if st.offender.Some? && SatSub(now, st.offender.value.lastBan) <= bans.forgiveSecs then st.offender else None)
  }

  function View(s: State, x: Src, now: nat): SourceState {
    Fade(s.cfg, s.bans, Known(s, x), now)
  }

  lemma FadeAgain(cfg: DetectorConfig, bans: BanConfig, st: SourceState, now: nat, later: nat)
    requires now <= later
    ensures Fade(cfg, bans, Fade(cfg, bans, st, now), later) == Fade(cfg, bans, st, later)
  {
  }

  /** An event's answer, and everything that can be seen later, depend only on what still matters. */
  lemma AloneSeesFaded(cfg: DetectorConfig, bans: BanConfig, st: SourceState, ev: PacketEvent, now: nat, later: nat)
    requires cfg.Valid() && now <= later
    ensures var (a, b) := (Alone(cfg, bans, st, ev, now), Alone(cfg, bans, Fade(cfg, bans, st, now), ev, now));
      a.1 == b.1 && Fade(cfg, bans, a.0, later) == Fade(cfg, bans, b.0, later)
  {
    assert CurrentTrack(st.track, now, cfg.windowSecs) ==
           CurrentTrack(Fade(cfg, bans, st, now).track, now, cfg.windowSecs);
    assert Struck(bans, st.offender, now) == Struck(bans, Fade(cfg, bans, st, now).offender, now);
  }

  /** Pruning removes only what no longer matters. */
  lemma PrunedView(s: State, now: nat, x: Src, later: nat)
    requires now <= later
    ensures View(Pruned(s, now), x, later) == View(s, x, later)
  {
  }

  /** New protected addresses: what was running against a source among them is forgotten, all else is as it was. */
  lemma ReprotectedView(s: State, protected: seq<Cidr>, protected6: seq<u64>, x: Src, now: nat)
    ensures var (before, after) := (View(s, x, now), View(Reprotected(s, protected, protected6), x, now));
      && after.offender == before.offender
      && after.track == if Exempt(protected, protected6, x) then None else before.track
  {
    ProtectedIff(protected, protected6, x);
  }

  /** Pruning keeps an offender while a ban of the longest length and the time to be forgiven after it may still run. */
  lemma PruneKeepsIff(s: State, now: nat, x: Src)
    requires x in s.offenders && s.bans.forgiveSecs + s.bans.maxSecs <= U64_MAX
    ensures x in Pruned(s, now).offenders <==> now <= s.offenders[x].lastBan + s.bans.maxSecs + s.bans.forgiveSecs
    ensures x in Pruned(s, now).offenders ==> Pruned(s, now).offenders[x] == s.offenders[x]
  {
  }

  /** The sources with an unfinished window. */
  function LiveSources(s: State, now: nat): set<Src> {
    set x | x in s.tracks && !Stale(s.tracks[x], now, s.cfg.windowSecs)
  }

  /** The table is full of other sources' unfinished windows. */
  predicate Saturated(s: State, x: Src, now: nat) {
    |LiveSources(s, now) - {x}| >= 16384
  }

  lemma PrunedKeys(s: State, now: nat)
    ensures Pruned(s, now).tracks.Keys == LiveSources(s, now)
  {
  }

  /** The early return is taken exactly when the table is saturated for the source. */
  lemma DeafIff(s: State, x: Src, now: nat)
    requires Sound(s)
    ensures (|s.tracks| >= MAX_TRACKED && x !in s.tracks
        && |Pruned(s, now).tracks| >= MAX_TRACKED) <==> Saturated(s, x, now)
    ensures Saturated(s, x, now) ==> x !in s.tracks
  {
    PrunedKeys(s, now);
    var live, others := LiveSources(s, now), LiveSources(s, now) - {x};
    assert |Pruned(s, now).tracks| == |live|;
    SubsetCard(others, s.tracks.Keys);
    if x !in live {
      assert others == live;
    }
  }

  /** The state an event is counted in: pruned first when the table is full and the source is new. */
  function Prepared(s: State, x: Src, now: nat): State {
    if |s.tracks| >= MAX_TRACKED && x !in s.tracks then Pruned(s, now) else s
  }

  predicate Deaf(s: State, x: Src, now: nat) {
    Protected(s.protected, s.protected6, x) || Saturated(s, x, now)
  }

  lemma ObservedCases(s: State, ev: PacketEvent, now: nat)
    requires Sound(s)
    ensures var (s1, r) := (Prepared(s, ev.src, now), Observed(s, ev, now));
      if Protected(s.protected, s.protected6, ev.src) then r == (s, None)
      else if Saturated(s, ev.src, now) then r == (s1, None)
      else var one := Alone(s.cfg, s.bans, Known(s1, ev.src), ev, now);
        r == (WithSource(s1, ev.src, one.0), one.1)
  {
    DeafIff(s, ev.src, now);
  }

  lemma WithSourceView(s: State, x: Src, st: SourceState, y: Src, later: nat)
    ensures View(WithSource(s, x, st), y, later) == if y == x then Fade(s.cfg, s.bans, st, later) else View(s, y, later)
  {
  }

  lemma PreparedView(s: State, x: Src, now: nat, y: Src, later: nat)
    requires now <= later
    ensures View(Prepared(s, x, now), y, later) == View(s, y, later)
    ensures Prepared(s, x, now).cfg == s.cfg && Prepared(s, x, now).bans == s.bans
  {
    PrunedView(s, now, y, later);
  }

  /** What one event does to every source, as far as can be seen from then on. */
  lemma ObservedViews(s: State, ev: PacketEvent, now: nat, y: Src, later: nat)
    requires Sound(s) && now <= later
    ensures var (s', ban) := Observed(s, ev, now);
      if Deaf(s, ev.src, now) then ban == None && View(s', y, later) == View(s, y, later)
      else var r := Alone(s.cfg, s.bans, View(s, ev.src, now), ev, now);
        ban == r.1 && View(s', y, later) == if y == ev.src then Fade(s.cfg, s.bans, r.0, later) else View(s, y, later)
  {
    var x := ev.src;
    var s1 := Prepared(s, x, now);
    ObservedCases(s, ev, now);
    PreparedView(s, x, now, y, later);
    if !Deaf(s, x, now) {
      PreparedView(s, x, now, x, now);
      AloneSeesFaded(s.cfg, s.bans, Known(s1, x), ev, now, later);
      WithSourceView(s1, x, Alone(s.cfg, s.bans, Known(s1, x), ev, now).0, y, later);
    }
  }

  /**
   * A step treats its source as if alone exactly when the table is not saturated: a full table makes the detector
   * deaf to new sources.
   */
  lemma StepIsAloneIff(s: State, ev: PacketEvent, now: nat)
    requires Sound(s) && !Protected(s.protected, s.protected6, ev.src)
    ensures var (s', ban) := Observed(s, ev, now);
      var r := Alone(s.cfg, s.bans, View(s, ev.src, now), ev, now);
      (ban == r.1 && View(s', ev.src, now) == Fade(s.cfg, s.bans, r.0, now)) <==> !Saturated(s, ev.src, now)
  {
    ObservedViews(s, ev, now, ev.src, now);
    DeafIff(s, ev.src, now);
    if Saturated(s, ev.src, now) {
      var t := Tally(s.cfg, CurrentTrack(None, now, s.cfg.windowSecs), ev);
      assert !Stale(t, now, s.cfg.windowSecs);
    }
  }

  /** Two detectors that cannot be told apart from time `now` on. */
  ghost predicate Alike(s: State, s': State, now: nat) {
    && Sound(s) && Sound(s')
    && s.cfg == s'.cfg && s.bans == s'.bans && s.protected == s'.protected && s.protected6 == s'.protected6
    && forall x :: View(s, x, now) == View(s', x, now)
  }

  lemma AlikeLater(s: State, s': State, now: nat, later: nat)
    requires Alike(s, s', now) && now <= later
    ensures Alike(s, s', later)
    ensures LiveSources(s, now) == LiveSources(s', now)
  {
    forall x ensures View(s, x, later) == View(s', x, later) {
      assert View(s, x, now) == View(s', x, now);
      FadeAgain(s.cfg, s.bans, Known(s, x), now, later);
      FadeAgain(s.cfg, s.bans, Known(s', x), now, later);
    }
    forall x ensures x in LiveSources(s, now) <==> x in LiveSources(s', now) {
      assert View(s, x, now) == View(s', x, now);
    }
  }

  lemma AlikeStep(s: State, s': State, ev: PacketEvent, now: nat, x: Src)
    requires Alike(s, s', now)
    ensures Observed(s, ev, now).1 == Observed(s', ev, now).1
    ensures View(Observed(s, ev, now).0, x, now) == View(Observed(s', ev, now).0, x, now)
  {
    AlikeLater(s, s', now, now);
    assert Deaf(s, ev.src, now) == Deaf(s', ev.src, now);
    assert View(s, ev.src, now) == View(s', ev.src, now) && View(s, x, now) == View(s', x, now);
    ObservedViews(s, ev, now, x, now);
    ObservedViews(s', ev, now, x, now);
  }

  lemma AlikeObserved(s: State, s': State, ev: PacketEvent, now: nat)
    requires Alike(s, s', now)
    ensures Observed(s, ev, now).1 == Observed(s', ev, now).1
    ensures Alike(Observed(s, ev, now).0, Observed(s', ev, now).0, now)
  {
    AlikeStep(s, s', ev, now, ev.src);
    var t, t' := Observed(s, ev, now).0, Observed(s', ev, now).0;
    assert Sound(t) && Sound(t') by {
      ObservedSound(s, ev, now);
      ObservedSound(s', ev, now);
    }
    assert t.cfg == t'.cfg && t.bans == t'.bans && t.protected == t'.protected && t.protected6 == t'.protected6 by {
      ObservedKeepsConfig(s, ev, now);
      ObservedKeepsConfig(s', ev, now);
    }
    forall x ensures View(t, x, now) == View(t', x, now) {
      AlikeStep(s, s', ev, now, x);
    }
  }

  lemma {:induction false} AlikeAnswers(s: State, s': State, ops: seq<Op>, t0: nat)
    requires Alike(s, s', t0) && Ordered(ops, t0)
    ensures Answers(s, ops) == Answers(s', EventsOnly(ops))
    decreases |ops|
  {
    if ops != [] {
      var now := ops[0].now;
      AlikeLater(s, s', t0, now);
      match ops[0]
      case Event(ev, _) =>
        AlikeObserved(s, s', ev, now);
        AlikeAnswers(StateAfter(s, ops[0]), StateAfter(s', ops[0]), ops[1..], now);
        assert EventsOnly(ops)[1..] == EventsOnly(ops[1..]);
      case PruneAt(_) =>
        PrunedSound(s, now);
        forall x ensures View(Pruned(s, now), x, now) == View(s', x, now) {
          PrunedView(s, now, x, now);
        }
        AlikeAnswers(Pruned(s, now), s', ops[1..], now);
        assert EventsOnly(ops) == EventsOnly(ops[1..]);
    }
  }

  /**
   * Pruning is invisible: whatever the number of sources, prunes inserted anywhere in a run change no answer.
   */
  lemma PruneInvisible(s: State, ops: seq<Op>, t0: nat)
    requires Sound(s) && Ordered(ops, t0)
    ensures Answers(s, ops) == Answers(s, EventsOnly(ops))
  {
    AlikeAnswers(s, s, ops, t0);
  }

  /** The table is never saturated when an event of `x` arrives. */
  predicate NeverDeafTo(s: State, ops: seq<Op>, x: Src)
    requires s.cfg.Valid()
    decreases |ops|
  {
    ops == [] ||
    ((ops[0].Event? && ops[0].ev.src == x ==> !Saturated(s, x, ops[0].now))
        && NeverDeafTo(StateAfter(s, ops[0]), ops[1..], x))
  }

  /** One source's events, answered from what is known about that source alone. */
  function AnswersAlone(cfg: DetectorConfig, bans: BanConfig, st: SourceState, evs: seq<Op>): seq<Option<Ban>>
    requires cfg.Valid() && forall i :: 0 <= i < |evs| ==> evs[i].Event?
    decreases |evs|
  {
    if evs == [] then []
    else
      var r := Alone(cfg, bans, st, evs[0].ev, evs[0].now);
      [r.1] + AnswersAlone(cfg, bans, r.0, evs[1..])
  }

  lemma {:induction false} EventsFromAreEvents(ops: seq<Op>, x: Src)
    ensures forall i :: 0 <= i < |EventsFrom(ops, x)| ==>
      EventsFrom(ops, x)[i].Event? && EventsFrom(ops, x)[i].ev.src == x
  {
    if ops != [] {
      EventsFromAreEvents(ops[1..], x);
    }
  }

  lemma {:induction false} AloneSeesFadedRun(cfg: DetectorConfig, bans: BanConfig, st: SourceState, st': SourceState,
                                             evs: seq<Op>, t0: nat)
    requires cfg.Valid() && Ordered(evs, t0) && forall i :: 0 <= i < |evs| ==> evs[i].Event?
    requires Fade(cfg, bans, st, t0) == Fade(cfg, bans, st', t0)
    ensures AnswersAlone(cfg, bans, st, evs) == AnswersAlone(cfg, bans, st', evs)
    decreases |evs|
  {
    if evs != [] {
      var ev, now := evs[0].ev, evs[0].now;
      FadeAgain(cfg, bans, st, t0, now);
      FadeAgain(cfg, bans, st', t0, now);
      AloneSeesFaded(cfg, bans, st, ev, now, now);
      AloneSeesFaded(cfg, bans, st', ev, now, now);
      AloneSeesFadedRun(cfg, bans, Alone(cfg, bans, st, ev, now).0, Alone(cfg, bans, st', ev, now).0, evs[1..], now);
    }
  }

  lemma {:induction false} EventsFromOrdered(ops: seq<Op>, x: Src, t0: nat)
    requires Ordered(ops, t0)
    ensures Ordered(EventsFrom(ops, x), t0)
  {
    if ops != [] {
      EventsFromOrdered(ops[1..], x, ops[0].now);
      OrderedEarlier(EventsFrom(ops[1..], x), t0, ops[0].now);
      if ops[0].Event? && ops[0].ev.src == x {
        assert EventsFrom(ops, x)[1..] == EventsFrom(ops[1..], x);
      } else {
        assert EventsFrom(ops, x) == EventsFrom(ops[1..], x);
      }
    }
  }

  lemma OrderedEarlier(ops: seq<Op>, t0: nat, t1: nat)
    requires t0 <= t1 && Ordered(ops, t1)
    ensures Ordered(ops, t0)
  {
  }

  /** A step that is not an event of `x` leaves everything about `x` as it was. */
  lemma OtherStepKeepsView(s: State, op: Op, x: Src, later: nat)
    requires Sound(s) && op.now <= later && !(op.Event? && op.ev.src == x)
    ensures Sound(StateAfter(s, op)) && View(StateAfter(s, op), x, later) == View(s, x, later)
    ensures var s' := StateAfter(s, op);
      s'.cfg == s.cfg && s'.bans == s.bans && s'.protected == s.protected && s'.protected6 == s.protected6
  {
    match op
    case Event(ev, now) =>
      ObservedSound(s, ev, now);
      ObservedViews(s, ev, now, x, later);
      ObservedKeepsConfig(s, ev, now);
    case PruneAt(now) =>
      PrunedSound(s, now);
      PrunedView(s, now, x, later);
  }

  lemma ObservedKeepsConfig(s: State, ev: PacketEvent, now: nat)
    requires Sound(s)
    ensures var s' := Observed(s, ev, now).0;
      s'.cfg == s.cfg && s'.bans == s.bans && s'.protected == s.protected && s'.protected6 == s.protected6
  {
    ObservedCases(s, ev, now);
  }

  /** An event of `x`, when the detector is not deaf to it, is a step of `x` alone. */
  lemma OwnStepIsAlone(s: State, ev: PacketEvent, t0: nat, now: nat)
    requires Sound(s) && t0 <= now && !Deaf(s, ev.src, now)
    ensures var r := Alone(s.cfg, s.bans, View(s, ev.src, t0), ev, now);
      var (s', ban) := Observed(s, ev, now);
      && Sound(s') && ban == r.1
      && View(s', ev.src, now) == Fade(s.cfg, s.bans, r.0, now)
  {
    var x := ev.src;
    ObservedSound(s, ev, now);
    ObservedViews(s, ev, now, x, now);
    FadeAgain(s.cfg, s.bans, Known(s, x), t0, now);
    AloneSeesFaded(s.cfg, s.bans, View(s, x, t0), ev, now, now);
  }

  /** The answers to a source are those it would get alone, over any run that is never deaf to it. */
  lemma {:induction false} AnsweredAsIfAlone(s: State, ops: seq<Op>, x: Src, t0: nat)
    requires Sound(s) && Ordered(ops, t0) && NeverDeafTo(s, ops, x)
    requires !Protected(s.protected, s.protected6, x)
    ensures forall i :: 0 <= i < |EventsFrom(ops, x)| ==> EventsFrom(ops, x)[i].Event?
    ensures AnswersTo(s, ops, x) == AnswersAlone(s.cfg, s.bans, View(s, x, t0), EventsFrom(ops, x))
    decreases |ops|, 1
  {
    EventsFromAreEvents(ops, x);
    if ops != [] {
      if ops[0].Event? && ops[0].ev.src == x {
        OwnStep(s, ops, x, t0);
      } else {
        OtherStep(s, ops, x, t0);
      }
    }
  }

  lemma {:induction false} OwnStep(s: State, ops: seq<Op>, x: Src, t0: nat)
    requires Sound(s) && Ordered(ops, t0) && NeverDeafTo(s, ops, x)
    requires !Protected(s.protected, s.protected6, x)
    requires ops != [] && ops[0].Event? && ops[0].ev.src == x
    ensures forall i :: 0 <= i < |EventsFrom(ops, x)| ==> EventsFrom(ops, x)[i].Event?
    ensures AnswersTo(s, ops, x) == AnswersAlone(s.cfg, s.bans, View(s, x, t0), EventsFrom(ops, x))
    decreases |ops|, 0
  {
    var ev, now, rest := ops[0].ev, ops[0].now, ops[1..];
    var s' := StateAfter(s, ops[0]);
    EventsFromAreEvents(ops, x);
    EventsFromAreEvents(rest, x);
    EventsFromOrdered(rest, x, now);
    OwnStepIsAlone(s, ev, t0, now);
    ObservedKeepsConfig(s, ev, now);
    AnsweredAsIfAlone(s', rest, x, now);
    var st := Alone(s.cfg, s.bans, View(s, x, t0), ev, now).0;
    FadeAgain(s.cfg, s.bans, st, now, now);
    AloneSeesFadedRun(s.cfg, s.bans, st, View(s', x, now), EventsFrom(rest, x), now);
    assert EventsFrom(ops, x)[1..] == EventsFrom(rest, x);
  }

  lemma {:induction false} OtherStep(s: State, ops: seq<Op>, x: Src, t0: nat)
    requires Sound(s) && Ordered(ops, t0) && NeverDeafTo(s, ops, x)
    requires !Protected(s.protected, s.protected6, x)
    requires ops != [] && !(ops[0].Event? && ops[0].ev.src == x)
    ensures forall i :: 0 <= i < |EventsFrom(ops, x)| ==> EventsFrom(ops, x)[i].Event?
    ensures AnswersTo(s, ops, x) == AnswersAlone(s.cfg, s.bans, View(s, x, t0), EventsFrom(ops, x))
    decreases |ops|, 0
  {
    var now, rest := ops[0].now, ops[1..];
    var s' := StateAfter(s, ops[0]);
    EventsFromAreEvents(rest, x);
    EventsFromOrdered(rest, x, now);
    OtherStepKeepsView(s, ops[0], x, now);
    AnsweredAsIfAlone(s', rest, x, now);
    FadeAgain(s.cfg, s.bans, Known(s, x), t0, now);
    FadeAgain(s.cfg, s.bans, Known(s, x), now, now);
    AloneSeesFadedRun(s.cfg, s.bans, View(s, x, t0), View(s', x, now), EventsFrom(rest, x), now);
    assert EventsFrom(ops, x) == EventsFrom(rest, x);
  }

  /** The detector with everything about other sources taken out. */
  function Only(s: State, x: Src): State {
    s.(tracks := map y | y in s.tracks && y == x :: s.tracks[y],
       offenders := map y | y in s.offenders && y == x :: s.offenders[y])
  }

  lemma OnlySound(s: State, x: Src)
    requires Sound(s)
    ensures Sound(Only(s, x)) && Only(s, x).tracks.Keys <= {x}
  {
    SubsetCard(Only(s, x).tracks.Keys, s.tracks.Keys);
  }

  lemma {:induction false} SmallNeverDeaf(s: State, evs: seq<Op>, x: Src)
    requires Sound(s) && s.tracks.Keys <= {x} && forall i :: 0 <= i < |evs| ==> evs[i].Event? && evs[i].ev.src == x
    ensures NeverDeafTo(s, evs, x) && AnswersTo(s, evs, x) == Answers(s, evs)
    decreases |evs|
  {
    if evs != [] {
      assert LiveSources(s, evs[0].now) - {x} == {};
      SubsetCard(s.tracks.Keys, {x});
      StepKeys(s, evs[0]);
      SmallNeverDeaf(StateAfter(s, evs[0]), evs[1..], x);
    }
  }

  lemma {:induction false} EventsFromTwice(ops: seq<Op>, x: Src)
    requires forall i :: 0 <= i < |ops| ==> ops[i].Event? && ops[i].ev.src == x
    ensures EventsFrom(ops, x) == ops
  {
    if ops != [] {
      EventsFromTwice(ops[1..], x);
    }
  }

  /**
   * Sources do not interfere: as long as the table is not full of other sources when it is heard, a source gets
   * exactly the answers of a run in which only its own events, and only what was known of it, exist.
   */
  lemma SourcesDoNotInterfere(s: State, ops: seq<Op>, x: Src, t0: nat)
    requires Sound(s) && Ordered(ops, t0) && NeverDeafTo(s, ops, x)
    requires !Protected(s.protected, s.protected6, x)
    ensures AnswersTo(s, ops, x) == Answers(Only(s, x), EventsFrom(ops, x))
  {
    var evs := EventsFrom(ops, x);
    AnsweredAsIfAlone(s, ops, x, t0);
    EventsFromAreEvents(ops, x);
    EventsFromOrdered(ops, x, t0);
    OnlySound(s, x);
    SmallNeverDeaf(Only(s, x), evs, x);
    AnsweredAsIfAlone(Only(s, x), evs, x, t0);
    EventsFromTwice(evs, x);
    assert Known(Only(s, x), x) == Known(s, x);
  }

  function SourcesOf(ops: seq<Op>): set<Src> {
    if ops == [] then {}
    else (if ops[0].Event? then {ops[0].ev.src} else {}) + SourcesOf(ops[1..])
  }

  lemma ObservedKeys(s: State, ev: PacketEvent, now: nat)
    requires Sound(s)
    ensures Observed(s, ev, now).0.tracks.Keys <= s.tracks.Keys + {ev.src}
  {
    ObservedCases(s, ev, now);
  }

  lemma StepKeys(s: State, op: Op)
    requires Sound(s)
    ensures Sound(StateAfter(s, op))
    ensures StateAfter(s, op).tracks.Keys <= s.tracks.Keys + (if op.Event? then {op.ev.src} else {})
  {
    match op
    case Event(ev, now) =>
      ObservedSound(s, ev, now);
      ObservedKeys(s, ev, now);
    case PruneAt(now) =>
      PrunedSound(s, now);
  }

  /** With at most 16384 sources, known and heard together, the table is never deaf to any of them. */
  lemma {:induction false} FewSourcesNeverDeaf(s: State, ops: seq<Op>, x: Src, all: set<Src>)
    requires Sound(s) && s.tracks.Keys <= all && SourcesOf(ops) <= all && |all| <= 16384
    ensures NeverDeafTo(s, ops, x)
    decreases |ops|
  {
    if ops != [] {
      StepKeys(s, ops[0]);
      if ops[0].Event? && ops[0].ev.src == x {
        SubsetCard(LiveSources(s, ops[0].now) - {x}, all - {x});
      }
      FewSourcesNeverDeaf(StateAfter(s, ops[0]), ops[1..], x, all);
    }
  }
}
