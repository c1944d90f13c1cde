/** What the daemon's counters mean, over every run: `anchor_seq` and `strike` against the history
    they summarise, and what stands behind every coarse-step decision. */
module PairingHistory {
  import opened CInt
  import opened Pairing

  // ---------- reference notions on the history ----------

  /** The last `n` anchors advance by exactly one second each. */
  ghost predicate ConsecutiveSuffix(a: seq<int>, n: nat) {
    n <= |a| && forall i :: |a| - n < i < |a| ==> a[i] == a[i - 1] + 1
  }

  ghost function AnchorRun(a: seq<int>): nat {
    if a == [] then 0
    else if |a| >= 2 && a[|a| - 1] == a[|a| - 2] + 1 then AnchorRun(a[..|a| - 1]) + 1
    else 1
  }

  lemma {:induction false} AnchorRunIsLongest(a: seq<int>)
    ensures ConsecutiveSuffix(a, AnchorRun(a))
    ensures forall n: nat :: ConsecutiveSuffix(a, n) ==> n <= AnchorRun(a)
  {
    if |a| >= 2 && a[|a| - 1] == a[|a| - 2] + 1 {
      var front := a[..|a| - 1];
      AnchorRunIsLongest(front);
      forall n: nat | ConsecutiveSuffix(a, n) ensures n <= AnchorRun(a) {
        if n > 0 {
          assert ConsecutiveSuffix(front, n - 1);
        }
      }
    } else {
      assert |a| >= 2 ==> a[|a| - 1] != a[|a| - 2] + 1;
    }
  }

  /** The last `n` outcomes are gated samples of one sign (so none was accepted and no
      reset took effect in between). */
  ghost predicate GatedSuffix(o: seq<Outcome>, n: nat) {
    n <= |o| && forall i :: |o| - n <= i < |o| ==> o[i].Gated() && o[i].Sign() == o[|o| - 1].Sign()
  }

  ghost function GatedRun(o: seq<Outcome>): nat {
    if o == [] || !o[|o| - 1].Gated() then 0
    else
      var front := o[..|o| - 1];
      if front != [] && front[|front| - 1].Gated() && front[|front| - 1].Sign() == o[|o| - 1].Sign()
      then GatedRun(front) + 1 else 1
  }

  lemma {:induction false} GatedRunIsLongest(o: seq<Outcome>)
    ensures GatedSuffix(o, GatedRun(o))
    ensures forall n: nat :: GatedSuffix(o, n) ==> n <= GatedRun(o)
  {
    if o != [] {
      var front := o[..|o| - 1];
      GatedRunIsLongest(front);
      forall n: nat | GatedSuffix(o, n) ensures n <= GatedRun(o) {
        if n > 0 {
          assert o[|o| - 1].Gated();
          if n > 1 {
            assert o[|o| - 2].Gated();
            assert GatedSuffix(front, n - 1);
          }
        }
      }
    }
  }

  /** Sign of the latest sample if it was gated; 0 after an accepted one. Strike resets do not
      clear it. */
  ghost function SignLeft(o: seq<Outcome>): int {
    if o == [] then 0
    else if o[|o| - 1].ClockStep? then SignLeft(o[..|o| - 1])
    else if o[|o| - 1].Gated() then o[|o| - 1].Sign()
    else 0
  }

  /** The offset the latest sample measured, as `last_off_us` keeps it. */
  ghost function OffsetLeft(o: seq<Outcome>): int {
    if o == [] then 0
    else if o[|o| - 1].ClockStep? then OffsetLeft(o[..|o| - 1])
    else Thousandth(o[|o| - 1].Offset())
  }

  // ---------- the run invariant ----------

  ghost predicate AnchorsOk(d: Daemon) {
    var a := d.log.anchors;
    d.anchor.run == Min(SEQ_CAP, AnchorRun(a)) &&
    (d.anchor.valid <==> a != []) &&
    (if a == [] then d.anchor.prev == 0 && d.anchor.second == 0
     else d.anchor.prev == d.anchor.second == a[|a| - 1] && d.anchor.second > 0)
  }

  ghost predicate StrikesOk(d: Daemon) {
    d.gate.strike == GatedRun(d.log.outcomes) && d.gate.sign == SignLeft(d.log.outcomes) &&
    d.gate.offUs == OffsetLeft(d.log.outcomes) &&
    (d.log.outcomes != [] && d.log.outcomes[|d.log.outcomes| - 1].Emitted? ==>
       d.log.prior == GatedRun(d.log.outcomes[..|d.log.outcomes| - 1]))
  }

  ghost predicate SnapshotOk(d: Daemon) {
    (d.pc.Snapped? || d.pc.Measured? || d.pc.Weighed? ==>
       d.pc.snap.anchorsSeen <= |d.log.anchors| &&
       d.pc.snap.runSeen == Min(SEQ_CAP, AnchorRun(d.log.anchors[..d.pc.snap.anchorsSeen]))) &&
    (d.pc.Weighed? ==>
       d.pc.outcomesSeen <= |d.log.outcomes| &&
       (d.pc.recent ==> d.pc.off == 1000 * OffsetLeft(d.log.outcomes[..d.pc.outcomesSeen])))
  }

  /** A decision is justified by what it had seen: three anchors in consecutive seconds, and either
      a latest measured offset beyond one second or a full run of same-sign gated samples. */
  ghost predicate Justified(c: Config, log: Log, a: Attempt) {
    a.anchorsSeen <= |log.anchors| && ConsecutiveSuffix(log.anchors[..a.anchorsSeen], 3) &&
    a.outcomesSeen <= |log.outcomes| &&
    (if a.urgent then Abs(OffsetLeft(log.outcomes[..a.outcomesSeen])) * 1000 > SEC
     else c.strikeMax >= 0 && GatedSuffix(log.outcomes[..a.outcomesSeen], c.strikeMax))
  }

  ghost predicate AllJustified(c: Config, log: Log) {
    forall i :: 0 <= i < |log.attempts| ==> Justified(c, log, log.attempts[i])
  }

  ghost predicate HistoryOk(c: Config, d: Daemon) {
    AnchorsOk(d) && StrikesOk(d) && SnapshotOk(d) && AllJustified(c, d.log)
  }

  lemma EmitKeepsStrikes(d: Daemon, o: Outcome, offNow: int)
    requires StrikesOk(d) && o.Emitted?
    ensures StrikesOk(EmitSample(d, o, offNow))
  {
    var now := d.log.outcomes + [o];
    assert now[..|now| - 1] == d.log.outcomes;
    SignOfRun(d.log.outcomes);
  }

  /** A running strike always has the sign left over by the latest sample. */
  lemma {:induction false} SignOfRun(o: seq<Outcome>)
    ensures GatedRun(o) > 0 ==> o[|o| - 1].Gated() && SignLeft(o) == o[|o| - 1].Sign()
    ensures SignLeft(o) in {-1, 0, 1}
    ensures o != [] && o[|o| - 1].Gated() ==> GatedRun(o) > 0
  {
    if o != [] {
      SignOfRun(o[..|o| - 1]);
    }
  }

  /** History only grows, and what justified a decision stays in it. */
  lemma JustifiedForever(c: Config, log: Log, longer: Log)
    requires AllJustified(c, log) && log.anchors <= longer.anchors && log.outcomes <= longer.outcomes
    requires log.attempts == longer.attempts
    ensures AllJustified(c, longer)
  {
    forall i | 0 <= i < |longer.attempts| ensures Justified(c, longer, longer.attempts[i]) {
      var a := longer.attempts[i];
      assert Justified(c, log, a);
      assert longer.anchors[..a.anchorsSeen] == log.anchors[..a.anchorsSeen];
      assert longer.outcomes[..a.outcomesSeen] == log.outcomes[..a.outcomesSeen];
    }
  }

  /** The anchor part of a sentence step, before any flushed edge is emitted. */
  lemma SentenceKeepsAnchors(c: Config, d: Daemon, ev: Event)
    requires AnchorsOk(d) && ev.Sentence? && ev.second > 0
    ensures AnchorsOk(OnSentence(c, d, ev))
  {
    var a := d.log.anchors + [ev.second];
    assert a[..|a| - 1] == d.log.anchors;
    assert AnchorsOk(Anchored(d, ev.second, ev.now));
  }

  lemma SentenceKeepsStrikes(c: Config, d: Daemon, ev: Event)
    requires StrikesOk(d) && ev.Sentence?
    ensures StrikesOk(OnSentence(c, d, ev))
  {
    match BestEdge(d.pending, ev.now)
    case None =>
    case Some(e) =>
      var o := Emitted(Flush, e, Realtime(c, e, ev.conv), ev.second, ev.second);
      var d' := OnSentence(c, d, ev);
      EmitKeepsStrikes(d, o, ev.offNow);
      assert d'.log.outcomes == d.log.outcomes + [o];
  }

  lemma SentenceKeepsHistory(c: Config, d: Daemon, ev: Event)
    requires HistoryOk(c, d) && ev.Sentence? && ev.second > 0
    ensures HistoryOk(c, OnSentence(c, d, ev))
  {
    var d' := OnSentence(c, d, ev);
    SentenceKeepsAnchors(c, d, ev);
    SentenceKeepsStrikes(c, d, ev);
    assert d.log.outcomes <= d'.log.outcomes && d'.log.anchors == d.log.anchors + [ev.second];
    JustifiedForever(c, d.log, d'.log);
    assert d'.pc == d.pc;
    if d.pc.Snapped? || d.pc.Measured? || d.pc.Weighed? {
      assert d'.log.anchors[..d.pc.snap.anchorsSeen] == d.log.anchors[..d.pc.snap.anchorsSeen];
    }
    if d.pc.Weighed? {
      assert d'.log.outcomes[..d.pc.outcomesSeen] == d.log.outcomes[..d.pc.outcomesSeen];
    }
  }

  lemma EdgeKeepsHistory(c: Config, d: Daemon, ev: Event)
    requires HistoryOk(c, d) && ev.Edge? && d.pc.Idle?
    ensures HistoryOk(c, OnEdge(c, d, ev))
  {
    var d' := OnEdge(c, d, ev);
    JustifiedForever(c, d.log, d'.log);
    if IsFresh(d, ev.now) {
      EmitKeepsStrikes(d, d'.log.outcomes[|d.log.outcomes|], ev.offNow);
    }
  }

  lemma AttemptIsJustified(c: Config, d: Daemon, ev: Event)
    requires c.Valid() && HistoryOk(c, d) && ev.Decide? && Enabled(d, ev) && Attempts(c, d, ev)
    ensures Justified(c, d.log, NewAttempt(d, ev.nudgeNow, ev.seen))
  {
    var seen := d.log.anchors[..d.pc.snap.anchorsSeen];
    AnchorRunIsLongest(seen);
    assert ConsecutiveSuffix(seen, 3);
    assert d.log.outcomes[..|d.log.outcomes|] == d.log.outcomes;
    if !Urgent(d) {
      var o := if ev.seen == Latest then d.log.outcomes else d.log.outcomes[..|d.log.outcomes| - 1];
      GatedRunIsLongest(o);
      assert GatedSuffix(o, c.strikeMax);
    }
  }

  lemma DecideKeepsHistory(c: Config, d: Daemon, ev: Event)
    requires c.Valid() && HistoryOk(c, d) && ev.Decide? && Enabled(d, ev)
    ensures HistoryOk(c, OnDecide(c, d, ev))
  {
    hide GatedRun, AnchorRun, OffsetLeft, SignLeft, ConsecutiveSuffix, GatedSuffix;
    if Attempts(c, d, ev) {
      AttemptIsJustified(c, d, ev);
      var d' := OnDecide(c, d, ev);
      assert d'.log.anchors == d.log.anchors && d'.log.outcomes == d.log.outcomes;
      forall i | 0 <= i < |d'.log.attempts| ensures Justified(c, d'.log, d'.log.attempts[i]) {
        assert i < |d.log.attempts| ==> Justified(c, d.log, d.log.attempts[i]);
      }
    }
  }

  lemma ClearKeepsHistory(c: Config, d: Daemon, ev: Event)
    requires HistoryOk(c, d) && ev.ClearStrike?
    ensures HistoryOk(c, OnClearStrike(d, ev))
  {
    var d' := OnClearStrike(d, ev);
    assert !ev.lost ==> d'.log.outcomes[..|d'.log.outcomes| - 1] == d.log.outcomes;
    JustifiedForever(c, d.log, d'.log);
  }

  lemma {:induction false} RunKeepsHistory(c: Config, start: int, evs: seq<Event>)
    requires c.Valid() && IsRun(c, start, evs)
    ensures HistoryOk(c, Run(c, start, evs))
  {
    if evs != [] {
      var front, ev := evs[..|evs| - 1], evs[|evs| - 1];
      RunKeepsHistory(c, start, front);
      var d := Run(c, start, front);
      match ev
      case Sentence(_, _, _, _) => SentenceKeepsHistory(c, d, ev);
      case Edge(_, _, _, _) => EdgeKeepsHistory(c, d, ev);
      case Snapshot(_) => assert d.log.anchors[..|d.log.anchors|] == d.log.anchors;
      case Measure(_) =>
      case Weigh(_) => assert d.log.outcomes[..|d.log.outcomes|] == d.log.outcomes;
      case Decide(_, _, _, _, _) => DecideKeepsHistory(c, d, ev);
      case WriteClock(_) => JustifiedForever(c, d.log, Run(c, start, evs).log);
      case ClearStrike(_, _) => ClearKeepsHistory(c, d, ev);
    }
  }

  // ---------- theorems ----------

  /** In every run `anchor_seq` is the length, capped at a million, of the longest suffix of anchors
      in consecutive seconds, and `strike` the length of the longest suffix of samples that were all
      gated with one sign, uninterrupted by an accepted sample or a reset after a clock write (one that
      took effect: an unlocked reset can be lost to a concurrent increment). */
  lemma CountersMeanRuns(c: Config, start: int, evs: seq<Event>)
    requires c.Valid() && IsRun(c, start, evs)
    ensures var d := Run(c, start, evs);
      (exists n: nat :: d.anchor.run == Min(SEQ_CAP, n) && ConsecutiveSuffix(d.log.anchors, n) &&
                        forall m: nat :: ConsecutiveSuffix(d.log.anchors, m) ==> m <= n) &&
      d.gate.strike >= 0 && GatedSuffix(d.log.outcomes, d.gate.strike) &&
      forall m: nat :: GatedSuffix(d.log.outcomes, m) ==> m <= d.gate.strike
  {
    RunKeepsHistory(c, start, evs);
    var d := Run(c, start, evs);
    AnchorRunIsLongest(d.log.anchors);
    GatedRunIsLongest(d.log.outcomes);
  }

  /** Every coarse-step attempt of every run had three consecutive-second anchors at its snapshot;
      an urgent one had a measured offset beyond one second, any other one at least `strike_max`
      gated samples of one sign behind it. */
  lemma EveryStepIsJustified(c: Config, start: int, evs: seq<Event>)
    requires c.Valid() && IsRun(c, start, evs)
    ensures AllJustified(c, Run(c, start, evs).log)
  {
    RunKeepsHistory(c, start, evs);
  }
}
