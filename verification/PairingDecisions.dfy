/** When the coarse block steps the clock, said from the inputs and the logged history: the exact
    conditions of an attempt, of a quota window opening, of a clock write and of its target. */
module PairingDecisions {
  import opened CInt
  import opened Wrappers
  import opened Pairing
  import opened PairingInputs
  import opened PairingHistory
  import opened PairingQuota

  // ---------- what the coarse block had read ----------

  /** At the latest snapshot the latest sentence was less than three seconds old. */
  ghost predicate SnapNear(evs: seq<Event>) {
    evs != [] &&
    (var front, ev := evs[..|evs| - 1], evs[|evs| - 1];
     if ev.Snapshot? then Near(front, ev.now) else SnapNear(front))
  }

  /** The seconds of all sentences before the latest snapshot. */
  ghost function SnapSeconds(evs: seq<Event>): seq<int> {
    if evs == [] then []
    else
      var front, ev := evs[..|evs| - 1], evs[|evs| - 1];
      if ev.Snapshot? then Seconds(front) else SnapSeconds(front)
  }

  ghost predicate EmitsSample(c: Config, start: int, evs: seq<Event>)
    requires IsRun(c, start, evs)
  {
    evs != [] && (evs[|evs| - 1].Edge? || evs[|evs| - 1].Sentence?) &&
    |Run(c, start, evs).log.outcomes| > |Run(c, start, evs[..|evs| - 1]).log.outcomes|
  }

  /** When the latest sample was measured; 0 before the first. */
  ghost function SampledAt(c: Config, start: int, evs: seq<Event>): int
    requires IsRun(c, start, evs)
  {
    if evs == [] then 0
    else if EmitsSample(c, start, evs) then evs[|evs| - 1].offNow
    else SampledAt(c, start, evs[..|evs| - 1])
  }

  /** At the latest age test the latest sample was less than three seconds old. */
  ghost predicate MeasuredRecently(c: Config, start: int, evs: seq<Event>)
    requires IsRun(c, start, evs)
  {
    evs != [] &&
    (var front, ev := evs[..|evs| - 1], evs[|evs| - 1];
     if ev.Measure? then ev.now - SampledAt(c, start, front) < 3_000_000_000
     else MeasuredRecently(c, start, front))
  }

  /** The outcomes logged when the offset was last read. */
  ghost function WeighedOutcomes(c: Config, start: int, evs: seq<Event>): seq<Outcome>
    requires IsRun(c, start, evs)
  {
    if evs == [] then []
    else
      var front, ev := evs[..|evs| - 1], evs[|evs| - 1];
      if ev.Weigh? then Run(c, start, front).log.outcomes else WeighedOutcomes(c, start, front)
  }

  ghost function LatestOffset(o: seq<Outcome>): int {
    if o == [] then 0
    else if o[|o| - 1].Emitted? then o[|o| - 1].utc * 1_000_000_000 - o[|o| - 1].rt
    else LatestOffset(o[..|o| - 1])
  }

  /** The latest sample is more than a second off, in whole microseconds. */
  ghost predicate FarOff(o: seq<Outcome>) {
    LatestOffset(o) >= 1_000_001_000 || LatestOffset(o) <= -1_000_001_000
  }

  /** The samples behind an unlocked read of `strike`. */
  ghost function SeenOutcomes(o: seq<Outcome>, seen: Seen): seq<Outcome> {
    if seen == Latest || o == [] then o else o[..|o| - 1]
  }

  ghost function LastAttempt(a: seq<Attempt>, start: int): int {
    if a == [] then start - 10_000_000_000 else a[|a| - 1].at
  }

  /** Everything that makes a decision an attempt. */
  ghost predicate StepIsDue(c: Config, start: int, evs: seq<Event>, ev: Event)
    requires IsRun(c, start, evs) && ev.Decide?
  {
    var log := Run(c, start, evs).log;
    ConsecutiveSuffix(SnapSeconds(evs), 3) && SnapNear(evs) && MeasuredRecently(c, start, evs) &&
    (FarOff(WeighedOutcomes(c, start, evs)) ||
     (ev.seen != Cleared && c.strikeMax >= 0 && GatedSuffix(SeenOutcomes(log.outcomes, ev.seen), c.strikeMax))) &&
    ev.gateNow - LastAttempt(log.attempts, start) > 10_000_000_000
  }

  // ---------- the run invariant ----------

  ghost predicate CoarseOk(c: Config, start: int, evs: seq<Event>)
    requires IsRun(c, start, evs)
  {
    var d := Run(c, start, evs);
    d.gate.offMono == SampledAt(c, start, evs) && d.quota.lastNudge == LastAttempt(d.log.attempts, start) &&
    (d.pc.Snapped? || d.pc.Measured? || d.pc.Weighed? ==>
       d.pc.snap.current == SnapNear(evs) && d.pc.snap.anchorsSeen <= |d.log.anchors| &&
       d.log.anchors[..d.pc.snap.anchorsSeen] == SnapSeconds(evs)) &&
    (d.pc.Measured? || d.pc.Weighed? ==> d.pc.recent == MeasuredRecently(c, start, evs)) &&
    (d.pc.Weighed? ==>
       d.pc.outcomesSeen <= |d.log.outcomes| &&
       d.log.outcomes[..d.pc.outcomesSeen] == WeighedOutcomes(c, start, evs))
  }

  lemma SampledSnoc(c: Config, start: int, evs: seq<Event>)
    requires IsRun(c, start, evs) && evs != []
    requires Run(c, start, evs[..|evs| - 1]).gate.offMono == SampledAt(c, start, evs[..|evs| - 1])
    ensures Run(c, start, evs).gate.offMono == SampledAt(c, start, evs)
  {
    var front, ev := evs[..|evs| - 1], evs[|evs| - 1];
    GateTime(c, Run(c, start, front), ev);
    hide Step, SampledAt;
    assert SampledAt(c, start, evs) == if EmitsSample(c, start, evs) then ev.offNow else SampledAt(c, start, front) by {
      SampledUnfold(c, start, evs);
    }
  }

  lemma SampledUnfold(c: Config, start: int, evs: seq<Event>)
    requires IsRun(c, start, evs) && evs != []
    ensures SampledAt(c, start, evs) ==
      if EmitsSample(c, start, evs) then evs[|evs| - 1].offNow else SampledAt(c, start, evs[..|evs| - 1])
  {
    hide Run, EmitsSample;
  }

  /** The time of the latest measurement moves exactly with an emitted sample. */
  lemma GateTime(c: Config, d: Daemon, ev: Event)
    requires Enabled(d, ev)
    ensures var d' := Step(c, d, ev);
      d'.gate.offMono ==
        if (ev.Edge? || ev.Sentence?) && |d'.log.outcomes| > |d.log.outcomes| then ev.offNow else d.gate.offMono
  {
    hide OnDecide, BestEdge, Label, RoundedSecond;
  }

  lemma CoarseStep(c: Config, start: int, evs: seq<Event>)
    requires IsRun(c, start, evs) && evs != [] && CoarseOk(c, start, evs[..|evs| - 1])
    ensures CoarseOk(c, start, evs)
  {
    var front, ev := evs[..|evs| - 1], evs[|evs| - 1];
    var d, d' := Run(c, start, front), Run(c, start, evs);
    SampledSnoc(c, start, evs);
    StateIsFromInputs(c, start, front);
    CoarseFrame(c, d, ev);
    CoarseReads(c, start, evs);
    assert d' == Step(c, d, ev);
    hide SampledAt, Run, IsRun, LastSentence, EdgesSince, Waiting, Seconds, Near, OnSentence, OnEdge, OnDecide;
    if d'.pc.Snapped? || d'.pc.Measured? || d'.pc.Weighed? {
      assert !ev.Snapshot? ==> d'.log.anchors[..d'.pc.snap.anchorsSeen] == d.log.anchors[..d.pc.snap.anchorsSeen];
    }
    if d'.pc.Weighed? {
      assert !ev.Weigh? ==> d'.log.outcomes[..d'.pc.outcomesSeen] == d.log.outcomes[..d.pc.outcomesSeen];
    }
  }

  /** How the reads so far change with the latest event. */
  lemma CoarseReads(c: Config, start: int, evs: seq<Event>)
    requires IsRun(c, start, evs) && evs != []
    ensures var front, ev := evs[..|evs| - 1], evs[|evs| - 1];
      (SnapNear(evs) <==> if ev.Snapshot? then Near(front, ev.now) else SnapNear(front)) &&
      SnapSeconds(evs) == (if ev.Snapshot? then Seconds(front) else SnapSeconds(front)) &&
      (MeasuredRecently(c, start, evs) <==>
         if ev.Measure? then ev.now - SampledAt(c, start, front) < 3_000_000_000 else MeasuredRecently(c, start, front)) &&
      WeighedOutcomes(c, start, evs) ==
        if ev.Weigh? then Run(c, start, front).log.outcomes else WeighedOutcomes(c, start, front)
  {
    hide Run, SampledAt, Near, Seconds;
  }

  /** What a step does to the coarse block's place, the histories and the last attempt. */
  lemma CoarseFrame(c: Config, d: Daemon, ev: Event)
    requires Enabled(d, ev)
    ensures var d' := Step(c, d, ev);
      d.log.anchors <= d'.log.anchors && d.log.outcomes <= d'.log.outcomes && d.log.attempts <= d'.log.attempts &&
      (ev.Sentence? || ev.Edge? ==> d'.pc == d.pc) &&
      (d'.quota.lastNudge != d.quota.lastNudge ==> d'.log.attempts != d.log.attempts) &&
      (d'.log.attempts != d.log.attempts ==>
         d'.quota.lastNudge == d'.log.attempts[|d'.log.attempts| - 1].at) &&
      (ev.Decide? ==> d'.pc.Idle? || d'.pc.Stepping?)
  {
    hide BestEdge, Label, RoundedSecond;
  }

  lemma {:induction false} RunKeepsCoarse(c: Config, start: int, evs: seq<Event>)
    requires IsRun(c, start, evs)
    ensures CoarseOk(c, start, evs)
  {
    if evs != [] {
      RunKeepsCoarse(c, start, evs[..|evs| - 1]);
      CoarseStep(c, start, evs);
      hide CoarseOk;
    }
  }

  // ---------- from the counters to the history ----------

  lemma {:induction false} OffsetIsLatest(o: seq<Outcome>)
    ensures OffsetLeft(o) == Thousandth(LatestOffset(o))
  {
    if o != [] && o[|o| - 1].ClockStep? {
      OffsetIsLatest(o[..|o| - 1]);
    }
  }

  lemma FarInMicroseconds(off: int)
    ensures Abs(Thousandth(off) * 1000) > 1_000_000_000 <==> off >= 1_000_001_000 || off <= -1_000_001_000
  {
  }

  lemma FarIff(o: seq<Outcome>)
    ensures Abs(OffsetLeft(o) * 1000) > 1_000_000_000 <==> FarOff(o)
  {
    OffsetIsLatest(o);
    FarInMicroseconds(LatestOffset(o));
    hide OffsetLeft, LatestOffset, Thousandth;
  }

  lemma RunOfThree(a: seq<int>)
    ensures Min(SEQ_CAP, AnchorRun(a)) >= 3 <==> ConsecutiveSuffix(a, 3)
  {
    AnchorRunIsLongest(a);
    hide AnchorRun;
    if AnchorRun(a) >= 3 {
      assert ConsecutiveSuffix(a, 3);
    }
  }

  lemma RunOfGated(o: seq<Outcome>, n: nat)
    ensures GatedRun(o) >= n <==> GatedSuffix(o, n)
  {
    GatedRunIsLongest(o);
    hide GatedRun;
    if GatedRun(o) >= n {
      ShorterSuffix(o, GatedRun(o), n);
    }
  }

  lemma ShorterSuffix(o: seq<Outcome>, n: nat, m: nat)
    requires GatedSuffix(o, n) && m <= n
    ensures GatedSuffix(o, m)
  {
  }

  // ---------- theorems ----------

  lemma AttemptsIff(c: Config, start: int, evs: seq<Event>, ev: Event)
    requires c.Valid() && IsRun(c, start, evs) && ev.Decide? && Enabled(Run(c, start, evs), ev)
    ensures Attempts(c, Run(c, start, evs), ev) <==> StepIsDue(c, start, evs, ev)
  {
    var d := Run(c, start, evs);
    RunKeepsCoarse(c, start, evs);
    RunKeepsHistory(c, start, evs);
    RunOfThree(SnapSeconds(evs));
    FarIff(WeighedOutcomes(c, start, evs));
    if ev.seen != Cleared {
      RunOfGated(SeenOutcomes(d.log.outcomes, ev.seen), c.strikeMax);
    }
    hide Run, IsRun, SampledAt, MeasuredRecently, SnapNear, SnapSeconds, WeighedOutcomes, AnchorRun, GatedRun,
         OffsetLeft, FarOff, ConsecutiveSuffix, GatedSuffix, AllJustified;
  }

  /** For every run and every decision of it, an attempt is made exactly when a step is due. */
  lemma AttemptIffDue(c: Config, start: int, evs: seq<Event>, ev: Event)
    requires c.Valid() && IsRun(c, start, evs) && ev.Decide? && Enabled(Run(c, start, evs), ev)
    ensures var a, a' := Run(c, start, evs).log.attempts, Step(c, Run(c, start, evs), ev).log.attempts;
      if StepIsDue(c, start, evs, ev) then |a'| == |a| + 1 && a == a'[..|a|] && a'[|a|].at == ev.nudgeNow else a' == a
  {
    AttemptsIff(c, start, evs, ev);
    hide Run, IsRun, StepIsDue, Attempts;
  }

  ghost function LastOpening(o: seq<int>): int {
    if o == [] then 0 else o[|o| - 1]
  }

  /** How many of the writes belong to quota window `w`. */
  ghost function WritesIn(writes: seq<ClockWrite>, w: nat): nat {
    if writes == [] then 0
    else WritesIn(writes[..|writes| - 1], w) + if writes[|writes| - 1].window == w then 1 else 0
  }

  lemma {:induction false} WritesInTail(writes: seq<ClockWrite>, w: nat, used: nat)
    requires used <= |writes| && forall i :: 0 <= i < |writes| ==> (writes[i].window == w <==> i >= |writes| - used)
    ensures WritesIn(writes, w) == used
  {
    if writes != [] {
      WritesInTail(writes[..|writes| - 1], w, if used > 0 then used - 1 else 0);
    }
  }

  lemma {:induction false} WindowIsLastOpening(c: Config, start: int, evs: seq<Event>)
    requires IsRun(c, start, evs)
    ensures Run(c, start, evs).quota.window == LastOpening(Run(c, start, evs).log.openings)
  {
    if evs != [] {
      WindowIsLastOpening(c, start, evs[..|evs| - 1]);
      WindowFrame(c, Run(c, start, evs[..|evs| - 1]), evs[|evs| - 1]);
      hide Step;
    }
  }

  lemma WindowFrame(c: Config, d: Daemon, ev: Event)
    requires Enabled(d, ev) && d.quota.window == LastOpening(d.log.openings)
    ensures Step(c, d, ev).quota.window == LastOpening(Step(c, d, ev).log.openings)
  {
    hide BestEdge, Label, RoundedSecond;
  }

  /** An attempt opens a quota window exactly when an hour has passed since the latest opening, and
      leads to a clock write exactly when the open window has had fewer than `reset_max`; otherwise it
      is reported as CAPPED. A decision that is no attempt does neither. */
  lemma WriteFollowsIff(c: Config, start: int, evs: seq<Event>, ev: Event)
    requires c.Valid() && IsRun(c, start, evs) && ev.Decide? && Enabled(Run(c, start, evs), ev)
    ensures var d, d' := Run(c, start, evs), Step(c, Run(c, start, evs), ev);
      var due := StepIsDue(c, start, evs, ev);
      d'.log.openings ==
        (if due && ev.windowNow - LastOpening(d.log.openings) >= 3_600_000_000_000
         then d.log.openings + [ev.openNow] else d.log.openings) &&
      d'.log.writes == d.log.writes &&
      var free := WritesIn(d'.log.writes, |d'.log.openings|) < c.resetMax;
      (d'.pc.Stepping? <==> due && free) && (due && !free ==> d'.quota.capped)
  {
    var d := Run(c, start, evs);
    AttemptsIff(c, start, evs, ev);
    RunKeepsQuota(c, start, evs);
    WindowIsLastOpening(c, start, evs);
    DecideKeepsQuota(c, d, ev);
    var d' := OnDecide(c, d, ev);
    WritesInTail(d'.log.writes, |d'.log.openings|, d'.quota.resets);
    hide Run, IsRun, StepIsDue, Attempts, WritesIn, WindowsOk, NewAttempt;
  }

  /** A clock write sets the second of the latest sentence handled before it, not of the snapshot's. */
  lemma WriteTarget(c: Config, start: int, evs: seq<Event>, ev: Event)
    requires c.Valid() && IsRun(c, start, evs) && ev.WriteClock? && Enabled(Run(c, start, evs), ev)
    ensures var w, w' := Run(c, start, evs).log.writes, Step(c, Run(c, start, evs), ev).log.writes;
      LastSentence(evs).Some? && w' == w + [ClockWrite(ev.at, |Run(c, start, evs).log.openings|, LastSentence(evs).value.second)]
  {
    StateIsFromInputs(c, start, evs);
    SteppingHasAnchor(c, start, evs);
    hide Run, IsRun, EdgesSince, Waiting, Seconds;
  }

  /** After every clock write comes one strike reset; unless lost, it leaves no strikes and ends the
      run of gated samples, and the next attempt needs a new one or an offset beyond a second. */
  lemma WriteIsFollowedByReset(c: Config, start: int, evs: seq<Event>, write: Event, ev: Event)
    requires IsRun(c, start, evs) && write.WriteClock? && Enabled(Run(c, start, evs), write)
    requires var d := Step(c, Run(c, start, evs), write);
      Enabled(d, ev) && !ev.Sentence?
    ensures var d := Step(c, Run(c, start, evs), write);
      var d' := Step(c, d, ev);
      ev.ClearStrike? &&
      (!ev.lost ==> d'.gate.strike == 0 && d'.log.outcomes == d.log.outcomes + [ClockStep]) &&
      (ev.lost ==> d'.gate == d.gate && d'.log == d.log)
  {
    hide Run, IsRun;
  }

  lemma {:induction false} SteppingHasAnchor(c: Config, start: int, evs: seq<Event>)
    requires c.Valid() && IsRun(c, start, evs) && Run(c, start, evs).pc.Stepping?
    ensures Run(c, start, evs).anchor.valid
  {
    var front, ev := evs[..|evs| - 1], evs[|evs| - 1];
    var d := Run(c, start, front);
    if d.pc.Stepping? {
      SteppingHasAnchor(c, start, front);
    } else {
      RunKeepsHistory(c, start, front);
      if ev.Decide? && !d.anchor.valid {
        assert d.log.anchors == [];
        NoAnchorNoAttempt(c, d, ev);
      }
    }
    hide BestEdge, Label, RoundedSecond;
  }

  lemma NoAnchorNoAttempt(c: Config, d: Daemon, ev: Event)
    requires HistoryOk(c, d) && d.log.anchors == [] && ev.Decide? && Enabled(d, ev)
    ensures !Attempts(c, d, ev)
  {
  }
}
