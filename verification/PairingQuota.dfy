/** The rate limits of the coarse clock step, over every run: the 10 s throttle, the hourly quota
    and the CAPPED report. */
module PairingQuota {
  import opened CInt
  import opened Pairing
  import opened Spans

  // ---------- counting: holds whatever the clock does ----------

  /** The writes of the open window are exactly the last `forced_resets` ones, and no window holds
      more than `reset_max`. */
  ghost predicate WindowsOk(w: seq<ClockWrite>, open: nat, used: int, quota: int) {
    0 <= used <= |w| &&
    (forall i :: 0 <= i < |w| ==> w[i].window <= open && (w[i].window == open <==> i >= |w| - used)) &&
    (forall i, j :: 0 <= i <= j < |w| ==> w[i].window <= w[j].window) &&
    (forall i, j :: 0 <= i < |w| && 0 <= j < |w| && j == i + quota ==> w[i].window < w[j].window)
  }

  ghost predicate QuotaOk(c: Config, d: Daemon) {
    WindowsOk(d.log.writes, |d.log.openings|, d.quota.resets, c.resetMax) &&
    d.quota.resets <= c.resetMax &&
    (d.quota.capped ==> d.quota.resets == c.resetMax) &&
    (d.pc.Stepping? ==> d.quota.resets < c.resetMax)
  }

  lemma OpeningKeepsWindows(w: seq<ClockWrite>, open: nat, used: int, quota: int)
    requires WindowsOk(w, open, used, quota)
    ensures WindowsOk(w, open + 1, 0, quota)
  {
  }

  lemma WriteKeepsWindows(w: seq<ClockWrite>, open: nat, used: int, quota: int, x: ClockWrite)
    requires WindowsOk(w, open, used, quota) && used < quota && x.window == open
    ensures WindowsOk(w + [x], open, used + 1, quota)
  {
  }

  lemma DecideKeepsQuota(c: Config, d: Daemon, ev: Event)
    requires c.Valid() && QuotaOk(c, d) && Enabled(d, ev) && ev.Decide?
    ensures QuotaOk(c, OnDecide(c, d, ev))
  {
    OpeningKeepsWindows(d.log.writes, |d.log.openings|, d.quota.resets, c.resetMax);
    hide WindowsOk, NewAttempt;
  }

  lemma StepKeepsQuota(c: Config, d: Daemon, ev: Event)
    requires c.Valid() && QuotaOk(c, d) && Enabled(d, ev)
    ensures QuotaOk(c, Step(c, d, ev))
  {
    match ev
    case Decide(_, _, _, _, _) => DecideKeepsQuota(c, d, ev);
    case WriteClock(_) =>
      var x := ClockWrite(ev.at, |d.log.openings|, d.anchor.second);
      WriteKeepsWindows(d.log.writes, |d.log.openings|, d.quota.resets, c.resetMax, x);
    case _ =>
    hide WindowsOk, OnDecide;
  }

  lemma {:induction false} RunKeepsQuota(c: Config, start: int, evs: seq<Event>)
    requires c.Valid() && IsRun(c, start, evs)
    ensures QuotaOk(c, Run(c, start, evs))
  {
    if evs != [] {
      RunKeepsQuota(c, start, evs[..|evs| - 1]);
      StepKeepsQuota(c, Run(c, start, evs[..|evs| - 1]), evs[|evs| - 1]);
    }
  }

  // ---------- timing: needs the monotonic clock ----------

  ghost predicate AttemptsOk(d: Daemon, clock: int) {
    var a := d.log.attempts;
    d.quota.lastNudge <= clock &&
    (a != [] ==> a[|a| - 1].at == d.quota.lastNudge) &&
    forall i, j :: 0 <= i < j < |a| ==> a[j].at - a[i].at > THROTTLE
  }

  ghost predicate OpeningsOk(d: Daemon, clock: int) {
    var o := d.log.openings;
    (o != [] ==> o[|o| - 1] == d.quota.window <= clock) &&
    forall i, j :: 0 <= i < j < |o| ==> o[j] - o[i] >= HOUR
  }

  ghost predicate WritesOk(w: seq<ClockWrite>, o: seq<int>, clock: int) {
    (forall i :: 0 <= i < |w| ==> w[i].at <= clock && w[i].window <= |o|) &&
    (forall i, j :: 0 <= i <= j < |w| ==> w[i].at <= w[j].at) &&
    (forall i, k :: 0 <= i < |w| && 0 <= k < w[i].window ==> o[k] <= w[i].at) &&
    (forall i, k :: 0 <= i < |w| && w[i].window <= k < |o| ==> w[i].at <= o[k])
  }

  lemma StepKeepsAttempts(c: Config, d: Daemon, ev: Event, clock: int)
    requires AttemptsOk(d, clock) && Enabled(d, ev)
    requires OrderedReadings(ev) && clock <= FirstReading(ev)
    ensures AttemptsOk(Step(c, d, ev), LastReading(ev))
  {
    match ev
    case Decide(_, _, _, _, _) =>
      if Attempts(c, d, ev) {
        var a, a' := d.log.attempts, Step(c, d, ev).log.attempts;
        forall i, j | 0 <= i < j < |a'| ensures a'[j].at - a'[i].at > THROTTLE {
          if j == |a| {
            assert a[i].at <= a[|a| - 1].at;
          }
        }
      }
    case _ =>
  }

  lemma StepKeepsOpenings(c: Config, d: Daemon, ev: Event, clock: int)
    requires OpeningsOk(d, clock) && WritesOk(d.log.writes, d.log.openings, clock) && Enabled(d, ev)
    requires OrderedReadings(ev) && clock <= FirstReading(ev)
    ensures OpeningsOk(Step(c, d, ev), LastReading(ev))
  {
    match ev
    case Decide(_, _, _, _, _) =>
      var o, o' := d.log.openings, Step(c, d, ev).log.openings;
      if o' != o {
        forall i, j | 0 <= i < j < |o'| ensures o'[j] - o'[i] >= HOUR {
          if j == |o| {
            assert o[i] <= o[|o| - 1];
          }
        }
      }
    case _ =>
  }

  lemma ClockKeepsWrites(w: seq<ClockWrite>, o: seq<int>, clock: int, later: int)
    requires WritesOk(w, o, clock) && clock <= later
    ensures WritesOk(w, o, later)
    ensures WritesOk(w, o + [later], later)
  {
  }

  lemma StepKeepsWrites(c: Config, d: Daemon, ev: Event, clock: int)
    requires OpeningsOk(d, clock) && WritesOk(d.log.writes, d.log.openings, clock) && Enabled(d, ev)
    requires OrderedReadings(ev) && clock <= FirstReading(ev)
    ensures WritesOk(Step(c, d, ev).log.writes, Step(c, d, ev).log.openings, LastReading(ev))
  {
    var w, o := d.log.writes, d.log.openings;
    ClockKeepsWrites(w, o, clock, LastReading(ev));
    match ev
    case Decide(_, _, _, _, _) =>
      ClockKeepsWrites(w, o, clock, ev.openNow);
      ClockKeepsWrites(w, o + [ev.openNow], ev.openNow, ev.nudgeNow);
    case WriteClock(_) =>
      WriteKeepsOrder(w, o, clock, ClockWrite(ev.at, |o|, d.anchor.second));
    case _ =>
  }

  lemma WriteKeepsOrder(w: seq<ClockWrite>, o: seq<int>, clock: int, x: ClockWrite)
    requires WritesOk(w, o, clock) && clock <= x.at && x.window == |o|
    requires (o != [] ==> o[|o| - 1] <= clock) && forall i, j :: 0 <= i < j < |o| ==> o[j] - o[i] >= HOUR
    ensures WritesOk(w + [x], o, x.at)
  {
    assert forall k :: 0 <= k < |o| ==> o[k] <= o[|o| - 1];
  }

  lemma {:induction false} RunKeepsTiming(c: Config, start: int, evs: seq<Event>)
    requires IsRun(c, start, evs) && Timely(start, evs)
    ensures var d, clock := Run(c, start, evs), Clock(start, evs);
      AttemptsOk(d, clock) && OpeningsOk(d, clock) && WritesOk(d.log.writes, d.log.openings, clock)
  {
    if evs != [] {
      var front, ev := evs[..|evs| - 1], evs[|evs| - 1];
      RunKeepsTiming(c, start, front);
      StepKeepsAttempts(c, Run(c, start, front), ev, Clock(start, front));
      StepKeepsOpenings(c, Run(c, start, front), ev, Clock(start, front));
      StepKeepsWrites(c, Run(c, start, front), ev, Clock(start, front));
    }
  }

  // ---------- theorems ----------

  ghost function WriteTimes(log: Log): seq<int> {
    seq(|log.writes|, i requires 0 <= i < |log.writes| => log.writes[i].at)
  }

  /** In every run, at most `reset_max` clock writes fall between two openings of the quota window,
      and CAPPED is reported only with the quota exactly used up. */
  lemma QuotaPerWindow(c: Config, start: int, evs: seq<Event>)
    requires c.Valid() && IsRun(c, start, evs)
    ensures var d := Run(c, start, evs);
      (d.quota.capped ==> d.quota.resets == c.resetMax) &&
      forall i, j :: 0 <= i <= j < |d.log.writes| && d.log.writes[i].window == d.log.writes[j].window ==>
        j - i < c.resetMax
  {
    RunKeepsQuota(c, start, evs);
    var w := Run(c, start, evs).log.writes;
    forall i, j | 0 <= i <= j < |w| && w[i].window == w[j].window ensures j - i < c.resetMax {
      var k := i + c.resetMax;
      assert k < |w| ==> w[i].window < w[k].window;
    }
  }

  /** In every run the attempts are more than ten seconds apart. */
  lemma AttemptsAreThrottled(c: Config, start: int, evs: seq<Event>)
    requires IsRun(c, start, evs) && Timely(start, evs)
    ensures var a := Run(c, start, evs).log.attempts;
      forall i, j :: 0 <= i < j < |a| ==> a[j].at - a[i].at > THROTTLE
  {
    RunKeepsTiming(c, start, evs);
  }

  /** Two windows can meet inside one hour, so the bound per hour is twice the quota: in every run
      every half-open span of 3600 s holds at most 2 * `reset_max` clock writes. */
  lemma WritesPerHour(c: Config, start: int, evs: seq<Event>, from: int)
    requires c.Valid() && IsRun(c, start, evs) && Timely(start, evs)
    ensures |InSpan(WriteTimes(Run(c, start, evs).log), from, HOUR)| <= 2 * c.resetMax
  {
    RunKeepsQuota(c, start, evs);
    RunKeepsTiming(c, start, evs);
    var d := Run(c, start, evs);
    var w, o, times := d.log.writes, d.log.openings, WriteTimes(d.log);
    forall i | 0 <= i && i + 2 * c.resetMax < |times| ensures times[i + 2 * c.resetMax] - times[i] >= HOUR {
      var j, k := i + c.resetMax, i + 2 * c.resetMax;
      assert w[i].window < w[j].window && w[j].window < w[k].window;
      var first := w[i].window;
      assert w[i].at <= o[first];
      assert o[first + 1] <= w[k].at;
      assert o[first + 1] - o[first] >= HOUR;
    }
    SpanBound(times, 2 * c.resetMax, from, HOUR);
  }
}
