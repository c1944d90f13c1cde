/** The watchdog's modes, restarts and serving, pass by pass, said from the passes and the restarts so
    far: when a restart is ordered, how long it is observed, how DEGRADED is entered and left. */
module WatchdogModes {
  import opened Spans
  import opened Wrappers
  import opened Watchdog

  // ---------- history ----------

  /** The pass is out of the start-up grace. */
  predicate Active(c: Config, start: int, p: Pass) { p.now0 - start >= c.startGrace }

  /** When the bad spell began: the first active bad pass since the latest active good one. */
  ghost function SpellStart(c: Config, start: int, ps: seq<Pass>): Option<int> {
    if ps == [] then None
    else
      var front, p := ps[..|ps| - 1], ps[|ps| - 1];
      var before := SpellStart(c, start, front);
      if !Active(c, start, p) then before
      else if p.good then None
      else if before.Some? then before
      else Some(p.now1)
  }

  ghost function LastRestart(restarts: seq<Restart>): int {
    if restarts == [] then 0 else restarts[|restarts| - 1].at
  }

  /** How many restarts were ordered less than an hour before `now`. */
  ghost function WithinHour(restarts: seq<Restart>, now: int): nat {
    if restarts == [] then 0
    else WithinHour(restarts[..|restarts| - 1], now) + if now - restarts[|restarts| - 1].at < 3600 then 1 else 0
  }

  // ---------- the run invariant ----------

  ghost predicate ModesOk(c: Config, start: int, s: State, ps: seq<Pass>) {
    s.badSince == (if SpellStart(c, start, ps).Some? then SpellStart(c, start, ps).value else 0) &&
    (SpellStart(c, start, ps).Some? ==> SpellStart(c, start, ps).value > 0) &&
    s.lastAction == LastRestart(s.restarts) && (s.mode != Ok ==> SpellStart(c, start, ps).Some?) &&
    (s.mode == Recovering ==> s.restarts != [] && s.observeUntil == LastRestart(s.restarts) + c.observeGrace)
  }

  lemma SpellSnoc(c: Config, start: int, ps: seq<Pass>, p: Pass)
    ensures SpellStart(c, start, ps + [p]) ==
      if !Active(c, start, p) then SpellStart(c, start, ps)
      else if p.good then None
      else if SpellStart(c, start, ps).Some? then SpellStart(c, start, ps)
      else Some(p.now1)
  {
    var longer := ps + [p];
    assert longer[..|longer| - 1] == ps && longer[|longer| - 1] == p;
  }

  lemma StepKeepsModes(c: Config, start: int, s: State, ps: seq<Pass>, p: Pass)
    requires ModesOk(c, start, s, ps) && p.now1 > 0
    ensures ModesOk(c, start, Step(c, start, s, p), ps + [p])
  {
    SpellSnoc(c, start, ps, p);
    hide SpellStart, Recent;
  }

  lemma {:induction false} RunKeepsModes(c: Config, start: int, ps: seq<Pass>)
    requires Timely(start, ps)
    ensures ModesOk(c, start, Run(c, start, ps), ps)
  {
    if ps != [] {
      var front, p := ps[..|ps| - 1], ps[|ps| - 1];
      RunKeepsModes(c, start, front);
      ClockIsPositive(start, front);
      StepKeepsModes(c, start, Run(c, start, front), front, p);
      assert front + [p] == ps;
      hide Step, ModesOk;
    }
  }

  /** The pruned strike list is as long as there are restarts in the last hour. */
  lemma RecentCounts(c: Config, restarts: seq<Restart>, strikes: seq<int>, lastAction: int, now: int)
    requires RestartsOk(c, restarts, strikes, lastAction, now)
    ensures |Recent(strikes, now)| == WithinHour(restarts, now)
  {
    var times := Times(restarts);
    assert NonDecreasing(strikes);
    RecentIsTail(strikes, now);
    var n := |Recent(strikes, now)|;
    var kept := |times| - |strikes|;
    forall i | 0 <= i < |restarts| ensures now - restarts[i].at < 3600 <==> i >= |restarts| - n {
      assert times[i] == restarts[i].at;
      if i >= kept {
        assert times[i] == strikes[i - kept];
      }
    }
    TailCounts(restarts, now, n);
  }

  lemma {:induction false} TailCounts(restarts: seq<Restart>, now: int, n: nat)
    requires n <= |restarts| && forall i :: 0 <= i < |restarts| ==> (now - restarts[i].at < 3600 <==> i >= |restarts| - n)
    ensures WithinHour(restarts, now) == n
  {
    if restarts != [] {
      TailCounts(restarts[..|restarts| - 1], now, if n > 0 then n - 1 else 0);
    }
  }

  // ---------- theorems ----------

  /** A restart is due: the bad spell has lasted the window and the cooldown has passed. */
  ghost predicate RestartIsDue(c: Config, start: int, ps: seq<Pass>, p: Pass) {
    var spell := SpellStart(c, start, ps);
    p.now1 - (if spell.Some? then spell.value else p.now1) >= c.goodWindow &&
    p.now1 - LastRestart(Run(c, start, ps).restarts) >= c.cooldown
  }

  /** What the next pass does after any run, in every mode. A good pass restores OK. In OK a restart is
      ordered exactly if it is due and fewer than MAX_RESTARTS came in the last hour, and leads to
      RECOVERING or, if it fails, DEGRADED; due with the budget used up, the mode is DEGRADED at once.
      RECOVERING ends in DEGRADED exactly at the first bad pass OBSERVE_GRACE or more after the restart.
      DEGRADED lasts until a good pass. Nothing else changes the mode or orders a restart. */
  lemma NextMode(c: Config, start: int, ps: seq<Pass>, p: Pass)
    requires Timely(start, ps + [p])
    ensures var s, s' := Run(c, start, ps), Run(c, start, ps + [p]);
      if !Active(c, start, p) then s' == s
      else if p.good then s'.mode == Ok && s'.restarts == s.restarts
      else
        match s.mode
        case Ok =>
          if !RestartIsDue(c, start, ps, p) then s'.mode == Ok && s'.restarts == s.restarts
          else if WithinHour(s.restarts, p.now1) >= c.maxRestarts then s'.mode == Degraded && s'.restarts == s.restarts
          else
            s'.restarts == s.restarts + [Restart(p.now1, Ok)] &&
            s'.mode == if p.restartOk then Recovering else Degraded
        case Recovering =>
          s.restarts != [] && s'.restarts == s.restarts &&
          s'.mode == (if p.now1 >= LastRestart(s.restarts) + c.observeGrace then Degraded else Recovering)
        case Degraded => s'.mode == Degraded && s'.restarts == s.restarts
  {
    RunSnoc(c, start, ps, p);
    RunKeepsModes(c, start, ps);
    RunKeepsRestarts(c, start, ps);
    ClockIsPositive(start, ps);
    var s := Run(c, start, ps);
    LaterKeepsRestarts(c, s.restarts, s.strikes, s.lastAction, Clock(start, ps), p.now1);
    RecentCounts(c, s.restarts, s.strikes, s.lastAction, p.now1);
    hide Run, Timely, Recent, WithinHour, SpellStart, RestartsOk, Clock;
  }

  /** In every run: a bad pass leaves RECOVERING only inside the observation window of the latest
      restart, unless it is the pass that ordered it. */
  lemma RecoveringIsObserved(c: Config, start: int, ps: seq<Pass>, p: Pass)
    requires Timely(start, ps + [p]) && Active(c, start, p) && !p.good
    requires Run(c, start, ps + [p]).mode == Recovering
    ensures var s, s' := Run(c, start, ps), Run(c, start, ps + [p]);
      s'.restarts != [] &&
      (p.now1 < LastRestart(s'.restarts) + c.observeGrace ||
       (s.mode == Ok && s'.restarts == s.restarts + [Restart(p.now1, Ok)]))
  {
    NextMode(c, start, ps, p);
    hide Run, Timely, SpellStart, WithinHour;
  }

  /** DEGRADED is entered only by a used-up budget, a failed restart or a run-out observation window. */
  lemma DegradedIsEarned(c: Config, start: int, ps: seq<Pass>, p: Pass)
    requires Timely(start, ps + [p]) && Run(c, start, ps).mode != Degraded && Run(c, start, ps + [p]).mode == Degraded
    ensures var s := Run(c, start, ps);
      Active(c, start, p) && !p.good &&
      ((s.mode == Ok && RestartIsDue(c, start, ps, p) &&
        (WithinHour(s.restarts, p.now1) >= c.maxRestarts || !p.restartOk)) ||
       (s.mode == Recovering && p.now1 >= LastRestart(s.restarts) + c.observeGrace))
  {
    NextMode(c, start, ps, p);
    hide Run, Timely, SpellStart, WithinHour;
  }

  /** What the pass wants of NTP serving, if anything: on after a good sample, off in DEGRADED and on
      entering RECOVERING. */
  ghost function Wanted(p: Pass, before: Mode, after: Mode): Option<Serving> {
    if p.good then Some(On)
    else if after == Degraded then Some(Off)
    else if before == Ok && after == Recovering then Some(Off)
    else None
  }

  /** Serving after a pass: a bad pass begun in DEGRADED first denies, unthrottled; then what is wanted
      and not yet so is tried once, if ten seconds have passed since the last try, and holds if the
      command succeeds. Without the guard nothing changes. */
  lemma NextServing(c: Config, start: int, ps: seq<Pass>, p: Pass)
    ensures var s, s' := Run(c, start, ps), Run(c, start, ps + [p]);
      if !Active(c, start, p) || !c.guarded then s'.serving == s.serving && s'.lastTry == s.lastTry
      else
        var first := if s.mode == Degraded && !p.good && p.forceDenyOk then Off else s.serving;
        var want := Wanted(p, s.mode, s'.mode);
        if want == None || want == Some(first) || p.checkNow - s.lastTry < 10
        then s'.serving == first && s'.lastTry == s.lastTry
        else
          s'.lastTry == p.tryNow &&
          s'.serving == if (if want == Some(Off) then p.denyOk else p.allowOk) then want.value else first
  {
    RunSnoc(c, start, ps, p);
    hide Run, Timely, Recent;
  }
}
