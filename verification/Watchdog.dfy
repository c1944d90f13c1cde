/** The sync-chain watchdog (pps_tod_watchdog.sh): a three-mode machine with a restart budget, a
    cooldown and a throttled guard over NTP serving; its promises hold over whole runs of passes. */
module Watchdog {
  import opened Spans

  datatype Mode = Ok | Recovering | Degraded

  datatype Serving = Unknown | On | Off

  /** The thresholds of pps_tod_watchdog.conf, in seconds. */
  datatype Config = Config(goodWindow: int, cooldown: int, maxRestarts: nat, observeGrace: int,
                           startGrace: int, guarded: bool)

  const RETRY: int := 10
  const HOUR: int := 3600

  /** One pass of the main loop: the clock readings it makes, in order (`now0` at the top, `now1`
      after `is_good`, which overwrites the same variable, and two inside `ntp_serve`), the health
      verdict, and how the commands it may run turn out. */
  datatype Pass = Pass(now0: int, now1: int, checkNow: int, tryNow: int, good: bool,
                       restartOk: bool, forceDenyOk: bool, denyOk: bool, allowOk: bool)

  /** `from` is the mode in which the restart was ordered. */
  datatype Restart = Restart(at: int, from: Mode)

  /** `restarts` is history; the rest are the script's variables. */
  datatype State = State(mode: Mode, badSince: int, lastAction: int, observeUntil: int,
                         strikes: seq<int>, serving: Serving, lastTry: int, restarts: seq<Restart>)

  const INITIAL: State := State(Ok, 0, 0, 0, [], Unknown, 0, [])

  /** `ntp_serve want`: only on a transition, at most one attempt per ten seconds. */
  function Serve(c: Config, s: State, want: Serving, p: Pass): (s': State)
    ensures s' == s.(lastTry := s'.lastTry, serving := s'.serving)
  {
    if !c.guarded || s.serving == want || p.checkNow - s.lastTry < RETRY then s
    else
      var ok := if want == Off then p.denyOk else p.allowOk;
      s.(lastTry := p.tryNow, serving := if ok then want else s.serving)
  }

  /** `ntp_serve off force`: no throttle, and the throttle clock is left alone. */
  function ForceOff(c: Config, s: State, p: Pass): State {
    if c.guarded && p.forceDenyOk then s.(serving := Off) else s
  }

  /** The strikes of the last hour. */
  function Recent(strikes: seq<int>, now: int): seq<int> {
    if strikes == [] then []
    else
      var front, s := strikes[..|strikes| - 1], strikes[|strikes| - 1];
      if now - s < HOUR then Recent(front, now) + [s] else Recent(front, now)
  }

  function OrderRestart(c: Config, s: State, p: Pass): State {
    var recent := Recent(s.strikes, p.now1);
    if |recent| >= c.maxRestarts then s.(strikes := recent, mode := Degraded)
    else
      var acted := s.(strikes := recent + [p.now1], lastAction := p.now1,
                      observeUntil := p.now1 + c.observeGrace,
                      restarts := s.restarts + [Restart(p.now1, s.mode)]);
      if p.restartOk then Serve(c, acted.(mode := Recovering), Off, p) else acted.(mode := Degraded)
  }

  function OnGood(c: Config, s: State, p: Pass): State {
    Serve(c, s.(mode := Ok, badSince := 0, observeUntil := 0), On, p)
  }

  function OnBad(c: Config, s: State, p: Pass): State {
    match s.mode
    case Ok =>
      var s1 := if s.badSince == 0 then s.(badSince := p.now1) else s;
      if p.now1 - s1.badSince >= c.goodWindow && p.now1 - s1.lastAction >= c.cooldown
      then OrderRestart(c, s1, p) else s1
    case Recovering => if p.now1 >= s.observeUntil then s.(mode := Degraded) else s
    case Degraded => ForceOff(c, s, p)
  }

  predicate InGrace(c: Config, start: int, p: Pass) { p.now0 - start < c.startGrace }

  function Step(c: Config, start: int, s: State, p: Pass): State {
    if InGrace(c, start, p) then s
    else
      var s1 := if p.good then OnGood(c, s, p) else OnBad(c, s, p);
      if s1.mode == Degraded then Serve(c, s1, Off, p) else s1
  }

  function Run(c: Config, start: int, ps: seq<Pass>): State {
    if ps == [] then INITIAL else Step(c, start, Run(c, start, ps[..|ps| - 1]), ps[|ps| - 1])
  }

  function Clock(start: int, ps: seq<Pass>): int {
    if ps == [] then start else ps[|ps| - 1].tryNow
  }

  /** Time since the epoch never runs backwards. */
  ghost predicate Timely(start: int, ps: seq<Pass>) {
    if ps == [] then start > 0
    else
      var front, p := ps[..|ps| - 1], ps[|ps| - 1];
      Timely(start, front) && Clock(start, front) <= p.now0 <= p.now1 <= p.checkNow <= p.tryNow
  }

  // ---------- the restart budget ----------

  ghost function Times(restarts: seq<Restart>): seq<int> {
    seq(|restarts|, i requires 0 <= i < |restarts| => restarts[i].at)
  }

  /** The strike list is the tail of the restart history, and what it dropped is over an hour old;
      restarts are spaced by the cooldown, and `maxRestarts` of them by an hour. */
  ghost predicate BudgetOk(c: Config, times: seq<int>, strikes: seq<int>, lastAction: int, clock: int) {
    |strikes| <= |times| && strikes == times[|times| - |strikes|..] && |strikes| <= c.maxRestarts &&
    (forall i :: 0 <= i < |times| - |strikes| ==> clock - times[i] >= HOUR) &&
    NonDecreasing(times) && (times != [] ==> times[|times| - 1] == lastAction <= clock) &&
    Cooled(times, c.cooldown) && Spread(times, c.maxRestarts)
  }

  /** Any `n + 1` consecutive times stretch over at least an hour. */
  ghost predicate Spread(times: seq<int>, n: nat) {
    forall i :: 0 <= i && i + n < |times| ==> times[i + n] - times[i] >= HOUR
  }

  ghost predicate Cooled(times: seq<int>, cooldown: int) {
    forall i, j :: 0 <= i < j < |times| ==> times[j] - times[i] >= cooldown
  }

  lemma CooledAppend(times: seq<int>, cooldown: int, now: int)
    requires Cooled(times, cooldown) && NonDecreasing(times)
    requires times != [] ==> times[|times| - 1] <= now && now - times[|times| - 1] >= cooldown
    ensures Cooled(times + [now], cooldown) && NonDecreasing(times + [now])
  {
    assert forall i :: 0 <= i < |times| ==> times[i] <= times[|times| - 1];
  }

  lemma SpreadAppend(times: seq<int>, n: nat, now: int)
    requires Spread(times, n) && n > 0
    requires n <= |times| ==> now - times[|times| - n] >= HOUR
    ensures Spread(times + [now], n)
  {
    var longer := times + [now];
    forall i | 0 <= i && i + n < |longer| ensures longer[i + n] - longer[i] >= HOUR {
      if i + n < |times| {
        assert times[i + n] - times[i] >= HOUR;
      }
    }
  }

  /** Of a nondecreasing list, the recent strikes are a tail. */
  lemma {:induction false} RecentIsTail(strikes: seq<int>, now: int)
    requires NonDecreasing(strikes)
    ensures var n := |strikes| - |Recent(strikes, now)|;
      0 <= n && Recent(strikes, now) == strikes[n..] &&
      (forall i :: 0 <= i < n ==> now - strikes[i] >= HOUR) &&
      forall i :: n <= i < |strikes| ==> now - strikes[i] < HOUR
  {
    if strikes != [] {
      var front, last := strikes[..|strikes| - 1], strikes[|strikes| - 1];
      RecentIsTail(front, now);
      var n := |front| - |Recent(front, now)|;
      if now - last < HOUR {
        assert strikes[n..] == front[n..] + [last];
      } else {
        assert forall i :: 0 <= i < |front| ==> front[i] <= last;
        assert n == |front|;
      }
    }
  }

  lemma ClockKeepsBudget(c: Config, times: seq<int>, strikes: seq<int>, lastAction: int, clock: int, later: int)
    requires BudgetOk(c, times, strikes, lastAction, clock) && clock <= later
    ensures BudgetOk(c, times, strikes, lastAction, later)
  {
  }

  lemma PruneKeepsBudget(c: Config, times: seq<int>, strikes: seq<int>, lastAction: int, now: int)
    requires BudgetOk(c, times, strikes, lastAction, now)
    ensures BudgetOk(c, times, Recent(strikes, now), lastAction, now)
  {
    assert NonDecreasing(strikes);
    RecentIsTail(strikes, now);
    var recent := Recent(strikes, now);
    var kept, dropped := |times| - |strikes|, |times| - |recent|;
    assert recent == times[dropped..];
    forall i | 0 <= i < dropped ensures now - times[i] >= HOUR {
      assert i >= kept ==> times[i] == strikes[i - kept];
    }
  }

  lemma AppendKeepsBudget(c: Config, times: seq<int>, strikes: seq<int>, lastAction: int, now: int)
    requires BudgetOk(c, times, strikes, lastAction, now)
    requires |strikes| < c.maxRestarts && now - lastAction >= c.cooldown
    ensures BudgetOk(c, times + [now], strikes + [now], now, now)
  {
    SpreadAppend(times, c.maxRestarts, now);
    CooledAppend(times, c.cooldown, now);
    hide Spread, Cooled, NonDecreasing;
    var longer := times + [now];
    assert longer[|longer| - (|strikes| + 1)..] == strikes + [now];
  }

  ghost predicate RestartsOk(c: Config, restarts: seq<Restart>, strikes: seq<int>, lastAction: int, clock: int) {
    BudgetOk(c, Times(restarts), strikes, lastAction, clock) &&
    forall i :: 0 <= i < |restarts| ==> restarts[i].from == Ok
  }

  lemma LaterKeepsRestarts(c: Config, restarts: seq<Restart>, strikes: seq<int>, lastAction: int, clock: int, later: int)
    requires RestartsOk(c, restarts, strikes, lastAction, clock) && clock <= later
    ensures RestartsOk(c, restarts, strikes, lastAction, later)
  {
    ClockKeepsBudget(c, Times(restarts), strikes, lastAction, clock, later);
  }

  /** What a considered restart does to the budget's variables. */
  lemma OrderedRestart(c: Config, s: State, p: Pass)
    ensures var s', recent := OrderRestart(c, s, p), Recent(s.strikes, p.now1);
      if |recent| >= c.maxRestarts
      then s'.restarts == s.restarts && s'.strikes == recent && s'.lastAction == s.lastAction
      else s'.restarts == s.restarts + [Restart(p.now1, s.mode)] && s'.strikes == recent + [p.now1] &&
           s'.lastAction == p.now1
  {
    hide Recent, Serve;
  }

  lemma TimesSnoc(restarts: seq<Restart>, r: Restart)
    ensures Times(restarts + [r]) == Times(restarts) + [r.at]
  {
  }

  lemma OrderKeepsRestarts(c: Config, s: State, p: Pass)
    requires RestartsOk(c, s.restarts, s.strikes, s.lastAction, p.now1)
    requires s.mode == Ok && p.now1 - s.lastAction >= c.cooldown
    ensures var s' := OrderRestart(c, s, p); RestartsOk(c, s'.restarts, s'.strikes, s'.lastAction, p.now1)
  {
    hide BudgetOk, Recent, OrderRestart, Times;
    var recent := Recent(s.strikes, p.now1);
    OrderedRestart(c, s, p);
    PruneKeepsBudget(c, Times(s.restarts), s.strikes, s.lastAction, p.now1);
    if |recent| < c.maxRestarts {
      AppendKeepsBudget(c, Times(s.restarts), recent, s.lastAction, p.now1);
      TimesSnoc(s.restarts, Restart(p.now1, s.mode));
    }
  }

  lemma StepKeepsRestarts(c: Config, start: int, s: State, p: Pass, clock: int)
    requires RestartsOk(c, s.restarts, s.strikes, s.lastAction, clock)
    requires clock <= p.now0 <= p.now1 <= p.checkNow <= p.tryNow
    ensures var s' := Step(c, start, s, p); RestartsOk(c, s'.restarts, s'.strikes, s'.lastAction, p.tryNow)
  {
    hide BudgetOk, RestartsOk, OrderRestart, Serve, Times;
    LaterKeepsRestarts(c, s.restarts, s.strikes, s.lastAction, clock, p.now1);
    LaterKeepsRestarts(c, s.restarts, s.strikes, s.lastAction, clock, p.tryNow);
    var s1 := if s.badSince == 0 then s.(badSince := p.now1) else s;
    if !p.good && s.mode == Ok && p.now1 - s1.lastAction >= c.cooldown {
      OrderKeepsRestarts(c, s1, p);
      var s2 := OrderRestart(c, s1, p);
      LaterKeepsRestarts(c, s2.restarts, s2.strikes, s2.lastAction, p.now1, p.tryNow);
    }
  }

  lemma {:induction false} RunKeepsRestarts(c: Config, start: int, ps: seq<Pass>)
    requires Timely(start, ps)
    ensures var s := Run(c, start, ps); RestartsOk(c, s.restarts, s.strikes, s.lastAction, Clock(start, ps))
  {
    if ps != [] {
      RunKeepsRestarts(c, start, ps[..|ps| - 1]);
      StepKeepsRestarts(c, start, Run(c, start, ps[..|ps| - 1]), ps[|ps| - 1], Clock(start, ps[..|ps| - 1]));
    }
  }

  /** In every run restarts are at least the cooldown apart, every half-open hour holds at most
      `MAX_RESTARTS` of them, all are ordered in mode OK, and the strike list, although pruned only
      when a restart is considered, never outgrows `MAX_RESTARTS`. */
  lemma RestartBudget(c: Config, start: int, ps: seq<Pass>, from: int)
    requires Timely(start, ps)
    ensures var s := Run(c, start, ps);
      |s.strikes| <= c.maxRestarts &&
      |InSpan(Times(s.restarts), from, HOUR)| <= c.maxRestarts &&
      (forall i :: 0 <= i < |s.restarts| ==> s.restarts[i].from == Ok) &&
      forall i, j :: 0 <= i < j < |s.restarts| ==> s.restarts[j].at - s.restarts[i].at >= c.cooldown
  {
    RunKeepsRestarts(c, start, ps);
    var s := Run(c, start, ps);
    var times := Times(s.restarts);
    SpanBound(times, c.maxRestarts, from, HOUR);
    forall i, j | 0 <= i < j < |s.restarts| ensures s.restarts[j].at - s.restarts[i].at >= c.cooldown {
      assert times[j] - times[i] >= c.cooldown;
    }
  }

  // ---------- the serving guard ----------

  ghost predicate DenySucceeds(ps: seq<Pass>) {
    forall i :: 0 <= i < |ps| ==> ps[i].denyOk && ps[i].forceDenyOk
  }

  /** The last attempt precedes the bad spell, so the throttle has run out when its window has. */
  ghost predicate GuardOk(s: State, clock: int) {
    (s.mode != Ok ==> s.serving == Off) &&
    s.lastTry <= clock && (s.badSince != 0 && s.mode == Ok ==> s.lastTry <= s.badSince)
  }

  lemma StepKeepsGuard(c: Config, start: int, s: State, p: Pass, clock: int)
    requires c.guarded && c.goodWindow >= RETRY && GuardOk(s, clock)
    requires 0 < clock <= p.now0 <= p.now1 <= p.checkNow <= p.tryNow && p.denyOk && p.forceDenyOk
    ensures GuardOk(Step(c, start, s, p), p.tryNow)
  {
  }

  /** With the guard on, a window of at least the retry throttle, and deny commands that succeed, the
      board never ends a pass serving in a mode that does not vouch for its clock. */
  lemma {:induction false} NeverServesUnvouched(c: Config, start: int, ps: seq<Pass>)
    requires Timely(start, ps) && DenySucceeds(ps) && c.guarded && c.goodWindow >= RETRY
    ensures GuardOk(Run(c, start, ps), Clock(start, ps))
    ensures Run(c, start, ps).mode != Ok ==> Run(c, start, ps).serving == Off
  {
    if ps != [] {
      var front := ps[..|ps| - 1];
      NeverServesUnvouched(c, start, front);
      ClockIsPositive(start, front);
      StepKeepsGuard(c, start, Run(c, start, front), ps[|ps| - 1], Clock(start, front));
    }
  }

  lemma {:induction false} ClockIsPositive(start: int, ps: seq<Pass>)
    requires Timely(start, ps)
    ensures Clock(start, ps) > 0
  {
    if ps != [] {
      ClockIsPositive(start, ps[..|ps| - 1]);
    }
  }

  function At(t: int, good: bool): Pass {
    Pass(t, t, t, t, good, true, true, true, true)
  }

  /** A good pass at a time when the throttle has run out turns serving on. */
  lemma GoodPassServes(c: Config, start: int, t: int)
    requires c.guarded && t >= RETRY && t - start >= c.startGrace
    ensures Step(c, start, INITIAL, At(t, true)) == INITIAL.(serving := On, lastTry := t)
  {
  }

  /** A bad pass inside the throttle of that attempt, with the window run out, leaves mode OK serving. */
  lemma BadPassKeepsServing(c: Config, start: int, s: State, t: int)
    requires c.guarded && t - start >= c.startGrace && t - s.lastAction >= c.cooldown && t - s.lastTry < RETRY
    requires s.mode == Ok && s.serving == On && s.strikes == []
    requires t - (if s.badSince == 0 then t else s.badSince) >= c.goodWindow
    ensures var s' := Step(c, start, s, At(t, false)); s'.mode != Ok && s'.serving == On
  {
  }

  /** A bad pass with the window still open only notes its beginning. */
  lemma BadPassWaits(c: Config, start: int, s: State, t: int)
    requires t - start >= c.startGrace && s.mode == Ok && s.badSince == 0 && 0 < c.goodWindow
    ensures Step(c, start, s, At(t, false)) == s.(badSince := t)
  {
  }

  /** The condition on the window is exact: with any shorter one there is a run in which every command
      succeeds and yet the throttle keeps the board serving outside mode OK. */
  lemma ShortWindowCanServeUnvouched(c: Config, start: int) returns (ps: seq<Pass>)
    requires c.guarded && c.goodWindow < RETRY && start > 0
    ensures Timely(start, ps) && DenySucceeds(ps)
    ensures Run(c, start, ps).mode != Ok && Run(c, start, ps).serving == On
  {
    hide Step;
    var t := start + RETRY + (if c.startGrace > 0 then c.startGrace else 0) + if c.cooldown > 0 then c.cooldown else 0;
    assert Run(c, start, []) == INITIAL && Timely(start, []);
    hide Run, Timely;
    var g, b := At(t, true), At(t, false);
    GoodPassServes(c, start, t);
    RunSnoc(c, start, [], g);
    assert [] + [g] == [g];
    var s1 := Run(c, start, [g]);
    RunSnoc(c, start, [g], b);
    assert [g] + [b] == [g, b];
    if c.goodWindow <= 0 {
      BadPassKeepsServing(c, start, s1, t);
      ps := [g, b];
    } else {
      BadPassWaits(c, start, s1, t);
      var late := At(t + c.goodWindow, false);
      BadPassKeepsServing(c, start, s1.(badSince := t), t + c.goodWindow);
      RunSnoc(c, start, [g, b], late);
      ps := [g, b] + [late];
    }
  }

  lemma RunSnoc(c: Config, start: int, ps: seq<Pass>, p: Pass)
    ensures Run(c, start, ps + [p]) == Step(c, start, Run(c, start, ps), p)
    ensures Timely(start, ps + [p]) <==>
      Timely(start, ps) && Clock(start, ps) <= p.now0 <= p.now1 <= p.checkNow <= p.tryNow
  {
    hide Step;
    var longer := ps + [p];
    assert longer[..|longer| - 1] == ps && longer[|longer| - 1] == p;
  }

  /** The tail of a run from pass `k` on: out of grace, healthy, and allow commands succeed. */
  ghost predicate HealthySince(c: Config, start: int, ps: seq<Pass>, k: nat) {
    k < |ps| && forall i :: k <= i < |ps| ==> ps[i].good && ps[i].allowOk && !InGrace(c, start, ps[i])
  }

  lemma {:induction false} TriesArePast(c: Config, start: int, ps: seq<Pass>)
    requires Timely(start, ps)
    ensures Run(c, start, ps).lastTry <= Clock(start, ps)
  {
    if ps != [] {
      TriesArePast(c, start, ps[..|ps| - 1]);
      ClockIsPositive(start, ps[..|ps| - 1]);
    }
  }

  /** After any history, uninterrupted healthy passes end with the board serving, or still inside the
      retry throttle of an attempt made before they began. */
  lemma {:induction false} ServingReturns(c: Config, start: int, ps: seq<Pass>, k: nat)
    requires Timely(start, ps) && HealthySince(c, start, ps, k) && c.guarded
    ensures var s := Run(c, start, ps);
      s.serving == On || (s.lastTry <= ps[k].now0 && ps[|ps| - 1].checkNow - s.lastTry < RETRY)
  {
    var front := ps[..|ps| - 1];
    if k == |ps| - 1 {
      TriesArePast(c, start, front);
    } else {
      ServingReturns(c, start, front, k);
    }
  }

  /** ... hence serving is back within ten seconds of uninterrupted healthy passes. */
  lemma ServingIsBackInTenSeconds(c: Config, start: int, ps: seq<Pass>, k: nat)
    requires Timely(start, ps) && HealthySince(c, start, ps, k) && c.guarded
    requires ps[|ps| - 1].checkNow >= ps[k].now0 + RETRY
    ensures Run(c, start, ps).serving == On
  {
    ServingReturns(c, start, ps, k);
  }

  // ---------- the script as it runs ----------

  class Script {
    const cfg: Config
    const start: int
    var mode: Mode
    var badSince: int
    var lastAction: int
    var observeUntil: int
    var strikes: seq<int>
    var serving: Serving
    var lastTry: int
    ghost var restarts: seq<Restart>
    ghost var passes: seq<Pass>

    ghost function View(): State
      reads this
    {
      State(mode, badSince, lastAction, observeUntil, strikes, serving, lastTry, restarts)
    }

    ghost predicate Valid()
      reads this
    {
      View() == Run(cfg, start, passes)
    }

    constructor (cfg: Config, start: int)
      ensures Valid() && passes == [] && this.cfg == cfg && this.start == start
    {
      this.cfg, this.start := cfg, start;
      mode, badSince, lastAction, observeUntil, strikes := Ok, 0, 0, 0, [];
      serving, lastTry := Unknown, 0;
      restarts, passes := [], [];
    }

    /** `ntp_serve` without force. */
    method NtpServe(want: Serving, p: Pass)
      modifies this`serving, this`lastTry
      ensures View() == Serve(cfg, old(View()), want, p)
    {
      if !cfg.guarded {
        return;
      }
      if serving == want {
        return;
      }
      if p.checkNow - lastTry < RETRY {
        return;
      }
      lastTry := p.tryNow;
      if want == Off {
        if p.denyOk {
          serving := Off;
        }
      } else if p.allowOk {
        serving := want;
      }
    }

    /** The strike-pruning loop. */
    method PruneStrikes(now: int)
      modifies this`strikes
      ensures strikes == Recent(old(strikes), now)
    {
      var kept := [];
      for i := 0 to |strikes|
        invariant kept == Recent(strikes[..i], now)
      {
        assert strikes[..i + 1][..i] == strikes[..i];
        if now - strikes[i] < HOUR {
          kept := kept + [strikes[i]];
        }
      }
      assert strikes[..|strikes|] == strikes;
      strikes := kept;
    }

    method ConsiderRestart(p: Pass)
      modifies this
      ensures View() == OrderRestart(cfg, old(View()), p) && passes == old(passes)
    {
      PruneStrikes(p.now1);
      if |strikes| >= cfg.maxRestarts {
        mode := Degraded;
      } else {
        restarts := restarts + [Restart(p.now1, mode)];
        strikes := strikes + [p.now1];
        lastAction := p.now1;
        observeUntil := p.now1 + cfg.observeGrace;
        if !p.restartOk {
          mode := Degraded;
        } else {
          mode := Recovering;
          NtpServe(Off, p);
        }
      }
    }

    /** The branch of a pass without a good sample. */
    method HandleBad(p: Pass)
      modifies this
      ensures View() == OnBad(cfg, old(View()), p) && passes == old(passes)
    {
      match mode
      case Ok =>
        if badSince == 0 {
          badSince := p.now1;
        }
        if p.now1 - badSince >= cfg.goodWindow {
          if p.now1 - lastAction < cfg.cooldown {
          } else {
            ConsiderRestart(p);
          }
        }
      case Recovering =>
        if p.now1 >= observeUntil {
          mode := Degraded;
        }
      case Degraded =>
        if cfg.guarded && p.forceDenyOk {
          serving := Off;
        }
    }

    /** One pass of the main loop. */
    method DoPass(p: Pass)
      requires Valid()
      modifies this
      ensures Valid() && passes == old(passes) + [p]
    {
      RunSnoc(cfg, start, passes, p);
      hide Run, Timely, OnBad, Serve;
      passes := passes + [p];
      if p.now0 - start < cfg.startGrace {
        return;
      }
      if p.good {
        mode := Ok;
        badSince := 0;
        observeUntil := 0;
        NtpServe(On, p);
      } else {
        HandleBad(p);
      }
      if mode == Degraded {
        NtpServe(Off, p);
      }
    }
  }
}
