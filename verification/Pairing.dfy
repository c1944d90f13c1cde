/** The state and the atomic steps of the PPS/TOD pairing daemon (pps_tod.c, TOD mode): the two
    thread loops share this state, and every step below is one critical section of `pair_mutex` or,
    in the coarse block, one unlocked access to what the other thread may change. */
module Pairing {
  import opened CInt
  import opened Wrappers

  /** Nanoseconds per second; all times are CLOCK_MONOTONIC nanoseconds unless said otherwise. */
  const SEC: int := 1_000_000_000
  const GATE: int := 500_000_000
  const FRESH: int := 3_000_000_000
  const THROTTLE: int := 10_000_000_000
  const HOUR: int := 3_600_000_000_000
  const SEQ_CAP: int := 1_000_000
  const QUEUE: int := 8

  /** `realtimeStamps`: clock domain of the edge timestamps. `strikeMax`, `resetMax`: options -M
      and -X, both clamped to at least 1 by `main`. */
  datatype Config = Config(realtimeStamps: bool, strikeMax: int, resetMax: int) {
    predicate Valid() { strikeMax >= 1 && resetMax >= 1 }
  }

  datatype Path = Fresh | Flush

  /** One entry per call of `emit_sample` (accepted or gated) and per strike reset after a clock write. `rt` is the edge
      in CLOCK_REALTIME nanoseconds, `utc` the second it is labelled with; `chain` is what the anchor chain says the second is. */
  datatype Outcome =
    | Emitted(path: Path, ts: int, rt: int, utc: int, chain: int)
    | ClockStep
  {
    function Offset(): int requires Emitted? { utc * 1_000_000_000 - rt }
    predicate Accepted() { Emitted? && Abs(Offset()) <= GATE }
    predicate Gated() { Emitted? && Abs(Offset()) > GATE }
    function Sign(): int { if ClockStep? then 0 else if Offset() > 0 then 1 else -1 }
  }

  /** A pass of the coarse block that reached the throttle reset: when, why, and how much of the
      anchor and outcome history it had seen. */
  datatype Attempt = Attempt(at: int, urgent: bool, anchorsSeen: nat, outcomesSeen: nat)

  /** A clock write: when, in which quota window, and the second written. */
  datatype ClockWrite = ClockWrite(at: int, window: nat, target: int)

  /** Everything observable that happened so far (history; the daemon itself keeps none of it). `prior` is
      the strike count before the latest sample. */
  datatype Log = Log(anchors: seq<int>, outcomes: seq<Outcome>, attempts: seq<Attempt>,
                     openings: seq<int>, writes: seq<ClockWrite>, prior: int)

  /** What the coarse block reads in its first critical section. */
  datatype Snap = Snap(current: bool, runSeen: int, anchorsSeen: nat)

  /** Where the gpio thread stands in its coarse block: between two of its accesses to shared state. */
  datatype Pc =
    | Idle
    | Snapped(snap: Snap)
    | Measured(snap: Snap, recent: bool)
    | Weighed(snap: Snap, recent: bool, off: int, outcomesSeen: nat)
    | Stepping
    | Stepped

  datatype Anchor = Anchor(valid: bool, second: int, mono: int, run: int, prev: int)

  datatype Gate = Gate(strike: int, sign: int, offUs: int, offMono: int)

  datatype Quota = Quota(lastNudge: int, window: int, resets: int, capped: bool)

  datatype Daemon = Daemon(anchor: Anchor, edgeCount: int, pending: seq<int>, gate: Gate,
                           quota: Quota, pc: Pc, log: Log)

  /** What an unlocked read of `strike` finds: its value after the latest sample, or, while the serial
      thread is storing that sample, the value before it or the 0 in between. */
  datatype Seen = Latest | Earlier | Cleared

  /** Clock readings are parameters of the events; `conv` is CLOCK_REALTIME minus CLOCK_MONOTONIC
      at the event. `Measure`, `Weigh` and `Decide` are the unlocked reads of `last_off_mono`,
      `last_off_us` and `strike`. The unlocked reset of `strike` after a clock write is `lost` when it
      falls between the load and the store of an increment by the serial thread. */
  datatype Event =
    | Sentence(second: int, now: int, conv: int, offNow: int)
    | Edge(ts: int, now: int, conv: int, offNow: int)
    | Snapshot(now: int)
    | Measure(now: int)
    | Weigh(at: int)
    | Decide(seen: Seen, gateNow: int, windowNow: int, openNow: int, nudgeNow: int)
    | WriteClock(at: int)
    | ClearStrike(at: int, lost: bool)

  function Initial(start: int): Daemon {
    Daemon(Anchor(false, 0, 0, 0, 0), 0, [], Gate(0, 0, 0, 0), Quota(start - THROTTLE, 0, 0, false),
           Idle, Log([], [], [], [], [], 0))
  }

  function Realtime(c: Config, ts: int, conv: int): int {
    if c.realtimeStamps then ts else ts + conv
  }

  /** The second nearest to a realtime stamp, with C's truncating operators. */
  function RoundedSecond(rt: int): int {
    SecondsOf(rt) + (if NanosOf(rt) >= GATE then 1 else 0)
  }

  function ChainSecond(d: Daemon): int {
    d.anchor.second + 1 + d.edgeCount
  }

  /** Rounding decides unless it disagrees with the chain by more than one second. */
  function Label(rounded: int, chain: int): int {
    if Abs(rounded - chain) <= 1 then rounded else chain
  }

  function NextGate(g: Gate, o: Outcome, offNow: int): Gate
    requires o.Emitted?
  {
    var offUs := Thousandth(o.Offset());
    if o.Gated() then
      Gate((if g.sign != 0 && o.Sign() != g.sign then 0 else g.strike) + 1, o.Sign(), offUs, offNow)
    else Gate(0, 0, offUs, offNow)
  }

  function EmitSample(d: Daemon, o: Outcome, offNow: int): Daemon
    requires o.Emitted?
  {
    d.(gate := NextGate(d.gate, o, offNow), log := d.log.(outcomes := d.log.outcomes + [o], prior := d.gate.strike))
  }

  predicate Eligible(e: int, mono: int) { mono - SEC <= e <= mono }

  /** The newest queued edge that precedes the sentence by at most one second. */
  function BestEdge(pending: seq<int>, mono: int): (r: Option<int>)
    ensures r.Some? ==> r.value in pending && Eligible(r.value, mono) &&
                        forall e :: e in pending && Eligible(e, mono) ==> e <= r.value
    ensures r.None? ==> forall e :: e in pending ==> !Eligible(e, mono)
  {
    if pending == [] then None
    else
      var front := pending[..|pending| - 1];
      var last := pending[|pending| - 1];
      var best := BestEdge(front, mono);
      assert pending == front + [last];
      if Eligible(last, mono) && (best.None? || last > best.value) then Some(last) else best
  }

  function NextAnchor(a: Anchor, second: int, now: int): Anchor {
    Anchor(true, second, now,
           if a.prev != 0 && second == a.prev + 1 then (if a.run < SEQ_CAP then a.run + 1 else a.run) else 1,
           second)
  }

  function Anchored(d: Daemon, second: int, now: int): Daemon {
    d.(anchor := NextAnchor(d.anchor, second, now), pending := [], edgeCount := 0,
       log := d.log.(anchors := d.log.anchors + [second]))
  }

  function OnSentence(c: Config, d: Daemon, ev: Event): (d': Daemon)
    requires ev.Sentence?
    ensures d'.quota == d.quota && d'.pc == d.pc && d'.pending == [] && d'.edgeCount == 0
    ensures d'.anchor == NextAnchor(d.anchor, ev.second, ev.now)
    ensures d'.log == d.log.(anchors := d.log.anchors + [ev.second], outcomes := d'.log.outcomes, prior := d'.log.prior)
    ensures d.log.outcomes <= d'.log.outcomes
  {
    match BestEdge(d.pending, ev.now)
    case None => Anchored(d, ev.second, ev.now)
    case Some(e) =>
      EmitSample(Anchored(d, ev.second, ev.now),
                 Emitted(Flush, e, Realtime(c, e, ev.conv), ev.second, ev.second), ev.offNow)
  }

  predicate IsFresh(d: Daemon, now: int) { d.anchor.valid && now - d.anchor.mono < FRESH }

  function OnEdge(c: Config, d: Daemon, ev: Event): (d': Daemon)
    requires ev.Edge?
    ensures d'.quota == d.quota && d'.pc == d.pc && d'.anchor == d.anchor
    ensures d'.log == d.log.(outcomes := d'.log.outcomes, prior := d'.log.prior) && d.log.outcomes <= d'.log.outcomes
  {
    if IsFresh(d, ev.now) then
      var rt := Realtime(c, ev.ts, ev.conv);
      var chain := ChainSecond(d);
      EmitSample(d.(edgeCount := d.edgeCount + 1),
                 Emitted(Fresh, ev.ts, rt, Label(RoundedSecond(rt), chain), chain), ev.offNow)
    else if |d.pending| < QUEUE then d.(pending := d.pending + [ev.ts])
    else d
  }

  function OnSnapshot(d: Daemon, ev: Event): Daemon
    requires ev.Snapshot?
  {
    d.(pc := Snapped(Snap(IsFresh(d, ev.now), d.anchor.run, |d.log.anchors|)))
  }

  function OnMeasure(d: Daemon, ev: Event): Daemon
    requires ev.Measure? && d.pc.Snapped?
  {
    d.(pc := Measured(d.pc.snap, ev.now - d.gate.offMono < FRESH))
  }

  function OnWeigh(d: Daemon): Daemon
    requires d.pc.Measured?
  {
    d.(pc := Weighed(d.pc.snap, d.pc.recent, if d.pc.recent then d.gate.offUs * 1000 else 0, |d.log.outcomes|))
  }

  predicate Urgent(d: Daemon)
    requires d.pc.Weighed?
  {
    d.pc.snap.current && d.pc.recent && Abs(d.pc.off) > SEC
  }

  function SeenStrike(d: Daemon, seen: Seen): int {
    match seen case Latest => d.gate.strike case Earlier => d.log.prior case Cleared => 0
  }

  predicate Stuck(c: Config, d: Daemon, seen: Seen)
    requires d.pc.Weighed?
  {
    d.pc.snap.current && d.pc.recent && SeenStrike(d, seen) >= c.strikeMax
  }

  predicate Attempts(c: Config, d: Daemon, ev: Event)
    requires d.pc.Weighed? && ev.Decide?
  {
    d.pc.snap.runSeen >= 3 && (Urgent(d) || Stuck(c, d, ev.seen)) && ev.gateNow - d.quota.lastNudge > THROTTLE
  }

  /** An urgent attempt rests on the offset read before, any other one on the strikes read now. */
  function NewAttempt(d: Daemon, at: int, seen: Seen): Attempt
    requires d.pc.Weighed? && (seen == Latest || StoringSample(d))
  {
    Attempt(at, Urgent(d), d.pc.snap.anchorsSeen,
            if Urgent(d) then d.pc.outcomesSeen else if seen == Latest then |d.log.outcomes| else |d.log.outcomes| - 1)
  }

  /** The latest sample came from the serial thread, which may still be storing it. */
  predicate StoringSample(d: Daemon) {
    d.log.outcomes != [] &&
    var last := d.log.outcomes[|d.log.outcomes| - 1];
    last.Emitted? && last.path == Flush
  }

  /** The quota after the window check, before this attempt. */
  function Reopened(q: Quota, ev: Event): Quota
    requires ev.Decide?
  {
    if ev.windowNow - q.window >= HOUR then Quota(q.lastNudge, ev.openNow, 0, false) else q
  }

  function OnDecide(c: Config, d: Daemon, ev: Event): (d': Daemon)
    requires ev.Decide? && d.pc.Weighed? && (ev.seen == Latest || StoringSample(d))
    ensures d'.anchor == d.anchor && d'.gate == d.gate && d'.pending == d.pending && d'.edgeCount == d.edgeCount
    ensures d'.log == d.log.(attempts := d'.log.attempts, openings := d'.log.openings)
  {
    if !Attempts(c, d, ev) then d.(pc := Idle)
    else
      var q := Reopened(d.quota, ev);
      var log := d.log.(
        attempts := d.log.attempts + [NewAttempt(d, ev.nudgeNow, ev.seen)],
        openings := if ev.windowNow - d.quota.window >= HOUR then d.log.openings + [ev.openNow] else d.log.openings);
      if q.resets >= c.resetMax then
        d.(quota := q.(lastNudge := ev.nudgeNow, capped := true), pc := Idle, log := log)
      else
        d.(quota := q.(lastNudge := ev.nudgeNow), pc := Stepping, log := log)
  }

  /** The target is re-read under a second lock, so it can be newer than the snapshot. */
  function OnWriteClock(d: Daemon, ev: Event): Daemon
    requires ev.WriteClock?
  {
    var write := ClockWrite(ev.at, |d.log.openings|, d.anchor.second);
    d.(quota := d.quota.(resets := d.quota.resets + 1), pc := Stepped,
       log := d.log.(writes := d.log.writes + [write]))
  }

  function OnClearStrike(d: Daemon, ev: Event): Daemon
    requires ev.ClearStrike?
  {
    if ev.lost then d.(pc := Idle)
    else d.(gate := d.gate.(strike := 0), pc := Idle, log := d.log.(outcomes := d.log.outcomes + [ClockStep]))
  }

  /** The gpio thread is sequential; sentences come from the other thread and fit anywhere. The
      parser only hands over positive seconds. */
  predicate Enabled(d: Daemon, ev: Event) {
    match ev
    case Sentence(s, _, _, _) => s > 0
    case Edge(_, _, _, _) => d.pc.Idle?
    case Snapshot(_) => d.pc.Idle?
    case Measure(_) => d.pc.Snapped?
    case Weigh(_) => d.pc.Measured?
    case Decide(seen, _, _, _, _) => d.pc.Weighed? && (seen == Latest || StoringSample(d))
    case WriteClock(_) => d.pc.Stepping?
    case ClearStrike(_, _) => d.pc.Stepped?
  }

  function Step(c: Config, d: Daemon, ev: Event): Daemon
    requires Enabled(d, ev)
  {
    match ev
    case Sentence(_, _, _, _) => OnSentence(c, d, ev)
    case Edge(_, _, _, _) => OnEdge(c, d, ev)
    case Snapshot(_) => OnSnapshot(d, ev)
    case Measure(_) => OnMeasure(d, ev)
    case Weigh(_) => OnWeigh(d)
    case Decide(_, _, _, _, _) => OnDecide(c, d, ev)
    case WriteClock(_) => OnWriteClock(d, ev)
    case ClearStrike(_, _) => OnClearStrike(d, ev)
  }

  /** Runs, built by appending events. */
  ghost predicate IsRun(c: Config, start: int, evs: seq<Event>)
    decreases |evs|, 0
  {
    evs == [] ||
    (IsRun(c, start, evs[..|evs| - 1]) && Enabled(Run(c, start, evs[..|evs| - 1]), evs[|evs| - 1]))
  }

  ghost function Run(c: Config, start: int, evs: seq<Event>): Daemon
    requires IsRun(c, start, evs)
    decreases |evs|, 1
  {
    if evs == [] then Initial(start)
    else Step(c, Run(c, start, evs[..|evs| - 1]), evs[|evs| - 1])
  }

  // ---------- CLOCK_MONOTONIC ----------

  function FirstReading(ev: Event): int {
    match ev
    case Sentence(_, now, _, _) => now
    case Edge(_, now, _, _) => now
    case Snapshot(now) => now
    case Measure(now) => now
    case Weigh(at) => at
    case Decide(_, gateNow, _, _, _) => gateNow
    case WriteClock(at) => at
    case ClearStrike(at, _) => at
  }

  function LastReading(ev: Event): int {
    match ev
    case Sentence(_, _, _, offNow) => offNow
    case Edge(_, _, _, offNow) => offNow
    case Snapshot(now) => now
    case Measure(now) => now
    case Weigh(at) => at
    case Decide(_, _, _, _, nudgeNow) => nudgeNow
    case WriteClock(at) => at
    case ClearStrike(at, _) => at
  }

  predicate OrderedReadings(ev: Event) {
    match ev
    case Sentence(_, now, _, offNow) => now <= offNow
    case Edge(_, now, _, offNow) => now <= offNow
    case Decide(_, a, b, c, d) => a <= b <= c <= d
    case _ => true
  }

  /** The last clock reading of a run. */
  function Clock(start: int, evs: seq<Event>): int {
    if evs == [] then start else LastReading(evs[|evs| - 1])
  }

  /** All readings of the monotonic clock, in program order, are nondecreasing. */
  ghost predicate Timely(start: int, evs: seq<Event>) {
    evs == [] ||
    (var front, ev := evs[..|evs| - 1], evs[|evs| - 1];
     Timely(start, front) && OrderedReadings(ev) && Clock(start, front) <= FirstReading(ev))
  }
}
