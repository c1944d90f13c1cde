/** Which second an edge is labelled with: the rounding/chain arbitration on one edge, and the
    anchor chain over whole runs. */
module PairingLabels {
  import opened CInt
  import opened Pairing
  import opened PairingInputs
  import opened Wrappers

  // ---------- one edge ----------

  /** A realtime stamp that the truncating operators round to the nearest second; only stamps
      before 1970 in the upper half of their second are not. */
  predicate RoundsWell(rt: int) { NanosOf(rt) >= -GATE }

  /** The fresh path accepts a sample exactly when rounding and chain differ by at most one second
      (and the stamp rounds well), and what it gates is at least 1.5 s off when it rounds well. */
  lemma FreshPathGate(ts: int, rt: int, chain: int)
    ensures var o := Emitted(Fresh, ts, rt, Label(RoundedSecond(rt), chain), chain);
      (o.Accepted() <==> Abs(RoundedSecond(rt) - chain) <= 1 && RoundsWell(rt)) &&
      (o.Gated() && RoundsWell(rt) ==> Abs(o.Offset()) >= SEC + GATE)
  {
    assert rt == 1_000_000_000 * SecondsOf(rt) + NanosOf(rt);
    assert -SEC < NanosOf(rt) < SEC;
  }

  /** No stamp since 1970 is an exception. */
  lemma StampsSince1970RoundWell(rt: int)
    requires rt >= 0
    ensures RoundsWell(rt)
    ensures RoundedSecond(rt) == (rt + GATE) / 1_000_000_000
  {
    assert rt == 1_000_000_000 * (rt / 1_000_000_000) + rt % 1_000_000_000;
  }

  /** Before 1970 the gate can reject a stamp on which rounding and chain agree. */
  lemma RoundingFailsBefore1970()
    ensures var rt := -900_000_000;
      var o := Emitted(Fresh, 0, rt, Label(RoundedSecond(rt), 0), 0);
      RoundedSecond(rt) == 0 && o.Gated() && !RoundsWell(rt)
  {
  }

  /** With the chain right, acceptance bounds the clock error by 1.5 s, the label is wrong by at most
      one second, and it is right exactly when the error is below half a second. */
  lemma AccuracyWithRightChain(o: Outcome, truth: int)
    requires o.Emitted? && o.chain == truth && o.rt >= 0 && o.utc == Label(RoundedSecond(o.rt), o.chain)
    ensures var err := o.rt - truth * 1_000_000_000;
      (o.Accepted() <==> -(SEC + GATE) <= err < SEC + GATE) &&
      (o.Accepted() ==> Abs(o.utc - truth) <= 1 && (o.utc == truth <==> -GATE <= err < GATE)) &&
      (o.Gated() ==> o.utc == truth)
  {
    FreshPathGate(o.ts, o.rt, o.chain);
    StampsSince1970RoundWell(o.rt);
    var err := o.rt - truth * 1_000_000_000;
    assert (o.rt + GATE) / 1_000_000_000 == truth + (err + GATE) / 1_000_000_000;
  }

  // ---------- runs in step with the receiver ----------

  /** What is true outside the daemon: the second that the latest handled edge began, and the stamps
      of that edge and of the one before. */
  datatype World = World(second: int, ts: int, prevTs: int)

  function NextWorld(w: World, ev: Event): World {
    if ev.Edge? then World(w.second + 1, ev.ts, w.ts) else w
  }

  function WorldAfter(w0: World, evs: seq<Event>): World {
    if evs == [] then w0 else NextWorld(WorldAfter(w0, evs[..|evs| - 1]), evs[|evs| - 1])
  }

  /** The true second of every edge, by its stamp. */
  function TrueSeconds(w0: World, evs: seq<Event>): map<int, int> {
    if evs == [] then map[]
    else
      var front, ev := evs[..|evs| - 1], evs[|evs| - 1];
      if ev.Edge? then TrueSeconds(w0, front)[ev.ts := WorldAfter(w0, front).second + 1]
      else TrueSeconds(w0, front)
  }

  /** Each sentence for second S is handled after edge S and before edge S + 1. Sentences may be
      missing or repeated; every edge is seen, in order of its stamp. */
  ghost predicate InStep(w0: World, evs: seq<Event>) {
    evs == [] ||
    (var front, ev := evs[..|evs| - 1], evs[|evs| - 1];
     var w := WorldAfter(w0, front);
     InStep(w0, front) &&
     (ev.Edge? ==> ev.ts > w.ts) &&
     (ev.Sentence? ==> ev.second == w.second && w.ts <= ev.now))
  }

  /** A sentence finds its own edge queued, or nothing queued in the last second. */
  ghost predicate Clean(pending: seq<int>, w: World, now: int) {
    w.ts in pending || forall e :: e in pending ==> now - e > SEC
  }

  ghost predicate AllClean(c: Config, start: int, w0: World, evs: seq<Event>)
    requires IsRun(c, start, evs)
  {
    evs == [] ||
    (var front, ev := evs[..|evs| - 1], evs[|evs| - 1];
     AllClean(c, start, w0, front) &&
     (ev.Sentence? ==> Clean(Run(c, start, front).pending, WorldAfter(w0, front), ev.now)))
  }

  /** The edges since the anchor are counted one by one until the anchor goes stale for good. */
  ghost predicate ChainOk(d: Daemon, w: World, clock: int) {
    d.anchor.valid ==>
      d.edgeCount == w.second - d.anchor.second || (d.edgeCount <= w.second - d.anchor.second && !IsFresh(d, clock))
  }

  /** Queued edges are known edges; only the newest edge carries the current second. */
  ghost predicate QueueOk(d: Daemon, w: World, truth: map<int, int>) {
    w.prevTs < w.ts &&
    (forall e :: e in d.pending ==> e in truth && (e == w.ts || e <= w.prevTs)) &&
    forall e :: e in truth ==> e <= w.ts && (truth[e] == w.second <==> e == w.ts) && truth[e] <= w.second
  }

  /** Every emitted sample is a known edge, and fresh ones were arbitrated against its true second. */
  ghost predicate LabelsOk(d: Daemon, truth: map<int, int>) {
    forall i :: 0 <= i < |d.log.outcomes| && d.log.outcomes[i].Emitted? ==>
      var o := d.log.outcomes[i];
      o.ts in truth &&
      (o.path == Fresh ==> o.chain == truth[o.ts] && o.utc == Label(RoundedSecond(o.rt), truth[o.ts]))
  }

  /** Every flushed sample is labelled with the true second of its edge. */
  ghost predicate FlushesTrue(d: Daemon, truth: map<int, int>) {
    forall i :: 0 <= i < |d.log.outcomes| ==> FlushTrue(d.log.outcomes[i], truth)
  }

  ghost predicate FlushTrue(o: Outcome, truth: map<int, int>) {
    o.Emitted? && o.path == Flush ==> o.ts in truth && o.utc == truth[o.ts]
  }

  lemma {:induction false} InStepInv(c: Config, start: int, w0: World, evs: seq<Event>)
    requires IsRun(c, start, evs) && Timely(start, evs) && InStep(w0, evs) && w0.prevTs < w0.ts
    ensures var d, w, truth := Run(c, start, evs), WorldAfter(w0, evs), TrueSeconds(w0, evs);
      ChainOk(d, w, Clock(start, evs)) && QueueOk(d, w, truth) && LabelsOk(d, truth) &&
      (FlushesTrue(d, truth) <==> AllClean(c, start, w0, evs))
  {
    if evs != [] {
      var front, ev := evs[..|evs| - 1], evs[|evs| - 1];
      InStepInv(c, start, w0, front);
      var d, w, truth := Run(c, start, front), WorldAfter(w0, front), TrueSeconds(w0, front);
      var clock := Clock(start, front);
      match ev
      case Sentence(_, _, _, _) => SentenceKeepsLabels(c, d, w, truth, ev);
      case Edge(_, _, _, _) => EdgeKeepsLabels(c, d, w, truth, ev, clock);
      case _ => OtherKeepsLabels(c, d, w, truth, ev, clock);
      hide ChainOk, QueueOk, LabelsOk, FlushesTrue, Clean;
    }
  }

  /** The coarse block touches neither anchor, queue nor labels. */
  lemma OtherKeepsLabels(c: Config, d: Daemon, w: World, truth: map<int, int>, ev: Event, clock: int)
    requires Enabled(d, ev) && !ev.Sentence? && !ev.Edge? && clock <= FirstReading(ev) && OrderedReadings(ev)
    requires ChainOk(d, w, clock) && QueueOk(d, w, truth) && LabelsOk(d, truth)
    ensures var d', now := Step(c, d, ev), LastReading(ev);
      ChainOk(d', w, now) && QueueOk(d', w, truth) && LabelsOk(d', truth) &&
      (FlushesTrue(d', truth) <==> FlushesTrue(d, truth))
  {
    var o, o' := d.log.outcomes, Step(c, d, ev).log.outcomes;
    assert o' == o || o' == o + [ClockStep];
    assert forall i :: 0 <= i < |o| ==> o'[i] == o[i];
    hide OnDecide;
  }

  /** A sentence flushes its own edge or none exactly when it finds the queue clean. */
  lemma FlushesOwnEdgeIff(d: Daemon, w: World, truth: map<int, int>, now: int)
    requires QueueOk(d, w, truth) && w.ts <= now
    ensures var best := BestEdge(d.pending, now);
      (best.Some? ==> best.value == w.ts) <==> Clean(d.pending, w, now)
  {
    var best := BestEdge(d.pending, now);
    if best.Some? && best.value != w.ts && w.ts in d.pending {
      assert Eligible(w.ts, now);
    }
    if best.None? {
      forall e | e in d.pending ensures now - e > SEC {
        assert !Eligible(e, now);
      }
    }
  }

  lemma SentenceKeepsLabels(c: Config, d: Daemon, w: World, truth: map<int, int>, ev: Event)
    requires ev.Sentence? && ev.second == w.second && w.ts <= ev.now
    requires QueueOk(d, w, truth) && LabelsOk(d, truth)
    ensures var d' := OnSentence(c, d, ev);
      ChainOk(d', w, ev.offNow) && QueueOk(d', w, truth) && LabelsOk(d', truth) &&
      (FlushesTrue(d', truth) <==> FlushesTrue(d, truth) && Clean(d.pending, w, ev.now))
  {
    FlushesOwnEdgeIff(d, w, truth, ev.now);
    hide Clean;
    var o, o' := d.log.outcomes, OnSentence(c, d, ev).log.outcomes;
    var best := BestEdge(d.pending, ev.now);
    assert forall i :: 0 <= i < |o| ==> o'[i] == o[i];
    if best.Some? {
      assert o' == o + [o'[|o|]];
      assert FlushTrue(o'[|o|], truth) <==> best.value == w.ts;
    }
  }

  lemma EdgeKeepsLabels(c: Config, d: Daemon, w: World, truth: map<int, int>, ev: Event, clock: int)
    requires ev.Edge? && ev.ts > w.ts && clock <= ev.now <= ev.offNow
    requires ChainOk(d, w, clock) && QueueOk(d, w, truth) && LabelsOk(d, truth)
    ensures var d', w', truth' := OnEdge(c, d, ev), NextWorld(w, ev), truth[ev.ts := w.second + 1];
      ChainOk(d', w', ev.offNow) && QueueOk(d', w', truth') && LabelsOk(d', truth') &&
      (FlushesTrue(d', truth') <==> FlushesTrue(d, truth))
  {
    var truth' := truth[ev.ts := w.second + 1];
    var o, o' := d.log.outcomes, OnEdge(c, d, ev).log.outcomes;
    if IsFresh(d, ev.now) {
      assert ChainSecond(d) == w.second + 1;
      assert o' == o + [o'[|o|]] && o'[|o|].path == Fresh;
    }
    forall i | 0 <= i < |o| ensures o'[i] == o[i] && (FlushTrue(o'[i], truth') <==> FlushTrue(o[i], truth)) {
      assert o[i].Emitted? ==> o[i].ts in truth && o[i].ts != ev.ts;
    }
  }

  // ---------- theorems ----------

  /** In every run in step with the receiver, with any sentences missing: every edge on the fresh path
      had its true second as `S_chain`, and the edges flushed by sentences are all labelled with their
      true seconds exactly if every sentence found its own edge queued or nothing queued in the last
      second. */
  lemma ChainIsTrue(c: Config, start: int, w0: World, evs: seq<Event>)
    requires IsRun(c, start, evs) && Timely(start, evs) && InStep(w0, evs) && w0.prevTs < w0.ts
    ensures var d, truth := Run(c, start, evs), TrueSeconds(w0, evs);
      (forall i :: 0 <= i < |d.log.outcomes| && d.log.outcomes[i].Emitted? && d.log.outcomes[i].path == Fresh ==>
         d.log.outcomes[i].ts in truth && d.log.outcomes[i].chain == truth[d.log.outcomes[i].ts]) &&
      (FlushesTrue(d, truth) <==> AllClean(c, start, w0, evs))
  {
    InStepInv(c, start, w0, evs);
  }

  /** With edges 1 s apart that is nearly always so: after every run in step, the next sentence flushes
      an edge not its own exactly when it comes at the very instant of its edge while that edge found
      the queue full and the one before is still in it. */
  lemma FlushIsWrongIff(c: Config, start: int, w0: World, evs: seq<Event>, now: int)
    requires IsRun(c, start, evs) && Timely(start, evs) && InStep(w0, evs) && w0.prevTs < w0.ts
    requires var w := WorldAfter(w0, evs); w.prevTs == w.ts - SEC && w.ts <= now
    ensures var d, w := Run(c, start, evs), WorldAfter(w0, evs);
      var best := BestEdge(d.pending, now);
      (best.Some? && best.value != w.ts <==> !Clean(d.pending, w, now)) &&
      (!Clean(d.pending, w, now) <==> now == w.ts && w.ts !in d.pending && w.prevTs in d.pending)
  {
    hide Run, IsRun, Timely, InStep, ChainOk, LabelsOk, FlushesTrue, AllClean, WorldAfter, TrueSeconds, Clock;
    InStepInv(c, start, w0, evs);
    var d, w := Run(c, start, evs), WorldAfter(w0, evs);
    FlushesOwnEdgeIff(d, w, TrueSeconds(w0, evs), now);
  }

  /** `n` edges exactly 1 s apart, the first at 1 s. */
  function Edges(n: nat): seq<Event> {
    if n == 0 then [] else Edges(n - 1) + [Edge(n * 1_000_000_000, n * 1_000_000_000, 0, n * 1_000_000_000)]
  }

  function Stamps(n: nat): seq<int> {
    if n == 0 then [] else Stamps(n - 1) + [n * 1_000_000_000]
  }

  const START: World := World(0, 0, -1_000_000_000)

  /** Without any sentence the first eight edges are queued. */
  lemma {:induction false} EdgesAreQueued(c: Config, n: nat)
    ensures IsRun(c, 0, Edges(n)) && Timely(0, Edges(n))
    ensures |Stamps(n)| == n && Clock(0, Edges(n)) == n * 1_000_000_000
    ensures var d := Run(c, 0, Edges(n));
      d.pc.Idle? && !d.anchor.valid && d.pending == Stamps(if n <= 8 then n else 8) && d.log.outcomes == []
  {
    hide OnSentence, OnSnapshot, OnMeasure, OnWeigh, OnDecide, OnWriteClock, OnClearStrike, EmitSample, Label;
    if n > 0 {
      EdgesAreQueued(c, n - 1);
      assert Edges(n)[..|Edges(n)| - 1] == Edges(n - 1);
    }
  }

  lemma {:induction false} EdgesAreInStep(n: nat)
    ensures InStep(START, Edges(n))
    ensures WorldAfter(START, Edges(n)) == World(n, n * 1_000_000_000, (n - 1) * 1_000_000_000)
    ensures n >= 8 ==> 8_000_000_000 in TrueSeconds(START, Edges(n)) && TrueSeconds(START, Edges(n))[8_000_000_000] == 8
  {
    if n > 0 {
      EdgesAreInStep(n - 1);
      assert Edges(n)[..|Edges(n)| - 1] == Edges(n - 1);
    }
  }

  /** The case is real: nine edges, no sentence, then the ninth second's sentence at the instant of its
      edge labels the eighth edge with the ninth second. */
  lemma OverflowMislabels(c: Config)
    ensures var evs := Edges(9) + [Sentence(9, 9_000_000_000, 0, 9_000_000_000)];
      IsRun(c, 0, evs) && Timely(0, evs) && InStep(START, evs) &&
      var outcomes, truth := Run(c, 0, evs).log.outcomes, TrueSeconds(START, evs);
      |outcomes| == 1 && outcomes[0].Emitted? && outcomes[0].path == Flush &&
      outcomes[0].ts == 8_000_000_000 && outcomes[0].utc == 9 &&
      8_000_000_000 in truth && truth[8_000_000_000] == 8
  {
    var ev := Sentence(9, 9_000_000_000, 0, 9_000_000_000);
    EdgesAreQueued(c, 9);
    hide Run, IsRun, Timely, InStep, Edges, WorldAfter, TrueSeconds;
    AfterEdges(c, ev);
    SentenceInStep(ev);
    EighthIsBest();
  }

  lemma AfterEdges(c: Config, ev: Event)
    requires ev == Sentence(9, 9_000_000_000, 0, 9_000_000_000)
    ensures var evs := Edges(9) + [ev];
      IsRun(c, 0, evs) && Timely(0, evs) && IsRun(c, 0, Edges(9)) && Run(c, 0, evs) == OnSentence(c, Run(c, 0, Edges(9)), ev)
  {
    hide Edges, OnSentence, OnEdge, OnSnapshot, OnMeasure, OnWeigh, OnDecide, OnWriteClock, OnClearStrike;
    EdgesAreQueued(c, 9);
    var evs := Edges(9) + [ev];
    assert evs[..|evs| - 1] == Edges(9) && evs[|evs| - 1] == ev;
  }

  lemma SentenceInStep(ev: Event)
    requires ev == Sentence(9, 9_000_000_000, 0, 9_000_000_000)
    ensures var evs := Edges(9) + [ev];
      InStep(START, evs) && TrueSeconds(START, evs) == TrueSeconds(START, Edges(9)) &&
      8_000_000_000 in TrueSeconds(START, evs) && TrueSeconds(START, evs)[8_000_000_000] == 8
  {
    EdgesAreInStep(9);
    hide Edges;
    var evs := Edges(9) + [ev];
    assert evs[..|evs| - 1] == Edges(9) && evs[|evs| - 1] == ev;
  }

  lemma EighthIsBest()
    ensures BestEdge(Stamps(8), 9_000_000_000) == Some(8_000_000_000)
  {
    var front := Stamps(7);
    StampsBelow(7);
    assert Stamps(8)[..|Stamps(8)| - 1] == front && Stamps(8)[|Stamps(8)| - 1] == 8_000_000_000;
    assert BestEdge(front, 9_000_000_000).None?;
  }

  lemma {:induction false} StampsBelow(n: nat)
    ensures |Stamps(n)| == n && forall e :: e in Stamps(n) ==> e <= n * 1_000_000_000
  {
    if n > 0 {
      StampsBelow(n - 1);
    }
  }

  /** Sentences come between their own edge and the next; nothing is asked of the edges' stamps, so
      either clock domain will do. Sentences may be missing or repeated. */
  ghost predicate InOrder(w0: World, evs: seq<Event>) {
    evs == [] ||
    (var front, ev := evs[..|evs| - 1], evs[|evs| - 1];
     InOrder(w0, front) && (ev.Sentence? ==> ev.second == WorldAfter(w0, front).second))
  }

  lemma {:induction false} InOrderInv(c: Config, start: int, w0: World, evs: seq<Event>)
    requires IsRun(c, start, evs) && Timely(start, evs) && InOrder(w0, evs)
    ensures ChainOk(Run(c, start, evs), WorldAfter(w0, evs), Clock(start, evs))
  {
    if evs != [] {
      InOrderInv(c, start, w0, evs[..|evs| - 1]);
    }
  }

  /** After every run in order with the receiver, with any sentences missing, and in either stamp domain:
      an edge less than three seconds after the latest sentence has its true second as `S_chain`; so,
      with `reading` what the system clock read at the pulse, its sample is handed to chrony exactly
      when the clock is within 1.5 s of the truth, is then labelled at most one second wrong, and not at
      all once the clock is within half a second. */
  lemma FreshEdgesAreAccurate(c: Config, start: int, w0: World, evs: seq<Event>, ev: Event, reading: int)
    requires IsRun(c, start, evs) && Timely(start, evs) && InOrder(w0, evs)
    requires ev.Edge? && Clock(start, evs) <= ev.now && Enabled(Run(c, start, evs), ev) && Near(evs, ev.now)
    requires IsStamp(c, ev.ts, ev.conv, reading)
    ensures var o, truth := Step(c, Run(c, start, evs), ev).log.outcomes, WorldAfter(w0, evs).second + 1;
      var err := reading - truth * 1_000_000_000;
      |o| == |Run(c, start, evs).log.outcomes| + 1 &&
      var x := o[|o| - 1];
      x.Emitted? && x.rt == reading && x.chain == truth &&
      (reading >= 0 ==> (x.Accepted() <==> -1_500_000_000 <= err < 1_500_000_000)) &&
      (reading >= 0 && x.Accepted() ==>
         -1 <= x.utc - truth <= 1 && (x.utc == truth <==> -500_000_000 <= err < 500_000_000))
  {
    hide ChainOk, OnEdge, Run, IsRun, Timely, InOrder, WorldAfter, Clock, LastSentence, EdgesSince, Waiting, Seconds;
    InOrderInv(c, start, w0, evs);
    StateIsFromInputs(c, start, evs);
    RealtimeIsReading(c, ev.ts, ev.conv, reading);
    assert IsFresh(Run(c, start, evs), ev.now);
    FreshEdgeIsAccurate(c, Run(c, start, evs), WorldAfter(w0, evs), ev, Clock(start, evs));
  }

  lemma FreshEdgeIsAccurate(c: Config, d: Daemon, w: World, ev: Event, clock: int)
    requires ChainOk(d, w, clock) && ev.Edge? && clock <= ev.now && IsFresh(d, ev.now)
    ensures var truth := w.second + 1;
      var outcomes := OnEdge(c, d, ev).log.outcomes;
      |outcomes| == |d.log.outcomes| + 1 &&
      var o := outcomes[|outcomes| - 1];
      o.Emitted? && o.chain == truth && o.rt == Realtime(c, ev.ts, ev.conv) &&
      var err := o.rt - truth * 1_000_000_000;
      (o.rt >= 0 ==> (o.Accepted() <==> -(SEC + GATE) <= err < SEC + GATE)) &&
      (o.rt >= 0 && o.Accepted() ==> Abs(o.utc - truth) <= 1 && (o.utc == truth <==> -GATE <= err < GATE))
  {
    var truth := w.second + 1;
    assert ChainSecond(d) == truth;
    var outcomes := OnEdge(c, d, ev).log.outcomes;
    var o := outcomes[|outcomes| - 1];
    assert o.Emitted? && o.chain == truth && o.utc == Label(RoundedSecond(o.rt), truth);
    hide OnEdge, ChainOk, Label, RoundedSecond;
    if o.rt >= 0 {
      AccuracyWithRightChain(o, truth);
    }
  }

  /** The queue keeps within its eight places in every run. */
  lemma {:induction false} QueueHoldsEight(c: Config, start: int, evs: seq<Event>)
    requires IsRun(c, start, evs)
    ensures |Run(c, start, evs).pending| <= QUEUE
  {
    if evs != [] {
      QueueHoldsEight(c, start, evs[..|evs| - 1]);
    }
  }
}
