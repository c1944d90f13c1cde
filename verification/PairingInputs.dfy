/** What the daemon holds and emits, said from its inputs alone: the sentences and edges it was given,
    when they were handled, and what the system clock read at each pulse. */
module PairingInputs {
  import opened CInt
  import opened Wrappers
  import opened Pairing

  // ---------- the inputs ----------

  ghost function LastSentence(evs: seq<Event>): (r: Option<Event>)
    ensures r.Some? ==> r.value.Sentence?
  {
    if evs == [] then None
    else if evs[|evs| - 1].Sentence? then Some(evs[|evs| - 1])
    else LastSentence(evs[..|evs| - 1])
  }

  /** The latest sentence was handled less than three seconds ago. */
  ghost predicate Near(evs: seq<Event>, now: int) {
    LastSentence(evs).Some? && now - LastSentence(evs).value.now < 3_000_000_000
  }

  /** How many edges came near the latest sentence since it. */
  ghost function EdgesSince(evs: seq<Event>): nat {
    if evs == [] || evs[|evs| - 1].Sentence? then 0
    else
      var front, ev := evs[..|evs| - 1], evs[|evs| - 1];
      EdgesSince(front) + if ev.Edge? && Near(front, ev.now) then 1 else 0
  }

  /** The stamps of the first eight edges since the latest sentence that came near none. */
  ghost function Waiting(evs: seq<Event>): seq<int> {
    if evs == [] || evs[|evs| - 1].Sentence? then []
    else
      var front, ev := evs[..|evs| - 1], evs[|evs| - 1];
      if ev.Edge? && !Near(front, ev.now) && |Waiting(front)| < 8 then Waiting(front) + [ev.ts] else Waiting(front)
  }

  ghost function Seconds(evs: seq<Event>): seq<int> {
    if evs == [] then []
    else
      var front, ev := evs[..|evs| - 1], evs[|evs| - 1];
      if ev.Sentence? then Seconds(front) + [ev.second] else Seconds(front)
  }

  ghost predicate FromInputs(d: Daemon, evs: seq<Event>) {
    (d.anchor.valid <==> LastSentence(evs).Some?) &&
    (d.anchor.valid ==>
       d.anchor.second == LastSentence(evs).value.second && d.anchor.mono == LastSentence(evs).value.now) &&
    d.edgeCount == EdgesSince(evs) && d.pending == Waiting(evs) && d.log.anchors == Seconds(evs)
  }

  lemma InputsSnoc(evs: seq<Event>, ev: Event)
    ensures LastSentence(evs + [ev]) == if ev.Sentence? then Some(ev) else LastSentence(evs)
    ensures EdgesSince(evs + [ev]) ==
      if ev.Sentence? then 0 else EdgesSince(evs) + if ev.Edge? && Near(evs, ev.now) then 1 else 0
    ensures Waiting(evs + [ev]) ==
      if ev.Sentence? then []
      else if ev.Edge? && !Near(evs, ev.now) && |Waiting(evs)| < 8 then Waiting(evs) + [ev.ts] else Waiting(evs)
    ensures Seconds(evs + [ev]) == if ev.Sentence? then Seconds(evs) + [ev.second] else Seconds(evs)
  {
    var longer := evs + [ev];
    assert longer[..|longer| - 1] == evs && longer[|longer| - 1] == ev;
  }

  lemma StepFromInputs(c: Config, d: Daemon, evs: seq<Event>, ev: Event)
    requires FromInputs(d, evs) && Enabled(d, ev)
    ensures FromInputs(Step(c, d, ev), evs + [ev])
  {
    hide LastSentence, EdgesSince, Waiting, Seconds, OnDecide, BestEdge, Label, RoundedSecond, OnSentence;
    InputsSnoc(evs, ev);
  }

  /** In every run the anchor is the latest sentence, the edge count and the queue are the edges since
      it, near and not near, and the anchor history is all sentences. */
  lemma {:induction false} StateIsFromInputs(c: Config, start: int, evs: seq<Event>)
    requires IsRun(c, start, evs)
    ensures FromInputs(Run(c, start, evs), evs)
  {
    if evs != [] {
      var front, ev := evs[..|evs| - 1], evs[|evs| - 1];
      StateIsFromInputs(c, start, front);
      StepFromInputs(c, Run(c, start, front), front, ev);
      assert front + [ev] == evs;
      hide Step, FromInputs;
    }
  }

  // ---------- the system clock ----------

  /** `ts` stamps a pulse at which the system clock, with the given distance to CLOCK_MONOTONIC, reads
      `reading`: the kernel stamps either with the system clock itself or with CLOCK_MONOTONIC. */
  predicate IsStamp(c: Config, ts: int, conv: int, reading: int) {
    (c.realtimeStamps ==> ts == reading) && (!c.realtimeStamps ==> ts == reading - conv)
  }

  lemma RealtimeIsReading(c: Config, ts: int, conv: int, reading: int)
    requires IsStamp(c, ts, conv, reading)
    ensures Realtime(c, ts, conv) == reading
  {
  }

  /** The second nearest to a reading since 1970, unless it is more than one off the chain's. */
  ghost predicate IsLabel(utc: int, reading: int, chain: int) {
    var nearest := (reading + 500_000_000) / 1_000_000_000;
    utc == if -1 <= nearest - chain <= 1 then nearest else chain
  }

  /** After every run: an edge less than three seconds after the latest sentence is emitted at once,
      with the clock's reading at the pulse, the chain second that sentence and the near edges since
      it give, and its label; any other edge is not emitted. */
  lemma EdgeIsEmittedIff(c: Config, start: int, evs: seq<Event>, ev: Event, reading: int)
    requires IsRun(c, start, evs) && ev.Edge? && Enabled(Run(c, start, evs), ev)
    requires IsStamp(c, ev.ts, ev.conv, reading)
    ensures var o, o' := Run(c, start, evs).log.outcomes, Step(c, Run(c, start, evs), ev).log.outcomes;
      if Near(evs, ev.now) then
        var chain := LastSentence(evs).value.second + 1 + EdgesSince(evs);
        |o'| == |o| + 1 && o == o'[..|o|] && o'[|o|].Emitted? && o'[|o|].path == Fresh && o'[|o|].ts == ev.ts &&
        o'[|o|].rt == reading && o'[|o|].chain == chain &&
        (reading >= 0 ==> IsLabel(o'[|o|].utc, reading, chain))
      else o' == o
  {
    StateIsFromInputs(c, start, evs);
    EdgeOutcome(c, Run(c, start, evs), evs, ev, reading);
  }

  lemma EdgeOutcome(c: Config, d: Daemon, evs: seq<Event>, ev: Event, reading: int)
    requires FromInputs(d, evs) && ev.Edge? && IsStamp(c, ev.ts, ev.conv, reading)
    ensures var o, o' := d.log.outcomes, OnEdge(c, d, ev).log.outcomes;
      if Near(evs, ev.now) then
        var chain := LastSentence(evs).value.second + 1 + EdgesSince(evs);
        |o'| == |o| + 1 && o == o'[..|o|] && o'[|o|].Emitted? && o'[|o|].path == Fresh && o'[|o|].ts == ev.ts &&
        o'[|o|].rt == reading && o'[|o|].chain == chain &&
        (reading >= 0 ==> IsLabel(o'[|o|].utc, reading, chain))
      else o' == o
  {
    RealtimeIsReading(c, ev.ts, ev.conv, reading);
    if reading >= 0 {
      RoundedIsNearest(reading);
    }
    hide Realtime, RoundedSecond, EdgesSince, Waiting, Seconds;
  }

  lemma RoundedIsNearest(reading: int)
    requires reading >= 0
    ensures RoundedSecond(reading) == (reading + 500_000_000) / 1_000_000_000
  {
    assert reading == 1_000_000_000 * (reading / 1_000_000_000) + reading % 1_000_000_000;
  }

  /** `e` is the newest waiting edge at most one second before `now`. */
  ghost predicate IsNewest(waiting: seq<int>, now: int, e: int) {
    e in waiting && now - 1_000_000_000 <= e <= now &&
    forall x :: x in waiting && now - 1_000_000_000 <= x <= now ==> x <= e
  }

  /** After every run a sentence emits exactly the newest waiting edge at most one second old, if there
      is one, labelled with its own second and with what the system clock, as it stands at the
      sentence, reads for that pulse. */
  lemma SentenceEmitsIff(c: Config, start: int, evs: seq<Event>, ev: Event)
    requires IsRun(c, start, evs) && ev.Sentence? && Enabled(Run(c, start, evs), ev)
    ensures var o, o' := Run(c, start, evs).log.outcomes, Step(c, Run(c, start, evs), ev).log.outcomes;
      ((exists e :: IsNewest(Waiting(evs), ev.now, e)) <==> o' != o) &&
      (o' != o ==>
         |o'| == |o| + 1 && o == o'[..|o|] && o'[|o|].Emitted? && o'[|o|].path == Flush && o'[|o|].utc == ev.second &&
         IsNewest(Waiting(evs), ev.now, o'[|o|].ts) && IsStamp(c, o'[|o|].ts, ev.conv, o'[|o|].rt))
  {
    StateIsFromInputs(c, start, evs);
    SentenceOutcome(c, Run(c, start, evs), evs, ev);
  }

  lemma SentenceOutcome(c: Config, d: Daemon, evs: seq<Event>, ev: Event)
    requires FromInputs(d, evs) && ev.Sentence?
    ensures var o, o' := d.log.outcomes, OnSentence(c, d, ev).log.outcomes;
      ((exists e :: IsNewest(Waiting(evs), ev.now, e)) <==> o' != o) &&
      (o' != o ==>
         |o'| == |o| + 1 && o == o'[..|o|] && o'[|o|].Emitted? && o'[|o|].path == Flush && o'[|o|].utc == ev.second &&
         IsNewest(Waiting(evs), ev.now, o'[|o|].ts) && IsStamp(c, o'[|o|].ts, ev.conv, o'[|o|].rt))
  {
    hide EdgesSince, Waiting, Seconds, LastSentence;
    var best := BestEdge(d.pending, ev.now);
    var o, o' := d.log.outcomes, OnSentence(c, d, ev).log.outcomes;
    if best.Some? {
      forall x | x in d.pending && ev.now - 1_000_000_000 <= x <= ev.now ensures x <= best.value {
        assert Eligible(x, ev.now);
      }
      assert IsNewest(d.pending, ev.now, best.value);
      assert |o'| == |o| + 1;
      assert IsStamp(c, best.value, ev.conv, Realtime(c, best.value, ev.conv));
      assert IsNewest(Waiting(evs), ev.now, best.value);
    } else {
      assert o' == o;
      forall e ensures !IsNewest(Waiting(evs), ev.now, e) {
        assert e in d.pending ==> !Eligible(e, ev.now);
      }
    }
  }

  // ---------- the two stamp domains ----------

  /** The same input in the two domains: `a` stamped with the system clock, `b` with CLOCK_MONOTONIC. */
  predicate SameInput(a: Event, b: Event) {
    if a.Edge? && b.Edge? then a == b.(ts := a.ts) && a.ts == b.ts + b.conv else a == b
  }

  ghost predicate SameInputs(a: seq<Event>, b: seq<Event>) {
    |a| == |b| && forall i :: 0 <= i < |a| ==> SameInput(a[i], b[i])
  }

  datatype FreshSample = FreshSample(rt: int, utc: int, chain: int, accepted: bool)

  /** The samples emitted on the fresh path, without their stamps. */
  ghost function FreshSamples(o: seq<Outcome>): seq<FreshSample> {
    if o == [] then []
    else
      var front, x := FreshSamples(o[..|o| - 1]), o[|o| - 1];
      if x.Emitted? && x.path == Fresh then front + [FreshSample(x.rt, x.utc, x.chain, x.Accepted())] else front
  }

  lemma FreshSnoc(o: seq<Outcome>, x: Outcome)
    ensures FreshSamples(o + [x]) ==
      if x.Emitted? && x.path == Fresh then FreshSamples(o) + [FreshSample(x.rt, x.utc, x.chain, x.Accepted())]
      else FreshSamples(o)
  {
    assert (o + [x])[..|o|] == o;
  }

  /** What the fresh path depends on is the same in both domains. */
  ghost predicate Alike(a: Daemon, b: Daemon) {
    a.anchor == b.anchor && a.edgeCount == b.edgeCount && |a.pending| == |b.pending| &&
    FreshSamples(a.log.outcomes) == FreshSamples(b.log.outcomes)
  }

  lemma StepsStayAlike(ca: Config, cb: Config, a: Daemon, b: Daemon, eva: Event, evb: Event)
    requires ca.realtimeStamps && !cb.realtimeStamps && Alike(a, b) && SameInput(eva, evb)
    requires Enabled(a, eva) && Enabled(b, evb)
    ensures Alike(Step(ca, a, eva), Step(cb, b, evb))
  {
    hide FreshSamples, OnSentence, OnEdge, OnSnapshot, OnMeasure, OnWeigh, OnDecide, OnWriteClock, OnClearStrike;
    if eva.Sentence? {
      SentenceKeepsFresh(ca, a, eva);
      SentenceKeepsFresh(cb, b, evb);
    } else if eva.Edge? {
      EdgesStayAlike(ca, cb, a, b, eva, evb);
    } else {
      CoarseKeepsFresh(ca, a, eva);
      CoarseKeepsFresh(cb, b, evb);
    }
  }

  /** The coarse block neither anchors, counts, queues nor emits. */
  lemma CoarseKeepsFresh(c: Config, d: Daemon, ev: Event)
    requires Enabled(d, ev) && !ev.Sentence? && !ev.Edge?
    ensures var d' := Step(c, d, ev);
      d'.anchor == d.anchor && d'.edgeCount == d.edgeCount && d'.pending == d.pending &&
      FreshSamples(d'.log.outcomes) == FreshSamples(d.log.outcomes)
  {
    hide FreshSamples, OnSentence, OnEdge;
    FreshSnoc(d.log.outcomes, ClockStep);
  }

  lemma SentenceKeepsFresh(c: Config, d: Daemon, ev: Event)
    requires ev.Sentence?
    ensures FreshSamples(OnSentence(c, d, ev).log.outcomes) == FreshSamples(d.log.outcomes)
  {
    var best := BestEdge(d.pending, ev.now);
    if best.Some? {
      FreshSnoc(d.log.outcomes, Emitted(Flush, best.value, Realtime(c, best.value, ev.conv), ev.second, ev.second));
    }
    hide FreshSamples, BestEdge;
  }

  /** What an edge does to all that, said without its stamp. */
  lemma EdgeSays(c: Config, d: Daemon, ev: Event, reading: int)
    requires ev.Edge? && IsStamp(c, ev.ts, ev.conv, reading)
    ensures var d', chain := OnEdge(c, d, ev), ChainSecond(d);
      var utc := Label(RoundedSecond(reading), chain);
      var off := utc * 1_000_000_000 - reading;
      d'.anchor == d.anchor &&
      if IsFresh(d, ev.now) then
        d'.edgeCount == d.edgeCount + 1 && |d'.pending| == |d.pending| &&
        FreshSamples(d'.log.outcomes) == FreshSamples(d.log.outcomes) + [FreshSample(reading, utc, chain, Abs(off) <= GATE)]
      else
        d'.edgeCount == d.edgeCount && |d'.pending| == |d.pending| + (if |d.pending| < QUEUE then 1 else 0) &&
        FreshSamples(d'.log.outcomes) == FreshSamples(d.log.outcomes)
  {
    hide FreshSamples, Label, RoundedSecond, Realtime;
    RealtimeIsReading(c, ev.ts, ev.conv, reading);
    if IsFresh(d, ev.now) {
      var chain := ChainSecond(d);
      FreshSnoc(d.log.outcomes, Emitted(Fresh, ev.ts, reading, Label(RoundedSecond(reading), chain), chain));
    }
  }

  lemma EdgesStayAlike(ca: Config, cb: Config, a: Daemon, b: Daemon, eva: Event, evb: Event)
    requires ca.realtimeStamps && !cb.realtimeStamps && Alike(a, b) && SameInput(eva, evb) && eva.Edge? && evb.Edge?
    ensures Alike(OnEdge(ca, a, eva), OnEdge(cb, b, evb))
  {
    EdgeSays(ca, a, eva, eva.ts);
    EdgeSays(cb, b, evb, eva.ts);
    hide FreshSamples, Label, RoundedSecond, Realtime, OnEdge;
  }

  /** The same pulses and sentences stamped in either domain give the same fresh samples: clock reading,
      label, chain second and acceptance. */
  lemma {:induction false} DomainsAgree(ca: Config, cb: Config, start: int, a: seq<Event>, b: seq<Event>)
    requires ca.realtimeStamps && !cb.realtimeStamps && SameInputs(a, b)
    requires IsRun(ca, start, a) && IsRun(cb, start, b)
    ensures Alike(Run(ca, start, a), Run(cb, start, b))
  {
    if a != [] {
      var n := |a| - 1;
      DomainsAgree(ca, cb, start, a[..n], b[..n]);
      assert SameInput(a[n], b[n]);
      StepsStayAlike(ca, cb, Run(ca, start, a[..n]), Run(cb, start, b[..n]), a[n], b[n]);
      hide Step, Alike;
    }
  }

  /** The flush does not agree: it compares stamps with CLOCK_MONOTONIC whatever their domain, so system
      clock stamps, which lie ahead of it, are never flushed. */
  lemma SystemStampsAreNeverFlushed(c: Config, start: int, evs: seq<Event>, ev: Event)
    requires IsRun(c, start, evs) && ev.Sentence? && Enabled(Run(c, start, evs), ev)
    requires forall i :: 0 <= i < |evs| && evs[i].Edge? ==> evs[i].ts > ev.now
    ensures Step(c, Run(c, start, evs), ev).log.outcomes == Run(c, start, evs).log.outcomes
  {
    StateIsFromInputs(c, start, evs);
    WaitingAreStamps(evs, ev.now);
    hide Waiting, EdgesSince, Seconds, LastSentence, Run, IsRun;
  }

  lemma {:induction false} WaitingAreStamps(evs: seq<Event>, bound: int)
    requires forall i :: 0 <= i < |evs| && evs[i].Edge? ==> evs[i].ts > bound
    ensures forall e :: e in Waiting(evs) ==> e > bound
  {
    if evs != [] {
      WaitingAreStamps(evs[..|evs| - 1], bound);
    }
  }
}
