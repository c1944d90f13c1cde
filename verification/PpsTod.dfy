/** The daemon as it runs: the globals of pps_tod.c updated in place, each handler proved against
    the step of the `Pairing` machine that the run theorems are about. */
module PpsTod {
  import opened CInt
  import opened Pairing
  import opened Wrappers
  import Shm = ShmProtocol

  /** `count` after `n` whole writes. */
  function CountAfter(n: nat): int { Wrap32(2 * n) }

  lemma CountStep(n: nat)
    ensures Wrap32(CountAfter(n) + 2) == CountAfter(n + 1)
  {
  }

  /** `shmTime_t`, written by one thread at a time. */
  class Segment {
    var count: int
    var valid: bool
    var clockSec: int
    var clockUSec: int
    var clockNSec: int
    var receiveSec: int
    var receiveUSec: int
    var receiveNSec: int
    var leap: int
    var precision: int
    var nsamples: int

    constructor ()
      ensures count == 0 && !valid
    {
      count, valid := 0, false;
      clockSec, clockUSec, clockNSec := 0, 0, 0;
      receiveSec, receiveUSec, receiveNSec := 0, 0, 0;
      leap, precision, nsamples := 0, 0, 0;
    }

    /** Load a field by name. */
    function At(f: Shm.Field): int
      reads this
    {
      match f
      case ClockSec => clockSec
      case ClockUSec => clockUSec
      case ClockNSec => clockNSec
      case ReceiveSec => receiveSec
      case ReceiveUSec => receiveUSec
      case ReceiveNSec => receiveNSec
      case Leap => leap
      case Precision => precision
      case NSamples => nsamples
    }

    ghost predicate Holds(s: Shm.Sample)
      reads this
    {
      valid && forall f :: At(f) == Shm.Stored(s, f)
    }

    method Write(rsec: int, rnsec: int, csec: int, cnsec: int)
      modifies this
      ensures count == Wrap32(old(count) + 2)
      ensures Holds(Shm.Sample(rsec, rnsec, csec, cnsec)) && valid
      ensures receiveSec == rsec && receiveNSec == rnsec && clockSec == csec && clockNSec == cnsec
      ensures (rnsec >= 0 ==> receiveUSec == rnsec / 1000) && (cnsec >= 0 ==> clockUSec == cnsec / 1000)
      ensures leap == 0 && precision == -20 && nsamples == 0
    {
      valid := false;
      count := Wrap32(count + 1);
      clockSec := csec;
      clockUSec := Thousandth(cnsec);
      clockNSec := cnsec;
      receiveSec := rsec;
      receiveUSec := Thousandth(rnsec);
      receiveNSec := rnsec;
      leap := 0;
      precision := -20;
      nsamples := 0;
      count := Wrap32(count + 1);
      valid := true;
    }
  }

  /** The samples handed to chrony: the accepted outcomes, in order. */
  ghost function Published(o: seq<Outcome>): seq<Shm.Sample> {
    if o == [] then []
    else
      var front, last := Published(o[..|o| - 1]), o[|o| - 1];
      if last.Accepted()
      then front + [Shm.Sample(SecondsOf(last.rt), NanosOf(last.rt), last.utc, 0)] else front
  }

  lemma PublishedSnoc(o: seq<Outcome>, last: Outcome)
    ensures Published(o + [last]) ==
      if last.Accepted()
      then Published(o) + [Shm.Sample(SecondsOf(last.rt), NanosOf(last.rt), last.utc, 0)] else Published(o)
  {
    assert (o + [last])[..|o|] == o;
  }

  /** Shared memory shows the latest published sample, and `count` is twice their number. */
  ghost predicate ShmOk(shm: Segment, p: seq<Shm.Sample>)
    reads shm
  {
    shm.count == CountAfter(|p|) && (p != [] ==> shm.Holds(p[|p| - 1]))
  }

  /** What chrony computes from a published sample, clock minus receive, is the measured offset, and
      it never exceeds half a second. */
  lemma {:induction false} PublishedOffsets(o: seq<Outcome>, i: nat)
    requires i < |Published(o)|
    ensures var s := Published(o)[i];
      Abs((s.clockSec * 1_000_000_000 + s.clockNSec) - (s.receiveSec * 1_000_000_000 + s.receiveNSec)) <= GATE
  {
    var front := o[..|o| - 1];
    if i < |Published(front)| {
      PublishedOffsets(front, i);
    }
  }

  /** The emitted outcomes at most half a second off, in order. */
  ghost function WithinGate(o: seq<Outcome>): seq<Outcome> {
    if o == [] then []
    else
      var front, x := WithinGate(o[..|o| - 1]), o[|o| - 1];
      if x.Emitted? && -500_000_000 <= x.utc * 1_000_000_000 - x.rt <= 500_000_000 then front + [x] else front
  }

  /** `s` says of outcome `x`: when the system clock read `rt`, it was second `utc`. */
  ghost predicate Says(s: Shm.Sample, x: Outcome) {
    x.Emitted? &&
    s.receiveSec * 1_000_000_000 + s.receiveNSec == x.rt && -1_000_000_000 < s.receiveNSec < 1_000_000_000 &&
    (x.rt >= 0 ==> s.receiveNSec >= 0) && s.clockSec == x.utc && s.clockNSec == 0
  }

  /** What is published is, one for one and in order, the outcomes within the gate: the clock's reading
      at the pulse beside the second it is labelled with. */
  lemma {:induction false} PublishedIsWithinGate(o: seq<Outcome>)
    ensures |Published(o)| == |WithinGate(o)|
    ensures forall i :: 0 <= i < |Published(o)| ==> Says(Published(o)[i], WithinGate(o)[i])
    ensures forall x :: x in WithinGate(o) ==> x in o
  {
    if o != [] {
      PublishedIsWithinGate(o[..|o| - 1]);
    }
  }

  /** Every call of `shm_write` in the run hands over a sample that passed the gate. */
  ghost predicate HandsOver(acts: seq<Shm.Action>, o: seq<Outcome>) {
    forall a :: a in acts && a.Invalidate? ==> a.sample in Published(o)
  }

  lemma {:induction false} WrittenWereHandedOver(ord: Shm.Ordering, s: Shm.State, acts: seq<Shm.Action>, o: seq<Outcome>)
    requires Shm.IsRun(ord, s, acts) && HandsOver(acts, o) && forall x :: x in s.written ==> x in Published(o)
    ensures forall x :: x in Shm.After(ord, s, acts).written ==> x in Published(o)
    decreases |acts|
  {
    if acts != [] {
      hide Published;
      var s' := Shm.Do(ord, s, acts[0]);
      assert acts[0] in acts;
      assert s'.written == s.written || (acts[0].Invalidate? && s'.written == s.written + [acts[0].sample]);
      WrittenWereHandedOver(ord, s', acts[1..], o);
    }
  }

  /** The offset a reader computes from its copy. */
  function CopiedOffset(copy: map<Shm.Field, int>): int
    requires Shm.ClockSec in copy && Shm.ClockNSec in copy && Shm.ReceiveSec in copy && Shm.ReceiveNSec in copy
  {
    (copy[Shm.ClockSec] * 1_000_000_000 + copy[Shm.ClockNSec]) -
    (copy[Shm.ReceiveSec] * 1_000_000_000 + copy[Shm.ReceiveNSec])
  }

  /** From the gate to the reader: whatever the interleaving, every copy the reader accepts (under a
      safe ordering, `count` not going round) shows an offset of at most half a second. */
  lemma AcceptedOffsetsAreGated(ord: Shm.Ordering, acts: seq<Shm.Action>, o: seq<Outcome>)
    requires Shm.Safe(ord) && Shm.IsRun(ord, Shm.INITIAL, acts) && HandsOver(acts, o)
    ensures var r := Shm.After(ord, Shm.INITIAL, acts).reader;
      r.Accepted? && r.to - r.since < U32 ==>
        (forall f :: f in r.taken) && Abs(CopiedOffset(r.taken)) <= GATE
  {
    var s := Shm.After(ord, Shm.INITIAL, acts);
    if s.reader.Accepted? && s.reader.to - s.reader.since < U32 {
      Shm.AcceptedCopyIsOneSample(ord, acts);
      WrittenWereHandedOver(ord, Shm.INITIAL, acts, o);
      hide Shm.IsRun, Shm.After;
      var x := s.written[s.reader.since / 2 - 1];
      assert Shm.IsWholeCopy(s.reader.taken, x) && x in Published(o);
      var i :| 0 <= i < |Published(o)| && Published(o)[i] == x;
      PublishedOffsets(o, i);
    }
  }

  lemma RunSnoc(c: Config, start: int, evs: seq<Event>, ev: Event)
    requires IsRun(c, start, evs) && Enabled(Run(c, start, evs), ev)
    ensures IsRun(c, start, evs + [ev]) && Run(c, start, evs + [ev]) == Step(c, Run(c, start, evs), ev)
  {
    hide Step, Enabled;
    var longer := evs + [ev];
    assert longer[..|longer| - 1] == evs && longer[|longer| - 1] == ev;
  }

  class Daemon {
    const cfg: Config
    const shm: Segment
    const pending: array<int>
    var pendingN: nat
    var edgeCount: int
    var anchor: Anchor
    var gate: Gate
    var quota: Quota
    var snapFresh: bool
    var snapSeq: int
    var meas: bool
    var off: int
    ghost const start: int
    ghost var pc: Pc
    ghost var log: Log
    ghost var events: seq<Event>

    /** The coarse block's locals hold what it has read so far. */
    ghost predicate LocalsOk()
      reads this
    {
      (pc.Snapped? || pc.Measured? || pc.Weighed? ==> pc.snap.current == snapFresh && pc.snap.runSeen == snapSeq) &&
      (pc.Measured? || pc.Weighed? ==> pc.recent == meas) &&
      (pc.Weighed? ==> pc.off == off)
    }

    ghost predicate Shape()
      reads this, shm, pending
    {
      pending.Length == QUEUE && pendingN <= QUEUE && ShmOk(shm, Published(log.outcomes)) && LocalsOk()
    }

    ghost function View(): Pairing.Daemon
      requires pendingN <= pending.Length
      reads this, pending
    {
      Pairing.Daemon(anchor, edgeCount, pending[..pendingN], gate, quota, pc, log)
    }

    /** The variables are those of the run of all events handled so far. */
    ghost predicate Valid()
      reads this, shm, pending
    {
      Shape() && IsRun(cfg, start, events) && View() == Run(cfg, start, events)
    }

    constructor (cfg: Config, start: int)
      ensures Valid() && events == [] && this.cfg == cfg && this.start == start && fresh(shm) && fresh(pending)
    {
      this.cfg := cfg;
      this.start := start;
      shm := new Segment();
      pending := new int[QUEUE];
      pendingN := 0;
      edgeCount := 0;
      anchor := Anchor(false, 0, 0, 0, 0);
      gate := Gate(0, 0, 0, 0);
      quota := Quota(start - THROTTLE, 0, 0, false);
      snapFresh, snapSeq, meas, off, pc := false, 0, false, 0, Idle;
      log := Log([], [], [], [], [], 0);
      events := [];
    }

    /** `emit_sample`: gate at half a second, count strikes, publish what passes. */
    method EmitSample(second: int, ts: int, conv: int, offNow: int, ghost path: Path, ghost chain: int)
      requires Shape()
      modifies this`gate, this`log, shm
      ensures Shape()
      ensures View() == Pairing.EmitSample(old(View()),
                          Emitted(path, ts, Realtime(cfg, ts, conv), second, chain), offNow)
    {
      hide Published, NextGate, SecondsOf, NanosOf, CountAfter;
      var rt := if cfg.realtimeStamps then ts else ts + conv;
      var off := second * 1_000_000_000 - rt;
      ghost var o := Emitted(path, ts, rt, second, chain);
      PublishedSnoc(log.outcomes, o);
      log := log.(outcomes := log.outcomes + [o], prior := gate.strike);
      var accepted := UpdateGate(off, offNow, o);
      if accepted {
        CountStep(|Published(old(log.outcomes))|);
        shm.Write(SecondsOf(rt), NanosOf(rt), second, 0);
      }
    }

    method UpdateGate(off: int, offNow: int, ghost o: Outcome) returns (accepted: bool)
      requires o.Emitted? && off == o.Offset()
      modifies this`gate
      ensures gate == NextGate(old(gate), o, offNow) && accepted == o.Accepted()
    {
      gate := gate.(offUs := Thousandth(off), offMono := offNow);
      accepted := Abs(off) <= GATE;
      if !accepted {
        var sg := if off > 0 then 1 else -1;
        if gate.sign != 0 && sg != gate.sign {
          gate := gate.(strike := 0);
        }
        gate := gate.(sign := sg);
        gate := gate.(strike := gate.strike + 1);
      } else {
        gate := gate.(strike := 0, sign := 0);
      }
    }

    /** The flush loop: the newest queued edge at most a second before the sentence. */
    method NewestQueued(mono: int) returns (haveE: bool, bestE: int)
      requires pending.Length == QUEUE && pendingN <= QUEUE
      ensures BestEdge(pending[..pendingN], mono) == if haveE then Some(bestE) else None
    {
      haveE, bestE := false, 0;
      var k := 0;
      while k < pendingN
        invariant 0 <= k <= pendingN
        invariant BestEdge(pending[..k], mono) == if haveE then Some(bestE) else None
      {
        var e := pending[k];
        assert pending[..k + 1][..k] == pending[..k];
        if e <= mono && mono - e <= SEC && (!haveE || e > bestE) {
          bestE, haveE := e, true;
        }
        k := k + 1;
      }
    }

    method UpdateAnchor(second: int, now: int)
      modifies this`anchor
      ensures anchor == NextAnchor(old(anchor), second, now)
    {
      anchor := anchor.(second := second, mono := now, valid := true);
      if anchor.prev != 0 && second == anchor.prev + 1 {
        if anchor.run < SEQ_CAP {
          anchor := anchor.(run := anchor.run + 1);
        }
      } else {
        anchor := anchor.(run := 1);
      }
      anchor := anchor.(prev := second);
    }

    /** The anchor and flush block of the serial thread, before the event is entered. */
    method TakeSentence(second: int, now: int, conv: int, offNow: int)
      requires Shape()
      modifies this`anchor, this`pendingN, this`edgeCount, this`gate, this`log, shm
      ensures Shape()
      ensures View() == OnSentence(cfg, old(View()), Sentence(second, now, conv, offNow))
    {
      ghost var before := View();
      UpdateAnchor(second, now);
      log := log.(anchors := log.anchors + [second]);
      var haveE, bestE := NewestQueued(anchor.mono);
      pendingN := 0;
      edgeCount := 0;
      assert View() == Anchored(before, second, now);
      if haveE {
        EmitSample(anchor.second, bestE, conv, offNow, Flush, anchor.second);
      }
    }

    /** One sentence handled by the serial thread. */
    method HandleSentence(second: int, now: int, conv: int, offNow: int)
      requires Valid() && second > 0
      modifies this, shm
      ensures Valid() && events == old(events) + [Sentence(second, now, conv, offNow)]
    {
      hide Run, IsRun, Published, ShmOk,
           OnSentence, OnEdge, OnSnapshot, OnMeasure, OnWeigh, OnDecide, OnWriteClock, OnClearStrike;
      ghost var ev := Sentence(second, now, conv, offNow);
      RunSnoc(cfg, start, events, ev);
      TakeSentence(second, now, conv, offNow);
      events := events + [ev];
    }

    /** Rounding, arbitrated by the chain. */
    method AssignSecond(rt: int, chain: int) returns (second: int)
      ensures second == Label(RoundedSecond(rt), chain)
    {
      var r := SecondsOf(rt);
      var f := NanosOf(rt);
      var rounded := if f >= GATE then r + 1 else r;
      second := chain;
      if Abs(rounded - chain) <= 1 {
        second := rounded;
      }
    }

    /** The branch without a fresh anchor: queue the edge while there is room. */
    method QueueEdge(ts: int)
      requires Shape()
      modifies this`pendingN, pending
      ensures Shape()
      ensures View() == old(View()).(pending := if |old(View()).pending| < QUEUE
                                                then old(View()).pending + [ts] else old(View()).pending)
    {
      if pendingN < QUEUE {
        pending[pendingN] := ts;
        pendingN := pendingN + 1;
      }
    }

    /** The edge-assignment block of the gpio thread, TOD mode, before the event is entered. */
    method TakeEdge(ts: int, now: int, conv: int, offNow: int)
      requires Shape()
      modifies this`edgeCount, this`gate, this`log, this`pendingN, shm, pending
      ensures Shape()
      ensures View() == OnEdge(cfg, old(View()), Edge(ts, now, conv, offNow))
    {
      hide Label, RoundedSecond, Published, NextGate, ShmOk;
      ghost var before := View();
      if anchor.valid && now - anchor.mono < FRESH {
        var rt := if cfg.realtimeStamps then ts else ts + conv;
        var chain := anchor.second + 1 + edgeCount;
        var second := AssignSecond(rt, chain);
        edgeCount := edgeCount + 1;
        assert View() == before.(edgeCount := before.edgeCount + 1);
        EmitSample(second, ts, conv, offNow, Fresh, chain);
      } else {
        QueueEdge(ts);
      }
    }

    /** One edge handled by the gpio thread. */
    method HandleEdge(ts: int, now: int, conv: int, offNow: int)
      requires Valid() && pc == Idle
      modifies this, shm, pending
      ensures Valid() && events == old(events) + [Edge(ts, now, conv, offNow)]
    {
      hide Run, IsRun, Published, ShmOk,
           OnSentence, OnEdge, OnSnapshot, OnMeasure, OnWeigh, OnDecide, OnWriteClock, OnClearStrike;
      ghost var ev := Edge(ts, now, conv, offNow);
      RunSnoc(cfg, start, events, ev);
      TakeEdge(ts, now, conv, offNow);
      events := events + [ev];
    }

    /** First critical section of the coarse block. */
    method CoarseSnapshot(now: int)
      requires Valid() && pc == Idle
      modifies this`snapFresh, this`snapSeq, this`pc, this`events
      ensures Valid() && events == old(events) + [Snapshot(now)]
    {
      hide Run, IsRun, Published, ShmOk,
           OnSentence, OnEdge, OnMeasure, OnWeigh, OnDecide, OnWriteClock, OnClearStrike;
      RunSnoc(cfg, start, events, Snapshot(now));
      snapFresh := anchor.valid && now - anchor.mono < FRESH;
      snapSeq := anchor.run;
      pc := Snapped(Snap(snapFresh, snapSeq, |log.anchors|));
      events := events + [Snapshot(now)];
    }

    /** Unlocked: how old the latest measurement is. */
    method CoarseMeasure(now: int)
      requires Valid() && pc.Snapped?
      modifies this`meas, this`pc, this`events
      ensures Valid() && events == old(events) + [Measure(now)]
    {
      hide Run, IsRun, Published, ShmOk,
           OnSentence, OnEdge, OnSnapshot, OnWeigh, OnDecide, OnWriteClock, OnClearStrike;
      RunSnoc(cfg, start, events, Measure(now));
      meas := now - gate.offMono < FRESH;
      pc := Measured(pc.snap, meas);
      events := events + [Measure(now)];
    }

    /** Unlocked: the latest measured offset. */
    method CoarseWeigh(ghost at: int)
      requires Valid() && pc.Measured?
      modifies this`off, this`pc, this`events
      ensures Valid() && events == old(events) + [Weigh(at)]
    {
      hide Run, IsRun, Published, ShmOk,
           OnSentence, OnEdge, OnSnapshot, OnMeasure, OnDecide, OnWriteClock, OnClearStrike;
      RunSnoc(cfg, start, events, Weigh(at));
      off := if meas then gate.offUs * 1000 else 0;
      pc := Weighed(pc.snap, meas, off, |log.outcomes|);
      events := events + [Weigh(at)];
    }

    /** The decision, on the strikes read without the lock: what the read found comes in as
        `strikeSeen`. */
    method CoarseDecide(strikeSeen: int, ghost seen: Seen, gateNow: int, windowNow: int, openNow: int, nudgeNow: int)
      returns (step: bool)
      requires Valid() && Enabled(View(), Decide(seen, gateNow, windowNow, openNow, nudgeNow))
      requires strikeSeen == SeenStrike(View(), seen)
      modifies this`quota, this`pc, this`log, this`events
      ensures Valid() && (step <==> pc.Stepping?)
      ensures events == old(events) + [Decide(seen, gateNow, windowNow, openNow, nudgeNow)]
    {
      hide Run, IsRun, Published, ShmOk,
           OnSentence, OnEdge, OnSnapshot, OnMeasure, OnWeigh, OnWriteClock, OnClearStrike;
      ghost var ev := Decide(seen, gateNow, windowNow, openNow, nudgeNow);
      RunSnoc(cfg, start, events, ev);
      var urgent := snapFresh && meas && Abs(off) > SEC;
      var stuck := snapFresh && meas && strikeSeen >= cfg.strikeMax;
      ghost var attempt := NewAttempt(View(), nudgeNow, seen);
      pc := Idle;
      step := false;
      if snapSeq >= 3 && (urgent || stuck) && gateNow - quota.lastNudge > THROTTLE {
        if windowNow - quota.window >= HOUR {
          quota := quota.(window := openNow, resets := 0, capped := false);
          log := log.(openings := log.openings + [openNow]);
        }
        quota := quota.(lastNudge := nudgeNow);
        log := log.(attempts := log.attempts + [attempt]);
        if quota.resets >= cfg.resetMax {
          quota := quota.(capped := true);
        } else {
          step, pc := true, Stepping;
        }
      }
      events := events + [ev];
    }

    /** Second critical section, with the clock write it serves: re-read the target. */
    method CoarseWrite(ghost at: int) returns (target: int)
      requires Valid() && pc.Stepping?
      modifies this`quota, this`pc, this`log, this`events
      ensures Valid() && target == anchor.second && events == old(events) + [WriteClock(at)]
    {
      hide Run, IsRun, Published, ShmOk,
           OnSentence, OnEdge, OnSnapshot, OnMeasure, OnWeigh, OnDecide, OnClearStrike;
      RunSnoc(cfg, start, events, WriteClock(at));
      target := anchor.second + 1 - 1; // `edge_delta` is 1
      quota := quota.(resets := quota.resets + 1);
      pc := Stepped;
      log := log.(writes := log.writes + [ClockWrite(at, |log.openings|, target)]);
      events := events + [WriteClock(at)];
    }

    /** Unlocked: the strike reset, unless a concurrent increment overwrites it. */
    method CoarseClear(ghost at: int, lost: bool)
      requires Valid() && pc.Stepped?
      modifies this`gate, this`pc, this`log, this`events
      ensures Valid() && events == old(events) + [ClearStrike(at, lost)]
    {
      hide Run, IsRun, Published, ShmOk,
           OnSentence, OnEdge, OnSnapshot, OnMeasure, OnWeigh, OnDecide, OnWriteClock;
      RunSnoc(cfg, start, events, ClearStrike(at, lost));
      PublishedSnoc(log.outcomes, ClockStep);
      pc := Idle;
      if !lost {
        gate := gate.(strike := 0);
        log := log.(outcomes := log.outcomes + [ClockStep]);
      }
      events := events + [ClearStrike(at, lost)];
    }
  }
}
