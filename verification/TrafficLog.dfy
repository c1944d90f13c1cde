/** The plain event log that the monitor's rings summarise: how much traffic fell into which minute
    (or second), since the clock last went backwards. */
module TrafficLog {
  import opened CInt

  /** One update of the counters: how many requests, of which valid, and how many responses were
      added at a time (an epoch minute or an epoch second). */
  datatype Tick = Tick(time: int, req: nat, valid: nat, rsp: nat)

  datatype Kind = Requests | ValidOnes | Responses

  function Weight(t: Tick, k: Kind): nat {
    match k case Requests => t.req case ValidOnes => t.valid case Responses => t.rsp
  }

  /** Traffic in [lo, hi). */
  ghost function Between(log: seq<Tick>, k: Kind, lo: int, hi: int): nat {
    if log == [] then 0
    else
      var t := log[|log| - 1];
      Between(log[..|log| - 1], k, lo, hi) + if lo <= t.time < hi then Weight(t, k) else 0
  }

  ghost function At(log: seq<Tick>, k: Kind, q: int): nat {
    Between(log, k, q, q + 1)
  }

  ghost function Total(log: seq<Tick>, k: Kind): nat {
    if log == [] then 0 else Total(log[..|log| - 1], k) + Weight(log[|log| - 1], k)
  }

  ghost function Newest(start: int, log: seq<Tick>): int {
    if log == [] then start else log[|log| - 1].time
  }

  /** The updates since the clock last went backwards (the one that did is the first of them). */
  ghost function Live(start: int, log: seq<Tick>): seq<Tick> {
    if log == [] then []
    else
      var front, t := log[..|log| - 1], log[|log| - 1];
      if t.time < Newest(start, front) then [t] else Live(start, front) + [t]
  }

  ghost predicate NonDecreasing(start: int, log: seq<Tick>) {
    log == [] ||
    (NonDecreasing(start, log[..|log| - 1]) && Newest(start, log[..|log| - 1]) <= log[|log| - 1].time)
  }

  lemma {:induction false} LiveIsOrdered(start: int, log: seq<Tick>)
    ensures forall i :: 0 <= i < |Live(start, log)| ==> Live(start, log)[i].time <= Newest(start, log)
  {
    if log != [] {
      LiveIsOrdered(start, log[..|log| - 1]);
    }
  }

  /** Under a nondecreasing clock nothing is ever forgotten. */
  lemma {:induction false} LiveIsAll(start: int, log: seq<Tick>)
    requires NonDecreasing(start, log)
    ensures Live(start, log) == log
  {
    if log != [] {
      LiveIsAll(start, log[..|log| - 1]);
    }
  }

  lemma Snoc(log: seq<Tick>, t: Tick, k: Kind, lo: int, hi: int)
    ensures Between(log + [t], k, lo, hi) == Between(log, k, lo, hi) + if lo <= t.time < hi then Weight(t, k) else 0
    ensures Total(log + [t], k) == Total(log, k) + Weight(t, k)
  {
    assert (log + [t])[..|log|] == log;
  }

  lemma {:induction false} Split(log: seq<Tick>, k: Kind, lo: int, mid: int, hi: int)
    requires lo <= mid <= hi
    ensures Between(log, k, lo, hi) == Between(log, k, lo, mid) + Between(log, k, mid, hi)
  {
    if log != [] {
      Split(log[..|log| - 1], k, lo, mid, hi);
    }
  }

  lemma {:induction false} NothingAfter(log: seq<Tick>, k: Kind, lo: int, hi: int)
    requires hi <= lo || forall i :: 0 <= i < |log| ==> log[i].time < lo
    ensures Between(log, k, lo, hi) == 0
  {
    if log != [] {
      NothingAfter(log[..|log| - 1], k, lo, hi);
    }
  }

  lemma {:induction false} PartOfTotal(log: seq<Tick>, k: Kind, lo: int, hi: int)
    ensures Between(log, k, lo, hi) <= Total(log, k)
  {
    if log != [] {
      PartOfTotal(log[..|log| - 1], k, lo, hi);
    }
  }

  /** The live updates are some of all updates. */
  lemma {:induction false} LivePart(start: int, log: seq<Tick>, k: Kind)
    ensures Total(Live(start, log), k) <= Total(log, k)
  {
    if log != [] {
      var front, t := log[..|log| - 1], log[|log| - 1];
      LivePart(start, front, k);
      Snoc(Live(start, front), t, k, 0, 0);
      Snoc([], t, k, 0, 0);
      assert [] + [t] == [t];
    }
  }

  ghost predicate ValidIsPart(log: seq<Tick>) {
    forall i :: 0 <= i < |log| ==> log[i].valid <= log[i].req
  }

  lemma {:induction false} ValidAtMostRequests(log: seq<Tick>, lo: int, hi: int)
    requires ValidIsPart(log)
    ensures Between(log, ValidOnes, lo, hi) <= Between(log, Requests, lo, hi)
  {
    if log != [] {
      ValidAtMostRequests(log[..|log| - 1], lo, hi);
    }
  }

  lemma {:induction false} LiveIsSubset(start: int, log: seq<Tick>)
    ensures forall t :: t in Live(start, log) ==> t in log
  {
    if log != [] {
      LiveIsSubset(start, log[..|log| - 1]);
    }
  }

  // ---------- rings ----------

  /** The two ring sizes in use. */
  predicate RingSize(n: int) { n == 1440 || n == 120 }

  /** The slot of a time; the sizes are spelt out to keep `%` within linear arithmetic. */
  function Slot(n: int, q: int): (i: nat)
    requires RingSize(n)
    ensures i < n
  {
    if n == 1440 then q % 1440 else q % 120
  }

  /** The slot of time `q`, if the ring still covers it, holds the live traffic of that time, modulo
      2^32 as slots are 32 bits wide. */
  ghost predicate SlotOk(ring: seq<int>, n: int, newest: int, live: seq<Tick>, k: Kind, q: int)
    requires RingSize(n) && |ring| == n
  {
    0 <= q && newest - n < q <= newest ==> ring[Slot(n, q)] == Wrap32(At(live, k, q))
  }

  ghost predicate RingOk(ring: seq<int>, n: int, newest: int, live: seq<Tick>, k: Kind) {
    RingSize(n) && |ring| == n && forall q :: SlotOk(ring, n, newest, live, k, q)
  }

  /** `ring` with the slots of times `from + 1 .. from + d` cleared. */
  ghost function Cleared(ring: seq<int>, n: int, from: int, d: nat): (r: seq<int>)
    requires RingSize(n) && |ring| == n
    ensures |r| == n
  {
    if d == 0 then ring else Cleared(ring, n, from, d - 1)[Slot(n, from + d) := 0]
  }

  lemma SlotsDiffer(n: int, p: int, q: int)
    requires RingSize(n) && p < q < p + n
    ensures Slot(n, p) != Slot(n, q)
  {
  }

  lemma {:induction false} ClearedSlot(ring: seq<int>, n: int, from: int, d: nat, q: int)
    requires RingSize(n) && |ring| == n && d <= n
    ensures from < q <= from + d ==> Cleared(ring, n, from, d)[Slot(n, q)] == 0
    ensures from + d - n < q <= from ==> Cleared(ring, n, from, d)[Slot(n, q)] == ring[Slot(n, q)]
    decreases d
  {
    if d > 0 {
      ClearedSlot(ring, n, from, d - 1, q);
      if from < q < from + d {
        SlotsDiffer(n, q, from + d);
      } else if from + d - n < q <= from {
        SlotsDiffer(n, q, from + d);
      }
    }
  }

  /** Every slot belongs to one of the next `n` times. */
  lemma TimeOfSlot(n: int, from: int, i: nat) returns (q: int)
    requires RingSize(n) && i < n
    ensures from < q <= from + n && Slot(n, q) == i
  {
    if n == 1440 {
      q := from + 1 + (i - from - 1) % 1440;
    } else {
      q := from + 1 + (i - from - 1) % 120;
    }
  }

  /** Clearing `n` slots in a row clears the ring. */
  lemma ClearedAll(ring: seq<int>, n: int, from: int, i: nat)
    requires RingSize(n) && |ring| == n && i < n
    ensures Cleared(ring, n, from, n)[i] == 0
  {
    var q := TimeOfSlot(n, from, i);
    ClearedSlot(ring, n, from, n, q);
  }

  /** How many slots an advance from `newest` to `time` clears. */
  function Skipped(n: int, newest: int, time: int): int {
    if time < newest || time - newest > n then n else time - newest
  }

  /** What survives an advance: everything, unless the clock went backwards. */
  ghost function Surviving(newest: int, live: seq<Tick>, time: int): seq<Tick> {
    if time < newest then [] else live
  }

  lemma AdvanceSlot(ring: seq<int>, n: int, newest: int, live: seq<Tick>, k: Kind, time: int, q: int)
    requires RingOk(ring, n, newest, live, k)
    requires forall i :: 0 <= i < |live| ==> live[i].time <= newest
    ensures SlotOk(Cleared(ring, n, newest, Skipped(n, newest, time)), n, time, Surviving(newest, live, time), k, q)
  {
    if 0 <= q && time - n < q <= time {
      assert SlotOk(ring, n, newest, live, k, q);
      var d := Skipped(n, newest, time);
      if d == n {
        ClearedAll(ring, n, newest, Slot(n, q));
      } else {
        ClearedSlot(ring, n, newest, d, q);
      }
      if time >= newest && q > newest {
        NothingAfter(live, k, q, q + 1);
      }
    }
  }

  /** An advance re-bases the ring on the new time. */
  lemma AdvanceRing(ring: seq<int>, n: int, newest: int, live: seq<Tick>, k: Kind, time: int)
    requires RingOk(ring, n, newest, live, k)
    requires forall i :: 0 <= i < |live| ==> live[i].time <= newest
    ensures RingOk(Cleared(ring, n, newest, Skipped(n, newest, time)), n, time, Surviving(newest, live, time), k)
  {
    var after, left := Cleared(ring, n, newest, Skipped(n, newest, time)), Surviving(newest, live, time);
    forall q ensures SlotOk(after, n, time, left, k, q) {
      AdvanceSlot(ring, n, newest, live, k, time, q);
    }
  }

  /** Adding one update to the newest slot of a ring. */
  lemma AddToRing(ring: seq<int>, n: int, time: int, live: seq<Tick>, k: Kind, t: Tick)
    requires RingOk(ring, n, time, live, k) && t.time == time >= 0
    ensures RingOk(ring[Slot(n, time) := Wrap32(ring[Slot(n, time)] + Weight(t, k))], n, time, live + [t], k)
  {
    var after := ring[Slot(n, time) := Wrap32(ring[Slot(n, time)] + Weight(t, k))];
    forall q ensures SlotOk(after, n, time, live + [t], k, q) {
      assert SlotOk(ring, n, time, live, k, q);
      Snoc(live, t, k, q, q + 1);
      if q == time {
        WrapAdd(At(live, k, q), Weight(t, k));
      } else if time - n < q < time {
        SlotsDiffer(n, q, time);
      }
    }
  }

  /** An update that adds nothing of a kind leaves that kind's ring alone. */
  lemma AddNothing(ring: seq<int>, n: int, time: int, live: seq<Tick>, k: Kind, t: Tick)
    requires RingOk(ring, n, time, live, k) && Weight(t, k) == 0
    ensures RingOk(ring, n, time, live + [t], k)
  {
    forall q ensures SlotOk(ring, n, time, live + [t], k, q) {
      assert SlotOk(ring, n, time, live, k, q);
      Snoc(live, t, k, q, q + 1);
    }
  }

  /** A zeroed ring shows an empty log from any time. */
  lemma EmptyRing(ring: seq<int>, n: int, newest: int, k: Kind)
    requires RingSize(n) && |ring| == n && forall i :: 0 <= i < n ==> ring[i] == 0
    ensures RingOk(ring, n, newest, [], k)
  {
    forall q ensures SlotOk(ring, n, newest, [], k, q) {
    }
  }

  lemma LiveSnoc(start: int, log: seq<Tick>, t: Tick)
    ensures Live(start, log + [t]) == Surviving(Newest(start, log), Live(start, log), t.time) + [t]
  {
    assert (log + [t])[..|log|] == log;
  }

  // ---------- windows ----------

  /** One step of summing a ring upwards from `lo`, a time it still covers: the slot of time `bm`
      counts iff the ring covers it. */
  lemma SumStep(ring: seq<int>, newest: int, live: seq<Tick>, k: Kind, lo: int, bm: int)
    requires RingOk(ring, 1440, newest, live, k) && newest - 1440 < lo && 0 <= bm
    requires forall i :: 0 <= i < |live| ==> live[i].time <= newest
    requires newest - 1440 < bm ==> lo <= bm
    ensures Wrap32(Between(live, k, lo, bm + 1)) ==
      if bm <= newest && newest - bm < 1440 then Wrap32(Wrap32(Between(live, k, lo, bm)) + ring[Slot(1440, bm)])
      else Wrap32(Between(live, k, lo, bm))
  {
    if newest - 1440 < bm {
      Split(live, k, lo, bm, bm + 1);
      if bm <= newest {
        assert SlotOk(ring, 1440, newest, live, k, bm);
        WrapAdd(Between(live, k, lo, bm), At(live, k, bm));
        WrapAdd(Between(live, k, lo, bm), Wrap32(At(live, k, bm)));
      } else {
        NothingAfter(live, k, bm, bm + 1);
      }
    } else {
      NothingAfter(live, k, lo, bm);
      NothingAfter(live, k, lo, bm + 1);
    }
  }

  /** Wider windows ending at the same time hold at least as much. */
  lemma WiderHoldsMore(log: seq<Tick>, k: Kind, lo: int, lo': int, hi: int)
    requires lo <= lo'
    ensures Between(log, k, lo', hi) <= Between(log, k, lo, hi)
  {
    if lo' <= hi {
      Split(log, k, lo, lo', hi);
    } else {
      NothingAfter(log, k, lo', hi);
    }
  }

  /** What the monitor publishes for the trailing `mins` minutes up to minute `m`. */
  ghost function Window(start: int, log: seq<Tick>, k: Kind, m: int, mins: int): int {
    Wrap32(Between(Live(start, log), k, Max(m + 1 - Min(mins, 1440), Newest(start, log) - 1439), m + 1))
  }

  /** Under a nondecreasing clock a window of up to a day is the exact count of its minutes. */
  lemma WindowIsExact(start: int, log: seq<Tick>, k: Kind, m: int, mins: int)
    requires NonDecreasing(start, log) && Newest(start, log) <= m && 0 <= mins <= 1440
    ensures Window(start, log, k, m, mins) == Wrap32(Between(log, k, m + 1 - mins, m + 1))
  {
    LiveIsAll(start, log);
  }

  /** It is the count itself exactly as long as the window holds fewer than 2^32. */
  lemma WindowDoesNotWrap(start: int, log: seq<Tick>, k: Kind, m: int, mins: int)
    requires NonDecreasing(start, log) && Newest(start, log) <= m && 0 <= mins <= 1440
    ensures var count := Between(log, k, m + 1 - mins, m + 1);
      Window(start, log, k, m, mins) == count <==> count < U32
  {
    WindowIsExact(start, log, k, m, mins);
  }

  /** Valid requests never exceed requests in a window that holds fewer than 2^32 ... */
  lemma ValidWithinRequests(start: int, log: seq<Tick>, m: int, mins: int)
    requires NonDecreasing(start, log) && Newest(start, log) <= m && 0 <= mins <= 1440
    requires ValidIsPart(log) && Between(log, Requests, m + 1 - mins, m + 1) < U32
    ensures Window(start, log, ValidOnes, m, mins) <= Window(start, log, Requests, m, mins)
  {
    WindowDoesNotWrap(start, log, Requests, m, mins);
    WindowDoesNotWrap(start, log, ValidOnes, m, mins);
    ValidAtMostRequests(log, m + 1 - mins, m + 1);
  }

  /** ... and a shorter window never exceeds such a window; in particular the 1 min, 1 h, 5 h and 24 h
      figures are ordered while a day holds fewer than 2^32 requests. */
  lemma WindowsAreOrdered(start: int, log: seq<Tick>, k: Kind, m: int, mins: int, more: int)
    requires NonDecreasing(start, log) && Newest(start, log) <= m && 0 <= mins <= more <= 1440
    requires Between(log, k, m + 1 - more, m + 1) < U32
    ensures Window(start, log, k, m, mins) <= Window(start, log, k, m, more)
  {
    WiderHoldsMore(log, k, m + 1 - more, m + 1 - mins, m + 1);
    WindowDoesNotWrap(start, log, k, m, mins);
    WindowDoesNotWrap(start, log, k, m, more);
  }

  /** No window ever exceeds the grand total, however the clock jumps and whatever wraps. */
  lemma WindowWithinTotal(start: int, log: seq<Tick>, k: Kind, m: int, mins: int)
    ensures 0 <= Window(start, log, k, m, mins) <= Total(log, k)
  {
    hide Live, Between, Total, Newest, Max, Min;
    var live := Live(start, log);
    PartOfTotal(live, k, Max(m + 1 - Min(mins, 1440), Newest(start, log) - 1439), m + 1);
    LivePart(start, log, k);
    WrapShrinks(Between(live, k, Max(m + 1 - Min(mins, 1440), Newest(start, log) - 1439), m + 1));
  }

  lemma WrapShrinks(n: nat)
    ensures 0 <= Wrap32(n) <= n
  {
  }

  /** `n` requests in minute `t`, none valid. */
  ghost function Flood(n: nat, t: int): seq<Tick> {
    if n == 0 then [] else Flood(n - 1, t) + [Tick(t, 1, 0, 0)]
  }

  lemma {:induction false} FloodCounts(n: nat, t: int, lo: int, hi: int)
    ensures Between(Flood(n, t), Requests, lo, hi) == if lo <= t < hi then n else 0
    ensures Between(Flood(n, t), ValidOnes, lo, hi) == 0
  {
    if n > 0 {
      FloodCounts(n - 1, t, lo, hi);
      assert Flood(n, t)[..|Flood(n, t)| - 1] == Flood(n - 1, t);
    }
  }

  lemma {:induction false} FloodIsTimely(n: nat, t: int)
    ensures NonDecreasing(t, Flood(n, t)) && Newest(t, Flood(n, t)) == t && ValidIsPart(Flood(n, t))
  {
    if n > 0 {
      FloodIsTimely(n - 1, t);
      assert Flood(n, t)[..|Flood(n, t)| - 1] == Flood(n - 1, t);
    }
  }

  /** 2^32 - 1 invalid requests in one minute and a valid one in the next. */
  ghost function Overflow(t: int): seq<Tick> {
    Flood(0xffff_ffff, t) + [Tick(t + 1, 1, 1, 0)]
  }

  /** The bound is needed, one request past it: the two-minute window shows no requests at all, fewer
      than the one-minute window inside it and fewer than its own valid ones. */
  lemma OverflowDisorders(t: int)
    ensures var log := Overflow(t);
      NonDecreasing(t, log) && Newest(t, log) == t + 1 && ValidIsPart(log) &&
      Between(log, Requests, t, t + 2) == U32 &&
      Window(t, log, Requests, t + 1, 2) == 0 < Window(t, log, Requests, t + 1, 1) &&
      Window(t, log, Requests, t + 1, 2) < Window(t, log, ValidOnes, t + 1, 2)
  {
    var flood, last := Flood(0xffff_ffff, t), Tick(t + 1, 1, 1, 0);
    var log := Overflow(t);
    FloodCounts(0xffff_ffff, t, t, t + 2);
    FloodCounts(0xffff_ffff, t, t + 1, t + 2);
    FloodIsTimely(0xffff_ffff, t);
    hide Flood;
    assert log[..|log| - 1] == flood;
    Snoc(flood, last, Requests, t, t + 2);
    Snoc(flood, last, Requests, t + 1, t + 2);
    Snoc(flood, last, ValidOnes, t, t + 2);
    hide Between, Window;
    WindowIsExact(t, log, Requests, t + 1, 2);
    WindowIsExact(t, log, Requests, t + 1, 1);
    WindowIsExact(t, log, ValidOnes, t + 1, 2);
  }

  /** What the monitor publishes for one time from a ring of `n` slots: the live count, or 0 once
      the ring no longer covers that time. */
  ghost function Shown(start: int, log: seq<Tick>, k: Kind, n: int, q: int): int {
    if Newest(start, log) - q < n then Wrap32(At(Live(start, log), k, q)) else 0
  }

  /** A ring shows a time by its slot if it covers it, by 0 otherwise. */
  lemma ShownBy(ring: seq<int>, n: int, start: int, log: seq<Tick>, k: Kind, q: int)
    requires RingOk(ring, n, Newest(start, log), Live(start, log), k) && 0 <= q
    ensures Shown(start, log, k, n, q) ==
      if q <= Newest(start, log) && Newest(start, log) - q < n then ring[Slot(n, q)] else 0
  {
    hide Live, Newest;
    assert SlotOk(ring, n, Newest(start, log), Live(start, log), k, q);
    LiveIsOrdered(start, log);
    if q > Newest(start, log) {
      NothingAfter(Live(start, log), k, q, q + 1);
    }
  }

  /** Under a nondecreasing clock, asked at a time not before the newest, the trailing `n` times are
      shown with their exact counts. */
  lemma ShownIsExact(start: int, log: seq<Tick>, k: Kind, n: int, now: int, q: int)
    requires NonDecreasing(start, log) && Newest(start, log) <= now && now - n < q <= now
    ensures Shown(start, log, k, n, q) == Wrap32(At(log, k, q))
  {
    LiveIsAll(start, log);
  }
}
