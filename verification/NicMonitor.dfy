/** Per-interface accounting of ntp_nic_monitor.c: minute rings with lazy ageing, a second ring, and
    response deltas, each proved to show exactly what the event log says. */
module NicMonitor {
  import opened CInt
  import opened TrafficLog
  import Readings = CounterReadings

  const BUCKETS: int := 1440
  const SSEC: int := 120
  const BUCKETS_OUT: int := 60
  const WINDOWS: seq<int> := [60, 3600, 18000, 86400]

  /** The cumulative counters against the logs. */
  ghost predicate CountersOk(req: nat, valid: nat, rsp: nat, iptRule: nat, iptLast: nat,
                             log: seq<Tick>, readings: seq<nat>) {
    req == Total(log, Requests) && valid == Total(log, ValidOnes) && ValidIsPart(log) &&
    Total(log, Responses) == Readings.Added(readings) &&
    iptLast == (if readings == [] then 0 else readings[|readings| - 1]) &&
    rsp == Readings.Reported(iptRule, readings)
  }

  lemma CountersAfterRequest(req: nat, valid: nat, rsp: nat, iptRule: nat, iptLast: nat,
                             log: seq<Tick>, readings: seq<nat>, t: Tick)
    requires CountersOk(req, valid, rsp, iptRule, iptLast, log, readings)
    requires t.req == 1 && t.valid <= 1 && t.rsp == 0
    ensures CountersOk(req + 1, valid + t.valid, rsp, iptRule, iptLast, log + [t], readings)
  {
    Snoc(log, t, Requests, 0, 0);
    Snoc(log, t, ValidOnes, 0, 0);
    Snoc(log, t, Responses, 0, 0);
  }

  lemma CountersAfterReading(req: nat, valid: nat, rsp: nat, iptRule: nat, iptLast: nat,
                             log: seq<Tick>, readings: seq<nat>, cur: nat, m: int)
    requires CountersOk(req, valid, rsp, iptRule, iptLast, log, readings)
    ensures var rsp' := if cur >= iptRule then cur - iptRule else rsp;
      var log' := if iptLast != 0 && cur > iptLast then log + [Tick(m, 0, 0, cur - iptLast)] else log;
      CountersOk(req, valid, rsp', iptRule, cur, log', readings + [cur])
  {
    hide Readings.Added, Readings.Reported, Total, Between;
    Readings.AddedSnoc(readings, cur);
    Readings.ReportedSnoc(iptRule, readings, cur);
    if iptLast != 0 && cur > iptLast {
      var t := Tick(m, 0, 0, cur - iptLast);
      Snoc(log, t, Requests, 0, 0);
      Snoc(log, t, ValidOnes, 0, 0);
      Snoc(log, t, Responses, 0, 0);
    }
  }

  class NicStat {
    const bucket: array<int>
    const vbucket: array<int>
    const rbucket: array<int>
    const sreq: array<int>
    var bucketMin: int
    var sreqMin: int
    var req: nat
    var valid: nat
    var rsp: nat
    var iptRule: nat
    var iptLast: nat
    ghost const start: int
    ghost var log: seq<Tick>       // per minute
    ghost var secs: seq<Tick>      // per second
    ghost var readings: seq<nat>   // response counter

    ghost predicate Shape()
      reads this
    {
      bucket.Length == vbucket.Length == rbucket.Length == 1440 && sreq.Length == 120 &&
      bucket != vbucket && bucket != rbucket && vbucket != rbucket &&
      sreq != bucket && sreq != vbucket && sreq != rbucket
    }

    ghost predicate MinutesOk(live: seq<Tick>)
      requires Shape()
      reads this, bucket, vbucket, rbucket
    {
      RingOk(bucket[..], 1440, bucketMin, live, Requests) &&
      RingOk(vbucket[..], 1440, bucketMin, live, ValidOnes) &&
      RingOk(rbucket[..], 1440, bucketMin, live, Responses)
    }

    /** Before the first packet the second ring is all zero and `sreq_min` is 0. */
    ghost predicate SecondsOk(live: seq<Tick>)
      requires Shape()
      reads this, sreq
    {
      RingOk(sreq[..], 120, sreqMin, live, Requests) &&
      (sreqMin <= 0 ==> live == [] && forall i :: 0 <= i < 120 ==> sreq[i] == 0)
    }

    ghost predicate Valid()
      reads this, bucket, vbucket, rbucket, sreq
    {
      Shape() && CountersOk(req, valid, rsp, iptRule, iptLast, log, readings) &&
      bucketMin == Newest(start, log) && MinutesOk(Live(start, log)) &&
      sreqMin == Newest(0, secs) && SecondsOk(Live(0, secs))
    }

    /** `add_nic` and `ipt_baseline`: zeroed rings, the current minute, the counter's value. */
    constructor (minute: nat, baseline: nat)
      ensures Valid() && start == minute && iptRule == baseline
      ensures log == [] && secs == [] && readings == []
      ensures fresh(bucket) && fresh(vbucket) && fresh(rbucket) && fresh(sreq)
    {
      bucket := new int[1440](_ => 0);
      vbucket := new int[1440](_ => 0);
      rbucket := new int[1440](_ => 0);
      sreq := new int[120](_ => 0);
      bucketMin, sreqMin, start := minute, 0, minute;
      req, valid, rsp, iptRule, iptLast := 0, 0, 0, baseline, 0;
      log, secs, readings := [], [], [];
      new;
      EmptyRing(bucket[..], 1440, minute, Requests);
      EmptyRing(vbucket[..], 1440, minute, ValidOnes);
      EmptyRing(rbucket[..], 1440, minute, Responses);
      EmptyRing(sreq[..], 120, 0, Requests);
    }

    /** `bucket_advance` */
    method BucketAdvance(m: int, ghost live: seq<Tick>)
      requires Shape() && MinutesOk(live)
      requires forall i :: 0 <= i < |live| ==> live[i].time <= bucketMin
      modifies bucket, vbucket, rbucket, this`bucketMin
      ensures bucketMin == m && MinutesOk(Surviving(old(bucketMin), live, m))
    {
      if m == bucketMin {
        return;
      }
      var d := m - bucketMin;
      if d < 0 || d > BUCKETS {
        d := BUCKETS;
      }
      ghost var b0, v0, r0 := bucket[..], vbucket[..], rbucket[..];
      AdvanceRing(b0, 1440, bucketMin, live, Requests, m);
      AdvanceRing(v0, 1440, bucketMin, live, ValidOnes, m);
      AdvanceRing(r0, 1440, bucketMin, live, Responses, m);
      for k := 1 to d + 1
        modifies bucket, vbucket, rbucket
        invariant bucket[..] == Cleared(b0, 1440, bucketMin, k - 1)
        invariant vbucket[..] == Cleared(v0, 1440, bucketMin, k - 1)
        invariant rbucket[..] == Cleared(r0, 1440, bucketMin, k - 1)
      {
        var i := Slot(1440, bucketMin + k);
        bucket[i], vbucket[i], rbucket[i] := 0, 0, 0;
      }
      bucketMin := m;
    }

    /** `sec_advance` */
    method SecAdvance(s: int, ghost live: seq<Tick>)
      requires Shape() && SecondsOk(live) && s > 0
      requires forall i :: 0 <= i < |live| ==> live[i].time <= sreqMin
      modifies sreq, this`sreqMin
      ensures sreqMin == s && SecondsOk(Surviving(old(sreqMin), live, s))
    {
      if s == sreqMin {
        return;
      }
      var d := s - sreqMin;
      if sreqMin <= 0 {
        EmptyRing(sreq[..], 120, s, Requests);
        sreqMin := s;
        return;
      }
      if d < 0 || d > SSEC {
        d := SSEC;
      }
      ghost var s0 := sreq[..];
      AdvanceRing(s0, 120, sreqMin, live, Requests, s);
      for k := 1 to d + 1
        modifies sreq
        invariant sreq[..] == Cleared(s0, 120, sreqMin, k - 1)
      {
        sreq[Slot(120, sreqMin + k)] := 0;
      }
      sreqMin := s;
    }

    /** The increments of the minute rings in `account`. */
    method BumpMinute(m: int, isValid: bool, ghost left: seq<Tick>, ghost t: Tick)
      requires Shape() && m >= 0 && bucketMin == m && MinutesOk(left)
      requires t == Tick(m, 1, if isValid then 1 else 0, 0)
      modifies bucket, vbucket
      ensures MinutesOk(left + [t])
    {
      ghost var b, v, r := bucket[..], vbucket[..], rbucket[..];
      AddToRing(b, 1440, m, left, Requests, t);
      if isValid {
        AddToRing(v, 1440, m, left, ValidOnes, t);
      } else {
        AddNothing(v, 1440, m, left, ValidOnes, t);
      }
      AddNothing(r, 1440, m, left, Responses, t);
      assert |b| == |v| == 1440;
      hide RingOk, Wrap32, Slot;
      var i := Slot(1440, m);
      bucket[i] := Wrap32(bucket[i] + 1);
      if isValid {
        vbucket[i] := Wrap32(vbucket[i] + 1);
      }
      assert bucket[..] == b[i := Wrap32(b[i] + 1)];
      assert vbucket[..] == if isValid then v[i := Wrap32(v[i] + 1)] else v;
      assert rbucket[..] == r;
    }

    /** The minute part of `account`. */
    method CountMinute(m: int, isValid: bool)
      requires Shape() && m >= 0 && bucketMin == Newest(start, log) && MinutesOk(Live(start, log))
      modifies bucket, vbucket, rbucket, this`bucketMin, this`log
      ensures log == old(log) + [Tick(m, 1, if isValid then 1 else 0, 0)]
      ensures bucketMin == Newest(start, log) && MinutesOk(Live(start, log))
    {
      ghost var t := Tick(m, 1, if isValid then 1 else 0, 0);
      ghost var left := Surviving(bucketMin, Live(start, log), m);
      LiveIsOrdered(start, log);
      LiveSnoc(start, log, t);
      hide Live, RingOk;
      BucketAdvance(m, Live(start, log));
      BumpMinute(m, isValid, left, t);
      log := log + [t];
    }

    /** The increment of the second ring in `account`. */
    method BumpSecond(s: int, ghost left: seq<Tick>, ghost t: Tick)
      requires Shape() && s > 0 && sreqMin == s && SecondsOk(left)
      requires t.time == s && t.req == 1
      modifies sreq
      ensures SecondsOk(left + [t])
    {
      ghost var r := sreq[..];
      AddToRing(r, 120, s, left, Requests, t);
      hide RingOk, Wrap32, Slot;
      var i := Slot(120, s);
      sreq[i] := Wrap32(sreq[i] + 1);
      assert sreq[..] == r[i := Wrap32(r[i] + 1)];
    }

    /** The second part of `account`. */
    method CountSecond(s: int, isValid: bool)
      requires Shape() && s > 0 && sreqMin == Newest(0, secs) && SecondsOk(Live(0, secs))
      modifies sreq, this`sreqMin, this`secs
      ensures secs == old(secs) + [Tick(s, 1, if isValid then 1 else 0, 0)]
      ensures sreqMin == Newest(0, secs) && SecondsOk(Live(0, secs))
    {
      hide Live, RingOk;
      ghost var t := Tick(s, 1, if isValid then 1 else 0, 0);
      ghost var left := Surviving(sreqMin, Live(0, secs), s);
      LiveIsOrdered(0, secs);
      LiveSnoc(0, secs, t);
      SecAdvance(s, Live(0, secs));
      BumpSecond(s, left, t);
      secs := secs + [t];
    }

    /** `account`: one inbound request at epoch second `now`. */
    method Account(isValid: bool, now: int)
      requires Valid() && now > 0
      modifies this, bucket, vbucket, rbucket, sreq
      ensures Valid()
      ensures log == old(log) + [Tick(now / 60, 1, if isValid then 1 else 0, 0)]
      ensures secs == old(secs) + [Tick(now, 1, if isValid then 1 else 0, 0)]
      ensures readings == old(readings) && iptRule == old(iptRule)
    {
      hide CountersOk, Live, RingOk;
      var m := now / 60;
      ghost var t := Tick(m, 1, if isValid then 1 else 0, 0);
      CountersAfterRequest(req, valid, rsp, iptRule, iptLast, log, readings, t);
      req := req + 1;
      if isValid {
        valid := valid + 1;
      }
      CountMinute(m, isValid);
      CountSecond(now, isValid);
    }

    /** The ring part of `poll_responses`. */
    method CountResponses(m: int, delta: nat)
      requires Shape() && m >= 0 && bucketMin == Newest(start, log) && MinutesOk(Live(start, log))
      modifies bucket, vbucket, rbucket, this`bucketMin, this`log
      ensures log == old(log) + [Tick(m, 0, 0, delta)]
      ensures bucketMin == Newest(start, log) && MinutesOk(Live(start, log))
    {
      ghost var t := Tick(m, 0, 0, delta);
      ghost var left := Surviving(bucketMin, Live(start, log), m);
      LiveIsOrdered(start, log);
      LiveSnoc(start, log, t);
      hide Live, RingOk, Between, Wrap32, Slot;
      BucketAdvance(m, Live(start, log));
      var i := Slot(1440, m);
      AddNothing(bucket[..], 1440, m, left, Requests, t);
      AddNothing(vbucket[..], 1440, m, left, ValidOnes, t);
      ghost var r := rbucket[..];
      AddToRing(r, 1440, m, left, Responses, t);
      WrapAdd(r[i], delta);
      rbucket[i] := Wrap32(rbucket[i] + Wrap32(delta));
      assert rbucket[..] == r[i := Wrap32(r[i] + delta)];
      log := log + [t];
    }

    /** `poll_responses` for this interface; `v` is the rule's packet count, negative when the rule
        is absent. */
    method PollResponses(v: int, now: int)
      requires Valid() && now >= 0
      modifies this, bucket, vbucket, rbucket
      ensures Valid()
      ensures readings == (if v < 0 then old(readings) else old(readings) + [v])
      ensures secs == old(secs) && iptRule == old(iptRule)
      ensures log == if v > old(iptLast) > 0 then old(log) + [Tick(now / 60, 0, 0, v - old(iptLast))] else old(log)
      ensures v >= 0 ==> iptLast == v && rsp == if v >= iptRule then v - iptRule else old(rsp)
    {
      hide CountersOk, Live, RingOk;
      if v < 0 {
        return;
      }
      var cur: nat := v;
      CountersAfterReading(req, valid, rsp, iptRule, iptLast, log, readings, cur, now / 60);
      if iptLast != 0 && cur >= iptLast {
        var delta := cur - iptLast;
        if delta != 0 {
          CountResponses(now / 60, delta);
        }
      }
      iptLast := cur;
      readings := readings + [cur];
      if cur >= iptRule {
        rsp := cur - iptRule;
      }
    }

    /** The ring of a kind. */
    ghost function Ring(k: Kind): array<int>
      reads this
    {
      match k case Requests => bucket case ValidOnes => vbucket case Responses => rbucket
    }

    /** `bucket_sum` over the trailing `mins` minutes up to `m`: exactly the live traffic of those
        minutes, modulo 2^32, less any that a query behind the newest minute finds aged out. */
    method BucketSum(arr: array<int>, m: int, mins: int, ghost k: Kind) returns (s: int)
      requires Valid() && arr == Ring(k) && m >= BUCKETS - 1 && mins >= 0
      ensures s == Window(start, log, k, m, mins)
    {
      s := 0;
      var wanted := if mins > BUCKETS then BUCKETS else mins;
      ghost var live := Live(start, log);
      ghost var lo := Max(m + 1 - wanted, bucketMin - 1439);
      LiveIsOrdered(start, log);
      NothingAfter(live, k, lo, m + 1 - wanted);
      hide Live, Between, RingOk, Wrap32;
      for j := 0 to wanted
        invariant s == Wrap32(Between(live, k, lo, m + 1 - wanted + j))
      {
        var bm := m - (wanted - 1) + j;
        SumStep(arr[..], bucketMin, live, k, lo, bm);
        if bm <= bucketMin && bucketMin - bm < BUCKETS {
          s := Wrap32(s + arr[Slot(1440, bm)]);
        }
      }
    }

    /** The window sums of `write_json`, for 1 min, 1 h, 5 h and 24 h. */
    method WindowSums(m: int) returns (req: seq<int>, valid: seq<int>, rsp: seq<int>)
      requires Valid() && m >= BUCKETS - 1
      ensures |req| == |valid| == |rsp| == 4
      ensures req == [Window(start, log, Requests, m, 1), Window(start, log, Requests, m, 60),
                      Window(start, log, Requests, m, 300), Window(start, log, Requests, m, 1440)]
      ensures valid == [Window(start, log, ValidOnes, m, 1), Window(start, log, ValidOnes, m, 60),
                        Window(start, log, ValidOnes, m, 300), Window(start, log, ValidOnes, m, 1440)]
      ensures rsp == [Window(start, log, Responses, m, 1), Window(start, log, Responses, m, 60),
                      Window(start, log, Responses, m, 300), Window(start, log, Responses, m, 1440)]
      ensures forall w :: 0 <= w < |WINDOWS| ==>
        req[w] == Window(start, log, Requests, m, WINDOWS[w] / 60) &&
        valid[w] == Window(start, log, ValidOnes, m, WINDOWS[w] / 60) &&
        rsp[w] == Window(start, log, Responses, m, WINDOWS[w] / 60)
    {
      hide Window, RingOk;
      req, valid, rsp := [], [], [];
      for w := 0 to |WINDOWS|
        invariant |req| == |valid| == |rsp| == w
        invariant forall i :: 0 <= i < w ==>
          req[i] == Window(start, log, Requests, m, WINDOWS[i] / 60) &&
          valid[i] == Window(start, log, ValidOnes, m, WINDOWS[i] / 60) &&
          rsp[i] == Window(start, log, Responses, m, WINDOWS[i] / 60)
      {
        var mins := WINDOWS[w] / 60;
        var a := BucketSum(bucket, m, mins, Requests);
        var b := BucketSum(vbucket, m, mins, ValidOnes);
        var c := BucketSum(rbucket, m, mins, Responses);
        req, valid, rsp := req + [a], valid + [b], rsp + [c];
      }
    }

    /** The published minutes of one ring: the trailing hour, oldest first. */
    method PublishMinutes(arr: array<int>, m: int, ghost k: Kind) returns (out: seq<int>)
      requires Valid() && arr == Ring(k) && m >= BUCKETS - 1
      ensures |out| == BUCKETS_OUT
      ensures forall j :: 0 <= j < BUCKETS_OUT ==> out[j] == Shown(start, log, k, 1440, m - 59 + j)
    {
      out := [];
      for j := BUCKETS - BUCKETS_OUT to BUCKETS
        invariant |out| == j - (BUCKETS - BUCKETS_OUT)
        invariant forall i :: 0 <= i < |out| ==> out[i] == Shown(start, log, k, 1440, m - 59 + i)
      {
        var bm := m - (BUCKETS - 1) + j;
        var v := 0;
        ShownBy(arr[..], 1440, start, log, k, bm);
        if bm <= bucketMin && bucketMin - bm < BUCKETS {
          v := arr[Slot(1440, bm)];
        }
        out := out + [v];
      }
    }

    /** The published seconds: the trailing two minutes, oldest first. */
    method PublishSeconds(now: int) returns (out: seq<int>)
      requires Valid() && now >= SSEC - 1
      ensures |out| == SSEC
      ensures forall j :: 0 <= j < SSEC ==> out[j] == Shown(0, secs, Requests, 120, now - 119 + j)
    {
      out := [];
      for j := 0 to SSEC
        invariant |out| == j
        invariant forall i :: 0 <= i < j ==> out[i] == Shown(0, secs, Requests, 120, now - 119 + i)
      {
        var e := now - (SSEC - 1) + j;
        var v := 0;
        ShownBy(sreq[..], 120, 0, secs, Requests, e);
        if sreqMin > 0 && e <= sreqMin && sreqMin - e < SSEC {
          v := sreq[Slot(120, e)];
        }
        out := out + [v];
      }
    }
  }
}
