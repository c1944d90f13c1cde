/** The count/valid hand-over of samples to chrony (`shm_write`), at the granularity of single
    stores and loads, with the two daemon threads serialised by `pair_mutex` and a mode-1 reader
    interleaved at every store. */
module ShmProtocol {
  import opened CInt
  import opened Wrappers

  datatype Thread = Serial | Gpio

  /** The plain data fields of `shmTime_t`; `count` and `valid` are kept apart. */
  datatype Field =
    | ClockSec | ClockUSec | ClockNSec
    | ReceiveSec | ReceiveUSec | ReceiveNSec
    | Leap | Precision | NSamples

  datatype Sample = Sample(receiveSec: int, receiveNSec: int, clockSec: int, clockNSec: int)

  /** What `shm_write` stores into field `f` for sample `s`. */
  function Stored(s: Sample, f: Field): int {
    match f
    case ClockSec => s.clockSec
    case ClockUSec => Thousandth(s.clockNSec)
    case ClockNSec => s.clockNSec
    case ReceiveSec => s.receiveSec
    case ReceiveUSec => Thousandth(s.receiveNSec)
    case ReceiveNSec => s.receiveNSec
    case Leap => 0
    case Precision => -20
    case NSamples => 0
  }

  /** Every field of `data` comes from the one sample `s`. */
  ghost predicate IsWhole(data: Field -> int, s: Sample) {
    forall f :: data(f) == Stored(s, f)
  }

  ghost predicate IsWholeCopy(copy: map<Field, int>, s: Sample) {
    forall f :: f in copy && copy[f] == Stored(s, f)
  }

  /** What is ordered beyond the two barriers of `shm_write`. The barriers cut its stores into three
      groups: lowering `valid`; the first increment of `count` and the data; the second increment and
      raising `valid`. Within a group a processor may reorder, unless:
      `incrementFirst`, the first increment comes before all data;
      `incrementBeforeValid`, the second increment comes before raising `valid`;
      `validLast` (a property of the reader), `valid` is loaded after all data.
      Stores in program order have the first two. */
  datatype Ordering = Ordering(incrementFirst: bool, incrementBeforeValid: bool, validLast: bool)

  ghost predicate Safe(o: Ordering) { o.incrementBeforeValid && (o.incrementFirst || o.validLast) }

  datatype Memory = Memory(count: int, valid: bool, data: Field -> int)

  /** Where a thread stands: outside the mutex, holding it, or inside `shm_write` between the two
      barriers (`begun`: first increment done; `done`: fields stored) or after the second
      (`counted`: second increment done; `raised`: `valid` raised). */
  datatype Writer =
    | Outside
    | Holding
    | Filling(sample: Sample, begun: bool, done: set<Field>)
    | Closing(sample: Sample, counted: bool, raised: bool)

  /** A reader that loads `count`, then the other fields and `valid`, then `count` again. `from`,
      `since` and `to` are history: the true number of increments at the first (`from`, `since`) and
      at the second (`to`) load of `count`. */
  datatype Reader =
    | Ready
    | Copying(count0: int, copy: map<Field, int>, valid: bool, validRead: bool, from: nat)
    | Accepted(taken: map<Field, int>, since: nat, to: nat)
    | Rejected

  /** `ticks` (all increments of `count` ever made) and `written` (the samples of all calls begun)
      are history; the rest is the concrete state. */
  datatype State = State(mem: Memory, holder: Option<Thread>, serial: Writer, gpio: Writer,
                         reader: Reader, ticks: nat, written: seq<Sample>)
  {
    function Of(t: Thread): Writer { if t == Serial then serial else gpio }

    function With(t: Thread, w: Writer): State {
      if t == Serial then this.(serial := w) else this.(gpio := w)
    }
  }

  datatype Action =
    | Lock(t: Thread)
    | Unlock(t: Thread)
    | Invalidate(t: Thread, sample: Sample)
    | CountUp(t: Thread)
    | Store(t: Thread, f: Field)
    | Fence(t: Thread)
    | CountAgain(t: Thread)
    | Validate(t: Thread)
    | Return(t: Thread)
    | ReadCount
    | CopyField(f: Field)
    | CopyValid
    | Recheck
    | Consume
    | Reset

  const ZEROED: Memory := Memory(0, false, (f: Field) => 0)

  const INITIAL: State :=
    State(ZEROED, None, Outside, Outside, Ready, 0, [])

  ghost predicate Enabled(o: Ordering, s: State, a: Action)
  {
    match a
    case Lock(t) => s.holder.None?
    case Unlock(t) => s.Of(t).Holding?
    case Invalidate(t, _) => s.Of(t).Holding?
    case CountUp(t) => s.Of(t).Filling? && !s.Of(t).begun
    case Store(t, f) => s.Of(t).Filling? && f !in s.Of(t).done && (o.incrementFirst ==> s.Of(t).begun)
    case Fence(t) => s.Of(t).Filling? && s.Of(t).begun && forall f :: f in s.Of(t).done
    case CountAgain(t) => s.Of(t).Closing? && !s.Of(t).counted
    case Validate(t) => s.Of(t).Closing? && !s.Of(t).raised && (o.incrementBeforeValid ==> s.Of(t).counted)
    case Return(t) => s.Of(t).Closing? && s.Of(t).counted && s.Of(t).raised
    case ReadCount => s.reader.Ready?
    case CopyField(f) => s.reader.Copying? && f !in s.reader.copy
    case CopyValid =>
      s.reader.Copying? && !s.reader.validRead && (o.validLast ==> forall f :: f in s.reader.copy)
    case Recheck => s.reader.Copying? && s.reader.validRead && forall f :: f in s.reader.copy
    case Consume => s.reader.Accepted?
    case Reset => s.reader.Accepted? || s.reader.Rejected?
  }

  ghost function Do(o: Ordering, s: State, a: Action): State
    requires Enabled(o, s, a)
  {
    match a
    case Lock(t) => s.(holder := Some(t)).With(t, Holding)
    case Unlock(t) => s.(holder := None).With(t, Outside)
    case Invalidate(t, x) =>
      s.(mem := s.mem.(valid := false), written := s.written + [x]).With(t, Filling(x, false, {}))
    case CountUp(t) =>
      s.(mem := s.mem.(count := Wrap32(s.mem.count + 1)), ticks := s.ticks + 1)
      .With(t, s.Of(t).(begun := true))
    case Store(t, f) =>
      var w := s.Of(t);
      s.(mem := s.mem.(data := g => if g == f then Stored(w.sample, f) else s.mem.data(g)))
      .With(t, w.(done := w.done + {f}))
    case Fence(t) => s.With(t, Closing(s.Of(t).sample, false, false))
    case CountAgain(t) =>
      s.(mem := s.mem.(count := Wrap32(s.mem.count + 1)), ticks := s.ticks + 1)
      .With(t, s.Of(t).(counted := true))
    case Validate(t) => s.(mem := s.mem.(valid := true)).With(t, s.Of(t).(raised := true))
    case Return(t) => s.With(t, Holding)
    case ReadCount => s.(reader := Copying(s.mem.count, map[], false, false, s.ticks))
    case CopyField(f) => s.(reader := s.reader.(copy := s.reader.copy[f := s.mem.data(f)]))
    case CopyValid => s.(reader := s.reader.(valid := s.mem.valid, validRead := true))
    case Recheck =>
      s.(reader := if s.reader.valid && s.mem.count == s.reader.count0
                   then Accepted(s.reader.copy, s.reader.from, s.ticks) else Rejected)
    case Consume => s.(mem := s.mem.(valid := false), reader := Ready)
    case Reset => s.(reader := Ready)
  }

  ghost predicate IsRun(o: Ordering, s: State, acts: seq<Action>)
    decreases |acts|
  {
    acts == [] || (Enabled(o, s, acts[0]) && IsRun(o, Do(o, s, acts[0]), acts[1..]))
  }

  ghost function After(o: Ordering, s: State, acts: seq<Action>): State
    requires IsRun(o, s, acts)
    decreases |acts|
  {
    if acts == [] then s else After(o, Do(o, s, acts[0]), acts[1..])
  }

  // ---------- the inductive invariant ----------

  /** `pair_mutex` makes the threads one writer: a thread is inside iff it is the holder. */
  ghost predicate MutexOk(s: State) {
    (s.serial != Outside <==> s.holder == Some(Serial)) &&
    (s.gpio != Outside <==> s.holder == Some(Gpio))
  }

  /** The writer the memory currently depends on: the lock holder's, or `Outside`. */
  ghost function Active(s: State): Writer
  {
    if s.holder.Some? then s.Of(s.holder.value) else Outside
  }

  /** Increments the current call still owes. */
  ghost function Owed(w: Writer): nat {
    match w
    case Filling(_, begun, _) => if begun then 1 else 2
    case Closing(_, counted, _) => if counted then 0 else 1
    case _ => 0
  }

  /** What a writer in the middle of a call leaves in memory. */
  ghost predicate CallOk(o: Ordering, mem: Memory, w: Writer, written: seq<Sample>) {
    var n := |written|;
    (w.Filling? || w.Closing? ==> n > 0 && written[n - 1] == w.sample) &&
    (w.Filling? ==> !mem.valid && forall f :: f in w.done ==> mem.data(f) == Stored(w.sample, f)) &&
    (w.Filling? && !w.begun && o.incrementFirst ==>
       w.done == {} && (n > 1 ==> IsWhole(mem.data, written[n - 2]))) &&
    (w.Closing? && !w.raised ==> !mem.valid) &&
    (w.Closing? && w.raised && o.incrementBeforeValid ==> w.counted)
  }

  ghost predicate MemoryOk(o: Ordering, s: State)
  {
    var w, n := Active(s), |s.written|;
    s.mem.count == Wrap32(s.ticks) && s.ticks == 2 * n - Owed(w) &&
    CallOk(o, s.mem, w, s.written) &&
    (!w.Filling? && n > 0 ==> IsWhole(s.mem.data, s.written[n - 1])) &&
    (s.mem.valid ==> n > 0)
  }

  /** What the copy holds if no increment happens until the second load of `count`. */
  ghost predicate CopyingOk(o: Ordering, r: Reader, filling: bool, written: seq<Sample>)
    requires r.Copying?
  {
    var k := r.from / 2;
    (r.valid ==> r.from % 2 == 0 && r.from > 0) &&
    (r.from % 2 == 0 && 0 < k <= |written| && (o.incrementFirst || !filling) ==>
       forall f :: f in r.copy ==> r.copy[f] == Stored(written[k - 1], f)) &&
    (r.valid && o.validLast ==> k <= |written| && IsWholeCopy(r.copy, written[k - 1]))
  }

  ghost predicate CopyOk(o: Ordering, s: State) {
    match s.reader
    case Copying(c, _, _, _, from) =>
      from <= s.ticks && c == Wrap32(from) &&
      (s.ticks == from ==> CopyingOk(o, s.reader, Active(s).Filling?, s.written))
    case Accepted(copy, from, to) =>
      from <= to <= s.ticks && Wrap32(from) == Wrap32(to) &&
      (to - from < U32 ==> from % 2 == 0 && 0 < from / 2 <= |s.written| &&
                           IsWholeCopy(copy, s.written[from / 2 - 1]))
    case _ => true
  }

  ghost predicate Inv(o: Ordering, s: State) {
    MutexOk(s) && MemoryOk(o, s) && (Safe(o) ==> CopyOk(o, s))
  }

  lemma CongruentAndClose(a: nat, b: nat)
    requires a <= b && Wrap32(a) == Wrap32(b) && b - a < U32
    ensures a == b
  {
  }

  lemma StepKeepsMutex(o: Ordering, s: State, a: Action)
    requires MutexOk(s) && Enabled(o, s, a)
    ensures MutexOk(Do(o, s, a))
  {
  }

  ghost predicate ByReader(a: Action) {
    a.ReadCount? || a.CopyField? || a.CopyValid? || a.Recheck? || a.Consume? || a.Reset?
  }

  /** A step of a thread is a step of the active writer. */
  lemma WriterIsActive(o: Ordering, s: State, a: Action)
    requires MutexOk(s) && Enabled(o, s, a) && !ByReader(a)
    ensures Active(s) == if a.Lock? then Outside else s.Of(a.t)
    ensures Active(Do(o, s, a)) == if a.Unlock? then Outside else Do(o, s, a).Of(a.t)
  {
    assert a.t == Serial || a.t == Gpio;
  }

  lemma InvalidateKeepsMemory(o: Ordering, s: State, a: Action)
    requires MutexOk(s) && MemoryOk(o, s) && Enabled(o, s, a) && a.Invalidate?
    ensures MemoryOk(o, Do(o, s, a))
  {
    WriterIsActive(o, s, a);
    hide MutexOk, Active, IsWhole, Stored, Wrap32;
  }

  lemma FenceKeepsMemory(o: Ordering, s: State, a: Action)
    requires MutexOk(s) && MemoryOk(o, s) && Enabled(o, s, a) && a.Fence?
    ensures MemoryOk(o, Do(o, s, a))
  {
    WriterIsActive(o, s, a);
    hide MutexOk, Active, Stored, Wrap32;
  }

  lemma CountKeepsMemory(o: Ordering, s: State, a: Action)
    requires MutexOk(s) && MemoryOk(o, s) && Enabled(o, s, a) && (a.CountUp? || a.CountAgain?)
    ensures MemoryOk(o, Do(o, s, a))
  {
    WriterIsActive(o, s, a);
    WrapAdd(s.ticks, 1);
    hide MutexOk, Active, IsWhole, Stored, Wrap32;
  }

  /** Locking, unlocking, raising `valid` and returning. */
  lemma OtherKeepsMemory(o: Ordering, s: State, a: Action)
    requires MutexOk(s) && MemoryOk(o, s) && Enabled(o, s, a) && (a.Lock? || a.Unlock? || a.Validate? || a.Return?)
    ensures MemoryOk(o, Do(o, s, a))
  {
    WriterIsActive(o, s, a);
    hide MutexOk, Active, IsWhole, Stored, Wrap32;
  }

  lemma StoreKeepsMemory(o: Ordering, s: State, a: Action)
    requires MutexOk(s) && MemoryOk(o, s) && Enabled(o, s, a) && a.Store?
    ensures MemoryOk(o, Do(o, s, a))
  {
    WriterIsActive(o, s, a);
    hide MutexOk, Active, Wrap32;
  }

  lemma StepKeepsMemory(o: Ordering, s: State, a: Action)
    requires MutexOk(s) && MemoryOk(o, s) && Enabled(o, s, a) && !ByReader(a)
    ensures MemoryOk(o, Do(o, s, a))
  {
    match a
    case Invalidate(_, _) => InvalidateKeepsMemory(o, s, a);
    case Store(_, _) => StoreKeepsMemory(o, s, a);
    case Fence(_) => FenceKeepsMemory(o, s, a);
    case CountUp(_) => CountKeepsMemory(o, s, a);
    case CountAgain(_) => CountKeepsMemory(o, s, a);
    case _ => OtherKeepsMemory(o, s, a);
    hide MutexOk, MemoryOk;
  }

  lemma WriterKeepsCopy(o: Ordering, s: State, a: Action)
    requires MutexOk(s) && MemoryOk(o, s) && CopyOk(o, s) && Enabled(o, s, a) && !ByReader(a)
    ensures CopyOk(o, Do(o, s, a))
  {
    WriterIsActive(o, s, a);
    var s' := Do(o, s, a);
    assert s'.reader == s.reader && s.ticks <= s'.ticks && s.written <= s'.written;
    hide MutexOk, Active;
  }

  lemma ReaderKeepsCopy(o: Ordering, s: State, a: Action)
    requires Safe(o) && MemoryOk(o, s) && CopyOk(o, s) && Enabled(o, s, a) && ByReader(a)
    ensures CopyOk(o, Do(o, s, a))
  {
    if a.Recheck? && s.mem.count == s.reader.count0 && s.ticks - s.reader.from < U32 {
      CongruentAndClose(s.reader.from, s.ticks);
    }
  }

  lemma StepKeepsInv(o: Ordering, s: State, a: Action)
    requires Inv(o, s) && Enabled(o, s, a)
    ensures Inv(o, Do(o, s, a))
  {
    StepKeepsMutex(o, s, a);
    if ByReader(a) {
      if Safe(o) {
        ReaderKeepsCopy(o, s, a);
      }
      assert Active(Do(o, s, a)) == Active(s);
    } else {
      if Safe(o) {
        WriterKeepsCopy(o, s, a);
      }
      StepKeepsMemory(o, s, a);
    }
    hide CopyOk, Safe;
  }

  lemma {:induction false} RunKeepsInv(o: Ordering, s: State, acts: seq<Action>)
    requires Inv(o, s) && IsRun(o, s, acts)
    ensures Inv(o, After(o, s, acts))
    decreases |acts|
  {
    if acts != [] {
      StepKeepsInv(o, s, acts[0]);
      hide Inv;
      RunKeepsInv(o, Do(o, s, acts[0]), acts[1..]);
    }
  }

  lemma ReachableInv(o: Ordering, acts: seq<Action>)
    requires IsRun(o, INITIAL, acts)
    ensures Inv(o, After(o, INITIAL, acts))
  {
    assert Inv(o, INITIAL);
    RunKeepsInv(o, INITIAL, acts);
  }

  /** For every interleaving of any number of writes by either thread with the reader: under a safe
      ordering, a copy that passes the valid and count checks is exactly one written sample, namely
      the one whose call its `count` numbers, unless `count` (32 bits) went all the way round while
      the copy was being taken. */
  lemma AcceptedCopyIsOneSample(o: Ordering, acts: seq<Action>)
    requires Safe(o) && IsRun(o, INITIAL, acts)
    ensures var s := After(o, INITIAL, acts);
      s.reader.Accepted? && s.reader.to - s.reader.since < U32 ==>
        s.reader.since % 2 == 0 && 0 < s.reader.since / 2 <= |s.written| &&
        IsWholeCopy(s.reader.taken, s.written[s.reader.since / 2 - 1])
  {
    ReachableInv(o, acts);
  }

  /** Field by field, what such a copy holds: the four times of one call, microseconds that agree with
      the nanoseconds, no leap second, precision 2^-20. */
  ghost predicate HoldsFields(copy: map<Field, int>, x: Sample) {
    (forall f :: f in copy) &&
    copy[ClockSec] == x.clockSec && copy[ClockNSec] == x.clockNSec &&
    copy[ReceiveSec] == x.receiveSec && copy[ReceiveNSec] == x.receiveNSec &&
    (x.clockNSec >= 0 ==> copy[ClockUSec] == x.clockNSec / 1000) &&
    (x.receiveNSec >= 0 ==> copy[ReceiveUSec] == x.receiveNSec / 1000) &&
    copy[Leap] == 0 && copy[Precision] == -20 && copy[NSamples] == 0
  }

  lemma AcceptedFields(o: Ordering, acts: seq<Action>)
    requires Safe(o) && IsRun(o, INITIAL, acts)
    ensures var s := After(o, INITIAL, acts);
      s.reader.Accepted? && s.reader.to - s.reader.since < U32 ==>
        0 < s.reader.since / 2 <= |s.written| && HoldsFields(s.reader.taken, s.written[s.reader.since / 2 - 1])
  {
    AcceptedCopyIsOneSample(o, acts);
    hide IsRun, After;
  }

  /** Under any ordering: the mutex admits one writer at a time, `valid` is down from its lowering
      until it is raised again, and by then the data is the writer's whole sample. */
  lemma SingleWriter(o: Ordering, acts: seq<Action>)
    requires IsRun(o, INITIAL, acts)
    ensures var s := After(o, INITIAL, acts);
      !(s.serial != Outside && s.gpio != Outside) &&
      forall t: Thread ::
        (s.Of(t).Filling? || (s.Of(t).Closing? && !s.Of(t).raised) ==> !s.mem.valid) &&
        (s.Of(t).Closing? ==> IsWhole(s.mem.data, s.Of(t).sample))
  {
    ReachableInv(o, acts);
    var s := After(o, INITIAL, acts);
    forall t: Thread | s.Of(t) != Outside ensures s.Of(t) == Active(s) {
      assert t == Serial || t == Gpio;
    }
  }

  // ---------- runs, step by step ----------

  lemma {:induction false} Extend(o: Ordering, s: State, acts: seq<Action>, a: Action)
    requires IsRun(o, s, acts) && Enabled(o, After(o, s, acts), a)
    ensures IsRun(o, s, acts + [a]) && After(o, s, acts + [a]) == Do(o, After(o, s, acts), a)
    decreases |acts|
  {
    var longer := acts + [a];
    if acts == [] {
      assert longer == [a] && longer[1..] == [];
    } else {
      Extend(o, Do(o, s, acts[0]), acts[1..], a);
      assert longer[1..] == acts[1..] + [a];
    }
  }

  lemma Take(o: Ordering, acts: seq<Action>, a: Action) returns (longer: seq<Action>)
    requires IsRun(o, INITIAL, acts) && Enabled(o, After(o, INITIAL, acts), a)
    ensures IsRun(o, INITIAL, longer) && After(o, INITIAL, longer) == Do(o, After(o, INITIAL, acts), a)
  {
    Extend(o, INITIAL, acts, a);
    longer := acts + [a];
  }

  /** The place of a field in `shmTime_t`; `valid` lies before the two nanosecond fields. */
  function Place(f: Field): nat {
    match f case ClockSec => 0 case ClockUSec => 1 case ReceiveSec => 2 case ReceiveUSec => 3
    case Leap => 4 case Precision => 5 case NSamples => 6
    case ClockNSec => 7 case ReceiveNSec => 8
  }

  const VALID_PLACE: nat := 7

  function FieldAt(i: nat): (f: Field)
    requires i < 9
    ensures forall g :: Place(g) == i <==> g == f
  {
    match i case 0 => ClockSec case 1 => ClockUSec case 2 => ReceiveSec case 3 => ReceiveUSec
    case 4 => Leap case 5 => Precision case 6 => NSamples
    case 7 => ClockNSec case _ => ReceiveNSec
  }

  /** All data stores of a call, undisturbed. */
  lemma StoreAll(o: Ordering, acts: seq<Action>, t: Thread) returns (longer: seq<Action>)
    requires IsRun(o, INITIAL, acts)
    requires var w := After(o, INITIAL, acts).Of(t); w.Filling? && w.done == {} && (o.incrementFirst ==> w.begun)
    ensures IsRun(o, INITIAL, longer)
    ensures var s, s' := After(o, INITIAL, acts), After(o, INITIAL, longer);
      s'.Of(t).Filling? && (forall f :: f in s'.Of(t).done) && IsWhole(s'.mem.data, s.Of(t).sample) &&
      s' == s.(mem := s.mem.(data := s'.mem.data)).With(t, s.Of(t).(done := s'.Of(t).done))
  {
    var s := After(o, INITIAL, acts);
    longer := acts;
    for i := 0 to 9
      invariant IsRun(o, INITIAL, longer)
      invariant var s' := After(o, INITIAL, longer);
        s'.Of(t).Filling? &&
        s' == s.(mem := s.mem.(data := s'.mem.data)).With(t, s.Of(t).(done := s'.Of(t).done)) &&
        (forall f :: f in s'.Of(t).done <==> Place(f) < i) &&
        forall f :: Place(f) < i ==> s'.mem.data(f) == Stored(s.Of(t).sample, f)
    {
      longer := Take(o, longer, Store(t, FieldAt(i)));
    }
  }

  /** An uninterrupted call of `shm_write` in program order publishes its whole sample, adds two to
      `count` and raises `valid`; every ordering allows it. */
  lemma OneCall(o: Ordering, acts: seq<Action>, t: Thread, x: Sample) returns (longer: seq<Action>)
    requires IsRun(o, INITIAL, acts) && After(o, INITIAL, acts).Of(t).Holding?
    ensures IsRun(o, INITIAL, longer)
    ensures var s, s' := After(o, INITIAL, acts), After(o, INITIAL, longer);
      s'.Of(t).Holding? && s'.reader == s.reader && s'.ticks == s.ticks + 2 &&
      s'.written == s.written + [x] && s'.mem.valid && IsWhole(s'.mem.data, x)
  {
    longer := Take(o, acts, Invalidate(t, x));
    longer := Take(o, longer, CountUp(t));
    longer := StoreAll(o, longer, t);
    longer := Take(o, longer, Fence(t));
    longer := Take(o, longer, CountAgain(t));
    longer := Take(o, longer, Validate(t));
    longer := Take(o, longer, Return(t));
  }

  lemma {:induction false} ManyCalls(o: Ordering, acts: seq<Action>, t: Thread, x: Sample, n: nat)
    returns (longer: seq<Action>)
    requires IsRun(o, INITIAL, acts) && After(o, INITIAL, acts).Of(t).Holding?
    ensures IsRun(o, INITIAL, longer)
    ensures var s, s' := After(o, INITIAL, acts), After(o, INITIAL, longer);
      s'.Of(t).Holding? && s'.reader == s.reader && s'.ticks == s.ticks + 2 * n &&
      s.written <= s'.written && (forall i :: |s.written| <= i < |s'.written| ==> s'.written[i] == x) &&
      (n > 0 ==> s'.mem.valid && IsWhole(s'.mem.data, x))
  {
    longer := acts;
    if n > 0 {
      var shorter := ManyCalls(o, acts, t, x, n - 1);
      longer := OneCall(o, shorter, t, x);
    }
  }

  /** The reader loads the fields of places `lo` to `hi`, in the order of the struct, undisturbed. */
  lemma CopyPlaces(o: Ordering, acts: seq<Action>, lo: nat, hi: nat) returns (longer: seq<Action>)
    requires IsRun(o, INITIAL, acts) && lo <= hi <= 9
    requires var r := After(o, INITIAL, acts).reader; r.Copying? && forall f :: f in r.copy <==> Place(f) < lo
    ensures IsRun(o, INITIAL, longer)
    ensures var s, s' := After(o, INITIAL, acts), After(o, INITIAL, longer);
      s'.reader.Copying? && s' == s.(reader := s.reader.(copy := s'.reader.copy)) &&
      (forall f :: f in s'.reader.copy <==> Place(f) < hi) &&
      (forall f :: Place(f) < lo ==> s'.reader.copy[f] == s.reader.copy[f]) &&
      forall f :: lo <= Place(f) < hi ==> s'.reader.copy[f] == s.mem.data(f)
  {
    var s := After(o, INITIAL, acts);
    longer := acts;
    for i := lo to hi
      invariant IsRun(o, INITIAL, longer)
      invariant var s' := After(o, INITIAL, longer);
        s'.reader.Copying? && s' == s.(reader := s.reader.(copy := s'.reader.copy)) &&
        (forall f :: f in s'.reader.copy <==> Place(f) < i) &&
        (forall f :: Place(f) < lo ==> s'.reader.copy[f] == s.reader.copy[f]) &&
        forall f :: lo <= Place(f) < i ==> s'.reader.copy[f] == s.mem.data(f)
    {
      longer := Take(o, longer, CopyField(FieldAt(i)));
    }
  }

  // ---------- the conditions are needed ----------

  const FIRST: Sample := Sample(0, 0, 1, 0)
  const LATER: Sample := Sample(7, 9, 2, 0)

  /** One sample published by the serial thread, which keeps the mutex. */
  lemma FirstPublished(o: Ordering) returns (acts: seq<Action>)
    ensures IsRun(o, INITIAL, acts)
    ensures var s := After(o, INITIAL, acts);
      s.serial.Holding? && s.reader.Ready? && s.ticks == 2 && s.mem.count == 2 && s.written == [FIRST] &&
      s.mem.valid && IsWhole(s.mem.data, FIRST)
  {
    acts := [];
    acts := Take(o, acts, Lock(Serial));
    acts := OneCall(o, acts, Serial, FIRST);
    ReachableInv(o, acts);
  }

  /** The copy takes its first field from one sample and its last from the other. */
  ghost predicate Mixed(copy: map<Field, int>) {
    ClockSec in copy && ReceiveNSec in copy && copy[ClockSec] == 1 && copy[ReceiveNSec] == 9
  }

  /** The reader accepted, with `gap` increments between its two loads of `count`, a copy that no call
      wrote. */
  ghost predicate AcceptsTorn(s: State, gap: nat) {
    s.reader.Accepted? && s.reader.to - s.reader.since == gap &&
    forall i :: 0 <= i < |s.written| ==> !IsWholeCopy(s.reader.taken, s.written[i])
  }

  lemma MixedIsTorn(s: State, gap: nat)
    requires s.reader.Accepted? && s.reader.to - s.reader.since == gap && Mixed(s.reader.taken)
    requires forall i :: 0 <= i < |s.written| ==> s.written[i] == FIRST || s.written[i] == LATER
    ensures AcceptsTorn(s, gap)
  {
    forall i | 0 <= i < |s.written| ensures !IsWholeCopy(s.reader.taken, s.written[i]) {
      assert Stored(s.written[i], ClockSec) != 1 || Stored(s.written[i], ReceiveNSec) != 9;
    }
  }

  /** The reader has loaded `count` and the first field, which came from the first sample. */
  ghost predicate Stalled(s: State) {
    s.reader.Copying? && !s.reader.validRead && (forall f :: f in s.reader.copy <==> Place(f) < 1) &&
    s.reader.copy[ClockSec] == 1
  }

  lemma Stall(o: Ordering, acts: seq<Action>) returns (longer: seq<Action>)
    requires IsRun(o, INITIAL, acts)
    requires var s := After(o, INITIAL, acts); s.reader.Ready? && s.mem.data(ClockSec) == 1
    ensures IsRun(o, INITIAL, longer)
    ensures var s, s' := After(o, INITIAL, acts), After(o, INITIAL, longer);
      s' == s.(reader := s'.reader) && Stalled(s') && s'.reader.count0 == s.mem.count && s'.reader.from == s.ticks
  {
    longer := Take(o, acts, ReadCount);
    longer := CopyPlaces(o, longer, 0, 1);
  }

  /** A stalled reader that goes on when the later sample is in place and `count` reads the same. */
  lemma GoOn(o: Ordering, acts: seq<Action>, gap: nat) returns (longer: seq<Action>)
    requires IsRun(o, INITIAL, acts)
    requires var s := After(o, INITIAL, acts);
      Stalled(s) && s.mem.valid && IsWhole(s.mem.data, LATER) && s.mem.count == s.reader.count0 &&
      s.ticks - s.reader.from == gap &&
      forall i :: 0 <= i < |s.written| ==> s.written[i] == FIRST || s.written[i] == LATER
    ensures IsRun(o, INITIAL, longer) && AcceptsTorn(After(o, INITIAL, longer), gap)
  {
    longer := CopyPlaces(o, acts, 1, 9);
    assert Mixed(After(o, INITIAL, longer).reader.copy);
    hide IsRun, After, Stored, Mixed, Place;
    longer := Conclude(o, longer);
    MixedIsTorn(After(o, INITIAL, longer), gap);
  }

  /** A complete copy, checked undisturbed. */
  lemma Conclude(o: Ordering, acts: seq<Action>) returns (longer: seq<Action>)
    requires IsRun(o, INITIAL, acts)
    requires var s := After(o, INITIAL, acts);
      s.reader.Copying? && !s.reader.validRead && (forall f :: Place(f) < 9 ==> f in s.reader.copy) &&
      s.mem.valid && s.mem.count == s.reader.count0
    ensures IsRun(o, INITIAL, longer)
    ensures var s := After(o, INITIAL, acts);
      After(o, INITIAL, longer) == s.(reader := Accepted(s.reader.copy, s.reader.from, s.ticks))
  {
    assert forall f :: Place(f) < 9;
    longer := Take(o, acts, CopyValid);
    longer := Take(o, longer, Recheck);
  }

  /** The bound in `AcceptedCopyIsOneSample` cannot be dropped under any ordering: a reader that is
      stalled inside its copy for exactly 2^31 calls accepts a copy that mixes two samples. */
  lemma WrapAdmitsTornCopy(o: Ordering) returns (acts: seq<Action>)
    ensures IsRun(o, INITIAL, acts) && AcceptsTorn(After(o, INITIAL, acts), U32)
  {
    acts := FirstPublished(o);
    acts := Stall(o, acts);
    acts := ManyCalls(o, acts, Serial, LATER, 0x8000_0000);
    assert After(o, INITIAL, acts).mem.count == 2 by { ReachableInv(o, acts); }
    acts := GoOn(o, acts, U32);
  }

  /** The writer's half of `LateIncrementAdmitsTornCopy`: the later sample is stored and `valid`
      raised, the second increment still to come. */
  lemma RaisedEarly(o: Ordering, acts: seq<Action>) returns (longer: seq<Action>)
    requires !o.incrementBeforeValid && IsRun(o, INITIAL, acts)
    requires var w := After(o, INITIAL, acts).serial; w.Filling? && w.begun && w.done == {} && w.sample == LATER
    ensures IsRun(o, INITIAL, longer)
    ensures var s, s' := After(o, INITIAL, acts), After(o, INITIAL, longer);
      s'.mem.valid && IsWhole(s'.mem.data, LATER) && s'.mem.count == s.mem.count &&
      s'.ticks == s.ticks && s'.written == s.written && s'.reader == s.reader
  {
    longer := StoreAll(o, acts, Serial);
    longer := Take(o, longer, Fence(Serial));
    longer := Take(o, longer, Validate(Serial));
  }

  /** If the second increment may trail the raising of `valid`, a copy begun in the middle of a call
      is accepted before that call is counted, whatever else is ordered. */
  lemma LateIncrementAdmitsTornCopy(o: Ordering) returns (acts: seq<Action>)
    requires !o.incrementBeforeValid
    ensures IsRun(o, INITIAL, acts) && AcceptsTorn(After(o, INITIAL, acts), 0)
  {
    acts := FirstPublished(o);
    acts := Take(o, acts, Invalidate(Serial, LATER));
    acts := Take(o, acts, CountUp(Serial));
    acts := Stall(o, acts);
    acts := RaisedEarly(o, acts);
    acts := GoOn(o, acts, 0);
  }

  /** A reader that has copied the struct up to and including `valid`. */
  lemma CopyUpToValid(o: Ordering) returns (acts: seq<Action>)
    requires !o.validLast
    ensures IsRun(o, INITIAL, acts)
    ensures var s := After(o, INITIAL, acts);
      s.serial.Holding? && s.written == [FIRST] && s.mem.count == 2 && s.ticks == 2 &&
      s.reader.Copying? && s.reader.validRead && s.reader.valid && s.reader.count0 == 2 && s.reader.from == 2 &&
      (forall f :: f in s.reader.copy <==> Place(f) < VALID_PLACE) && s.reader.copy[ClockSec] == 1
  {
    acts := FirstPublished(o);
    acts := Take(o, acts, ReadCount);
    acts := CopyPlaces(o, acts, 0, VALID_PLACE);
    acts := Take(o, acts, CopyValid);
  }

  /** If data may be stored ahead of the first increment, a reader that copies the struct in its own
      order, `valid` before the nanoseconds, accepts a copy that the next call has begun to overwrite. */
  lemma EarlyStoreAdmitsTornCopy(o: Ordering) returns (acts: seq<Action>)
    requires !o.incrementFirst && !o.validLast
    ensures IsRun(o, INITIAL, acts) && AcceptsTorn(After(o, INITIAL, acts), 0)
  {
    acts := CopyUpToValid(o);
    acts := Take(o, acts, Invalidate(Serial, LATER));
    acts := StoreAll(o, acts, Serial);
    acts := CopyPlaces(o, acts, VALID_PLACE, 9);
    acts := Take(o, acts, Recheck);
    MixedIsTorn(After(o, INITIAL, acts), 0);
  }

  /** A copy accepted within one round of `count` is one written sample. */
  ghost predicate AcceptsWhole(s: State) {
    s.reader.Accepted? && s.reader.to - s.reader.since < U32 ==>
      exists i :: 0 <= i < |s.written| && IsWholeCopy(s.reader.taken, s.written[i])
  }

  ghost predicate SafeOn(o: Ordering, acts: seq<Action>) {
    IsRun(o, INITIAL, acts) ==> AcceptsWhole(After(o, INITIAL, acts))
  }

  /** The exact condition: every interleaving is safe iff the second increment is ordered before the
      raising of `valid`, and either the first increment before the data or the reader's load of
      `valid` after it. Stores in program order are safe for every reader; the two barriers alone,
      on a processor that reorders stores, are not. */
  lemma SafeIff(o: Ordering)
    ensures (forall acts :: SafeOn(o, acts)) <==> o.incrementBeforeValid && (o.incrementFirst || o.validLast)
  {
    if Safe(o) {
      forall acts ensures SafeOn(o, acts) {
        if IsRun(o, INITIAL, acts) {
          AcceptedCopyIsOneSample(o, acts);
        }
      }
    } else {
      var acts;
      if !o.incrementBeforeValid {
        acts := LateIncrementAdmitsTornCopy(o);
      } else {
        acts := EarlyStoreAdmitsTornCopy(o);
      }
      assert !SafeOn(o, acts);
    }
  }
}
