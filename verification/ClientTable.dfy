/** The per-client table of ntp_nic_monitor.c: open addressing over 1024 slots, expiry without
    tombstones. For any hash function, an expiry-free run refines a plain map; with expiry, requests
    are conserved. */
module ClientTable {
  import opened Wrappers

  datatype Key = Key(ifindex: int, ip: int)

  datatype Stat = Stat(req: nat, valid: nat, last: int)

  datatype Entry = Entry(used: bool, key: Key, stat: Stat)

  const SLOTS: int := 1024
  const TTL: int := 86400
  const EMPTY: Entry := Entry(false, Key(0, 0), Stat(0, 0, 0))

  type Table = s: seq<Entry> | |s| == 1024 witness seq(1024, _ => EMPTY)

  /** The `i`-th slot probed from hash `h`, and which probe meets slot `j`. */
  function SlotAt(h: nat, i: nat): (j: nat)
    ensures j < 1024
  {
    (h + i) % 1024
  }

  function Distance(h: nat, j: nat): (i: nat)
    requires j < 1024
    ensures i < 1024 && SlotAt(h, i) == j
  {
    (j - h) % 1024
  }

  lemma ProbesDiffer(h: nat, i: nat, i': nat)
    requires i < 1024 && i' < 1024 && SlotAt(h, i) == SlotAt(h, i')
    ensures i == i'
  {
  }

  /** Probing starts at the hash modulo the size and goes up by one, round the end. */
  lemma ProbesGoUp(h: nat, i: nat)
    ensures SlotAt(h, 0) == h % 1024 && SlotAt(h, i + 1) == (SlotAt(h, i) + 1) % 1024
  {
  }

  predicate Stops(t: Table, key: Key, j: nat)
    requires j < 1024
  {
    !t[j].used || t[j].key == key
  }

  /** `client_get`: the first probed slot that is free or holds the key. */
  function Probe(t: Table, h: nat, key: Key, i: nat): (r: Option<nat>)
    requires i <= 1024
    ensures r.Some? ==> r.value < 1024 && Stops(t, key, r.value) && i <= Distance(h, r.value) &&
                        forall k :: i <= k < Distance(h, r.value) ==> !Stops(t, key, SlotAt(h, k))
    ensures r.None? ==> forall k :: i <= k < 1024 ==> !Stops(t, key, SlotAt(h, k))
    decreases 1024 - i
  {
    if i == 1024 then None
    else if Stops(t, key, SlotAt(h, i)) then
      ProbesDiffer(h, i, Distance(h, SlotAt(h, i)));
      Some(SlotAt(h, i))
    else Probe(t, h, key, i + 1)
  }

  function Bumped(s: Stat, isValid: bool, now: int): Stat {
    Stat(s.req + 1, s.valid + (if isValid then 1 else 0), now)
  }

  /** The client part of `account`. */
  function Touch(t: Table, h: nat, key: Key, isValid: bool, now: int): Table {
    match Probe(t, h, key, 0)
    case None => t
    case Some(j) => t[j := Entry(true, key, Bumped(if t[j].used then t[j].stat else Stat(0, 0, now), isValid, now))]
  }

  predicate Aged(e: Entry, now: int) { e.used && now - e.stat.last > TTL }

  /** `clients_expire` */
  function Expire(t: Table, now: int): Table {
    seq(1024, j requires 0 <= j < 1024 => if Aged(t[j], now) then t[j].(used := false) else t[j])
  }

  datatype Event = Request(key: Key, isValid: bool, now: int) | Sweep(now: int)

  function Step(hash: Key -> nat, t: Table, ev: Event): Table {
    match ev
    case Request(key, isValid, now) => Touch(t, hash(key), key, isValid, now)
    case Sweep(now) => Expire(t, now)
  }

  function Run(hash: Key -> nat, evs: seq<Event>): Table {
    if evs == [] then seq(1024, _ => EMPTY)
    else Step(hash, Run(hash, evs[..|evs| - 1]), evs[|evs| - 1])
  }

  lemma RunSnoc(hash: Key -> nat, evs: seq<Event>, ev: Event)
    ensures Run(hash, evs + [ev]) == Step(hash, Run(hash, evs), ev)
  {
    assert (evs + [ev])[..|evs|] == evs;
  }

  // ---------- expiry-free runs refine a map ----------

  /** The specification: a map of at most 1024 keys; a new key beyond that is dropped. */
  function ModelStep(m: map<Key, Stat>, ev: Event): map<Key, Stat>
    requires ev.Request?
  {
    if ev.key in m then m[ev.key := Bumped(m[ev.key], ev.isValid, ev.now)]
    else if |m| < 1024 then m[ev.key := Bumped(Stat(0, 0, ev.now), ev.isValid, ev.now)]
    else m
  }

  predicate ExpiryFree(evs: seq<Event>) {
    forall i :: 0 <= i < |evs| ==> evs[i].Request?
  }

  function Model(evs: seq<Event>): map<Key, Stat>
    requires ExpiryFree(evs)
  {
    if evs == [] then map[] else ModelStep(Model(evs[..|evs| - 1]), evs[|evs| - 1])
  }

  /** No used slot has a free slot or its own key before it on its probe path. */
  ghost predicate NoHole(hash: Key -> nat, t: Table, j: nat, i: nat)
    requires j < 1024
  {
    t[j].used && i < Distance(hash(t[j].key), j) ==>
      t[SlotAt(hash(t[j].key), i)].used && t[SlotAt(hash(t[j].key), i)].key != t[j].key
  }

  ghost predicate Chained(hash: Key -> nat, t: Table) {
    forall j: nat, i: nat :: j < 1024 ==> NoHole(hash, t, j, i)
  }

  ghost predicate Unique(t: Table) {
    forall j, j' :: 0 <= j < 1024 && 0 <= j' < 1024 && t[j].used && t[j'].used && t[j].key == t[j'].key ==> j == j'
  }

  /** A chained table holds every key at most once, and every stored key is found again. */
  lemma ChainedFindsKeys(hash: Key -> nat, t: Table)
    requires Chained(hash, t)
    ensures Unique(t)
    ensures forall j: nat :: j < 1024 && t[j].used ==> Probe(t, hash(t[j].key), t[j].key, 0) == Some(j)
  {
    forall j: nat, j': nat | j < 1024 && j' < 1024 && t[j].used && t[j'].used && t[j].key == t[j'].key
      ensures j == j'
    {
      var h := hash(t[j].key);
      assert NoHole(hash, t, j', Distance(h, j)) && NoHole(hash, t, j, Distance(h, j'));
    }
    forall j: nat | j < 1024 && t[j].used ensures Probe(t, hash(t[j].key), t[j].key, 0) == Some(j) {
      StoredKeyIsFound(hash, t, j);
    }
  }

  lemma StoredKeyIsFound(hash: Key -> nat, t: Table, j: nat)
    requires Chained(hash, t) && j < 1024 && t[j].used
    ensures Probe(t, hash(t[j].key), t[j].key, 0) == Some(j)
  {
    hide SlotAt, Distance, Probe;
    var h, key := hash(t[j].key), t[j].key;
    var r := Probe(t, h, key, 0);
    assert Stops(t, key, SlotAt(h, Distance(h, j)));
    var d := Distance(h, r.value);
    assert SlotAt(h, d) == r.value && Stops(t, key, r.value);
    assert NoHole(hash, t, j, d);
    assert Distance(h, j) <= d <= Distance(h, j);
  }

  /** The table and the map hold the same keys with the same statistics. */
  ghost predicate Represents(t: Table, m: map<Key, Stat>) {
    (forall j :: 0 <= j < 1024 && t[j].used ==> t[j].key in m && m[t[j].key] == t[j].stat) &&
    (forall k :: k in m ==> Stored(t, k)) &&
    Used(t, 1024) == |m|
  }

  ghost predicate Stored(t: Table, k: Key) {
    exists j :: 0 <= j < 1024 && t[j].used && t[j].key == k
  }

  /** How many of the first `n` slots are in use. */
  ghost function Used(t: Table, n: nat): nat
    requires n <= 1024
  {
    if n == 0 then 0 else Used(t, n - 1) + if t[n - 1].used then 1 else 0
  }

  lemma {:induction false} UsedBound(t: Table, n: nat)
    requires n <= 1024
    ensures Used(t, n) <= n
    ensures Used(t, n) == n <==> forall j :: 0 <= j < n ==> t[j].used
  {
    if n > 0 {
      UsedBound(t, n - 1);
    }
  }

  lemma {:induction false} UsedUpdate(t: Table, j: nat, e: Entry, n: nat)
    requires j < 1024 && n <= 1024 && e.used
    ensures Used(t[j := e], n) == Used(t, n) + if j < n && !t[j].used then 1 else 0
  {
    if n > 0 {
      UsedUpdate(t, j, e, n - 1);
    }
  }

  lemma TouchKeepsChains(hash: Key -> nat, t: Table, key: Key, isValid: bool, now: int)
    requires Chained(hash, t)
    ensures Chained(hash, Touch(t, hash(key), key, isValid, now))
  {
    var t' := Touch(t, hash(key), key, isValid, now);
    var r := Probe(t, hash(key), key, 0);
    if r.Some? {
      forall j: nat, i: nat | j < 1024 ensures NoHole(hash, t', j, i) {
        ChainAfterWrite(hash, t, key, t', r.value, j, i);
      }
    }
  }

  /** One slot's chain after a write to the slot the probe stopped at. */
  lemma ChainAfterWrite(hash: Key -> nat, t: Table, key: Key, t': Table, at: nat, j: nat, i: nat)
    requires Chained(hash, t) && Probe(t, hash(key), key, 0) == Some(at) && j < 1024
    requires t' == t[at := t'[at]] && t'[at].used && t'[at].key == key
    ensures NoHole(hash, t', j, i)
  {
    hide SlotAt, Distance, Probe;
    assert NoHole(hash, t, j, i);
    if t'[j].used && i < Distance(hash(t'[j].key), j) {
      var h := hash(t'[j].key);
      var p := SlotAt(h, i);
      assert Stops(t, key, at);
      if j == at {
        assert !Stops(t, key, p);
      }
    }
  }

  /** A request for a stored key. */
  lemma HitRefines(t: Table, t': Table, m: map<Key, Stat>, j: nat, key: Key, stat: Stat)
    requires Represents(t, m) && Unique(t) && j < 1024 && t[j].used && t[j].key == key
    requires t' == t[j := Entry(true, key, stat)]
    ensures Represents(t', m[key := stat])
  {
    UsedUpdate(t, j, t'[j], 1024);
    assert m[key := stat].Keys == m.Keys;
    assert |m[key := stat].Keys| == |m[key := stat]|;
    forall k | k in m[key := stat] ensures Stored(t', k) {
      assert Stored(t, k);
      var i :| 0 <= i < 1024 && t[i].used && t[i].key == k;
      assert t'[i].used && t'[i].key == k;
    }
  }

  /** A request for a new key, put into a free slot. */
  lemma MissRefines(t: Table, t': Table, m: map<Key, Stat>, j: nat, key: Key, stat: Stat)
    requires Represents(t, m) && j < 1024 && !t[j].used && key !in m
    requires t' == t[j := Entry(true, key, stat)]
    ensures Represents(t', m[key := stat])
  {
    UsedUpdate(t, j, t'[j], 1024);
    forall k | k in m[key := stat] ensures Stored(t', k) {
      if k == key {
        assert t'[j].used && t'[j].key == k;
      } else {
        assert Stored(t, k);
        var i :| 0 <= i < 1024 && t[i].used && t[i].key == k;
        assert t'[i].used && t'[i].key == k;
      }
    }
  }

  lemma TouchRefines(hash: Key -> nat, t: Table, m: map<Key, Stat>, ev: Event)
    requires Chained(hash, t) && Represents(t, m) && ev.Request?
    ensures Represents(Step(hash, t, ev), ModelStep(m, ev))
  {
    hide Probe, SlotAt, Distance, Chained;
    ChainedFindsKeys(hash, t);
    UsedBound(t, 1024);
    var h := hash(ev.key);
    var r := Probe(t, h, ev.key, 0);
    match r
    case None =>
      FullOfOthers(t, h, ev.key);
      assert ev.key in m ==> Stored(t, ev.key);
    case Some(j) =>
      var t' := Step(hash, t, ev);
      assert Stops(t, ev.key, j);
      if t[j].used {
        HitRefines(t, t', m, j, ev.key, t'[j].stat);
      } else {
        assert ev.key in m ==> Stored(t, ev.key);
        MissRefines(t, t', m, j, ev.key, t'[j].stat);
      }
  }

  /** NULL is returned only by a table that is full of other keys. */
  lemma FullOfOthers(t: Table, h: nat, key: Key)
    requires Probe(t, h, key, 0).None?
    ensures forall j :: 0 <= j < 1024 ==> t[j].used && t[j].key != key
  {
    forall j | 0 <= j < 1024 ensures t[j].used && t[j].key != key {
      assert !Stops(t, key, SlotAt(h, Distance(h, j)));
    }
  }

  /** For every hash function and every run without expiry: the table is the map, each key sits in
      one slot and is found there, and a request is dropped only by a table full of other keys. */
  lemma {:induction false} RefinesMap(hash: Key -> nat, evs: seq<Event>)
    requires ExpiryFree(evs)
    ensures var t := Run(hash, evs);
      Represents(t, Model(evs)) && Chained(hash, t) && Unique(t)
  {
    if evs == [] {
      EmptyTable(hash);
    } else {
      var front, ev := evs[..|evs| - 1], evs[|evs| - 1];
      RefinesMap(hash, front);
      TouchRefines(hash, Run(hash, front), Model(front), ev);
      TouchKeepsChains(hash, Run(hash, front), ev.key, ev.isValid, ev.now);
      ChainedFindsKeys(hash, Run(hash, evs));
    }
  }

  /** The plain statistics of one client: how many requests, how many of them valid, and when the latest
      came. */
  ghost function RequestsOf(evs: seq<Event>, key: Key): nat {
    if evs == [] then 0
    else RequestsOf(evs[..|evs| - 1], key) + if evs[|evs| - 1].Request? && evs[|evs| - 1].key == key then 1 else 0
  }

  ghost function ValidOf(evs: seq<Event>, key: Key): nat {
    if evs == [] then 0
    else
      var ev := evs[|evs| - 1];
      ValidOf(evs[..|evs| - 1], key) + if ev.Request? && ev.key == key && ev.isValid then 1 else 0
  }

  ghost function LatestOf(evs: seq<Event>, key: Key): int {
    if evs == [] then 0
    else if evs[|evs| - 1].Request? && evs[|evs| - 1].key == key then evs[|evs| - 1].now
    else LatestOf(evs[..|evs| - 1], key)
  }

  /** In every expiry-free run the map holds exactly those statistics, of at most 1024 clients; a client
      that asked is missing only once 1024 others are there. */
  lemma {:induction false} StatisticsAreCounts(evs: seq<Event>, key: Key)
    requires ExpiryFree(evs)
    ensures |Model(evs)| <= 1024
    ensures key in Model(evs) ==>
      Model(evs)[key].req == RequestsOf(evs, key) > 0 && Model(evs)[key].valid == ValidOf(evs, key) &&
      Model(evs)[key].last == LatestOf(evs, key)
    ensures key !in Model(evs) && RequestsOf(evs, key) > 0 ==> |Model(evs)| == 1024
    ensures RequestsOf(evs, key) == 0 ==> ValidOf(evs, key) == 0
  {
    if evs != [] {
      var front, ev := evs[..|evs| - 1], evs[|evs| - 1];
      StatisticsAreCounts(front, key);
      StepSize(Model(front), ev);
    }
  }

  lemma StepSize(m: map<Key, Stat>, ev: Event)
    requires ev.Request? && |m| <= 1024
    ensures |m| <= |ModelStep(m, ev)| <= 1024 && m.Keys <= ModelStep(m, ev).Keys
    ensures ev.key !in ModelStep(m, ev) ==> |m| == 1024 && ModelStep(m, ev) == m
    ensures |m| == 1024 ==> ModelStep(m, ev).Keys == m.Keys
  {
    var m' := ModelStep(m, ev);
    if ev.key in m {
      assert m'.Keys == m.Keys;
      assert |m'.Keys| == |m'| && |m.Keys| == |m|;
    }
  }

  /** A sweep frees exactly the clients last heard more than a day ago and changes nothing else. */
  lemma SweepIs(t: Table, now: int, j: nat)
    requires j < 1024
    ensures var e, e' := t[j], Expire(t, now)[j];
      e'.key == e.key && e'.stat == e.stat && (e'.used <==> e.used && now - e.stat.last <= 86400)
  {
  }

  lemma EmptyTable(hash: Key -> nat)
    ensures var t := Run(hash, []); Represents(t, map[]) && Chained(hash, t) && Unique(t)
  {
    var t := Run(hash, []);
    NoneUsed(t, 1024);
  }

  lemma {:induction false} NoneUsed(t: Table, n: nat)
    requires n <= 1024 && forall j :: 0 <= j < 1024 ==> !t[j].used
    ensures Used(t, n) == 0
  {
    if n > 0 {
      NoneUsed(t, n - 1);
    }
  }

  // ---------- expiry ----------

  /** Sweeping keeps every chain intact exactly when no surviving entry has an aged one before it on
      its probe path. */
  lemma SweepKeepsChains(hash: Key -> nat, t: Table, now: int)
    requires Chained(hash, t)
    ensures Chained(hash, Expire(t, now)) <==>
      forall j: nat, i: nat :: j < 1024 && t[j].used && !Aged(t[j], now) && i < Distance(hash(t[j].key), j) ==>
        !Aged(t[SlotAt(hash(t[j].key), i)], now)
  {
    hide SlotAt, Distance;
    var t' := Expire(t, now);
    forall j: nat, i: nat | j < 1024
      ensures NoHole(hash, t', j, i) <==>
        (t[j].used && !Aged(t[j], now) && i < Distance(hash(t[j].key), j) ==> !Aged(t[SlotAt(hash(t[j].key), i)], now))
    {
      assert NoHole(hash, t, j, i);
    }
  }

  /** In any table without duplicates, the next request of a stored key finds its slot exactly when
      every slot before it on the probe path is in use. */
  lemma FoundAgainIff(t: Table, h: nat, j: nat)
    requires Unique(t) && j < 1024 && t[j].used
    ensures Probe(t, h, t[j].key, 0) == Some(j) <==>
      forall i: nat :: i < Distance(h, j) ==> t[SlotAt(h, i)].used
  {
    hide SlotAt, Distance, Probe;
    var key := t[j].key;
    var r := Probe(t, h, key, 0);
    assert Stops(t, key, SlotAt(h, Distance(h, j)));
    if r == Some(j) {
      forall i: nat | i < Distance(h, j) ensures t[SlotAt(h, i)].used {
        assert !Stops(t, key, SlotAt(h, i));
      }
    } else {
      var d := Distance(h, r.value);
      assert SlotAt(h, d) == r.value && Stops(t, key, r.value);
      assert d != Distance(h, j) && d <= Distance(h, j);
    }
  }

  /** Wherever the key is stored, every slot before it on the probe path is in use. */
  ghost predicate PathInUse(t: Table, h: nat, key: Key) {
    forall j: nat, i: nat :: j < 1024 && t[j].used && t[j].key == key && i < Distance(h, j) ==> t[SlotAt(h, i)].used
  }

  /** One slot per key survives a request exactly when the path to the key's slot is in use; otherwise
      the request opens a second slot for a stored key. */
  lemma UniqueAfterTouchIff(t: Table, h: nat, key: Key, isValid: bool, now: int)
    requires Unique(t)
    ensures Unique(Touch(t, h, key, isValid, now)) <==> PathInUse(t, h, key)
  {
    hide SlotAt, Distance, Probe;
    var r, t' := Probe(t, h, key, 0), Touch(t, h, key, isValid, now);
    if j: nat :| j < 1024 && t[j].used && t[j].key == key {
      FoundAgainIff(t, h, j);
      if r.None? {
        FullOfOthers(t, h, key);
        assert false;
      } else {
        assert Stops(t, key, r.value);
        assert t'[r.value].used && t'[r.value].key == key && (j != r.value ==> t'[j] == t[j]);
        OneSlotOnly(t, h, key, j);
      }
    } else if r.Some? {
      assert Stops(t, key, r.value);
    }
  }

  lemma OneSlotOnly(t: Table, h: nat, key: Key, j: nat)
    requires Unique(t) && j < 1024 && t[j].used && t[j].key == key
    ensures PathInUse(t, h, key) <==> forall i: nat :: i < Distance(h, j) ==> t[SlotAt(h, i)].used
  {
  }

  lemma SweepKeepsUnique(t: Table, now: int)
    requires Unique(t)
    ensures Unique(Expire(t, now))
  {
  }

  ghost predicate UniqueAt(hash: Key -> nat, evs: seq<Event>, n: nat) {
    n <= |evs| ==> Unique(Run(hash, evs[..n]))
  }

  /** If request `n` is one, the path to its client is in use when it comes. */
  ghost predicate MeetsPath(hash: Key -> nat, evs: seq<Event>, n: nat) {
    n < |evs| && evs[n].Request? ==> PathInUse(Run(hash, evs[..n]), hash(evs[n].key), evs[n].key)
  }

  /** One more event keeps one slot per key iff it is a sweep or meets a path in use. */
  lemma NextStaysUnique(hash: Key -> nat, evs: seq<Event>, n: nat)
    requires n < |evs| && Unique(Run(hash, evs[..n]))
    ensures Unique(Run(hash, evs[..n + 1])) <==> MeetsPath(hash, evs, n)
  {
    hide PathInUse, Unique, Touch, Expire;
    var t, ev := Run(hash, evs[..n]), evs[n];
    assert evs[..n + 1] == evs[..n] + [ev];
    RunSnoc(hash, evs[..n], ev);
    match ev
    case Request(key, isValid, now) => UniqueAfterTouchIff(t, hash(key), key, isValid, now);
    case Sweep(now) => SweepKeepsUnique(t, now);
  }

  lemma {:induction false} UniqueUpTo(hash: Key -> nat, evs: seq<Event>, n: nat)
    requires n <= |evs| && forall i: nat :: MeetsPath(hash, evs, i)
    ensures Unique(Run(hash, evs[..n]))
  {
    if n == 0 {
      EmptyTable(hash);
    } else {
      UniqueUpTo(hash, evs, n - 1);
      assert MeetsPath(hash, evs, n - 1);
      NextStaysUnique(hash, evs, n - 1);
    }
  }

  /** A run with any sweeps has one slot per key all along exactly if every request meets a path in
      use. */
  lemma RunStaysUniqueIff(hash: Key -> nat, evs: seq<Event>)
    ensures (forall n: nat :: UniqueAt(hash, evs, n)) <==> (forall n: nat :: MeetsPath(hash, evs, n))
  {
    hide Unique, PathInUse;
    if forall n: nat :: MeetsPath(hash, evs, n) {
      forall n: nat ensures UniqueAt(hash, evs, n) {
        if n <= |evs| {
          UniqueUpTo(hash, evs, n);
        }
      }
    }
    if forall n: nat :: UniqueAt(hash, evs, n) {
      forall n: nat ensures MeetsPath(hash, evs, n) {
        if n < |evs| {
          assert UniqueAt(hash, evs, n);
          var next := n + 1;
          assert UniqueAt(hash, evs, next);
          NextStaysUnique(hash, evs, n);
        }
      }
    }
  }

  // ---------- the failing run ----------

  /** Two clients whose probes start at the same slot; the first ages out, the second asks again. */
  function Collision(a: Key, b: Key): seq<Event> {
    [Request(a, true, 0), Request(b, true, 90000), Sweep(90001), Request(b, true, 90002)]
  }

  lemma SameStart(h: nat, h': nat, i: nat)
    requires h % 1024 == h' % 1024
    ensures SlotAt(h, i) == SlotAt(h', i)
  {
  }

  /** The table once both have asked: `a` at the start of the path, `b` right behind. */
  lemma BothStored(hash: Key -> nat, a: Key, b: Key) returns (t: Table)
    requires a != b && hash(a) % 1024 == hash(b) % 1024
    ensures t == Run(hash, [Request(a, true, 0), Request(b, true, 90000)])
    ensures var p, q := SlotAt(hash(b), 0), SlotAt(hash(b), 1);
      p != q && t[p] == Entry(true, a, Stat(1, 1, 0)) && t[q] == Entry(true, b, Stat(1, 1, 90000)) &&
      forall j :: 0 <= j < 1024 && j != p && j != q ==> !t[j].used
  {
    SameStart(hash(a), hash(b), 0);
    var p, q := SlotAt(hash(b), 0), SlotAt(hash(b), 1);
    assert p != q by { if p == q { ProbesDiffer(hash(b), 0, 1); } }
    var t0: Table := Run(hash, []);
    var first, second := Request(a, true, 0), Request(b, true, 90000);
    RunSnoc(hash, [], first);
    RunSnoc(hash, [first], second);
    assert [] + [first] == [first] && [first] + [second] == [first, second];
    hide Run, SlotAt, Distance;
    assert Probe(t0, hash(a), a, 0) == Some(p);
    var t1 := Run(hash, [first]);
    assert t1 == t0[p := Entry(true, a, Stat(1, 1, 0))];
    assert Probe(t1, hash(b), b, 1) == Some(q);
    t := Run(hash, [first, second]);
    assert t == t1[q := Entry(true, b, Stat(1, 1, 90000))];
  }

  /** With expiry, one slot per key is lost whatever the hash function: for every two clients that
      collide there is a run after which the second occupies two slots. */
  lemma SweepCanDuplicate(hash: Key -> nat, a: Key, b: Key)
    requires a != b && hash(a) % 1024 == hash(b) % 1024
    ensures !Unique(Run(hash, Collision(a, b)))
  {
    var t2 := BothStored(hash, a, b);
    var h := hash(b);
    var p, q := SlotAt(h, 0), SlotAt(h, 1);
    var evs := [Request(a, true, 0), Request(b, true, 90000)];
    var sweep, again := Sweep(90001), Request(b, true, 90002);
    RunSnoc(hash, evs, sweep);
    RunSnoc(hash, evs + [sweep], again);
    assert evs + [sweep] + [again] == Collision(a, b);
    var t3 := Expire(t2, 90001);
    hide Run, SlotAt;
    assert Unique(t3) && !t3[p].used && t3[q].used && t3[q].key == b;
    assert Distance(h, q) == 1 by { ProbesDiffer(h, Distance(h, q), 1); }
    assert !PathInUse(t3, h, b);
    UniqueAfterTouchIff(t3, h, b, true, 90002);
  }

  function Xor32(x: nat, y: nat): nat
    requires x < 0x1_0000_0000 && y < 0x1_0000_0000
  {
    (x as bv32 ^ y as bv32) as nat
  }

  /** The hash of `client_get`, in 32-bit unsigned arithmetic. */
  function MonitorHash(k: Key): nat {
    Xor32(k.ifindex * 2654435761 % 0x1_0000_0000, k.ip % 0x1_0000_0000)
  }

  lemma XorValues()
    ensures Xor32(2654435761, 1) == 2654435760 && Xor32(2654435761, 1025) == 2654436784
  {
    assert (2654435761 as bv32 ^ 1 as bv32) as nat == 2654435760;
    assert (2654435761 as bv32 ^ 1025 as bv32) as nat == 2654436784;
  }

  /** Under the code's own hash, addresses 1 and 1025 on interface 1 both start at slot 432. */
  lemma MonitorCollides()
    ensures MonitorHash(Key(1, 1)) % 1024 == 432 == MonitorHash(Key(1, 1025)) % 1024
  {
    hide Xor32;
    XorValues();
  }

  /** So the failing run is one of the code's. */
  lemma MonitorCanDuplicate()
    ensures !Unique(Run(MonitorHash, Collision(Key(1, 1), Key(1, 1025))))
  {
    hide *;
    MonitorCollides();
    SweepCanDuplicate(MonitorHash, Key(1, 1), Key(1, 1025));
  }

  // ---------- conservation, with or without expiry ----------

  /** Requests recorded in the entries in use among the first `n` slots. */
  ghost function Recorded(t: Table, n: nat): nat
    requires n <= 1024
  {
    if n == 0 then 0 else Recorded(t, n - 1) + if t[n - 1].used then t[n - 1].stat.req else 0
  }

  /** Requests recorded in entries that a sweep frees. */
  ghost function Freed(t: Table, now: int, n: nat): nat
    requires n <= 1024
  {
    if n == 0 then 0 else Freed(t, now, n - 1) + if Aged(t[n - 1], now) then t[n - 1].stat.req else 0
  }

  ghost function Requests(evs: seq<Event>): nat {
    if evs == [] then 0 else Requests(evs[..|evs| - 1]) + if evs[|evs| - 1].Request? then 1 else 0
  }

  /** Requests the table could not take. */
  ghost function Dropped(hash: Key -> nat, evs: seq<Event>): nat {
    if evs == [] then 0
    else
      var front, ev := evs[..|evs| - 1], evs[|evs| - 1];
      Dropped(hash, front) +
      if ev.Request? && Probe(Run(hash, front), hash(ev.key), ev.key, 0).None? then 1 else 0
  }

  /** Requests forgotten by sweeps. */
  ghost function Expired(hash: Key -> nat, evs: seq<Event>): nat {
    if evs == [] then 0
    else
      var front, ev := evs[..|evs| - 1], evs[|evs| - 1];
      Expired(hash, front) + if ev.Sweep? then Freed(Run(hash, front), ev.now, 1024) else 0
  }

  lemma {:induction false} RecordedUpdate(t: Table, j: nat, e: Entry, n: nat)
    requires j < 1024 && n <= 1024 && e.used
    ensures Recorded(t[j := e], n) ==
      Recorded(t, n) + if j < n then e.stat.req - (if t[j].used then t[j].stat.req else 0) else 0
  {
    if n > 0 {
      RecordedUpdate(t, j, e, n - 1);
    }
  }

  lemma {:induction false} RecordedAfterSweep(t: Table, now: int, n: nat)
    requires n <= 1024
    ensures Recorded(Expire(t, now), n) + Freed(t, now, n) == Recorded(t, n)
  {
    if n > 0 {
      RecordedAfterSweep(t, now, n - 1);
    }
  }

  lemma {:induction false} EmptyRecordsNothing(t: Table, n: nat)
    requires n <= 1024 && forall j :: 0 <= j < 1024 ==> !t[j].used
    ensures Recorded(t, n) == 0
  {
    if n > 0 {
      EmptyRecordsNothing(t, n - 1);
    }
  }

  /** For every run: every request is recorded in a live entry, or was in one that expired, or was
      dropped by a full table. */
  lemma {:induction false} RequestsAreConserved(hash: Key -> nat, evs: seq<Event>)
    ensures Recorded(Run(hash, evs), 1024) + Expired(hash, evs) + Dropped(hash, evs) == Requests(evs)
  {
    if evs == [] {
      EmptyRecordsNothing(Run(hash, evs), 1024);
    } else {
      var front, ev := evs[..|evs| - 1], evs[|evs| - 1];
      RequestsAreConserved(hash, front);
      var t := Run(hash, front);
      match ev
      case Request(key, _, _) =>
        var r := Probe(t, hash(key), key, 0);
        if r.Some? {
          RecordedUpdate(t, r.value, Step(hash, t, ev)[r.value], 1024);
        }
      case Sweep(now) => RecordedAfterSweep(t, now, 1024);
    }
  }

  // ---------- the table as it runs ----------

  class Clients {
    const slots: array<Entry>
    const hash: Key -> nat
    ghost var log: seq<Event>

    ghost predicate Valid()
      reads this, slots
    {
      slots.Length == 1024 && slots[..] == Run(hash, log)
    }

    constructor (hash: Key -> nat)
      ensures Valid() && log == [] && this.hash == hash && fresh(slots)
    {
      this.hash := hash;
      slots := new Entry[1024](_ => EMPTY);
      log := [];
    }

    /** `client_get`: the slot of the key, claiming a free one if needed; -1 when the table is full. */
    method Get(key: Key, now: int) returns (slot: int)
      requires slots.Length == 1024
      modifies slots
      ensures slot == (var r := Probe(old(slots[..]), hash(key), key, 0); if r.Some? then r.value else -1)
      ensures slots[..] ==
        if slot < 0 || old(slots[..])[slot].used then old(slots[..])
        else old(slots[..])[slot := Entry(true, key, Stat(0, 0, now))]
    {
      var h := hash(key);
      var i := 0;
      while i < SLOTS
        invariant 0 <= i <= 1024
        invariant slots[..] == old(slots[..])
        invariant Probe(slots[..], h, key, 0) == Probe(slots[..], h, key, i)
      {
        slot := SlotAt(h, i);
        if !slots[slot].used {
          slots[slot] := Entry(true, key, Stat(0, 0, now));
          return;
        }
        if slots[slot].key == key {
          return;
        }
        i := i + 1;
      }
      slot := -1;
    }

    /** The client part of `account`. */
    method Record(key: Key, isValid: bool, now: int) returns (recorded: bool)
      requires Valid()
      modifies this, slots
      ensures Valid() && log == old(log) + [Request(key, isValid, now)]
      ensures recorded <==> Probe(Run(hash, old(log)), hash(key), key, 0).Some?
    {
      hide Run, Probe;
      ghost var before := slots[..];
      var c := Get(key, now);
      recorded := c >= 0;
      if recorded {
        var s := slots[c].stat;
        s := s.(req := s.req + 1);
        if isValid {
          s := s.(valid := s.valid + 1);
        }
        s := s.(last := now);
        slots[c] := slots[c].(stat := s);
      }
      assert slots[..] == Step(hash, before, Request(key, isValid, now));
      RunSnoc(hash, log, Request(key, isValid, now));
      log := log + [Request(key, isValid, now)];
    }

    /** `clients_expire` */
    method ExpireAll(now: int)
      requires Valid()
      modifies this, slots
      ensures Valid() && log == old(log) + [Sweep(now)]
    {
      ghost var before := slots[..];
      for i := 0 to SLOTS
        modifies slots
        invariant forall j :: 0 <= j < i ==> slots[j] == if Aged(before[j], now) then before[j].(used := false) else before[j]
        invariant forall j :: i <= j < 1024 ==> slots[j] == before[j]
      {
        if slots[i].used && now - slots[i].stat.last > TTL {
          slots[i] := slots[i].(used := false);
        }
      }
      assert slots[..] == Expire(before, now);
      RunSnoc(hash, log, Sweep(now));
      log := log + [Sweep(now)];
    }
  }
}
