/** The sample rows of the NTP monitor page (src/ntpmon.c): a ring that keeps the newest 1441 parsed
    CSV rows, and the per-interface counter deltas over trailing windows. */
module CsvRing {
  import opened CInt

  const MAX_ROWS: nat := 1441

  /** One cumulative counter per interface, eth0 to eth3. */
  type Counters = s: seq<int> | |s| == 4 witness [0, 0, 0, 0]

  datatype Row = Row(t: int, hits: int, drops: int, cmdHits: int, cmdDrops: int, logDrops: int, eth: Counters)

  /** The page's windows in seconds: 1 m (with slack for a late sample), 1 h, 5 h and 24 h. */
  const WINDOWS: seq<int> := [90, 3600, 18000, 86400]

  function Newest(rows: seq<Row>): seq<Row> {
    if |rows| <= MAX_ROWS then rows else rows[|rows| - MAX_ROWS..]
  }

  function Slot(i: nat): (s: nat)
    ensures s < 1441
  {
    i % 1441
  }

  ghost predicate SlotShows(ring: seq<Row>, head: nat, rows: seq<Row>, i: nat)
    requires |ring| == 1441
  {
    i < |rows| ==> ring[Slot(head + i)] == rows[i]
  }

  /** The ring, read from its head, is the list `rows`. */
  ghost predicate Shows(ring: seq<Row>, head: nat, rows: seq<Row>) {
    |ring| == 1441 && head < 1441 && |rows| <= 1441 && forall i: nat :: SlotShows(ring, head, rows, i)
  }

  /** One more row, dropping the oldest of 1441. */
  function Pushed(rows: seq<Row>, r: Row): seq<Row> {
    if |rows| < 1441 then rows + [r] else rows[1..] + [r]
  }

  lemma PutRow(ring: seq<Row>, head: nat, rows: seq<Row>, r: Row)
    requires Shows(ring, head, rows)
    ensures Shows(ring[Slot(head + |rows|) := r], if |rows| < 1441 then head else Slot(head + 1), Pushed(rows, r))
  {
    var at := Slot(head + |rows|);
    var ring', head', rows' := ring[at := r], if |rows| < 1441 then head else Slot(head + 1), Pushed(rows, r);
    forall i: nat ensures SlotShows(ring', head', rows', i) {
      var next := if |rows| < 1441 then i else i + 1;
      assert SlotShows(ring, head, rows, next);
      if i < |rows'| {
        SlotAfterPut(head, |rows|, i);
      }
    }
  }

  /** Where the `i`-th row is found after a put, and that only the newest one is in the slot written. */
  lemma SlotAfterPut(head: nat, n: nat, i: nat)
    requires head < 1441 && n <= 1441 && i <= n && (n == 1441 ==> i < n)
    ensures n < 1441 ==> (Slot(head + i) == Slot(head + n) <==> i == n)
    ensures n == 1441 ==> Slot(Slot(head + 1) + i) == Slot(head + (i + 1)) && (Slot(head + (i + 1)) == Slot(head + n) <==> i + 1 == n)
  {
  }

  lemma NewestSnoc(rows: seq<Row>, r: Row)
    ensures Newest(rows + [r]) == Pushed(Newest(rows), r)
  {
  }

  method StoreRow(ring: array<Row>, head: nat, nrows: nat, r: Row, ghost rows: seq<Row>) returns (head': nat, nrows': nat)
    requires Shows(ring[..], head, rows) && nrows == |rows|
    modifies ring
    ensures Shows(ring[..], head', Pushed(rows, r)) && nrows' == |Pushed(rows, r)|
  {
    ghost var before := ring[..];
    PutRow(before, head, rows, r);
    var at := Slot(head + nrows);
    ring[at] := r;
    assert ring[..] == before[at := r];
    hide Shows;
    if nrows < MAX_ROWS {
      head', nrows' := head, nrows + 1;
    } else {
      head', nrows' := Slot(head + 1), nrows;
    }
  }

  /** The reading loop of `ntpmon_stats_json` over the rows that parse: the ring ends up holding exactly
      the newest 1441 of them, in order. */
  method LoadRows(parsed: seq<Row>) returns (ring: array<Row>, head: nat, nrows: nat)
    ensures fresh(ring) && nrows == |Newest(parsed)| && Shows(ring[..], head, Newest(parsed))
  {
    ring := new Row[MAX_ROWS](_ => Row(0, 0, 0, 0, 0, 0, [0, 0, 0, 0]));
    head, nrows := 0, 0;
    EmptyNewest(ring[..]);
    hide Newest, Slot, Shows, Pushed;
    assert parsed[..0] == [];
    for k := 0 to |parsed|
      invariant nrows == |Newest(parsed[..k])| && Shows(ring[..], head, Newest(parsed[..k]))
    {
      NewestSnoc(parsed[..k], parsed[k]);
      assert parsed[..k] + [parsed[k]] == parsed[..k + 1];
      head, nrows := StoreRow(ring, head, nrows, parsed[k], Newest(parsed[..k]));
    }
    assert parsed[..|parsed|] == parsed;
  }

  lemma EmptyNewest(ring: seq<Row>)
    requires |ring| == 1441
    ensures Newest([]) == [] && Shows(ring, 0, [])
  {
  }

  // ---------- deltas ----------

  predicate Inside(rows: seq<Row>, j: nat, window: int)
    requires j < |rows|
  {
    rows[|rows| - 1].t - rows[j].t <= window
  }

  /** Row `b` starts the longest run of rows, up to the newest, that lie inside the window. */
  ghost predicate IsBase(rows: seq<Row>, window: int, b: nat) {
    b < |rows| && (forall j: nat :: b <= j < |rows| ==> Inside(rows, j, window)) &&
    (b == 0 || !Inside(rows, b - 1, window))
  }

  /** Counter growth from row `b` to the newest, never negative. */
  function Growth(rows: seq<Row>, nic: nat, b: nat): int
    requires b < |rows| && nic < 4
  {
    Max(0, rows[|rows| - 1].eth[nic] - rows[b].eth[nic])
  }

  /** `eth_delta` */
  method EthDelta(ring: seq<Row>, head: nat, nrows: nat, nic: nat, window: int, ghost rows: seq<Row>)
    returns (v: int, ghost b: nat)
    requires Shows(ring, head, rows) && nrows == |rows| && nic < 4 && window >= 0
    ensures rows == [] ==> v == 0
    ensures rows != [] ==> IsBase(rows, window, b) && v == Growth(rows, nic, b)
  {
    b := 0;
    if nrows == 0 {
      return 0, 0;
    }
    assert SlotShows(ring, head, rows, nrows - 1);
    var last := ring[Slot(head + nrows - 1)];
    var base := 0;
    var j := nrows - 1;
    while j >= 0
      invariant -1 <= j < nrows
      invariant j < nrows - 1 ==> base == j + 1
      invariant forall i: nat :: j < i < nrows ==> Inside(rows, i, window)
      decreases j
    {
      assert SlotShows(ring, head, rows, j);
      var r := ring[Slot(head + j)];
      if last.t - r.t > window {
        break;
      }
      base := j;
      j := j - 1;
    }
    assert SlotShows(ring, head, rows, base);
    b := base;
    v := last.eth[nic] - ring[Slot(head + base)].eth[nic];
    if v < 0 {
      v := 0;
    }
  }

  ghost predicate TimesNonDecreasing(rows: seq<Row>) {
    forall i, j :: 0 <= i <= j < |rows| ==> rows[i].t <= rows[j].t
  }

  /** With nondecreasing timestamps the base is the oldest row inside the window. */
  lemma BaseIsOldestInside(rows: seq<Row>, window: int, b: nat)
    requires IsBase(rows, window, b) && TimesNonDecreasing(rows)
    ensures forall j: nat :: j < |rows| ==> (Inside(rows, j, window) <==> j >= b)
  {
    forall j: nat | j < b ensures !Inside(rows, j, window) {
      assert rows[j].t <= rows[b - 1].t;
    }
  }

  /** A wider window starts no later. */
  lemma WiderStartsEarlier(rows: seq<Row>, w: int, w': int, b: nat, b': nat)
    requires w <= w' && IsBase(rows, w, b) && IsBase(rows, w', b')
    ensures b' <= b
  {
    assert forall j: nat :: j < |rows| && Inside(rows, j, w) ==> Inside(rows, j, w');
  }

  ghost predicate CounterNonDecreasing(rows: seq<Row>, nic: nat)
    requires nic < 4
  {
    forall i, j :: 0 <= i <= j < |rows| ==> 0 <= rows[i].eth[nic] <= rows[j].eth[nic]
  }

  /** With a nondecreasing, nonnegative counter, a wider window never shows less, and none shows more
      than the newest total; so the 1 m, 1 h, 5 h and 24 h deltas are ordered. */
  lemma DeltasAreOrdered(rows: seq<Row>, nic: nat, w: int, w': int, b: nat, b': nat)
    requires nic < 4 && w <= w' && IsBase(rows, w, b) && IsBase(rows, w', b') && CounterNonDecreasing(rows, nic)
    ensures 0 <= Growth(rows, nic, b) <= Growth(rows, nic, b') <= rows[|rows| - 1].eth[nic]
  {
    WiderStartsEarlier(rows, w, w', b, b');
  }

  /** The four deltas the page shows for one interface, from the trailing 90 s, hour, 5 hours and day:
      for ordered timestamps and counters each is the growth since the oldest row inside its window,
      they are ordered, and none exceeds the total. */
  method EthDeltas(ring: seq<Row>, head: nat, nrows: nat, nic: nat, ghost rows: seq<Row>) returns (v: seq<int>)
    requires Shows(ring, head, rows) && nrows == |rows| && nic < 4
    ensures |v| == 4 && (rows == [] ==> v == [0, 0, 0, 0])
    ensures rows != [] ==>
      IsDelta(rows, nic, 90, v[0]) && IsDelta(rows, nic, 3600, v[1]) && IsDelta(rows, nic, 18000, v[2]) && IsDelta(rows, nic, 86400, v[3])
    ensures rows != [] && CounterNonDecreasing(rows, nic) ==>
      0 <= v[0] <= v[1] <= v[2] <= v[3] <= rows[|rows| - 1].eth[nic]
  {
    hide Shows;
    var v0, b0 := EthDelta(ring, head, nrows, nic, WINDOWS[0], rows);
    var v1, b1 := EthDelta(ring, head, nrows, nic, WINDOWS[1], rows);
    var v2, b2 := EthDelta(ring, head, nrows, nic, WINDOWS[2], rows);
    var v3, b3 := EthDelta(ring, head, nrows, nic, WINDOWS[3], rows);
    v := [v0, v1, v2, v3];
    if rows != [] && CounterNonDecreasing(rows, nic) {
      DeltasAreOrdered(rows, nic, 90, 3600, b0, b1);
      DeltasAreOrdered(rows, nic, 3600, 18000, b1, b2);
      DeltasAreOrdered(rows, nic, 18000, 86400, b2, b3);
    }
  }

  ghost predicate IsDelta(rows: seq<Row>, nic: nat, window: int, v: int)
    requires nic < 4
  {
    exists b: nat :: IsBase(rows, window, b) && v == Growth(rows, nic, b)
  }

  /** The growth is the difference of the two counters, or 0 if the counter fell. */
  lemma GrowthIs(rows: seq<Row>, nic: nat, b: nat)
    requires b < |rows| && nic < 4
    ensures var diff := rows[|rows| - 1].eth[nic] - rows[b].eth[nic];
      Growth(rows, nic, b) == if diff < 0 then 0 else diff
  {
  }
}
