/** The response accounting of `poll_responses`, as a function of the counter readings alone. */
module CounterReadings {

  /** What is added to the response ring over a series of readings: the rises, except that the
      first nonzero reading only sets the base and a drop (the counter was reset) adds nothing. */
  ghost function Added(readings: seq<nat>): nat {
    if |readings| < 2 then 0
    else
      var prev, cur := readings[|readings| - 2], readings[|readings| - 1];
      Added(readings[..|readings| - 1]) + if prev != 0 && cur >= prev then cur - prev else 0
  }

  /** The cumulative total reported: the latest reading not below the baseline, minus the baseline. */
  ghost function Reported(baseline: nat, readings: seq<nat>): nat {
    if readings == [] then 0
    else
      var cur := readings[|readings| - 1];
      if cur >= baseline then cur - baseline else Reported(baseline, readings[..|readings| - 1])
  }

  ghost predicate NonDecreasing(baseline: nat, readings: seq<nat>) {
    (forall i :: 0 <= i < |readings| ==> baseline <= readings[i]) &&
    forall i, j :: 0 <= i <= j < |readings| ==> readings[i] <= readings[j]
  }

  ghost predicate FirstNonzero(readings: seq<nat>, f: nat) {
    f < |readings| && readings[f] != 0 && forall i :: 0 <= i < f ==> readings[i] == 0
  }

  /** With a counter that only rises, the additions telescope to last minus first nonzero reading. */
  lemma {:induction false} AddedTelescopes(baseline: nat, readings: seq<nat>, f: nat)
    requires NonDecreasing(baseline, readings) && FirstNonzero(readings, f)
    ensures Added(readings) == readings[|readings| - 1] - readings[f]
  {
    var front := readings[..|readings| - 1];
    if f < |front| {
      AddedTelescopes(baseline, front, f);
    } else {
      AddedZeros(front);
    }
  }

  lemma {:induction false} AddedZeros(readings: seq<nat>)
    requires forall i :: 0 <= i < |readings| ==> readings[i] == 0
    ensures Added(readings) == 0
  {
    if |readings| >= 2 {
      AddedZeros(readings[..|readings| - 1]);
    }
  }

  /** ... so the ring never holds more than the cumulative total that is reported beside it. */
  lemma {:induction false} AddedWithinReported(baseline: nat, readings: seq<nat>)
    requires NonDecreasing(baseline, readings)
    ensures Added(readings) <= Reported(baseline, readings)
  {
    if |readings| >= 2 {
      var front := readings[..|readings| - 1];
      AddedWithinReported(baseline, front);
      assert readings[|readings| - 2] <= readings[|readings| - 1];
    }
  }

  /** A reset adds nothing, whatever came before. */
  lemma ResetAddsNothing(readings: seq<nat>, cur: nat)
    requires readings != [] && cur < readings[|readings| - 1]
    ensures Added(readings + [cur]) == Added(readings)
  {
    assert (readings + [cur])[..|readings|] == readings;
  }

  lemma AddedSnoc(readings: seq<nat>, cur: nat)
    ensures Added(readings + [cur]) == Added(readings) +
      if readings != [] && readings[|readings| - 1] != 0 && cur >= readings[|readings| - 1]
      then cur - readings[|readings| - 1] else 0
  {
    assert (readings + [cur])[..|readings|] == readings;
  }

  lemma ReportedSnoc(baseline: nat, readings: seq<nat>, cur: nat)
    ensures Reported(baseline, readings + [cur]) ==
      if cur >= baseline then cur - baseline else Reported(baseline, readings)
  {
    assert (readings + [cur])[..|readings|] == readings;
  }
}
