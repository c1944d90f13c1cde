/** Rate limits: from a pointwise spacing of event times to a bound on every half-open span. */
module Spans {

  ghost predicate NonDecreasing(times: seq<int>) {
    forall i, j :: 0 <= i <= j < |times| ==> times[i] <= times[j]
  }

  /** The events that fall into [from, from + length). */
  ghost function InSpan(times: seq<int>, from: int, length: int): set<int> {
    set i | 0 <= i < |times| && from <= times[i] < from + length
  }

  lemma {:induction false} SizeOfRange(s: set<int>, lo: int, hi: int)
    requires lo <= hi && forall i :: i in s ==> lo <= i < hi
    ensures |s| <= hi - lo
    decreases hi - lo
  {
    if lo == hi {
      assert s == {};
    } else {
      SizeOfRange(s - {hi - 1}, lo, hi - 1);
      assert |s| <= |s - {hi - 1}| + 1;
    }
  }

  lemma {:induction false} Least(s: set<int>, some: int) returns (m: int)
    requires some in s
    ensures m in s && forall i :: i in s ==> m <= i
    decreases |s|
  {
    m := some;
    if other :| other in s && other < some {
      m := Least(s - {some}, other);
      assert forall i :: i in s ==> i == some || i in s - {some};
    }
  }

  /** If any `n + 1` consecutive events stretch over at least `length`, no span of that length
      holds more than `n` of them. */
  lemma SpanBound(times: seq<int>, n: nat, from: int, length: int)
    requires NonDecreasing(times)
    requires forall i :: 0 <= i && i + n < |times| ==> times[i + n] - times[i] >= length
    ensures |InSpan(times, from, length)| <= n
  {
    var s := InSpan(times, from, length);
    if some :| some in s {
      var first := Least(s, some);
      forall i | i in s ensures i < first + n {
        if first + n < |times| {
          assert times[first + n] - times[first] >= length;
        }
      }
      SizeOfRange(s, first, first + n);
    }
  }
}
