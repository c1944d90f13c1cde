/** Dotted decimal text: its octets, the validator, and printing (src/nmcli.c). */
module DottedText {

  // ---------- dotted text ----------

  predicate IsDigit(c: char) { '0' <= c <= '9' }

  function DigitOf(c: char): nat
    requires IsDigit(c)
  {
    c as int - '0' as int
  }

  predicate AllDigits(p: string) { forall i :: 0 <= i < |p| ==> IsDigit(p[i]) }

  function Value(p: string): nat
    requires AllDigits(p)
  {
    if p == [] then 0 else 10 * Value(p[..|p| - 1]) + DigitOf(p[|p| - 1])
  }

  /** The text split at its dots; always at least one part. */
  function Parts(s: string): (ps: seq<string>)
    ensures |ps| >= 1
  {
    if s == [] then [[]]
    else
      var ps, c := Parts(s[..|s| - 1]), s[|s| - 1];
      if c == '.' then ps + [[]] else ps[|ps| - 1 := ps[|ps| - 1] + [c]]
  }

  predicate IsOctet(p: string) { p != [] && AllDigits(p) && Value(p) <= 255 }

  /** What the validator promises to accept: two to four octets, of any length and with leading zeros. */
  predicate IsDotted(s: string) {
    var ps := Parts(s);
    2 <= |ps| <= 4 && forall k :: 0 <= k < |ps| ==> IsOctet(ps[k])
  }

  ghost function Joined(ps: seq<string>): string
    requires ps != []
  {
    if |ps| == 1 then ps[0] else Joined(ps[..|ps| - 1]) + "." + ps[|ps| - 1]
  }

  /** The parts are the text between the dots: joined by dots they are the text, and none holds a dot. */
  lemma {:induction false} PartsJoin(s: string)
    ensures Joined(Parts(s)) == s && forall k :: 0 <= k < |Parts(s)| ==> '.' !in Parts(s)[k]
  {
    if s != [] {
      var front, c := s[..|s| - 1], s[|s| - 1];
      PartsJoin(front);
      assert s == front + [c];
      var ps, qs := Parts(front), Parts(s);
      if c == '.' {
        assert qs[..|qs| - 1] == ps && qs[|qs| - 1] == [];
        assert s == front + "." + [];
      } else {
        assert qs[..|qs| - 1] == ps[..|ps| - 1] && qs[|qs| - 1] == ps[|ps| - 1] + [c];
        hide Parts;
        JoinedGrows(ps, qs, c);
      }
    }
  }

  lemma JoinedGrows(ps: seq<string>, qs: seq<string>, c: char)
    requires |ps| == |qs| >= 1 && qs[..|qs| - 1] == ps[..|ps| - 1] && qs[|qs| - 1] == ps[|ps| - 1] + [c]
    ensures Joined(qs) == Joined(ps) + [c]
  {
    if |ps| > 1 {
      var head := Joined(ps[..|ps| - 1]) + ".";
      assert head + (ps[|ps| - 1] + [c]) == head + ps[|ps| - 1] + [c];
    }
  }

  /** Reading more text only adds parts and lengthens the last one. */
  lemma {:induction false} PartsGrow(s: string, i: nat)
    requires i <= |s|
    ensures var ps, qs := Parts(s[..i]), Parts(s);
      |ps| <= |qs| && (forall k :: 0 <= k < |ps| - 1 ==> qs[k] == ps[k]) && ps[|ps| - 1] <= qs[|ps| - 1]
    decreases |s| - i
  {
    if i == |s| {
      assert s[..i] == s;
    } else {
      assert s[..i + 1][..i] == s[..i];
      PartsGrow(s, i + 1);
    }
  }

  lemma {:induction false} ValueGrows(p: string, q: string)
    requires AllDigits(q) && p <= q
    ensures AllDigits(p) && Value(p) <= Value(q)
    decreases |q|
  {
    if p == q {
    } else {
      ValueGrows(p, q[..|q| - 1]);
    }
  }

  /** The parts read so far are fine, the last one perhaps still empty. */
  ghost predicate GoodSoFar(ps: seq<string>) {
    1 <= |ps| <= 4 && (forall k :: 0 <= k < |ps| - 1 ==> IsOctet(ps[k])) &&
    AllDigits(ps[|ps| - 1]) && Value(ps[|ps| - 1]) <= 255
  }

  /** Every prefix of a dotted text is good so far. */
  lemma DottedPrefix(s: string, i: nat)
    requires i <= |s| && IsDotted(s)
    ensures GoodSoFar(Parts(s[..i]))
  {
    PartsGrow(s, i);
    var ps, qs := Parts(s[..i]), Parts(s);
    assert IsOctet(qs[|ps| - 1]);
    ValueGrows(ps[|ps| - 1], qs[|ps| - 1]);
  }

  lemma ValueSnoc(p: string, c: char)
    requires AllDigits(p) && IsDigit(c)
    ensures AllDigits(p + [c]) && Value(p + [c]) == 10 * Value(p) + DigitOf(c)
  {
    assert (p + [c])[..|p|] == p;
  }

  lemma GoodDot(ps: seq<string>)
    requires GoodSoFar(ps)
    ensures GoodSoFar(ps + [[]]) <==> ps[|ps| - 1] != [] && |ps| < 4
  {
    var qs := ps + [[]];
    assert qs[|ps| - 1] == ps[|ps| - 1];
    if ps[|ps| - 1] != [] && |ps| < 4 {
      forall k | 0 <= k < |qs| - 1 ensures IsOctet(qs[k]) {
      }
    }
    assert GoodSoFar(qs) ==> IsOctet(qs[|ps| - 1]);
  }

  lemma GoodChar(ps: seq<string>, c: char)
    requires GoodSoFar(ps)
    ensures var last := ps[|ps| - 1];
      GoodSoFar(ps[|ps| - 1 := last + [c]]) <==> IsDigit(c) && 10 * Value(last) + DigitOf(c) <= 255
  {
    var last := ps[|ps| - 1];
    if IsDigit(c) {
      ValueSnoc(last, c);
    } else {
      assert (last + [c])[|last|] == c;
    }
    hide Value, IsOctet;
  }

  /** One character more: the parts stay good exactly when the code goes on. */
  lemma GoodStep(s: string, i: nat)
    requires i < |s| && GoodSoFar(Parts(s[..i]))
    ensures var ps, c := Parts(s[..i]), s[i];
      GoodSoFar(Parts(s[..i + 1])) <==>
        if c == '.' then ps[|ps| - 1] != [] && |ps| < 4
        else IsDigit(c) && 10 * Value(ps[|ps| - 1]) + DigitOf(c) <= 255
  {
    var ps := Parts(s[..i]);
    assert s[..i + 1][..i] == s[..i];
    if s[i] == '.' {
      GoodDot(ps);
    } else {
      GoodChar(ps, s[i]);
    }
    hide GoodSoFar, Value;
  }

  lemma LastChar(s: string)
    requires s != []
    ensures var ps := Parts(s); ps[|ps| - 1] == [] <==> s[|s| - 1] == '.'
  {
  }

  /** `valid_ipv4` */
  method ValidIpv4(s: string) returns (ok: bool)
    ensures ok <==> IsDotted(s)
  {
    hide Parts, GoodSoFar, IsDotted;
    if s == [] {
      EmptyIsNotDotted();
      return false;
    }
    var seg, dots, i := 0, 0, 0;
    Start(s);
    while i < |s|
      invariant 0 <= i <= |s| && GoodSoFar(Parts(s[..i]))
      invariant |Parts(s[..i])| == dots + 1 && AllDigits(Parts(s[..i])[dots]) && seg == Value(Parts(s[..i])[dots])
    {
      GoodStep(s, i);
      Advance(s, i);
      if IsDotted(s) {
        DottedPrefix(s, i + 1);
      }
      if s[i] == '.' {
        if i == 0 || s[i - 1] == '.' || seg > 255 || dots + 1 > 3 {
          return false;
        }
        dots := dots + 1;
        seg := 0;
      } else if IsDigit(s[i]) {
        seg := seg * 10 + DigitOf(s[i]);
        if seg > 255 {
          return false;
        }
      } else {
        return false;
      }
      i := i + 1;
    }
    ok := dots >= 1 && seg <= 255 && IsDigit(s[|s| - 1]);
    Finish(s);
  }

  lemma EmptyIsNotDotted()
    ensures !IsDotted([])
  {
  }

  lemma Start(s: string)
    ensures Parts(s[..0]) == [[]] && GoodSoFar(Parts(s[..0]))
  {
  }

  /** How the scanner's variables follow the parts. */
  lemma Advance(s: string, i: nat)
    requires i < |s| && GoodSoFar(Parts(s[..i]))
    ensures var ps, qs, c := Parts(s[..i]), Parts(s[..i + 1]), s[i];
      (ps[|ps| - 1] == [] <==> i == 0 || s[i - 1] == '.') && |ps| <= 4 && Value(ps[|ps| - 1]) <= 255 &&
      (c == '.' ==> |qs| == |ps| + 1 && AllDigits(qs[|ps|]) && Value(qs[|ps|]) == 0) &&
      (IsDigit(c) ==> |qs| == |ps| && AllDigits(qs[|ps| - 1]) &&
                      Value(qs[|ps| - 1]) == 10 * Value(ps[|ps| - 1]) + DigitOf(c))
  {
    assert s[..i + 1][..i] == s[..i];
    var ps := Parts(s[..i]);
    if i > 0 {
      LastChar(s[..i]);
    }
    if IsDigit(s[i]) {
      ValueSnoc(ps[|ps| - 1], s[i]);
    }
  }

  lemma Finish(s: string)
    requires s != [] && GoodSoFar(Parts(s[..|s|]))
    ensures IsDotted(s) <==> |Parts(s[..|s|])| >= 2 && IsDigit(s[|s| - 1])
  {
    assert s[..|s|] == s;
    var ps := Parts(s);
    LastChar(s);
    if ps[|ps| - 1] != [] {
      LastOfPart(s);
    }
  }

  lemma LastOfPart(s: string)
    requires s != [] && s[|s| - 1] != '.'
    ensures var p := Parts(s)[|Parts(s)| - 1]; p != [] && p[|p| - 1] == s[|s| - 1]
  {
  }

  // ---------- addresses as numbers ----------

  /** Octet `k` of a text; missing ones count as zero. */
  ghost function Octet(s: string, k: nat): (v: nat)
    requires GoodSoFar(Parts(s))
    ensures v <= 255
  {
    var ps := Parts(s);
    if k >= |ps| then 0 else if k < |ps| - 1 then assert IsOctet(ps[k]); Value(ps[k]) else Value(ps[k])
  }

  /** The 32-bit number of a text. */
  ghost function Address(s: string): (a: nat)
    requires GoodSoFar(Parts(s))
    ensures a < 0x1_0000_0000
  {
    0x100_0000 * Octet(s, 0) + 0x1_0000 * Octet(s, 1) + 0x100 * Octet(s, 2) + Octet(s, 3)
  }

  lemma DottedIsGood(s: string)
    requires IsDotted(s)
    ensures GoodSoFar(Parts(s))
  {
    DottedPrefix(s, |s|);
    assert s[..|s|] == s;
  }

  lemma {:induction false} GoodPrefix(s: string, i: nat)
    requires i <= |s| && GoodSoFar(Parts(s))
    ensures GoodSoFar(Parts(s[..i]))
  {
    PartsGrow(s, i);
    var ps, qs := Parts(s[..i]), Parts(s);
    assert |ps| < |qs| ==> IsOctet(qs[|ps| - 1]);
    ValueGrows(ps[|ps| - 1], qs[|ps| - 1]);
    forall k | 0 <= k < |ps| - 1 ensures IsOctet(ps[k]) {
      assert qs[k] == ps[k];
    }
  }

  /** The four places after reading some parts: all but the last are stored. */
  ghost predicate Stored(v: seq<nat>, ps: seq<string>) {
    |v| == 4 && GoodSoFar(ps) &&
    forall k :: 0 <= k < 4 ==> v[k] == if k < |ps| - 1 then PartValue(ps, k) else 0
  }

  ghost function PartValue(ps: seq<string>, k: nat): nat
    requires GoodSoFar(ps) && k < |ps|
  {
    assert k < |ps| - 1 ==> IsOctet(ps[k]);
    Value(ps[k])
  }

  lemma StoreStart(s: string)
    requires GoodSoFar(Parts(s))
    ensures Stored([0, 0, 0, 0], Parts(s[..0])) && |Parts(s[..0])| == 1 && PartValue(Parts(s[..0]), 0) == 0
  {
  }

  lemma StoreStep(s: string, p: nat, v: seq<nat>)
    requires p < |s| && GoodSoFar(Parts(s)) && Stored(v, Parts(s[..p]))
    ensures var ps, qs := Parts(s[..p]), Parts(s[..p + 1]);
      var last := PartValue(ps, |ps| - 1);
      GoodSoFar(qs) &&
      if s[p] == '.' then
        |qs| == |ps| + 1 && Stored(v[|ps| - 1 := last], qs) && PartValue(qs, |ps|) == 0
      else
        |qs| == |ps| && IsDigit(s[p]) && Stored(v, qs) && PartValue(qs, |ps| - 1) == 10 * last + DigitOf(s[p])
  {
    GoodPrefix(s, p + 1);
    GoodStep(s, p);
    Advance(s, p);
    OldParts(s, p);
    hide Parts, GoodSoFar, Value, AllDigits, IsDigit, DigitOf, IsOctet;
  }

  lemma StoreEnd(s: string, v: seq<nat>)
    requires GoodSoFar(Parts(s)) && Stored(v, Parts(s[..|s|]))
    ensures var n := |Parts(s[..|s|])|;
      var w := v[n - 1 := PartValue(Parts(s[..|s|]), n - 1)];
      forall k :: 0 <= k < 4 ==> w[k] == Octet(s, k)
  {
    assert s[..|s|] == s;
    hide Parts, GoodSoFar, Value, AllDigits, IsOctet;
  }

  /** The octet loop shared by `valid_mask` and `nmcli_mask_to_prefix`: after the validator, the index
      never leaves the four places. */
  method ReadOctets(s: string) returns (v: seq<nat>)
    requires GoodSoFar(Parts(s))
    ensures |v| == 4 && forall k :: 0 <= k < 4 ==> v[k] == Octet(s, k)
  {
    hide Parts, GoodSoFar, Stored, PartValue, Octet;
    var octets := new nat[4](_ => 0);
    var seg, i, p := 0, 0, 0;
    assert octets[..] == [0, 0, 0, 0];
    StoreStart(s);
    while p < |s|
      invariant 0 <= p <= |s| && Stored(octets[..], Parts(s[..p]))
      invariant GoodSoFar(Parts(s[..p])) && |Parts(s[..p])| == i + 1 && 0 <= i < 4
      invariant seg == PartValue(Parts(s[..p]), i)
    {
      StoreStep(s, p, octets[..]);
      AtMostFour(s, p + 1);
      if s[p] == '.' {
        octets[i] := seg;
        i := i + 1;
        seg := 0;
      } else {
        seg := seg * 10 + DigitOf(s[p]);
      }
      p := p + 1;
    }
    StoreEnd(s, octets[..]);
    octets[i] := seg;
    v := octets[..];
  }

  lemma AtMostFour(s: string, p: nat)
    requires p <= |s| && GoodSoFar(Parts(s[..p]))
    ensures |Parts(s[..p])| <= 4
  {
  }

  /** Completed parts are not touched by the next character. */
  lemma OldParts(s: string, i: nat)
    requires i < |s|
    ensures var ps, qs := Parts(s[..i]), Parts(s[..i + 1]);
      |qs| >= |ps| && (forall k :: 0 <= k < |ps| - 1 ==> qs[k] == ps[k]) && (s[i] == '.' ==> qs[|ps| - 1] == ps[|ps| - 1])
  {
    assert s[..i + 1][..i] == s[..i];
  }

  // ---------- printing ----------

  function DigitChar(n: nat): (c: char)
    requires n < 10
    ensures IsDigit(c) && DigitOf(c) == n
  {
    '0' + n as char
  }

  /** `%u` */
  function Decimal(n: nat): (d: string)
    ensures d != [] && AllDigits(d) && Value(d) == n
  {
    if n < 10 then
      ValueSnoc([], DigitChar(n));
      assert [] + [DigitChar(n)] == [DigitChar(n)];
      [DigitChar(n)]
    else
      ValueSnoc(Decimal(n / 10), DigitChar(n % 10));
      Decimal(n / 10) + [DigitChar(n % 10)]
  }

  function Dotted(a: nat, b: nat, c: nat, d: nat): string {
    Decimal(a) + "." + Decimal(b) + "." + Decimal(c) + "." + Decimal(d)
  }

  /** Digits lengthen the last part. */
  lemma {:induction false} PartsOfDigits(s: string, d: string)
    requires AllDigits(d)
    ensures var ps := Parts(s); Parts(s + d) == ps[|ps| - 1 := ps[|ps| - 1] + d]
    decreases |d|
  {
    var ps, n := Parts(s), |d|;
    if n == 0 {
      assert s + d == s;
      assert ps[|ps| - 1] + d == ps[|ps| - 1];
    } else {
      var front, c := d[..n - 1], d[n - 1];
      PartsOfDigits(s, front);
      assert IsDigit(c);
      assert (s + d)[..|s + d| - 1] == s + front;
      assert (ps[|ps| - 1] + front) + [c] == ps[|ps| - 1] + d;
    }
  }

  lemma PartsOfDot(s: string)
    ensures Parts(s + ".") == Parts(s) + [[]]
  {
    assert (s + ".")[..|s|] == s;
  }

  lemma PartsOfDotted(a: nat, b: nat, c: nat, d: nat)
    ensures Parts(Dotted(a, b, c, d)) == [Decimal(a), Decimal(b), Decimal(c), Decimal(d)]
  {
    hide Parts, Decimal;
    var t0 := Decimal(a);
    FirstPart(t0);
    var t1 := t0 + "." + Decimal(b);
    NextPart(t0, Decimal(b));
    var t2 := t1 + "." + Decimal(c);
    NextPart(t1, Decimal(c));
    NextPart(t2, Decimal(d));
  }

  lemma FirstPart(d: string)
    requires AllDigits(d)
    ensures Parts(d) == [d]
  {
    PartsOfDigits("", d);
    assert "" + d == d;
  }

  lemma NextPart(s: string, d: string)
    requires AllDigits(d)
    ensures Parts(s + "." + d) == Parts(s) + [d]
  {
    PartsOfDot(s);
    PartsOfDigits(s + ".", d);
    hide Parts;
    assert [] + d == d;
  }

  /** Printing four octets gives a text the validator accepts, with those octets. */
  lemma DottedIsDotted(a: nat, b: nat, c: nat, d: nat)
    requires a <= 255 && b <= 255 && c <= 255 && d <= 255
    ensures var s := Dotted(a, b, c, d);
      IsDotted(s) && GoodSoFar(Parts(s)) && Address(s) == 0x100_0000 * a + 0x1_0000 * b + 0x100 * c + d
  {
    PartsOfDotted(a, b, c, d);
    hide Parts, Decimal, Dotted;
    DottedIsGood(Dotted(a, b, c, d));
  }
}
