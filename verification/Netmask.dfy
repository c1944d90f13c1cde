/** Netmasks and prefix lengths (src/nmcli.c). */
module Netmask {
  import opened DottedText

  function Combined(v: seq<nat>): nat
    requires |v| == 4
  {
    ((v[0] * 256 + v[1]) * 256 + v[2]) * 256 + v[3]
  }

  function Pow2(n: nat): (r: nat)
    ensures r > 0
  {
    if n == 0 then 1 else 2 * Pow2(n - 1)
  }

  /** The netmask of a prefix length: 2^32 - 2^(32 - p). */
  ghost function MaskOf(p: nat): (m: nat)
    requires p <= 32
    ensures m < 0x1_0000_0000
  {
    Pow2Of32();
    Pow2Grows(32 - p, 32);
    0x1_0000_0000 - Pow2(32 - p)
  }

  ghost predicate IsMask(m: nat) {
    exists p: nat :: p <= 32 && m == MaskOf(p)
  }

  lemma {:induction false} Pow2Grows(a: nat, b: nat)
    requires a <= b
    ensures Pow2(a) <= Pow2(b) && (a < b ==> 2 * Pow2(a) <= Pow2(b))
    decreases b
  {
    if a < b {
      Pow2Grows(a, b - 1);
    }
  }

  lemma Pow2Of32()
    ensures Pow2(31) == 0x8000_0000 && Pow2(32) == 0x1_0000_0000
  {
    assert Pow2(8) == 256;
    assert Pow2(16) == 65536;
    assert Pow2(24) == 0x100_0000;
    assert Pow2(31) == 0x8000_0000;
  }

  lemma MaskOfGrows(p: nat, q: nat)
    requires p < q <= 32
    ensures MaskOf(p) < MaskOf(q)
  {
    Pow2Grows(32 - q, 32 - p);
  }

  /** `m >> i` */
  function Top(m: nat, i: nat): nat {
    if i == 0 then m else Top(m, i - 1) / 2
  }

  lemma {:induction false} TopIsSmall(m: nat, i: nat)
    requires i <= 32 && m < 0x1_0000_0000
    ensures Top(m, i) < Pow2(32 - i)
  {
    if i == 0 {
      Pow2Of32();
    } else {
      TopIsSmall(m, i - 1);
      assert Pow2(33 - i) == 2 * Pow2(32 - i);
    }
  }

  /** The first `n` bits of a number are `ones` ones followed by zeros. */
  ghost predicate Leading(top: nat, n: nat, ones: nat) {
    ones <= n && top == Pow2(n) - Pow2(n - ones)
  }

  ghost predicate SomeLeading(top: nat, n: nat) {
    exists k: nat :: Leading(top, n, k)
  }

  /** Taking in one bit more. */
  lemma LeadingStep(top: nat, n: nat, ones: nat, next: nat)
    requires Leading(top, n, ones) && next / 2 == top
    ensures next % 2 == 0 ==> Leading(next, n + 1, ones)
    ensures next % 2 == 1 && ones == n ==> Leading(next, n + 1, n + 1)
    ensures next % 2 == 1 && ones < n ==> !SomeLeading(next, n + 1)
  {
    assert Pow2(n + 1 - ones) == 2 * Pow2(n - ones);
    if next % 2 == 1 && ones < n {
      var m := n + 1;
      forall k: nat ensures !Leading(next, m, k) {
        NoOtherRun(top, n, ones, next, k);
      }
    }
  }

  lemma NoOtherRun(top: nat, n: nat, ones: nat, next: nat, k: nat)
    requires Leading(top, n, ones) && next == 2 * top + 1 && ones < n
    ensures !Leading(next, n + 1, k)
  {
    if k <= n {
      assert Pow2(n + 1 - k) == 2 * Pow2(n - k);
    } else {
      Pow2Grows(0, n - ones);
    }
  }

  /** Dropping the last bit. */
  lemma LeadingBack(next: nat, n: nat)
    requires SomeLeading(next, n + 1)
    ensures SomeLeading(next / 2, n)
  {
    var k: nat :| Leading(next, n + 1, k);
    var j := if k <= n then k else n;
    assert k <= n ==> Pow2(n + 1 - k) == 2 * Pow2(n - k);
    assert Leading(next / 2, n, j);
  }

  /** If the whole number is a mask, every stretch of its top bits is ones followed by zeros. */
  lemma {:induction false} MaskIsLeading(p: nat, i: nat)
    requires p <= 32 && i <= 32
    ensures SomeLeading(Top(MaskOf(p), i), 32 - i)
  {
    if i == 0 {
      Pow2Of32();
      assert Leading(MaskOf(p), 32, p);
    } else {
      MaskIsLeading(p, i - 1);
      LeadingBack(Top(MaskOf(p), i - 1), 32 - i);
    }
  }

  /** The contiguity loop of `valid_mask`. */
  method Contiguous(m: nat) returns (ok: bool)
    requires m < 0x1_0000_0000
    ensures ok <==> IsMask(m)
  {
    hide Pow2, Top, Leading, SomeLeading, IsMask;
    var seenZero := false;
    ghost var ones := 0;
    var i := 31;
    NoBits(m);
    while i >= 0
      invariant -1 <= i <= 31
      invariant Leading(Top(m, i + 1), 31 - i, ones) && ones <= 31 - i && (seenZero <==> ones < 31 - i)
      decreases i
    {
      TopStep(m, i);
      LeadingStep(Top(m, i + 1), 31 - i, ones, Top(m, i));
      if Top(m, i) % 2 == 1 {
        if seenZero {
          NotMask(m, i);
          return false;
        }
        ones := 32 - i;
      } else {
        seenZero := true;
      }
      i := i - 1;
    }
    ok := true;
    WholeMask(m, ones);
  }

  lemma TopStep(m: nat, i: nat)
    ensures Top(m, i) / 2 == Top(m, i + 1)
  {
  }

  lemma NoBits(m: nat)
    requires m < 0x1_0000_0000
    ensures Leading(Top(m, 32), 0, 0)
  {
    TopIsSmall(m, 32);
  }

  lemma NotMask(m: nat, i: nat)
    requires i <= 31 && !SomeLeading(Top(m, i), 32 - i)
    ensures !IsMask(m)
  {
    if IsMask(m) {
      var p: nat :| p <= 32 && m == MaskOf(p);
      MaskIsLeading(p, i);
    }
  }

  lemma WholeMask(m: nat, ones: nat)
    requires Leading(Top(m, 0), 32, ones)
    ensures ones <= 32 && m == MaskOf(ones) && IsMask(m)
  {
    Pow2Of32();
  }

  lemma CombinedIsAddress(s: string, v: seq<nat>)
    requires GoodSoFar(Parts(s)) && |v| == 4 && forall k :: 0 <= k < 4 ==> v[k] == Octet(s, k)
    ensures Combined(v) == Address(s)
  {
    hide Octet;
  }

  /** `valid_mask` */
  method ValidMask(s: string) returns (ok: bool)
    ensures ok <==> IsDotted(s) && GoodSoFar(Parts(s)) && IsMask(Address(s))
  {
    hide IsDotted, GoodSoFar, Parts, IsMask, Address, Octet, Combined;
    ok := ValidIpv4(s);
    if ok {
      DottedIsGood(s);
      var v := ReadOctets(s);
      CombinedIsAddress(s, v);
      ok := Contiguous(Combined(v));
    }
  }

  /** The number of leading one bits, said by bounds: at least the mask of that length, below the mask
      one longer. */
  ghost predicate LeadingOnes(m: nat, ones: nat) {
    ones <= 32 && MaskOf(ones) <= m && (ones < 32 ==> m < MaskOf(ones + 1))
  }

  /** `nmcli_mask_to_prefix`, for any text whose parts are octets, valid mask or not. */
  method MaskToPrefix(mask: string) returns (ones: nat)
    requires GoodSoFar(Parts(mask))
    ensures LeadingOnes(Address(mask), ones)
    ensures IsMask(Address(mask)) ==> Address(mask) == MaskOf(ones)
  {
    hide GoodSoFar, Parts, IsMask, Address, Octet, Combined, LeadingOnes;
    var v := ReadOctets(mask);
    CombinedIsAddress(mask, v);
    ones := CountLeading(Combined(v));
    MaskHasItsOwnPrefix(Address(mask), ones);
  }

  /** The shift loop. */
  method CountLeading(whole: nat) returns (ones: nat)
    requires whole < 0x1_0000_0000
    ensures LeadingOnes(whole, ones)
  {
    hide LeadingOnes;
    ones := 0;
    var m := whole;
    while m >= 0x8000_0000
      invariant m < 0x1_0000_0000
      invariant forall k, l :: LeadingOnes(m, k) && l == ones + k ==> LeadingOnes(whole, l)
      decreases m
    {
      ghost var m' := 2 * m - 0x1_0000_0000;
      forall k: nat | LeadingOnes(m', k) ensures LeadingOnes(m, k + 1) {
        ShiftedLeading(m, k);
      }
      ones := ones + 1;
      m := (2 * m) % 0x1_0000_0000;
      assert m == m';
    }
    NoLeading(m);
  }

  lemma NoLeading(m: nat)
    requires m < 0x8000_0000
    ensures LeadingOnes(m, 0)
  {
    Pow2Of32();
  }

  /** Shifting a set top bit out shortens the leading run by one. */
  lemma ShiftedLeading(m: nat, k: nat)
    requires 0x8000_0000 <= m < 0x1_0000_0000 && LeadingOnes(2 * m - 0x1_0000_0000, k)
    ensures LeadingOnes(m, k + 1)
  {
    Pow2Of32();
    if k < 32 {
      assert Pow2(32 - k) == 2 * Pow2(31 - k);
      assert k < 31 ==> Pow2(31 - k) == 2 * Pow2(30 - k);
    }
  }

  lemma MaskHasItsOwnPrefix(m: nat, ones: nat)
    requires LeadingOnes(m, ones)
    ensures IsMask(m) ==> m == MaskOf(ones)
  {
    if IsMask(m) {
      var p: nat :| p <= 32 && m == MaskOf(p);
      hide MaskOf;
      if p < ones {
        MaskOfGrows(p, ones);
      } else if ones + 1 < p {
        MaskOfGrows(ones + 1, p);
      }
    }
  }

  /** `prefix_to_mask`: the shift of all ones in 32 bits, printed octet by octet. */
  method PrefixToMask(prefix: nat) returns (text: string)
    requires prefix <= 32
    ensures IsDotted(text) && GoodSoFar(Parts(text)) && Address(text) == MaskOf(prefix) && |text| <= 15
  {
    hide IsDotted, GoodSoFar, Parts, Address, Octet, Decimal, Pow2;
    var m := if prefix == 0 then 0 else (0xffff_ffff * Pow2(32 - prefix)) % 0x1_0000_0000;
    AllOnesShifted(prefix);
    OctetsOf(m);
    hide MaskOf;
    var a, b, c, d := m / 0x100_0000 % 256, m / 0x1_0000 % 256, m / 0x100 % 256, m % 256;
    text := Decimal(a) + "." + Decimal(b) + "." + Decimal(c) + "." + Decimal(d);
    assert text == Dotted(a, b, c, d);
    DottedIsDotted(a, b, c, d);
    ShortOctet(a); ShortOctet(b); ShortOctet(c); ShortOctet(d);
  }

  lemma ShortOctet(n: nat)
    requires n <= 255
    ensures |Decimal(n)| <= 3
  {
    hide Value, AllDigits, DigitChar;
    assert n >= 10 ==> |Decimal(n)| == |Decimal(n / 10)| + 1;
    assert n >= 100 ==> |Decimal(n / 10)| == |Decimal(n / 10 / 10)| + 1 == 2;
  }

  /** A 32-bit number is put together again from its octets. */
  lemma OctetsOf(m: nat)
    requires m < 0x1_0000_0000
    ensures 0x100_0000 * (m / 0x100_0000 % 256) + 0x1_0000 * (m / 0x1_0000 % 256) + 0x100 * (m / 0x100 % 256) + m % 256 == m
  {
    var x, y := m / 0x100, m / 0x1_0000;
    assert y == x / 256;
    assert m / 0x100_0000 == y / 256;
  }

  lemma AllOnesShifted(p: nat)
    requires p <= 32
    ensures (if p == 0 then 0 else (0xffff_ffff * Pow2(32 - p)) % 0x1_0000_0000) == MaskOf(p)
  {
    Pow2Of32();
    if p > 0 {
      Pow2Grows(32 - p, 31);
      var q := Pow2(32 - p);
      assert 0 < q <= 0x8000_0000;
      hide Pow2;
      TopMultiple(q);
    }
  }

  /** A multiple of 2^32 - 1, modulo 2^32. */
  lemma TopMultiple(q: nat)
    requires 0 < q <= 0x1_0000_0000
    ensures (0xffff_ffff * q) % 0x1_0000_0000 == 0x1_0000_0000 - q
  {
    assert 0xffff_ffff * q == 0x1_0000_0000 * (q - 1) + (0x1_0000_0000 - q);
  }

  /** Every accepted mask text survives the trip to its prefix and back, up to how it is written; the
      validator accepts the printed text. */
  method MaskRoundTrip(mask: string) returns (valid: bool, text: string)
    ensures valid <==> IsDotted(mask) && GoodSoFar(Parts(mask)) && IsMask(Address(mask))
    ensures valid ==> IsDotted(text) && GoodSoFar(Parts(text)) && IsMask(Address(text)) && Address(text) == Address(mask)
  {
    hide IsDotted, GoodSoFar, Parts, Address, LeadingOnes, MaskOf;
    valid := ValidMask(mask);
    text := mask;
    if valid {
      var p := MaskToPrefix(mask);
      Bound(Address(mask), p);
      text := PrefixToMask(p);
    }
  }

  lemma Bound(m: nat, ones: nat)
    requires LeadingOnes(m, ones)
    ensures ones <= 32
  {
  }

  /** Prefix to mask to prefix is the identity. */
  method PrefixRoundTrip(prefix: nat) returns (back: nat)
    requires prefix <= 32
    ensures back == prefix
  {
    hide IsDotted, GoodSoFar, Parts, Address;
    var text := PrefixToMask(prefix);
    back := MaskToPrefix(text);
    if prefix < back {
      MaskOfGrows(prefix, back);
    } else if back < prefix {
      MaskOfGrows(back, prefix);
    }
  }
}
