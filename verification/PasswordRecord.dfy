/** The stored password record of src/auth.c: how it is printed, how it is parsed back, and when a
    password matches it. Strings are their bytes up to the terminating NUL. */
module PasswordRecord {
  import opened Sha256
  import opened Wrappers

  const PASSWORD_ROUNDS: nat := 100000
  const SALT_LEN: nat := 16
  const DOLLAR: Byte := 0x24
  const COLON: Byte := 0x3a
  /** "$5$rounds=" */
  const PREFIX: seq<Byte> := [0x24, 0x35, 0x24, 0x72, 0x6f, 0x75, 0x6e, 0x64, 0x73, 0x3d]

  // ---------- hexadecimal ----------

  function HexDigit(n: Byte): Byte {
    if n < 10 then 0x30 + n else 0x57 + n
  }

  function Hex(bytes: seq<Byte>): (h: seq<Byte>)
    ensures |h| == 2 * |bytes|
  {
    if bytes == [] then []
    else
      var b := bytes[|bytes| - 1];
      Hex(bytes[..|bytes| - 1]) + [HexDigit(b >> 4), HexDigit(b & 0x0f)]
  }

  lemma HexPairInjective(a: Byte, b: Byte)
    requires HexDigit(a >> 4) == HexDigit(b >> 4) && HexDigit(a & 0x0f) == HexDigit(b & 0x0f)
    ensures a == b
  {
  }

  lemma {:induction false} HexInjective(a: seq<Byte>, b: seq<Byte>)
    requires Hex(a) == Hex(b)
    ensures a == b
  {
    assert |a| == |b|;
    if a != [] {
      var ha, hb, n := Hex(a), Hex(b), 2 * |a|;
      assert ha[n - 2] == hb[n - 2] && ha[n - 1] == hb[n - 1];
      HexPairInjective(a[|a| - 1], b[|b| - 1]);
      assert ha[..n - 2] == Hex(a[..|a| - 1]) && hb[..n - 2] == Hex(b[..|b| - 1]);
      HexInjective(a[..|a| - 1], b[..|b| - 1]);
    }
  }

  lemma HexDigitIsNotDollar(n: Byte)
    requires n < 16
    ensures HexDigit(n) != DOLLAR && HexDigit(n) != 0
  {
  }

  /** Hex text never contains the field separator or a NUL. */
  lemma {:induction false} HexHasNoDollar(bytes: seq<Byte>)
    ensures DOLLAR !in Hex(bytes) && 0 !in Hex(bytes)
  {
    if bytes != [] {
      var b := bytes[|bytes| - 1];
      HexHasNoDollar(bytes[..|bytes| - 1]);
      HexDigitIsNotDollar(b >> 4);
      HexDigitIsNotDollar(b & 0x0f);
    }
  }

  // ---------- decimal ----------

  function Digit(n: nat): Byte
    requires n < 10
  {
    0x30 + n as Byte
  }

  function Decimal(n: nat): (d: seq<Byte>)
    ensures |d| > 0
  {
    if n < 10 then [Digit(n)] else Decimal(n / 10) + [Digit(n % 10)]
  }

  predicate IsDigit(b: Byte) { 0x30 <= b <= 0x39 }

  predicate IsSpace(b: Byte) { b == 0x20 || 0x09 <= b <= 0x0d }

  function DigitValue(b: Byte): nat
    requires IsDigit(b)
  {
    (b - 0x30) as nat
  }

  /** The digits at the front of `s`, continuing the number `acc`. */
  function DigitsValue(s: seq<Byte>, acc: nat): nat
    decreases |s|
  {
    if s == [] || !IsDigit(s[0]) then acc else DigitsValue(s[1..], 10 * acc + DigitValue(s[0]))
  }

  /** `atoi` */
  function Atoi(s: seq<Byte>): int
    decreases |s|
  {
    if s == [] then 0
    else if IsSpace(s[0]) then Atoi(s[1..])
    else if s[0] == 0x2d then 0 - DigitsValue(s[1..], 0) as int
    else if s[0] == 0x2b then DigitsValue(s[1..], 0)
    else DigitsValue(s, 0)
  }

  lemma DigitBack(n: nat)
    requires n < 10
    ensures IsDigit(Digit(n)) && DigitValue(Digit(n)) == n && Digit(n) != DOLLAR && Digit(n) != 0
  {
  }

  lemma ReadDigit(n: nat, rest: seq<Byte>, acc: nat)
    requires n < 10
    ensures DigitsValue([Digit(n)] + rest, acc) == DigitsValue(rest, 10 * acc + n)
  {
    DigitBack(n);
    hide Digit, DigitValue, IsDigit;
    assert ([Digit(n)] + rest)[1..] == rest;
  }

  lemma {:induction false} DecimalValue(n: nat, rest: seq<Byte>)
    requires rest == [] || !IsDigit(rest[0])
    ensures DigitsValue(Decimal(n) + rest, 0) == n
  {
    DecimalPrefix(n, rest, 0);
  }

  function Shifted(acc: nat, n: nat): nat {
    if n < 10 then 10 * acc + n else 10 * Shifted(acc, n / 10) + n % 10
  }

  /** Reading the digits of `n` continues with the rest from the shifted value. */
  lemma {:induction false} DecimalPrefix(n: nat, rest: seq<Byte>, acc: nat)
    ensures DigitsValue(Decimal(n) + rest, acc) == DigitsValue(rest, Shifted(acc, n))
    ensures Shifted(0, n) == n
  {
    hide Digit, DigitValue, IsDigit;
    if n < 10 {
      ReadDigit(n, rest, acc);
      assert Decimal(n) + rest == [Digit(n)] + rest;
    } else {
      DecimalPrefix(n / 10, [Digit(n % 10)] + rest, acc);
      assert Decimal(n / 10) + ([Digit(n % 10)] + rest) == Decimal(n) + rest;
      ReadDigit(n % 10, rest, Shifted(acc, n / 10));
    }
  }

  lemma {:induction false} DecimalIsDigits(n: nat)
    ensures forall i :: 0 <= i < |Decimal(n)| ==> IsDigit(Decimal(n)[i])
  {
    DigitBack(n % 10);
    if n >= 10 {
      DecimalIsDigits(n / 10);
    }
  }

  lemma AtoiOfDecimal(n: nat, rest: seq<Byte>)
    requires rest == [] || !IsDigit(rest[0])
    ensures Atoi(Decimal(n) + rest) == n
  {
    DecimalIsDigits(n);
    var s := Decimal(n) + rest;
    assert IsDigit(s[0]);
    DecimalValue(n, rest);
  }

  /** White space in front is skipped and one sign is read, as `atoi` does. */
  lemma AtoiIs(n: nat, rest: seq<Byte>, s: seq<Byte>)
    requires rest == [] || !IsDigit(rest[0])
    ensures Atoi([0x2d] + (Decimal(n) + rest)) == -(n as int) && Atoi([0x2b] + (Decimal(n) + rest)) == n
    ensures Atoi([0x20] + s) == Atoi(s) == Atoi([0x09] + s)
    ensures Atoi([]) == 0 && (s != [] && s[0] == 0x24 ==> Atoi(s) == 0)
  {
    DecimalValue(n, rest);
    hide Decimal;
    assert ([0x2d] + (Decimal(n) + rest))[1..] == Decimal(n) + rest;
    assert ([0x2b] + (Decimal(n) + rest))[1..] == Decimal(n) + rest;
    assert ([0x20] + s)[1..] == s && ([0x09] + s)[1..] == s;
  }

  // ---------- the iterated digest ----------

  /** The four bytes of an `int` in memory, least significant first. */
  function IntBytes(n: nat): (b: seq<Byte>)
    ensures |b| == 4
  {
    [(n % 256) as Byte, (n / 256 % 256) as Byte, (n / 65536 % 256) as Byte, (n / 16777216 % 256) as Byte]
  }

  function Iterated(first: seq<Byte>, rounds: int): (d: seq<Byte>)
    requires |first| == 32
    ensures |d| == 32
    decreases rounds
  {
    if rounds <= 1 then first else Digest(Iterated(first, rounds - 1) + IntBytes(rounds - 1))
  }

  predicate PasswordLength(password: seq<Byte>) { 1 <= |password| <= 64 }

  /** The digest of a password under a salt text and a round count. */
  function Stretched(saltHex: seq<Byte>, password: seq<Byte>, rounds: int): (d: seq<Byte>)
    requires |saltHex| == 32 && PasswordLength(password)
    ensures |d| == 32
  {
    Iterated(Digest(saltHex + [COLON] + password), rounds)
  }

  // ---------- the digest as a chain ----------

  /** One link: the next digest is that of the one before and the round number in four bytes, least
      significant first. */
  ghost predicate IsLink(before: seq<Byte>, next: seq<Byte>, round: nat) {
    |before| == 32 &&
    next == Digest(before + [(round % 256) as Byte, (round / 256 % 256) as Byte,
                             (round / 65536 % 256) as Byte, (round / 16777216 % 256) as Byte])
  }

  /** The digests of all rounds: the first of salt text, colon and password, each later one linked to
      the one before. */
  ghost predicate IsChain(d: seq<seq<Byte>>, saltHex: seq<Byte>, password: seq<Byte>, rounds: int) {
    |saltHex| == 32 && 1 <= |password| <= 64 && |d| == (if rounds < 1 then 1 else rounds) &&
    d[0] == Digest(saltHex + [0x3a] + password) && forall i :: 1 <= i < |d| ==> IsLink(d[i - 1], d[i], i)
  }

  ghost function LastOf(d: seq<seq<Byte>>): seq<Byte>
    requires d != []
  {
    d[|d| - 1]
  }

  lemma LinkIs(before: seq<Byte>, next: seq<Byte>, round: nat)
    requires |before| == 32
    ensures IsLink(before, next, round) <==> next == Digest(before + IntBytes(round))
  {
    hide Digest;
  }

  ghost function ChainOf(first: seq<Byte>, n: nat): (d: seq<seq<Byte>>)
    requires |first| == 32
    ensures |d| == n
  {
    if n == 0 then [] else ChainOf(first, n - 1) + [Iterated(first, n)]
  }

  lemma {:induction false} ChainIsLinked(first: seq<Byte>, n: nat)
    requires |first| == 32 && n >= 1
    ensures ChainOf(first, n)[0] == first && ChainOf(first, n)[n - 1] == Iterated(first, n)
    ensures forall i :: 1 <= i < n ==> IsLink(ChainOf(first, n)[i - 1], ChainOf(first, n)[i], i)
  {
    FirstRound(first, n);
    if n > 1 {
      ChainIsLinked(first, n - 1);
      NextRound(first, n - 1);
      LinkIs(Iterated(first, n - 1), Iterated(first, n), n - 1);
    }
    hide Iterated, IsLink, Digest, IntBytes;
  }

  /** There is such a chain for every password, and every one ends in the digest the code computes. */
  lemma ChainEndsIn(saltHex: seq<Byte>, password: seq<Byte>, rounds: int) returns (d: seq<seq<Byte>>)
    requires |saltHex| == 32 && PasswordLength(password)
    ensures d != [] && IsChain(d, saltHex, password, rounds) && LastOf(d) == Stretched(saltHex, password, rounds)
  {
    hide Digest, Iterated, IsLink;
    var first := Digest(saltHex + [COLON] + password);
    var n := if rounds < 1 then 1 else rounds;
    FirstRound(first, rounds);
    ChainIsLinked(first, n);
    d := ChainOf(first, n);
  }

  lemma {:induction false} ChainIsIterated(d: seq<seq<Byte>>, saltHex: seq<Byte>, password: seq<Byte>, rounds: int, i: nat)
    requires IsChain(d, saltHex, password, rounds) && i < |d|
    ensures |d[0]| == 32 && d[i] == Iterated(d[0], i + 1)
  {
    hide Digest, IsLink, Iterated, IntBytes;
    FirstRound(d[0], 1);
    if i > 0 {
      ChainIsIterated(d, saltHex, password, rounds, i - 1);
      assert IsLink(d[i - 1], d[i], i);
      LinkIs(d[i - 1], d[i], i);
      NextRound(d[0], i);
    }
  }

  lemma EveryChainEndsIn(d: seq<seq<Byte>>, saltHex: seq<Byte>, password: seq<Byte>, rounds: int)
    requires IsChain(d, saltHex, password, rounds)
    ensures PasswordLength(password) && LastOf(d) == Stretched(saltHex, password, rounds)
  {
    hide Digest, IsLink, Iterated;
    ChainIsIterated(d, saltHex, password, rounds, |d| - 1);
    FirstRound(d[0], rounds);
  }

  // ---------- printing and parsing ----------

  function Printed(rounds: nat, saltHex: seq<Byte>, digestHex: seq<Byte>): seq<Byte> {
    PREFIX + Decimal(rounds) + [DOLLAR] + saltHex + [DOLLAR] + digestHex
  }

  /** `strchr` */
  function Find(s: seq<Byte>, b: Byte): (r: Option<nat>)
    ensures r.Some? ==> r.value < |s| && s[r.value] == b && b !in s[..r.value]
    ensures r.None? ==> b !in s
  {
    if s == [] then None
    else if s[0] == b then Some(0)
    else
      match Find(s[1..], b)
      case None => None
      case Some(i) =>
        assert s[..i + 1] == [s[0]] + s[1..][..i];
        Some(i + 1)
  }

  datatype Record = Record(rounds: int, saltHex: seq<Byte>, digestHex: seq<Byte>)

  /** The parsing part of `auth_verify_password`. */
  function Parse(stored: seq<Byte>): (r: Option<Record>)
    ensures r.Some? ==> |r.value.saltHex| == 32
  {
    if |stored| < 10 || stored[..10] != PREFIX then None
    else
      var p := stored[10..];
      match Find(p, DOLLAR)
      case None => None
      case Some(i) =>
        var salt := p[i + 1..];
        match Find(salt, DOLLAR)
        case None => None
        case Some(j) => if j != 32 then None else Some(Record(Atoi(p), salt[..j], salt[j + 1..]))
  }

  /** `auth_verify_password` */
  predicate Verifies(password: seq<Byte>, stored: seq<Byte>) {
    PasswordLength(password) &&
    match Parse(stored)
    case None => false
    case Some(r) => Hex(Stretched(r.saltHex, password, r.rounds)) == r.digestHex
  }

  /** `auth_hash_password` with a given salt: the record, or an error for a password outside 1..64
      bytes or a buffer under 128. */
  function Hashed(password: seq<Byte>, salt: seq<Byte>, room: int): Option<seq<Byte>>
    requires |salt| == SALT_LEN
  {
    if room < 128 || !PasswordLength(password) then None
    else
      var digest := Stretched(Hex(salt), password, PASSWORD_ROUNDS);
      var record := Printed(PASSWORD_ROUNDS, Hex(salt), Hex(digest));
      if 0 < |record| < room then Some(record) else None
  }

  lemma {:induction false} FindAfter(front: seq<Byte>, b: Byte, rest: seq<Byte>)
    requires b !in front
    ensures Find(front + [b] + rest, b) == Some(|front|)
  {
    if front != [] {
      FindAfter(front[1..], b, rest);
      assert (front + [b] + rest)[1..] == front[1..] + [b] + rest;
    }
  }

  /** Parsing undoes printing, for every round count, 32-character salt text without `$` and digest
      text. */
  lemma ParsePrinted(rounds: nat, saltHex: seq<Byte>, digestHex: seq<Byte>)
    requires |saltHex| == 32 && DOLLAR !in saltHex
    ensures Parse(Printed(rounds, saltHex, digestHex)) == Some(Record(rounds, saltHex, digestHex))
  {
    hide Find, Decimal, Atoi, PREFIX, Printed;
    var rest := saltHex + [DOLLAR] + digestHex;
    var p := Decimal(rounds) + [DOLLAR] + rest;
    SplitPrefix(rounds, saltHex, digestHex);
    RoundsField(rounds, rest);
    FindAfter(saltHex, DOLLAR, digestHex);
    assert rest[..32] == saltHex && rest[33..] == digestHex;
  }

  /** The text after the prefix starts with the round count and its separator. */
  lemma RoundsField(rounds: nat, rest: seq<Byte>)
    ensures var p, n := Decimal(rounds) + [DOLLAR] + rest, |Decimal(rounds)|;
      Find(p, DOLLAR) == Some(n) && p[n + 1..] == rest && Atoi(p) == rounds
  {
    hide Find, Decimal, Atoi;
    DecimalIsDigits(rounds);
    FindAfter(Decimal(rounds), DOLLAR, rest);
    assert Decimal(rounds) + [DOLLAR] + rest == Decimal(rounds) + ([DOLLAR] + rest);
    AtoiOfDecimal(rounds, [DOLLAR] + rest);
  }

  lemma SplitPrefix(rounds: nat, saltHex: seq<Byte>, digestHex: seq<Byte>)
    ensures var stored := Printed(rounds, saltHex, digestHex);
      |stored| >= 10 && stored[..10] == PREFIX &&
      stored[10..] == Decimal(rounds) + [DOLLAR] + (saltHex + [DOLLAR] + digestHex)
  {
    hide Decimal;
    var p := Decimal(rounds) + [DOLLAR] + (saltHex + [DOLLAR] + digestHex);
    assert Printed(rounds, saltHex, digestHex) == PREFIX + p;
  }

  /** The record always fits the buffer that callers must provide. */
  lemma RecordFits(password: seq<Byte>, salt: seq<Byte>, room: int)
    requires |salt| == SALT_LEN && PasswordLength(password) && room >= 128
    ensures Hashed(password, salt, room).Some? && |Hashed(password, salt, room).value| == 114
  {
    hide Iterated;
    assert |Decimal(PASSWORD_ROUNDS)| == 6;
  }

  /** "$5$rounds=100000$", the salt text, "$" and the digest text. */
  ghost function RecordText(saltHex: seq<Byte>, digestHex: seq<Byte>): seq<Byte> {
    [0x24, 0x35, 0x24, 0x72, 0x6f, 0x75, 0x6e, 0x64, 0x73, 0x3d,
     0x31, 0x30, 0x30, 0x30, 0x30, 0x30, 0x24] + saltHex + [0x24] + digestHex
  }

  lemma PrintedIsRecordText(saltHex: seq<Byte>, digestHex: seq<Byte>)
    ensures Printed(PASSWORD_ROUNDS, saltHex, digestHex) == RecordText(saltHex, digestHex)
  {
    DecimalOfRounds();
    hide Decimal;
  }

  lemma DecimalOfRounds()
    ensures Decimal(PASSWORD_ROUNDS) == [0x31, 0x30, 0x30, 0x30, 0x30, 0x30]
  {
    assert Decimal(10) == [0x31, 0x30];
    assert Decimal(100) == Decimal(10) + [0x30];
    assert Decimal(1000) == Decimal(100) + [0x30];
    assert Decimal(10000) == Decimal(1000) + [0x30];
    assert Decimal(100000) == Decimal(10000) + [0x30];
  }

  /** `d` is the chain of the password under the record's salt and round count, and ends in its digest. */
  ghost predicate Opens(d: seq<seq<Byte>>, r: Record, password: seq<Byte>) {
    IsChain(d, r.saltHex, password, r.rounds) && Hex(LastOf(d)) == r.digestHex
  }

  /** A record is accepted exactly if it parses and the chain of the password ends in its digest. */
  lemma VerifiesIffChain(password: seq<Byte>, stored: seq<Byte>)
    ensures Verifies(password, stored) <==>
      Parse(stored).Some? && exists d :: Opens(d, Parse(stored).value, password)
  {
    hide Parse, Stretched, Hex, IsChain;
    if Parse(stored).Some? {
      var r := Parse(stored).value;
      if PasswordLength(password) {
        var d := ChainEndsIn(r.saltHex, password, r.rounds);
        assert Verifies(password, stored) ==> Opens(d, r, password);
      }
      forall d | Opens(d, r, password) ensures Verifies(password, stored) {
        EveryChainEndsIn(d, r.saltHex, password, r.rounds);
      }
    }
  }

  /** The record printed for a password carries the end of its chain. */
  lemma HashedIsChain(password: seq<Byte>, salt: seq<Byte>, room: int)
    requires |salt| == SALT_LEN
    ensures var h := Hashed(password, salt, room);
      (h.Some? <==> room >= 128 && 1 <= |password| <= 64) &&
      (h.Some? ==> exists d :: IsChain(d, Hex(salt), password, 100000) && h.value == RecordText(Hex(salt), Hex(LastOf(d))))
  {
    hide Stretched, Hex, IsChain, Printed;
    if room >= 128 && PasswordLength(password) {
      RecordFits(password, salt, room);
      var d := ChainEndsIn(Hex(salt), password, PASSWORD_ROUNDS);
      PrintedIsRecordText(Hex(salt), Hex(LastOf(d)));
      assert Hashed(password, salt, room).value == RecordText(Hex(salt), Hex(LastOf(d)));
    }
  }

  /** A record made from a password accepts exactly the passwords whose chain under its salt ends in the
      same digest; in particular it accepts that password. */
  lemma VerifiesIffSameDigest(password: seq<Byte>, salt: seq<Byte>, room: int, other: seq<Byte>,
                              d: seq<seq<Byte>>, e: seq<seq<Byte>>)
    requires |salt| == SALT_LEN && room >= 128
    requires IsChain(d, Hex(salt), password, 100000) && IsChain(e, Hex(salt), other, 100000)
    ensures var h := Hashed(password, salt, room);
      h.Some? && Verifies(password, h.value) && (Verifies(other, h.value) <==> LastOf(e) == LastOf(d))
  {
    hide Iterated, Stretched, Parse, Printed, Decimal, IsLink;
    EveryChainEndsIn(d, Hex(salt), password, PASSWORD_ROUNDS);
    EveryChainEndsIn(e, Hex(salt), other, PASSWORD_ROUNDS);
    RecordFits(password, salt, room);
    HexHasNoDollar(salt);
    ParsePrinted(PASSWORD_ROUNDS, Hex(salt), Hex(LastOf(d)));
    if Hex(LastOf(e)) == Hex(LastOf(d)) {
      HexInjective(LastOf(e), LastOf(d));
    }
  }

  /** The stored text is a record: prefix, a first field without separator, a 32-character salt without
      separator, and the rest. */
  ghost predicate IsRecord(stored: seq<Byte>, front: seq<Byte>, saltHex: seq<Byte>, digestHex: seq<Byte>) {
    stored == PREFIX + front + [DOLLAR] + saltHex + [DOLLAR] + digestHex &&
    DOLLAR !in front && |saltHex| == 32 && DOLLAR !in saltHex
  }

  /** Parsing any text: it succeeds exactly on records, and gives back their salt and digest. */
  lemma ParseIff(stored: seq<Byte>)
    ensures Parse(stored).Some? <==> exists f, s, d :: IsRecord(stored, f, s, d)
    ensures forall f, s, d :: IsRecord(stored, f, s, d) ==>
      Parse(stored).Some? && Parse(stored).value.saltHex == s && Parse(stored).value.digestHex == d &&
      Parse(stored).value.rounds == Atoi(stored[10..])
  {
    hide Find, Atoi, PREFIX;
    if Parse(stored).Some? {
      RecordParts(stored);
    }
    forall f, s, d | IsRecord(stored, f, s, d)
      ensures Parse(stored).Some? && Parse(stored).value.saltHex == s && Parse(stored).value.digestHex == d &&
              Parse(stored).value.rounds == Atoi(stored[10..])
    {
      ParseRecord(stored, f, s, d);
    }
  }

  lemma ParseRecord(stored: seq<Byte>, f: seq<Byte>, s: seq<Byte>, d: seq<Byte>)
    requires IsRecord(stored, f, s, d)
    ensures Parse(stored) == Some(Record(Atoi(stored[10..]), s, d))
  {
    hide Find, Atoi;
    var rest := s + [DOLLAR] + d;
    var p := f + [DOLLAR] + rest;
    assert stored == PREFIX + p;
    assert stored[..10] == PREFIX && stored[10..] == p;
    FindAfter(f, DOLLAR, rest);
    assert p[|f| + 1..] == rest;
    FindAfter(s, DOLLAR, d);
    assert rest[..32] == s && rest[33..] == d;
  }

  lemma RecordParts(stored: seq<Byte>)
    requires Parse(stored).Some?
    ensures exists f, s, d :: IsRecord(stored, f, s, d)
  {
    hide Find, Atoi, PREFIX, IsRecord;
    var p := stored[10..];
    var i := Find(p, DOLLAR).value;
    var salt := p[i + 1..];
    var j := Find(salt, DOLLAR).value;
    Cut(p, i);
    Cut(salt, j);
    IsRecordOf(stored, p[..i], salt[..j], salt[j + 1..], p, salt);
  }

  lemma Cut(s: seq<Byte>, i: nat)
    requires i < |s|
    ensures s == s[..i] + [s[i]] + s[i + 1..]
  {
  }

  lemma IsRecordOf(stored: seq<Byte>, f: seq<Byte>, s: seq<Byte>, d: seq<Byte>, p: seq<Byte>, salt: seq<Byte>)
    requires |stored| >= 10 && stored[..10] == PREFIX && stored[10..] == p
    requires p == f + [DOLLAR] + salt && salt == s + [DOLLAR] + d
    requires DOLLAR !in f && |s| == 32 && DOLLAR !in s
    ensures IsRecord(stored, f, s, d)
  {
    hide PREFIX;
    assert stored == stored[..10] + stored[10..];
    assert PREFIX + (f + [DOLLAR] + (s + [DOLLAR] + d)) == PREFIX + f + [DOLLAR] + s + [DOLLAR] + d;
  }

  /** The digits are those of lower-case hexadecimal. */
  lemma HexDigits()
    ensures HexDigit(0) == 0x30 && HexDigit(1) == 0x31 && HexDigit(2) == 0x32 && HexDigit(3) == 0x33 &&
      HexDigit(4) == 0x34 && HexDigit(5) == 0x35 && HexDigit(6) == 0x36 && HexDigit(7) == 0x37 &&
      HexDigit(8) == 0x38 && HexDigit(9) == 0x39 && HexDigit(10) == 0x61 && HexDigit(11) == 0x62 &&
      HexDigit(12) == 0x63 && HexDigit(13) == 0x64 && HexDigit(14) == 0x65 && HexDigit(15) == 0x66
  {
  }

  /** Two digits per byte, the high half first. */
  lemma {:induction false} HexAt(bytes: seq<Byte>, i: nat)
    requires i < |bytes|
    ensures Hex(bytes)[2 * i] == HexDigit(bytes[i] >> 4) && Hex(bytes)[2 * i + 1] == HexDigit(bytes[i] & 0x0f)
  {
    hide HexDigit;
    if i < |bytes| - 1 {
      HexAt(bytes[..|bytes| - 1], i);
    }
  }

  // ---------- the code ----------

  /** The hex loops, filling a buffer two characters at a time. */
  method HexEncode(bytes: seq<Byte>) returns (text: seq<Byte>)
    ensures text == Hex(bytes)
  {
    var out := new Byte[2 * |bytes|];
    hide HexDigit;
    for i := 0 to |bytes|
      invariant out[..2 * i] == Hex(bytes[..i])
    {
      assert bytes[..i + 1][..i] == bytes[..i];
      out[2 * i] := HexDigit(bytes[i] >> 4);
      out[2 * i + 1] := HexDigit(bytes[i] & 0x0f);
      assert out[..2 * (i + 1)] == out[..2 * i] + [HexDigit(bytes[i] >> 4), HexDigit(bytes[i] & 0x0f)];
    }
    assert bytes[..|bytes|] == bytes;
    text := out[..];
  }

  /** The first hash and the iteration loop, shared by both directions. */
  method Stretch(saltHex: seq<Byte>, password: seq<Byte>, rounds: int) returns (digest: seq<Byte>)
    requires |saltHex| == 32 && PasswordLength(password)
    ensures digest == Stretched(saltHex, password, rounds)
  {
    hide Digest, Iterated, IntBytes;
    JoinedOne(saltHex + [COLON] + password);
    digest := HashPieces([saltHex + [COLON] + password]);
    ghost var first := digest;
    FirstRound(first, rounds);
    var round := 1;
    while round < rounds
      invariant 1 <= round && (rounds >= 1 ==> round <= rounds)
      invariant digest == Iterated(first, round) && (rounds < 1 ==> round == 1)
    {
      JoinedTwo(digest, IntBytes(round));
      NextRound(first, round);
      digest := HashPieces([digest, IntBytes(round)]);
      round := round + 1;
    }
  }

  lemma JoinedOne(a: seq<Byte>)
    ensures Joined([a]) == a
  {
  }

  lemma FirstRound(first: seq<Byte>, rounds: int)
    requires |first| == 32
    ensures Iterated(first, 1) == first && (rounds < 1 ==> Iterated(first, rounds) == first)
  {
  }

  /** One turn of the loop. */
  lemma NextRound(first: seq<Byte>, round: nat)
    requires |first| == 32 && round >= 1
    ensures Iterated(first, round + 1) == Digest(Iterated(first, round) + IntBytes(round))
  {
    hide Digest, IntBytes;
  }

  lemma JoinedTwo(a: seq<Byte>, b: seq<Byte>)
    ensures Joined([a, b]) == a + b
  {
    assert [a, b][..1] == [a];
    assert Joined([a]) == a;
  }

  /** `auth_hash_password`; the salt comes from the random source. */
  method HashPassword(password: seq<Byte>, salt: seq<Byte>, room: int) returns (r: Option<seq<Byte>>)
    requires |salt| == SALT_LEN
    ensures r == Hashed(password, salt, room) && (r.Some? <==> room >= 128 && 1 <= |password| <= 64)
    ensures r.Some? ==>
      exists d :: IsChain(d, Hex(salt), password, 100000) && r.value == RecordText(Hex(salt), Hex(LastOf(d)))
  {
    hide Stretched, Decimal, Hex, IsChain;
    HashedIsChain(password, salt, room);
    if room < 128 || |password| < 1 || |password| > 64 {
      return None;
    }
    var saltHex := HexEncode(salt);
    var digest := Stretch(saltHex, password, PASSWORD_ROUNDS);
    var digestHex := HexEncode(digest);
    var record := PREFIX + Decimal(PASSWORD_ROUNDS) + [DOLLAR] + saltHex + [DOLLAR] + digestHex;
    r := if 0 < |record| < room then Some(record) else None;
  }

  /** `auth_verify_password` */
  method VerifyPassword(password: seq<Byte>, stored: seq<Byte>) returns (ok: bool)
    ensures ok == Verifies(password, stored)
    ensures ok <==> Parse(stored).Some? && exists d :: Opens(d, Parse(stored).value, password)
  {
    hide Stretched, Find, Atoi, PREFIX, Hex, Opens;
    VerifiesIffChain(password, stored);
    ok := false;
    if |password| < 1 || |password| > 64 {
      return;
    }
    if |stored| < 10 || stored[..10] != PREFIX {
      return;
    }
    var p := stored[10..];
    var rounds := Atoi(p);
    var dollar := Find(p, DOLLAR);
    if dollar.None? {
      return;
    }
    var salt := p[dollar.value + 1..];
    var next := Find(salt, DOLLAR);
    if next.None? || next.value != 32 {
      return;
    }
    var digest := Stretch(salt[..32], password, rounds);
    var text := HexEncode(digest);
    ok := text == salt[33..];
  }
}
