/** SHA-256 as a byte-at-a-time stream (src/sha256.c) against FIPS 180-4: the functions follow the
    standard, the class follows the code. */
module Sha256 {

  type Byte = bv8
  type Word = bv32

  // ---------- FIPS 180-4, section 4 ----------

  const K0: seq<Word> := [0x428a2f98, 0x71374491, 0xb5c0fbcf, 0xe9b5dba5, 0x3956c25b, 0x59f111f1, 0x923f82a4, 0xab1c5ed5]
  const K1: seq<Word> := [0xd807aa98, 0x12835b01, 0x243185be, 0x550c7dc3, 0x72be5d74, 0x80deb1fe, 0x9bdc06a7, 0xc19bf174]
  const K2: seq<Word> := [0xe49b69c1, 0xefbe4786, 0x0fc19dc6, 0x240ca1cc, 0x2de92c6f, 0x4a7484aa, 0x5cb0a9dc, 0x76f988da]
  const K3: seq<Word> := [0x983e5152, 0xa831c66d, 0xb00327c8, 0xbf597fc7, 0xc6e00bf3, 0xd5a79147, 0x06ca6351, 0x14292967]
  const K4: seq<Word> := [0x27b70a85, 0x2e1b2138, 0x4d2c6dfc, 0x53380d13, 0x650a7354, 0x766a0abb, 0x81c2c92e, 0x92722c85]
  const K5: seq<Word> := [0xa2bfe8a1, 0xa81a664b, 0xc24b8b70, 0xc76c51a3, 0xd192e819, 0xd6990624, 0xf40e3585, 0x106aa070]
  const K6: seq<Word> := [0x19a4c116, 0x1e376c08, 0x2748774c, 0x34b0bcb5, 0x391c0cb3, 0x4ed8aa4a, 0x5b9cca4f, 0x682e6ff3]
  const K7: seq<Word> := [0x748f82ee, 0x78a5636f, 0x84c87814, 0x8cc70208, 0x90befffa, 0xa4506ceb, 0xbef9a3f7, 0xc67178f2]

  const KLow: seq<Word> := K0 + K1 + K2 + K3
  const KHigh: seq<Word> := K4 + K5 + K6 + K7

  /** Section 4.2.2. */
  const K: seq<Word> := KLow + KHigh

  /** Addition modulo 2^32. */
  function Plus(x: Word, y: Word): Word { x + y }

  function Ch(x: Word, y: Word, z: Word): Word { (x & y) ^ (!x & z) }

  function Maj(x: Word, y: Word, z: Word): Word { (x & y) ^ (x & z) ^ (y & z) }

  function BigSigma0(x: Word): Word { x.RotateRight(2) ^ x.RotateRight(13) ^ x.RotateRight(22) }

  function BigSigma1(x: Word): Word { x.RotateRight(6) ^ x.RotateRight(11) ^ x.RotateRight(25) }

  function SmallSigma0(x: Word): Word { x.RotateRight(7) ^ x.RotateRight(18) ^ (x >> 3) }

  function SmallSigma1(x: Word): Word { x.RotateRight(17) ^ x.RotateRight(19) ^ (x >> 10) }

  // ---------- FIPS 180-4, section 6.2 ----------

  datatype Hash = Hash(a: Word, b: Word, c: Word, d: Word, e: Word, f: Word, g: Word, h: Word)

  /** Section 5.3.3. */
  const INITIAL: Hash := Hash(0x6a09e667, 0xbb67ae85, 0x3c6ef372, 0xa54ff53a,
                              0x510e527f, 0x9b05688c, 0x1f83d9ab, 0x5be0cd19)

  type Block = b: seq<Byte> | |b| == 64 witness seq(64, _ => 0)

  function BigEndian(a: Byte, b: Byte, c: Byte, d: Byte): Word {
    ((a as Word) << 24) | ((b as Word) << 16) | ((c as Word) << 8) | (d as Word)
  }

  function NextW(w2: Word, w7: Word, w15: Word, w16: Word): Word {
    Plus(Plus(Plus(SmallSigma1(w2), w7), SmallSigma0(w15)), w16)
  }

  /** The message schedule of one block. */
  function W(m: Block, t: nat): Word
    requires t < 64
  {
    if t < 16 then BigEndian(m[4 * t], m[4 * t + 1], m[4 * t + 2], m[4 * t + 3])
    else NextW(W(m, t - 2), W(m, t - 7), W(m, t - 15), W(m, t - 16))
  }

  function Round(r: Hash, k: Word, w: Word): Hash {
    var t1 := Plus(Plus(Plus(Plus(r.h, BigSigma1(r.e)), Ch(r.e, r.f, r.g)), k), w);
    var t2 := Plus(BigSigma0(r.a), Maj(r.a, r.b, r.c));
    Hash(Plus(t1, t2), r.a, r.b, r.c, Plus(r.d, t1), r.e, r.f, r.g)
  }

  function Rounds(r: Hash, m: Block, n: nat): Hash
    requires n <= 64
  {
    if n == 0 then r else Round(Rounds(r, m, n - 1), K[n - 1], W(m, n - 1))
  }

  function Add(x: Hash, y: Hash): Hash {
    Hash(Plus(x.a, y.a), Plus(x.b, y.b), Plus(x.c, y.c), Plus(x.d, y.d),
         Plus(x.e, y.e), Plus(x.f, y.f), Plus(x.g, y.g), Plus(x.h, y.h))
  }

  function Compress(h: Hash, m: Block): Hash { Add(Rounds(h, m, 64), h) }

  /** The hash value after the first `n` blocks of `data`. */
  function HashAfter(data: seq<Byte>, n: nat): Hash
    requires 64 * n <= |data|
  {
    if n == 0 then INITIAL else Compress(HashAfter(data, n - 1), data[64 * n - 64..64 * n])
  }

  /** The hash value after all whole blocks of `data`. */
  function Absorbed(data: seq<Byte>): Hash { HashAfter(data, |data| / 64) }

  // ---------- FIPS 180-4, section 5.1.1 ----------

  /** The smallest number of zero bytes that leaves room for the length at the end of a block. */
  function ZeroBytes(length: nat): (k: nat)
    ensures k < 64 && (length + 1 + k) % 64 == 56 && (length + 9 + k) % 64 == 0
  {
    (55 - length) % 64
  }

  /** No smaller number of zero bytes does. */
  lemma FirstStop(length: nat, k: nat)
    requires k <= ZeroBytes(length)
    ensures (length + 1 + k) % 64 == 56 <==> k == ZeroBytes(length)
  {
  }

  function Zeros(k: nat): (z: seq<Byte>)
    ensures |z| == k
  {
    if k == 0 then [] else Zeros(k - 1) + [0]
  }

  /** The last `n` of the eight big-endian bytes of a 64-bit number. */
  function LengthTail(bits: nat, n: nat): (b: seq<Byte>)
    requires n <= 8
    ensures |b| == n
  {
    if n == 0 then [] else LengthTail(bits / 256, n - 1) + [(bits % 256) as Byte]
  }

  const LIMIT: int := 0x2000_0000_0000_0000

  function Pad(message: seq<Byte>): (p: seq<Byte>)
    requires |message| < LIMIT
    ensures |p| % 64 == 0
  {
    var zeros := Zeros(ZeroBytes(|message|));
    var p := message + [0x80] + zeros + LengthTail(8 * |message|, 8);
    assert |p| == |message| + 9 + |zeros|;
    p
  }

  function WordBytes(w: Word): (b: seq<Byte>)
    ensures |b| == 4
  {
    [((w >> 24) & 0xff) as Byte, ((w >> 16) & 0xff) as Byte, ((w >> 8) & 0xff) as Byte, (w & 0xff) as Byte]
  }

  function BytesOf(words: seq<Word>): (b: seq<Byte>)
    ensures |b| == 4 * |words|
  {
    if words == [] then [] else BytesOf(words[..|words| - 1]) + WordBytes(words[|words| - 1])
  }

  function Words(h: Hash): seq<Word> { [h.a, h.b, h.c, h.d, h.e, h.f, h.g, h.h] }

  /** SHA-256 of a message. */
  function Digest(message: seq<Byte>): (d: seq<Byte>)
    requires |message| < LIMIT
    ensures |d| == 32
  {
    BytesOf(Words(Absorbed(Pad(message))))
  }

  // ---------- the code's own forms ----------

  /** The macros EP0, EP1, SIG0 and SIG1, with ROR written out. */
  function Ep0(x: Word): Word { ((x >> 2) | (x << 30)) ^ ((x >> 13) | (x << 19)) ^ ((x >> 22) | (x << 10)) }

  function Ep1(x: Word): Word { ((x >> 6) | (x << 26)) ^ ((x >> 11) | (x << 21)) ^ ((x >> 25) | (x << 7)) }

  function Sig0(x: Word): Word { ((x >> 7) | (x << 25)) ^ ((x >> 18) | (x << 14)) ^ (x >> 3) }

  function Sig1(x: Word): Word { ((x >> 17) | (x << 15)) ^ ((x >> 19) | (x << 13)) ^ (x >> 10) }

  lemma MacrosAreSigmas(x: Word)
    ensures Ep0(x) == BigSigma0(x) && Ep1(x) == BigSigma1(x) && Sig0(x) == SmallSigma0(x) && Sig1(x) == SmallSigma1(x)
  {
  }

  /** `bits >> 8 * n`. */
  function ShiftedBytes(bits: nat, n: nat): nat {
    if n == 0 then bits else ShiftedBytes(bits / 256, n - 1)
  }

  lemma {:induction false} LengthByteAt(bits: nat, n: nat, i: nat)
    requires i < n <= 8
    ensures LengthTail(bits, n)[i] == (ShiftedBytes(bits, n - 1 - i) % 256) as Byte
  {
    if i < n - 1 {
      LengthByteAt(bits / 256, n - 1, i);
    }
  }

  lemma {:induction false} HashOfPrefix(data: seq<Byte>, more: seq<Byte>, n: nat)
    requires 64 * n <= |data|
    ensures HashAfter(data + more, n) == HashAfter(data, n)
  {
    hide Compress;
    if n > 0 {
      HashOfPrefix(data, more, n - 1);
      assert (data + more)[64 * n - 64..64 * n] == data[64 * n - 64..64 * n];
    }
  }

  /** The bytes of the block in progress. */
  function Waiting(data: seq<Byte>): (w: seq<Byte>)
    ensures |w| == |data| % 64
  {
    data[|data| - |data| % 64..]
  }

  /** One more byte either waits or completes a block. */
  lemma AbsorbByte(data: seq<Byte>, b: Byte)
    ensures var longer := data + [b];
      if |data| % 64 == 63
      then Waiting(longer) == [] && |Waiting(data) + [b]| == 64 &&
           Absorbed(longer) == Compress(Absorbed(data), Waiting(data) + [b])
      else Waiting(longer) == Waiting(data) + [b] && Absorbed(longer) == Absorbed(data)
  {
    hide Compress, HashAfter, Absorbed, Waiting;
    if |data| % 64 == 63 {
      ByteCompletes(data, b);
    } else {
      ByteWaits(data, b);
    }
  }

  lemma ByteWaits(data: seq<Byte>, b: Byte)
    requires |data| % 64 != 63
    ensures Waiting(data + [b]) == Waiting(data) + [b] && Absorbed(data + [b]) == Absorbed(data)
  {
    hide Compress, HashAfter;
    assert |data + [b]| / 64 == |data| / 64;
    HashOfPrefix(data, [b], |data| / 64);
  }

  lemma ByteCompletes(data: seq<Byte>, b: Byte)
    requires |data| % 64 == 63
    ensures Waiting(data + [b]) == [] && |Waiting(data) + [b]| == 64
    ensures Absorbed(data + [b]) == Compress(Absorbed(data), Waiting(data) + [b])
  {
    hide Compress, HashAfter;
    var longer, n := data + [b], |data| / 64;
    assert |longer| == 64 * (n + 1);
    assert longer[64 * (n + 1) - 64..64 * (n + 1)] == Waiting(data) + [b];
    NextBlock(longer, n);
    HashOfPrefix(data, [b], n);
  }

  lemma NextBlock(data: seq<Byte>, n: nat)
    requires 64 * (n + 1) <= |data|
    ensures HashAfter(data, n + 1) == Compress(HashAfter(data, n), data[64 * (n + 1) - 64..64 * (n + 1)])
  {
    hide Compress;
  }

  /** The 64-bit byte counter. */
  function Counter(n: nat): nat { n % 0x1_0000_0000_0000_0000 }

  lemma CounterStep(n: nat)
    ensures Counter(n) % 64 == n % 64 && Counter(Counter(n) + 1) == Counter(n + 1)
  {
  }

  /** Below 2^61 bytes the length in bits does not wrap. */
  lemma BitsOf(n: nat)
    requires n < LIMIT
    ensures Counter(8 * Counter(n)) == 8 * n
  {
  }

  lemma FirstWords(m: Block, t: nat)
    requires t < 16
    ensures W(m, t) == BigEndian(m[4 * t], m[4 * t + 1], m[4 * t + 2], m[4 * t + 3])
  {
  }

  lemma LaterWords(m: Block, t: nat)
    requires 16 <= t < 64
    ensures W(m, t) == NextW(W(m, t - 2), W(m, t - 7), W(m, t - 15), W(m, t - 16))
  {
  }

  // ---------- the streaming context ----------

  class Context {
    const state: array<Word>
    const buf: array<Byte>
    var count: nat
    ghost var data: seq<Byte>

    ghost predicate Shape()
      reads this
    {
      state.Length == 8 && buf.Length == 64
    }

    ghost function StateHash(): Hash
      requires state.Length == 8
      reads this, state
    {
      Hash(state[0], state[1], state[2], state[3], state[4], state[5], state[6], state[7])
    }

    /** The state is the hash of the whole blocks seen, the buffer holds the rest. */
    ghost predicate Valid()
      reads this, state, buf
    {
      Shape() && count == Counter(|data|) && StateHash() == Absorbed(data) &&
      buf[..|data| % 64] == Waiting(data)
    }

    /** `sha256_init` */
    constructor ()
      ensures Valid() && data == [] && fresh(state) && fresh(buf)
    {
      state := new Word[8];
      buf := new Byte[64];
      count := 0;
      data := [];
      new;
      state[0], state[1], state[2], state[3] := 0x6a09e667, 0xbb67ae85, 0x3c6ef372, 0xa54ff53a;
      state[4], state[5], state[6], state[7] := 0x510e527f, 0x9b05688c, 0x1f83d9ab, 0x5be0cd19;
    }

    method ScheduleStep(w2: Word, w7: Word, w15: Word, w16: Word) returns (next: Word)
      ensures next == NextW(w2, w7, w15, w16)
    {
      hide Plus, Sig0, Sig1, SmallSigma0, SmallSigma1, Ep0, Ep1, BigSigma0, BigSigma1;
      MacrosAreSigmas(w2);
      MacrosAreSigmas(w15);
      next := Plus(Plus(Plus(Sig1(w2), w7), Sig0(w15)), w16);
    }

    method RoundStep(r: Hash, k: Word, w: Word) returns (r': Hash)
      ensures r' == Round(r, k, w)
    {
      hide Plus, Sig0, Sig1, SmallSigma0, SmallSigma1, Ep0, Ep1, BigSigma0, BigSigma1, Ch, Maj;
      MacrosAreSigmas(r.e);
      MacrosAreSigmas(r.a);
      var a, b, c, d, e, f, g, h := r.a, r.b, r.c, r.d, r.e, r.f, r.g, r.h;
      var t1 := Plus(Plus(Plus(Plus(h, Ep1(e)), Ch(e, f, g)), k), w);
      var t2 := Plus(Ep0(a), Maj(a, b, c));
      h := g;
      g := f;
      f := e;
      e := Plus(d, t1);
      d := c;
      c := b;
      b := a;
      a := Plus(t1, t2);
      r' := Hash(a, b, c, d, e, f, g, h);
    }

    /** The first schedule loop of `sha256_transform`. */
    method LoadWords(w: array<Word>)
      requires Shape() && w.Length == 64
      modifies w
      ensures forall t :: 0 <= t < 16 ==> w[t] == W(buf[..], t)
    {
      ghost var m := buf[..];
      hide BigEndian, W;
      for i := 0 to 16
        invariant forall t :: 0 <= t < i ==> w[t] == W(m, t)
      {
        w[i] := BigEndian(buf[i * 4], buf[i * 4 + 1], buf[i * 4 + 2], buf[i * 4 + 3]);
        FirstWords(m, i);
      }
    }

    /** The second schedule loop of `sha256_transform`. */
    method ExtendWords(w: array<Word>, ghost m: Block)
      requires w.Length == 64 && forall t :: 0 <= t < 16 ==> w[t] == W(m, t)
      modifies w
      ensures forall t :: 0 <= t < 64 ==> w[t] == W(m, t)
    {
      hide NextW, W;
      for i := 16 to 64
        invariant forall t :: 0 <= t < i ==> w[t] == W(m, t)
      {
        var next := ScheduleStep(w[i - 2], w[i - 7], w[i - 15], w[i - 16]);
        w[i] := next;
        LaterWords(m, i);
      }
    }

    /** The round loop of `sha256_transform`, on the eight working variables. */
    method AllRounds(start: Hash) returns (r: Hash)
      requires Shape()
      ensures r == Rounds(start, buf[..], 64)
    {
      hide W, Round;
      ghost var m := buf[..];
      var w := new Word[64];
      LoadWords(w);
      ExtendWords(w, m);
      r := start;
      for i := 0 to 64
        modifies {}
        invariant r == Rounds(start, m, i)
      {
        r := RoundStep(r, K[i], w[i]);
      }
    }

    /** `sha256_transform` on the buffer. */
    method Transform()
      requires Shape()
      modifies state
      ensures StateHash() == Compress(old(StateHash()), buf[..])
    {
      hide Rounds, Plus, K;
      var r := AllRounds(Hash(state[0], state[1], state[2], state[3], state[4], state[5], state[6], state[7]));
      state[0], state[1], state[2], state[3] :=
        Plus(r.a, state[0]), Plus(r.b, state[1]), Plus(r.c, state[2]), Plus(r.d, state[3]);
      state[4], state[5], state[6], state[7] :=
        Plus(r.e, state[4]), Plus(r.f, state[5]), Plus(r.g, state[6]), Plus(r.h, state[7]);
    }

    /** One turn of the loop of `sha256_update`. */
    method UpdateByte(b: Byte)
      requires Valid()
      modifies this, state, buf
      ensures Valid() && data == old(data) + [b] && count % 64 == |data| % 64
    {
      hide Compress, Absorbed, Waiting, Counter, HashAfter;
      AbsorbByte(data, b);
      CounterStep(|data|);
      CounterStep(|data| + 1);
      ghost var rest, full := |data| % 64, Waiting(data) + [b];
      buf[count % 64] := b;
      count := Counter(count + 1);
      data := data + [b];
      assert buf[..rest + 1] == full;
      if count % 64 == 0 {
        assert buf[..] == full;
        Transform();
      }
    }

    /** The byte counter, although it wraps, tells the place in the block. */
    lemma InBlock()
      requires Valid()
      ensures count % 64 == |data| % 64
    {
      CounterStep(|data|);
      hide Absorbed, Waiting;
    }

    /** `sha256_update` */
    method Update(bytes: seq<Byte>)
      requires Valid()
      modifies this, state, buf
      ensures Valid() && data == old(data) + bytes && count % 64 == |data| % 64
    {
      hide *;
      InBlock();
      for i := 0 to |bytes|
        invariant Valid() && data == old(data) + bytes[..i] && count % 64 == |data| % 64
      {
        UpdateByte(bytes[i]);
      }
      assert bytes[..|bytes|] == bytes;
    }

    /** The zero loop of `sha256_final`, which ends because it reaches byte 56 of a block. */
    method PutZeros(ghost n: nat)
      requires Valid() && |data| == n + 1 && count % 64 == |data| % 64
      modifies this, state, buf
      ensures Valid() && data == old(data) + Zeros(ZeroBytes(n))
    {
      hide Valid, ZeroBytes;
      ghost var k := 0;
      while count % 64 != 56
        invariant Valid() && k <= ZeroBytes(n) && data == old(data) + Zeros(k)
        invariant count % 64 == (n + 1 + k) % 64
        decreases ZeroBytes(n) - k
      {
        FirstStop(n, k);
        Update([0]);
        k := k + 1;
      }
      FirstStop(n, k);
    }

    /** The length loop of `sha256_final`. */
    method PutLength(bits: nat)
      requires Valid()
      modifies this, state, buf
      ensures Valid() && data == old(data) + LengthTail(bits, 8)
    {
      hide Valid, LengthTail, ShiftedBytes;
      ghost var field := LengthTail(bits, 8);
      for i := 0 to 8
        invariant Valid() && data == old(data) + field[..i]
      {
        LengthByteAt(bits, 8, i);
        Update([(ShiftedBytes(bits, 7 - i) % 256) as Byte]);
        assert field[..i + 1] == field[..i] + [field[i]];
      }
    }

    /** The output loop of `sha256_final`. */
    method Emit() returns (digest: seq<Byte>)
      requires Shape()
      ensures digest == BytesOf(Words(StateHash()))
    {
      hide WordBytes;
      digest := [];
      for i := 0 to 8
        invariant digest == BytesOf(state[..i])
      {
        assert state[..i + 1][..i] == state[..i];
        digest := digest + WordBytes(state[i]);
      }
      assert state[..8] == Words(StateHash());
    }

    /** `sha256_final`, for any split of the message over earlier calls of `sha256_update`. */
    method Final() returns (digest: seq<Byte>)
      requires Valid() && |data| < LIMIT
      modifies this, state, buf
      ensures digest == Digest(old(data))
    {
      hide Absorbed, Waiting, Counter, LengthTail, ZeroBytes, Zeros, BytesOf;
      ghost var message := data;
      BitsOf(|message|);
      var bits := Counter(8 * count);
      Update([0x80]);
      PutZeros(|message|);
      PutLength(bits);
      assert data == Pad(message);
      digest := Emit();
    }
  }

  function Joined(pieces: seq<seq<Byte>>): seq<Byte> {
    if pieces == [] then [] else Joined(pieces[..|pieces| - 1]) + pieces[|pieces| - 1]
  }

  /** However a message is cut up over the calls of `sha256_update`, the digest is the digest of the
      whole message. */
  method HashPieces(pieces: seq<seq<Byte>>) returns (digest: seq<Byte>)
    requires |Joined(pieces)| < LIMIT
    ensures digest == Digest(Joined(pieces))
  {
    hide Digest;
    var ctx := new Context();
    for i := 0 to |pieces|
      invariant ctx.Valid() && fresh(ctx) && fresh(ctx.state) && fresh(ctx.buf)
      invariant ctx.data == Joined(pieces[..i])
    {
      assert pieces[..i + 1][..i] == pieces[..i];
      ctx.Update(pieces[i]);
    }
    assert pieces[..|pieces|] == pieces;
    digest := ctx.Final();
  }
}
