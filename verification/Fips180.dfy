/** Reference definition of SHA-256, after FIPS 180-4.  A message is a bit string; padding,
    parsing and the hash computation are recursive definitions over it.  Nothing here looks at
    a context, a block buffer or a length counter. */
module Fips180 {

  type Byte = bv8
  type Word = bv32
  type Bits = seq<bool>
  type HashValue = h: seq<Word> | |h| == 8 witness seq(8, _ => 0)
  type MessageBlock = m: seq<Word> | |m| == 16 witness seq(16, _ => 0)
  type RoundTable = k: seq<Word> | |k| == 64 witness seq(64, _ => 0)

  const BLOCK_BITS := 512
  const LENGTH_LIMIT := 0x1_0000_0000_0000_0000

  // ----- Section 3.2 and 4.1.2: operations on words and the six logical functions

  /** Addition modulo 2^32. */
  function Plus(x: Word, y: Word): Word { x + y }

  function Shr(n: bv6, x: Word): Word requires n < 32 { x >> n }

  function Rotr(n: bv6, x: Word): Word requires n < 32 { (x >> n) | (x << (32 - n)) }

  function Ch(x: Word, y: Word, z: Word): Word { (x & y) ^ (!x & z) }

  function Maj(x: Word, y: Word, z: Word): Word { (x & y) ^ (x & z) ^ (y & z) }

  function BigSigma0(x: Word): Word { Rotr(2, x) ^ Rotr(13, x) ^ Rotr(22, x) }

  function BigSigma1(x: Word): Word { Rotr(6, x) ^ Rotr(11, x) ^ Rotr(25, x) }

  function SmallSigma0(x: Word): Word { Rotr(7, x) ^ Rotr(18, x) ^ Shr(3, x) }

  function SmallSigma1(x: Word): Word { Rotr(17, x) ^ Rotr(19, x) ^ Shr(10, x) }

  // ----- Section 4.2.2 and 5.3.3: the constants, by what the standard says they are

  /** The first sixty-four primes, eight to a row. */
  const P0: seq<nat> := [2, 3, 5, 7, 11, 13, 17, 19]
  const P1: seq<nat> := [23, 29, 31, 37, 41, 43, 47, 53]
  const P2: seq<nat> := [59, 61, 67, 71, 73, 79, 83, 89]
  const P3: seq<nat> := [97, 101, 103, 107, 109, 113, 127, 131]
  const P4: seq<nat> := [137, 139, 149, 151, 157, 163, 167, 173]
  const P5: seq<nat> := [179, 181, 191, 193, 197, 199, 211, 223]
  const P6: seq<nat> := [227, 229, 233, 239, 241, 251, 257, 263]
  const P7: seq<nat> := [269, 271, 277, 281, 283, 293, 307, 311]
  const PRIMES: seq<nat> := ((P0 + P1) + (P2 + P3)) + ((P4 + P5) + (P6 + P7))

  /** c, read as a fixed-point number with thirty-two fraction bits, is the cube root of p cut off
      after those bits. */
  predicate IsCubeRoot(p: nat, c: nat) {
    c * c * c <= p * 0x1_0000_0000_0000_0000_0000_0000 < (c + 1) * (c + 1) * (c + 1)
  }

  predicate IsSquareRoot(p: nat, c: nat) {
    c * c <= p * 0x1_0000_0000_0000_0000 < (c + 1) * (c + 1)
  }

  /** w is the first thirty-two bits of the fractional part of the cube root of p. */
  ghost predicate IsCubeRootFraction(p: nat, w: nat) {
    exists c: nat :: IsCubeRoot(p, c) && c % 0x1_0000_0000 == w
  }

  ghost predicate IsSquareRootFraction(p: nat, w: nat) {
    exists c: nat :: IsSquareRoot(p, c) && c % 0x1_0000_0000 == w
  }

  /** The constants of the standard: tables whose entries are those root fractions. */
  datatype Constants = Constants(k: RoundTable, h0: HashValue) {
    ghost predicate Standard() {
      && (forall t :: 0 <= t < 64 ==> IsCubeRootFraction(PRIMES[t], k[t] as nat))
      && (forall t :: 0 <= t < 8 ==> IsSquareRootFraction(PRIMES[t], h0[t] as nat))
    }
  }

  lemma CubeRootUnique(p: nat, c: nat, d: nat)
    requires IsCubeRoot(p, c) && IsCubeRoot(p, d)
    ensures c == d
  {
    CubeMonotone(c + 1, d);
    CubeMonotone(d + 1, c);
  }

  lemma CubeMonotone(a: nat, b: nat)
    ensures a <= b ==> a * a * a <= b * b * b
  {
    if a <= b {
      assert a * a <= b * b;
      assert (a * a) * a <= (b * b) * a <= (b * b) * b;
    }
  }

  lemma SquareRootUnique(p: nat, c: nat, d: nat)
    requires IsSquareRoot(p, c) && IsSquareRoot(p, d)
    ensures c == d
  {
    assert c + 1 <= d ==> (c + 1) * (c + 1) <= d * d;
    assert d + 1 <= c ==> (d + 1) * (d + 1) <= c * c;
  }

  lemma CubeRootFractionUnique(p: nat, w: Word, v: Word)
    requires IsCubeRootFraction(p, w as nat) && IsCubeRootFraction(p, v as nat)
    ensures w == v
  {
    hide IsCubeRoot;
    var c: nat :| IsCubeRoot(p, c) && c % 0x1_0000_0000 == w as nat;
    var d: nat :| IsCubeRoot(p, d) && d % 0x1_0000_0000 == v as nat;
    CubeRootUnique(p, c, d);
    assert (w as nat) as Word == (v as nat) as Word;
  }

  lemma SquareRootFractionUnique(p: nat, w: Word, v: Word)
    requires IsSquareRootFraction(p, w as nat) && IsSquareRootFraction(p, v as nat)
    ensures w == v
  {
    hide IsSquareRoot;
    var c: nat :| IsSquareRoot(p, c) && c % 0x1_0000_0000 == w as nat;
    var d: nat :| IsSquareRoot(p, d) && d % 0x1_0000_0000 == v as nat;
    SquareRootUnique(p, c, d);
    assert (w as nat) as Word == (v as nat) as Word;
  }

  /** The description of the constants leaves one pair of tables. */
  lemma ConstantsUnique(c1: Constants, c2: Constants)
    requires c1.Standard() && c2.Standard()
    ensures c1 == c2
  {
    hide IsCubeRootFraction, IsSquareRootFraction;
    forall t | 0 <= t < 64
      ensures c1.k[t] == c2.k[t]
    {
      CubeRootFractionUnique(PRIMES[t], c1.k[t], c2.k[t]);
    }
    forall t | 0 <= t < 8
      ensures c1.h0[t] == c2.h0[t]
    {
      SquareRootFractionUnique(PRIMES[t], c1.h0[t], c2.h0[t]);
    }
    assert c1.k == c2.k && c1.h0 == c2.h0;
  }

  // ----- Section 5.1.1: padding

  function Zeros(n: nat): (z: Bits)
    ensures |z| == n
  {
    seq(n, _ => false)
  }

  /** The w-bit binary representation of n, most significant bit first. */
  function NatBits(n: nat, w: nat): (b: Bits)
    ensures |b| == w
  {
    if w == 0 then [] else NatBits(n / 2, w - 1) + [n % 2 == 1]
  }

  /** The smallest k with l + 1 + k = 448 modulo 512. */
  function PadZeros(l: nat): nat { (448 - (l + 1)) % 512 }

  function Pad(m: Bits): (p: Bits)
    ensures |p| % BLOCK_BITS == 0
  {
    PadFills(|m|);
    m + [true] + Zeros(PadZeros(|m|)) + NatBits(|m|, 64)
  }

  lemma PadFills(l: nat)
    ensures (l + 1 + PadZeros(l) + 64) % 512 == 0
  {
    var q, r := (l + 1) / 512, (l + 1) % 512;
    assert PadZeros(l) == (448 - r) % 512;
  }

  // ----- Section 5.2.1: parsing a block into sixteen words

  function ByteOf(b: Bits): Byte
    requires |b| == 8
  {
    (if b[0] then 0x80 else 0) | (if b[1] then 0x40 else 0) | (if b[2] then 0x20 else 0) | (if b[3] then 0x10 else 0)
    | (if b[4] then 0x08 else 0) | (if b[5] then 0x04 else 0) | (if b[6] then 0x02 else 0) | (if b[7] then 0x01 else 0)
  }

  /** The byte that starts at bit i. */
  function ByteFrom(b: Bits, i: nat): Byte
    requires i + 8 <= |b|
  {
    ByteOf(b[i..i + 8])
  }

  function Join(b0: Byte, b1: Byte, b2: Byte, b3: Byte): Word {
    ((b0 as Word) << 24) | ((b1 as Word) << 16) | ((b2 as Word) << 8) | (b3 as Word)
  }

  /** The 32-bit word that starts at bit i. */
  function WordAt(b: Bits, i: nat): Word
    requires i + 32 <= |b|
  {
    Join(ByteFrom(b, i), ByteFrom(b, i + 8), ByteFrom(b, i + 16), ByteFrom(b, i + 24))
  }

  /** The sixteen words of the block that starts at bit i. */
  function BlockAt(p: Bits, i: nat): MessageBlock
    requires i + BLOCK_BITS <= |p|
  {
    seq(16, t requires 0 <= t < 16 => WordAt(p, i + 32 * t))
  }

  /** All whole blocks of p, in order. */
  function Blocks(p: Bits): (ms: seq<MessageBlock>)
    ensures |ms| == |p| / BLOCK_BITS
  {
    seq(|p| / BLOCK_BITS, n requires 0 <= n < |p| / BLOCK_BITS => BlockAt(p, BLOCK_BITS * n))
  }

  // ----- Section 6.2.2: the hash computation

  datatype Registers = Registers(a: Word, b: Word, c: Word, d: Word, e: Word, f: Word, g: Word, h: Word)

  /** W_t of the message schedule of block m. */
  function Schedule(m: MessageBlock, t: nat): Word
  {
    if t < 16 then m[t]
    else Expand(Schedule(m, t - 2), Schedule(m, t - 7), Schedule(m, t - 15), Schedule(m, t - 16))
  }

  function Expand(w2: Word, w7: Word, w15: Word, w16: Word): Word {
    Plus(Plus(Plus(SmallSigma1(w2), w7), SmallSigma0(w15)), w16)
  }

  function Round(r: Registers, k: Word, w: Word): Registers {
    var t1 := Plus(Plus(Plus(Plus(r.h, BigSigma1(r.e)), Ch(r.e, r.f, r.g)), k), w);
    var t2 := Plus(BigSigma0(r.a), Maj(r.a, r.b, r.c));
    Registers(Plus(t1, t2), r.a, r.b, r.c, Plus(r.d, t1), r.e, r.f, r.g)
  }

  /** The working variables after the first t rounds. */
  function Rounds(c: Constants, h: HashValue, m: MessageBlock, t: nat): Registers
    requires t <= 64
  {
    if t == 0 then Registers(h[0], h[1], h[2], h[3], h[4], h[5], h[6], h[7])
    else Round(Rounds(c, h, m, t - 1), c.k[t - 1], Schedule(m, t - 1))
  }

  function Compress(c: Constants, h: HashValue, m: MessageBlock): HashValue {
    Update(h, Rounds(c, h, m, |c.k|))
  }

  function Update(h: HashValue, r: Registers): HashValue {
    [Plus(h[0], r.a), Plus(h[1], r.b), Plus(h[2], r.c), Plus(h[3], r.d),
     Plus(h[4], r.e), Plus(h[5], r.f), Plus(h[6], r.g), Plus(h[7], r.h)]
  }

  function Fold<H, M>(f: (H, M) -> H, h: H, ms: seq<M>): H {
    if ms == [] then h else f(Fold(f, h, ms[..|ms| - 1]), ms[|ms| - 1])
  }

  /** The hash value after the whole blocks of p. */
  function Digest(c: Constants, p: Bits): HashValue {
    Fold((h, m) => Compress(c, h, m), c.h0, Blocks(p))
  }

  function BytesOfWord(w: Word): seq<Byte> {
    [((w >> 24) & 0xFF) as Byte, ((w >> 16) & 0xFF) as Byte, ((w >> 8) & 0xFF) as Byte, (w & 0xFF) as Byte]
  }

  function Concatenate(h: seq<Word>): (d: seq<Byte>)
    ensures |d| == 4 * |h|
  {
    if h == [] then [] else Concatenate(h[..|h| - 1]) + BytesOfWord(h[|h| - 1])
  }

  /** The 256-bit digest of the message, as thirty-two bytes. */
  function Hash(c: Constants, m: Bits): (d: seq<Byte>)
    ensures |d| == 32
  {
    Concatenate(Digest(c, Pad(m)))
  }

  // ----- Facts about the definitions

  lemma NatBitsValue(n: nat, m: nat, w: nat)
    requires NatBits(n, w) == NatBits(m, w)
    requires n < Pow2(w) && m < Pow2(w)
    ensures n == m
  {
    if w > 0 {
      var a, b := NatBits(n, w), NatBits(m, w);
      assert a[w - 1] == b[w - 1] && a[..w - 1] == NatBits(n / 2, w - 1) && b[..w - 1] == NatBits(m / 2, w - 1);
      NatBitsValue(n / 2, m / 2, w - 1);
    }
  }

  function Pow2(w: nat): nat { if w == 0 then 1 else 2 * Pow2(w - 1) }

  lemma Pow2Eight(w: nat)
    ensures Pow2(w + 8) == 256 * Pow2(w)
  {
    assert Pow2(w + 4) == 2 * Pow2(w + 3) == 4 * Pow2(w + 2) == 8 * Pow2(w + 1) == 16 * Pow2(w);
    assert Pow2(w + 8) == 2 * Pow2(w + 7) == 4 * Pow2(w + 6) == 8 * Pow2(w + 5) == 16 * Pow2(w + 4);
  }

  lemma Pow2Of64()
    ensures Pow2(64) == LENGTH_LIMIT
  {
    Pow2Eight(0); Pow2Eight(8); Pow2Eight(16); Pow2Eight(24);
    Pow2Eight(32); Pow2Eight(40); Pow2Eight(48); Pow2Eight(56);
  }

  /** Two messages with the same padding are the same message. */
  lemma {:induction false} PadInjective(m1: Bits, m2: Bits)
    requires |m1| < LENGTH_LIMIT && |m2| < LENGTH_LIMIT
    requires Pad(m1) == Pad(m2)
    ensures m1 == m2
  {
    var p := Pad(m1);
    assert p[|p| - 64..] == NatBits(|m1|, 64);
    assert p[|p| - 64..] == NatBits(|m2|, 64);
    Pow2Of64();
    NatBitsValue(|m1|, |m2|, 64);
    assert p[..|m1|] == m1 && p[..|m2|] == m2;
  }

  /** One more block at the end is one more compression. */
  lemma {:induction false} DigestStep(c: Constants, p: Bits, b: Bits)
    requires |p| % BLOCK_BITS == 0 && |b| == BLOCK_BITS
    ensures Digest(c, p + b) == Compress(c, Digest(c, p), BlockAt(b, 0))
  {
    var f := (h, m) => Compress(c, h, m);
    BlocksStep(p, b);
    FoldStep(f, c.h0, Blocks(p), BlockAt(b, 0));
  }

  lemma FoldStep<H, M>(f: (H, M) -> H, h: H, ms: seq<M>, m: M)
    ensures Fold(f, h, ms + [m]) == f(Fold(f, h, ms), m)
  {
    assert (ms + [m])[..|ms|] == ms;
  }

  lemma {:induction false} BlocksStep(p: Bits, b: Bits)
    requires |p| % BLOCK_BITS == 0 && |b| == BLOCK_BITS
    ensures Blocks(p + b) == Blocks(p) + [BlockAt(b, 0)]
  {
    var q := p + b;
    forall n {:trigger Blocks(q)[n]} | 0 <= n < |p| / BLOCK_BITS
      ensures Blocks(q)[n] == Blocks(p)[n]
    {
      BlockShift(q, p, BLOCK_BITS * n, BLOCK_BITS * n);
    }
    BlockShift(q, b, |p|, 0);
  }

  /** Equal bits make equal blocks, wherever they stand. */
  lemma BlockShift(p: Bits, q: Bits, i: nat, j: nat)
    requires i + BLOCK_BITS <= |p| && j + BLOCK_BITS <= |q|
    requires p[i..i + BLOCK_BITS] == q[j..j + BLOCK_BITS]
    ensures BlockAt(p, i) == BlockAt(q, j)
  {
    hide WordAt;
    forall t {:trigger BlockAt(p, i)[t]} | 0 <= t < 16
      ensures BlockAt(p, i)[t] == BlockAt(q, j)[t]
    {
      WordShift(p, q, i, j, 32 * t);
    }
  }

  lemma WordShift(p: Bits, q: Bits, i: nat, j: nat, t: nat)
    requires i + BLOCK_BITS <= |p| && j + BLOCK_BITS <= |q| && t + 32 <= BLOCK_BITS
    requires p[i..i + BLOCK_BITS] == q[j..j + BLOCK_BITS]
    ensures WordAt(p, i + t) == WordAt(q, j + t)
  {
    SliceShift(p, q, i, j, t);
    SliceShift(p, q, i, j, t + 8);
    SliceShift(p, q, i, j, t + 16);
    SliceShift(p, q, i, j, t + 24);
  }

  lemma SliceShift(p: Bits, q: Bits, i: nat, j: nat, t: nat)
    requires i + BLOCK_BITS <= |p| && j + BLOCK_BITS <= |q| && t + 8 <= BLOCK_BITS
    requires p[i..i + BLOCK_BITS] == q[j..j + BLOCK_BITS]
    ensures p[i + t..i + t + 8] == q[j + t..j + t + 8]
  {
    SliceOfSlice(p, i, i + BLOCK_BITS, t, t + 8);
    SliceOfSlice(q, j, j + BLOCK_BITS, t, t + 8);
  }

  lemma SliceOfSlice<T>(s: seq<T>, a: nat, b: nat, c: nat, d: nat)
    requires a <= b <= |s| && c <= d <= b - a
    ensures s[a..b][c..d] == s[a + c..a + d]
  {
    var u, v := s[a..b][c..d], s[a + c..a + d];
    forall k | 0 <= k < |u|
      ensures u[k] == v[k]
    {
      assert u[k] == s[a..b][c + k];
    }
    assert u == v;
  }

  lemma ScheduleStart(m: MessageBlock, t: nat)
    requires t < 16
    ensures Schedule(m, t) == m[t]
  {
  }

  lemma RoundsStart(c: Constants, h: HashValue, m: MessageBlock)
    ensures Rounds(c, h, m, 0) == Registers(h[0], h[1], h[2], h[3], h[4], h[5], h[6], h[7])
  {
  }

  lemma ScheduleStep(m: MessageBlock, t: nat)
    requires t >= 16
    ensures Schedule(m, t)
         == Expand(Schedule(m, t - 2), Schedule(m, t - 7), Schedule(m, t - 15), Schedule(m, t - 16))
  {
    hide Expand;
  }

  lemma RoundsStep(c: Constants, h: HashValue, m: MessageBlock, t: nat)
    requires t < 64
    ensures Rounds(c, h, m, t + 1) == Round(Rounds(c, h, m, t), c.k[t], Schedule(m, t))
  {
    hide Round, Schedule;
  }

  /** Byte i of the digest is byte i % 4 of word i / 4, most significant first. */
  lemma {:induction false} ConcatenateAt(h: seq<Word>, i: nat)
    requires i < 4 * |h|
    ensures Concatenate(h)[i] == BytesOfWord(h[i / 4])[i % 4]
  {
    if i < 4 * (|h| - 1) {
      ConcatenateAt(h[..|h| - 1], i);
    }
  }
}
