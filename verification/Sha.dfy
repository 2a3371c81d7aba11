/** The streaming SHA-256 context of crypto/fwoop_sha.cpp: fields and block buffer updated in
    place, proved against the reference definition in Fips180. */
module Sha {
  import opened Buffers
  import opened Fips180
  import opened Wrappers

  const HASH_SIZE := 32
  const MESSAGE_BLOCK_SIZE := 64
  const UINT32 := 0x1_0000_0000
  /** 2^29 bytes are 2^32 bits: the low word of the length counter carries. */
  const CARRY_BYTES := 0x2000_0000

  const H0: seq<Word> := [0x6A09E667, 0xBB67AE85, 0x3C6EF372, 0xA54FF53A, 0x510E527F, 0x9B05688C, 0x1F83D9AB,
    0x5BE0CD19]

  const K0: seq<Word> := [0x428a2f98, 0x71374491, 0xb5c0fbcf, 0xe9b5dba5, 0x3956c25b, 0x59f111f1, 0x923f82a4,
    0xab1c5ed5]
  const K1: seq<Word> := [0xd807aa98, 0x12835b01, 0x243185be, 0x550c7dc3, 0x72be5d74, 0x80deb1fe, 0x9bdc06a7,
    0xc19bf174]
  const K2: seq<Word> := [0xe49b69c1, 0xefbe4786, 0x0fc19dc6, 0x240ca1cc, 0x2de92c6f, 0x4a7484aa, 0x5cb0a9dc,
    0x76f988da]
  const K3: seq<Word> := [0x983e5152, 0xa831c66d, 0xb00327c8, 0xbf597fc7, 0xc6e00bf3, 0xd5a79147, 0x06ca6351,
    0x14292967]
  const K4: seq<Word> := [0x27b70a85, 0x2e1b2138, 0x4d2c6dfc, 0x53380d13, 0x650a7354, 0x766a0abb, 0x81c2c92e,
    0x92722c85]
  const K5: seq<Word> := [0xa2bfe8a1, 0xa81a664b, 0xc24b8b70, 0xc76c51a3, 0xd192e819, 0xd6990624, 0xf40e3585,
    0x106aa070]
  const K6: seq<Word> := [0x19a4c116, 0x1e376c08, 0x2748774c, 0x34b0bcb5, 0x391c0cb3, 0x4ed8aa4a, 0x5b9cca4f,
    0x682e6ff3]
  const K7: seq<Word> := [0x748f82ee, 0x78a5636f, 0x84c87814, 0x8cc70208, 0x90befffa, 0xa4506ceb, 0xbef9a3f7,
    0xc67178f2]
  const K: seq<Word> := ((K0 + K1) + (K2 + K3)) + ((K4 + K5) + (K6 + K7))

  function Tables(): Constants { Constants(K, H0) }

  // ----- The macros

  function MacroShr(bits: bv6, word: Word): Word requires bits < 32 { word >> bits }

  function MacroRotr(bits: bv6, word: Word): Word requires bits < 32 { (word >> bits) | (word << (32 - bits)) }

  function MacroBigSigma0(word: Word): Word { MacroRotr(2, word) ^ MacroRotr(13, word) ^ MacroRotr(22, word) }

  function MacroBigSigma1(word: Word): Word { MacroRotr(6, word) ^ MacroRotr(11, word) ^ MacroRotr(25, word) }

  function MacroSigma0(word: Word): Word { MacroRotr(7, word) ^ MacroRotr(18, word) ^ MacroShr(3, word) }

  function MacroSigma1(word: Word): Word { MacroRotr(17, word) ^ MacroRotr(19, word) ^ MacroShr(10, word) }

  function MacroCh(x: Word, y: Word, z: Word): Word { (x & y) ^ (!x & z) }

  function MacroMaj(x: Word, y: Word, z: Word): Word { (x & y) ^ (x & z) ^ (y & z) }

  // They are the functions of the standard.

  lemma RotrIsStandard(bits: bv6, word: Word)
    requires bits < 32
    ensures MacroRotr(bits, word) == Rotr(bits, word)
  {
  }

  lemma ShrIsStandard(bits: bv6, word: Word)
    requires bits < 32
    ensures MacroShr(bits, word) == Shr(bits, word)
  {
  }

  function Xor3(a: Word, b: Word, c: Word): Word { a ^ b ^ c }

  lemma BigSigma0Parts(x: Word)
    ensures MacroBigSigma0(x) == Xor3(MacroRotr(2, x), MacroRotr(13, x), MacroRotr(22, x))
    ensures BigSigma0(x) == Xor3(Rotr(2, x), Rotr(13, x), Rotr(22, x))
  {
    hide MacroRotr, Rotr;
  }

  lemma BigSigma0IsStandard(x: Word)
    ensures MacroBigSigma0(x) == BigSigma0(x)
  {
    hide MacroRotr, Rotr, Xor3, BigSigma0, MacroBigSigma0;
    BigSigma0Parts(x);
    RotrIsStandard(2, x);
    RotrIsStandard(13, x);
    RotrIsStandard(22, x);
  }

  lemma BigSigma1Parts(x: Word)
    ensures MacroBigSigma1(x) == Xor3(MacroRotr(6, x), MacroRotr(11, x), MacroRotr(25, x))
    ensures BigSigma1(x) == Xor3(Rotr(6, x), Rotr(11, x), Rotr(25, x))
  {
    hide MacroRotr, Rotr;
  }

  lemma BigSigma1IsStandard(x: Word)
    ensures MacroBigSigma1(x) == BigSigma1(x)
  {
    hide MacroRotr, Rotr, Xor3, BigSigma1, MacroBigSigma1;
    BigSigma1Parts(x);
    RotrIsStandard(6, x);
    RotrIsStandard(11, x);
    RotrIsStandard(25, x);
  }

  lemma SmallSigma0Parts(x: Word)
    ensures MacroSigma0(x) == Xor3(MacroRotr(7, x), MacroRotr(18, x), MacroShr(3, x))
    ensures SmallSigma0(x) == Xor3(Rotr(7, x), Rotr(18, x), Shr(3, x))
  {
    hide MacroRotr, Rotr, MacroShr, Shr;
  }

  lemma SmallSigma0IsStandard(x: Word)
    ensures MacroSigma0(x) == SmallSigma0(x)
  {
    hide MacroRotr, Rotr, MacroShr, Shr, Xor3, SmallSigma0, MacroSigma0;
    SmallSigma0Parts(x);
    RotrIsStandard(7, x);
    RotrIsStandard(18, x);
    ShrIsStandard(3, x);
  }

  lemma SmallSigma1Parts(x: Word)
    ensures MacroSigma1(x) == Xor3(MacroRotr(17, x), MacroRotr(19, x), MacroShr(10, x))
    ensures SmallSigma1(x) == Xor3(Rotr(17, x), Rotr(19, x), Shr(10, x))
  {
    hide MacroRotr, Rotr, MacroShr, Shr;
  }

  lemma SmallSigma1IsStandard(x: Word)
    ensures MacroSigma1(x) == SmallSigma1(x)
  {
    hide MacroRotr, Rotr, MacroShr, Shr, Xor3, SmallSigma1, MacroSigma1;
    SmallSigma1Parts(x);
    RotrIsStandard(17, x);
    RotrIsStandard(19, x);
    ShrIsStandard(10, x);
  }

  lemma ChIsStandard(x: Word, y: Word, z: Word)
    ensures MacroCh(x, y, z) == Ch(x, y, z)
  {
  }

  lemma MajIsStandard(x: Word, y: Word, z: Word)
    ensures MacroMaj(x, y, z) == Maj(x, y, z)
  {
  }

  // ----- The tables are the standard's

  lemma CubeRootFraction(p: nat, c: nat, w: Word)
    requires IsCubeRoot(p, c) && c % UINT32 == w as nat
    ensures IsCubeRootFraction(p, w as nat)
  {
  }

  lemma SquareRootFraction(p: nat, c: nat, w: Word)
    requires IsSquareRoot(p, c) && c % UINT32 == w as nat
    ensures IsSquareRootFraction(p, w as nat)
  {
  }

  lemma RoundConstants0()
    ensures forall t :: 0 <= t < 8 ==> IsCubeRootFraction(P0[t], K0[t] as nat)
  {
    CubeRootFraction(2, 0x1428A2F98, 0x428a2f98); CubeRootFraction(3, 0x171374491, 0x71374491);
    CubeRootFraction(5, 0x1B5C0FBCF, 0xb5c0fbcf); CubeRootFraction(7, 0x1E9B5DBA5, 0xe9b5dba5);
    CubeRootFraction(11, 0x23956C25B, 0x3956c25b); CubeRootFraction(13, 0x259F111F1, 0x59f111f1);
    CubeRootFraction(17, 0x2923F82A4, 0x923f82a4); CubeRootFraction(19, 0x2AB1C5ED5, 0xab1c5ed5);
  }

  lemma RoundConstants1()
    ensures forall t :: 0 <= t < 8 ==> IsCubeRootFraction(P1[t], K1[t] as nat)
  {
    CubeRootFraction(23, 0x2D807AA98, 0xd807aa98); CubeRootFraction(29, 0x312835B01, 0x12835b01);
    CubeRootFraction(31, 0x3243185BE, 0x243185be); CubeRootFraction(37, 0x3550C7DC3, 0x550c7dc3);
    CubeRootFraction(41, 0x372BE5D74, 0x72be5d74); CubeRootFraction(43, 0x380DEB1FE, 0x80deb1fe);
    CubeRootFraction(47, 0x39BDC06A7, 0x9bdc06a7); CubeRootFraction(53, 0x3C19BF174, 0xc19bf174);
  }

  lemma RoundConstants2()
    ensures forall t :: 0 <= t < 8 ==> IsCubeRootFraction(P2[t], K2[t] as nat)
  {
    CubeRootFraction(59, 0x3E49B69C1, 0xe49b69c1); CubeRootFraction(61, 0x3EFBE4786, 0xefbe4786);
    CubeRootFraction(67, 0x40FC19DC6, 0x0fc19dc6); CubeRootFraction(71, 0x4240CA1CC, 0x240ca1cc);
    CubeRootFraction(73, 0x42DE92C6F, 0x2de92c6f); CubeRootFraction(79, 0x44A7484AA, 0x4a7484aa);
    CubeRootFraction(83, 0x45CB0A9DC, 0x5cb0a9dc); CubeRootFraction(89, 0x476F988DA, 0x76f988da);
  }

  lemma RoundConstants3()
    ensures forall t :: 0 <= t < 8 ==> IsCubeRootFraction(P3[t], K3[t] as nat)
  {
    CubeRootFraction(97, 0x4983E5152, 0x983e5152); CubeRootFraction(101, 0x4A831C66D, 0xa831c66d);
    CubeRootFraction(103, 0x4B00327C8, 0xb00327c8); CubeRootFraction(107, 0x4BF597FC7, 0xbf597fc7);
    CubeRootFraction(109, 0x4C6E00BF3, 0xc6e00bf3); CubeRootFraction(113, 0x4D5A79147, 0xd5a79147);
    CubeRootFraction(127, 0x506CA6351, 0x06ca6351); CubeRootFraction(131, 0x514292967, 0x14292967);
  }

  lemma RoundConstants4()
    ensures forall t :: 0 <= t < 8 ==> IsCubeRootFraction(P4[t], K4[t] as nat)
  {
    CubeRootFraction(137, 0x527B70A85, 0x27b70a85); CubeRootFraction(139, 0x52E1B2138, 0x2e1b2138);
    CubeRootFraction(149, 0x54D2C6DFC, 0x4d2c6dfc); CubeRootFraction(151, 0x553380D13, 0x53380d13);
    CubeRootFraction(157, 0x5650A7354, 0x650a7354); CubeRootFraction(163, 0x5766A0ABB, 0x766a0abb);
    CubeRootFraction(167, 0x581C2C92E, 0x81c2c92e); CubeRootFraction(173, 0x592722C85, 0x92722c85);
  }

  lemma RoundConstants5()
    ensures forall t :: 0 <= t < 8 ==> IsCubeRootFraction(P5[t], K5[t] as nat)
  {
    CubeRootFraction(179, 0x5A2BFE8A1, 0xa2bfe8a1); CubeRootFraction(181, 0x5A81A664B, 0xa81a664b);
    CubeRootFraction(191, 0x5C24B8B70, 0xc24b8b70); CubeRootFraction(193, 0x5C76C51A3, 0xc76c51a3);
    CubeRootFraction(197, 0x5D192E819, 0xd192e819); CubeRootFraction(199, 0x5D6990624, 0xd6990624);
    CubeRootFraction(211, 0x5F40E3585, 0xf40e3585); CubeRootFraction(223, 0x6106AA070, 0x106aa070);
  }

  lemma RoundConstants6()
    ensures forall t :: 0 <= t < 8 ==> IsCubeRootFraction(P6[t], K6[t] as nat)
  {
    CubeRootFraction(227, 0x619A4C116, 0x19a4c116); CubeRootFraction(229, 0x61E376C08, 0x1e376c08);
    CubeRootFraction(233, 0x62748774C, 0x2748774c); CubeRootFraction(239, 0x634B0BCB5, 0x34b0bcb5);
    CubeRootFraction(241, 0x6391C0CB3, 0x391c0cb3); CubeRootFraction(251, 0x64ED8AA4A, 0x4ed8aa4a);
    CubeRootFraction(257, 0x65B9CCA4F, 0x5b9cca4f); CubeRootFraction(263, 0x6682E6FF3, 0x682e6ff3);
  }

  lemma RoundConstants7()
    ensures forall t :: 0 <= t < 8 ==> IsCubeRootFraction(P7[t], K7[t] as nat)
  {
    CubeRootFraction(269, 0x6748F82EE, 0x748f82ee); CubeRootFraction(271, 0x678A5636F, 0x78a5636f);
    CubeRootFraction(277, 0x684C87814, 0x84c87814); CubeRootFraction(281, 0x68CC70208, 0x8cc70208);
    CubeRootFraction(283, 0x690BEFFFA, 0x90befffa); CubeRootFraction(293, 0x6A4506CEB, 0xa4506ceb);
    CubeRootFraction(307, 0x6BEF9A3F7, 0xbef9a3f7); CubeRootFraction(311, 0x6C67178F2, 0xc67178f2);
  }

  lemma InitialWords()
    ensures forall t :: 0 <= t < 8 ==> IsSquareRootFraction(P0[t], H0[t] as nat)
  {
    SquareRootFraction(2, 0x16A09E667, 0x6A09E667); SquareRootFraction(3, 0x1BB67AE85, 0xBB67AE85);
    SquareRootFraction(5, 0x23C6EF372, 0x3C6EF372); SquareRootFraction(7, 0x2A54FF53A, 0xA54FF53A);
    SquareRootFraction(11, 0x3510E527F, 0x510E527F); SquareRootFraction(13, 0x39B05688C, 0x9B05688C);
    SquareRootFraction(17, 0x41F83D9AB, 0x1F83D9AB); SquareRootFraction(19, 0x45BE0CD19, 0x5BE0CD19);
  }

  lemma TableRows()
    ensures forall t :: 0 <= t < 64 ==> IsCubeRootFraction(PRIMES[t], K[t] as nat)
  {
    RoundConstants0(); RoundConstants1(); RoundConstants2(); RoundConstants3();
    RoundConstants4(); RoundConstants5(); RoundConstants6(); RoundConstants7();
    hide IsCubeRootFraction;
    forall t | 0 <= t < 64
      ensures IsCubeRootFraction(PRIMES[t], K[t] as nat)
    {
      RowElement(K0, K1, K2, K3, K4, K5, K6, K7, t);
      RowElement(P0, P1, P2, P3, P4, P5, P6, P7, t);
    }
  }

  /** Every entry of both tables is the root fraction the standard prescribes. */
  lemma TablesAreStandard()
    ensures Tables().Standard()
  {
    TableRows();
    InitialWords();
    assert forall t :: 0 <= t < 8 ==> PRIMES[t] == P0[t];
    hide IsCubeRootFraction, IsSquareRootFraction;
  }

  // ----- Byte strings as bit strings

  function BitsOfByte(x: Byte): (b: Bits)
    ensures |b| == 8
  {
    [x & 0x80 != 0, x & 0x40 != 0, x & 0x20 != 0, x & 0x10 != 0,
     x & 0x08 != 0, x & 0x04 != 0, x & 0x02 != 0, x & 0x01 != 0]
  }

  function BitsOf(bytes: seq<Byte>): (b: Bits)
    ensures |b| == 8 * |bytes|
  {
    if bytes == [] then [] else BitsOf(bytes[..|bytes| - 1]) + BitsOfByte(bytes[|bytes| - 1])
  }

  lemma {:induction false} BitsOfAppend(a: seq<Byte>, b: seq<Byte>)
    ensures BitsOf(a + b) == BitsOf(a) + BitsOf(b)
  {
    if b == [] {
      assert a + b == a;
    } else {
      assert (a + b)[..|a + b| - 1] == a + b[..|b| - 1];
      BitsOfAppend(a, b[..|b| - 1]);
    }
  }

  lemma BitsOfOne(x: Byte)
    ensures BitsOf([x]) == BitsOfByte(x)
  {
    assert [x][..0] == [];
  }

  lemma ByteRoundTrip(x: Byte)
    ensures ByteOf(BitsOfByte(x)) == x
  {
  }

  lemma BitsRoundTrip(b: Bits)
    requires |b| == 8
    ensures BitsOfByte(ByteOf(b)) == b
  {
  }

  lemma {:induction false} ByteAt(bytes: seq<Byte>, k: nat)
    requires k < |bytes|
    ensures ByteFrom(BitsOf(bytes), 8 * k) == bytes[k]
  {
    var a, b := bytes[..k], bytes[k + 1..];
    assert bytes == a + [bytes[k]] + b;
    BitsOfAppend(a + [bytes[k]], b);
    BitsOfAppend(a, [bytes[k]]);
    BitsOfOne(bytes[k]);
    Middle(BitsOf(a), BitsOfByte(bytes[k]), BitsOf(b));
    ByteRoundTrip(bytes[k]);
  }

  lemma Middle<T>(a: seq<T>, b: seq<T>, c: seq<T>)
    ensures (a + b + c)[|a|..|a| + |b|] == b
  {
  }

  /** The sixteen words the code reads out of a 64-byte buffer. */
  function WordsOf(block: seq<Byte>): MessageBlock
    requires |block| == MESSAGE_BLOCK_SIZE
  {
    seq(16, t requires 0 <= t < 16 => Join(block[4 * t], block[4 * t + 1], block[4 * t + 2], block[4 * t + 3]))
  }

  lemma WordOfBytes(block: seq<Byte>, t: nat)
    requires 4 * t + 4 <= |block|
    ensures WordAt(BitsOf(block), 32 * t) == Join(block[4 * t], block[4 * t + 1], block[4 * t + 2], block[4 * t + 3])
  {
    hide ByteFrom, Join, BitsOf;
    ByteAt(block, 4 * t);
    ByteAt(block, 4 * t + 1);
    ByteAt(block, 4 * t + 2);
    ByteAt(block, 4 * t + 3);
  }

  lemma WordsOfBlock(block: seq<Byte>)
    requires |block| == MESSAGE_BLOCK_SIZE
    ensures WordsOf(block) == BlockAt(BitsOf(block), 0)
  {
    hide ByteOf, Join, WordAt;
    forall t {:trigger WordsOf(block)[t]} | 0 <= t < 16
      ensures WordsOf(block)[t] == BlockAt(BitsOf(block), 0)[t]
    {
      WordOfBytes(block, t);
    }
  }

  // ----- The padding the code writes, byte by byte

  /** The conversion of an unsigned number to uint8_t keeps its low eight bits. */
  function LowByte(n: nat): Byte { ByteOf(NatBits(n, 8)) }

  function ZeroBytes(n: nat): (z: seq<Byte>)
    ensures |z| == n
  {
    seq(n, _ => 0)
  }

  function LengthBytes(high: nat, low: nat): (b: seq<Byte>)
    ensures |b| == 8
  {
    [LowByte(high / 0x100_0000), LowByte(high / 0x1_0000), LowByte(high / 0x100), LowByte(high),
     LowByte(low / 0x100_0000), LowByte(low / 0x1_0000), LowByte(low / 0x100), LowByte(low)]
  }

  lemma {:induction false} NatBitsNibble(n: nat, w: nat)
    ensures NatBits(n, w + 4) == NatBits(n / 16, w) + [n / 8 % 2 == 1, n / 4 % 2 == 1, n / 2 % 2 == 1, n % 2 == 1]
  {
    assert NatBits(n, w + 4) == NatBits(n / 2, w + 3) + [n % 2 == 1];
    assert NatBits(n / 2, w + 3) == NatBits(n / 4, w + 2) + [n / 2 % 2 == 1];
    assert NatBits(n / 4, w + 2) == NatBits(n / 8, w + 1) + [n / 4 % 2 == 1];
    assert NatBits(n / 8, w + 1) == NatBits(n / 16, w) + [n / 8 % 2 == 1];
  }

  /** The last eight bits split off. */
  lemma {:induction false} NatBitsSplit(n: nat, w: nat)
    ensures NatBits(n, w + 8) == NatBits(n / 256, w) + NatBits(n, 8)
  {
    hide NatBits;
    NatBitsNibble(n, w + 4);
    NatBitsNibble(n / 16, w);
    NatBitsNibble(n, 4);
    NatBitsNibble(n / 16, 0);
    NoNibble(n / 256);
    TwoSixteenths(n);
  }

  lemma NoNibble(n: nat)
    ensures NatBits(n, 0) == []
  {
  }

  lemma TwoSixteenths(n: nat)
    ensures n / 16 / 16 == n / 256
  {
  }

  lemma BitsModSixteen(n: nat)
    ensures n / 8 % 2 == n % 16 / 8 && n / 4 % 2 == n % 16 / 4 % 2 && n / 2 % 2 == n % 16 / 2 % 2 && n % 2 == n % 16 % 2
  {
    var q, r := n / 16, n % 16;
    QuotientIs(n, 8, 2 * q + r / 8, r % 8);
    QuotientIs(n, 4, 4 * q + r / 4, r % 4);
    QuotientIs(n, 2, 8 * q + r / 2, r % 2);
    EvenShift(q, r / 8);
    EvenShift(2 * q, r / 4);
    EvenShift(4 * q, r / 2);
    EvenShift(8 * q, r);
  }

  lemma EvenShift(q: nat, r: nat)
    ensures (2 * q + r) % 2 == r % 2
  {
  }

  lemma QuotientIs(n: nat, a: nat, k: nat, r: nat)
    requires n == a * k + r && r < a
    ensures n / a == k
  {
    var d := n / a - k;
    assert a * d == a * (n / a) - a * k;
    MultipleBounds(a, d);
  }

  lemma MultipleBounds(a: int, d: int)
    requires a > 0
    ensures d >= 1 ==> a * d >= a
    ensures d <= -1 ==> a * d <= -a
  {
  }

  lemma {:induction false} NatBitsLowNibble(n: nat, m: nat)
    requires n % 16 == m % 16
    ensures NatBits(n, 4) == NatBits(m, 4)
  {
    BitsModSixteen(n);
    BitsModSixteen(m);
    NatBitsNibble(n, 0);
    NatBitsNibble(m, 0);
  }

  lemma NibblesOfByte(n: nat)
    ensures n / 16 % 16 == n % 256 / 16 && n % 16 == n % 256 % 16
  {
    var q, r := n / 256, n % 256;
    assert n == 256 * q + r;
    assert n / 16 == 16 * q + r / 16;
    assert n % 16 == r % 16;
  }

  lemma {:induction false} NatBitsByte(n: nat)
    ensures NatBits(n, 8) == NatBits(n / 16, 4) + NatBits(n, 4)
  {
    NatBitsNibble(n, 4);
    NatBitsNibble(n, 0);
  }

  /** Only the low eight bits of a number reach its last eight positions. */
  lemma NatBitsLow(n: nat, m: nat)
    requires n % 256 == m % 256
    ensures NatBits(n, 8) == NatBits(m, 8)
  {
    hide NatBits;
    NatBitsByte(n);
    NatBitsByte(m);
    NibblesOfByte(n);
    NibblesOfByte(m);
    NatBitsLowNibble(n / 16, m / 16);
    NatBitsLowNibble(n, m);
  }

  lemma LowByteBits(n: nat, m: nat)
    requires n % 256 == m % 256
    ensures NatBits(n, 8) == BitsOfByte(LowByte(m))
  {
    hide BitsOfByte;
    BitsRoundTrip(NatBits(m, 8));
    NatBitsLow(n, m);
  }

  /** The eight bytes the code appends are the standard's 64-bit length field. */
  lemma LengthField(high: nat, low: nat)
    requires high < UINT32 && low < UINT32
    ensures BitsOf(LengthBytes(high, low)) == NatBits(high * UINT32 + low, 64)
  {
    hide NatBits, LowByte, BitsOf;
    var n := high * UINT32 + low;
    LowHalf(n, low, 32);
    LowHalf(high, high, 0);
    var a := [LowByte(high / 0x100_0000), LowByte(high / 0x1_0000), LowByte(high / 0x100), LowByte(high)];
    var b := [LowByte(low / 0x100_0000), LowByte(low / 0x1_0000), LowByte(low / 0x100), LowByte(low)];
    BitsOfAppend(a, b);
    assert LengthBytes(high, low) == a + b;
  }

  lemma LowHalf(n: nat, low: nat, w: nat)
    requires n % UINT32 == low
    ensures NatBits(n, w + 32) == NatBits(n / UINT32, w)
      + BitsOf([LowByte(low / 0x100_0000), LowByte(low / 0x1_0000), LowByte(low / 0x100), LowByte(low)])
  {
    hide NatBits, LowByte, BitsOfByte, BitsOf;
    NatBitsFourBytes(n, w);
    LowBytesAgree(n, low);
    LowByteBits(n, low);
    LowByteBits(n / 0x100, low / 0x100);
    LowByteBits(n / 0x1_0000, low / 0x1_0000);
    LowByteBits(n / 0x100_0000, low / 0x100_0000);
    BitsOfFour(LowByte(low / 0x100_0000), LowByte(low / 0x1_0000), LowByte(low / 0x100), LowByte(low));
  }

  lemma NatBitsFourBytes(n: nat, w: nat)
    ensures NatBits(n, w + 32) == NatBits(n / UINT32, w)
      + (NatBits(n / 0x100_0000, 8) + NatBits(n / 0x1_0000, 8) + NatBits(n / 0x100, 8) + NatBits(n, 8))
  {
    hide NatBits;
    NatBitsSplit(n, w + 24);
    NatBitsSplit(n / 0x100, w + 16);
    NatBitsSplit(n / 0x1_0000, w + 8);
    NatBitsSplit(n / 0x100_0000, w);
    assert n / 0x100 / 0x100 == n / 0x1_0000 && n / 0x1_0000 / 0x100 == n / 0x100_0000
      && n / 0x100_0000 / 0x100 == n / UINT32;
  }

  lemma LowBytesAgree(n: nat, low: nat)
    requires n % UINT32 == low
    ensures n % 256 == low % 256 && n / 0x100 % 256 == low / 0x100 % 256
    ensures n / 0x1_0000 % 256 == low / 0x1_0000 % 256 && n / 0x100_0000 % 256 == low / 0x100_0000 % 256
  {
    var q := n / UINT32;
    QuotientIs(n, 0x100, 0x100_0000 * q + low / 0x100, low % 0x100);
    QuotientIs(n, 0x1_0000, 0x1_0000 * q + low / 0x1_0000, low % 0x1_0000);
    QuotientIs(n, 0x100_0000, 0x100 * q + low / 0x100_0000, low % 0x100_0000);
    ByteShift(0x100_0000 * q, low);
    ByteShift(0x1_0000 * q, low / 0x100);
    ByteShift(0x100 * q, low / 0x1_0000);
    ByteShift(q, low / 0x100_0000);
  }

  lemma ByteShift(q: nat, r: nat)
    ensures (256 * q + r) % 256 == r % 256
  {
  }

  lemma BitsOfFour(a: Byte, b: Byte, c: Byte, d: Byte)
    ensures BitsOf([a, b, c, d]) == BitsOfByte(a) + BitsOfByte(b) + BitsOfByte(c) + BitsOfByte(d)
  {
    hide BitsOfByte;
    assert [a, b, c, d] == [a, b, c] + [d] && [a, b, c] == [a, b] + [c] && [a, b] == [a] + [b];
    BitsOfAppend([a, b, c], [d]);
    BitsOfAppend([a, b], [c]);
    BitsOfAppend([a], [b]);
    BitsOfOne(a); BitsOfOne(b); BitsOfOne(c); BitsOfOne(d);
  }

  /** The bytes the code appends to a message of whole bytes msg followed by the last byte pad:
      zeros up to the length field, then the length of the message in bits. */
  function PadBytes(msg: seq<Byte>, pad: Byte, high: nat, low: nat): seq<Byte> {
    msg + [pad] + ZeroBytes((55 - |msg|) % 64) + LengthBytes(high, low)
  }

  /** pad holds the n final bits of the message, the marker bit and zeros. */
  predicate IsPadByte(pad: Byte, tail: Bits) {
    |tail| < 8 && BitsOfByte(pad) == tail + [true] + Zeros(7 - |tail|)
  }

  lemma {:induction false} ZeroByteBits(n: nat)
    ensures BitsOf(ZeroBytes(n)) == Zeros(8 * n)
  {
    if n > 0 {
      assert ZeroBytes(n) == ZeroBytes(n - 1) + [0];
      ZeroByteBits(n - 1);
      BitsOfAppend(ZeroBytes(n - 1), [0]);
      BitsOfOne(0);
      assert BitsOfByte(0) == Zeros(8);
    }
  }

  lemma PadZerosInBytes(bytes: nat, tail: nat)
    requires tail < 8
    ensures PadZeros(8 * bytes + tail) == (7 - tail) + 8 * ((55 - bytes) % 64)
  {
    var q, z := (55 - bytes) / 64, (55 - bytes) % 64;
    assert 55 - bytes == 64 * q + z;
    assert 448 - (8 * bytes + tail + 1) == 512 * q + (7 - tail + 8 * z);
  }

  lemma PadBytesBits(msg: seq<Byte>, pad: Byte, high: nat, low: nat)
    ensures BitsOf(PadBytes(msg, pad, high, low))
         == BitsOf(msg) + BitsOfByte(pad) + Zeros(8 * ((55 - |msg|) % 64)) + BitsOf(LengthBytes(high, low))
  {
    hide BitsOf, BitsOfByte, LengthBytes, Zeros;
    var z := (55 - |msg|) % 64;
    BitsOfAppend(msg + [pad] + ZeroBytes(z), LengthBytes(high, low));
    BitsOfAppend(msg + [pad], ZeroBytes(z));
    BitsOfAppend(msg, [pad]);
    BitsOfOne(pad);
    ZeroByteBits(z);
  }

  /** What the code compresses is the standard's padding of the bit string taken in. */
  lemma PaddingRefines(msg: seq<Byte>, tail: Bits, pad: Byte, high: nat, low: nat)
    requires IsPadByte(pad, tail)
    requires high < UINT32 && low < UINT32 && high * UINT32 + low == 8 * |msg| + |tail|
    ensures BitsOf(PadBytes(msg, pad, high, low)) == Pad(BitsOf(msg) + tail)
    ensures |PadBytes(msg, pad, high, low)| % MESSAGE_BLOCK_SIZE == 0
  {
    hide BitsOf, BitsOfByte, NatBits, LengthBytes, PadZeros, PadBytes;
    PadBytesWhole(msg, pad, high, low);
    PadBytesBits(msg, pad, high, low);
    LengthField(high, low);
    PadParts(BitsOf(msg), tail, |msg|);
    hide Zeros, Pad;
  }

  /** The padding of some bytes and less than a byte of bits: their last byte, zero bytes and the length. */
  lemma PadParts(bits: Bits, tail: Bits, bytes: nat)
    requires |bits| == 8 * bytes && |tail| < 8
    ensures Pad(bits + tail) == (bits + (tail + [true] + Zeros(7 - |tail|)) + Zeros(8 * ((55 - bytes) % 64))
      + NatBits(8 * bytes + |tail|, 64))
  {
    hide NatBits, PadZeros;
    var z := 8 * ((55 - bytes) % 64);
    PadZerosInBytes(bytes, |tail|);
    ZerosAdd(7 - |tail|, z);
    hide Zeros;
    Regroup(bits, tail, [true], Zeros(7 - |tail|), Zeros(z));
  }

  lemma PadBytesWhole(msg: seq<Byte>, pad: Byte, high: nat, low: nat)
    ensures |PadBytes(msg, pad, high, low)| % MESSAGE_BLOCK_SIZE == 0
  {
    hide LengthBytes, ZeroBytes;
    var q := (55 - |msg|) / 64;
    assert |PadBytes(msg, pad, high, low)| == 64 - 64 * q;
  }

  lemma ZerosAdd(a: nat, b: nat)
    ensures Zeros(a + b) == Zeros(a) + Zeros(b)
  {
  }

  lemma Regroup<T>(a: seq<T>, b: seq<T>, c: seq<T>, d: seq<T>, e: seq<T>)
    ensures a + (b + c + d) + e == a + b + c + (d + e)
  {
  }

  // ----- The block buffer, as values

  /** The last idx bytes of m wait in the block; all before them went into the hash value. */
  ghost predicate Buffered(m: seq<Byte>, idx: int, block: seq<Byte>, h: seq<Word>) {
    && |block| == MESSAGE_BLOCK_SIZE && 0 <= idx <= MESSAGE_BLOCK_SIZE && idx <= |m|
    && (|m| - idx) % MESSAGE_BLOCK_SIZE == 0
    && block[..idx] == m[|m| - idx..]
    && h == Digest(Tables(), BitsOf(m[..|m| - idx]))
  }

  lemma NoBits()
    ensures BitsOf([]) == []
  {
  }

  lemma BufferedEmpty(block: seq<Byte>)
    requires |block| == MESSAGE_BLOCK_SIZE
    ensures Buffered([], 0, block, H0)
  {
    assert Blocks(BitsOf([])) == [];
  }

  lemma BufferedPush(m: seq<Byte>, idx: int, block: seq<Byte>, h: seq<Word>, x: Byte)
    requires Buffered(m, idx, block, h) && idx < MESSAGE_BLOCK_SIZE
    ensures Buffered(m + [x], idx + 1, block[idx := x], h)
  {
    hide BitsOf, Digest;
    assert (m + [x])[..|m| - idx] == m[..|m| - idx];
    assert block[idx := x][..idx + 1] == block[..idx] + [x];
    assert (m + [x])[|m| - idx..] == m[|m| - idx..] + [x];
  }

  lemma BufferedFlush(m: seq<Byte>, block: seq<Byte>, h: HashValue)
    requires Buffered(m, MESSAGE_BLOCK_SIZE, block, h)
    ensures Buffered(m, 0, block, Compress(Tables(), h, WordsOf(block)))
  {
    hide BitsOf, Digest, Compress, WordsOf;
    var a := m[..|m| - MESSAGE_BLOCK_SIZE];
    assert block == block[..MESSAGE_BLOCK_SIZE];
    assert m == a + block && m[..|m| - 0] == m;
    BitsOfAppend(a, block);
    DigestStep(Tables(), BitsOf(a), BitsOf(block));
    WordsOfBlock(block);
  }

  // ----- The context

  /** What a C++ pointer and length point at; a null array is nullptr. */
  function Pointed(bytes: array?<Byte>, length: nat): Option<seq<Byte>>
    requires bytes != null ==> length <= bytes.Length
    reads bytes
  {
    if bytes == null then None else Some(bytes[..length])
  }

  class SHA256Context {
    const intermediateHash: array<Word>
    const messageBlock: array<Byte>
    var lengthHigh: nat
    var lengthLow: nat
    var messageBlockIndex: int
    var computed: int
    var corrupted: int

    /** The bytes and the bits taken in since the last SHA256Reset. */
    ghost var msg: seq<Byte>
    ghost var taken: Bits

    constructor ()
      ensures intermediateHash.Length == HASH_SIZE / 4 && messageBlock.Length == MESSAGE_BLOCK_SIZE
      ensures fresh(intermediateHash) && fresh(messageBlock)
    {
      intermediateHash := new Word[HASH_SIZE / 4];
      messageBlock := new Byte[MESSAGE_BLOCK_SIZE];
    }

    predicate Shaped() {
      intermediateHash.Length == HASH_SIZE / 4 && messageBlock.Length == MESSAGE_BLOCK_SIZE
    }

    /** The body of the first schedule loop: sixteen words out of the buffered bytes. */
    method LoadWord(t4: nat) returns (w: Word)
      requires Shaped() && t4 + 3 < MESSAGE_BLOCK_SIZE
      ensures w == Join(messageBlock[t4], messageBlock[t4 + 1], messageBlock[t4 + 2], messageBlock[t4 + 3])
    {
      w := ((messageBlock[t4] as Word) << 24) | ((messageBlock[t4 + 1] as Word) << 16)
         | ((messageBlock[t4 + 2] as Word) << 8) | (messageBlock[t4 + 3] as Word);
    }

    method PrepareSchedule(W: array<Word>)
      requires Shaped() && W.Length == 64
      modifies W
      ensures forall t :: 0 <= t < 64 ==> W[t] == Schedule(WordsOf(messageBlock[..]), t)
    {
      hide Join, Plus, SmallSigma0, SmallSigma1, MacroSigma0, MacroSigma1, Schedule;
      ghost var m := WordsOf(messageBlock[..]);
      var t, t4 := 0, 0;
      while t < 16
        invariant 0 <= t <= 16 && t4 == 4 * t
        invariant forall i :: 0 <= i < t ==> W[i] == Schedule(m, i)
      {
        W[t] := LoadWord(t4);
        ScheduleStart(m, t);
        t, t4 := t + 1, t4 + 4;
      }
      while t < 64
        invariant 16 <= t <= 64
        invariant forall i :: 0 <= i < t ==> W[i] == Schedule(m, i)
      {
        ScheduleStep(m, t);
        SmallSigma0IsStandard(W[t - 15]);
        SmallSigma1IsStandard(W[t - 2]);
        W[t] := Plus(Plus(Plus(MacroSigma1(W[t - 2]), W[t - 7]), MacroSigma0(W[t - 15])), W[t - 16]);
        t := t + 1;
      }
    }

    /** The additions that end a compression. */
    method AddToHash(A: Word, B: Word, C: Word, D: Word, E: Word, F: Word, G: Word, H: Word)
      requires Shaped()
      modifies intermediateHash
      ensures intermediateHash[0] == Plus(old(intermediateHash[0]), A)
      ensures intermediateHash[1] == Plus(old(intermediateHash[1]), B)
      ensures intermediateHash[2] == Plus(old(intermediateHash[2]), C)
      ensures intermediateHash[3] == Plus(old(intermediateHash[3]), D)
      ensures intermediateHash[4] == Plus(old(intermediateHash[4]), E)
      ensures intermediateHash[5] == Plus(old(intermediateHash[5]), F)
      ensures intermediateHash[6] == Plus(old(intermediateHash[6]), G)
      ensures intermediateHash[7] == Plus(old(intermediateHash[7]), H)
    {
      hide Plus;
      intermediateHash[0] := Plus(intermediateHash[0], A);
      intermediateHash[1] := Plus(intermediateHash[1], B);
      intermediateHash[2] := Plus(intermediateHash[2], C);
      intermediateHash[3] := Plus(intermediateHash[3], D);
      intermediateHash[4] := Plus(intermediateHash[4], E);
      intermediateHash[5] := Plus(intermediateHash[5], F);
      intermediateHash[6] := Plus(intermediateHash[6], G);
      intermediateHash[7] := Plus(intermediateHash[7], H);
    }

    /** One compression of the buffered block, in place. */
    method SHA256ProcessMessageBlock()
      requires Shaped()
      modifies this`messageBlockIndex, intermediateHash
      ensures messageBlockIndex == 0
      ensures intermediateHash[..] == Compress(Tables(), old(intermediateHash[..]), WordsOf(messageBlock[..]))
    {
      hide Plus, BigSigma0, BigSigma1, Ch, Maj, Schedule, Rounds, WordsOf;
      hide MacroBigSigma0, MacroBigSigma1, MacroCh, MacroMaj;
      var W := new Word[64];
      PrepareSchedule(W);
      ghost var h: HashValue, m := intermediateHash[..], WordsOf(messageBlock[..]);
      var A, B, C, D := intermediateHash[0], intermediateHash[1], intermediateHash[2], intermediateHash[3];
      var E, F, G, H := intermediateHash[4], intermediateHash[5], intermediateHash[6], intermediateHash[7];
      var t := 0;
      RoundsStart(Tables(), h, m);
      while t < 64
        invariant 0 <= t <= 64
        invariant Registers(A, B, C, D, E, F, G, H) == Rounds(Tables(), h, m, t)
        invariant intermediateHash[..] == h
        invariant forall i :: 0 <= i < 64 ==> W[i] == Schedule(m, i)
      {
        RoundsStep(Tables(), h, m, t);
        BigSigma0IsStandard(A);
        BigSigma1IsStandard(E);
        ChIsStandard(E, F, G);
        MajIsStandard(A, B, C);
        var temp1 := Plus(Plus(Plus(Plus(H, MacroBigSigma1(E)), MacroCh(E, F, G)), K[t]), W[t]);
        var temp2 := Plus(MacroBigSigma0(A), MacroMaj(A, B, C));
        H := G;
        G := F;
        F := E;
        E := Plus(D, temp1);
        D := C;
        C := B;
        B := A;
        A := Plus(temp1, temp2);
        t := t + 1;
      }
      AddToHash(A, B, C, D, E, F, G, H);
      messageBlockIndex := 0;
      assert intermediateHash[..] == Update(h, Registers(A, B, C, D, E, F, G, H));
      assert messageBlock[..] == old(messageBlock[..]) && h == old(intermediateHash[..]);
    }

    ghost predicate Holds(m: seq<Byte>)
      reads this, intermediateHash, messageBlock
    {
      Shaped() && Buffered(m, messageBlockIndex, messageBlock[..], intermediateHash[..])
    }

    /** The 64-bit length counter. */
    function Length(): nat
      reads this
    {
      lengthHigh * UINT32 + lengthLow
    }

    ghost predicate Absorbing()
      reads this, intermediateHash, messageBlock
    {
      && Holds(msg) && messageBlockIndex < MESSAGE_BLOCK_SIZE
      && taken == BitsOf(msg)
      && lengthHigh < UINT32 && lengthLow < UINT32 && Length() == 8 * |msg|
      && |msg| < CARRY_BYTES + UINT32
      && (corrupted == 1 <==> |msg| >= CARRY_BYTES)
    }

    ghost predicate Finished()
      reads this, intermediateHash, messageBlock
    {
      Shaped() && intermediateHash[..] == Digest(Tables(), Pad(taken))
    }

    ghost predicate Valid()
      reads this, intermediateHash, messageBlock
    {
      && 0 <= corrupted <= 2 && 0 <= computed <= 1
      && (computed == 0 ==> Absorbing())
      && (computed == 1 ==> Finished())
    }

    /** What a caller can tell of the context. */
    ghost function State(): Abstract
      reads this
    {
      Abstract(taken, computed == 1, corrupted)
    }

    method SHA256AddLength(length: nat) returns (r: int)
      requires lengthHigh < UINT32 && lengthLow < UINT32 && length < UINT32 && Length() + length < LENGTH_LIMIT
      modifies this`lengthHigh, this`lengthLow, this`corrupted
      ensures r == 0
      ensures lengthHigh < UINT32 && lengthLow < UINT32 && Length() == old(Length()) + length
      ensures corrupted == if old(lengthLow) + length >= UINT32 && old(lengthHigh) == 0 then 1 else old(corrupted)
    {
      var addTemp := lengthLow;
      lengthLow := (lengthLow + length) % UINT32;
      if lengthLow < addTemp {
        var before := lengthHigh;
        lengthHigh := (lengthHigh + 1) % UINT32;
        if before == 0 {
          corrupted := 1;
        }
      }
      r := 0;
    }

    /** The length counter, big-endian, in the last eight bytes of the block. */
    method StoreLength()
      requires Shaped()
      modifies messageBlock
      ensures messageBlock[..56] == old(messageBlock[..56])
      ensures messageBlock[56..] == LengthBytes(lengthHigh, lengthLow)
    {
      hide LowByte;
      messageBlock[56] := LowByte(lengthHigh / 0x100_0000);
      messageBlock[57] := LowByte(lengthHigh / 0x1_0000);
      messageBlock[58] := LowByte(lengthHigh / 0x100);
      messageBlock[59] := LowByte(lengthHigh);
      messageBlock[60] := LowByte(lengthLow / 0x100_0000);
      messageBlock[61] := LowByte(lengthLow / 0x1_0000);
      messageBlock[62] := LowByte(lengthLow / 0x100);
      messageBlock[63] := LowByte(lengthLow);
    }

    /** The assignment MessageBlock[MessageBlockIndex++] = x. */
    method PutByte(x: Byte, ghost m: seq<Byte>)
      requires Holds(m) && messageBlockIndex < MESSAGE_BLOCK_SIZE
      modifies this`messageBlockIndex, messageBlock
      ensures Holds(m + [x]) && messageBlockIndex == old(messageBlockIndex) + 1
    {
      hide BitsOf, Digest;
      BufferedPush(m, messageBlockIndex, messageBlock[..], intermediateHash[..], x);
      messageBlock[messageBlockIndex] := x;
      messageBlockIndex := messageBlockIndex + 1;
    }

    method PutZeros(limit: int, ghost m: seq<Byte>)
      requires Holds(m) && messageBlockIndex <= limit <= MESSAGE_BLOCK_SIZE
      modifies this`messageBlockIndex, messageBlock
      ensures Holds(m + ZeroBytes(limit - old(messageBlockIndex))) && messageBlockIndex == limit
    {
      hide Buffered;
      ghost var start := messageBlockIndex;
      assert m == m + ZeroBytes(0);
      while messageBlockIndex < limit
        modifies this`messageBlockIndex, messageBlock
        invariant start <= messageBlockIndex <= limit
        invariant Holds(m + ZeroBytes(messageBlockIndex - start))
      {
        ghost var z := messageBlockIndex - start;
        PutByte(0, m + ZeroBytes(z));
        assert m + ZeroBytes(z) + [0] == m + ZeroBytes(z + 1);
      }
    }

    /** One or two blocks: the last bytes taken in, padByte, zeros and the length. */
    method SHA256PadMessage(padByte: Byte)
      requires Holds(msg) && messageBlockIndex < MESSAGE_BLOCK_SIZE
      modifies this`messageBlockIndex, intermediateHash, messageBlock
      ensures messageBlockIndex == 0
      ensures intermediateHash[..] == Digest(Tables(), BitsOf(PadBytes(msg, padByte, lengthHigh, lengthLow)))
    {
      hide BitsOf, Digest, WordsOf, Compress, LengthBytes, LowByte;
      ghost var m, z := msg + [padByte], 0;
      if messageBlockIndex >= MESSAGE_BLOCK_SIZE - 8 {
        PutByte(padByte, msg);
        z := MESSAGE_BLOCK_SIZE - messageBlockIndex;
        PutZeros(MESSAGE_BLOCK_SIZE, m);
        BufferedFlush(m + ZeroBytes(z), messageBlock[..], intermediateHash[..]);
        SHA256ProcessMessageBlock();
      } else {
        PutByte(padByte, msg);
      }
      assert m + ZeroBytes(0) == m;
      ghost var z' := MESSAGE_BLOCK_SIZE - 8 - messageBlockIndex;
      PutZeros(MESSAGE_BLOCK_SIZE - 8, m + ZeroBytes(z));
      assert m + ZeroBytes(z) + ZeroBytes(z') == m + ZeroBytes(z + z');
      ghost var block, h: HashValue := messageBlock[..], intermediateHash[..];
      StoreLength();
      BufferedLength(msg, padByte, z + z', m + ZeroBytes(z + z'), block, messageBlock[..], h, lengthHigh, lengthLow);
      SHA256ProcessMessageBlock();
    }

    /** padByte holds the final bits the caller of this step took in, tail. */
    method SHA256Finalize(padByte: Byte, ghost tail: Bits)
      requires Shaped() && Holds(msg) && messageBlockIndex < MESSAGE_BLOCK_SIZE
      requires lengthHigh < UINT32 && lengthLow < UINT32 && Length() == 8 * |msg| + |tail|
      requires IsPadByte(padByte, tail)
      modifies this`messageBlockIndex, this`lengthHigh, this`lengthLow, this`computed, intermediateHash, messageBlock
      ensures computed == 1 && lengthHigh == 0 && lengthLow == 0 && messageBlockIndex == 0
      ensures intermediateHash[..] == Digest(Tables(), Pad(BitsOf(msg) + tail))
      ensures forall i :: 0 <= i < MESSAGE_BLOCK_SIZE ==> messageBlock[i] == 0
    {
      hide BitsOf, Digest, Pad, IsPadByte;
      PaddingRefines(msg, tail, padByte, lengthHigh, lengthLow);
      SHA256PadMessage(padByte);
      ClearBlock();
      lengthHigh := 0;
      lengthLow := 0;
      computed := 1;
    }

    /** The loop that zeroes the block. */
    method ClearBlock()
      requires Shaped()
      modifies messageBlock
      ensures forall i :: 0 <= i < MESSAGE_BLOCK_SIZE ==> messageBlock[i] == 0
    {
      var i := 0;
      while i < MESSAGE_BLOCK_SIZE
        modifies messageBlock
        invariant 0 <= i <= MESSAGE_BLOCK_SIZE
        invariant forall j :: 0 <= j < i ==> messageBlock[j] == 0
      {
        messageBlock[i] := 0;
        i := i + 1;
      }
    }

    method SHA256Reset() returns (r: int)
      requires Shaped()
      modifies this, intermediateHash, messageBlock
      ensures Valid() && r == 0
      ensures State() == Initial()
    {
      hide Buffered, BitsOf, Digest, Finished;
      lengthHigh := 0;
      lengthLow := 0;
      messageBlockIndex := 0;
      ResetHash();
      ClearBlock();
      computed := 0;
      corrupted := 0;
      msg, taken := [], [];
      BufferedEmpty(messageBlock[..]);
      NoBits();
      r := 0;
    }

    /** The eight assignments of the initial hash value. */
    method ResetHash()
      requires Shaped()
      modifies intermediateHash
      ensures intermediateHash[..] == H0
    {
      intermediateHash[0] := H0[0];
      intermediateHash[1] := H0[1];
      intermediateHash[2] := H0[2];
      intermediateHash[3] := H0[3];
      intermediateHash[4] := H0[4];
      intermediateHash[5] := H0[5];
      intermediateHash[6] := H0[6];
      intermediateHash[7] := H0[7];
      assert intermediateHash[..] == H0;
    }

    /** The body of the input loop: one byte into the block, which is compressed when full. */
    method TakeByte(x: Byte)
      requires Absorbing() && |msg| + 1 < CARRY_BYTES + UINT32
      modifies this`msg, this`taken, this`messageBlockIndex, this`lengthHigh, this`lengthLow, this`corrupted
      modifies intermediateHash, messageBlock
      ensures Absorbing() && msg == old(msg) + [x]
      ensures corrupted == old(corrupted) || corrupted == 1
    {
      hide BitsOf, Digest, WordsOf, Compress;
      PutByte(x, msg);
      msg, taken := msg + [x], BitsOf(msg + [x]);
      var added := SHA256AddLength(8);
      if added == 0 && messageBlockIndex == MESSAGE_BLOCK_SIZE {
        BufferedFlush(msg, messageBlock[..], intermediateHash[..]);
        SHA256ProcessMessageBlock();
      }
    }

    method TakeBytes(bytes: array<Byte>, length: nat)
      requires Absorbing() && 0 <= corrupted <= 1 && |msg| + length < CARRY_BYTES + UINT32
      requires length <= bytes.Length && bytes != messageBlock
      modifies this`msg, this`taken, this`messageBlockIndex, this`lengthHigh, this`lengthLow, this`corrupted
      modifies intermediateHash, messageBlock
      ensures Absorbing() && msg == old(msg) + bytes[..length] && 0 <= corrupted <= 1
    {
      hide Absorbing;
      ghost var before := msg;
      var i := 0;
      while i < length
        invariant 0 <= i <= length && Absorbing() && 0 <= corrupted <= 1
        invariant msg == before + bytes[..i]
      {
        TakeByte(bytes[i]);
        i := i + 1;
      }
    }

    method SHA256Input(bytes: array?<Byte>, length: nat) returns (r: int)
      requires Valid() && length < UINT32
      requires bytes != null ==> length <= bytes.Length && bytes != messageBlock
      modifies this, intermediateHash, messageBlock
      ensures Valid()
      ensures (State(), r) == AfterInput(old(State()), old(Pointed(bytes, length)))
    {
      hide Holds, BitsOf, Finished;
      if length == 0 {
        return -1;
      }
      if bytes == null {
        return -1;
      }
      if computed != 0 {
        return -2;
      }
      if corrupted != 0 {
        return -2;
      }
      BitsOfAppend(msg, bytes[..length]);
      TakeBytes(bytes, length);
      return corrupted;
    }

    method SHA256FinalBits(bits: Byte, length: nat) returns (r: int)
      requires Valid()
      modifies this, intermediateHash, messageBlock
      ensures Valid()
      ensures (State(), r) == AfterFinalBits(old(State()), bits, length)
    {
      if length == 0 {
        return -1;
      }
      if corrupted != 0 {
        return -2;
      }
      if computed != 0 {
        return -2;
      }
      if length >= 8 {
        corrupted := 2;
        return -1;
      }
      hide Absorbing, Finished, BitsOfByte;
      AcceptFinalBits(bits, length);
      return corrupted;
    }

    /** The final bits of a message that is neither closed nor corrupted. */
    method AcceptFinalBits(bits: Byte, length: nat)
      requires Absorbing() && corrupted == 0 && 0 < length < 8
      modifies this, intermediateHash, messageBlock
      ensures Finished() && computed == 1 && corrupted == 0
      ensures taken == old(taken) + BitsOfByte(bits)[..length]
    {
      hide Buffered, Digest, Pad, BitsOf, BitsOfByte, IsPadByte;
      ghost var tail := BitsOfByte(bits)[..length];
      var added := SHA256AddLength(length);
      FinalByte(bits, length);
      SHA256Finalize((bits & MASKS[length]) | MARKBIT[length], tail);
      taken := taken + tail;
    }

    method SHA256ResultN(digest: array<Byte>, hashSize: nat) returns (r: int)
      requires Valid()
      requires hashSize <= HASH_SIZE && hashSize <= digest.Length && digest != messageBlock
      modifies this, intermediateHash, messageBlock, digest
      ensures Valid() && r == 0
      ensures State() == AfterResult(old(State()))
      ensures digest[..] == Hash(Tables(), old(taken))[..hashSize] + old(digest[hashSize..])
    {
      hide Buffered, Digest, Pad, BitsOf, BytesOfWord, Concatenate;
      if 1 != computed {
        MarkerByte();
        assert taken == BitsOf(msg) + [];
        SHA256Finalize(0x80, []);
      }
      ghost var hash := Hash(Tables(), taken);
      var i := 0;
      while i < hashSize
        modifies digest
        invariant 0 <= i <= hashSize
        invariant Concatenate(intermediateHash[..]) == hash
        invariant digest[..i] == hash[..i] && digest[hashSize..] == old(digest[hashSize..])
      {
        ConcatenateAt(intermediateHash[..], i);
        digest[i] := ByteOfWord(intermediateHash[i / 4], i % 4);
        assert digest[i] == hash[i];
        i := i + 1;
      }
      r := 0;
    }

    method SHA256Result(digest: array<Byte>) returns (r: int)
      requires Valid()
      requires HASH_SIZE <= digest.Length && digest != messageBlock
      modifies this, intermediateHash, messageBlock, digest
      ensures Valid() && r == 0
      ensures State() == AfterResult(old(State()))
      ensures digest[..] == Hash(Tables(), old(taken)) + old(digest[HASH_SIZE..])
    {
      r := SHA256ResultN(digest, HASH_SIZE);
    }
  }

  const MASKS: seq<Byte> := [0x00, 0x80, 0xC0, 0xE0, 0xF0, 0xF8, 0xFC, 0xFE]
  const MARKBIT: seq<Byte> := [0x80, 0x40, 0x20, 0x10, 0x08, 0x04, 0x02, 0x01]

  lemma FinalByte(bits: Byte, n: nat)
    requires 0 < n < 8
    ensures IsPadByte((bits & MASKS[n]) | MARKBIT[n], BitsOfByte(bits)[..n])
  {
    Masks(n);
    hide BitsOfByte, IsPadByte, MASKS, MARKBIT;
    if n == 1 {
      FinalByte1(bits);
    } else if n == 2 {
      FinalByte2(bits);
    } else if n == 3 {
      FinalByte3(bits);
    } else if n == 4 {
      FinalByte4(bits);
    } else if n == 5 {
      FinalByte5(bits);
    } else if n == 6 {
      FinalByte6(bits);
    } else {
      FinalByte7(bits);
    }
  }

  /** The two tables at n. */
  lemma Masks(n: nat)
    requires 0 < n < 8
    ensures n == 1 ==> MASKS[n] == 0x80 && MARKBIT[n] == 0x40
    ensures n == 2 ==> MASKS[n] == 0xC0 && MARKBIT[n] == 0x20
    ensures n == 3 ==> MASKS[n] == 0xE0 && MARKBIT[n] == 0x10
    ensures n == 4 ==> MASKS[n] == 0xF0 && MARKBIT[n] == 0x08
    ensures n == 5 ==> MASKS[n] == 0xF8 && MARKBIT[n] == 0x04
    ensures n == 6 ==> MASKS[n] == 0xFC && MARKBIT[n] == 0x02
    ensures n == 7 ==> MASKS[n] == 0xFE && MARKBIT[n] == 0x01
  {
  }

  lemma FinalByte1(bits: Byte)
    ensures IsPadByte((bits & 0x80) | 0x40, BitsOfByte(bits)[..1])
  {
  }

  lemma FinalByte2(bits: Byte)
    ensures IsPadByte((bits & 0xC0) | 0x20, BitsOfByte(bits)[..2])
  {
  }

  lemma FinalByte3(bits: Byte)
    ensures IsPadByte((bits & 0xE0) | 0x10, BitsOfByte(bits)[..3])
  {
  }

  lemma FinalByte4(bits: Byte)
    ensures IsPadByte((bits & 0xF0) | 0x08, BitsOfByte(bits)[..4])
  {
  }

  lemma FinalByte5(bits: Byte)
    ensures IsPadByte((bits & 0xF8) | 0x04, BitsOfByte(bits)[..5])
  {
  }

  lemma FinalByte6(bits: Byte)
    ensures IsPadByte((bits & 0xFC) | 0x02, BitsOfByte(bits)[..6])
  {
  }

  lemma FinalByte7(bits: Byte)
    ensures IsPadByte((bits & 0xFE) | 0x01, BitsOfByte(bits)[..7])
  {
  }

  lemma MarkerByte()
    ensures IsPadByte(0x80, [])
  {
  }

  /** Byte k of a word, counted from the most significant. */
  function ByteOfWord(w: Word, k: nat): (x: Byte)
    requires k < 4
    ensures x == BytesOfWord(w)[k]
  {
    ((w >> (8 * (3 - k))) & 0xFF) as Byte
  }

  lemma BufferedLength(msg: seq<Byte>, pad: Byte, z: nat, m: seq<Byte>, block: seq<Byte>, block': seq<Byte>,
        h: HashValue, high: nat, low: nat)
    requires z < 64 && m == msg + [pad] + ZeroBytes(z)
    requires Buffered(m, MESSAGE_BLOCK_SIZE - 8, block, h)
    requires |block'| == MESSAGE_BLOCK_SIZE && block'[..56] == block[..56] && block'[56..] == LengthBytes(high, low)
    ensures Compress(Tables(), h, WordsOf(block')) == Digest(Tables(), BitsOf(PadBytes(msg, pad, high, low)))
  {
    hide BitsOf, Digest, Compress, WordsOf, LengthBytes;
    var p := m + LengthBytes(high, low);
    assert z == (55 - |msg|) % 64;
    assert p == PadBytes(msg, pad, high, low);
    assert p[..|p| - 64] == m[..|m| - 56];
    assert p[|p| - 64..] == m[|m| - 56..] + LengthBytes(high, low) == block';
    assert Buffered(p, MESSAGE_BLOCK_SIZE, block', h);
    BufferedFlush(p, block', h);
    assert p[..|p| - 0] == p;
  }

  // ----- The context as a state machine over its calls

  datatype Abstract = Abstract(taken: Bits, computed: bool, corrupted: int)

  function Initial(): Abstract { Abstract([], false, 0) }

  /** SHA256Input: a rejected call changes nothing; an accepted one returns the value of Corrupted,
      which is set once the low word of the length counter has carried. */
  function AfterInput(s: Abstract, bytes: Option<seq<Byte>>): (Abstract, int) {
    if bytes == Some([]) || bytes == None then (s, -1)
    else if s.computed || s.corrupted != 0 then (s, -2)
    else
      var taken := s.taken + BitsOf(bytes.value);
      var corrupted := if |taken| >= UINT32 then 1 else 0;
      (Abstract(taken, false, corrupted), corrupted)
  }

  function AfterFinalBits(s: Abstract, bits: Byte, n: nat): (Abstract, int) {
    if n == 0 then (s, -1)
    else if s.corrupted != 0 || s.computed then (s, -2)
    else if n >= 8 then (s.(corrupted := 2), -1)
    else (Abstract(s.taken + BitsOfByte(bits)[..n], true, 0), 0)
  }

  function AfterResult(s: Abstract): Abstract { s.(computed := true) }

  datatype Call = Reset | Input(bytes: Option<seq<Byte>>) | FinalBits(bits: Byte, length: nat) | Result

  function After(s: Abstract, c: Call): Abstract {
    match c
    case Reset => Initial()
    case Input(bytes) => AfterInput(s, bytes).0
    case FinalBits(bits, n) => AfterFinalBits(s, bits, n).0
    case Result => AfterResult(s)
  }

  function Run(s: Abstract, calls: seq<Call>): Abstract {
    if calls == [] then s else After(Run(s, calls[..|calls| - 1]), calls[|calls| - 1])
  }

  /** The return codes of a run, oldest first. */
  function Codes(s: Abstract, calls: seq<Call>): (codes: seq<int>)
    ensures |codes| == |calls|
  {
    if calls == [] then []
    else
      var before := Run(s, calls[..|calls| - 1]);
      Codes(s, calls[..|calls| - 1]) + [
        match calls[|calls| - 1]
        case Reset => 0
        case Input(bytes) => AfterInput(before, bytes).1
        case FinalBits(bits, n) => AfterFinalBits(before, bits, n).1
        case Result => 0
      ]
  }

  /** What a caller believes was hashed, from the return codes alone: the data of every call since the
      last Reset that was not answered with a negative code. */
  function Accepted(calls: seq<Call>, codes: seq<int>): Bits
    requires |calls| == |codes|
  {
    if calls == [] then []
    else
      var n := |calls| - 1;
      var before := Accepted(calls[..n], codes[..n]);
      match calls[n]
      case Reset => []
      case Input(bytes) => if codes[n] >= 0 && bytes.Some? then before + BitsOf(bytes.value) else before
      case FinalBits(bits, length) => if 0 <= codes[n] && length < 8 then before + BitsOfByte(bits)[..length]
        else before
      case Result => before
  }

  /** Over every run of calls the bits a Result call hashes are the accepted ones.  Together with the
      contract of SHA256Result: every digest is the FIPS 180-4 hash of Accepted. */
  lemma {:induction false} RunTakesAccepted(calls: seq<Call>)
    ensures Run(Initial(), calls).taken == Accepted(calls, Codes(Initial(), calls))
  {
    hide BitsOf, BitsOfByte;
    if calls != [] {
      var n := |calls| - 1;
      RunTakesAccepted(calls[..n]);
      assert Codes(Initial(), calls)[..n] == Codes(Initial(), calls[..n]);
    }
  }

  /** Between two Resets, once a Result or accepted FinalBits has closed the message, no call changes
      the bits: repeated Result calls give the same digest. */
  lemma {:induction false} ClosedStaysClosed(s: Abstract, calls: seq<Call>)
    requires s.computed && forall c :: c in calls ==> c != Reset
    ensures Run(s, calls).taken == s.taken && Run(s, calls).computed
  {
    if calls != [] {
      var a := calls[..|calls| - 1];
      assert calls[|calls| - 1] in calls && forall c :: c in a ==> c in calls;
      ClosedStaysClosed(s, a);
    }
  }

  function Flatten(chunks: seq<seq<Byte>>): seq<Byte> {
    if chunks == [] then [] else Flatten(chunks[..|chunks| - 1]) + chunks[|chunks| - 1]
  }

  function Inputs(chunks: seq<seq<Byte>>): (calls: seq<Call>)
    ensures |calls| == |chunks|
  {
    seq(|chunks|, i requires 0 <= i < |chunks| => Input(Some(chunks[i])))
  }

  lemma {:induction false} ChunksAbsorbed(chunks: seq<seq<Byte>>)
    requires forall c :: c in chunks ==> c != []
    requires chunks != [] ==> |Flatten(chunks[..|chunks| - 1])| < CARRY_BYTES
    ensures Run(Initial(), Inputs(chunks))
         == Abstract(BitsOf(Flatten(chunks)), false, if |Flatten(chunks)| >= CARRY_BYTES then 1 else 0)
  {
    if chunks != [] {
      var n := |chunks| - 1;
      var a := chunks[..n];
      assert chunks[n] in chunks;
      assert forall c :: c in a ==> c in chunks;
      if a != [] {
        assert |Flatten(a[..|a| - 1])| <= |Flatten(a)|;
      }
      ChunksAbsorbed(a);
      assert Inputs(chunks)[..n] == Inputs(a);
      BitsOfAppend(Flatten(a), chunks[n]);
    }
  }

  /** Splitting a message into chunks makes no difference to the context exactly when every chunk but
      the last ends before the counter's low word carries: after that SHA256Input turns chunks away. */
  lemma {:induction false} ChunkingIrrelevant(chunks: seq<seq<Byte>>)
    requires chunks != [] && forall c :: c in chunks ==> c != []
    ensures Run(Initial(), Inputs(chunks)).taken == BitsOf(Flatten(chunks))
      <==> |Flatten(chunks[..|chunks| - 1])| < CARRY_BYTES
  {
    var n := |chunks| - 1;
    var a := chunks[..n];
    if |Flatten(a)| < CARRY_BYTES {
      ChunksAbsorbed(chunks);
    } else {
      assert forall c :: c in a ==> c in chunks;
      ShortOfAll(a);
      assert Inputs(chunks)[..n] == Inputs(a);
      assert chunks[n] in chunks;
    }
  }

  lemma {:induction false} ShortOfAll(chunks: seq<seq<Byte>>)
    requires forall c :: c in chunks ==> c != []
    requires |Flatten(chunks)| >= CARRY_BYTES
    ensures var s := Run(Initial(), Inputs(chunks)); s.corrupted == 1 && |s.taken| <= 8 * |Flatten(chunks)|
  {
    var n := |chunks| - 1;
    var a := chunks[..n];
    assert forall c :: c in a ==> c in chunks;
    assert Inputs(chunks)[..n] == Inputs(a);
    if |Flatten(a)| < CARRY_BYTES {
      ChunksAbsorbed(chunks);
    } else {
      ShortOfAll(a);
    }
  }

  // ----- The one-call interface

  method H256(msg: array?<Byte>, length: nat, digest: array<Byte>) returns (r: int)
    requires length < UINT32 && (msg != null ==> length <= msg.Length) && digest.Length >= HASH_SIZE
    modifies digest
    ensures r == if msg != null && 0 < length < CARRY_BYTES then 0 else 1
    ensures r == 0 ==> digest[..] == old(Hash(Tables(), BitsOf(msg[..length])) + digest[HASH_SIZE..])
    ensures r == 1 ==> digest[..] == old(digest[..])
  {
    hide BitsOf, Hash, Tables, SHA256Context.Valid;
    var context := new SHA256Context();
    var ok := context.SHA256Reset();
    var code := context.SHA256Input(msg, length);
    if 0 != code {
      return 1;
    }
    assert context.taken == BitsOf(msg[..length]);
    code := context.SHA256Result(digest);
    if 0 != code {
      return 1;
    }
    return 0;
  }
}
