/** The six logical functions of section 4.1.2 of FIPS 180-4 bit by bit. */
module WordBits {
  import opened Fips180

  /** Bit i of a word, the least significant first. */
  predicate Bit(x: Word, i: bv5) { (x >> i) & 1 == 1 }

  /** A sum modulo 2. */
  predicate Odd(a: bool, b: bool, c: bool) { (a != b) != c }

  // ----- The operators

  lemma AndBit(x: Word, y: Word, i: bv5)
    ensures Bit(x & y, i) == (Bit(x, i) && Bit(y, i))
  {
  }

  lemma AndNotBit(x: Word, y: Word, i: bv5)
    ensures Bit(!x & y, i) == (!Bit(x, i) && Bit(y, i))
  {
  }

  lemma XorBit(x: Word, y: Word, i: bv5)
    ensures Bit(x ^ y, i) == (Bit(x, i) != Bit(y, i))
  {
  }

  lemma Xor3Bit(x: Word, y: Word, z: Word, i: bv5)
    ensures Bit(x ^ y ^ z, i) == Odd(Bit(x, i), Bit(y, i), Bit(z, i))
  {
  }

  // The rotations move bit i + n, taken modulo 32, to bit i; the shifts leave zeros at the top.

  lemma Rotr2(x: Word, i: bv5)
    ensures Bit(Rotr(2, x), i) == Bit(x, i + 2)
  {
  }

  lemma Rotr6(x: Word, i: bv5)
    ensures Bit(Rotr(6, x), i) == Bit(x, i + 6)
  {
  }

  lemma Rotr7(x: Word, i: bv5)
    ensures Bit(Rotr(7, x), i) == Bit(x, i + 7)
  {
  }

  lemma Rotr11(x: Word, i: bv5)
    ensures Bit(Rotr(11, x), i) == Bit(x, i + 11)
  {
  }

  lemma Rotr13(x: Word, i: bv5)
    ensures Bit(Rotr(13, x), i) == Bit(x, i + 13)
  {
  }

  lemma Rotr17(x: Word, i: bv5)
    ensures Bit(Rotr(17, x), i) == Bit(x, i + 17)
  {
  }

  lemma Rotr18(x: Word, i: bv5)
    ensures Bit(Rotr(18, x), i) == Bit(x, i + 18)
  {
  }

  lemma Rotr19(x: Word, i: bv5)
    ensures Bit(Rotr(19, x), i) == Bit(x, i + 19)
  {
  }

  lemma Rotr22(x: Word, i: bv5)
    ensures Bit(Rotr(22, x), i) == Bit(x, i + 22)
  {
  }

  lemma Rotr25(x: Word, i: bv5)
    ensures Bit(Rotr(25, x), i) == Bit(x, i + 25)
  {
  }

  lemma Shr3(x: Word, i: bv5)
    ensures Bit(Shr(3, x), i) == (i < 29 && Bit(x, i + 3))
  {
  }

  lemma Shr10(x: Word, i: bv5)
    ensures Bit(Shr(10, x), i) == (i < 22 && Bit(x, i + 10))
  {
  }

  // ----- The choice and the majority

  lemma ChSum(x: Word, y: Word, z: Word, i: bv5)
    ensures Bit(Ch(x, y, z), i) == (Bit(x & y, i) != Bit(!x & z, i))
  {
    hide Bit;
    XorBit(x & y, !x & z, i);
  }

  lemma ChBit(x: Word, y: Word, z: Word, i: bv5)
    ensures Bit(Ch(x, y, z), i) == if Bit(x, i) then Bit(y, i) else Bit(z, i)
  {
    hide Bit, Ch;
    ChSum(x, y, z, i);
    AndBit(x, y, i);
    AndNotBit(x, z, i);
  }

  lemma MajSum(x: Word, y: Word, z: Word, i: bv5)
    ensures Bit(Maj(x, y, z), i) == (Bit((x & y) ^ (x & z), i) != Bit(y & z, i))
  {
    hide Bit;
    XorBit((x & y) ^ (x & z), y & z, i);
  }

  lemma MajHead(x: Word, y: Word, z: Word, i: bv5)
    ensures Bit((x & y) ^ (x & z), i) == ((Bit(x, i) && Bit(y, i)) != (Bit(x, i) && Bit(z, i)))
  {
    hide Bit;
    XorBit(x & y, x & z, i);
    AndBit(x, y, i);
    AndBit(x, z, i);
  }

  lemma MajBit(x: Word, y: Word, z: Word, i: bv5)
    ensures Bit(Maj(x, y, z), i)
      == ((Bit(x, i) && Bit(y, i)) || (Bit(x, i) && Bit(z, i)) || (Bit(y, i) && Bit(z, i)))
  {
    hide Bit, Maj;
    MajSum(x, y, z, i);
    MajHead(x, y, z, i);
    AndBit(y, z, i);
  }

  // ----- The sums of rotations and shifts

  lemma BigSigma0Sum(x: Word, i: bv5)
    ensures Bit(BigSigma0(x), i) == Odd(Bit(Rotr(2, x), i), Bit(Rotr(13, x), i), Bit(Rotr(22, x), i))
  {
    hide Rotr, Bit;
    Xor3Bit(Rotr(2, x), Rotr(13, x), Rotr(22, x), i);
  }

  lemma BigSigma0Bit(x: Word, i: bv5)
    ensures Bit(BigSigma0(x), i) == Odd(Bit(x, i + 2), Bit(x, i + 13), Bit(x, i + 22))
  {
    hide Rotr, Bit, BigSigma0;
    BigSigma0Sum(x, i);
    Rotr2(x, i);
    Rotr13(x, i);
    Rotr22(x, i);
  }

  lemma BigSigma1Sum(x: Word, i: bv5)
    ensures Bit(BigSigma1(x), i) == Odd(Bit(Rotr(6, x), i), Bit(Rotr(11, x), i), Bit(Rotr(25, x), i))
  {
    hide Rotr, Bit;
    Xor3Bit(Rotr(6, x), Rotr(11, x), Rotr(25, x), i);
  }

  lemma BigSigma1Bit(x: Word, i: bv5)
    ensures Bit(BigSigma1(x), i) == Odd(Bit(x, i + 6), Bit(x, i + 11), Bit(x, i + 25))
  {
    hide Rotr, Bit, BigSigma1;
    BigSigma1Sum(x, i);
    Rotr6(x, i);
    Rotr11(x, i);
    Rotr25(x, i);
  }

  lemma SmallSigma0Sum(x: Word, i: bv5)
    ensures Bit(SmallSigma0(x), i) == Odd(Bit(Rotr(7, x), i), Bit(Rotr(18, x), i), Bit(Shr(3, x), i))
  {
    hide Rotr, Shr, Bit;
    Xor3Bit(Rotr(7, x), Rotr(18, x), Shr(3, x), i);
  }

  lemma SmallSigma0Bit(x: Word, i: bv5)
    ensures Bit(SmallSigma0(x), i) == Odd(Bit(x, i + 7), Bit(x, i + 18), i < 29 && Bit(x, i + 3))
  {
    hide Rotr, Shr, Bit, SmallSigma0;
    SmallSigma0Sum(x, i);
    Rotr7(x, i);
    Rotr18(x, i);
    Shr3(x, i);
  }

  lemma SmallSigma1Sum(x: Word, i: bv5)
    ensures Bit(SmallSigma1(x), i) == Odd(Bit(Rotr(17, x), i), Bit(Rotr(19, x), i), Bit(Shr(10, x), i))
  {
    hide Rotr, Shr, Bit;
    Xor3Bit(Rotr(17, x), Rotr(19, x), Shr(10, x), i);
  }

  lemma SmallSigma1Bit(x: Word, i: bv5)
    ensures Bit(SmallSigma1(x), i) == Odd(Bit(x, i + 17), Bit(x, i + 19), i < 22 && Bit(x, i + 10))
  {
    hide Rotr, Shr, Bit, SmallSigma1;
    SmallSigma1Sum(x, i);
    Rotr17(x, i);
    Rotr19(x, i);
    Shr10(x, i);
  }
}
