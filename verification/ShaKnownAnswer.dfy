/** The known answer of crypto/fwoop_sha.g.cpp: the rounds of its one block, computed step by step. */
module ShaKnownAnswer {
  import opened Buffers
  import opened Fips180
  import opened Sha

  /** "fwoop fwoop fwoop" */
  const MESSAGE: seq<Byte> := [
    0x66, 0x77, 0x6f, 0x6f, 0x70, 0x20, 0x66, 0x77, 0x6f, 0x6f, 0x70, 0x20, 0x66, 0x77, 0x6f, 0x6f, 0x70]

  const DIGEST: seq<Byte> := [
    0xc4, 0x06, 0x68, 0xd5, 0x4c, 0x00, 0x26, 0xe1, 0x3e, 0xc0, 0xb4, 0x2f, 0xd4, 0x9f, 0x90, 0xfa,
    0x72, 0xcf, 0xd4, 0xa2, 0x40, 0x7f, 0x6d, 0xa7, 0xfd, 0x87, 0xd9, 0x8b, 0xe1, 0x36, 0xdf, 0x91]

  // ----- The message schedule, eight words to a row

  datatype Eight = Eight(w0: Word, w1: Word, w2: Word, w3: Word, w4: Word, w5: Word, w6: Word, w7: Word)

  const W0 := Eight(0x66776f6f, 0x70206677, 0x6f6f7020, 0x66776f6f, 0x70800000, 0x00000000, 0x00000000, 0x00000000)
  const W1 := Eight(0x00000000, 0x00000000, 0x00000000, 0x00000000, 0x00000000, 0x00000000, 0x00000000, 0x00000088)
  const W2 := Eight(0x5ff0ff79, 0x01b091b6, 0xd98dc307, 0xd0563859, 0xca557487, 0xdb13c7af, 0x14e189c5, 0xfb05d193)
  const W3 := Eight(0xf78fa244, 0x2c53069d, 0xf5ad3f37, 0xadeb9be9, 0x135436db, 0xd3842373, 0xa8da1070, 0x5412bf73)
  const W4 := Eight(0x1eb97181, 0x63e3ea96, 0x462c8135, 0xb7ab6b97, 0x23c6c2ab, 0x4747572c, 0x6eee9cb3, 0xdab194a1)
  const W5 := Eight(0xf7bd7bb1, 0xaa050330, 0xe008a475, 0xad8209f9, 0x963354fc, 0xf8b22031, 0x8846a1af, 0xfd7b4668)
  const W6 := Eight(0x279cbbb3, 0x51b7677d, 0xa1d47190, 0x8fb9cce8, 0x58f88a42, 0x7b858647, 0xfeb4636d, 0x9a38ac95)
  const W7 := Eight(0x3c3251a3, 0x6eb4e2f4, 0x374294b4, 0x328ed5a9, 0x1f658799, 0x8e475ba8, 0xb58764a2, 0xcc80c72e)

  predicate ScheduleIs(m: MessageBlock, t: nat, e: Eight) {
    && Schedule(m, t) == e.w0 && Schedule(m, t + 1) == e.w1 && Schedule(m, t + 2) == e.w2 && Schedule(m, t + 3) == e.w3
    && Schedule(m, t + 4) == e.w4 && Schedule(m, t + 5) == e.w5 && Schedule(m, t + 6) == e.w6
    && Schedule(m, t + 7) == e.w7
  }

  /** The next eight words after two rows. */
  function Expanded(a: Eight, b: Eight): Eight {
    var w0, w1 := Expand(b.w6, b.w1, a.w1, a.w0), Expand(b.w7, b.w2, a.w2, a.w1);
    var w2, w3 := Expand(w0, b.w3, a.w3, a.w2), Expand(w1, b.w4, a.w4, a.w3);
    var w4, w5 := Expand(w2, b.w5, a.w5, a.w4), Expand(w3, b.w6, a.w6, a.w5);
    Eight(w0, w1, w2, w3, w4, w5, Expand(w4, b.w7, a.w7, a.w6), Expand(w5, w0, b.w0, a.w7))
  }

  lemma ScheduleGoesOn(m: MessageBlock, t: nat, a: Eight, b: Eight)
    requires ScheduleIs(m, t, a) && ScheduleIs(m, t + 8, b)
    ensures ScheduleIs(m, t + 16, Expanded(a, b))
  {
    hide Schedule, Expand;
    ScheduleStep(m, t + 16); ScheduleStep(m, t + 17); ScheduleStep(m, t + 18); ScheduleStep(m, t + 19);
    ScheduleStep(m, t + 20); ScheduleStep(m, t + 21); ScheduleStep(m, t + 22); ScheduleStep(m, t + 23);
  }

  lemma Words16()
    ensures Expand(0x00000000, 0x00000000, 0x70206677, 0x66776f6f) == 0x5ff0ff79
    ensures Expand(0x00000088, 0x00000000, 0x6f6f7020, 0x70206677) == 0x01b091b6
    ensures Expand(0x5ff0ff79, 0x00000000, 0x66776f6f, 0x6f6f7020) == 0xd98dc307
    ensures Expand(0x01b091b6, 0x00000000, 0x70800000, 0x66776f6f) == 0xd0563859
  {
  }

  lemma Words20()
    ensures Expand(0xd98dc307, 0x00000000, 0x00000000, 0x70800000) == 0xca557487
    ensures Expand(0xd0563859, 0x00000000, 0x00000000, 0x00000000) == 0xdb13c7af
    ensures Expand(0xca557487, 0x00000088, 0x00000000, 0x00000000) == 0x14e189c5
    ensures Expand(0xdb13c7af, 0x5ff0ff79, 0x00000000, 0x00000000) == 0xfb05d193
  {
  }

  lemma Row2()
    ensures Expanded(W0, W1) == W2
  {
    hide Expand;
    Words16();
    Words20();
  }

  lemma Words24()
    ensures Expand(0x14e189c5, 0x01b091b6, 0x00000000, 0x00000000) == 0xf78fa244
    ensures Expand(0xfb05d193, 0xd98dc307, 0x00000000, 0x00000000) == 0x2c53069d
    ensures Expand(0xf78fa244, 0xd0563859, 0x00000000, 0x00000000) == 0xf5ad3f37
    ensures Expand(0x2c53069d, 0xca557487, 0x00000000, 0x00000000) == 0xadeb9be9
  {
  }

  lemma Words28()
    ensures Expand(0xf5ad3f37, 0xdb13c7af, 0x00000000, 0x00000000) == 0x135436db
    ensures Expand(0xadeb9be9, 0x14e189c5, 0x00000000, 0x00000000) == 0xd3842373
    ensures Expand(0x135436db, 0xfb05d193, 0x00000088, 0x00000000) == 0xa8da1070
    ensures Expand(0xd3842373, 0xf78fa244, 0x5ff0ff79, 0x00000088) == 0x5412bf73
  {
  }

  lemma Row3()
    ensures Expanded(W1, W2) == W3
  {
    hide Expand;
    Words24();
    Words28();
  }

  lemma Words32()
    ensures Expand(0xa8da1070, 0x2c53069d, 0x01b091b6, 0x5ff0ff79) == 0x1eb97181
    ensures Expand(0x5412bf73, 0xf5ad3f37, 0xd98dc307, 0x01b091b6) == 0x63e3ea96
    ensures Expand(0x1eb97181, 0xadeb9be9, 0xd0563859, 0xd98dc307) == 0x462c8135
    ensures Expand(0x63e3ea96, 0x135436db, 0xca557487, 0xd0563859) == 0xb7ab6b97
  {
  }

  lemma Words36()
    ensures Expand(0x462c8135, 0xd3842373, 0xdb13c7af, 0xca557487) == 0x23c6c2ab
    ensures Expand(0xb7ab6b97, 0xa8da1070, 0x14e189c5, 0xdb13c7af) == 0x4747572c
    ensures Expand(0x23c6c2ab, 0x5412bf73, 0xfb05d193, 0x14e189c5) == 0x6eee9cb3
    ensures Expand(0x4747572c, 0x1eb97181, 0xf78fa244, 0xfb05d193) == 0xdab194a1
  {
  }

  lemma Row4()
    ensures Expanded(W2, W3) == W4
  {
    hide Expand;
    Words32();
    Words36();
  }

  lemma Words40()
    ensures Expand(0x6eee9cb3, 0x63e3ea96, 0x2c53069d, 0xf78fa244) == 0xf7bd7bb1
    ensures Expand(0xdab194a1, 0x462c8135, 0xf5ad3f37, 0x2c53069d) == 0xaa050330
    ensures Expand(0xf7bd7bb1, 0xb7ab6b97, 0xadeb9be9, 0xf5ad3f37) == 0xe008a475
    ensures Expand(0xaa050330, 0x23c6c2ab, 0x135436db, 0xadeb9be9) == 0xad8209f9
  {
  }

  lemma Words44()
    ensures Expand(0xe008a475, 0x4747572c, 0xd3842373, 0x135436db) == 0x963354fc
    ensures Expand(0xad8209f9, 0x6eee9cb3, 0xa8da1070, 0xd3842373) == 0xf8b22031
    ensures Expand(0x963354fc, 0xdab194a1, 0x5412bf73, 0xa8da1070) == 0x8846a1af
    ensures Expand(0xf8b22031, 0xf7bd7bb1, 0x1eb97181, 0x5412bf73) == 0xfd7b4668
  {
  }

  lemma Row5()
    ensures Expanded(W3, W4) == W5
  {
    hide Expand;
    Words40();
    Words44();
  }

  lemma Words48()
    ensures Expand(0x8846a1af, 0xaa050330, 0x63e3ea96, 0x1eb97181) == 0x279cbbb3
    ensures Expand(0xfd7b4668, 0xe008a475, 0x462c8135, 0x63e3ea96) == 0x51b7677d
    ensures Expand(0x279cbbb3, 0xad8209f9, 0xb7ab6b97, 0x462c8135) == 0xa1d47190
    ensures Expand(0x51b7677d, 0x963354fc, 0x23c6c2ab, 0xb7ab6b97) == 0x8fb9cce8
  {
  }

  lemma Words52()
    ensures Expand(0xa1d47190, 0xf8b22031, 0x4747572c, 0x23c6c2ab) == 0x58f88a42
    ensures Expand(0x8fb9cce8, 0x8846a1af, 0x6eee9cb3, 0x4747572c) == 0x7b858647
    ensures Expand(0x58f88a42, 0xfd7b4668, 0xdab194a1, 0x6eee9cb3) == 0xfeb4636d
    ensures Expand(0x7b858647, 0x279cbbb3, 0xf7bd7bb1, 0xdab194a1) == 0x9a38ac95
  {
  }

  lemma Row6()
    ensures Expanded(W4, W5) == W6
  {
    hide Expand;
    Words48();
    Words52();
  }

  lemma Words56()
    ensures Expand(0xfeb4636d, 0x51b7677d, 0xaa050330, 0xf7bd7bb1) == 0x3c3251a3
    ensures Expand(0x9a38ac95, 0xa1d47190, 0xe008a475, 0xaa050330) == 0x6eb4e2f4
    ensures Expand(0x3c3251a3, 0x8fb9cce8, 0xad8209f9, 0xe008a475) == 0x374294b4
    ensures Expand(0x6eb4e2f4, 0x58f88a42, 0x963354fc, 0xad8209f9) == 0x328ed5a9
  {
  }

  lemma Words60()
    ensures Expand(0x374294b4, 0x7b858647, 0xf8b22031, 0x963354fc) == 0x1f658799
    ensures Expand(0x328ed5a9, 0xfeb4636d, 0x8846a1af, 0xf8b22031) == 0x8e475ba8
    ensures Expand(0x1f658799, 0x9a38ac95, 0xfd7b4668, 0x8846a1af) == 0xb58764a2
    ensures Expand(0x8e475ba8, 0x3c3251a3, 0x279cbbb3, 0xfd7b4668) == 0xcc80c72e
  {
  }

  lemma Row7()
    ensures Expanded(W5, W6) == W7
  {
    hide Expand;
    Words56();
    Words60();
  }

  // ----- The working variables before each round

  const S0 := Registers(0x6a09e667, 0xbb67ae85, 0x3c6ef372, 0xa54ff53a, 0x510e527f, 0x9b05688c, 0x1f83d9ab, 0x5be0cd19)
  const S1 := Registers(0x627ff7bc, 0x6a09e667, 0xbb67ae85, 0x3c6ef372, 0xff3f5211, 0x510e527f, 0x9b05688c, 0x1f83d9ab)
  const S2 := Registers(0xb16617eb, 0x627ff7bc, 0x6a09e667, 0xbb67ae85, 0x28c3051f, 0xff3f5211, 0x510e527f, 0x9b05688c)
  const S3 := Registers(0x25d55aca, 0xb16617eb, 0x627ff7bc, 0x6a09e667, 0xb3717151, 0x28c3051f, 0xff3f5211, 0x510e527f)
  const S4 := Registers(0x0d944c4f, 0x25d55aca, 0xb16617eb, 0x627ff7bc, 0x4bd78a3d, 0xb3717151, 0x28c3051f, 0xff3f5211)
  const S5 := Registers(0x3baaf64d, 0x0d944c4f, 0x25d55aca, 0xb16617eb, 0x882a4bb7, 0x4bd78a3d, 0xb3717151, 0x28c3051f)
  const S6 := Registers(0x00ea7ba1, 0x3baaf64d, 0x0d944c4f, 0x25d55aca, 0x2d61e113, 0x882a4bb7, 0x4bd78a3d, 0xb3717151)
  const S7 := Registers(0xad0e7d67, 0x00ea7ba1, 0x3baaf64d, 0x0d944c4f, 0x945d3c2c, 0x2d61e113, 0x882a4bb7, 0x4bd78a3d)
  const S8 := Registers(0x7feb1ec5, 0xad0e7d67, 0x00ea7ba1, 0x3baaf64d, 0x2a498211, 0x945d3c2c, 0x2d61e113, 0x882a4bb7)
  const S9 := Registers(0xbb7d6bf9, 0x7feb1ec5, 0xad0e7d67, 0x00ea7ba1, 0xc393b54b, 0x2a498211, 0x945d3c2c, 0x2d61e113)
  const S10 := Registers(0x2a0c4558, 0xbb7d6bf9, 0x7feb1ec5, 0xad0e7d67, 0xa6c9d91c, 0xc393b54b, 0x2a498211, 0x945d3c2c)
  const S11 := Registers(0xc5b83674, 0x2a0c4558, 0xbb7d6bf9, 0x7feb1ec5, 0x26024266, 0xa6c9d91c, 0xc393b54b, 0x2a498211)
  const S12 := Registers(0x49b449f5, 0xc5b83674, 0x2a0c4558, 0xbb7d6bf9, 0xbc510df8, 0x26024266, 0xa6c9d91c, 0xc393b54b)
  const S13 := Registers(0xe8d7e5d8, 0x49b449f5, 0xc5b83674, 0x2a0c4558, 0x8db88164, 0xbc510df8, 0x26024266, 0xa6c9d91c)
  const S14 := Registers(0x4dbcf82d, 0xe8d7e5d8, 0x49b449f5, 0xc5b83674, 0x62aefb27, 0x8db88164, 0xbc510df8, 0x26024266)
  const S15 := Registers(0xb88e1d62, 0x4dbcf82d, 0xe8d7e5d8, 0x49b449f5, 0xd2ab82ff, 0x62aefb27, 0x8db88164, 0xbc510df8)
  const S16 := Registers(0x28fbcedf, 0xb88e1d62, 0x4dbcf82d, 0xe8d7e5d8, 0x0ccd51a2, 0xd2ab82ff, 0x62aefb27, 0x8db88164)
  const S17 := Registers(0x8c86b868, 0x28fbcedf, 0xb88e1d62, 0x4dbcf82d, 0xf8a2f907, 0x0ccd51a2, 0xd2ab82ff, 0x62aefb27)
  const S18 := Registers(0x701b492b, 0x8c86b868, 0x28fbcedf, 0xb88e1d62, 0x1ac53cd1, 0xf8a2f907, 0x0ccd51a2, 0xd2ab82ff)
  const S19 := Registers(0xb66f4983, 0x701b492b, 0x8c86b868, 0x28fbcedf, 0x4de79f2a, 0x1ac53cd1, 0xf8a2f907, 0x0ccd51a2)
  const S20 := Registers(0x4a571863, 0xb66f4983, 0x701b492b, 0x8c86b868, 0xa2a32e54, 0x4de79f2a, 0x1ac53cd1, 0xf8a2f907)
  const S21 := Registers(0x93a00db7, 0x4a571863, 0xb66f4983, 0x701b492b, 0x5fd96373, 0xa2a32e54, 0x4de79f2a, 0x1ac53cd1)
  const S22 := Registers(0x2e63b856, 0x93a00db7, 0x4a571863, 0xb66f4983, 0x02b5b7bb, 0x5fd96373, 0xa2a32e54, 0x4de79f2a)
  const S23 := Registers(0x75ea3a53, 0x2e63b856, 0x93a00db7, 0x4a571863, 0x5a2da5ae, 0x02b5b7bb, 0x5fd96373, 0xa2a32e54)
  const S24 := Registers(0x15f43934, 0x75ea3a53, 0x2e63b856, 0x93a00db7, 0x8160ad2e, 0x5a2da5ae, 0x02b5b7bb, 0x5fd96373)
  const S25 := Registers(0xf3fbf2ba, 0x15f43934, 0x75ea3a53, 0x2e63b856, 0x35805660, 0x8160ad2e, 0x5a2da5ae, 0x02b5b7bb)
  const S26 := Registers(0xec416eac, 0xf3fbf2ba, 0x15f43934, 0x75ea3a53, 0xddc76412, 0x35805660, 0x8160ad2e, 0x5a2da5ae)
  const S27 := Registers(0x81dc8ab8, 0xec416eac, 0xf3fbf2ba, 0x15f43934, 0xb607c03e, 0xddc76412, 0x35805660, 0x8160ad2e)
  const S28 := Registers(0x6c8f98d8, 0x81dc8ab8, 0xec416eac, 0xf3fbf2ba, 0x99101907, 0xb607c03e, 0xddc76412, 0x35805660)
  const S29 := Registers(0x6b694d9f, 0x6c8f98d8, 0x81dc8ab8, 0xec416eac, 0x8f13d1a9, 0x99101907, 0xb607c03e, 0xddc76412)
  const S30 := Registers(0xd7d1a1f6, 0x6b694d9f, 0x6c8f98d8, 0x81dc8ab8, 0x472e128a, 0x8f13d1a9, 0x99101907, 0xb607c03e)
  const S31 := Registers(0x60a9fdc4, 0xd7d1a1f6, 0x6b694d9f, 0x6c8f98d8, 0x75f7f0ef, 0x472e128a, 0x8f13d1a9, 0x99101907)
  const S32 := Registers(0xe21b8384, 0x60a9fdc4, 0xd7d1a1f6, 0x6b694d9f, 0x98c2c2ca, 0x75f7f0ef, 0x472e128a, 0x8f13d1a9)
  const S33 := Registers(0x6d0e1a11, 0xe21b8384, 0x60a9fdc4, 0xd7d1a1f6, 0xab2de237, 0x98c2c2ca, 0x75f7f0ef, 0x472e128a)
  const S34 := Registers(0xd85501c7, 0x6d0e1a11, 0xe21b8384, 0x60a9fdc4, 0x9c7a5cf9, 0xab2de237, 0x98c2c2ca, 0x75f7f0ef)
  const S35 := Registers(0x6ab15e86, 0xd85501c7, 0x6d0e1a11, 0xe21b8384, 0x370fbb0d, 0x9c7a5cf9, 0xab2de237, 0x98c2c2ca)
  const S36 := Registers(0x26722337, 0x6ab15e86, 0xd85501c7, 0x6d0e1a11, 0xf49370b3, 0x370fbb0d, 0x9c7a5cf9, 0xab2de237)
  const S37 := Registers(0x83994621, 0x26722337, 0x6ab15e86, 0xd85501c7, 0x6d8cf4e6, 0xf49370b3, 0x370fbb0d, 0x9c7a5cf9)
  const S38 := Registers(0xeb553d79, 0x83994621, 0x26722337, 0x6ab15e86, 0x6c062dcd, 0x6d8cf4e6, 0xf49370b3, 0x370fbb0d)
  const S39 := Registers(0x1ca32e33, 0xeb553d79, 0x83994621, 0x26722337, 0x1e13732e, 0x6c062dcd, 0x6d8cf4e6, 0xf49370b3)
  const S40 := Registers(0x68e2016a, 0x1ca32e33, 0xeb553d79, 0x83994621, 0xc9ba1389, 0x1e13732e, 0x6c062dcd, 0x6d8cf4e6)
  const S41 := Registers(0x418850d0, 0x68e2016a, 0x1ca32e33, 0xeb553d79, 0x42cffa8d, 0xc9ba1389, 0x1e13732e, 0x6c062dcd)
  const S42 := Registers(0x1e632589, 0x418850d0, 0x68e2016a, 0x1ca32e33, 0x09730920, 0x42cffa8d, 0xc9ba1389, 0x1e13732e)
  const S43 := Registers(0xcefb4fa7, 0x1e632589, 0x418850d0, 0x68e2016a, 0xbb765e10, 0x09730920, 0x42cffa8d, 0xc9ba1389)
  const S44 := Registers(0x77235829, 0xcefb4fa7, 0x1e632589, 0x418850d0, 0x2d5bd90a, 0xbb765e10, 0x09730920, 0x42cffa8d)
  const S45 := Registers(0xe86be940, 0x77235829, 0xcefb4fa7, 0x1e632589, 0xb9ad219b, 0x2d5bd90a, 0xbb765e10, 0x09730920)
  const S46 := Registers(0x5d3edf4c, 0xe86be940, 0x77235829, 0xcefb4fa7, 0xad7e0106, 0xb9ad219b, 0x2d5bd90a, 0xbb765e10)
  const S47 := Registers(0xf9d62b79, 0x5d3edf4c, 0xe86be940, 0x77235829, 0x35553287, 0xad7e0106, 0xb9ad219b, 0x2d5bd90a)
  const S48 := Registers(0x467f0dc6, 0xf9d62b79, 0x5d3edf4c, 0xe86be940, 0x470bd71f, 0x35553287, 0xad7e0106, 0xb9ad219b)
  const S49 := Registers(0x249beacc, 0x467f0dc6, 0xf9d62b79, 0x5d3edf4c, 0xabeedb30, 0x470bd71f, 0x35553287, 0xad7e0106)
  const S50 := Registers(0x1e2c41ce, 0x249beacc, 0x467f0dc6, 0xf9d62b79, 0xe59f0650, 0xabeedb30, 0x470bd71f, 0x35553287)
  const S51 := Registers(0x2746f944, 0x1e2c41ce, 0x249beacc, 0x467f0dc6, 0xe1e10186, 0xe59f0650, 0xabeedb30, 0x470bd71f)
  const S52 := Registers(0xd1063509, 0x2746f944, 0x1e2c41ce, 0x249beacc, 0x1960c408, 0xe1e10186, 0xe59f0650, 0xabeedb30)
  const S53 := Registers(0x10e8b2fc, 0xd1063509, 0x2746f944, 0x1e2c41ce, 0x59a30a45, 0x1960c408, 0xe1e10186, 0xe59f0650)
  const S54 := Registers(0x37fde04c, 0x10e8b2fc, 0xd1063509, 0x2746f944, 0x13d21515, 0x59a30a45, 0x1960c408, 0xe1e10186)
  const S55 := Registers(0x7fc94f5d, 0x37fde04c, 0x10e8b2fc, 0xd1063509, 0x9d03a132, 0x13d21515, 0x59a30a45, 0x1960c408)
  const S56 := Registers(0x136fde61, 0x7fc94f5d, 0x37fde04c, 0x10e8b2fc, 0xac6758ac, 0x9d03a132, 0x13d21515, 0x59a30a45)
  const S57 := Registers(0x7f18e2de, 0x136fde61, 0x7fc94f5d, 0x37fde04c, 0x4f68dee2, 0xac6758ac, 0x9d03a132, 0x13d21515)
  const S58 := Registers(0xe2b39c58, 0x7f18e2de, 0x136fde61, 0x7fc94f5d, 0xb0a8f4bb, 0x4f68dee2, 0xac6758ac, 0x9d03a132)
  const S59 := Registers(0x1aa3e50c, 0xe2b39c58, 0x7f18e2de, 0x136fde61, 0x1316c511, 0xb0a8f4bb, 0x4f68dee2, 0xac6758ac)
  const S60 := Registers(0x5142c127, 0x1aa3e50c, 0xe2b39c58, 0x7f18e2de, 0x48a29ef6, 0x1316c511, 0xb0a8f4bb, 0x4f68dee2)
  const S61 := Registers(0x2f4f9bc0, 0x5142c127, 0x1aa3e50c, 0xe2b39c58, 0x85561278, 0x48a29ef6, 0x1316c511, 0xb0a8f4bb)
  const S62 := Registers(0x0251c0bd, 0x2f4f9bc0, 0x5142c127, 0x1aa3e50c, 0xde03ffe0, 0x85561278, 0x48a29ef6, 0x1316c511)
  const S63 := Registers(0x9098785c, 0x0251c0bd, 0x2f4f9bc0, 0x5142c127, 0xa57a051b, 0xde03ffe0, 0x85561278, 0x48a29ef6)
  const S64 := Registers(0x59fc826e, 0x9098785c, 0x0251c0bd, 0x2f4f9bc0, 0x21c18223, 0xa57a051b, 0xde03ffe0, 0x85561278)

  lemma Go(m: MessageBlock, t: nat, r: Registers, k: Word, w: Word)
    requires t < 64 && Rounds(Tables(), H0, m, t) == r && K[t] == k && Schedule(m, t) == w
    ensures Rounds(Tables(), H0, m, t + 1) == Round(r, k, w)
  {
    hide Round, Rounds, Schedule;
    RoundsStep(Tables(), H0, m, t);
  }

  lemma Rounds0(m: MessageBlock)
    requires Rounds(Tables(), H0, m, 0) == S0 && ScheduleIs(m, 0, W0)
    ensures Rounds(Tables(), H0, m, 8) == S8
  {
    hide Rounds, Schedule, K;
    Constants0();
    Go(m, 0, S0, 0x428a2f98, 0x66776f6f);
    Go(m, 1, S1, 0x71374491, 0x70206677);
    Go(m, 2, S2, 0xb5c0fbcf, 0x6f6f7020);
    Go(m, 3, S3, 0xe9b5dba5, 0x66776f6f);
    Go(m, 4, S4, 0x3956c25b, 0x70800000);
    Go(m, 5, S5, 0x59f111f1, 0x00000000);
    Go(m, 6, S6, 0x923f82a4, 0x00000000);
    Go(m, 7, S7, 0xab1c5ed5, 0x00000000);
  }

  lemma Constants0()
    ensures K[0] == 0x428a2f98 && K[1] == 0x71374491
    ensures K[2] == 0xb5c0fbcf && K[3] == 0xe9b5dba5
    ensures K[4] == 0x3956c25b && K[5] == 0x59f111f1
    ensures K[6] == 0x923f82a4 && K[7] == 0xab1c5ed5
  {
    hide K;
    ConstantAt(0); ConstantAt(1); ConstantAt(2); ConstantAt(3);
    ConstantAt(4); ConstantAt(5); ConstantAt(6); ConstantAt(7);
  }

  lemma Rounds1(m: MessageBlock)
    requires Rounds(Tables(), H0, m, 8) == S8 && ScheduleIs(m, 8, W1)
    ensures Rounds(Tables(), H0, m, 16) == S16
  {
    hide Rounds, Schedule, K;
    Constants1();
    Go(m, 8, S8, 0xd807aa98, 0x00000000);
    Go(m, 9, S9, 0x12835b01, 0x00000000);
    Go(m, 10, S10, 0x243185be, 0x00000000);
    Go(m, 11, S11, 0x550c7dc3, 0x00000000);
    Go(m, 12, S12, 0x72be5d74, 0x00000000);
    Go(m, 13, S13, 0x80deb1fe, 0x00000000);
    Go(m, 14, S14, 0x9bdc06a7, 0x00000000);
    Go(m, 15, S15, 0xc19bf174, 0x00000088);
  }

  lemma Constants1()
    ensures K[8] == 0xd807aa98 && K[9] == 0x12835b01
    ensures K[10] == 0x243185be && K[11] == 0x550c7dc3
    ensures K[12] == 0x72be5d74 && K[13] == 0x80deb1fe
    ensures K[14] == 0x9bdc06a7 && K[15] == 0xc19bf174
  {
    hide K;
    ConstantAt(8); ConstantAt(9); ConstantAt(10); ConstantAt(11);
    ConstantAt(12); ConstantAt(13); ConstantAt(14); ConstantAt(15);
  }

  lemma Rounds2(m: MessageBlock)
    requires Rounds(Tables(), H0, m, 16) == S16 && ScheduleIs(m, 16, W2)
    ensures Rounds(Tables(), H0, m, 24) == S24
  {
    hide Rounds, Schedule, K;
    Constants2();
    Go(m, 16, S16, 0xe49b69c1, 0x5ff0ff79);
    Go(m, 17, S17, 0xefbe4786, 0x01b091b6);
    Go(m, 18, S18, 0x0fc19dc6, 0xd98dc307);
    Go(m, 19, S19, 0x240ca1cc, 0xd0563859);
    Go(m, 20, S20, 0x2de92c6f, 0xca557487);
    Go(m, 21, S21, 0x4a7484aa, 0xdb13c7af);
    Go(m, 22, S22, 0x5cb0a9dc, 0x14e189c5);
    Go(m, 23, S23, 0x76f988da, 0xfb05d193);
  }

  lemma Constants2()
    ensures K[16] == 0xe49b69c1 && K[17] == 0xefbe4786
    ensures K[18] == 0x0fc19dc6 && K[19] == 0x240ca1cc
    ensures K[20] == 0x2de92c6f && K[21] == 0x4a7484aa
    ensures K[22] == 0x5cb0a9dc && K[23] == 0x76f988da
  {
    hide K;
    ConstantAt(16); ConstantAt(17); ConstantAt(18); ConstantAt(19);
    ConstantAt(20); ConstantAt(21); ConstantAt(22); ConstantAt(23);
  }

  lemma Rounds3(m: MessageBlock)
    requires Rounds(Tables(), H0, m, 24) == S24 && ScheduleIs(m, 24, W3)
    ensures Rounds(Tables(), H0, m, 32) == S32
  {
    hide Rounds, Schedule, K;
    Constants3();
    Go(m, 24, S24, 0x983e5152, 0xf78fa244);
    Go(m, 25, S25, 0xa831c66d, 0x2c53069d);
    Go(m, 26, S26, 0xb00327c8, 0xf5ad3f37);
    Go(m, 27, S27, 0xbf597fc7, 0xadeb9be9);
    Go(m, 28, S28, 0xc6e00bf3, 0x135436db);
    Go(m, 29, S29, 0xd5a79147, 0xd3842373);
    Go(m, 30, S30, 0x06ca6351, 0xa8da1070);
    Go(m, 31, S31, 0x14292967, 0x5412bf73);
  }

  lemma Constants3()
    ensures K[24] == 0x983e5152 && K[25] == 0xa831c66d
    ensures K[26] == 0xb00327c8 && K[27] == 0xbf597fc7
    ensures K[28] == 0xc6e00bf3 && K[29] == 0xd5a79147
    ensures K[30] == 0x06ca6351 && K[31] == 0x14292967
  {
    hide K;
    ConstantAt(24); ConstantAt(25); ConstantAt(26); ConstantAt(27);
    ConstantAt(28); ConstantAt(29); ConstantAt(30); ConstantAt(31);
  }

  lemma Rounds4(m: MessageBlock)
    requires Rounds(Tables(), H0, m, 32) == S32 && ScheduleIs(m, 32, W4)
    ensures Rounds(Tables(), H0, m, 40) == S40
  {
    hide Rounds, Schedule, K;
    Constants4();
    Go(m, 32, S32, 0x27b70a85, 0x1eb97181);
    Go(m, 33, S33, 0x2e1b2138, 0x63e3ea96);
    Go(m, 34, S34, 0x4d2c6dfc, 0x462c8135);
    Go(m, 35, S35, 0x53380d13, 0xb7ab6b97);
    Go(m, 36, S36, 0x650a7354, 0x23c6c2ab);
    Go(m, 37, S37, 0x766a0abb, 0x4747572c);
    Go(m, 38, S38, 0x81c2c92e, 0x6eee9cb3);
    Go(m, 39, S39, 0x92722c85, 0xdab194a1);
  }

  lemma Constants4()
    ensures K[32] == 0x27b70a85 && K[33] == 0x2e1b2138
    ensures K[34] == 0x4d2c6dfc && K[35] == 0x53380d13
    ensures K[36] == 0x650a7354 && K[37] == 0x766a0abb
    ensures K[38] == 0x81c2c92e && K[39] == 0x92722c85
  {
    hide K;
    ConstantAt(32); ConstantAt(33); ConstantAt(34); ConstantAt(35);
    ConstantAt(36); ConstantAt(37); ConstantAt(38); ConstantAt(39);
  }

  lemma Rounds5(m: MessageBlock)
    requires Rounds(Tables(), H0, m, 40) == S40 && ScheduleIs(m, 40, W5)
    ensures Rounds(Tables(), H0, m, 48) == S48
  {
    hide Rounds, Schedule, K;
    Constants5();
    Go(m, 40, S40, 0xa2bfe8a1, 0xf7bd7bb1);
    Go(m, 41, S41, 0xa81a664b, 0xaa050330);
    Go(m, 42, S42, 0xc24b8b70, 0xe008a475);
    Go(m, 43, S43, 0xc76c51a3, 0xad8209f9);
    Go(m, 44, S44, 0xd192e819, 0x963354fc);
    Go(m, 45, S45, 0xd6990624, 0xf8b22031);
    Go(m, 46, S46, 0xf40e3585, 0x8846a1af);
    Go(m, 47, S47, 0x106aa070, 0xfd7b4668);
  }

  lemma Constants5()
    ensures K[40] == 0xa2bfe8a1 && K[41] == 0xa81a664b
    ensures K[42] == 0xc24b8b70 && K[43] == 0xc76c51a3
    ensures K[44] == 0xd192e819 && K[45] == 0xd6990624
    ensures K[46] == 0xf40e3585 && K[47] == 0x106aa070
  {
    hide K;
    ConstantAt(40); ConstantAt(41); ConstantAt(42); ConstantAt(43);
    ConstantAt(44); ConstantAt(45); ConstantAt(46); ConstantAt(47);
  }

  lemma Rounds6(m: MessageBlock)
    requires Rounds(Tables(), H0, m, 48) == S48 && ScheduleIs(m, 48, W6)
    ensures Rounds(Tables(), H0, m, 56) == S56
  {
    hide Rounds, Schedule, K;
    Constants6();
    Go(m, 48, S48, 0x19a4c116, 0x279cbbb3);
    Go(m, 49, S49, 0x1e376c08, 0x51b7677d);
    Go(m, 50, S50, 0x2748774c, 0xa1d47190);
    Go(m, 51, S51, 0x34b0bcb5, 0x8fb9cce8);
    Go(m, 52, S52, 0x391c0cb3, 0x58f88a42);
    Go(m, 53, S53, 0x4ed8aa4a, 0x7b858647);
    Go(m, 54, S54, 0x5b9cca4f, 0xfeb4636d);
    Go(m, 55, S55, 0x682e6ff3, 0x9a38ac95);
  }

  lemma Constants6()
    ensures K[48] == 0x19a4c116 && K[49] == 0x1e376c08
    ensures K[50] == 0x2748774c && K[51] == 0x34b0bcb5
    ensures K[52] == 0x391c0cb3 && K[53] == 0x4ed8aa4a
    ensures K[54] == 0x5b9cca4f && K[55] == 0x682e6ff3
  {
    hide K;
    ConstantAt(48); ConstantAt(49); ConstantAt(50); ConstantAt(51);
    ConstantAt(52); ConstantAt(53); ConstantAt(54); ConstantAt(55);
  }

  lemma Rounds7(m: MessageBlock)
    requires Rounds(Tables(), H0, m, 56) == S56 && ScheduleIs(m, 56, W7)
    ensures Rounds(Tables(), H0, m, 64) == S64
  {
    hide Rounds, Schedule, K;
    Constants7();
    Go(m, 56, S56, 0x748f82ee, 0x3c3251a3);
    Go(m, 57, S57, 0x78a5636f, 0x6eb4e2f4);
    Go(m, 58, S58, 0x84c87814, 0x374294b4);
    Go(m, 59, S59, 0x8cc70208, 0x328ed5a9);
    Go(m, 60, S60, 0x90befffa, 0x1f658799);
    Go(m, 61, S61, 0xa4506ceb, 0x8e475ba8);
    Go(m, 62, S62, 0xbef9a3f7, 0xb58764a2);
    Go(m, 63, S63, 0xc67178f2, 0xcc80c72e);
  }

  lemma Constants7()
    ensures K[56] == 0x748f82ee && K[57] == 0x78a5636f
    ensures K[58] == 0x84c87814 && K[59] == 0x8cc70208
    ensures K[60] == 0x90befffa && K[61] == 0xa4506ceb
    ensures K[62] == 0xbef9a3f7 && K[63] == 0xc67178f2
  {
    hide K;
    ConstantAt(56); ConstantAt(57); ConstantAt(58); ConstantAt(59);
    ConstantAt(60); ConstantAt(61); ConstantAt(62); ConstantAt(63);
  }

  lemma ConstantAt(t: nat)
    requires t < 64
    ensures K[t] == if t < 8 then K0[t] else if t < 16 then K1[t - 8] else if t < 24 then K2[t - 16]
      else if t < 32 then K3[t - 24] else if t < 40 then K4[t - 32] else if t < 48 then K5[t - 40]
      else if t < 56 then K6[t - 48] else K7[t - 56]
  {
    RowElement(K0, K1, K2, K3, K4, K5, K6, K7, t);
  }

  /** All sixty-four rounds. */
  lemma AllRounds(m: MessageBlock)
    requires ScheduleIs(m, 0, W0) && ScheduleIs(m, 8, W1)
    ensures Rounds(Tables(), H0, m, 64) == S64
  {
    hide Rounds, ScheduleIs, Expanded;
    RoundsStart(Tables(), H0, m);
    Row2(); Row3(); Row4(); Row5(); Row6(); Row7();
    ScheduleGoesOn(m, 0, W0, W1); ScheduleGoesOn(m, 8, W1, W2); ScheduleGoesOn(m, 16, W2, W3);
    ScheduleGoesOn(m, 24, W3, W4); ScheduleGoesOn(m, 32, W4, W5); ScheduleGoesOn(m, 40, W5, W6);
    Rounds0(m); Rounds1(m); Rounds2(m); Rounds3(m); Rounds4(m); Rounds5(m); Rounds6(m); Rounds7(m);
  }

  // ----- The block and the digest

  function Block(): (b: seq<Byte>)
    ensures |b| == 64
  {
    MESSAGE + [0x80] + ZeroBytes(38) + [0, 0, 0, 0, 0, 0, 0, 0x88]
  }

  lemma LowByteOfZero()
    ensures LowByte(0) == 0
  {
    hide ByteOf;
    assert NatBits(0, 4) == [false, false, false, false];
    assert NatBits(0, 8) == BitsOfByte(0);
    ByteRoundTrip(0);
  }

  lemma LowByteOfLength()
    ensures LowByte(136) == 0x88
  {
    hide ByteOf;
    assert NatBits(8, 4) == [true, false, false, false];
    assert NatBits(136, 8) == BitsOfByte(0x88);
    ByteRoundTrip(0x88);
  }

  lemma LengthOfMessage()
    ensures LengthBytes(0, 136) == [0, 0, 0, 0, 0, 0, 0, 0x88]
  {
    hide LowByte;
    LowByteOfZero();
    LowByteOfLength();
  }

  lemma BlockIsPadded()
    ensures BitsOf(Block()) == Pad(BitsOf(MESSAGE))
  {
    hide BitsOf, Pad, LengthBytes, ZeroBytes;
    LengthOfMessage();
    MarkerByte();
    PaddingRefines(MESSAGE, [], 0x80, 0, 136);
    assert BitsOf(MESSAGE) + [] == BitsOf(MESSAGE);
  }

  lemma WordIs(t: nat, a: Byte, b: Byte, c: Byte, d: Byte)
    requires t < 16 && Block()[4 * t] == a && Block()[4 * t + 1] == b && Block()[4 * t + 2] == c
    requires Block()[4 * t + 3] == d
    ensures Schedule(WordsOf(Block()), t) == Join(a, b, c, d)
  {
    hide Join, Schedule, Block;
    ScheduleStart(WordsOf(Block()), t);
  }

  lemma FirstWords()
    ensures ScheduleIs(WordsOf(Block()), 0, W0)
  {
    hide Schedule, WordsOf;
    WordIs(0, 0x66, 0x77, 0x6f, 0x6f);
    WordIs(1, 0x70, 0x20, 0x66, 0x77);
    WordIs(2, 0x6f, 0x6f, 0x70, 0x20);
    WordIs(3, 0x66, 0x77, 0x6f, 0x6f);
    WordIs(4, 0x70, 0x80, 0, 0);
    WordIs(5, 0, 0, 0, 0);
    WordIs(6, 0, 0, 0, 0);
    WordIs(7, 0, 0, 0, 0);
  }

  lemma LastWords()
    ensures ScheduleIs(WordsOf(Block()), 8, W1)
  {
    hide Schedule, WordsOf;
    WordIs(8, 0, 0, 0, 0);
    WordIs(9, 0, 0, 0, 0);
    WordIs(10, 0, 0, 0, 0);
    WordIs(11, 0, 0, 0, 0);
    WordIs(12, 0, 0, 0, 0);
    WordIs(13, 0, 0, 0, 0);
    WordIs(14, 0, 0, 0, 0);
    WordIs(15, 0, 0, 0, 0x88);
  }

  lemma DigestWords()
    ensures Update(H0, S64) == [0xc40668d5, 0x4c0026e1, 0x3ec0b42f, 0xd49f90fa,
      0x72cfd4a2, 0x407f6da7, 0xfd87d98b, 0xe136df91]
  {
  }

  lemma BytesOfDigest()
    ensures BytesOfWord(0xc40668d5) == [0xc4, 0x06, 0x68, 0xd5]
    ensures BytesOfWord(0x4c0026e1) == [0x4c, 0x00, 0x26, 0xe1]
    ensures BytesOfWord(0x3ec0b42f) == [0x3e, 0xc0, 0xb4, 0x2f]
    ensures BytesOfWord(0xd49f90fa) == [0xd4, 0x9f, 0x90, 0xfa]
    ensures BytesOfWord(0x72cfd4a2) == [0x72, 0xcf, 0xd4, 0xa2]
    ensures BytesOfWord(0x407f6da7) == [0x40, 0x7f, 0x6d, 0xa7]
    ensures BytesOfWord(0xfd87d98b) == [0xfd, 0x87, 0xd9, 0x8b]
    ensures BytesOfWord(0xe136df91) == [0xe1, 0x36, 0xdf, 0x91]
  {
  }

  lemma DigestByte(k: nat, r: nat)
    requires k < 8 && r < 4
    ensures BytesOfWord(Update(H0, S64)[k])[r] == DIGEST[4 * k + r]
  {
    DigestWords();
    BytesOfDigest();
    hide BytesOfWord, Update;
    if r == 0 {
    } else if r == 1 {
    } else if r == 2 {
    } else {
    }
  }

  lemma DigestBytes()
    ensures Concatenate(Update(H0, S64)) == DIGEST
  {
    hide Concatenate, DIGEST, BytesOfWord, Update;
    DigestLength();
    var h := Update(H0, S64);
    forall i | 0 <= i < 32
      ensures Concatenate(h)[i] == DIGEST[i]
    {
      ConcatenateAt(h, i);
      DigestByte(i / 4, i % 4);
    }
  }

  lemma DigestLength()
    ensures |DIGEST| == 32
  {
  }

  /** SHA-256 of the message is the digest the test of the hash expects. */
  lemma KnownAnswer()
    ensures Hash(Tables(), BitsOf(MESSAGE)) == DIGEST
  {
    hide BitsOf, Pad, Rounds, Schedule, WordsOf, BlockAt, Update, Concatenate, ScheduleIs;
    var m := WordsOf(Block());
    BlockIsPadded();
    WordsOfBlock(Block());
    DigestStep(Tables(), [], BitsOf(Block()));
    assert [] + BitsOf(Block()) == BitsOf(Block());
    FirstWords();
    LastWords();
    AllRounds(m);
    DigestBytes();
  }
}
