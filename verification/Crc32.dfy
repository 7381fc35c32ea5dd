// CRC-32: the table-driven form that the decompressor uses, and the bit by bit division that
// it stands for.
module CrcRegister {
  // A 32-bit register. The wrapper keeps bit-level reasoning inside the few lemmas that need
  // it.
  datatype Word = Word(bits: bv32)

  function Not(w: Word): Word {
    Word(!w.bits)
  }

  function Xor(v: Word, w: Word): Word {
    Word(v.bits ^ w.bits)
  }

  function Low(w: Word): Word {
    Word(w.bits & 0xFF)
  }

  function High(w: Word): Word {
    Word(w.bits >> 8)
  }

  /* ---- Bit by bit ---- */

  // One bit of the division by the reversed polynomial.
  function Shift(w: Word): Word {
    if w.bits & 1 == 1 then Word((w.bits >> 1) ^ 0xEDB8_8320) else Word(w.bits >> 1)
  }

  function Shift8(w: Word): Word {
    Shift(Shift(Shift(Shift(Shift(Shift(Shift(Shift(w))))))))
  }

  /* ---- By table ---- */

  function Row0(n: bv32): bv32 {
    if n == 0x0 then 0x0000_0000
    else if n == 0x1 then 0x7707_3096
    else if n == 0x2 then 0xEE0E_612C
    else if n == 0x3 then 0x9909_51BA
    else if n == 0x4 then 0x076D_C419
    else if n == 0x5 then 0x706A_F48F
    else if n == 0x6 then 0xE963_A535
    else if n == 0x7 then 0x9E64_95A3
    else if n == 0x8 then 0x0EDB_8832
    else if n == 0x9 then 0x79DC_B8A4
    else if n == 0xA then 0xE0D5_E91E
    else if n == 0xB then 0x97D2_D988
    else if n == 0xC then 0x09B6_4C2B
    else if n == 0xD then 0x7EB1_7CBD
    else if n == 0xE then 0xE7B8_2D07
    else 0x90BF_1D91
  }

  function Row1(n: bv32): bv32 {
    if n == 0x0 then 0x1DB7_1064
    else if n == 0x1 then 0x6AB0_20F2
    else if n == 0x2 then 0xF3B9_7148
    else if n == 0x3 then 0x84BE_41DE
    else if n == 0x4 then 0x1ADA_D47D
    else if n == 0x5 then 0x6DDD_E4EB
    else if n == 0x6 then 0xF4D4_B551
    else if n == 0x7 then 0x83D3_85C7
    else if n == 0x8 then 0x136C_9856
    else if n == 0x9 then 0x646B_A8C0
    else if n == 0xA then 0xFD62_F97A
    else if n == 0xB then 0x8A65_C9EC
    else if n == 0xC then 0x1401_5C4F
    else if n == 0xD then 0x6306_6CD9
    else if n == 0xE then 0xFA0F_3D63
    else 0x8D08_0DF5
  }

  function Row2(n: bv32): bv32 {
    if n == 0x0 then 0x3B6E_20C8
    else if n == 0x1 then 0x4C69_105E
    else if n == 0x2 then 0xD560_41E4
    else if n == 0x3 then 0xA267_7172
    else if n == 0x4 then 0x3C03_E4D1
    else if n == 0x5 then 0x4B04_D447
    else if n == 0x6 then 0xD20D_85FD
    else if n == 0x7 then 0xA50A_B56B
    else if n == 0x8 then 0x35B5_A8FA
    else if n == 0x9 then 0x42B2_986C
    else if n == 0xA then 0xDBBB_C9D6
    else if n == 0xB then 0xACBC_F940
    else if n == 0xC then 0x32D8_6CE3
    else if n == 0xD then 0x45DF_5C75
    else if n == 0xE then 0xDCD6_0DCF
    else 0xABD1_3D59
  }

  function Row3(n: bv32): bv32 {
    if n == 0x0 then 0x26D9_30AC
    else if n == 0x1 then 0x51DE_003A
    else if n == 0x2 then 0xC8D7_5180
    else if n == 0x3 then 0xBFD0_6116
    else if n == 0x4 then 0x21B4_F4B5
    else if n == 0x5 then 0x56B3_C423
    else if n == 0x6 then 0xCFBA_9599
    else if n == 0x7 then 0xB8BD_A50F
    else if n == 0x8 then 0x2802_B89E
    else if n == 0x9 then 0x5F05_8808
    else if n == 0xA then 0xC60C_D9B2
    else if n == 0xB then 0xB10B_E924
    else if n == 0xC then 0x2F6F_7C87
    else if n == 0xD then 0x5868_4C11
    else if n == 0xE then 0xC161_1DAB
    else 0xB666_2D3D
  }

  function Row4(n: bv32): bv32 {
    if n == 0x0 then 0x76DC_4190
    else if n == 0x1 then 0x01DB_7106
    else if n == 0x2 then 0x98D2_20BC
    else if n == 0x3 then 0xEFD5_102A
    else if n == 0x4 then 0x71B1_8589
    else if n == 0x5 then 0x06B6_B51F
    else if n == 0x6 then 0x9FBF_E4A5
    else if n == 0x7 then 0xE8B8_D433
    else if n == 0x8 then 0x7807_C9A2
    else if n == 0x9 then 0x0F00_F934
    else if n == 0xA then 0x9609_A88E
    else if n == 0xB then 0xE10E_9818
    else if n == 0xC then 0x7F6A_0DBB
    else if n == 0xD then 0x086D_3D2D
    else if n == 0xE then 0x9164_6C97
    else 0xE663_5C01
  }

  function Row5(n: bv32): bv32 {
    if n == 0x0 then 0x6B6B_51F4
    else if n == 0x1 then 0x1C6C_6162
    else if n == 0x2 then 0x8565_30D8
    else if n == 0x3 then 0xF262_004E
    else if n == 0x4 then 0x6C06_95ED
    else if n == 0x5 then 0x1B01_A57B
    else if n == 0x6 then 0x8208_F4C1
    else if n == 0x7 then 0xF50F_C457
    else if n == 0x8 then 0x65B0_D9C6
    else if n == 0x9 then 0x12B7_E950
    else if n == 0xA then 0x8BBE_B8EA
    else if n == 0xB then 0xFCB9_887C
    else if n == 0xC then 0x62DD_1DDF
    else if n == 0xD then 0x15DA_2D49
    else if n == 0xE then 0x8CD3_7CF3
    else 0xFBD4_4C65
  }

  function Row6(n: bv32): bv32 {
    if n == 0x0 then 0x4DB2_6158
    else if n == 0x1 then 0x3AB5_51CE
    else if n == 0x2 then 0xA3BC_0074
    else if n == 0x3 then 0xD4BB_30E2
    else if n == 0x4 then 0x4ADF_A541
    else if n == 0x5 then 0x3DD8_95D7
    else if n == 0x6 then 0xA4D1_C46D
    else if n == 0x7 then 0xD3D6_F4FB
    else if n == 0x8 then 0x4369_E96A
    else if n == 0x9 then 0x346E_D9FC
    else if n == 0xA then 0xAD67_8846
    else if n == 0xB then 0xDA60_B8D0
    else if n == 0xC then 0x4404_2D73
    else if n == 0xD then 0x3303_1DE5
    else if n == 0xE then 0xAA0A_4C5F
    else 0xDD0D_7CC9
  }

  function Row7(n: bv32): bv32 {
    if n == 0x0 then 0x5005_713C
    else if n == 0x1 then 0x2702_41AA
    else if n == 0x2 then 0xBE0B_1010
    else if n == 0x3 then 0xC90C_2086
    else if n == 0x4 then 0x5768_B525
    else if n == 0x5 then 0x206F_85B3
    else if n == 0x6 then 0xB966_D409
    else if n == 0x7 then 0xCE61_E49F
    else if n == 0x8 then 0x5EDE_F90E
    else if n == 0x9 then 0x29D9_C998
    else if n == 0xA then 0xB0D0_9822
    else if n == 0xB then 0xC7D7_A8B4
    else if n == 0xC then 0x59B3_3D17
    else if n == 0xD then 0x2EB4_0D81
    else if n == 0xE then 0xB7BD_5C3B
    else 0xC0BA_6CAD
  }

  function Row8(n: bv32): bv32 {
    if n == 0x0 then 0xEDB8_8320
    else if n == 0x1 then 0x9ABF_B3B6
    else if n == 0x2 then 0x03B6_E20C
    else if n == 0x3 then 0x74B1_D29A
    else if n == 0x4 then 0xEAD5_4739
    else if n == 0x5 then 0x9DD2_77AF
    else if n == 0x6 then 0x04DB_2615
    else if n == 0x7 then 0x73DC_1683
    else if n == 0x8 then 0xE363_0B12
    else if n == 0x9 then 0x9464_3B84
    else if n == 0xA then 0x0D6D_6A3E
    else if n == 0xB then 0x7A6A_5AA8
    else if n == 0xC then 0xE40E_CF0B
    else if n == 0xD then 0x9309_FF9D
    else if n == 0xE then 0x0A00_AE27
    else 0x7D07_9EB1
  }

  function Row9(n: bv32): bv32 {
    if n == 0x0 then 0xF00F_9344
    else if n == 0x1 then 0x8708_A3D2
    else if n == 0x2 then 0x1E01_F268
    else if n == 0x3 then 0x6906_C2FE
    else if n == 0x4 then 0xF762_575D
    else if n == 0x5 then 0x8065_67CB
    else if n == 0x6 then 0x196C_3671
    else if n == 0x7 then 0x6E6B_06E7
    else if n == 0x8 then 0xFED4_1B76
    else if n == 0x9 then 0x89D3_2BE0
    else if n == 0xA then 0x10DA_7A5A
    else if n == 0xB then 0x67DD_4ACC
    else if n == 0xC then 0xF9B9_DF6F
    else if n == 0xD then 0x8EBE_EFF9
    else if n == 0xE then 0x17B7_BE43
    else 0x60B0_8ED5
  }

  function RowA(n: bv32): bv32 {
    if n == 0x0 then 0xD6D6_A3E8
    else if n == 0x1 then 0xA1D1_937E
    else if n == 0x2 then 0x38D8_C2C4
    else if n == 0x3 then 0x4FDF_F252
    else if n == 0x4 then 0xD1BB_67F1
    else if n == 0x5 then 0xA6BC_5767
    else if n == 0x6 then 0x3FB5_06DD
    else if n == 0x7 then 0x48B2_364B
    else if n == 0x8 then 0xD80D_2BDA
    else if n == 0x9 then 0xAF0A_1B4C
    else if n == 0xA then 0x3603_4AF6
    else if n == 0xB then 0x4104_7A60
    else if n == 0xC then 0xDF60_EFC3
    else if n == 0xD then 0xA867_DF55
    else if n == 0xE then 0x316E_8EEF
    else 0x4669_BE79
  }

  function RowB(n: bv32): bv32 {
    if n == 0x0 then 0xCB61_B38C
    else if n == 0x1 then 0xBC66_831A
    else if n == 0x2 then 0x256F_D2A0
    else if n == 0x3 then 0x5268_E236
    else if n == 0x4 then 0xCC0C_7795
    else if n == 0x5 then 0xBB0B_4703
    else if n == 0x6 then 0x2202_16B9
    else if n == 0x7 then 0x5505_262F
    else if n == 0x8 then 0xC5BA_3BBE
    else if n == 0x9 then 0xB2BD_0B28
    else if n == 0xA then 0x2BB4_5A92
    else if n == 0xB then 0x5CB3_6A04
    else if n == 0xC then 0xC2D7_FFA7
    else if n == 0xD then 0xB5D0_CF31
    else if n == 0xE then 0x2CD9_9E8B
    else 0x5BDE_AE1D
  }

  function RowC(n: bv32): bv32 {
    if n == 0x0 then 0x9B64_C2B0
    else if n == 0x1 then 0xEC63_F226
    else if n == 0x2 then 0x756A_A39C
    else if n == 0x3 then 0x026D_930A
    else if n == 0x4 then 0x9C09_06A9
    else if n == 0x5 then 0xEB0E_363F
    else if n == 0x6 then 0x7207_6785
    else if n == 0x7 then 0x0500_5713
    else if n == 0x8 then 0x95BF_4A82
    else if n == 0x9 then 0xE2B8_7A14
    else if n == 0xA then 0x7BB1_2BAE
    else if n == 0xB then 0x0CB6_1B38
    else if n == 0xC then 0x92D2_8E9B
    else if n == 0xD then 0xE5D5_BE0D
    else if n == 0xE then 0x7CDC_EFB7
    else 0x0BDB_DF21
  }

  function RowD(n: bv32): bv32 {
    if n == 0x0 then 0x86D3_D2D4
    else if n == 0x1 then 0xF1D4_E242
    else if n == 0x2 then 0x68DD_B3F8
    else if n == 0x3 then 0x1FDA_836E
    else if n == 0x4 then 0x81BE_16CD
    else if n == 0x5 then 0xF6B9_265B
    else if n == 0x6 then 0x6FB0_77E1
    else if n == 0x7 then 0x18B7_4777
    else if n == 0x8 then 0x8808_5AE6
    else if n == 0x9 then 0xFF0F_6A70
    else if n == 0xA then 0x6606_3BCA
    else if n == 0xB then 0x1101_0B5C
    else if n == 0xC then 0x8F65_9EFF
    else if n == 0xD then 0xF862_AE69
    else if n == 0xE then 0x616B_FFD3
    else 0x166C_CF45
  }

  function RowE(n: bv32): bv32 {
    if n == 0x0 then 0xA00A_E278
    else if n == 0x1 then 0xD70D_D2EE
    else if n == 0x2 then 0x4E04_8354
    else if n == 0x3 then 0x3903_B3C2
    else if n == 0x4 then 0xA767_2661
    else if n == 0x5 then 0xD060_16F7
    else if n == 0x6 then 0x4969_474D
    else if n == 0x7 then 0x3E6E_77DB
    else if n == 0x8 then 0xAED1_6A4A
    else if n == 0x9 then 0xD9D6_5ADC
    else if n == 0xA then 0x40DF_0B66
    else if n == 0xB then 0x37D8_3BF0
    else if n == 0xC then 0xA9BC_AE53
    else if n == 0xD then 0xDEBB_9EC5
    else if n == 0xE then 0x47B2_CF7F
    else 0x30B5_FFE9
  }

  function RowF(n: bv32): bv32 {
    if n == 0x0 then 0xBDBD_F21C
    else if n == 0x1 then 0xCABA_C28A
    else if n == 0x2 then 0x53B3_9330
    else if n == 0x3 then 0x24B4_A3A6
    else if n == 0x4 then 0xBAD0_3605
    else if n == 0x5 then 0xCDD7_0693
    else if n == 0x6 then 0x54DE_5729
    else if n == 0x7 then 0x23D9_67BF
    else if n == 0x8 then 0xB366_7A2E
    else if n == 0x9 then 0xC461_4AB8
    else if n == 0xA then 0x5D68_1B02
    else if n == 0xB then 0x2A6F_2B94
    else if n == 0xC then 0xB40B_BE37
    else if n == 0xD then 0xC30C_8EA1
    else if n == 0xE then 0x5A05_DF1B
    else 0x2D02_EF8D
  }

  function Entry(x: bv32): bv32 {
    var r, n := x >> 4, x & 0xF;
    if r == 0x0 then Row0(n)
    else if r == 0x1 then Row1(n)
    else if r == 0x2 then Row2(n)
    else if r == 0x3 then Row3(n)
    else if r == 0x4 then Row4(n)
    else if r == 0x5 then Row5(n)
    else if r == 0x6 then Row6(n)
    else if r == 0x7 then Row7(n)
    else if r == 0x8 then Row8(n)
    else if r == 0x9 then Row9(n)
    else if r == 0xA then RowA(n)
    else if r == 0xB then RowB(n)
    else if r == 0xC then RowC(n)
    else if r == 0xD then RowD(n)
    else if r == 0xE then RowE(n)
    else RowF(n)
  }

  function Table(w: Word): Word {
    Word(Entry(w.bits))
  }

  // Every entry of the table is eight bits of the division.
  lemma TableIsShift8(w: Word)
    requires w.bits <= 0xFF
    ensures Table(w) == Shift8(w)
  {
    hide Table, Shift8;
    if w.bits <= 0xF {
      LowestEntries(w);
    } else if w.bits <= 0x3F {
      LowEntries(w);
    } else if w.bits <= 0x7F {
      LowerEntries(w);
    } else if w.bits <= 0xBF {
      UpperEntries(w);
    } else {
      HighEntries(w);
    }
  }

  lemma LowestEntries(w: Word)
    requires w.bits <= 0xF
    ensures Table(w) == Shift8(w)
  {
  }

  lemma LowEntries(w: Word)
    requires 0xF < w.bits <= 0x3F
    ensures Table(w) == Shift8(w)
  {
  }

  lemma LowerEntries(w: Word)
    requires 0x3F < w.bits <= 0x7F
    ensures Table(w) == Shift8(w)
  {
  }

  lemma UpperEntries(w: Word)
    requires 0x7F < w.bits <= 0xBF
    ensures Table(w) == Shift8(w)
  {
  }

  lemma HighEntries(w: Word)
    requires 0xBF < w.bits <= 0xFF
    ensures Table(w) == Shift8(w)
  {
  }

  function Half(w: Word): Word {
    Word(w.bits >> 1)
  }

  predicate Even(w: Word) {
    w.bits & 1 == 0
  }

  function Divide(w: Word): Word {
    Word((w.bits >> 1) ^ 0xEDB8_8320)
  }

  lemma ShiftCases(w: Word)
    ensures Shift(w) == if Even(w) then Half(w) else Divide(w)
  {
  }

  lemma EvenXor(v: Word, w: Word)
    ensures Even(Xor(v, w)) <==> (Even(v) <==> Even(w))
  {
    EvenBits(v.bits, w.bits);
  }

  lemma EvenBits(v: bv32, w: bv32)
    ensures (v ^ w) & 1 == 0 <==> (v & 1 == 0 <==> w & 1 == 0)
  {
  }

  lemma HalfXor(v: Word, w: Word)
    ensures Half(Xor(v, w)) == Xor(Half(v), Half(w))
  {
    hide Half, Xor;
    HalfBits(v.bits, w.bits);
    XorIs(v, w);
    HalfIs(v);
    HalfIs(w);
    HalfIs(Word(v.bits ^ w.bits));
    XorIs(Word(v.bits >> 1), Word(w.bits >> 1));
  }

  lemma XorIs(v: Word, w: Word)
    ensures Xor(v, w) == Word(v.bits ^ w.bits)
  {
    hide Xor;
    BitsOfXor(v, w);
  }

  lemma BitsOfXor(v: Word, w: Word)
    ensures Xor(v, w).bits == v.bits ^ w.bits
  {
  }

  lemma HalfIs(w: Word)
    ensures Half(w) == Word(w.bits >> 1)
  {
    hide Half;
    BitsOfHalf(w);
  }

  lemma BitsOfHalf(w: Word)
    ensures Half(w).bits == w.bits >> 1
  {
  }

  lemma HalfBits(v: bv32, w: bv32)
    ensures (v ^ w) >> 1 == (v >> 1) ^ (w >> 1)
  {
  }

  lemma DivideIs(w: Word)
    ensures Divide(w) == Xor(Half(w), Word(0xEDB8_8320))
  {
  }

  lemma XorAssociates(u: Word, v: Word, w: Word)
    ensures Xor(Xor(u, v), w) == Xor(u, Xor(v, w))
  {
    hide Xor;
    AssociateBits(u.bits, v.bits, w.bits);
    XorIs(u, v);
    XorIs(v, w);
    XorIs(Word(u.bits ^ v.bits), w);
    XorIs(u, Word(v.bits ^ w.bits));
  }

  lemma AssociateBits(u: bv32, v: bv32, w: bv32)
    ensures (u ^ v) ^ w == u ^ (v ^ w)
  {
  }

  lemma XorCommutes(v: Word, w: Word)
    ensures Xor(v, w) == Xor(w, v)
  {
    CommuteBits(v.bits, w.bits);
  }

  lemma CommuteBits(v: bv32, w: bv32)
    ensures v ^ w == w ^ v
  {
  }

  lemma XorTwice(u: Word, v: Word, w: Word)
    ensures Xor(Xor(u, w), Xor(v, w)) == Xor(u, v)
  {
    hide Xor;
    XorTwiceBits(u.bits, v.bits, w.bits);
    XorIs(u, v);
    XorIs(u, w);
    XorIs(v, w);
    XorIs(Word(u.bits ^ w.bits), Word(v.bits ^ w.bits));
  }

  lemma XorTwiceBits(u: bv32, v: bv32, w: bv32)
    ensures (u ^ w) ^ (v ^ w) == u ^ v
  {
  }

  // The division is linear.
  lemma ShiftXor(v: Word, w: Word)
    ensures Shift(Xor(v, w)) == Xor(Shift(v), Shift(w))
  {
    hide Shift, Even, Half, Divide, Xor;
    ShiftCases(v);
    ShiftCases(w);
    ShiftCases(Xor(v, w));
    EvenXor(v, w);
    HalfXor(v, w);
    DivideIs(v);
    DivideIs(w);
    DivideIs(Xor(v, w));
    var p := Word(0xEDB8_8320);
    if Even(v) {
      XorAssociates(Half(v), Half(w), p);
    } else if Even(w) {
      XorAssociates(Half(v), Half(w), p);
      XorAssociates(Half(v), p, Half(w));
      XorCommutes(Half(w), p);
    } else {
      XorTwice(Half(v), Half(w), p);
    }
  }

  lemma Shift8Xor(v: Word, w: Word)
    ensures Shift8(Xor(v, w)) == Xor(Shift8(v), Shift8(w))
  {
    hide Shift, Xor;
    var v1, w1 := Shift(v), Shift(w);
    var v2, w2 := Shift(v1), Shift(w1);
    var v3, w3 := Shift(v2), Shift(w2);
    var v4, w4 := Shift(v3), Shift(w3);
    var v5, w5 := Shift(v4), Shift(w4);
    var v6, w6 := Shift(v5), Shift(w5);
    ShiftXor(v, w);
    ShiftXor(v1, w1);
    ShiftXor(v2, w2);
    ShiftXor(v3, w3);
    ShiftXor(v4, w4);
    ShiftXor(v5, w5);
    ShiftXor(v6, w6);
    ShiftXor(Shift(v6), Shift(w6));
  }

  // The upper three bytes of a register only move down.
  function Upper(w: Word): Word {
    Word((w.bits >> 8) << 8)
  }

  lemma UpperMoves(w: Word)
    ensures Shift8(Upper(w)) == High(w)
  {
  }

  lemma NotNot(w: Word)
    ensures Not(Not(w)) == w
  {
  }

  lemma SplitRegister(w: Word, b: Word)
    requires b.bits <= 0xFF
    ensures Xor(w, b) == Xor(Xor(b, Low(w)), Upper(w)) && Xor(b, Low(w)).bits <= 0xFF
  {
  }

  // One look into the table is eight bits of the division.
  lemma TableStep(w: Word, b: Word)
    requires b.bits <= 0xFF
    ensures Xor(Table(Xor(b, Low(w))), High(w)) == Shift8(Xor(w, b))
  {
    hide Table, Shift8, Xor, Low, High, Upper;
    SplitRegister(w, b);
    TableIsShift8(Xor(b, Low(w)));
    Shift8Xor(Xor(b, Low(w)), Upper(w));
    UpperMoves(w);
  }
}

module Crc32 {
  import opened Words
  import opened CrcRegister

  // A register as others see it: compared and passed on, but not looked into.
  datatype Sealed<T> = Sealed(value: T)

  type Checksum = Sealed<Word>

  const ZERO_CRC: Checksum := Sealed(Word(0))

  function Octet(b: byte): Word {
    Word((b as bv8) as bv32)
  }

  lemma OctetSmall(b: byte)
    ensures Octet(b).bits <= 0xFF
  {
  }

  // The register's bytes, the lowest one first.
  function CrcByte(crc: Checksum, k: nat): byte {
    var w := crc.value.bits;
    var x := if k == 0 then w else if k == 1 then w >> 8 else if k == 2 then w >> 16 else w >> 24;
    ((x & 0xFF) as bv8) as int
  }

  function CrcBytes(crc: Checksum): (r: seq<byte>)
    ensures |r| == 4
  {
    hide CrcByte;
    [CrcByte(crc, 0), CrcByte(crc, 1), CrcByte(crc, 2), CrcByte(crc, 3)]
  }

  // The register after data.
  function Register(w: Word, data: seq<byte>): Word {
    if data == [] then w else Shift8(Xor(Register(w, data[..|data| - 1]), Octet(data[|data| - 1])))
  }

  // The CRC of data that comes after data with the given CRC.
  function Crc(data: seq<byte>, crc: Checksum): Checksum {
    Sealed(Not(Register(Not(crc.value), data)))
  }

  lemma {:induction false} RegisterSplits(w: Word, a: seq<byte>, b: seq<byte>)
    ensures Register(w, a + b) == Register(Register(w, a), b)
    decreases |b|
  {
    hide Shift8, Xor, Octet;
    if b == [] {
      assert a + b == a;
    } else {
      var n := |b| - 1;
      RegisterSplits(w, a, b[..n]);
      assert (a + b)[..|a + b| - 1] == a + b[..n];
    }
  }

  // The CRC can be taken piece by piece.
  lemma CrcSplits(a: seq<byte>, b: seq<byte>, crc: Checksum)
    ensures Crc(a + b, crc) == Crc(b, Crc(a, crc))
  {
    hide Register, Not;
    RegisterSplits(Not(crc.value), a, b);
    NotNot(Register(Not(crc.value), a));
  }

  lemma CrcNone(crc: Checksum)
    ensures Crc([], crc) == crc
  {
    hide Not;
    NotNot(crc.value);
  }

  /* ---- What the complements at both ends are for ---- */

  // A byte at a time or the whole word at once: the part that has not come in yet only moves
  // down.
  lemma ByteComesIn(w: Word, x: Word)
    ensures Shift8(Xor(w, x)) == Xor(Shift8(Xor(w, Low(x))), High(x))
  {
    hide Shift8, Xor, Low, High, Upper;
    XorParts(w, x);
    Shift8Xor(Xor(w, Low(x)), Upper(x));
    UpperMoves(x);
  }

  lemma XorParts(w: Word, x: Word)
    ensures Xor(w, x) == Xor(Xor(w, Low(x)), Upper(x))
  {
  }

  lemma FourOctets(x: Word)
    ensures Octet(CrcByte(Sealed(x), 0)) == Low(x)
    ensures Octet(CrcByte(Sealed(x), 1)) == Low(High(x))
    ensures Octet(CrcByte(Sealed(x), 2)) == Low(High(High(x)))
    ensures Octet(CrcByte(Sealed(x), 3)) == Low(High(High(High(x))))
    ensures High(High(High(High(x)))) == Word(0)
  {
    FirstOctet(x);
    SecondOctet(x);
    ThirdOctet(x);
    FourthOctet(x);
    Shifts(x.bits);
    hide Octet, CrcByte;
  }

  lemma FirstOctet(x: Word)
    ensures Octet(CrcByte(Sealed(x), 0)) == Word(x.bits & 0xFF)
  {
    OctetBack(x.bits);
  }

  lemma SecondOctet(x: Word)
    ensures Octet(CrcByte(Sealed(x), 1)) == Word((x.bits >> 8) & 0xFF)
  {
    OctetBack(x.bits >> 8);
  }

  lemma ThirdOctet(x: Word)
    ensures Octet(CrcByte(Sealed(x), 2)) == Word((x.bits >> 16) & 0xFF)
  {
    OctetBack(x.bits >> 16);
  }

  lemma FourthOctet(x: Word)
    ensures Octet(CrcByte(Sealed(x), 3)) == Word((x.bits >> 24) & 0xFF)
  {
    OctetBack(x.bits >> 24);
  }

  lemma OctetBack(w: bv32)
    ensures (((((w & 0xFF) as bv8) as int) as bv8) as bv32) == w & 0xFF
  {
  }

  lemma Shifts(w: bv32)
    ensures w >> 16 == (w >> 8) >> 8 && w >> 24 == ((w >> 8) >> 8) >> 8 && (((w >> 8) >> 8) >> 8) >> 8 == 0
  {
  }

  // Four bytes that are the complement of the register leave always the same.
  lemma OwnBytes(w: Word)
    ensures Register(w, CrcBytes(Sealed(Not(w)))) == Word(0xDEBB_20E3)
  {
    var x := Not(w);
    FourOctets(x);
    var s := CrcBytes(Sealed(x));
    hide Shift8, Xor, Low, High, Octet, CrcByte;
    var w1 := Shift8(Xor(w, Low(x)));
    var w2 := Shift8(Xor(w1, Low(High(x))));
    var w3 := Shift8(Xor(w2, Low(High(High(x)))));
    var w4 := Shift8(Xor(w3, Low(High(High(High(x))))));
    FourSteps(w, s, w1, w2, w3, w4);
    ByteComesIn(w, x);
    ByteComesIn(w1, High(x));
    ByteComesIn(w2, High(High(x)));
    ByteComesIn(w3, High(High(High(x))));
    XorEnds(w, w4);
    AllOnes();
  }

  lemma FourSteps(w: Word, s: seq<byte>, w1: Word, w2: Word, w3: Word, w4: Word)
    requires |s| == 4 && w1 == Shift8(Xor(w, Octet(s[0]))) && w2 == Shift8(Xor(w1, Octet(s[1])))
    requires w3 == Shift8(Xor(w2, Octet(s[2]))) && w4 == Shift8(Xor(w3, Octet(s[3])))
    ensures Register(w, s) == w4
  {
    hide Shift8, Xor, Octet;
    RegisterStep(w, s[..1]);
    RegisterStep(w, s[..2]);
    RegisterStep(w, s[..3]);
    RegisterStep(w, s);
    assert s[..1][..0] == [] && s[..2][..1] == s[..1] && s[..3][..2] == s[..2];
  }

  lemma RegisterStep(w: Word, s: seq<byte>)
    requires s != []
    ensures Register(w, s) == Shift8(Xor(Register(w, s[..|s| - 1]), Octet(s[|s| - 1])))
  {
  }

  lemma XorEnds(w: Word, v: Word)
    ensures Xor(w, Not(w)) == Word(0xFFFF_FFFF) && Xor(v, Word(0)) == v
  {
  }

  lemma AllOnes()
    ensures Shift8(Shift8(Shift8(Shift8(Word(0xFFFF_FFFF))))) == Word(0xDEBB_20E3)
  {
    assert Shift8(Word(0xFFFF_FFFF)) == Word(0x2DFD_1072);
    assert Shift8(Word(0x2DFD_1072)) == Word(0xBE26_ED00);
    assert Shift8(Word(0xBE26_ED00)) == Word(0x00BE_26ED);
    assert Shift8(Word(0x00BE_26ED)) == Word(0xDEBB_20E3);
  }

  // Whatever the data, with its own CRC behind it the CRC is the one constant.
  lemma ResidueIsConstant(data: seq<byte>)
    ensures Crc(data + CrcBytes(Crc(data, ZERO_CRC)), ZERO_CRC) == Sealed(Word(0x2144_DF1C))
  {
    hide Register, CrcBytes;
    var w := Register(Not(Word(0)), data);
    RegisterSplits(Not(Word(0)), data, CrcBytes(Sealed(Not(w))));
    OwnBytes(w);
  }

  // The check value that identifies this CRC among others.
  lemma CheckValue()
    ensures Crc([0x31, 0x32, 0x33, 0x34, 0x35, 0x36, 0x37, 0x38, 0x39], ZERO_CRC) == Sealed(Word(0xCBF4_3926))
  {
    var s: seq<byte> := [0x31, 0x32, 0x33, 0x34, 0x35, 0x36, 0x37, 0x38, 0x39];
    assert s == s[..9];
    NineDigits(s, 9);
  }

  const CHECK_REGISTERS := [
    Word(0xFFFF_FFFF), Word(0x7C23_1048), Word(0xB0AC_BB32), Word(0x77B7_9C2D), Word(0x641C_1F5C),
    Word(0x340A_C5E3), Word(0xF68D_2C9E), Word(0xAFFC_9660), Word(0x651F_2550), Word(0x340B_C6D9)]

  lemma {:induction false} NineDigits(s: seq<byte>, n: nat)
    requires |s| == 9 && n <= 9 && (forall i :: 0 <= i < 9 ==> s[i] == 0x31 + i)
    ensures Register(Not(Word(0)), s[..n]) == CHECK_REGISTERS[n]
  {
    if n > 0 {
      NineDigits(s, n - 1);
      assert s[..n][..n - 1] == s[..n - 1];
      DigitStep(n);
      RegisterStep(Not(Word(0)), s[..n]);
    }
  }

  lemma DigitStep(n: nat)
    requires 1 <= n <= 9
    ensures Shift8(Xor(CHECK_REGISTERS[n - 1], Octet(0x30 + n))) == CHECK_REGISTERS[n]
  {
    hide Shift8, Xor, Octet;
    DigitOctet(n);
    DigitXor(n);
    DigitShift(n);
  }

  const CHECK_SUMS := [
    Word(0xFFFF_FFCE), Word(0x7C23_107A), Word(0xB0AC_BB01), Word(0x77B7_9C19), Word(0x641C_1F69),
    Word(0x340A_C5D5), Word(0xF68D_2CA9), Word(0xAFFC_9658), Word(0x651F_2569)]

  lemma DigitOctet(n: nat)
    requires 1 <= n <= 9
    ensures Octet(0x30 + n) == [Word(0x31), Word(0x32), Word(0x33), Word(0x34), Word(0x35), Word(0x36), Word(0x37), Word(0x38), Word(0x39)][n - 1]
  {
    if n == 1 {} else if n == 2 {} else if n == 3 {} else if n == 4 {} else if n == 5 {} else if n == 6 {} else if n == 7 {} else if n == 8 {} else {}
  }

  lemma DigitXor(n: nat)
    requires 1 <= n <= 9
    ensures Xor(CHECK_REGISTERS[n - 1],
                [Word(0x31), Word(0x32), Word(0x33), Word(0x34), Word(0x35), Word(0x36), Word(0x37), Word(0x38), Word(0x39)][n - 1])
            == CHECK_SUMS[n - 1]
  {
    if n == 1 {} else if n == 2 {} else if n == 3 {} else if n == 4 {} else if n == 5 {} else if n == 6 {} else if n == 7 {} else if n == 8 {} else {}
  }

  lemma DigitShift(n: nat)
    requires 1 <= n <= 9
    ensures Shift8(CHECK_SUMS[n - 1]) == CHECK_REGISTERS[n]
  {
    if n == 1 {} else if n == 2 {} else if n == 3 {} else if n == 4 {} else if n == 5 {} else if n == 6 {} else if n == 7 {} else if n == 8 {} else {}
  }

  // The decompressor's loop computes the CRC.
  method XzCrc32(buf: seq<byte>, crc: Checksum) returns (r: Checksum)
    ensures r == Crc(buf, crc)
  {
    hide Table, Shift8, Xor, Octet, Low, High, Not;
    var c := Not(crc.value);
    var i := 0;
    while i < |buf|
      invariant i <= |buf| && c == Register(Not(crc.value), buf[..i])
    {
      OctetSmall(buf[i]);
      TableStep(c, Octet(buf[i]));
      c := Xor(Table(Xor(Octet(buf[i]), Low(c))), High(c));
      assert buf[..i + 1][..i] == buf[..i];
      i := i + 1;
    }
    assert buf[..i] == buf;
    r := Sealed(Not(c));
  }
}
