/** Which checksum it is: the check value of the reflected ECMA-182 CRC-64, and its residue (src/core/fce_crc.c). */
module CrcLaws {
  import opened Bytes
  import opened CrcAlgebra
  import opened CrcWord
  import opened Crc
  import Bitpack

  // ---- Evaluating the register ----

  lemma {:induction false} TurnIsEight(c: bv64)
    ensures Turn(c) == Step(Step(Step(Step(Step(Step(Step(Step(c))))))))
  {
    hide Step;
    assert Iterate(Step, c, 2) == Step(Step(c));
    assert Iterate(Step, c, 4) == Step(Step(Step(Step(c))));
    assert Iterate(Step, c, 6) == Step(Step(Step(Step(Step(Step(c))))));
  }

  lemma {:induction false} TurnTo(c: bv64, a: bv64, b: bv64, d: bv64, r: bv64)
    requires Step(Step(c)) == a && Step(Step(a)) == b && Step(Step(b)) == d && Step(Step(d)) == r
    ensures Turn(c) == r
  {
    hide Step;
    TurnIsEight(c);
  }

  // ---- The number in a register ----

  lemma {:induction false} BitsOfByteOf(s: seq<bool>)
    requires |s| == 8
    ensures Bits(ByteOf(s)) == s
  {
    ByteIsNumber(s);
    forall i | 0 <= i < 8 ensures Bits(ByteOf(s))[i] == s[i] {
      BitOfNumber(s, i);
    }
  }

  lemma {:induction false} ByteIsNumber(s: seq<bool>)
    requires |s| == 8
    ensures ByteOf(s) == Bitpack.Number(s)
  {
    NumberOfFour(s[4..]);
    var n := Bitpack.Number(s[4..]);
    assert s[3..][1..] == s[4..] && Bitpack.Number(s[3..]) == (if s[3] then 1 else 0) + 2 * n;
    assert s[2..][1..] == s[3..] && Bitpack.Number(s[2..]) == (if s[2] then 1 else 0) + 2 * Bitpack.Number(s[3..]);
    assert s[1..][1..] == s[2..] && Bitpack.Number(s[1..]) == (if s[1] then 1 else 0) + 2 * Bitpack.Number(s[2..]);
  }

  lemma {:induction false} NumberOfFour(s: seq<bool>)
    requires |s| == 4
    ensures Bitpack.Number(s) == (if s[0] then 1 else 0) + (if s[1] then 2 else 0) + (if s[2] then 4 else 0)
      + (if s[3] then 8 else 0)
  {
    assert s[3..][1..] == [] && Bitpack.Number(s[3..]) == if s[3] then 1 else 0;
    assert s[2..][1..] == s[3..] && Bitpack.Number(s[2..]) == (if s[2] then 1 else 0) + 2 * Bitpack.Number(s[3..]);
    assert s[1..][1..] == s[2..] && Bitpack.Number(s[1..]) == (if s[1] then 1 else 0) + 2 * Bitpack.Number(s[2..]);
  }

  lemma {:induction false} BitOfNumber(s: seq<bool>, i: nat)
    requires i < |s|
    ensures Bit(Bitpack.Number(s), i) == s[i]
  {
    if i > 0 {
      BitOfNumber(s[1..], i - 1);
      assert Bitpack.Number(s) / 2 == Bitpack.Number(s[1..]);
    }
  }

  /** Widening the low byte of a register gives its low eight bits. */
  lemma {:induction false} OfLowByte(c: bv64, b: byte)
    requires LowByte(c) == b
    ensures OfByte(b) == c & 0xff
  {
    BitsOfByteOf(LowBits(c));
    LowWord(c);
  }

  lemma {:induction false} LowWord(c: bv64)
    ensures FromBits(c & 0x01 != 0, c & 0x02 != 0, c & 0x04 != 0, c & 0x08 != 0, c & 0x10 != 0, c & 0x20 != 0,
                     c & 0x40 != 0, c & 0x80 != 0) == c & 0xff
  {
  }

  function Down(c: bv64): bv64 {
    c >> 8
  }

  /** The eight bytes of a register and the number they spell. */
  lemma {:induction false} LowBytesOf(c: bv64, b0: byte, b1: byte, b2: byte, b3: byte, b4: byte, b5: byte, b6: byte,
                                      b7: byte)
    requires LowByte(c) == b0 && LowByte(c >> 8) == b1 && LowByte(c >> 16) == b2 && LowByte(c >> 24) == b3
    requires LowByte(c >> 32) == b4 && LowByte(c >> 40) == b5 && LowByte(c >> 48) == b6 && LowByte(c >> 56) == b7
    ensures ToInt(c) == b0 as nat + 0x100 * (b1 as nat) + 0x1_0000 * (b2 as nat) + 0x100_0000 * (b3 as nat)
      + 0x1_0000_0000 * (b4 as nat) + 0x100_0000_0000 * (b5 as nat) + 0x1_0000_0000_0000 * (b6 as nat)
      + 0x100_0000_0000_0000 * (b7 as nat)
  {
    Shifts(c);
    DigitsEight(c, b0, b1, b2, b3, b4, b5, b6, b7);
    UnLeEight([b0, b1, b2, b3, b4, b5, b6, b7]);
  }

  lemma {:induction false} DigitsEight(c: bv64, b0: byte, b1: byte, b2: byte, b3: byte, b4: byte, b5: byte, b6: byte,
                                       b7: byte)
    requires LowByte(c) == b0 && LowByte(Down(c)) == b1 && LowByte(Down(Down(c))) == b2
    requires LowByte(Down(Down(Down(c)))) == b3
    requires var h := Down(Down(Down(Down(c)))); LowByte(h) == b4 && LowByte(Down(h)) == b5
    requires var h := Down(Down(Down(Down(c)))); LowByte(Down(Down(h))) == b6 && LowByte(Down(Down(Down(h)))) == b7
    ensures Digits(c, 8) == [b0, b1, b2, b3, b4, b5, b6, b7]
  {
    hide LowByte, Digits, Down;
    var h := Down(Down(Down(Down(c))));
    FourDigits(c, b0, b1, b2, b3, 8);
    FourDigits(h, b4, b5, b6, b7, 4);
    NoDigits(Down(Down(Down(Down(h)))));
    assert [b0, b1, b2, b3] + ([b4, b5, b6, b7] + []) == [b0, b1, b2, b3, b4, b5, b6, b7];
  }

  lemma {:induction false} NoDigits(c: bv64)
    ensures Digits(c, 0) == []
  {
  }

  lemma {:induction false} Shifts(c: bv64)
    ensures Down(c) == c >> 8 && Down(Down(c)) == c >> 16 && Down(Down(Down(c))) == c >> 24
    ensures var h := Down(Down(Down(Down(c))));
      h == c >> 32 && Down(h) == c >> 40 && Down(Down(h)) == c >> 48 && Down(Down(Down(h))) == c >> 56
  {
  }

  lemma {:induction false} FourDigits(c: bv64, b0: byte, b1: byte, b2: byte, b3: byte, k: nat)
    requires k >= 4 && LowByte(c) == b0 && LowByte(Down(c)) == b1 && LowByte(Down(Down(c))) == b2
    requires LowByte(Down(Down(Down(c)))) == b3
    ensures Digits(c, k) == [b0, b1, b2, b3] + Digits(Down(Down(Down(Down(c)))), k - 4)
  {
    hide LowByte, Digits, Down;
    FirstDigit(c, k);
    FirstDigit(Down(c), k - 1);
    FirstDigit(Down(Down(c)), k - 2);
    FirstDigit(Down(Down(Down(c))), k - 3);
  }

  lemma {:induction false} FirstDigit(c: bv64, k: nat)
    requires k > 0
    ensures Digits(c, k) == [LowByte(c)] + Digits(Down(c), k - 1)
  {
  }

  // ---- The check value ----

  /** The ASCII digits 1 to 9. */
  const CHECK_INPUT: Bytes := [0x31, 0x32, 0x33, 0x34, 0x35, 0x36, 0x37, 0x38, 0x39]

  lemma {:induction false} FeedOne(c: bv64, b: byte, w: bv64, x: bv64, r: bv64)
    requires OfByte(b) == w && c ^ w == x && Turn(x) == r
    ensures ByteStep(c, b) == r
  {
  }

  lemma {:induction false} CheckTurns1()
    ensures Turn(0xFFFF_FFFF_FFFF_FFCE) == 0xD5D0_F17A_6B6A_3512
    ensures Turn(0xD5D0_F17A_6B6A_3520) == 0xFBE2_9281_D80D_A6A7
    ensures Turn(0xFBE2_9281_D80D_A694) == 0xCFDC_D7BB_F8E3_3A9E
  {
    TurnTo(0xFFFF_FFFF_FFFF_FFCE, 0xF693_A86A_2878_F0B1, 0x5912_C1D0_61DD_BB8D,
           0x72F2_9BBE_F3B4_E942, 0xD5D0_F17A_6B6A_3512);
    TurnTo(0xD5D0_F17A_6B6A_3520, 0x3574_3C5E_9ADA_8D48, 0x0D5D_0F17_A6B6_A352,
           0xCA3B_1450_3E2A_A796, 0xFBE2_9281_D80D_A6A7);
    TurnTo(0xFBE2_9281_D80D_A694, 0x3EF8_A4A0_7603_69A5, 0x6B08_02E2_F643_5DC8,
           0x1AC2_00B8_BD90_D772, 0xCFDC_D7BB_F8E3_3A9E);
  }

  lemma {:induction false} CheckTurns2()
    ensures Turn(0xCFDC_D7BB_F8E3_3AAA) == 0x31B1_786C_9947_3CD7
    ensures Turn(0x31B1_786C_9947_3CE2) == 0xA258_B900_5AFB_A316
    ensures Turn(0xA258_B900_5AFB_A320) == 0xFB95_1AC9_A23C_3731
  {
    TurnTo(0xCFDC_D7BB_F8E3_3AAA, 0xFA9B_627B_29BF_C1E8, 0x3EA6_D89E_CA6F_F07A,
           0xC6C5_E1B2_651C_F35C, 0x31B1_786C_9947_3CD7);
    TurnTo(0x31B1_786C_9947_3CE2, 0xC500_098E_F1D6_C07A, 0xF82C_55F6_6BF2_BF5C,
           0x3E0B_157D_9AFC_AFD7, 0xA258_B900_5AFB_A316);
    TurnTo(0xA258_B900_5AFB_A320, 0x2896_2E40_16BE_E8C8, 0x0A25_8B90_05AF_BA32,
           0xCBE5_3571_D6EC_E1CE, 0xFB95_1AC9_A23C_3731);
  }

  lemma {:induction false} CheckTurns3()
    ensures Turn(0xFB95_1AC9_A23C_3706) == 0x8FAF_60C9_9E6D_C25F
    ensures Turn(0x8FAF_60C9_9E6D_C267) == 0xA374_7FB7_D453_87F6
    ensures Turn(0xA374_7FB7_D453_87CF) == 0x66A2_3644_20E6_C605
  {
    TurnTo(0xFB95_1AC9_A23C_3706, 0xF789_1127_BF08_0283, 0x9038_3816_D386_8843,
           0x89D4_725A_88A5_2AF3, 0x8FAF_60C9_9E6D_C25F);
    TurnTo(0x8FAF_60C9_9E6D_C267, 0x8E31_A46D_5BDF_F87A, 0xEAE0_3E8E_8170_F15C,
           0x3AB8_0FA3_A05C_3C57, 0xA374_7FB7_D453_87F6);
    TurnTo(0xA374_7FB7_D453_87CF, 0x8507_63B2_C950_6910, 0x2141_D8EC_B254_1A44,
           0x0850_763B_2C95_0691, 0x66A2_3644_20E6_C605);
  }

  lemma {:induction false} CheckBytes()
    ensures OfByte(0x31) == 0x31
    ensures OfByte(0x32) == 0x32
    ensures OfByte(0x33) == 0x33
    ensures OfByte(0x34) == 0x34
    ensures OfByte(0x35) == 0x35
    ensures OfByte(0x36) == 0x36
    ensures OfByte(0x37) == 0x37
    ensures OfByte(0x38) == 0x38
    ensures OfByte(0x39) == 0x39
  {
    OfLowByte(0x31, 0x31);
    OfLowByte(0x32, 0x32);
    OfLowByte(0x33, 0x33);
    OfLowByte(0x34, 0x34);
    OfLowByte(0x35, 0x35);
    OfLowByte(0x36, 0x36);
    OfLowByte(0x37, 0x37);
    OfLowByte(0x38, 0x38);
    OfLowByte(0x39, 0x39);
  }

  /** The register after the nine digits. */
  lemma {:induction false} CheckRegister()
    ensures FileCrc(CHECK_INPUT) == 0x995D_C9BB_DF19_39FA
  {
    hide Turn, OfByte, ByteStep;
    CheckBytes();
    CheckTurns1();
    CheckTurns2();
    CheckTurns3();
    FeedOne(0xFFFF_FFFF_FFFF_FFFF, 0x31, 0x31, 0xFFFF_FFFF_FFFF_FFCE, 0xD5D0_F17A_6B6A_3512);
    FeedOne(0xD5D0_F17A_6B6A_3512, 0x32, 0x32, 0xD5D0_F17A_6B6A_3520, 0xFBE2_9281_D80D_A6A7);
    FeedOne(0xFBE2_9281_D80D_A6A7, 0x33, 0x33, 0xFBE2_9281_D80D_A694, 0xCFDC_D7BB_F8E3_3A9E);
    FeedOne(0xCFDC_D7BB_F8E3_3A9E, 0x34, 0x34, 0xCFDC_D7BB_F8E3_3AAA, 0x31B1_786C_9947_3CD7);
    FeedOne(0x31B1_786C_9947_3CD7, 0x35, 0x35, 0x31B1_786C_9947_3CE2, 0xA258_B900_5AFB_A316);
    FeedOne(0xA258_B900_5AFB_A316, 0x36, 0x36, 0xA258_B900_5AFB_A320, 0xFB95_1AC9_A23C_3731);
    FeedOne(0xFB95_1AC9_A23C_3731, 0x37, 0x37, 0xFB95_1AC9_A23C_3706, 0x8FAF_60C9_9E6D_C25F);
    FeedOne(0x8FAF_60C9_9E6D_C25F, 0x38, 0x38, 0x8FAF_60C9_9E6D_C267, 0xA374_7FB7_D453_87F6);
    FeedOne(0xA374_7FB7_D453_87F6, 0x39, 0x39, 0xA374_7FB7_D453_87CF, 0x66A2_3644_20E6_C605);
    FoldNine(ByteStep, Flip(0), CHECK_INPUT);
  }

  lemma {:induction false} FoldNine<R>(f: (R, byte) -> R, r: R, d: Bytes)
    requires |d| == 9
    ensures Fold(f, r, d) == f(f(f(f(f(f(f(f(f(r, d[0]), d[1]), d[2]), d[3]), d[4]), d[5]), d[6]), d[7]), d[8])
  {
    var r3 := f(f(f(r, d[0]), d[1]), d[2]);
    var r6 := f(f(f(r3, d[3]), d[4]), d[5]);
    FoldThree(f, r, d, 0);
    FoldThree(f, r3, d, 3);
    FoldThree(f, r6, d, 6);
    FoldFrom(f, r, d);
    FoldFrom(f, f(f(f(r6, d[6]), d[7]), d[8]), d);
  }

  lemma {:induction false} FoldThree<R>(f: (R, byte) -> R, r: R, d: Bytes, i: nat)
    requires i + 3 <= |d|
    ensures Fold(f, r, d[i..]) == Fold(f, f(f(f(r, d[i]), d[i + 1]), d[i + 2]), d[i + 3..])
  {
    FoldNext(f, r, d, i);
    FoldNext(f, f(r, d[i]), d, i + 1);
    FoldNext(f, f(f(r, d[i]), d[i + 1]), d, i + 2);
  }

  /** The check value of this CRC: the digits 1 to 9 have the checksum 0x995DC9BBDF1939FA. */
  lemma {:induction false} CheckValue()
    ensures Crc64(CHECK_INPUT) == 0x995D_C9BB_DF19_39FA
  {
    hide FileCrc;
    CheckRegister();
    LowBytesOf(0x995D_C9BB_DF19_39FA, 0xFA, 0x39, 0x19, 0xDF, 0xBB, 0xC9, 0x5D, 0x99);
  }

  // ---- The residue ----

  /** The register without its k low bytes. */
  ghost function Drop(v: bv64, k: nat): bv64
    decreases k
  {
    if k == 0 then v else Drop(Down(v), k - 1)
  }

  lemma {:induction false} SplitLow(r: bv64, v: bv64)
    ensures Xor(r, v) == Xor(Xor(r, v & 0xff), Lift(v >> 8)) && Masked(v >> 8, 0xff00_0000_0000_0000)
  {
  }

  lemma {:induction false} XorBack(a: bv64, b: bv64)
    ensures Xor(Xor(a, b), b) == a
  {
  }

  /** Feeding the low byte of v. */
  lemma {:induction false} FeedLow(r: bv64, v: bv64)
    ensures Xor(ByteStep(r, LowByte(v)), v >> 8) == Turn(Xor(r, v))
  {
    hide Turn, OfByte, LowByte, Xor, Lift, Masked;
    OfLowByte(v, LowByte(v));
    SplitLow(r, v);
    TurnLinear(Xor(r, v & 0xff), Lift(v >> 8));
    TurnUndoesLift(v >> 8);
  }

  lemma {:induction false} IterateInside<R>(f: R -> R, x: R, k: nat)
    requires k > 0
    ensures Iterate(f, x, k) == Iterate(f, f(x), k - 1)
  {
    if k > 1 {
      IterateInside(f, x, k - 1);
    }
  }

  /** Feeding the low bytes of v one by one is turning r ^ v as often. */
  lemma {:induction false} FeedDigits(r: bv64, v: bv64, k: nat)
    ensures Xor(Fold(ByteStep, r, Digits(v, k)), Drop(v, k)) == Iterate(Turn, Xor(r, v), k)
    decreases k
  {
    hide Turn, LowByte, ByteStep, Xor;
    if k > 0 {
      var next := ByteStep(r, LowByte(v));
      FeedLow(r, v);
      FeedDigits(next, v >> 8, k - 1);
      IterateInside(Turn, Xor(r, v), k);
      assert Digits(v, k)[0] == LowByte(v) && Digits(v, k)[1..] == Digits(v >> 8, k - 1);
    }
  }

  lemma {:induction false} DropAll(v: bv64)
    ensures Drop(v, 8) == 0
  {
    hide Down;
    DropFour(v, 8);
    DropFour(Down(Down(Down(Down(v)))), 4);
    NothingLeft(v);
  }

  lemma {:induction false} DropFour(v: bv64, k: nat)
    requires k >= 4
    ensures Drop(v, k) == Drop(Down(Down(Down(Down(v)))), k - 4)
  {
    hide Drop, Down;
    DropOne(v, k);
    DropOne(Down(v), k - 1);
    DropOne(Down(Down(v)), k - 2);
    DropOne(Down(Down(Down(v))), k - 3);
  }

  lemma {:induction false} DropOne(v: bv64, k: nat)
    requires k > 0
    ensures Drop(v, k) == Drop(Down(v), k - 1)
  {
  }

  lemma {:induction false} NothingLeft(v: bv64)
    ensures Down(Down(Down(Down(Down(Down(Down(Down(v)))))))) == 0
  {
  }

  lemma {:induction false} TurnsOfOnes1()
    ensures Turn(0xFFFF_FFFF_FFFF_FFFF) == 0xE052_5E8C_9B98_C0A6
    ensures Turn(0xE052_5E8C_9B98_C0A6) == 0xBDEF_B268_AEB5_A578
    ensures Turn(0xBDEF_B268_AEB5_A578) == 0x1506_A039_8F26_24B9
    ensures Turn(0x1506_A039_8F26_24B9) == 0x0B5A_79CA_E1E4_60B4
  {
    TurnTo(0xFFFF_FFFF_FFFF_FFFF, 0x9225_83A0_C3BB_771C, 0x2489_60E8_30EE_DDC7,
           0xA4F8_2465_307F_3F92, 0xE052_5E8C_9B98_C0A6);
    TurnTo(0xE052_5E8C_9B98_C0A6, 0xF178_C036_F161_3F6B, 0x9184_4C52_801C_C739,
           0x40D7_38DE_4BC4_B66F, 0xBDEF_B268_AEB5_A578);
    TurnTo(0xBDEF_B268_AEB5_A578, 0x2F7B_EC9A_2BAD_695E, 0xC2B2_ACB3_5D6C_5515,
           0x541A_80E6_3C98_92E4, 0x1506_A039_8F26_24B9);
    TurnTo(0x1506_A039_8F26_24B9, 0x61F7_83C4_880A_0E8F, 0xB5A7_9CAE_1E46_0B40,
           0x2D69_E72B_8791_82D0, 0x0B5A_79CA_E1E4_60B4);
  }

  lemma {:induction false} TurnsOfOnes2()
    ensures Turn(0x0B5A_79CA_E1E4_60B4) == 0x341B_2D20_11BC_1FCA
    ensures Turn(0x341B_2D20_11BC_1FCA) == 0xAECB_D62C_4B0B_28C1
    ensures Turn(0xAECB_D62C_4B0B_28C1) == 0x1E5A_FB37_13A8_DCA4
    ensures Turn(0x1E5A_FB37_13A8_DCA4) == 0x4995_8C9A_BD7D_353F
  {
    TurnTo(0x0B5A_79CA_E1E4_60B4, 0x02D6_9E72_B879_182D, 0x6403_8C56_45DD_C1AA,
           0xD06C_B480_46F0_7F28, 0x341B_2D20_11BC_1FCA);
    TurnTo(0x341B_2D20_11BC_1FCA, 0xC46A_9CDD_D3E8_08B0, 0x311A_A737_74FA_022C,
           0x0C46_A9CD_DD3E_808B, 0xAECB_D62C_4B0B_28C1);
    TurnTo(0xAECB_D62C_4B0B_28C1, 0x4F04_DE41_F901_4D91, 0x7777_1C5A_9583_D4C5,
           0x796B_ECDC_4EA3_7290, 0x1E5A_FB37_13A8_DCA4);
    TurnTo(0x1E5A_FB37_13A8_DCA4, 0x0796_BECD_C4EA_3729, 0x6553_8479_9AF9_0A6B,
           0xB48E_9D41_5AFA_CA79, 0x4995_8C9A_BD7D_353F);
  }

  /** A register of ones after 64 steps. */
  lemma {:induction false} OnesTurned()
    ensures Iterate(Turn, 0xFFFF_FFFF_FFFF_FFFF, 8) == 0x4995_8C9A_BD7D_353F
  {
    hide Turn;
    TurnsOfOnes1();
    TurnsOfOnes2();
    assert Iterate(Turn, 0xFFFF_FFFF_FFFF_FFFF, 2) == 0xBDEF_B268_AEB5_A578;
    assert Iterate(Turn, 0xFFFF_FFFF_FFFF_FFFF, 4) == 0x0B5A_79CA_E1E4_60B4;
    assert Iterate(Turn, 0xFFFF_FFFF_FFFF_FFFF, 6) == 0xAECB_D62C_4B0B_28C1;
  }

  lemma {:induction false} FlipSides(r: bv64)
    ensures Xor(r, Flip(r)) == 0xFFFF_FFFF_FFFF_FFFF && Xor(r, 0) == r
  {
  }

  /** For every file: with its checksum appended, least significant byte first, it has one checksum, the residue. */
  lemma {:induction false} Residue(file: Bytes)
    ensures Crc64(file + Le(Crc64(file), 8)) == 0xB66A_7365_4282_CAC0
  {
    hide Turn, ByteStep, Flip, Xor, LowByte;
    var r := Fold(ByteStep, Flip(0), file);
    var v := FileCrc(file);
    var stored := Digits(v, 8);
    UnLeRoundTrip(stored);
    FoldConcat(ByteStep, Flip(0), file, stored);
    FeedDigits(r, v, 8);
    DropAll(v);
    FlipSides(r);
    FlipSides(Fold(ByteStep, r, stored));
    OnesTurned();
    FlipOf();
    ResidueNumber();
  }

  lemma {:induction false} FlipOf()
    ensures Flip(0x4995_8C9A_BD7D_353F) == 0xB66A_7365_4282_CAC0
  {
  }

  lemma {:induction false} ResidueNumber()
    ensures ToInt(0xB66A_7365_4282_CAC0) == 0xB66A_7365_4282_CAC0
  {
    LowBytesOf(0xB66A_7365_4282_CAC0, 0xC0, 0xCA, 0x82, 0x42, 0x65, 0x73, 0x6A, 0xB6);
  }
}
