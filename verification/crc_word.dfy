/** The 64-bit CRC register as a machine word: the bit step and the facts about it that are decided
    by looking at bits (src/core/fce_crc.c). */
module CrcWord {
  /** One bit of the division: shift, and subtract the polynomial on a carry. */
  function Step(c: bv64): bv64 {
    (c >> 1) ^ (if c & 1 == 1 then 0xC96C_5795_D787_0F42 else 0)
  }

  function Xor(a: bv64, b: bv64): bv64 {
    a ^ b
  }

  function FromBits(b0: bool, b1: bool, b2: bool, b3: bool, b4: bool, b5: bool, b6: bool, b7: bool): bv64 {
    (if b0 then 0x01 else 0) | (if b1 then 0x02 else 0) | (if b2 then 0x04 else 0) | (if b3 then 0x08 else 0) |
    (if b4 then 0x10 else 0) | (if b5 then 0x20 else 0) | (if b6 then 0x40 else 0) | (if b7 then 0x80 else 0)
  }

  function Flip(c: bv64): bv64 {
    !c
  }

  /** The polynomial under a branch-free mask: all of it or nothing. */
  function Mask(bit: bv64): bv64 {
    0xC96C_5795_D787_0F42 & (0 - bit)
  }

  lemma {:induction false} MaskedOdd(c: bv64)
    requires c & 1 == 1
    ensures (c >> 1) ^ Mask(c & 1) == Step(c)
  {
  }

  lemma {:induction false} MaskedEven(c: bv64)
    requires c & 1 == 0
    ensures (c >> 1) ^ Mask(c & 1) == Step(c)
  {
  }

  lemma {:induction false} MaskedStep(c: bv64)
    ensures (c >> 1) ^ Mask(c & 1) == Step(c)
  {
    hide Mask, Step;
    LowBit(c);
    if c & 1 == 1 {
      MaskedOdd(c);
    } else {
      MaskedEven(c);
    }
  }

  lemma {:induction false} FlipTwice(x: bv64)
    ensures Flip(Flip(x)) == x
  {
  }

  lemma {:induction false} StepInjective(a: bv64, b: bv64)
    requires Step(a) == Step(b)
    ensures a == b
  {
  }

  lemma {:induction false} LinearOddOdd(a: bv64, b: bv64)
    requires a & 1 == 1 && b & 1 == 1
    ensures Step(a ^ b) == Step(a) ^ Step(b)
  {
  }

  lemma {:induction false} LinearOddEven(a: bv64, b: bv64)
    requires a & 1 == 1 && b & 1 == 0
    ensures Step(a ^ b) == Step(a) ^ Step(b)
  {
  }

  lemma {:induction false} LinearEvenOdd(a: bv64, b: bv64)
    requires a & 1 == 0 && b & 1 == 1
    ensures Step(a ^ b) == Step(a) ^ Step(b)
  {
  }

  lemma {:induction false} LinearEvenEven(a: bv64, b: bv64)
    requires a & 1 == 0 && b & 1 == 0
    ensures Step(a ^ b) == Step(a) ^ Step(b)
  {
  }

  lemma {:induction false} LowBit(a: bv64)
    ensures a & 1 == 0 || a & 1 == 1
  {
  }

  lemma {:induction false} StepLinear(a: bv64, b: bv64)
    ensures Step(a ^ b) == Step(a) ^ Step(b)
  {
    LowBit(a);
    LowBit(b);
    if a & 1 == 1 {
      if b & 1 == 1 { LinearOddOdd(a, b); } else { LinearOddEven(a, b); }
    } else {
      if b & 1 == 1 { LinearEvenOdd(a, b); } else { LinearEvenEven(a, b); }
    }
  }

  lemma {:induction false} Assoc(x: bv64, y: bv64, z: bv64)
    ensures Xor(Xor(x, y), z) == Xor(x, Xor(y, z))
  {
    assert (x ^ y) ^ z == x ^ (y ^ z);
  }

  lemma {:induction false} Exchange(x: bv64, y: bv64, z: bv64)
    ensures Xor(x, Xor(y, z)) == Xor(y, Xor(x, z))
  {
  }

  lemma {:induction false} XorLaws()
    ensures forall x, y :: Xor(x, y) == 0 <==> x == y
    ensures forall x :: Xor(0, x) == x
  {
  }

  function Lift(y: bv64): bv64 {
    y << 8
  }

  /** The bits above the k low bytes. */
  function HighMask(k: nat): bv64 {
    if k == 0 then 0xffff_ffff_ffff_ffff
    else if k == 1 then 0xffff_ffff_ffff_ff00
    else if k == 2 then 0xffff_ffff_ffff_0000
    else if k == 3 then 0xffff_ffff_ff00_0000
    else if k == 4 then 0xffff_ffff_0000_0000
    else if k == 5 then 0xffff_ff00_0000_0000
    else if k == 6 then 0xffff_0000_0000_0000
    else if k == 7 then 0xff00_0000_0000_0000
    else 0
  }

  predicate Masked(x: bv64, m: bv64) {
    x & m == 0
  }

  /** The register is zero above its k low bytes. */
  predicate FitsBytes(x: bv64, k: nat) {
    Masked(x, HighMask(k))
  }

  lemma {:induction false} MaskedXor(x: bv64, y: bv64, m: bv64)
    requires Masked(y, m) && Masked(x ^ y, m)
    ensures Masked(x, m)
  {
  }

  lemma {:induction false} MaskedWithin(y: bv64, m: bv64, t: bv64)
    requires Masked(y, m) && m & t == t
    ensures Masked(y, t)
  {
  }

  lemma {:induction false} MaskedShift(y: bv64, m: bv64)
    requires Masked(y, m)
    ensures Masked(y << 8, m << 8)
  {
  }

  lemma {:induction false} MaskedAll(y: bv64)
    ensures Masked(y, 0xffff_ffff_ffff_ffff) <==> y == 0
  {
  }

  lemma {:induction false} Masks(k: nat)
    requires k <= 7
    ensures HighMask(k) << 8 == HighMask(k + 1)
  {
  }

  lemma {:induction false} TopMask(k: nat)
    requires k <= 7
    ensures HighMask(k) & 0xff00_0000_0000_0000 == 0xff00_0000_0000_0000
  {
  }

  lemma {:induction false} LowMask(k: nat)
    requires 1 <= k
    ensures 0xffff_ffff_ffff_ff00 & HighMask(k) == HighMask(k)
  {
  }

  lemma {:induction false} LiftedByteIsZero(y: bv64)
    requires Masked(y, 0xff00_0000_0000_0000) && Masked(y << 8, 0xffff_ffff_ffff_ff00)
    ensures y == 0 && y << 8 == 0
  {
  }

  /** z is even and w is its half. */
  predicate Halves(z: bv64, w: bv64) {
    z & 1 == 0 && z >> 1 == w
  }

  lemma {:induction false} EvenStep(z: bv64, w: bv64)
    requires Halves(z, w)
    ensures Step(z) == w
  {
  }

  lemma {:induction false} LiftedHalves(y: bv64)
    requires Masked(y, 0xff00_0000_0000_0000)
    ensures Halves(y << 8, y << 7) && Halves(y << 7, y << 6) && Halves(y << 6, y << 5) && Halves(y << 5, y << 4)
    ensures Halves(y << 4, y << 3) && Halves(y << 3, y << 2) && Halves(y << 2, y << 1) && Halves(y << 1, y)
  {
  }

  lemma {:induction false} EvenSteps()
    ensures forall z, w :: Halves(z, w) ==> Step(z) == w
  {
    forall z, w | Halves(z, w) ensures Step(z) == w {
      EvenStep(z, w);
    }
  }

  lemma {:induction false} BitsFit(b0: bool, b1: bool, b2: bool, b3: bool, b4: bool, b5: bool, b6: bool, b7: bool)
    ensures Masked(FromBits(b0, b1, b2, b3, b4, b5, b6, b7), 0xffff_ffff_ffff_ff00)
  {
  }

  lemma {:induction false} BitsReadBack(b0: bool, b1: bool, b2: bool, b3: bool, b4: bool, b5: bool, b6: bool, b7: bool)
    ensures var r := FromBits(b0, b1, b2, b3, b4, b5, b6, b7);
            && b0 == (r & 0x01 != 0) && b1 == (r & 0x02 != 0) && b2 == (r & 0x04 != 0) && b3 == (r & 0x08 != 0)
            && b4 == (r & 0x10 != 0) && b5 == (r & 0x20 != 0) && b6 == (r & 0x40 != 0) && b7 == (r & 0x80 != 0)
  {
  }

  lemma {:induction false} EqualBits(a0: bool, a1: bool, a2: bool, a3: bool, a4: bool, a5: bool, a6: bool, a7: bool,
                                     b0: bool, b1: bool, b2: bool, b3: bool, b4: bool, b5: bool, b6: bool, b7: bool)
    requires FromBits(a0, a1, a2, a3, a4, a5, a6, a7) == FromBits(b0, b1, b2, b3, b4, b5, b6, b7)
    ensures a0 == b0 && a1 == b1 && a2 == b2 && a3 == b3 && a4 == b4 && a5 == b5 && a6 == b6 && a7 == b7
  {
    BitsReadBack(a0, a1, a2, a3, a4, a5, a6, a7);
    BitsReadBack(b0, b1, b2, b3, b4, b5, b6, b7);
  }

  lemma {:induction false} FlipInjective(x: bv64, y: bv64)
    ensures Flip(x) == Flip(y) ==> x == y
  {
  }

  lemma {:induction false} EightBits(c: bv64, d: bv64)
    requires (c & 0x01 != 0) == (d & 0x01 != 0) && (c & 0x02 != 0) == (d & 0x02 != 0)
    requires (c & 0x04 != 0) == (d & 0x04 != 0) && (c & 0x08 != 0) == (d & 0x08 != 0)
    requires (c & 0x10 != 0) == (d & 0x10 != 0) && (c & 0x20 != 0) == (d & 0x20 != 0)
    requires (c & 0x40 != 0) == (d & 0x40 != 0) && (c & 0x80 != 0) == (d & 0x80 != 0)
    ensures c & 0xff == d & 0xff
  {
  }

  predicate SameUnder(c: bv64, d: bv64, m: bv64) {
    c & m == d & m
  }

  lemma {:induction false} SameUnderAll(c: bv64, d: bv64)
    requires SameUnder(c, d, HighMask(0))
    ensures c == d
  {
  }

  lemma {:induction false} NothingUnderZero(c: bv64, d: bv64)
    ensures SameUnder(c, d, HighMask(8))
  {
  }

  lemma {:induction false} ShiftSame(c: bv64, d: bv64, m: bv64)
    requires SameUnder(c, d, m)
    ensures SameUnder(c >> 8, d >> 8, (m >> 8) | 0xff00_0000_0000_0000)
  {
  }

  lemma {:induction false} NextMask(k: nat)
    requires 1 <= k <= 8
    ensures (HighMask(k) >> 8) | 0xff00_0000_0000_0000 == HighMask(k - 1)
  {
  }

  lemma {:induction false} ShiftedMask(c: bv64, d: bv64, k: nat)
    requires 1 <= k <= 8 && SameUnder(c, d, HighMask(k))
    ensures SameUnder(c >> 8, d >> 8, HighMask(k - 1))
  {
    ShiftSame(c, d, HighMask(k));
    NextMask(k);
  }

  lemma {:induction false} JoinByte(c: bv64, d: bv64)
    requires c >> 8 == d >> 8 && c & 0xff == d & 0xff
    ensures c == d
  {
  }
}
