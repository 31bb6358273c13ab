/** CRC-64 with the reflected ECMA-182 polynomial: src/core/fce_crc.c. */
module Crc {
  import opened Bytes
  import opened CrcAlgebra
  import opened CrcWord

  function Bits(b: byte): seq<bool> {
    seq(8, (i: nat) => Bit(b, i))
  }

  function Word(s: seq<bool>): bv64
    requires |s| == 8
  {
    FromBits(s[0], s[1], s[2], s[3], s[4], s[5], s[6], s[7])
  }

  /** A byte widened to the register. */
  function OfByte(b: byte): bv64 {
    Word(Bits(b))
  }

  function Turn(c: bv64): bv64 {
    Iterate(Step, c, 8)
  }

  /** One byte: fold it into the low end, then eight bit steps. */
  function ByteStep(c: bv64, b: byte): bv64 {
    Turn(Xor(c, OfByte(b)))
  }

  /** crc64_update: complement, feed, complement. */
  function CrcUpdate(crc: bv64, data: Bytes): bv64 {
    Flip(Fold(ByteStep, Flip(crc), data))
  }

  function FileCrc(data: Bytes): bv64 {
    CrcUpdate(0, data)
  }

  method Crc64Update(crc0: bv64, data: Bytes) returns (r: bv64)
    ensures r == CrcUpdate(crc0, data)
  {
    hide Fold, ByteStep, Flip;
    var crc := Flip(crc0);
    FoldFrom(ByteStep, crc, data);
    for i := 0 to |data|
      invariant Fold(ByteStep, Flip(crc0), data) == Fold(ByteStep, crc, data[i..])
    {
      FoldNext(ByteStep, crc, data, i);
      crc := UpdateByte(crc, data[i]);
    }
    FoldFrom(ByteStep, crc, data);
    return Flip(crc);
  }

  /** The inner loop over the bits of one byte, with the branch-free mask. */
  method UpdateByte(crc0: bv64, x: byte) returns (crc: bv64)
    ensures crc == ByteStep(crc0, x)
  {
    crc := Xor(crc0, OfByte(x));
    ghost var start := crc;
    for b := 0 to 8
      invariant crc == Iterate(Step, start, b)
    {
      MaskedStep(crc);
      crc := (crc >> 1) ^ Mask(crc & 1);
    }
  }

  // ---- Chunks compose ----

  /** Chaining the update over pieces is one pass over their concatenation. */
  lemma {:induction false} CrcConcat(crc: bv64, a: Bytes, b: Bytes)
    ensures CrcUpdate(CrcUpdate(crc, a), b) == CrcUpdate(crc, a + b)
  {
    FoldConcat(ByteStep, Flip(crc), a, b);
    FlipTwice(Fold(ByteStep, Flip(crc), a));
  }

  lemma {:induction false} CrcOfNothing(crc: bv64, none: Bytes)
    requires none == []
    ensures CrcUpdate(crc, none) == crc
  {
    FlipTwice(crc);
  }

  const BUFFER := 8192

  /** A prefix of the file fed into the register, and one more chunk. */
  lemma {:induction false} NextChunk(crc: bv64, before: Bytes, chunk: Bytes, after: Bytes)
    requires crc == FileCrc(before) && before + chunk == after
    ensures CrcUpdate(crc, chunk) == FileCrc(after)
  {
    CrcConcat(0, before, chunk);
  }

  /** crc64_file: fread a buffer at a time. */
  method Crc64File(file: Bytes) returns (crc: bv64)
    ensures crc == FileCrc(file)
  {
    ghost var done := file[..0];
    var pos := 0;
    crc := 0;
    CrcOfNothing(crc, done);
    while pos < |file|
      invariant 0 <= pos <= |file| && done == file[..pos]
      invariant crc == FileCrc(done)
    {
      crc, done, pos := NextCrc(crc, file, pos, done);
    }
    assert done == file;
  }

  method NextCrc(crc0: bv64, file: Bytes, pos0: nat, ghost before: Bytes)
    returns (crc: bv64, ghost after: Bytes, pos: nat)
    requires pos0 < |file| && before == file[..pos0] && crc0 == FileCrc(before)
    ensures pos0 < pos <= |file| && after == file[..pos] && crc == FileCrc(after)
  {
    pos := if |file| - pos0 < BUFFER then |file| else pos0 + BUFFER;
    Cut(file, pos0, pos);
    after := file[..pos];
    crc := FeedChunk(crc0, file[pos0..pos], before, after);
  }

  lemma {:induction false} Cut(file: Bytes, pos: nat, next: nat)
    requires pos <= next <= |file|
    ensures file[..pos] + file[pos..next] == file[..next]
  {
  }

  method FeedChunk(crc0: bv64, chunk: Bytes, ghost before: Bytes, ghost after: Bytes) returns (crc: bv64)
    requires crc0 == FileCrc(before) && before + chunk == after
    ensures crc == FileCrc(after)
  {
    crc := Crc64Update(crc0, chunk);
    NextChunk(crc0, before, chunk, after);
  }

  // ---- The laws of the 64-bit register ----

  lemma {:induction false} TurnLinear(x: bv64, y: bv64)
    ensures Turn(Xor(x, y)) == Xor(Turn(x), Turn(y))
  {
    forall x, y ensures Step(Xor(x, y)) == Xor(Step(x), Step(y)) {
      StepLinear(x, y);
    }
    IterateLinear(Step, Xor, x, y, 8);
  }

  lemma {:induction false} TurnInjective(x: bv64, y: bv64)
    requires Turn(x) == Turn(y)
    ensures x == y
  {
    forall x, y | Step(x) == Step(y) ensures x == y {
      StepInjective(x, y);
    }
    IterateInjective(Step, x, y, 8);
  }

  // ---- Sizes ----

  /** Eight steps that all drop an even bit are eight halvings. */
  lemma {:induction false} EvenChain<R(!new)>(step: R -> R, halves: (R, R) -> bool,
                                              a: R, b: R, c: R, d: R, e: R, p: R, q: R, r: R, s: R)
    requires forall z, w :: halves(z, w) ==> step(z) == w
    requires halves(a, b) && halves(b, c) && halves(c, d) && halves(d, e)
    requires halves(e, p) && halves(p, q) && halves(q, r) && halves(r, s)
    ensures Iterate(step, a, 8) == s
  {
    assert Iterate(step, a, 2) == c;
    assert Iterate(step, a, 4) == e;
    assert Iterate(step, a, 6) == q;
  }

  lemma {:induction false} StepsUndoLift(y: bv64, k: nat)
    requires Masked(y, 0xff00_0000_0000_0000) && k == 8
    ensures Iterate(Step, y << 8, k) == y
  {
    LiftedHalves(y);
    EvenSteps();
    EvenChain(Step, Halves, y << 8, y << 7, y << 6, y << 5, y << 4, y << 3, y << 2, y << 1, y);
  }

  /** Eight steps undo a lift: no carry ever falls out. */
  lemma {:induction false} TurnUndoesLift(y: bv64)
    requires Masked(y, 0xff00_0000_0000_0000)
    ensures Turn(Lift(y)) == y
  {
    StepsUndoLift(y, 8);
  }

  lemma {:induction false} LiftKeepsSize(y: bv64, k: nat)
    requires k <= 7 && FitsBytes(y, k)
    ensures Turn(Lift(y)) == y && FitsBytes(Lift(y), k + 1)
    ensures FitsBytes(Lift(y), 1) ==> y == 0 && Lift(y) == 0
  {
    TopMask(k);
    MaskedWithin(y, HighMask(k), 0xff00_0000_0000_0000);
    TurnUndoesLift(y);
    MaskedShift(y, HighMask(k));
    Masks(k);
    if Masked(y << 8, 0xffff_ffff_ffff_ff00) {
      LiftedByteIsZero(y);
    }
  }

  lemma {:induction false} SameBits(a: nat, b: nat, i: nat)
    requires Shr(a, i) == Shr(b, i)
    requires forall j :: 0 <= j < i ==> Bit(a, j) == Bit(b, j)
    ensures a == b
  {
    if i > 0 {
      ShrNext(a, i - 1);
      ShrNext(b, i - 1);
      assert Bit(a, i - 1) == Bit(b, i - 1);
      SameBits(a, b, i - 1);
    }
  }

  lemma {:induction false} NothingAbove(b: byte)
    ensures Shr(b, 8) == 0
  {
    var i, most := 0, 255;
    while i < 8
      invariant 0 <= i <= 8 && Shr(b, i) <= most
      invariant most == [255, 127, 63, 31, 15, 7, 3, 1, 0][i]
    {
      ShrNext(b, i);
      i, most := i + 1, most / 2;
    }
  }

  lemma {:induction false} SameEight(s: seq<bool>, t: seq<bool>)
    requires |s| == |t| == 8
    requires s[0] == t[0] && s[1] == t[1] && s[2] == t[2] && s[3] == t[3] && s[4] == t[4] && s[5] == t[5]
      && s[6] == t[6] && s[7] == t[7]
    ensures s == t
  {
  }

  lemma {:induction false} WordInjective(s: seq<bool>, t: seq<bool>)
    requires |s| == |t| == 8 && Word(s) == Word(t)
    ensures s == t
  {
    EqualBits(s[0], s[1], s[2], s[3], s[4], s[5], s[6], s[7], t[0], t[1], t[2], t[3], t[4], t[5], t[6], t[7]);
    SameEight(s, t);
  }

  lemma {:induction false} BitsInjective(a: byte, b: byte)
    requires Bits(a) == Bits(b)
    ensures a == b
  {
    NothingAbove(a);
    NothingAbove(b);
    forall j | 0 <= j < 8 ensures Bit(a, j) == Bit(b, j) {
      assert Bits(a)[j] == Bits(b)[j];
    }
    SameBits(a, b, 8);
  }

  lemma {:induction false} ByteInjective(a: byte, b: byte)
    requires OfByte(a) == OfByte(b)
    ensures a == b
  {
    WordInjective(Bits(a), Bits(b));
    BitsInjective(a, b);
  }

  lemma {:induction false} DeltaFits(a: byte, b: byte, k: nat)
    requires 1 <= k
    ensures FitsBytes(Xor(OfByte(a), OfByte(b)), k)
  {
    WordFits(Bits(a));
    WordFits(Bits(b));
    MaskedXor(Xor(OfByte(a), OfByte(b)), OfByte(b), 0xffff_ffff_ffff_ff00);
    LowMask(k);
    MaskedWithin(Xor(OfByte(a), OfByte(b)), 0xffff_ffff_ffff_ff00, HighMask(k));
  }

  lemma {:induction false} WordFits(s: seq<bool>)
    requires |s| == 8
    ensures Masked(Word(s), 0xffff_ffff_ffff_ff00)
  {
    BitsFit(s[0], s[1], s[2], s[3], s[4], s[5], s[6], s[7]);
  }

  // ---- Bursts ----

  function Register(): Algebra<bv64> {
    Algebra(0, Xor, OfByte, Turn, Lift, FitsBytes)
  }

  lemma {:induction false} XorAssociates()
    ensures forall x, y, z :: Xor(Xor(x, y), z) == Xor(x, Xor(y, z))
  {
    forall x, y, z ensures Xor(Xor(x, y), z) == Xor(x, Xor(y, z)) {
      Assoc(x, y, z);
    }
  }

  lemma {:induction false} XorExchanges()
    ensures forall x, y, z :: Xor(x, Xor(y, z)) == Xor(y, Xor(x, z))
  {
    forall x, y, z ensures Xor(x, Xor(y, z)) == Xor(y, Xor(x, z)) {
      Exchange(x, y, z);
    }
  }

  lemma {:induction false} TurnIsLinear()
    ensures Linear(Turn, Xor)
  {
    forall x, y ensures Turn(Xor(x, y)) == Xor(Turn(x), Turn(y)) {
      TurnLinear(x, y);
    }
  }

  lemma {:induction false} RegisterIsLawful()
    ensures Lawful(Register())
  {
    var g := Register();
    XorLaws();
    forall x, y | g.turn(x) == g.turn(y) ensures x == y {
      TurnInjective(x, y);
    }
    forall a, b | g.ofByte(a) == g.ofByte(b) ensures a == b {
      ByteInjective(a, b);
    }
    forall r, q, a, b ensures DiffLaw(g, r, q, a, b) {
      XorAssociates();
      XorExchanges();
      TurnIsLinear();
      DifferenceStep(g, r, q, a, b);
    }
  }

  lemma {:induction false} RegisterIsSized()
    ensures Sized(Register())
  {
    var g := Register();
    forall x ensures g.fits(x, 0) <==> x == g.zero {
      MaskedAll(x);
    }
    forall a, b, k: nat | 1 <= k ensures g.fits(g.Delta(a, b), k) {
      DeltaFits(a, b, k);
    }
    forall x, y, k: nat ensures XorLaw(g, x, y, k) {
      if FitsBytes(y, k) && FitsBytes(Xor(x, y), k) {
        MaskedXor(x, y, HighMask(k));
      }
    }
    forall y, k: nat ensures LiftLaw(g, y, k) {
      if k <= 7 && FitsBytes(y, k) {
        LiftKeepsSize(y, k);
      }
    }
  }

  /** Any change confined to at most eight consecutive bytes changes the CRC of the file. */
  lemma {:induction false} BurstChangesCrc(p: Bytes, a: Bytes, b: Bytes, s: Bytes)
    requires |a| == |b| <= 8 && a != b
    ensures FileCrc(p + a + s) != FileCrc(p + b + s)
  {
    RegisterIsLawful();
    RegisterIsSized();
    BurstChangesFold(Register(), ByteStep, Flip(0), p, a, b, s);
    FlipInjective(Fold(ByteStep, Flip(0), p + a + s), Fold(ByteStep, Flip(0), p + b + s));
  }

  // ---- The checksum as the integer that the files store ----

  function LowBits(c: bv64): (s: seq<bool>)
    ensures |s| == 8
  {
    [c & 0x01 != 0, c & 0x02 != 0, c & 0x04 != 0, c & 0x08 != 0, c & 0x10 != 0, c & 0x20 != 0, c & 0x40 != 0,
      c & 0x80 != 0]
  }

  /** The number that eight bits spell, least significant first. */
  function ByteOf(s: seq<bool>): byte
    requires |s| == 8
  {
    (if s[0] then 1 else 0) + (if s[1] then 2 else 0) + (if s[2] then 4 else 0) + (if s[3] then 8 else 0) +
    (if s[4] then 16 else 0) + (if s[5] then 32 else 0) + (if s[6] then 64 else 0) + (if s[7] then 128 else 0)
  }

  /** The low byte of a register. */
  function LowByte(c: bv64): byte {
    ByteOf(LowBits(c))
  }

  /** The register byte by byte, least significant first. */
  function Digits(c: bv64, k: nat): (b: Bytes)
    ensures |b| == k
    decreases k, c
  {
    if k == 0 then [] else [LowByte(c)] + Digits(c >> 8, k - 1)
  }

  function ToInt(c: bv64): u64 {
    Pow256Values();
    UnLe(Digits(c, 8))
  }

  /** crc64_file as a number. */
  function Crc64(data: Bytes): u64 {
    ToInt(FileCrc(data))
  }

  lemma {:induction false} ByteOfInjective(s: seq<bool>, t: seq<bool>)
    requires |s| == |t| == 8 && ByteOf(s) == ByteOf(t)
    ensures s == t
  {
    SameEight(s, t);
  }

  lemma {:induction false} LowBitsInjective(c: bv64, d: bv64, s: seq<bool>)
    requires LowBits(c) == s && LowBits(d) == s
    ensures c & 0xff == d & 0xff
  {
    EightBits(c, d);
  }

  lemma {:induction false} LowByteInjective(c: bv64, d: bv64)
    requires LowByte(c) == LowByte(d)
    ensures c & 0xff == d & 0xff
  {
    ByteOfInjective(LowBits(c), LowBits(d));
    LowBitsInjective(c, d, LowBits(c));
  }

  lemma {:induction false} DigitsNext(c: bv64, k: nat)
    requires k > 0
    ensures Digits(c, k)[0] == LowByte(c) && Digits(c, k)[1..] == Digits(c >> 8, k - 1)
  {
  }

  lemma {:induction false} JoinLowByte(c: bv64, d: bv64)
    requires c >> 8 == d >> 8 && LowByte(c) == LowByte(d)
    ensures c == d
  {
    LowByteInjective(c, d);
    JoinByte(c, d);
  }

  /** Equal digits and equal bits above them make equal registers. */
  lemma {:induction false} DigitsInjective(c: bv64, d: bv64, k: nat, s: Bytes)
    requires k <= 8 && Digits(c, k) == s && Digits(d, k) == s && SameUnder(c, d, HighMask(k))
    ensures c == d
    decreases k
  {
    hide HighMask, SameUnder;
    if k == 0 {
      SameUnderAll(c, d);
    } else {
      DigitsNext(c, k);
      DigitsNext(d, k);
      ShiftedMask(c, d, k);
      DigitsInjective(c >> 8, d >> 8, k - 1, s[1..]);
      JoinLowByte(c, d);
    }
  }

  lemma {:induction false} ToIntInjective(x: bv64, y: bv64)
    requires ToInt(x) == ToInt(y)
    ensures x == y
  {
    UnLeRoundTrip(Digits(x, 8));
    UnLeRoundTrip(Digits(y, 8));
    NothingUnderZero(x, y);
    DigitsInjective(x, y, 8, Digits(x, 8));
  }

  lemma {:induction false} BurstChangesCrc64(p: Bytes, a: Bytes, b: Bytes, s: Bytes)
    requires |a| == |b| <= 8 && a != b
    ensures Crc64(p + a + s) != Crc64(p + b + s)
  {
    BurstChangesCrc(p, a, b, s);
    if Crc64(p + a + s) == Crc64(p + b + s) {
      ToIntInjective(FileCrc(p + a + s), FileCrc(p + b + s));
    }
  }

  method FileCrc64(file: Bytes) returns (n: u64)
    ensures n == Crc64(file)
  {
    var crc := Crc64File(file);
    n := ToInt(crc);
  }

  /** Three updates in a row, as the log writer frames a record. */
  method CrcOfParts(a: Bytes, b: Bytes, c: Bytes) returns (n: u64)
    ensures n == Crc64(a + b + c)
  {
    var crc := Crc64Update(0, a);
    crc := FeedChunk(crc, b, a, a + b);
    crc := FeedChunk(crc, c, a + b, a + b + c);
    n := ToInt(crc);
  }
}
