/** What the encoded bytes look like, codec by codec: the formats of src/codecs/fce_codecs.c. */
module CodecFormats {
  import opened Bytes
  import opened Words
  import opened Codecs
  import opened Bitpack
  import Delta
  import Rle

  // ---- delta_i32 ----

  /** The first element, then the difference of each element and the one before it. */
  lemma {:induction false} DeltaFormat(x: Bytes, y: Bytes)
    requires |x| <= U32_MAX
    ensures Encode(DeltaI32, x) == Ok(y) <==>
            && |x| % 4 == 0 && |y| == |x|
            && (|x| > 0 ==> IntIn(y, 0) == IntIn(x, 0))
            && forall i :: 0 < i < |x| / 4 ==> IntIn(y, i) == IntIn(x, i) - IntIn(x, i - 1)
  {
    if |x| % 4 == 0 {
      DeltaAccepts(x);
      if Encode(DeltaI32, x) == Ok(y) {
        DeltaWritten(x, y);
      } else if |y| == |x| && (|x| > 0 ==> IntIn(y, 0) == IntIn(x, 0))
        && forall i :: 0 < i < |x| / 4 ==> IntIn(y, i) == IntIn(x, i) - IntIn(x, i - 1) {
        DeltaRead(x, y);
      }
    }
  }

  lemma {:induction false} DeltaWritten(x: Bytes, y: Bytes)
    requires |x| % 4 == 0 && Encode(DeltaI32, x) == Ok(y)
    ensures |y| == |x| && (|x| > 0 ==> IntIn(y, 0) == IntIn(x, 0))
    ensures forall i :: 0 < i < |x| / 4 ==> IntIn(y, i) == IntIn(x, i) - IntIn(x, i - 1)
  {
    var xs, ds := ReadInts(x), Delta.Differences(ReadInts(x));
    forall i | 0 <= i < |xs| ensures IntIn(y, i) == Delta.StepAt(xs, i) && xs[i] == IntIn(x, i) {
      WritesInt(ds, i);
      ReadsWord(x, i);
    }
    forall i | 0 < i < |x| / 4 ensures IntIn(y, i) == IntIn(x, i) - IntIn(x, i - 1) {
      assert xs[i - 1] == IntIn(x, i - 1);
    }
  }

  lemma {:induction false} DeltaRead(x: Bytes, y: Bytes)
    requires |x| % 4 == 0 && |y| == |x| <= U32_MAX && (|x| > 0 ==> IntIn(y, 0) == IntIn(x, 0))
    requires forall i :: 0 < i < |x| / 4 ==> IntIn(y, i) == IntIn(x, i) - IntIn(x, i - 1)
    ensures Encode(DeltaI32, x) == Ok(y)
  {
    var xs, ds := ReadInts(x), ReadInts(y);
    forall i | 0 <= i < |xs| ensures ds[i] == Delta.StepAt(xs, i) {
      ReadsWord(y, i);
      ReadsWord(x, i);
      if i > 0 {
        ReadsWord(x, i - 1);
      }
    }
    assert Delta.StepsFit(xs);
    assert ds == Delta.Differences(xs);
    ReadWriteInts(y);
  }

  /** The decoder answers exactly the array that encodes to its input. */
  lemma {:induction false} DeltaDecodes(y: Bytes, x: Bytes)
    requires |x| <= U32_MAX && |y| <= U32_MAX
    ensures Decode(DeltaI32, y) == Ok(x) <==> Encode(DeltaI32, x) == Ok(y)
  {
    hide Delta.DeltaEncode, Delta.DeltaDecode, Ints;
    if |x| % 4 == 0 && |y| % 4 == 0 {
      IntsIs(Delta.DeltaDecode(ReadInts(y)), x);
      IntsIs(Delta.DeltaEncode(ReadInts(x)), y);
      Delta.DeltaInverse(ReadInts(x), ReadInts(y));
    } else if |y| % 4 == 0 {
      WholeWords(Delta.DeltaDecode(ReadInts(y)), x);
    } else if |x| % 4 == 0 {
      WholeWords(Delta.DeltaEncode(ReadInts(x)), y);
    }
  }

  lemma {:induction false} WholeWords(r: Result<seq<i32>>, x: Bytes)
    requires |x| % 4 != 0
    ensures Ints(r) != Ok(x)
  {
  }

  // ---- rle ----

  function PairValue(pairs: seq<i32>, j: nat): i32
    requires 2 * j + 2 <= |pairs|
  {
    pairs[2 * j]
  }

  function PairCount(pairs: seq<i32>, j: nat): i32
    requires 2 * j + 2 <= |pairs|
  {
    pairs[2 * j + 1]
  }

  /** The elements that the first j pairs of value and count spell. */
  ghost function Spelt(pairs: seq<i32>, j: nat): int
    requires 2 * j <= |pairs|
  {
    if j == 0 then 0 else Spelt(pairs, j - 1) + PairCount(pairs, j - 1)
  }

  ghost predicate Natural(pairs: seq<i32>) {
    forall j :: 0 <= j < |pairs| / 2 ==> PairCount(pairs, j) >= 0
  }

  /** Pair j gives the elements from Spelt(j) up to Spelt(j + 1). */
  ghost predicate Spells(pairs: seq<i32>, xs: seq<i32>) {
    && |pairs| % 2 == 0 && Natural(pairs)
    && |xs| == Spelt(pairs, |pairs| / 2)
    && forall j, i :: 0 <= j < |pairs| / 2 && 0 <= i < |xs| ==> Within(pairs, xs, j, i)
  }

  ghost predicate Within(pairs: seq<i32>, xs: seq<i32>, j: nat, i: nat)
    requires 2 * j + 2 <= |pairs| && i < |xs|
  {
    Spelt(pairs, j) <= i < Spelt(pairs, j + 1) ==> xs[i] == PairValue(pairs, j)
  }

  lemma {:induction false} TailPair(pairs: seq<i32>, j: nat)
    requires 2 * j + 4 <= |pairs|
    ensures PairValue(pairs[2..], j) == PairValue(pairs, j + 1) && PairCount(pairs[2..], j) == PairCount(pairs, j + 1)
  {
  }

  lemma {:induction false} TailSpelt(pairs: seq<i32>, j: nat)
    requires 2 * j + 2 <= |pairs|
    ensures Spelt(pairs, j + 1) == PairCount(pairs, 0) + Spelt(pairs[2..], j)
  {
    hide PairCount;
    if j > 0 {
      TailSpelt(pairs, j - 1);
      TailPair(pairs, j - 1);
    } else {
      assert Spelt(pairs, 1) == Spelt(pairs, 0) + PairCount(pairs, 0);
    }
  }

  lemma {:induction false} SpeltIsNatural(pairs: seq<i32>, j: nat)
    requires 2 * j <= |pairs| && Natural(pairs)
    ensures Spelt(pairs, j) >= 0
  {
    hide PairCount;
    if j > 0 {
      SpeltIsNatural(pairs, j - 1);
    }
  }

  lemma {:induction false} TailIsNatural(pairs: seq<i32>)
    requires |pairs| >= 2
    ensures Natural(pairs) <==> PairCount(pairs, 0) >= 0 && Natural(pairs[2..])
  {
    hide PairCount;
    forall j | 0 <= j < |pairs[2..]| / 2 ensures PairCount(pairs[2..], j) == PairCount(pairs, j + 1) {
      TailPair(pairs, j);
    }
    if PairCount(pairs, 0) >= 0 && Natural(pairs[2..]) {
      forall j | 0 <= j < |pairs| / 2 ensures PairCount(pairs, j) >= 0 {
        if j > 0 {
          assert PairCount(pairs[2..], j - 1) >= 0;
        }
      }
    }
  }

  lemma {:induction false} TailWithin(pairs: seq<i32>, xs: seq<i32>, c: nat, j: nat, i: nat)
    requires 2 * j + 4 <= |pairs| && c == PairCount(pairs, 0) && c + i < |xs|
    ensures Within(pairs, xs, j + 1, c + i) <==> Within(pairs[2..], xs[c..], j, i)
  {
    hide PairCount, PairValue, Spelt;
    TailPair(pairs, j);
    TailSpelt(pairs, j);
    TailSpelt(pairs, j + 1);
  }

  lemma {:induction false} FirstWithin(pairs: seq<i32>, xs: seq<i32>, i: nat)
    requires |pairs| >= 2 && i < |xs|
    ensures Within(pairs, xs, 0, i) <==> (i < PairCount(pairs, 0) ==> xs[i] == PairValue(pairs, 0))
  {
    assert Spelt(pairs, 1) == Spelt(pairs, 0) + PairCount(pairs, 0);
  }

  /** The front pair spells the front, the others the rest. */
  lemma {:induction false} SpellsFront(pairs: seq<i32>, xs: seq<i32>)
    requires |pairs| >= 2 && Spells(pairs, xs)
    ensures 0 <= PairCount(pairs, 0) <= |xs| && Spells(pairs[2..], xs[PairCount(pairs, 0)..])
    ensures forall i :: 0 <= i < PairCount(pairs, 0) ==> xs[i] == PairValue(pairs, 0)
  {
    hide PairCount, PairValue, Within, Spelt, Natural;
    TailIsNatural(pairs);
    var rest, c: nat := pairs[2..], PairCount(pairs, 0);
    TailSpelt(pairs, |rest| / 2);
    SpeltIsNatural(rest, |rest| / 2);
    forall i | 0 <= i < c ensures xs[i] == PairValue(pairs, 0) {
      FirstWithin(pairs, xs, i);
    }
    forall j, i | 0 <= j < |rest| / 2 && 0 <= i < |xs[c..]| ensures Within(rest, xs[c..], j, i) {
      TailWithin(pairs, xs, c, j, i);
    }
  }

  lemma {:induction false} SpellsBack(pairs: seq<i32>, xs: seq<i32>, c: nat)
    requires |pairs| >= 2 && |pairs| % 2 == 0 && c == PairCount(pairs, 0) <= |xs| && Spells(pairs[2..], xs[c..])
    requires forall i :: 0 <= i < c ==> xs[i] == PairValue(pairs, 0)
    ensures Spells(pairs, xs)
  {
    hide PairCount, PairValue, Within, Spelt, Natural;
    var rest := pairs[2..];
    TailIsNatural(pairs);
    TailSpelt(pairs, |rest| / 2);
    forall j, i | 0 <= j < |pairs| / 2 && 0 <= i < |xs| ensures Within(pairs, xs, j, i) {
      if j == 0 {
        FirstWithin(pairs, xs, i);
      } else if i >= c {
        TailWithin(pairs, xs, c, j - 1, i - c);
      } else {
        FrontIsOutside(pairs, xs, j, i);
      }
    }
  }

  lemma {:induction false} FrontIsOutside(pairs: seq<i32>, xs: seq<i32>, j: nat, i: nat)
    requires 0 < j && 2 * j + 2 <= |pairs| && i < |xs| && i < PairCount(pairs, 0) && Natural(pairs)
    ensures Within(pairs, xs, j, i)
  {
    hide PairCount, PairValue, Natural;
    TailIsNatural(pairs);
    TailSpelt(pairs, j - 1);
    SpeltIsNatural(pairs[2..], j - 1);
  }

  /** The decoder takes the front pair off. */
  lemma {:induction false} ExpandFront(pairs: seq<i32>, room: nat, xs: seq<i32>)
    requires |pairs| >= 2
    ensures Rle.Expand(pairs, room) == Some(xs) <==>
            && 0 <= PairCount(pairs, 0) <= room && PairCount(pairs, 0) <= |xs|
            && (forall i :: 0 <= i < PairCount(pairs, 0) ==> xs[i] == PairValue(pairs, 0))
            && Rle.Expand(pairs[2..], room - PairCount(pairs, 0)) == Some(xs[PairCount(pairs, 0)..])
  {
    var c := pairs[1];
    if 0 <= c <= room {
      var rest := Rle.Expand(pairs[2..], room - c);
      if rest.Some? {
        FrontCopies(xs, pairs[0], c, rest.value);
      }
    }
  }

  lemma {:induction false} FrontCopies(xs: seq<i32>, v: i32, c: nat, rest: seq<i32>)
    ensures xs == Rle.Copies(v, c) + rest <==>
            c <= |xs| && (forall i :: 0 <= i < c ==> xs[i] == v) && rest == xs[c..]
  {
    var all := Rle.Copies(v, c) + rest;
    if c <= |xs| && (forall i :: 0 <= i < c ==> xs[i] == v) && rest == xs[c..] {
      assert xs[..c] == Rle.Copies(v, c);
      assert xs == xs[..c] + xs[c..];
    }
    if xs == all {
      assert all[c..] == rest;
    }
  }

  lemma {:induction false} ExpandSpells(pairs: seq<i32>, room: nat, xs: seq<i32>)
    requires |pairs| % 2 == 0
    ensures Rle.Expand(pairs, room) == Some(xs) <==> Spells(pairs, xs) && |xs| <= room
    decreases |pairs|
  {
    hide Spells, Rle.Expand, PairCount, PairValue;
    if pairs == [] {
      NothingSpelt(xs);
      Rle.NoPairLeft(pairs, room);
    } else {
      var c := PairCount(pairs, 0);
      ExpandFront(pairs, room, xs);
      if Spells(pairs, xs) {
        SpellsFront(pairs, xs);
      }
      if 0 <= c <= room && c <= |xs| {
        ExpandSpells(pairs[2..], room - c, xs[c..]);
        if Rle.Expand(pairs, room) == Some(xs) {
          SpellsBack(pairs, xs, c);
        }
      }
    }
  }

  lemma {:induction false} NothingSpelt(xs: seq<i32>)
    ensures Spells([], xs) <==> xs == []
  {
  }

  /** A count of elements, then pairs of a value and how often it comes, which spell that many elements. */
  ghost predicate Announces(ws: seq<i32>, xs: seq<i32>) {
    ws != [] && ws[0] == |xs| && Spells(ws[1..], xs)
  }

  lemma {:induction false} DecodeSpells(ws: seq<i32>, xs: seq<i32>)
    requires |ws| % 2 == 1
    ensures Rle.RleDecode(ws) == Ok(xs) <==> Announces(ws, xs)
  {
    hide Spells, Rle.Expand;
    if ws[0] >= 0 {
      ExpandSpells(ws[1..], ws[0], xs);
    }
  }

  /** The decoder accepts exactly pairs that spell the count in front of them, and answers what is spelt. */
  lemma {:induction false} RleDecodes(y: Bytes, x: Bytes)
    requires |y| % 4 == 0 && |ReadInts(y)| % 2 == 1 && |y| <= U32_MAX
    ensures Decode(RunLength, y) == Ok(x) <==> |x| % 4 == 0 && Announces(ReadInts(y), ReadInts(x))
  {
    hide Announces, Rle.RleDecode, Ints, ReadInts;
    var r := Rle.RleDecode(ReadInts(y));
    if |x| % 4 == 0 {
      IntsIs(r, x);
      DecodeSpells(ReadInts(y), ReadInts(x));
    } else {
      WholeWords(r, x);
    }
  }

  /** No count is 0 and neighbours differ. */
  ghost predicate Maximal(pairs: seq<i32>) {
    && (forall j :: 0 <= j < |pairs| / 2 ==> PairCount(pairs, j) >= 1)
    && (forall j :: 0 < j < |pairs| / 2 ==> Parted(pairs, j))
  }

  ghost predicate Parted(pairs: seq<i32>, j: nat)
    requires 0 < j && 2 * j + 2 <= |pairs|
  {
    PairValue(pairs, j) != PairValue(pairs, j - 1)
  }

  /** The encoder's pairs are the runs of its input: a run could only be cut at 2^31 - 1, which an input of 32-bit size
      does not reach. */
  lemma {:induction false} RleFormat(x: Bytes, y: Bytes)
    requires |x| <= U32_MAX && Encode(RunLength, x) == Ok(y)
    ensures |x| % 4 == 0 && |y| % 4 == 0
    ensures Announces(ReadInts(y), ReadInts(x)) && Maximal(ReadInts(y)[1..])
  {
    hide Spells, Maximal, Rle.RleEncode, ReadInts;
    var xs := ReadInts(x);
    var ws := Rle.RleEncode(xs);
    assert y == WriteInts(ws);
    WriteReadInts(ws);
    EncodeAnnounces(xs);
  }

  lemma {:induction false} EncodeAnnounces(xs: seq<i32>)
    requires |xs| < INT32_MAX
    ensures Announces(Rle.RleEncode(xs), xs) && Maximal(Rle.RleEncode(xs)[1..])
  {
    hide Spells, Maximal, Rle.Expand, Rle.Runs;
    var ws := Rle.RleEncode(xs);
    assert ws[1..] == Rle.Runs(xs);
    Rle.ExpandRuns(xs, |xs|);
    ExpandSpells(Rle.Runs(xs), |xs|, xs);
    RunsAreMaximal(xs);
  }

  lemma {:induction false} RunsAreMaximal(xs: seq<i32>)
    requires |xs| < INT32_MAX
    ensures Maximal(Rle.Runs(xs))
    ensures xs != [] ==> |Rle.Runs(xs)| >= 2 && PairValue(Rle.Runs(xs), 0) == xs[0]
    decreases |xs|
  {
    if xs != [] {
      hide Maximal, Rle.Runs;
      Rle.RunsStart(xs);
      var rest := xs[Rle.RunLength(xs)..];
      RunsAreMaximal(rest);
      if rest == [] {
        Rle.NoRuns(0);
      }
      PairBefore(Rle.Runs(xs));
    } else {
      assert Rle.Runs(xs) == [];
    }
  }

  lemma {:induction false} PairBefore(pairs: seq<i32>)
    requires |pairs| >= 2 && PairCount(pairs, 0) >= 1 && Maximal(pairs[2..])
    requires |pairs| >= 4 ==> PairValue(pairs[2..], 0) != PairValue(pairs, 0)
    ensures Maximal(pairs)
  {
    hide PairCount, PairValue;
    forall j | 0 <= j < |pairs| / 2 ensures PairCount(pairs, j) >= 1 {
      if j > 0 {
        TailPair(pairs, j - 1);
      }
    }
    forall j | 0 < j < |pairs| / 2 ensures Parted(pairs, j) {
      TailPair(pairs, j - 1);
      if j > 1 {
        TailPair(pairs, j - 2);
        assert Parted(pairs[2..], j - 1);
      }
    }
  }

  // ---- bitpack ----

  lemma {:induction false} PositionInside(n: nat, w: nat, i: nat, b: nat)
    requires i < n && b < w
    ensures i * w + b < n * w
  {
    Scaled(i + 1, n, w);
    assert (i + 1) * w == i * w + w;
  }

  lemma {:induction false} Scaled(a: nat, b: nat, w: nat)
    requires a <= b
    ensures a * w <= b * w
  {
  }

  /** i * w + b, step by step. */
  ghost function Position(i: nat, w: nat, b: nat): nat {
    if i == 0 then b else Position(i - 1, w, b) + w
  }

  lemma {:induction false} PositionIs(i: nat, w: nat, b: nat)
    ensures Position(i, w, b) == i * w + b
  {
    if i > 0 {
      PositionIs(i - 1, w, b);
      assert i * w == (i - 1) * w + w;
    }
  }

  lemma {:induction false} StreamBit(xs: seq<nat>, w: nat, i: nat, b: nat)
    requires i < |xs| && b < w
    ensures Position(i, w, b) < |Stream(xs, w)| && Stream(xs, w)[Position(i, w, b)] == Bit(xs[i], b)
  {
    hide Bit, BitsOf, Stream;
    StreamCons(xs[0], xs[1..], w);
    assert xs == [xs[0]] + xs[1..];
    if i == 0 {
      BitIsBitsOf(xs[0], w, b);
    } else {
      StreamBit(xs[1..], w, i - 1, b);
    }
  }

  lemma {:induction false} CutBit(s: seq<bool>, w: nat, n: nat, i: nat, b: nat)
    requires n * w <= |s| && i < n && b < w
    ensures Position(i, w, b) < |s| && s[Position(i, w, b)] == Bit(Cut(s, w, n)[i], b)
  {
    hide Bit, Number, BitsOf, Cut;
    CutCons(s, w, n);
    if i == 0 {
      BitsOfNumber(s[..w]);
      BitIsBitsOf(Number(s[..w]), w, b);
    } else {
      CutBit(s[w..], w, n - 1, i - 1, b);
    }
  }

  /** Bit p of a buffer: eight to a byte, the lowest first. */
  predicate BitIn(b: Bytes, p: nat)
    requires p / 8 < |b|
  {
    Bit(b[p / 8], p % 8)
  }

  lemma {:induction false} StreamIsBits(b: Bytes, p: nat)
    requires p < 8 * |b|
    ensures ByteStream(b)[p] == BitIn(b, p)
  {
    StreamAt(b, p / 8, p % 8);
  }

  /** Number i of n takes the w bits from i * w on. */
  ghost predicate Packs(payload: Bytes, w: nat, x: Bytes) {
    && |x| % 4 == 0 && 8 * |payload| >= |x| / 4 * w
    && forall i, b :: 0 <= i < |x| / 4 && 0 <= b < w ==> PackedBit(payload, w, x, i, b)
  }

  ghost predicate PackedBit(payload: Bytes, w: nat, x: Bytes, i: nat, b: nat) {
    && (i * w + b) / 8 < |payload| && 4 * i + 4 <= |x|
    && BitIn(payload, i * w + b) == Bit(WordIn(x, i), b)
  }

  lemma {:induction false} PayloadPacks(x: Bytes, w: nat)
    requires |x| % 4 == 0
    ensures Packs(Payload(ReadWords(x), w), w, x)
  {
    hide BitIn, Bit, Stream, BytesOf, ByteStream, WordIn;
    var ws := ReadWords(x);
    var payload, s := Payload(ws, w), Stream(ws, w);
    var pad := Zeros(8 * PayloadSize(|ws|, w) - |s|);
    StreamOfBytes(s + pad);
    forall i, b | 0 <= i < |x| / 4 && 0 <= b < w ensures PackedBit(payload, w, x, i, b) {
      PositionInside(|ws|, w, i, b);
      PositionIs(i, w, b);
      StreamBit(ws, w, i, b);
      ReadsWord(x, i);
      StreamIsBits(payload, i * w + b);
    }
  }

  lemma {:induction false} CutPacks(payload: Bytes, w: nat, n: nat)
    requires w <= 32 && n * w <= 8 * |payload|
    ensures |WriteWords(CutWords(ByteStream(payload), w, n))| == 4 * n
    ensures Packs(payload, w, WriteWords(CutWords(ByteStream(payload), w, n)))
  {
    hide BitIn, Bit, Cut, ByteStream, WordIn;
    var s := ByteStream(payload);
    var ws := CutWords(s, w, n);
    var x := WriteWords(ws);
    forall i, b | 0 <= i < |x| / 4 && 0 <= b < w ensures PackedBit(payload, w, x, i, b) {
      PositionInside(n, w, i, b);
      PositionIs(i, w, b);
      CutBit(s, w, n, i, b);
      WritesWord(ws, i);
      StreamIsBits(payload, i * w + b);
    }
  }

  /** Sixteen bytes of header, the number of words and the width, then the words packed: the width is the least that
      no word exceeds, and the payload is no longer than it must be. */
  lemma {:induction false} BitpackFormat(x: Bytes, y: Bytes)
    requires |x| <= U32_MAX && Encode(BitPacked, x) == Ok(y)
    ensures |x| % 4 == 0 && |y| >= 16 && UnLe(y[..8]) == |x| / 4
    ensures var w := UnLe(y[8..16]);
      && 1 <= w <= 32 && |y| == 16 + (|x| / 4 * w + 7) / 8
      && (forall i :: 0 <= i < |x| / 4 ==> WordIn(x, i) < Pow2(w))
      && (w > 1 ==> exists i :: 0 <= i < |x| / 4 && WordIn(x, i) >= Pow2(w - 1))
      && Packs(y[16..], w, x)
  {
    hide Packs, LeastWidth, Payload, Le, Width;
    var ws := ReadWords(x);
    var w := Width(ws);
    LeastWidthIsWidth(ws, w);
    Pow256Values();
    HeaderRoundTrip(|ws|, w, Payload(ws, w));
    PayloadPacks(x, w);
    LeastOfWords(x, w);
  }

  lemma {:induction false} LeastOfWords(x: Bytes, w: nat)
    requires |x| % 4 == 0 && LeastWidth(ReadWords(x), w)
    ensures w >= 1 && forall i :: 0 <= i < |x| / 4 ==> WordIn(x, i) < Pow2(w)
    ensures w > 1 ==> exists i :: 0 <= i < |x| / 4 && WordIn(x, i) >= Pow2(w - 1)
  {
    hide WordIn, Pow2;
    var ws := ReadWords(x);
    forall i | 0 <= i < |ws| ensures ws[i] == WordIn(x, i) {
      ReadsWord(x, i);
    }
    if w > 1 {
      var i :| 0 <= i < |ws| && ws[i] >= Pow2(w - 1);
      assert WordIn(x, i) >= Pow2(w - 1);
    }
  }

  /** A decoder accepts exactly a header that fits the length, although it multiplies modulo 2^64. */
  lemma {:induction false} BitpackAccepts(y: Bytes)
    requires |y| <= U32_MAX
    ensures Decode(BitPacked, y).Ok? <==>
            && |y| >= 16
            && 1 <= UnLe(y[8..16]) <= 32
            && |y| == 16 + (UnLe(y[..8]) * UnLe(y[8..16]) + 7) / 8
  {
    hide CutWords, ByteStream, WriteWords;
    if |y| >= 16 {
      var n, w := UnLe(y[..8]), UnLe(y[8..16]);
      if 1 <= w <= 32 {
        Scaled(1, w, n);
        assert w * n == n * w;
        if 4 * n <= MAX_OBJECT {
          NoWrap(n, w);
        }
      }
    }
  }

  /** And what is accepted is unpacked by the same positions. */
  lemma {:induction false} BitpackDecodes(y: Bytes, x: Bytes)
    requires Decode(BitPacked, y) == Ok(x)
    ensures |y| >= 16 && |x| == 4 * UnLe(y[..8])
    ensures var w := UnLe(y[8..16]); 1 <= w <= 32 && |y| == 16 + (|x| / 4 * w + 7) / 8 && Packs(y[16..], w, x)
  {
    hide Packs, WriteWords, CutWords, ByteStream;
    var n, w := UnLe(y[..8]), UnLe(y[8..16]);
    NoWrap(n, w);
    CutPacks(y[16..], w, n);
  }
}
