/** The bitpack codec: src/codecs/fce_codecs.c lines 62-85 and 157-177. Numbers of w bits are laid
    end to end, least significant bit first, in a stream that is cut into bytes the same way. */
module Bitpack {
  import opened Bytes
  import opened Words

  function Pow2(w: nat): (p: nat)
    ensures p > 0
  {
    if w == 0 then 1 else 2 * Pow2(w - 1)
  }

  // ---- Numbers as bits ----

  function BitsOf(x: nat, w: nat): (s: seq<bool>)
    ensures |s| == w
  {
    if w == 0 then [] else [x % 2 == 1] + BitsOf(x / 2, w - 1)
  }

  function Number(s: seq<bool>): (x: nat)
    ensures x < Pow2(|s|)
  {
    if s == [] then 0 else (if s[0] then 1 else 0) + 2 * Number(s[1..])
  }

  lemma {:induction false} NumberOfBits(x: nat, w: nat)
    requires x < Pow2(w)
    ensures Number(BitsOf(x, w)) == x
  {
    if w > 0 {
      NumberOfBits(x / 2, w - 1);
      assert BitsOf(x, w)[1..] == BitsOf(x / 2, w - 1);
    }
  }

  lemma {:induction false} BitsOfNumber(s: seq<bool>)
    ensures BitsOf(Number(s), |s|) == s
  {
    if s != [] {
      BitsOfNumber(s[1..]);
      assert Number(s) / 2 == Number(s[1..]);
      assert s == [s[0]] + s[1..];
    }
  }

  lemma {:induction false} BitIsBitsOf(x: nat, w: nat, b: nat)
    requires b < w
    ensures Bit(x, b) == BitsOf(x, w)[b]
  {
    if b > 0 {
      BitIsBitsOf(x / 2, w - 1, b - 1);
    }
  }

  // ---- The stream ----

  function Stream(xs: seq<nat>, w: nat): (s: seq<bool>)
    ensures |s| == |xs| * w
  {
    if xs == [] then []
    else
      assert |xs| * w == w + |xs[1..]| * w;
      BitsOf(xs[0], w) + Stream(xs[1..], w)
  }

  /** n numbers of w bits off the front. */
  function Cut(s: seq<bool>, w: nat, n: nat): (xs: seq<nat>)
    requires n * w <= |s|
    ensures |xs| == n
  {
    if n == 0 then []
    else
      assert n * w == w + (n - 1) * w;
      [Number(s[..w])] + Cut(s[w..], w, n - 1)
  }

  lemma {:induction false} CutCons(s: seq<bool>, w: nat, n: nat)
    requires n > 0 && n * w <= |s|
    ensures (n - 1) * w + w == n * w
    ensures Cut(s, w, n) == [Number(s[..w])] + Cut(s[w..], w, n - 1)
  {
    assert n * w == w + (n - 1) * w;
  }

  ghost predicate AllBelow(xs: seq<nat>, bound: nat) {
    forall i :: 0 <= i < |xs| ==> xs[i] < bound
  }

  lemma {:induction false} CutStream(xs: seq<nat>, w: nat, pad: seq<bool>)
    requires AllBelow(xs, Pow2(w))
    ensures |xs| * w <= |Stream(xs, w) + pad|
    ensures Cut(Stream(xs, w) + pad, w, |xs|) == xs
  {
    if xs != [] {
      var s, rest := Stream(xs, w) + pad, Stream(xs[1..], w) + pad;
      StreamFront(xs, w, pad);
      CutStream(xs[1..], w, pad);
      CutCons(s, w, |xs|);
      NumberOfBits(xs[0], w);
      assert xs == [xs[0]] + xs[1..];
    }
  }

  lemma {:induction false} StreamFront(xs: seq<nat>, w: nat, pad: seq<bool>)
    requires xs != []
    ensures var s := Stream(xs, w) + pad;
            |s| >= w && s[..w] == BitsOf(xs[0], w) && s[w..] == Stream(xs[1..], w) + pad
  {
    hide BitsOf;
    assert Stream(xs, w) + pad == BitsOf(xs[0], w) + (Stream(xs[1..], w) + pad);
  }

  lemma {:induction false} StreamCut(s: seq<bool>, w: nat, n: nat)
    requires |s| == n * w
    ensures Stream(Cut(s, w, n), w) == s
  {
    hide BitsOf, Number, Stream, Cut;
    if n > 0 {
      CutCons(s, w, n);
      var first, rest := s[..w], s[w..];
      StreamCut(rest, w, n - 1);
      StreamCons(Number(first), Cut(rest, w, n - 1), w);
      BitsOfNumber(first);
      assert s == first + rest;
    }
  }

  lemma {:induction false} StreamCons(x: nat, xs: seq<nat>, w: nat)
    ensures Stream([x] + xs, w) == BitsOf(x, w) + Stream(xs, w)
  {
    assert ([x] + xs)[1..] == xs;
  }

  lemma {:induction false} CutBelow(s: seq<bool>, w: nat, n: nat)
    requires n * w <= |s|
    ensures AllBelow(Cut(s, w, n), Pow2(w))
  {
    if n > 0 {
      assert n * w == w + (n - 1) * w;
      CutBelow(s[w..], w, n - 1);
      var xs := Cut(s, w, n);
      forall i | 0 <= i < |xs| ensures xs[i] < Pow2(w) {
        if i > 0 {
          assert xs[i] == Cut(s[w..], w, n - 1)[i - 1];
        }
      }
    }
  }

  // ---- The encoder's numbers ----

  function Max(xs: seq<u32>): (m: u32) {
    if xs == [] then 0
    else
      var m := Max(xs[..|xs| - 1]);
      if xs[|xs| - 1] > m then xs[|xs| - 1] else m
  }

  lemma {:induction false} MaxIsGreatest(xs: seq<u32>)
    ensures forall i :: 0 <= i < |xs| ==> xs[i] <= Max(xs)
    ensures Max(xs) == 0 || exists i :: 0 <= i < |xs| && xs[i] == Max(xs)
  {
    if xs != [] {
      var init := xs[..|xs| - 1];
      MaxIsGreatest(init);
      forall i | 0 <= i < |xs| ensures xs[i] <= Max(xs) {
        if i < |init| {
          assert init[i] <= Max(init);
        }
      }
      if Max(xs) != 0 {
        if Max(xs) == Max(init) {
          var i :| 0 <= i < |init| && init[i] == Max(init);
          assert xs[i] == Max(xs);
        } else {
          assert xs[|xs| - 1] == Max(xs);
        }
      }
    }
  }

  /** The number of significant bits. */
  function Significant(m: nat): (w: nat) {
    if m == 0 then 0 else 1 + Significant(m / 2)
  }

  function Width(xs: seq<u32>): (w: nat) {
    var w := Significant(Max(xs));
    if w == 0 then 1 else w
  }

  lemma {:induction false} SignificantBound(m: nat, b: nat)
    ensures m < Pow2(b) <==> Significant(m) <= b
  {
    if m > 0 && b > 0 {
      SignificantBound(m / 2, b - 1);
    }
  }

  lemma {:induction false} Pow2Of32()
    ensures Pow2(32) == TWO32 && Pow2(8) == 0x100
  {
    assert Pow2(4) == 16;
    assert Pow2(8) == 16 * Pow2(4);
    assert Pow2(12) == 16 * Pow2(8);
    assert Pow2(16) == 16 * Pow2(12);
    assert Pow2(20) == 16 * Pow2(16);
    assert Pow2(24) == 16 * Pow2(20);
    assert Pow2(28) == 16 * Pow2(24);
    assert Pow2(32) == 16 * Pow2(28);
  }

  /** The width is the least w >= 1 with every element below 2^w, and at most 32. */
  lemma {:induction false} WidthIsLeast(xs: seq<u32>, w: nat)
    requires w >= 1
    ensures AllBelow(xs, Pow2(w)) <==> Width(xs) <= w
    ensures 1 <= Width(xs) <= 32
  {
    MaxIsGreatest(xs);
    SignificantBound(Max(xs), w);
    SignificantBound(Max(xs), 32);
    Pow2Of32();
    if AllBelow(xs, Pow2(w)) && Max(xs) != 0 {
      var i :| 0 <= i < |xs| && xs[i] == Max(xs);
      assert xs[i] < Pow2(w);
    }
  }

  ghost predicate LeastWidth(xs: seq<u32>, w: nat) {
    && w >= 1 && AllBelow(xs, Pow2(w))
    && (w > 1 ==> !AllBelow(xs, Pow2(w - 1)))
  }

  lemma {:induction false} LeastWidthIsWidth(xs: seq<u32>, w: nat)
    ensures LeastWidth(xs, w) <==> w == Width(xs)
    ensures LeastWidth(xs, w) ==> w <= 32
  {
    if w >= 1 {
      WidthIsLeast(xs, w);
      if w > 1 {
        WidthIsLeast(xs, w - 1);
      }
    } else {
      WidthIsLeast(xs, 1);
    }
  }

  lemma {:induction false} WidthIsPositive(xs: seq<u32>)
    ensures Width(xs) >= 1
  {
  }

  /** Bytes needed for n numbers of w bits. */
  function PayloadSize(n: nat, w: nat): nat {
    (n * w + 7) / 8
  }

  function Zeros(n: nat): seq<bool> {
    seq(n, _ => false)
  }

  function AsBytes(ns: seq<nat>): Bytes
    requires AllBelow(ns, 0x100)
  {
    seq(|ns|, i requires 0 <= i < |ns| => ns[i])
  }

  /** The bits of a byte string, eight per byte. */
  function ByteStream(b: Bytes): (s: seq<bool>)
    ensures |s| == 8 * |b|
  {
    Stream(b, 8)
  }

  /** The byte string with the given bits. */
  function BytesOf(s: seq<bool>): (b: Bytes)
    requires |s| % 8 == 0
    ensures |b| == |s| / 8
  {
    CutBelow(s, 8, |s| / 8);
    Pow2Of32();
    AsBytes(Cut(s, 8, |s| / 8))
  }

  lemma {:induction false} BytesOfStream(b: Bytes)
    ensures BytesOf(ByteStream(b)) == b
  {
    Pow2Of32();
    CutStream(b, 8, []);
    assert ByteStream(b) + [] == ByteStream(b);
  }

  lemma {:induction false} StreamOfBytes(s: seq<bool>)
    requires |s| % 8 == 0
    ensures ByteStream(BytesOf(s)) == s
  {
    StreamCut(s, 8, |s| / 8);
    assert BytesOf(s) == Cut(s, 8, |s| / 8);
  }

  // ---- Setting and reading one bit of a buffer ----

  /** x | (1 << j). */
  function SetBit(x: nat, j: nat): nat {
    if j == 0 then x / 2 * 2 + 1 else x % 2 + 2 * SetBit(x / 2, j - 1)
  }

  lemma {:induction false} SetHigherBit(x: nat, j: nat)
    requires j > 0
    ensures SetBit(x, j) / 2 == SetBit(x / 2, j - 1) && SetBit(x, j) % 2 == x % 2
  {
  }

  lemma {:induction false} SetBitBits(x: nat, j: nat, w: nat)
    requires j < w && x < Pow2(w)
    ensures SetBit(x, j) < Pow2(w)
    ensures BitsOf(SetBit(x, j), w) == BitsOf(x, w)[j := true]
  {
    hide SetBit, Pow2;
    BitsSplit(x, w);
    BitsSplit(SetBit(x, j), w);
    if j == 0 {
      SetLowestBit(x);
    } else {
      SetHigherBit(x, j);
      SetBitBits(x / 2, j - 1, w - 1);
    }
  }

  lemma {:induction false} BitsSplit(x: nat, w: nat)
    requires w > 0
    ensures BitsOf(x, w) == [x % 2 == 1] + BitsOf(x / 2, w - 1)
    ensures x < Pow2(w) <==> x / 2 < Pow2(w - 1)
  {
  }

  lemma {:induction false} SetLowestBit(x: nat)
    ensures SetBit(x, 0) / 2 == x / 2 && SetBit(x, 0) % 2 == 1
  {
  }

  function OrByte(b: byte, j: nat): (r: byte)
    requires j < 8
    ensures BitsOf(r, 8) == BitsOf(b, 8)[j := true]
  {
    Pow2Of32();
    SetBitBits(b, j, 8);
    SetBit(b, j)
  }

  lemma {:induction false} StreamSet(b: Bytes, k: nat, j: nat)
    requires k < |b| && j < 8
    ensures ByteStream(b[k := OrByte(b[k], j)]) == ByteStream(b)[8 * k + j := true]
  {
    var c := b[k := OrByte(b[k], j)];
    if k == 0 {
      assert c[1..] == b[1..];
    } else {
      assert c[1..] == b[1..][k - 1 := OrByte(b[k], j)];
      StreamSet(b[1..], k - 1, j);
    }
  }

  lemma {:induction false} StreamAt(b: Bytes, k: nat, j: nat)
    requires k < |b| && j < 8
    ensures ByteStream(b)[8 * k + j] == Bit(b[k], j)
  {
    if k == 0 {
      BitIsBitsOf(b[0], 8, j);
    } else {
      StreamAt(b[1..], k - 1, j);
    }
  }

  // ---- The format ----

  const HEADER := 16

  function Payload(xs: seq<u32>, w: nat): (b: Bytes)
    ensures |b| == PayloadSize(|xs|, w)
  {
    var s := Stream(xs, w);
    BytesOf(s + Zeros(8 * PayloadSize(|xs|, w) - |s|))
  }

  function BitpackEncode(xs: seq<u32>): (b: Bytes)
    ensures |b| == HEADER + PayloadSize(|xs|, Width(xs))
  {
    Le(|xs|, 8) + Le(Width(xs), 8) + Payload(xs, Width(xs))
  }

  /** The payload size as computed in size_t arithmetic. */
  function PayloadSize64(n: nat, w: nat): nat {
    (n * w + 7) % 0x1_0000_0000_0000_0000 / 8
  }

  lemma {:induction false} NoWrap(n: nat, w: nat)
    requires 4 * n <= MAX_OBJECT && w <= 32
    ensures PayloadSize64(n, w) == PayloadSize(n, w)
  {
    Bounded(n, w, 32);
    assert n * w + 7 < 0x1_0000_0000_0000_0000;
  }

  lemma {:induction false} Bounded(n: nat, w: nat, most: nat)
    requires w <= most
    ensures n * w <= n * most
  {
  }

  function AsWords(ns: seq<nat>): seq<u32>
    requires AllBelow(ns, TWO32)
  {
    seq(|ns|, i requires 0 <= i < |ns| => ns[i])
  }

  lemma {:induction false} Pow2Monotone(v: nat, w: nat)
    requires v <= w
    ensures Pow2(v) <= Pow2(w)
  {
    if v < w {
      Pow2Monotone(v, w - 1);
    }
  }

  function CutWords(s: seq<bool>, w: nat, n: nat): (xs: seq<u32>)
    requires w <= 32 && n * w <= |s|
    ensures |xs| == n
  {
    CutBelow(s, w, n);
    Pow2Monotone(w, 32);
    Pow2Of32();
    AsWords(Cut(s, w, n))
  }

  function BitpackDecode(b: Bytes): Result<seq<u32>> {
    if |b| < HEADER then Err(Corrupt)
    else
      var n, w := UnLe(b[..8]), UnLe(b[8..HEADER]);
      if w == 0 || w > 32 || HEADER + PayloadSize64(n, w) != |b| then Err(Corrupt)
      else if 4 * n > MAX_OBJECT then Err(OutOfMemory)
      else
        NoWrap(n, w);
        Ok(CutWords(ByteStream(b[HEADER..]), w, n))
  }

  /** Decoding undoes encoding, for every array that fits in memory. */
  lemma {:induction false} BitpackRoundTrip(xs: seq<u32>)
    requires 4 * |xs| <= MAX_OBJECT
    ensures BitpackDecode(BitpackEncode(xs)) == Ok(xs)
  {
    hide Stream, BytesOf, ByteStream, Cut, Le, UnLe, Width;
    var n, w, b := |xs|, Width(xs), BitpackEncode(xs);
    WidthIsPositive(xs);
    WidthIsLeast(xs, w);
    HeaderRoundTrip(n, w, Payload(xs, w));
    NoWrap(n, w);
    var s := Stream(xs, w);
    var pad := Zeros(8 * PayloadSize(n, w) - |s|);
    StreamOfBytes(s + pad);
    CutStream(xs, w, pad);
    assert b[HEADER..] == Payload(xs, w);
    assert AsWords(Cut(s + pad, w, n)) == xs;
  }

  lemma {:induction false} HeaderRoundTrip(n: nat, w: nat, payload: Bytes)
    requires n < TWO64 && w < TWO64
    ensures var b := Le(n, 8) + Le(w, 8) + payload;
            UnLe(b[..8]) == n && UnLe(b[8..HEADER]) == w && b[HEADER..] == payload
  {
    var b := Le(n, 8) + Le(w, 8) + payload;
    assert b[..8] == Le(n, 8) && b[8..HEADER] == Le(w, 8);
    Pow256Values();
    LeRoundTrip(n, 8);
    LeRoundTrip(w, 8);
  }

  // ---- The loops ----

  /** The maximum and its bit width. */
  method FindWidth(xs: seq<u32>) returns (bits: nat)
    ensures bits == Width(xs)
  {
    var maxv: u32 := 0;
    for i := 0 to |xs|
      invariant maxv == Max(xs[..i])
    {
      assert xs[..i + 1][..i] == xs[..i];
      if xs[i] > maxv {
        maxv := xs[i];
      }
    }
    assert xs[..|xs|] == xs;
    bits := 0;
    while bits < 32 && Shr(maxv, bits) != 0
      invariant bits <= 32
      invariant Significant(maxv) == bits + Significant(Shr(maxv, bits))
    {
      ShrNext(maxv, bits);
      bits := bits + 1;
    }
    WidthIsLeast(xs, 1);
    if bits == 0 {
      bits := 1;
    }
  }

  lemma {:induction false} LeNext(v: nat, w: nat)
    requires w > 0
    ensures Le(v, w)[0] == v % 256 && Le(v, w)[1..] == Le(v / 256, w - 1)
  {
  }

  /** wr64. */
  method Wr64(out: array<byte>, at: nat, n: nat)
    requires at + 8 <= out.Length
    modifies out
    ensures forall k :: 0 <= k < out.Length && !(at <= k < at + 8) ==> out[k] == old(out[k])
    ensures out[at..at + 8] == Le(n, 8)
  {
    var v := n;
    ghost var le := Le(n, 8);
    for i := 0 to 8
      invariant forall k :: 0 <= k < out.Length && !(at <= k < at + 8) ==> out[k] == old(out[k])
      invariant forall k :: 0 <= k < i ==> out[at + k] == le[k]
      invariant le[i..] == Le(v, 8 - i)
    {
      LeNext(v, 8 - i);
      assert le[i] == le[i..][0];
      assert le[i + 1..] == le[i..][1..];
      out[at + i] := v % 256;
      v := v / 256;
    }
  }

  /** What the buffer past its header holds while bits are being appended. */
  ghost predicate Filled(body: Bytes, done: seq<bool>) {
    && |done| <= 8 * |body|
    && ByteStream(body) == done + Zeros(8 * |body| - |done|)
  }

  lemma {:induction false} FillZero(body: Bytes, done: seq<bool>)
    requires Filled(body, done) && |done| < 8 * |body|
    ensures Filled(body, done + [false])
  {
    var k := 8 * |body| - |done|;
    assert Zeros(k) == [false] + Zeros(k - 1);
  }

  lemma {:induction false} FillOne(body: Bytes, done: seq<bool>)
    requires Filled(body, done) && |done| < 8 * |body|
    ensures var p := |done|; Filled(body[p / 8 := OrByte(body[p / 8], p % 8)], done + [true])
  {
    var p, k := |done|, 8 * |body| - |done|;
    StreamSet(body, p / 8, p % 8);
    assert (done + Zeros(k))[p := true] == done + [true] + Zeros(k - 1);
  }

  /** The inner loop of the encoder: one number, least significant bit first. */
  method PackWord(out: array<byte>, bitpos0: nat, v: u32, bits: nat, ghost done: seq<bool>) returns (bitpos: nat)
    requires HEADER <= out.Length && Filled(out[HEADER..], done) && bitpos0 == |done|
    requires |done| + bits <= 8 * (out.Length - HEADER)
    modifies out
    ensures out[..HEADER] == old(out[..HEADER])
    ensures Filled(out[HEADER..], done + BitsOf(v, bits)) && bitpos == bitpos0 + bits
  {
    hide Filled, BitsOf, Bit;
    bitpos := bitpos0;
    ghost var s := BitsOf(v, bits);
    ghost var filled := done;
    for b := 0 to bits
      invariant out[..HEADER] == old(out[..HEADER]) && bitpos == bitpos0 + b
      invariant Filled(out[HEADER..], filled) && filled == done + s[..b]
    {
      BitIsBitsOf(v, bits, b);
      PackBit(out, bitpos, Bit(v, b), filled);
      filled := filled + [Bit(v, b)];
      bitpos := bitpos + 1;
    }
    assert s[..bits] == s;
  }

  method PackBit(out: array<byte>, bitpos: nat, bit: bool, ghost done: seq<bool>)
    requires HEADER <= out.Length && Filled(out[HEADER..], done) && bitpos == |done| < 8 * (out.Length - HEADER)
    modifies out
    ensures out[..HEADER] == old(out[..HEADER])
    ensures Filled(out[HEADER..], done + [bit])
  {
    if bit {
      FillOne(out[HEADER..], done);
      OrInto(out, bitpos);
    } else {
      FillZero(out[HEADER..], done);
    }
  }

  method OrInto(out: array<byte>, bitpos: nat)
    requires HEADER + bitpos / 8 < out.Length
    modifies out
    ensures out[..HEADER] == old(out[..HEADER])
    ensures var body := old(out[HEADER..]);
            out[HEADER..] == body[bitpos / 8 := OrByte(body[bitpos / 8], bitpos % 8)]
  {
    out[HEADER + bitpos / 8] := OrByte(out[HEADER + bitpos / 8], bitpos % 8);
  }

  lemma {:induction false} StreamSnoc(xs: seq<nat>, x: nat, w: nat)
    ensures Stream(xs + [x], w) == Stream(xs, w) + BitsOf(x, w)
  {
    hide BitsOf;
    if xs == [] {
      StreamCons(x, [], w);
      assert [x] + [] == xs + [x];
      assert Stream([], w) == [];
    } else {
      StreamSnoc(xs[1..], x, w);
      assert (xs + [x])[1..] == xs[1..] + [x];
    }
  }

  lemma {:induction false} ZeroStream(b: Bytes)
    requires forall i :: 0 <= i < |b| ==> b[i] == 0
    ensures ByteStream(b) == Zeros(8 * |b|)
  {
    if b != [] {
      ZeroStream(b[1..]);
      ZeroBits(8);
    }
  }

  lemma {:induction false} ZeroBits(w: nat)
    ensures BitsOf(0, w) == Zeros(w)
  {
    if w > 0 {
      ZeroBits(w - 1);
    }
  }

  method EncodeBitpack(xs: seq<u32>) returns (b: Bytes)
    ensures b == BitpackEncode(xs)
  {
    var n := |xs|;
    var bits := FindWidth(xs);
    var payload := (n * bits + 7) / 8;
    var out := new byte[16 + payload](_ => 0);
    WriteHeader(out, n, bits);
    PackAll(out, xs, bits);
    assert out[..] == out[..HEADER] + out[HEADER..];
    return out[..];
  }

  method WriteHeader(out: array<byte>, n: nat, bits: nat)
    requires HEADER <= out.Length
    modifies out
    ensures out[..HEADER] == Le(n, 8) + Le(bits, 8)
    ensures forall k :: HEADER <= k < out.Length ==> out[k] == old(out[k])
  {
    Wr64(out, 0, n);
    assert out[..8] == Le(n, 8);
    Wr64(out, 8, bits);
    assert out[..HEADER] == out[..8] + out[8..HEADER];
  }

  method PackAll(out: array<byte>, xs: seq<u32>, bits: nat)
    requires out.Length == HEADER + PayloadSize(|xs|, bits)
    requires forall i :: HEADER <= i < out.Length ==> out[i] == 0
    modifies out
    ensures out[..HEADER] == old(out[..HEADER])
    ensures out[HEADER..] == Payload(xs, bits)
  {
    var n := |xs|;
    StartFill(xs, bits, out[HEADER..]);
    var bitpos := 0;
    for i := 0 to n
      invariant out[..HEADER] == old(out[..HEADER]) && bitpos == i * bits
      invariant Filled(out[HEADER..], Stream(xs[..i], bits))
    {
      Steps(i, n, bits);
      NextWord(xs, i, bits);
      bitpos := PackWord(out, bitpos, xs[i], bits, Stream(xs[..i], bits));
    }
    PayloadIs(xs, bits, out[HEADER..]);
  }

  lemma {:induction false} StartFill(xs: seq<u32>, w: nat, body: Bytes)
    requires forall i :: 0 <= i < |body| ==> body[i] == 0
    ensures Filled(body, Stream(xs[..0], w))
  {
    ZeroStream(body);
    assert xs[..0] == [];
    assert Stream([], w) + Zeros(8 * |body|) == Zeros(8 * |body|);
  }

  lemma {:induction false} NextWord(xs: seq<u32>, i: nat, w: nat)
    requires i < |xs|
    ensures Stream(xs[..i + 1], w) == Stream(xs[..i], w) + BitsOf(xs[i], w)
  {
    assert xs[..i + 1] == xs[..i] + [xs[i]];
    StreamSnoc(xs[..i], xs[i], w);
  }

  lemma {:induction false} Steps(i: nat, n: nat, w: nat)
    requires i < n
    ensures i * w + w == (i + 1) * w <= n * w
  {
    assert (i + 1) * w <= n * w;
  }

  lemma {:induction false} PayloadIs(xs: seq<u32>, w: nat, body: Bytes)
    requires |body| == PayloadSize(|xs|, w) && Filled(body, Stream(xs[..|xs|], w))
    ensures body == Payload(xs, w)
  {
    assert xs[..|xs|] == xs;
    BytesOfStream(body);
  }

  /** v holds the first b of the bits s, the rest still zero. */
  ghost predicate Gathered(v: nat, s: seq<bool>, b: nat) {
    && b <= |s| && v < Pow2(|s|)
    && BitsOf(v, |s|) == s[..b] + Zeros(|s| - b)
  }

  lemma {:induction false} GatherOne(v: nat, s: seq<bool>, b: nat)
    requires Gathered(v, s, b) && b < |s|
    ensures Gathered(if s[b] then SetBit(v, b) else v, s, b + 1)
  {
    assert s[..b + 1] == s[..b] + [s[b]];
    assert Zeros(|s| - b) == [false] + Zeros(|s| - b - 1);
    if s[b] {
      SetBitBits(v, b, |s|);
    }
  }

  lemma {:induction false} GatherNone(s: seq<bool>)
    ensures Gathered(0, s, 0)
  {
    ZeroBits(|s|);
    assert s[..0] + Zeros(|s|) == Zeros(|s|);
  }

  lemma {:induction false} GatheredAll(v: nat, s: seq<bool>)
    requires Gathered(v, s, |s|)
    ensures v == Number(s)
  {
    assert s[..|s|] + Zeros(0) == s;
    NumberOfBits(v, |s|);
  }

  /** The inner loop of the decoder: gather the bits of one number. */
  method UnpackWord(p: Bytes, bitpos0: nat, bits: nat) returns (v: nat, bitpos: nat)
    requires bitpos0 + bits <= 8 * |p|
    ensures v == Number(ByteStream(p)[bitpos0..bitpos0 + bits]) && bitpos == bitpos0 + bits
  {
    hide Gathered, Number, ByteStream;
    v, bitpos := 0, bitpos0;
    ghost var s := ByteStream(p)[bitpos0..bitpos0 + bits];
    GatherNone(s);
    for b := 0 to bits
      invariant bitpos == bitpos0 + b && Gathered(v, s, b)
    {
      StreamAt(p, bitpos / 8, bitpos % 8);
      assert s[b] == ByteStream(p)[bitpos];
      GatherOne(v, s, b);
      if Bit(p[bitpos / 8], bitpos % 8) {
        v := SetBit(v, b);
      }
      bitpos := bitpos + 1;
    }
    GatheredAll(v, s);
  }

  method DecodeBitpack(b: Bytes) returns (r: Result<seq<u32>>)
    ensures r == BitpackDecode(b)
  {
    if |b| < 16 {
      return Err(Corrupt);
    }
    var n := UnLe(b[..8]);
    var bits := UnLe(b[8..16]);
    if bits == 0 || bits > 32 {
      return Err(Corrupt);
    }
    if 16 + PayloadSize64(n, bits) != |b| {
      return Err(Corrupt);
    }
    if 4 * n > MAX_OBJECT {
      return Err(OutOfMemory);
    }
    NoWrap(n, bits);
    var xs := UnpackAll(b[16..], n, bits);
    return Ok(xs);
  }

  method UnpackAll(p: Bytes, n: nat, bits: nat) returns (xs: seq<u32>)
    requires bits <= 32 && n * bits <= 8 * |p|
    ensures xs == CutWords(ByteStream(p), bits, n)
  {
    hide CutWords, Number, ByteStream, Cut;
    var out := new u32[n];
    ghost var s := ByteStream(p);
    ghost var all := CutWords(s, bits, n);
    var bitpos := 0;
    for i := 0 to n
      invariant bitpos == i * bits
      invariant out[..i] == all[..i]
    {
      WordAt(s, bits, n, i, bitpos);
      var v;
      v, bitpos := UnpackWord(p, bitpos, bits);
      out[i] := v;
    }
    return out[..];
  }

  /** The next number of the stream and the position behind it. */
  lemma {:induction false} WordAt(s: seq<bool>, w: nat, n: nat, i: nat, at: nat)
    requires w <= 32 && n * w <= |s| && i < n && at == i * w
    ensures at + w == (i + 1) * w <= |s| && Number(s[at..at + w]) <= U32_MAX
    ensures CutWords(s, w, n)[i] == Number(s[at..at + w])
  {
    hide Number, Cut, Pow2;
    Steps(i, n, w);
    CutAt(s, w, n, i, at);
    Pow2Monotone(w, 32);
    Pow2Of32();
  }

  lemma {:induction false} CutAt(s: seq<bool>, w: nat, n: nat, i: nat, at: nat)
    requires n * w <= |s| && i < n && at == i * w
    ensures at + w <= n * w
    ensures Cut(s, w, n)[i] == Number(s[at..at + w])
  {
    Steps(i, n, w);
    if i == 0 {
      assert at == 0;
      CutHead(s, w, n);
    } else {
      Steps(i - 1, n, w);
      CutTail(s, w, n, i);
      var before := at - w;
      assert before == (i - 1) * w;
      CutAt(s[w..], w, n - 1, i - 1, before);
      DropSlice(s, w, before, at);
    }
  }

  lemma {:induction false} CutHead(s: seq<bool>, w: nat, n: nat)
    requires n * w <= |s| && n > 0
    ensures w <= n * w && Cut(s, w, n)[0] == Number(s[..w])
  {
    hide Number, Cut;
    Peel(n, w);
    CutCons(s, w, n);
  }

  lemma {:induction false} Peel(n: nat, w: nat)
    requires n > 0
    ensures w <= n * w
  {
    assert (n - 1) * w >= 0;
    assert n * w == (n - 1) * w + w;
  }

  lemma {:induction false} CutTail(s: seq<bool>, w: nat, n: nat, i: nat)
    requires n * w <= |s| && 0 < i < n
    ensures w <= |s| && (n - 1) * w <= |s[w..]|
    ensures Cut(s, w, n)[i] == Cut(s[w..], w, n - 1)[i - 1]
  {
    CutCons(s, w, n);
  }

  lemma {:induction false} DropSlice(s: seq<bool>, d: nat, from: nat, to: nat)
    requires from <= to && d + to <= |s|
    ensures s[d..][from..to] == s[d + from..d + to]
  {
  }
}
