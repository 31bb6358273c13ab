/** fce_codec_encode and fce_codec_decode: src/codecs/fce_codecs.c. */
module Codecs {
  import opened Bytes
  import opened Records
  import opened Words
  import Delta
  import Rle
  import Bitpack

  /** zstd is a foreign library and behaves as in a build without it. */
  datatype Codec = Plain | DeltaI32 | RunLength | BitPacked | UserBytes | Zstd

  predicate PassThrough(c: Codec) {
    c == Plain || c == UserBytes
  }

  function Ints(r: Result<seq<i32>>): Result<Bytes> {
    match r
    case Err(status) => Err(status)
    case Ok(xs) => Ok(WriteInts(xs))
  }

  function EncodeRuns(x: Bytes): Result<Bytes>
    requires |x| % 4 == 0
  {
    if 8 + 2 * |x| > MAX_OBJECT then Err(OutOfMemory) else Ok(WriteInts(Rle.RleEncode(ReadInts(x))))
  }

  function EncodeBits(x: Bytes): Result<Bytes>
    requires |x| % 4 == 0
  {
    var y := Bitpack.BitpackEncode(ReadWords(x));
    if |y| > MAX_OBJECT then Err(OutOfMemory) else Ok(y)
  }

  function Encode(c: Codec, x: Bytes): Result<Bytes> {
    if |x| > MAX_OBJECT then Err(OutOfMemory)
    else if PassThrough(c) then Ok(x)
    else if c == Zstd then Err(Unsupported)
    else if |x| % 4 != 0 then Err(InvalidArgument)
    else if c == DeltaI32 then Ints(Delta.DeltaEncode(ReadInts(x)))
    else if c == RunLength then EncodeRuns(x)
    else EncodeBits(x)
  }

  function Decode(c: Codec, y: Bytes): Result<Bytes> {
    if |y| > MAX_OBJECT then Err(OutOfMemory)
    else if PassThrough(c) then Ok(y)
    else if c == Zstd then Err(Unsupported)
    else if c == BitPacked then
      (match Bitpack.BitpackDecode(y)
       case Err(status) => Err(status)
       case Ok(ws) => Ok(WriteWords(ws)))
    else if |y| % 4 != 0 then Err(Corrupt)
    else if c == DeltaI32 then Ints(Delta.DeltaDecode(ReadInts(y)))
    else Ints(Rle.RleDecode(ReadInts(y)))
  }

  method FceCodecEncode(c: Codec, x: Bytes) returns (r: Result<Bytes>)
    ensures r == Encode(c, x)
  {
    if |x| > MAX_OBJECT {
      return Err(OutOfMemory);
    }
    if PassThrough(c) {
      return Ok(x);
    }
    if c == DeltaI32 {
      if |x| % 4 != 0 { return Err(InvalidArgument); }
      var ds := Delta.EncodeDelta(ReadInts(x));
      return Ints(ds);
    }
    if c == RunLength {
      if |x| % 4 != 0 { return Err(InvalidArgument); }
      if 8 + 2 * |x| > MAX_OBJECT { return Err(OutOfMemory); }
      var ws := Rle.EncodeRle(ReadInts(x));
      return Ok(WriteInts(ws));
    }
    if c == BitPacked {
      if |x| % 4 != 0 { return Err(InvalidArgument); }
      var y := Bitpack.EncodeBitpack(ReadWords(x));
      if |y| > MAX_OBJECT { return Err(OutOfMemory); }
      return Ok(y);
    }
    return Err(Unsupported);
  }

  method FceCodecDecode(c: Codec, y: Bytes) returns (r: Result<Bytes>)
    ensures r == Decode(c, y)
  {
    if |y| > MAX_OBJECT {
      return Err(OutOfMemory);
    }
    if PassThrough(c) {
      return Ok(y);
    }
    if c == DeltaI32 {
      if |y| % 4 != 0 { return Err(Corrupt); }
      var xs := Delta.DecodeDelta(ReadInts(y));
      return Ints(xs);
    }
    if c == RunLength {
      if |y| < 4 || |y| % 4 != 0 { return Err(Corrupt); }
      var ws := ReadInts(y);
      if |ws| % 2 == 0 { return Err(Corrupt); }
      var xs := Rle.DecodeRle(ws);
      return Ints(xs);
    }
    if c == BitPacked {
      var ws := Bitpack.DecodeBitpack(y);
      match ws {
        case Err(status) => return Err(status);
        case Ok(xs) => return Ok(WriteWords(xs));
      }
    }
    return Err(Unsupported);
  }

  // ---- What an encoder accepts ----

  /** Any bytes without a transformation; whole words for rle and bitpack; for delta_i32 whole words whose neighbours
      differ by an int32_t. */
  ghost predicate Accepts(c: Codec, x: Bytes) {
    match c
    case Plain | UserBytes => true
    case DeltaI32 =>
      |x| % 4 == 0 && forall i :: 0 < i < |x| / 4 ==> -0x8000_0000 <= IntIn(x, i) - IntIn(x, i - 1) <= 0x7fff_ffff
    case RunLength | BitPacked => |x| % 4 == 0
    case Zstd => false
  }

  /** An input of at most 2^32 - 1 bytes is encoded exactly when the codec accepts it: a pass-through codec hands it
      back, zstd is unsupported, and everything else that is refused is an invalid argument. */
  lemma {:induction false} EncodeAccepts(c: Codec, x: Bytes)
    requires |x| <= U32_MAX
    ensures Encode(c, x).Ok? <==> Accepts(c, x)
    ensures c == Plain || c == UserBytes ==> Encode(c, x) == Ok(x)
    ensures Encode(c, x).Err? ==> Encode(c, x).status == if c == Zstd then Unsupported else InvalidArgument
  {
    if |x| % 4 == 0 {
      if c == DeltaI32 {
        DeltaAccepts(x);
      } else if c == BitPacked {
        PackedFits(x);
      }
    }
  }

  lemma {:induction false} DeltaAccepts(x: Bytes)
    requires |x| % 4 == 0
    ensures Delta.StepsFit(ReadInts(x)) <==> Accepts(DeltaI32, x)
  {
    var xs := ReadInts(x);
    forall i | 0 < i < |xs| ensures Delta.StepAt(xs, i) == IntIn(x, i) - IntIn(x, i - 1) {
      ReadsWord(x, i - 1);
      ReadsWord(x, i);
    }
    if Accepts(DeltaI32, x) {
      forall i | 0 <= i < |xs| ensures FitsI32(Delta.StepAt(xs, i)) {
        if i > 0 {
          assert -0x8000_0000 <= IntIn(x, i) - IntIn(x, i - 1) <= 0x7fff_ffff;
        }
      }
    }
    if Delta.StepsFit(xs) {
      forall i | 0 < i < |x| / 4 ensures -0x8000_0000 <= IntIn(x, i) - IntIn(x, i - 1) <= 0x7fff_ffff {
        assert FitsI32(Delta.StepAt(xs, i));
      }
    }
  }

  lemma {:induction false} PackedFits(x: Bytes)
    requires |x| % 4 == 0 && |x| <= U32_MAX
    ensures |Bitpack.BitpackEncode(ReadWords(x))| <= MAX_OBJECT
  {
    hide Bitpack.BitpackEncode;
    var ws := ReadWords(x);
    var w := Bitpack.Width(ws);
    Bitpack.LeastWidthIsWidth(ws, w);
    Bitpack.Bounded(|ws|, w, 32);
  }

  /** No encoder more than doubles its input, but for a header. */
  lemma {:induction false} EncodedSize(c: Codec, x: Bytes)
    requires |x| <= U32_MAX && Encode(c, x).Ok?
    ensures |Encode(c, x).value| <= 16 + 2 * |x|
  {
    if c == DeltaI32 {
      DeltaRoundTrip(x, Encode(c, x).value);
    } else if c == RunLength {
      RunLengthRoundTrip(x, Encode(c, x).value);
    } else if c == BitPacked {
      PackedSize(x);
    }
  }

  lemma {:induction false} PackedSize(x: Bytes)
    requires |x| % 4 == 0
    ensures |Bitpack.BitpackEncode(ReadWords(x))| <= 16 + |x|
  {
    hide Bitpack.BitpackEncode;
    var ws := ReadWords(x);
    var w := Bitpack.Width(ws);
    Bitpack.LeastWidthIsWidth(ws, w);
    Bitpack.Bounded(|ws|, w, 32);
  }

  /** The only built-in codec that can lose data: rle on arrays whose count overflows int32_t. */
  predicate Recoverable(c: Codec, x: Bytes) {
    c == RunLength ==> |x| / 4 <= INT32_MAX
  }

  /** What was encoded decodes to itself exactly when the count fits. */
  lemma {:induction false} RoundTrip(c: Codec, x: Bytes)
    requires Encode(c, x).Ok?
    ensures Decode(c, Encode(c, x).value) == Ok(x) <==> Recoverable(c, x)
  {
    var y := Encode(c, x).value;
    if c == DeltaI32 {
      DeltaRoundTrip(x, y);
    } else if c == RunLength {
      RunLengthRoundTrip(x, y);
    } else if c == BitPacked {
      Bitpack.BitpackRoundTrip(ReadWords(x));
      ReadWriteWords(x);
    }
  }

  lemma {:induction false} IntsIs(r: Result<seq<i32>>, x: Bytes)
    requires |x| % 4 == 0
    ensures Ints(r) == Ok(x) <==> r == Ok(ReadInts(x))
  {
    ReadWriteInts(x);
    if r.Ok? {
      WriteReadInts(r.value);
    }
  }

  lemma {:induction false} DeltaRoundTrip(x: Bytes, y: Bytes)
    requires Encode(DeltaI32, x) == Ok(y)
    ensures |y| == |x| && Decode(DeltaI32, y) == Ok(x)
  {
    var ds := Delta.Differences(ReadInts(x));
    Delta.DeltaInverse(ReadInts(x), ds);
    WriteReadInts(ds);
    IntsIs(Delta.DeltaDecode(ds), x);
  }

  lemma {:induction false} RunLengthRoundTrip(x: Bytes, y: Bytes)
    requires Encode(RunLength, x) == Ok(y)
    ensures |y| <= 4 + 2 * |x|
    ensures Decode(RunLength, y) == Ok(x) <==> |x| / 4 <= INT32_MAX
  {
    hide Rle.RleDecode, Rle.Runs, Ints;
    var ws := Rle.RleEncode(ReadInts(x));
    Rle.RleRoundTrip(ReadInts(x));
    WriteReadInts(ws);
    IntsIs(Rle.RleDecode(ws), x);
  }

  /** A codec never decodes its own output to something else: an unrecoverable encoding is refused. */
  lemma {:induction false} NeverDecodesWrong(c: Codec, x: Bytes, z: Bytes)
    requires Encode(c, x).Ok? && Decode(c, Encode(c, x).value) == Ok(z)
    ensures z == x
  {
    RoundTrip(c, x);
    if c == RunLength && |x| / 4 > INT32_MAX {
      RunLengthRefused(x);
    }
  }

  lemma {:induction false} RunLengthRefused(x: Bytes)
    requires Encode(RunLength, x).Ok? && |x| / 4 > INT32_MAX
    ensures Decode(RunLength, Encode(RunLength, x).value).Err?
  {
    var xs := ReadInts(x);
    WriteReadInts(Rle.RleEncode(xs));
    Rle.RleOverflowRefused(xs);
  }

  /** Two inputs with one encoding are one input, even where decoding fails. */
  lemma {:induction false} EncodeInjective(c: Codec, x: Bytes, y: Bytes)
    requires Encode(c, x).Ok? && Encode(c, x) == Encode(c, y)
    ensures x == y
  {
    if c == RunLength {
      var xs, ys := ReadInts(x), ReadInts(y);
      WriteReadInts(Rle.RleEncode(xs));
      WriteReadInts(Rle.RleEncode(ys));
      Rle.RleInjective(xs, ys);
      ReadWriteInts(x);
      ReadWriteInts(y);
    } else {
      RoundTrip(c, x);
      RoundTrip(c, y);
    }
  }

  /** Bitpack output is exactly the header and ceil(n * w / 8) bytes, for the least width w >= 1
      that holds every element. */
  lemma {:induction false} BitPackedSize(x: Bytes, w: nat)
    requires Encode(BitPacked, x).Ok? && Bitpack.LeastWidth(ReadWords(x), w)
    ensures w <= 32 && |Encode(BitPacked, x).value| == 16 + (|x| / 4 * w + 7) / 8
  {
    hide Bitpack.LeastWidth, Bitpack.Width, Bitpack.BitpackEncode;
    var words := ReadWords(x);
    Bitpack.LeastWidthIsWidth(words, w);
    assert |words| == |x| / 4 && Bitpack.PayloadSize(|words|, w) == (|x| / 4 * w + 7) / 8;
    assert Encode(BitPacked, x).value == Bitpack.BitpackEncode(words);
  }

  // ---- A key and a value ----

  /** Both through their codecs; the key's failure is reported first. */
  function EncodePair(keyCodec: Codec, valueCodec: Codec, key: Bytes, value: Bytes): Result<Pair> {
    match Encode(keyCodec, key)
    case Err(status) => Err(status)
    case Ok(k) =>
      match Encode(valueCodec, value)
      case Err(status) => Err(status)
      case Ok(v) => Ok(Pair(k, v))
  }

  method FceEncodePair(keyCodec: Codec, valueCodec: Codec, key: Bytes, value: Bytes) returns (r: Result<Pair>)
    ensures r == EncodePair(keyCodec, valueCodec, key, value)
  {
    var k := FceCodecEncode(keyCodec, key);
    if k.Err? {
      return Err(k.status);
    }
    var v := FceCodecEncode(valueCodec, value);
    if v.Err? {
      return Err(v.status);
    }
    return Ok(Pair(k.value, v.value));
  }
}
