/** When compaction of an index is faithful: the iterator hands out stored key bytes, and the builder encodes them
    once more (src/api/fce_reader_api.c lines 437-441 and 533). */
module CompactionLimits {
  import opened Bytes
  import opened Records
  import opened Words
  import opened Codecs
  import opened Crc
  import opened Log
  import opened Format
  import opened Mph
  import opened Schemas
  import opened Validation
  import opened Reader
  import opened ReaderGet
  import opened Builders
  import opened Compaction
  import opened CompactionLaws
  import opened OneRecord
  import Delta
  import Rle
  import Bitpack

  // ---- Compactions of an index ----

  /** Records put and frozen, the reader on them, and a compaction into another directory with a reader on that. */
  datatype Run = Run(puts: seq<Pair>, encoded: seq<Pair>, dir: Cache, source: OpenReader, target: Schema, dir2: Cache,
                     output: OpenReader, hash: Hasher, sh: SlotHasher)

  ghost predicate Happens(s: Schema, r: Run) {
    && EncodedPuts(s.keyCodec, s.valueCodec, r.puts, r.encoded) && AllSized(s, r.puts)
    && OpenOn(s, r.encoded, r.dir, r.source, r.hash, r.sh)
    && r.target == s.(backend := r.target.backend)
    && Compacted(r.source.cache, r.target, r.dir2, r.output.cache, r.hash, r.sh) && Ready(r.output, r.hash, Crc64)
  }

  /** What a lookup answers before and after the compaction. */
  ghost function Before(s: Schema, r: Run, key: Bytes): Result<Bytes> {
    GetAnswer(r.source.cache.manifest, Served(s, r.encoded), key)
  }

  ghost function After(s: Schema, r: Run, key: Bytes): Result<Bytes>
    requires Happens(s, r)
  {
    GetAnswer(r.output.cache.manifest, Served(r.target, Staging(r.source.cache).value), key)
  }

  /** These are the answers of the two readers. */
  lemma {:induction false} AnswersAreServed(s: Schema, r: Run)
    requires Happens(s, r)
    ensures Serves(r.source, Served(s, r.encoded), r.hash, r.sh, Crc64)
    ensures Serves(r.output, Served(r.target, Staging(r.source.cache).value), r.hash, r.sh, Crc64)
  {
    hide Opens, Ready, Readable, Frozen, Freezable, Staging, Serves, EncodedPuts, SameMap;
    OpenServes(s, r.encoded, r.dir, r.source, r.hash, r.sh);
    FrozenIsServed(r.target, Staging(r.source.cache).value, r.dir2, r.output, r.hash, r.sh);
  }

  /** A key that a lookup under both backends accepts. */
  predicate Askable(s: Schema, t: Schema, key: Bytes) {
    s.backend == DirectBackend || t.backend == DirectBackend ==> |key| == 8
  }

  ghost predicate Keeps(s: Schema, r: Run, key: Bytes) {
    Happens(s, r) && Askable(s, r.target, key) ==> After(s, r, key) == Before(s, r, key)
  }

  /** Every compaction from this schema that succeeds keeps every answer. */
  ghost predicate Faithful(s: Schema) {
    forall r: Run, key: Bytes :: Keeps(s, r, key)
  }

  /** A key and a value that can be put and frozen, and as they are stored can be put and frozen again, but then
      under another stored key. */
  ghost predicate LosesKey(s: Schema, key: Bytes, value: Bytes) {
    && PutAnswer(s, 0, key, value).Ok?
    && var p := PutAnswer(s, 0, key, value).value;
    && Fits32(p) && Restaged(s, SortedBackend, 0, p).Ok?
    && var q := Restaged(s, SortedBackend, 0, p).value;
    Fits32(q) && q.key != p.key
  }

  // ---- Nothing to lose: the records that are read are the records that are staged ----

  /** What a freeze accepted fits 32 bits. */
  lemma {:induction false} FrozenFits(s: Schema, puts: seq<Pair>, p: Pair, hash: Hasher, sh: SlotHasher)
    requires Freezable(s, puts, hash, sh) && s.backend != LogBackend && LastPut(puts, p.key) == Some(p.value)
    ensures Fits32(p)
  {
    SurvivorsKeepTheMap(puts);
    LastPutWasPut(Survivors(puts), p.key);
  }

  /** And so does what an open reader serves. */
  lemma {:induction false} ServedFits(t: Schema, staged: seq<Pair>, dir: Cache, output: OpenReader, hash: Hasher,
                                      sh: SlotHasher, i: nat)
    requires Freezable(t, staged, hash, sh) && Frozen(t, staged, dir, output.cache, hash, sh)
    requires Ready(output, hash, Crc64) && DistinctKeys(staged) && i < |staged|
    ensures Fits32(staged[i])
  {
    if t.backend == LogBackend {
      LogRoundTrip(staged, Crc64, output.cache.log);
    } else {
      LastPutAt(staged, i);
      FrozenFits(t, staged, staged[i], hash, sh);
    }
  }

  /** A stored record is one of the puts. */
  lemma {:induction false} StoredWasPut(s: Schema, puts: seq<Pair>, encoded: seq<Pair>, p: Pair) returns (put: Pair)
    requires EncodedPuts(s.keyCodec, s.valueCodec, puts, encoded) && AllSized(s, puts)
    requires LastPut(encoded, p.key) == Some(p.value)
    ensures PutAnswer(s, 0, put.key, put.value) == Ok(p) && ByEncoder(s, p)
  {
    hide EncodePair;
    LastPutWasPut(encoded, p.key);
    var j :| 0 <= j < |encoded| && encoded[j] == p;
    put := puts[j];
    assert EncodePair(s.keyCodec, s.valueCodec, put.key, put.value) == Ok(p);
  }

  /** One record is staged as it is stored, unless its key is lost. */
  lemma {:induction false} RecordIsKept(s: Schema, put: Pair, p: Pair, q: Pair)
    requires s.backend != LogBackend && !LosesKey(s, put.key, put.value)
    requires PutAnswer(s, 0, put.key, put.value) == Ok(p) && ByEncoder(s, p) && Fits32(p)
    requires Takes(s, s.backend, p) && Translator(s, s.backend)(p) == Ok(q) && Fits32(q)
    ensures q == p
  {
    hide EncodePair, Encode, Decode, ByEncoder, PutAnswer;
    TakesOne(s, s.backend, 0, p);
    assert Restaged(s, SortedBackend, 0, p) == Restaged(s, s.backend, 0, p);
    IndexRecordKeepsValue(s, s.backend, p, q);
  }

  lemma {:induction false} StagedKeysDiffer(s: Schema, recs: seq<Pair>, staged: seq<Pair>)
    requires s.backend != LogBackend && DistinctKeys(recs) && AllEncoded(s, recs)
    requires Translated(s, s.backend, recs, staged)
    ensures DistinctKeys(staged)
  {
    hide Translator, Encode, ByEncoder;
    forall i, j | 0 <= i < j < |staged| ensures staged[i].key != staged[j].key {
      assert recs[i] in recs && recs[j] in recs;
      IndexRecordKeepsValue(s, s.backend, recs[i], staged[i]);
      IndexRecordKeepsValue(s, s.backend, recs[j], staged[j]);
      if staged[i].key == staged[j].key {
        EncodeInjective(s.keyCodec, recs[i].key, recs[j].key);
      }
    }
  }

  ghost predicate NothingIsLost(s: Schema) {
    forall key, value :: !LosesKey(s, key, value)
  }

  lemma {:induction false} NothingLostNothingChanged(s: Schema, r: Run)
    requires SchemaOk(s) && s.backend != LogBackend && NothingIsLost(s) && Happens(s, r)
    ensures Staging(r.source.cache).value == SourceRecords(r.source.cache)
  {
    hide Opens, Ready, Readable, Frozen, Freezable, SourceRecords, Restaging, LosesKey, Takes, Translator, SchemaOk,
      EncodedPuts, AllEncoded;
    var recs, staged := SourceRecords(r.source.cache), Staging(r.source.cache).value;
    IndexSource(s, r.encoded, r.dir, r.source.cache, r.hash, r.sh);
    IndexSourceIsEncoded(s, r.puts, r.encoded, recs);
    RestagingIff(s, s.backend, recs);
    StagedKeysDiffer(s, recs, staged);
    forall i | 0 <= i < |recs| ensures staged[i] == recs[i] {
      LastPutAt(recs, i);
      var put := StoredWasPut(s, r.puts, r.encoded, recs[i]);
      FrozenFits(s, r.encoded, recs[i], r.hash, r.sh);
      ServedFits(r.target, staged, r.dir2, r.output, r.hash, r.sh, i);
      RecordIsKept(s, put, recs[i], staged[i]);
    }
  }

  lemma {:induction false} NothingLostIsFaithful(s: Schema, r: Run, key: Bytes)
    requires SchemaOk(s) && s.backend != LogBackend && NothingIsLost(s)
    ensures Keeps(s, r, key)
  {
    hide Opens, Ready, Readable, Frozen, Freezable, SourceRecords, Staging, NothingIsLost, SchemaOk, EncodedPuts,
      GetAnswer, Serves;
    if Happens(s, r) && Askable(s, r.target, key) {
      NothingLostNothingChanged(s, r);
      OpenServes(s, r.encoded, r.dir, r.source, r.hash, r.sh);
      SameStagingSameGets(r.source, Served(s, r.encoded), r.target, r.dir2, r.output, r.hash, r.sh, key);
    }
  }

  // ---- Something to lose: a run that loses it ----

  /** Only a transforming key codec changes a stored key, and only two backends take one. */
  lemma {:induction false} LosingSchema(s: Schema, key: Bytes, value: Bytes)
    requires SchemaOk(s) && s.backend != LogBackend && LosesKey(s, key, value)
    ensures Hashed(s) && !PassThrough(s.keyCodec)
  {
    hide LosesKey;
    if PassThrough(s.keyCodec) {
      PlainKeyIsKept(s, key, value);
    }
  }

  lemma {:induction false} PlainKeyIsKept(s: Schema, key: Bytes, value: Bytes)
    requires PassThrough(s.keyCodec)
    ensures !LosesKey(s, key, value)
  {
    hide Decode, Recoverable, ReadValue;
    forall p: Pair | Encode(s.keyCodec, p.key).Ok? ensures Encode(s.keyCodec, p.key) == Ok(p.key) {
      PassThroughIsIdentity(s.keyCodec, p.key);
    }
  }

  lemma {:induction false} ValueIsReadBack(s: Schema, key: Bytes, value: Bytes)
    requires LosesKey(s, key, value)
    ensures ReadValue(s.valueCodec, PutAnswer(s, 0, key, value).value.value) == Ok(value)
  {
    hide Encode, Decode, Recoverable;
    DecodesIffRecoverable(s.valueCodec, value, PutAnswer(s, 0, key, value).value.value);
  }

  lemma {:induction false} OneIsRead(s: Schema, p: Pair, dir: Cache, c: Cache, hash: Hasher, sh: SlotHasher)
    requires Hashed(s) && Fits32(p) && Frozen(s, [p], dir, c, hash, sh) && Opens(c, Crc64) && Readable(c)
    ensures c.manifest.schema == s && SourceRecords(c) == [p]
  {
    hide Frozen, Opens, Readable, Freezable, SourceRecords, SameMap;
    OneIsFreezable(s, p, hash, sh);
    IndexSource(s, [p], dir, c, hash, sh);
    OnlyListing(SourceRecords(c), p);
  }

  lemma {:induction false} OnlyListing(recs: seq<Pair>, p: Pair)
    requires SameMap(recs, [p]) && |recs| <= 1
    ensures recs == [p]
  {
    LastPutAt([p], 0);
    LastPutWasPut(recs, p.key);
  }

  lemma {:induction false} OneIsStaged(s: Schema, p: Pair, q: Pair, dir: Cache, c: Cache, hash: Hasher, sh: SlotHasher)
    requires Hashed(s) && Fits32(p) && Fits32(q) && Frozen(s, [p], dir, c, hash, sh) && Opens(c, Crc64)
    requires Restaged(s, SortedBackend, 0, p) == Ok(q)
    ensures Readable(c) && Staging(c) == Ok([q]) && Compacts(c, s, hash, sh)
  {
    hide Frozen, Opens, Readable, SourceRecords, Restaged, Freezable;
    OpensIsReadable(c);
    OpensSchema(c);
    OneIsRead(s, p, dir, c, hash, sh);
    assert [p][..0] == [] && Restaging(s, s.backend, []) == Ok([]);
    OneRestaged(s, p);
    assert [] + [q] == [q];
    OneIsFreezable(s, q, hash, sh);
  }

  lemma {:induction false} OneRestaged(s: Schema, p: Pair)
    requires s.backend != LogBackend
    ensures Restaged(s, s.backend, 0, p) == Restaged(s, SortedBackend, 0, p)
  {
  }

  lemma {:induction false} OneAnswers(m: Manifest, n: Manifest, s: Schema, key: Bytes, value: Bytes)
    requires m.schema == n.schema == s && Hashed(s) && LosesKey(s, key, value) && !PassThrough(s.keyCodec)
    ensures var p := PutAnswer(s, 0, key, value).value;
      && GetAnswer(m, [p], key) == Ok(value)
      && GetAnswer(n, [Restaged(s, SortedBackend, 0, p).value], key) == Err(NotFound)
  {
    hide Encode, Decode, Restaged, ReadValue;
    var p := PutAnswer(s, 0, key, value).value;
    ValueIsReadBack(s, key, value);
    LastPutAt([p], 0);
    LastPutNone([Restaged(s, SortedBackend, 0, p).value], p.key);
  }

  function EmptyDirectory(s: Schema): Cache {
    Cache(Manifest(s, 0, UNSTAMPED, UNSTAMPED, UNSTAMPED, UNSTAMPED), [], [], [], [])
  }

  /** Such a key, put, frozen and compacted, is lost: there is a run whose source answers it and whose output does
      not know it, under any hash functions. */
  lemma {:induction false} CompactionLosesTheKey(s: Schema, key: Bytes, value: Bytes, hash: Hasher, sh: SlotHasher)
    returns (r: Run)
    requires SchemaOk(s) && s.backend != LogBackend && LosesKey(s, key, value)
    ensures Happens(s, r) && Askable(s, r.target, key)
    ensures Before(s, r, key) == Ok(value) && After(s, r, key) == Err(NotFound)
  {
    hide Opens, Readable, Frozen, Freezable, Staging, LosesKey, SchemaOk, GetAnswer, Restaged, PutAnswer;
    LosingSchema(s, key, value);
    var p, q := LostForms(s, key, value);
    var empty := EmptyDirectory(s);
    var src := OneDirectory(s, p, empty, hash, sh);
    var out := OneDirectory(s, q, empty, hash, sh);
    OneIsStaged(s, p, q, empty, src, hash, sh);
    OneIsOpen(s, p, empty, src, hash, sh);
    OneIsOpen(s, q, empty, out, hash, sh);
    OnePut(s, key, value, p);
    r := Run([Pair(key, value)], [p], empty, OpenReader(src, []), s, empty, OpenReader(out, []), hash, sh);
    OneSurvivor(p);
    OneSurvivor(q);
    OneAnswers(src.manifest, out.manifest, s, key, value);
  }

  /** The two stored forms. */
  lemma {:induction false} LostForms(s: Schema, key: Bytes, value: Bytes) returns (p: Pair, q: Pair)
    requires LosesKey(s, key, value)
    ensures PutAnswer(s, 0, key, value) == Ok(p) && Restaged(s, SortedBackend, 0, p) == Ok(q)
    ensures Fits32(p) && Fits32(q) && q.key != p.key
  {
    p := PutAnswer(s, 0, key, value).value;
    q := Restaged(s, SortedBackend, 0, p).value;
  }

  lemma {:induction false} OnePut(s: Schema, key: Bytes, value: Bytes, p: Pair)
    requires PutAnswer(s, 0, key, value) == Ok(p)
    ensures EncodedPuts(s.keyCodec, s.valueCodec, [Pair(key, value)], [p]) && AllSized(s, [Pair(key, value)])
    ensures Sized(s, key, value) && EncodePair(s.keyCodec, s.valueCodec, key, value) == Ok(p)
  {
  }

  lemma {:induction false} OneIsOpen(s: Schema, p: Pair, dir: Cache, c: Cache, hash: Hasher, sh: SlotHasher)
    requires SchemaOk(s) && Hashed(s) && Fits32(p) && Frozen(s, [p], dir, c, hash, sh) && Opens(c, Crc64)
    ensures OpenOn(s, [p], dir, OpenReader(c, []), hash, sh) && Ready(OpenReader(c, []), hash, Crc64)
    ensures c.manifest.schema == s
  {
    hide Freezable, Intact, StructureOk, Image;
    OneIsFreezable(s, p, hash, sh);
  }

  /** Compaction of an index keeps every answer, whenever it succeeds, exactly when no key and value of the fixed
      sizes can be put and put again as stored with the stored key changed. */
  lemma {:induction false} IndexCompactionIsFaithfulIff(s: Schema)
    requires SchemaOk(s) && s.backend != LogBackend
    ensures Faithful(s) <==> forall key, value :: !LosesKey(s, key, value)
  {
    hide Happens, LosesKey, SchemaOk;
    if NothingIsLost(s) {
      forall r: Run, key: Bytes ensures Keeps(s, r, key) {
        NothingLostIsFaithful(s, r, key);
      }
    }
    if key, value :| LosesKey(s, key, value) {
      var r := CompactionLosesTheKey(s, key, value, _ => Hash128(0, 0), (_, _) => 0);
      assert !Keeps(s, r, key);
    }
  }

  // ---- The guard in terms of the codecs ----

  /** A key whose encoding has a different encoding. */
  ghost predicate EncodesAgain(c: Codec, key: Bytes) {
    && Encode(c, key).Ok? && Encode(c, Encode(c, key).value).Ok?
    && Encode(c, Encode(c, key).value).value != Encode(c, key).value
  }

  /** Both encodings are small. */
  ghost predicate SmallTwice(c: Codec, key: Bytes) {
    && Encode(c, key).Ok? && |Encode(c, key).value| <= 64 && Encode(c, Encode(c, key).value).Ok?
    && |Encode(c, Encode(c, key).value).value| <= 64
  }

  lemma {:induction false} DeltaOf(xs: seq<i32>, ds: seq<i32>)
    requires |xs| == |ds| && |WriteInts(xs)| <= MAX_OBJECT
    requires forall i :: 0 <= i < |xs| ==> ds[i] as int == Delta.StepAt(xs, i)
    ensures Encode(DeltaI32, WriteInts(xs)) == Ok(WriteInts(ds))
  {
    WriteReadInts(xs);
    assert Delta.StepsFit(xs) && Delta.Differences(xs) == ds;
  }

  /** delta_i32: [1, 1, ..., 1], [1, 0, ..., 0], [1, -1, 0, ..., 0]. */
  lemma {:induction false} OnesEncodeAgain(n: nat) returns (key: Bytes)
    requires 2 <= n && 4 * n <= U32_MAX
    ensures |key| == 4 * n && EncodesAgain(DeltaI32, key)
    ensures |Encode(DeltaI32, key).value| == |Encode(DeltaI32, Encode(DeltaI32, key).value).value| == 4 * n
  {
    var a: seq<i32> := seq(n, i => 1);
    var b: seq<i32> := seq(n, i => if i == 0 then 1 else 0);
    var c: seq<i32> := seq(n, i => if i == 0 then 1 else if i == 1 then -1 else 0);
    DeltaOf(a, b);
    DeltaOf(b, c);
    WriteReadInts(b);
    WriteReadInts(c);
    assert b[1] != c[1];
    key := WriteInts(a);
  }

  /** rle: the empty key becomes a count word, which becomes a count word and a run. */
  lemma {:induction false} RunLengthEncodesAgain()
    ensures EncodesAgain(RunLength, []) && SmallTwice(RunLength, [])
  {
    var none: seq<i32> := ReadInts([]);
    assert Rle.Runs(none) == [];
    var k := WriteInts(Rle.RleEncode(none));
    assert Encode(RunLength, []) == Ok(k) && |k| == 4;
    assert |Rle.RleEncode(ReadInts(k))| >= 3;
  }

  lemma {:induction false} SmallPack(x: Bytes) returns (w: nat)
    requires |x| % 4 == 0 && |x| <= 16
    ensures 1 <= w <= 32 && Encode(BitPacked, x).Ok? && |Encode(BitPacked, x).value| == 16 + (|x| / 4 * w + 7) / 8
  {
    hide Bitpack.BitpackEncode, Bitpack.Significant, Bitpack.Max, Bitpack.LeastWidth;
    var words := ReadWords(x);
    w := Bitpack.Width(words);
    Bitpack.LeastWidthIsWidth(words, w);
    Bitpack.WidthIsPositive(words);
    assert |words| <= 4 && |words| * w <= 4 * w;
  }

  /** bitpack: a header of 16 bytes packs to more than 16. */
  lemma {:induction false} BitPackedEncodesAgain()
    ensures EncodesAgain(BitPacked, []) && SmallTwice(BitPacked, [])
  {
    hide Encode;
    var w := SmallPack([]);
    var k := Encode(BitPacked, []).value;
    assert |k| == 16;
    var w2 := SmallPack(k);
    assert |k| / 4 * w2 == 4 * w2;
  }

  lemma {:induction false} EmptyValue(vc: Codec) returns (v: Bytes)
    requires vc != Zstd
    ensures Encode(vc, []) == Ok(v) && ReadValue(vc, v) == Ok([]) && |v| <= 64
  {
    if vc == BitPacked {
      var w := SmallPack([]);
    }
    v := Encode(vc, []).value;
    RoundTrip(vc, []);
  }

  lemma {:induction false} KeyThatEncodesAgain(c: Codec) returns (key: Bytes)
    requires !PassThrough(c) && c != Zstd
    ensures EncodesAgain(c, key)
    ensures SmallTwice(c, key)
  {
    if c == DeltaI32 {
      key := OnesEncodeAgain(2);
    } else {
      key := [];
      if c == RunLength { RunLengthEncodesAgain(); } else { BitPackedEncodesAgain(); }
    }
  }

  /** A value that can be stored and read again. */
  ghost predicate StoresValue(s: Schema, value: Bytes) {
    && (s.fixedValueSize != 0 ==> |value| == s.fixedValueSize)
    && Encode(s.valueCodec, value).Ok? && |Encode(s.valueCodec, value).value| <= U32_MAX
    && Recoverable(s.valueCodec, value)
  }

  lemma {:induction false} LosingNeedsValue(s: Schema, key: Bytes, value: Bytes)
    requires LosesKey(s, key, value)
    ensures StoresValue(s, value) && s.keyCodec != Zstd
  {
    hide Decode, Recoverable;
    DecodesIffRecoverable(s.valueCodec, value, Encode(s.valueCodec, value).value);
  }

  lemma {:induction false} ValueAndKeyLose(s: Schema, key: Bytes, value: Bytes)
    requires s.fixedKeySize == 0 && StoresValue(s, value)
    requires EncodesAgain(s.keyCodec, key) && SmallTwice(s.keyCodec, key)
    ensures LosesKey(s, key, value)
  {
    hide Encode, Decode, Recoverable;
    DecodesIffRecoverable(s.valueCodec, value, Encode(s.valueCodec, value).value);
  }

  /** Without a fixed key size compaction of an index is faithful exactly under a pass-through key codec, unless the
      schema cannot store anything at all. */
  lemma {:induction false} CodecGuard(s: Schema)
    requires SchemaOk(s) && s.backend != LogBackend && s.fixedKeySize == 0
    ensures Faithful(s) <==>
      PassThrough(s.keyCodec) || s.keyCodec == Zstd || forall value :: !StoresValue(s, value)
  {
    hide Faithful, LosesKey, StoresValue, SchemaOk;
    IndexCompactionIsFaithfulIff(s);
    if key, value :| LosesKey(s, key, value) {
      LosingSchema(s, key, value);
      LosingNeedsValue(s, key, value);
    }
    if !PassThrough(s.keyCodec) && s.keyCodec != Zstd {
      var key := KeyThatEncodesAgain(s.keyCodec);
      if value :| StoresValue(s, value) {
        ValueAndKeyLose(s, key, value);
      }
    }
  }

  predicate Lossless(s: Schema) {
    PassThrough(s.keyCodec) || s.keyCodec == Zstd || s.valueCodec == Zstd
  }

  /** Every index schema with a transforming key codec and without fixed sizes loses some key. */
  lemma {:induction false} LosingInputExists(s: Schema) returns (key: Bytes)
    requires !Lossless(s) && s.fixedKeySize == 0 && s.fixedValueSize == 0
    ensures LosesKey(s, key, [])
  {
    hide Encode, Decode, LosesKey;
    key := KeyThatEncodesAgain(s.keyCodec);
    var v := EmptyValue(s.valueCodec);
    ValueAndKeyLose(s, key, []);
  }

  /** Without fixed sizes the codecs alone decide. */
  lemma {:induction false} WithoutFixedSizes(s: Schema)
    requires SchemaOk(s) && s.backend != LogBackend && s.fixedKeySize == 0 && s.fixedValueSize == 0
    ensures Faithful(s) <==> Lossless(s)
  {
    hide Faithful, LosesKey, SchemaOk;
    CodecGuard(s);
    if s.valueCodec == Zstd {
      forall value ensures !StoresValue(s, value) {
      }
    } else {
      var v := EmptyValue(s.valueCodec);
      assert StoresValue(s, []);
    }
  }

  // ---- A fixed key size can save a transforming codec ----

  /** A key of four bytes is its own difference, and rle and bitpack make it longer than the schema allows. */
  lemma {:induction false} OneWordEncodes(c: Codec, key: Bytes)
    requires |key| == 4 && Encode(c, key).Ok?
    ensures Encode(c, key) == Ok(key) || |Encode(c, key).value| > 4
  {
    if c == DeltaI32 {
      OneWordDelta(key);
    } else if c == RunLength {
      OneWordRun(key);
    } else if c == BitPacked {
      var w := SmallPack(key);
    }
  }

  lemma {:induction false} OneWordDelta(key: Bytes)
    requires |key| == 4
    ensures Encode(DeltaI32, key) == Ok(key)
  {
    var xs := ReadInts(key);
    assert |xs| == 1;
    assert Delta.StepAt(xs, 0) == xs[0];
    assert Delta.StepsFit(xs) && Delta.Differences(xs) == xs;
    ReadWriteInts(key);
  }

  lemma {:induction false} OneWordRun(key: Bytes)
    requires |key| == 4
    ensures Encode(RunLength, key).Ok? && |Encode(RunLength, key).value| > 4
  {
    assert |Rle.RleEncode(ReadInts(key))| >= 3;
  }

  /** With keys of four bytes compaction is faithful under every codec. */
  lemma {:induction false} OneWordKeysAreKept(s: Schema)
    requires SchemaOk(s) && s.backend != LogBackend && s.fixedKeySize == 4
    ensures Faithful(s)
  {
    hide Faithful, Encode, Decode, SchemaOk;
    IndexCompactionIsFaithfulIff(s);
    forall key, value ensures !LosesKey(s, key, value) {
      if LosesKey(s, key, value) {
        OneWordEncodes(s.keyCodec, key);
      }
    }
  }

  /** Under delta_i32 a fixed key size saves the keys exactly when no key has it or keys are one word long. */
  lemma {:induction false} DeltaGuard(s: Schema, value: Bytes)
    requires SchemaOk(s) && s.backend != LogBackend && s.keyCodec == DeltaI32 && s.fixedKeySize != 0
    requires StoresValue(s, value)
    ensures Faithful(s) <==> s.fixedKeySize % 4 != 0 || s.fixedKeySize == 4
  {
    hide Faithful, LosesKey, StoresValue, SchemaOk;
    IndexCompactionIsFaithfulIff(s);
    if s.fixedKeySize == 4 {
      OneWordKeysAreKept(s);
    } else if s.fixedKeySize % 4 != 0 {
      forall key, other ensures !LosesKey(s, key, other) {
        RaggedKeysAreRefused(s, key, other);
      }
    } else {
      var key := OnesEncodeAgain(s.fixedKeySize / 4);
      SizedKeyLoses(s, key, value);
    }
  }

  lemma {:induction false} RaggedKeysAreRefused(s: Schema, key: Bytes, value: Bytes)
    requires s.keyCodec == DeltaI32 && s.fixedKeySize % 4 != 0
    ensures !LosesKey(s, key, value)
  {
    hide Restaged, Encode, Fits32;
    if |key| == s.fixedKeySize {
      RaggedIsRefused(key);
    }
  }

  lemma {:induction false} RaggedIsRefused(x: Bytes)
    requires |x| % 4 != 0
    ensures Encode(DeltaI32, x).Err?
  {
    hide Delta.DeltaEncode;
  }

  lemma {:induction false} SizedKeyLoses(s: Schema, key: Bytes, value: Bytes)
    requires s.keyCodec == DeltaI32 && StoresValue(s, value) && |key| == s.fixedKeySize && EncodesAgain(DeltaI32, key)
    requires |Encode(DeltaI32, key).value| == |Encode(DeltaI32, Encode(DeltaI32, key).value).value| == |key|
    ensures LosesKey(s, key, value)
  {
    hide Encode, Decode, Recoverable;
    DecodesIffRecoverable(s.valueCodec, value, Encode(s.valueCodec, value).value);
  }

  // ---- The loss as a lookup sees it ----

  /** One put, a freeze and a compaction from one directory into another: the source answers the key, the output
      does not know it. */
  method CompactAndLose(s: Schema, key: Bytes, value: Bytes, hash: Hasher, sh: SlotHasher)
    returns (before: Result<Bytes>, after: Result<Bytes>)
    requires SchemaOk(s) && s.backend != LogBackend && LosesKey(s, key, value)
    ensures before == Ok(value) && after == Err(NotFound)
  {
    hide SchemaOk, LosesKey, PutAnswer, Restaged, Frozen, Opens, Ready, Readable, Staging, Freezable, Compacts,
      Serves, GetAnswer, Served;
    LosingSchema(s, key, value);
    ghost var p, q := LostForms(s, key, value);
    var empty := EmptyDirectory(s);
    var src := FreezeOne(s, key, value, p, empty, hash, sh);
    OneOpens(s, p, empty, src, hash, sh);
    before := GetOne(src, s, p, empty, key, hash, sh);
    OneIsStaged(s, p, q, empty, src, hash, sh);
    OneIsCounted(s, p, empty, src, hash, sh);
    assert s.(backend := s.backend) == s;
    var out := Compact(src, s.backend, empty, hash, sh);
    OneOpens(s, q, empty, out.value, hash, sh);
    after := GetOne(out.value, s, q, empty, key, hash, sh);
    OneAnswers(src.manifest, out.value.manifest, s, key, value);
  }

  lemma {:induction false} OneIsCounted(s: Schema, p: Pair, dir: Cache, c: Cache, hash: Hasher, sh: SlotHasher)
    requires Hashed(s) && Fits32(p) && Frozen(s, [p], dir, c, hash, sh) && Opens(c, Crc64) && Readable(c)
    ensures c.manifest.count == 1
  {
    hide Frozen, Opens, Readable, SourceRecords;
    OneIsRead(s, p, dir, c, hash, sh);
    SourceCount(c);
  }

  method FreezeOne(s: Schema, key: Bytes, value: Bytes, ghost p: Pair, dir: Cache, hash: Hasher, sh: SlotHasher)
    returns (c: Cache)
    requires SchemaOk(s) && Hashed(s) && Fits32(p) && PutAnswer(s, 0, key, value) == Ok(p)
    ensures Frozen(s, [p], dir, c, hash, sh)
  {
    hide EncodePair, Frozen, Freezable, FreezeStatus, SchemaOk;
    var b := new Builder(s);
    var put := b.Put(key, value);
    OnePut(s, key, value, p);
    assert Pairs(b.Staged()) == [p];
    OneIsFreezable(s, p, hash, sh);
    OneSurvivor(p);
    var r := b.Freeze(dir, hash, sh);
    c := r.value;
  }

  method GetOne(c: Cache, s: Schema, ghost p: Pair, ghost dir: Cache, key: Bytes, hash: Hasher, sh: SlotHasher)
    returns (v: Result<Bytes>)
    requires Hashed(s) && Fits32(p) && Frozen(s, [p], dir, c, hash, sh)
    requires Opens(c, Crc64) && |c.index| <= MAX_FILE
    ensures v == GetAnswer(c.manifest, [p], key)
  {
    hide Encode, Frozen, Freezable, Ready, Opens, Serves, GetAnswer;
    var r := Open(c, hash);
    OneIsFreezable(s, p, hash, sh);
    OneSurvivor(p);
    FrozenIsServed(s, [p], dir, r.value, hash, sh);
    v := FceReaderGet(r.value, key, hash, sh, Crc64, [p]);
  }
}
