/** What compaction preserves and when it succeeds: src/api/fce_reader_api.c lines 492-542. */
module CompactionLaws {
  import opened Bytes
  import opened Records
  import opened Format
  import opened Codecs
  import opened Log
  import opened Crc
  import opened Schemas
  import opened Validation
  import opened Reader
  import opened ReaderGet
  import opened Scans
  import opened Builders
  import opened Compaction
  import opened Mph

  // ---- Records as the library writes them ----

  /** Both parts went through their codecs. */
  ghost predicate AllEncoded(s: Schema, recs: seq<Pair>) {
    forall p :: p in recs ==> ByEncoder(s, p)
  }

  ghost predicate ByEncoder(s: Schema, p: Pair) {
    exists key, value :: EncodePair(s.keyCodec, s.valueCodec, key, value) == Ok(p)
  }

  lemma {:induction false} LogRecordUnchanged(s: Schema, p: Pair, q: Pair)
    requires ByEncoder(s, p) && Translator(s, LogBackend)(p) == Ok(q)
    ensures q == p
  {
    hide Encode, Decode;
    var key, value :| EncodePair(s.keyCodec, s.valueCodec, key, value) == Ok(p);
    NeverDecodesWrong(s.keyCodec, key, Decode(s.keyCodec, p.key).value);
    NeverDecodesWrong(s.valueCodec, value, Decode(s.valueCodec, p.value).value);
  }

  lemma {:induction false} IndexRecordKeepsValue(s: Schema, source: Backend, p: Pair, q: Pair)
    requires source != LogBackend && ByEncoder(s, p) && Translator(s, source)(p) == Ok(q)
    ensures q.value == p.value && Encode(s.keyCodec, p.key) == Ok(q.key)
  {
    hide Encode, Decode;
    var key, value :| EncodePair(s.keyCodec, s.valueCodec, key, value) == Ok(p);
    if !PassThrough(s.valueCodec) {
      NeverDecodesWrong(s.valueCodec, value, Decode(s.valueCodec, p.value).value);
    } else {
      PassThroughIsIdentity(s.valueCodec, value);
    }
  }

  lemma {:induction false} PassThroughIsIdentity(c: Codec, x: Bytes)
    requires PassThrough(c) && Encode(c, x).Ok?
    ensures Encode(c, x) == Ok(x) && Decode(c, x) == Ok(x)
  {
  }

  /** A compaction stages the very records it reads, unless it encodes already encoded keys again. */
  lemma {:induction false} StagedIsSource(s: Schema, source: Backend, recs: seq<Pair>, staged: seq<Pair>)
    requires AllEncoded(s, recs) && Translated(s, source, recs, staged)
    requires source == LogBackend || PassThrough(s.keyCodec)
    ensures staged == recs
  {
    hide Translator, ByEncoder, Encode;
    forall i | 0 <= i < |recs| ensures staged[i] == recs[i] {
      assert recs[i] in recs;
      if source == LogBackend {
        LogRecordUnchanged(s, recs[i], staged[i]);
      } else {
        IndexRecordKeepsValue(s, source, recs[i], staged[i]);
        PassThroughIsIdentity(s.keyCodec, recs[i].key);
      }
    }
  }

  /** The compactions that cannot lose anything: any log, and any index with a pass-through key codec. */
  predicate Plain(s: Schema) {
    s.backend == LogBackend || PassThrough(s.keyCodec)
  }

  lemma {:induction false} StagingIsSource(c: Cache)
    requires Readable(c) && Plain(c.manifest.schema) && AllEncoded(c.manifest.schema, SourceRecords(c))
    requires Staging(c).Ok?
    ensures Staging(c).value == SourceRecords(c)
  {
    hide Readable, AllEncoded, SourceRecords, Restaging;
    var s := c.manifest.schema;
    RestagingIff(s, s.backend, SourceRecords(c));
    StagedIsSource(s, s.backend, SourceRecords(c), Staging(c).value);
  }

  // ---- What a compaction reads is what the source serves ----

  lemma {:induction false} SourceIsServed(r: OpenReader, recs: seq<Pair>, hash: Hasher, sh: SlotHasher)
    requires Readable(r.cache) && Serves(r, recs, hash, sh, Crc64)
    ensures SameMap(SourceRecords(r.cache), recs)
    ensures forall p :: p in SourceRecords(r.cache) ==> p in recs
  {
    if r.cache.manifest.schema.backend != LogBackend {
      TableIsServed(OpenReader(r.cache, []), recs, hash, sh);
    }
  }

  lemma {:induction false} TableIsServed(r: OpenReader, recs: seq<Pair>, hash: Hasher, sh: SlotHasher)
    requires StructureOk(r.cache) && r.cache.manifest.schema.backend != LogBackend && Serves(r, recs, hash, sh, Crc64)
    ensures SameMap(TableRecords(r), recs) && SameRecords(TableRecords(r), recs)
  {
    hide StructureOk, Image, Cells, Listing;
    FullScanFindsAll(r, recs, hash, sh, Crc64);
    ServedIsDistinct(r, recs, hash, sh);
    PermutationSameMap(TableRecords(r), recs);
  }

  lemma {:induction false} ServedIsDistinct(r: OpenReader, recs: seq<Pair>, hash: Hasher, sh: SlotHasher)
    requires r.cache.manifest.schema.backend != LogBackend && Serves(r, recs, hash, sh, Crc64)
    ensures DistinctKeys(recs)
  {
    if r.cache.manifest.schema.backend == RadixBackend {
      IncreasingIsDistinct(recs);
    }
  }

  // ---- Compaction preserves meaning ----

  /** Whenever a compaction succeeds on a cache that the library wrote - any log, or any index with a
      pass-through key codec - every reader of the output answers every key as the source does, through
      the same codecs (8-byte keys when a direct table is involved). */
  lemma {:induction false} CompactionPreservesGets(reader: OpenReader, recs: seq<Pair>, t: Schema, dir: Cache,
                                                   output: OpenReader, hash: Hasher, sh: SlotHasher, key: Bytes)
    requires Compacted(reader.cache, t, dir, output.cache, hash, sh) && Ready(output, hash, Crc64)
    requires t == reader.cache.manifest.schema.(backend := t.backend) && Plain(reader.cache.manifest.schema)
    requires Serves(reader, recs, hash, sh, Crc64) && AllEncoded(t, recs)
    requires t.backend == DirectBackend || reader.cache.manifest.schema.backend == DirectBackend ==> |key| == 8
    ensures SameMap(Served(t, SourceRecords(reader.cache)), recs)
    ensures Serves(output, Served(t, SourceRecords(reader.cache)), hash, sh, Crc64)
    ensures GetAnswer(output.cache.manifest, Served(t, SourceRecords(reader.cache)), key)
      == GetAnswer(reader.cache.manifest, recs, key)
  {
    hide Opens, Readable, Ready, Frozen, Freezable, Staging, Serves, AllEncoded, SourceRecords, GetAnswer;
    SourceIsServed(reader, recs, hash, sh);
    EncodedAlike(t, reader.cache.manifest.schema, SourceRecords(reader.cache), recs);
    StagingIsSource(reader.cache);
    SameStagingSameGets(reader, recs, t, dir, output, hash, sh, key);
  }

  /** A compaction that stages the very records it reads keeps every answer. */
  lemma {:induction false} SameStagingSameGets(reader: OpenReader, recs: seq<Pair>, t: Schema, dir: Cache,
                                               output: OpenReader, hash: Hasher, sh: SlotHasher, key: Bytes)
    requires Compacted(reader.cache, t, dir, output.cache, hash, sh) && Ready(output, hash, Crc64)
    requires t == reader.cache.manifest.schema.(backend := t.backend)
    requires Serves(reader, recs, hash, sh, Crc64) && Staging(reader.cache).value == SourceRecords(reader.cache)
    requires t.backend == DirectBackend || reader.cache.manifest.schema.backend == DirectBackend ==> |key| == 8
    ensures SameMap(Served(t, SourceRecords(reader.cache)), recs)
    ensures Serves(output, Served(t, SourceRecords(reader.cache)), hash, sh, Crc64)
    ensures GetAnswer(output.cache.manifest, Served(t, SourceRecords(reader.cache)), key)
      == GetAnswer(reader.cache.manifest, recs, key)
  {
    hide Opens, Readable, Ready, Frozen, Freezable, Staging, Serves, SourceRecords, GetAnswer;
    var source := SourceRecords(reader.cache);
    SourceIsServed(reader, recs, hash, sh);
    FrozenIsServed(t, source, dir, output, hash, sh);
    ServedKeepsTheMap(t, source);
    FrozenSchema(t, source, dir, output.cache, hash, sh);
    OpensSchema(reader.cache);
    SameAnswers(reader.cache.manifest, output.cache.manifest, recs, Served(t, source), key);
  }

  lemma {:induction false} FrozenSchema(s: Schema, puts: seq<Pair>, dir: Cache, c: Cache, hash: Hasher, sh: SlotHasher)
    requires Frozen(s, puts, dir, c, hash, sh)
    ensures c.manifest.schema == s
  {
  }

  lemma {:induction false} OpensSchema(c: Cache)
    requires Opens(c, Crc64)
    ensures SchemaOk(c.manifest.schema)
  {
  }

  lemma {:induction false} EncodedAlike(s: Schema, t: Schema, part: seq<Pair>, recs: seq<Pair>)
    requires AllEncoded(s, recs) && s.keyCodec == t.keyCodec && s.valueCodec == t.valueCodec
    requires forall p :: p in part ==> p in recs
    ensures AllEncoded(t, part)
  {
    hide EncodePair;
    forall p | p in part ensures ByEncoder(t, p) {
      assert ByEncoder(s, p);
    }
  }

  lemma {:induction false} SameAnswers(m: Manifest, n: Manifest, a: seq<Pair>, b: seq<Pair>, key: Bytes)
    requires SameMap(a, b) && SchemaOk(m.schema) && SchemaOk(n.schema)
    requires m.schema.keyCodec == n.schema.keyCodec && m.schema.valueCodec == n.schema.valueCodec
    requires m.schema.backend == DirectBackend || n.schema.backend == DirectBackend ==> |key| == 8
    ensures GetAnswer(n, b, key) == GetAnswer(m, a, key)
  {
    hide GetAnswer;
    if m.schema.backend == DirectBackend {
      CanonicalKeys(m.schema);
    }
    if n.schema.backend == DirectBackend {
      CanonicalKeys(n.schema);
    }
    BackendsAgree(m, n, a, b, key);
  }

  // ---- Put, freeze, compact, open, get ----

  lemma {:induction false} PutsAreEncoded(s: Schema, puts: seq<Pair>, encoded: seq<Pair>)
    requires EncodedPuts(s.keyCodec, s.valueCodec, puts, encoded)
    ensures AllEncoded(s, encoded)
  {
    hide EncodePair;
    forall p | p in encoded ensures ByEncoder(s, p) {
      var i :| 0 <= i < |encoded| && encoded[i] == p;
      assert EncodePair(s.keyCodec, s.valueCodec, puts[i].key, puts[i].value) == Ok(p);
    }
  }

  lemma {:induction false} SurvivorsWerePut(puts: seq<Pair>)
    ensures forall p :: p in Survivors(puts) ==> p in puts
  {
    if puts != [] {
      var n := |puts| - 1;
      SurvivorsWerePut(puts[..n]);
      UpsertAddsOne(Survivors(puts[..n]), puts[n]);
    }
  }

  lemma {:induction false} UpsertAddsOne(recs: seq<Pair>, p: Pair)
    ensures forall q :: q in Upsert(recs, p) ==> q == p || q in recs
  {
    if recs != [] && !KeyLess(p.key, recs[0].key) && recs[0].key != p.key {
      UpsertAddsOne(recs[1..], p);
    }
  }

  /** Every record of a frozen cache is one of the encoded puts. */
  lemma {:induction false} ServedIsEncoded(s: Schema, t: Schema, puts: seq<Pair>, encoded: seq<Pair>)
    requires EncodedPuts(s.keyCodec, s.valueCodec, puts, encoded)
    requires s.keyCodec == t.keyCodec && s.valueCodec == t.valueCodec
    ensures AllEncoded(t, Served(s, encoded))
  {
    hide AllEncoded, EncodedPuts;
    PutsAreEncoded(s, puts, encoded);
    SurvivorsWerePut(encoded);
    EncodedAlike(s, t, Served(s, encoded), encoded);
  }

  /** The engine and its translation together: records are put and frozen under one backend - for a log, more
      may have been appended - and compacted into another. Every reader of the output answers a key with the
      original bytes of its last put exactly when they survive the value codec, and does not find a key that
      was never put. */
  lemma {:induction false} FreezeCompactGet(s: Schema, puts: seq<Pair>, encoded: seq<Pair>, dir: Cache, r: OpenReader,
                                            t: Schema, dir2: Cache, output: OpenReader,
                                            hash: Hasher, sh: SlotHasher, key: Bytes)
    requires EncodedPuts(s.keyCodec, s.valueCodec, puts, encoded) && OpenOn(s, encoded, dir, r, hash, sh) && Plain(s)
    requires Compacted(r.cache, t, dir2, output.cache, hash, sh) && t == s.(backend := t.backend)
    requires Ready(output, hash, Crc64)
    requires s.backend == DirectBackend || t.backend == DirectBackend ==> |key| == 8
    ensures var recs := Served(t, SourceRecords(r.cache));
      && Serves(output, recs, hash, sh, Crc64)
      && (LastPut(puts, key) == None ==>
            GetAnswer(output.cache.manifest, recs, key) ==
            (match QueryKey(s.keyCodec, key) case Err(status) => Err(status) case Ok(_) => Err(NotFound)))
      && (LastPut(puts, key).Some? ==>
            (GetAnswer(output.cache.manifest, recs, key) == Ok(LastPut(puts, key).value)
             <==> Recoverable(s.valueCodec, LastPut(puts, key).value)))
  {
    hide GetAnswer, Serves, Frozen, Freezable, Ready, AllEncoded, EncodedPuts, Compacts, Staging, SourceRecords,
      Readable;
    OpenServes(s, encoded, dir, r, hash, sh);
    ServedIsEncoded(s, t, puts, encoded);
    CompactsIsReadable(r.cache, t, hash, sh);
    CompactionPreservesGets(r, Served(s, encoded), t, dir2, output, hash, sh, key);
    GetThroughCodecs(r.cache.manifest, puts, encoded, Served(s, encoded), key);
  }

  lemma {:induction false} CompactsIsReadable(c: Cache, t: Schema, hash: Hasher, sh: SlotHasher)
    requires Compacts(c, t, hash, sh)
    ensures Readable(c) && Opens(c, Crc64) && Staging(c).Ok?
  {
  }

  // ---- When a compaction succeeds ----

  lemma {:induction false} DecodesIffRecoverable(c: Codec, x: Bytes, y: Bytes)
    requires Encode(c, x) == Ok(y)
    ensures Recoverable(c, x) ==> Decode(c, y) == Ok(x) && ReadValue(c, y) == Ok(x)
    ensures !Recoverable(c, x) ==> Decode(c, y).Err? && ReadValue(c, y).Err?
  {
    RoundTrip(c, x);
    if Decode(c, y).Ok? {
      NeverDecodesWrong(c, x, Decode(c, y).value);
    }
    if PassThrough(c) {
      PassThroughIsIdentity(c, x);
    }
  }

  /** A log record is staged again exactly when it has the fixed sizes and both parts can be decoded. */
  lemma {:induction false} TakesLogRecordIff(s: Schema, put: Pair, p: Pair)
    requires EncodePair(s.keyCodec, s.valueCodec, put.key, put.value) == Ok(p)
    ensures Takes(s, LogBackend, p) <==> Restageable(s, put)
  {
    hide Encode, Decode, Recoverable, Sized;
    DecodesIffRecoverable(s.keyCodec, put.key, p.key);
    DecodesIffRecoverable(s.valueCodec, put.value, p.value);
  }

  ghost predicate Restageable(s: Schema, put: Pair) {
    Sized(s, put.key, put.value) && Recoverable(s.keyCodec, put.key) && Recoverable(s.valueCodec, put.value)
  }

  /** What is read off a frozen log is what was staged. */
  lemma {:induction false} LogSource(s: Schema, encoded: seq<Pair>, dir: Cache, src: Cache, hash: Hasher,
                                     sh: SlotHasher)
    requires s.backend == LogBackend && Frozen(s, encoded, dir, src, hash, sh) && Freezable(s, encoded, hash, sh)
    requires Readable(src)
    ensures src.manifest.schema == s && SourceRecords(src) == encoded
  {
    LogRoundTrip(encoded, Crc64, src.log);
  }

  /** A log of encoded puts - staged, or appended without a size check - compacts exactly when the target schema is
      valid, every put has the fixed sizes and can be decoded, the builder has room for all of them, and the target
      backend accepts the records. */
  lemma {:induction false} LogCompactsIff(s: Schema, puts: seq<Pair>, encoded: seq<Pair>, dir: Cache, src: Cache,
                                          t: Schema,
                                          hash: Hasher, sh: SlotHasher)
    requires EncodedPuts(s.keyCodec, s.valueCodec, puts, encoded)
    requires s.backend == LogBackend && Frozen(s, encoded, dir, src, hash, sh) && Freezable(s, encoded, hash, sh)
    requires Opens(src, Crc64)
    ensures Compacts(src, t, hash, sh) <==>
      && SchemaOk(t) && Freezable(t, encoded, hash, sh) && |puts| <= MAX_STAGED
      && forall i :: 0 <= i < |puts| ==> Restageable(s, puts[i])
  {
    hide Opens, Readable, Frozen, Freezable, SchemaOk, Takes, Restaging, EncodePair, Restageable;
    OpensIsReadable(src);
    LogSource(s, encoded, dir, src, hash, sh);
    RestagingIff(s, LogBackend, encoded);
    forall i | 0 <= i < |puts| ensures Takes(s, LogBackend, encoded[i]) <==> Restageable(s, puts[i]) {
      TakesLogRecordIff(s, puts[i], encoded[i]);
    }
    if Staging(src).Ok? {
      StagingOfLog(s, puts, encoded, src);
    }
  }

  lemma {:induction false} StagingOfLog(s: Schema, puts: seq<Pair>, encoded: seq<Pair>, src: Cache)
    requires Readable(src) && src.manifest.schema == s && s.backend == LogBackend && SourceRecords(src) == encoded
    requires EncodedPuts(s.keyCodec, s.valueCodec, puts, encoded) && Staging(src).Ok?
    ensures Staging(src).value == encoded
  {
    hide Readable, AllEncoded, SourceRecords, Restaging, EncodedPuts;
    PutsAreEncoded(s, puts, encoded);
    StagingIsSource(src);
  }

  /** A log holds repeated keys under every schema; when the schema forbids them, no index can be compacted from
      such a log. */
  lemma {:induction false} RepeatedKeysAreRefused(s: Schema, puts: seq<Pair>, encoded: seq<Pair>, dir: Cache,
                                                  src: Cache, t: Schema,
                                                  hash: Hasher, sh: SlotHasher)
    requires EncodedPuts(s.keyCodec, s.valueCodec, puts, encoded)
    requires s.backend == LogBackend && Frozen(s, encoded, dir, src, hash, sh) && Freezable(s, encoded, hash, sh)
    requires Opens(src, Crc64) && t == s.(backend := t.backend)
    requires t.backend != LogBackend && !s.allowDuplicatePut && !DistinctKeys(puts)
    ensures !Compacts(src, t, hash, sh)
  {
    hide Opens, Frozen, EncodedPuts, Compacts;
    LogCompactsIff(s, puts, encoded, dir, src, t, hash, sh);
    RepeatedKeysEncoded(s, puts, encoded);
  }

  lemma {:induction false} RepeatedKeysEncoded(s: Schema, puts: seq<Pair>, encoded: seq<Pair>)
    requires EncodedPuts(s.keyCodec, s.valueCodec, puts, encoded)
    ensures DistinctKeys(encoded) <==> DistinctKeys(puts)
  {
    hide Encode;
    forall i, j | 0 <= i < |puts| && 0 <= j < |puts|
      ensures encoded[i].key == encoded[j].key <==> puts[i].key == puts[j].key
    {
      SameKeyEncoded(s.keyCodec, s.valueCodec, puts[i], encoded[i], puts[j].key, encoded[j].key);
    }
  }

  // ---- From an index ----

  lemma {:induction false} LastPutWasPut(puts: seq<Pair>, key: Bytes)
    requires LastPut(puts, key).Some?
    ensures exists i :: 0 <= i < |puts| && puts[i] == Pair(key, LastPut(puts, key).value)
  {
    var n := |puts| - 1;
    if puts[n].key != key {
      LastPutWasPut(puts[..n], key);
      var i :| 0 <= i < n && puts[..n][i] == Pair(key, LastPut(puts, key).value);
      assert puts[i] == Pair(key, LastPut(puts, key).value);
    } else {
      assert puts[n] == Pair(key, LastPut(puts, key).value);
    }
  }

  /** An indexed record under a plain key is staged again exactly when the last put of the key can be decoded. */
  lemma {:induction false} TakesIndexRecordIff(s: Schema, puts: seq<Pair>, encoded: seq<Pair>, p: Pair)
    requires EncodedPuts(s.keyCodec, s.valueCodec, puts, encoded) && AllSized(s, puts)
    requires s.backend != LogBackend && PassThrough(s.keyCodec) && LastPut(encoded, p.key) == Some(p.value)
    ensures LastPut(puts, p.key).Some?
    ensures Takes(s, s.backend, p) <==> Recoverable(s.valueCodec, LastPut(puts, p.key).value)
  {
    hide Encode, Decode, Recoverable;
    LastPutWasPut(encoded, p.key);
    var i :| 0 <= i < |encoded| && encoded[i] == p;
    PlainKeyOfPut(s, puts[i], p);
    LastPutEncoded(s.keyCodec, s.valueCodec, puts, encoded, p.key, p.key);
    var v := LastPut(puts, p.key).value;
    LastPutWasPut(puts, p.key);
    DecodesIffRecoverable(s.valueCodec, v, p.value);
  }

  lemma {:induction false} PlainKeyOfPut(s: Schema, put: Pair, p: Pair)
    requires PassThrough(s.keyCodec) && EncodePair(s.keyCodec, s.valueCodec, put.key, put.value) == Ok(p)
    ensures put.key == p.key && Encode(s.keyCodec, p.key) == Ok(p.key)
  {
    PassThroughIsIdentity(s.keyCodec, put.key);
  }

  /** What is read off a frozen index is one record for each key, with its newest encoded value. */
  lemma {:induction false} IndexSource(s: Schema, encoded: seq<Pair>, dir: Cache, src: Cache, hash: Hasher,
                                       sh: SlotHasher)
    requires s.backend != LogBackend && Frozen(s, encoded, dir, src, hash, sh) && Freezable(s, encoded, hash, sh)
    requires Opens(src, Crc64) && Readable(src)
    ensures src.manifest.schema == s && SameMap(SourceRecords(src), encoded) && DistinctKeys(SourceRecords(src))
    ensures |SourceRecords(src)| <= |encoded|
  {
    hide StructureOk, Image, Freezable, TableRecords;
    var r := OpenReader(src, []);
    FrozenSchema(s, encoded, dir, src, hash, sh);
    OpenServes(s, encoded, dir, r, hash, sh);
    TableIsServed(r, Survivors(encoded), hash, sh);
    SameRecordsSameSize(TableRecords(r), Survivors(encoded));
    SurvivorsAreFewer(encoded);
  }

  ghost predicate AllTaken(s: Schema, recs: seq<Pair>) {
    forall i :: 0 <= i < |recs| ==> Takes(s, s.backend, recs[i])
  }

  ghost predicate LastPutsRecoverable(vc: Codec, puts: seq<Pair>) {
    forall key :: LastPut(puts, key).Some? ==> Recoverable(vc, LastPut(puts, key).value)
  }

  lemma {:induction false} AllTakenIff(s: Schema, puts: seq<Pair>, encoded: seq<Pair>, recs: seq<Pair>)
    requires EncodedPuts(s.keyCodec, s.valueCodec, puts, encoded) && AllSized(s, puts)
    requires s.backend != LogBackend && PassThrough(s.keyCodec) && SameMap(recs, encoded) && DistinctKeys(recs)
    ensures AllTaken(s, recs) <==> LastPutsRecoverable(s.valueCodec, puts)
  {
    hide Takes, Recoverable, EncodedPuts, AllSized;
    forall i | 0 <= i < |recs|
      ensures LastPut(puts, recs[i].key).Some?
      ensures Takes(s, s.backend, recs[i]) <==> Recoverable(s.valueCodec, LastPut(puts, recs[i].key).value)
    {
      LastPutAt(recs, i);
      TakesIndexRecordIff(s, puts, encoded, recs[i]);
    }
    if AllTaken(s, recs) {
      forall key | LastPut(puts, key).Some? ensures Recoverable(s.valueCodec, LastPut(puts, key).value) {
        var i := ListedUnder(s, puts, encoded, recs, key);
      }
    }
  }

  /** A key that was put has a record. */
  lemma {:induction false} ListedUnder(s: Schema, puts: seq<Pair>, encoded: seq<Pair>, recs: seq<Pair>, key: Bytes)
    returns (i: nat)
    requires EncodedPuts(s.keyCodec, s.valueCodec, puts, encoded) && PassThrough(s.keyCodec)
    requires SameMap(recs, encoded) && LastPut(puts, key).Some?
    ensures i < |recs| && recs[i].key == key
  {
    hide Encode;
    LastPutWasPut(puts, key);
    var j :| 0 <= j < |puts| && puts[j] == Pair(key, LastPut(puts, key).value);
    PlainKeyOfPut(s, puts[j], encoded[j]);
    LastPutEncoded(s.keyCodec, s.valueCodec, puts, encoded, key, key);
    LastPutWasPut(recs, key);
    i :| 0 <= i < |recs| && recs[i] == Pair(key, LastPut(recs, key).value);
  }

  /** An index of accepted puts under plain keys compacts exactly when the target schema is valid, the last put of
      every key can be decoded, and the target backend accepts the records. */
  lemma {:induction false} IndexCompactsIff(s: Schema, puts: seq<Pair>, encoded: seq<Pair>, dir: Cache, src: Cache,
                                            t: Schema,
                                            hash: Hasher, sh: SlotHasher)
    requires EncodedPuts(s.keyCodec, s.valueCodec, puts, encoded) && AllSized(s, puts)
    requires s.backend != LogBackend && PassThrough(s.keyCodec)
    requires Frozen(s, encoded, dir, src, hash, sh) && Freezable(s, encoded, hash, sh)
    requires Opens(src, Crc64) && Readable(src)
    ensures Compacts(src, t, hash, sh) <==>
      && SchemaOk(t) && Freezable(t, SourceRecords(src), hash, sh) && src.manifest.count <= MAX_STAGED
      && LastPutsRecoverable(s.valueCodec, puts)
  {
    hide Opens, Readable, Frozen, Freezable, SchemaOk, Takes, Restaging, EncodePair, Recoverable, Sized,
      LastPutsRecoverable, SourceRecords, AllEncoded, SameMap, EncodedPuts, AllSized, DistinctKeys;
    SourceCount(src);
    IndexSource(s, encoded, dir, src, hash, sh);
    RestagingIff(s, s.backend, SourceRecords(src));
    AllTakenIff(s, puts, encoded, SourceRecords(src));
    if Staging(src).Ok? {
      IndexSourceIsEncoded(s, puts, encoded, SourceRecords(src));
      StagingIsSource(src);
    }
  }

  lemma {:induction false} IndexSourceIsEncoded(s: Schema, puts: seq<Pair>, encoded: seq<Pair>, recs: seq<Pair>)
    requires EncodedPuts(s.keyCodec, s.valueCodec, puts, encoded) && SameMap(recs, encoded) && DistinctKeys(recs)
    ensures AllEncoded(s, recs)
  {
    hide EncodedPuts, ByEncoder;
    PutsAreEncoded(s, puts, encoded);
    forall p | p in recs ensures ByEncoder(s, p) {
      var i :| 0 <= i < |recs| && recs[i] == p;
      LastPutAt(recs, i);
      LastPutWasPut(encoded, p.key);
      assert p in encoded;
    }
  }

  // ---- Into which directory ----

  /** The output of a compaction opens exactly when its directory held nothing of the other kind: no log before an
      index, no index files before a log. A log must also have lengths of 32 bits. */
  lemma {:induction false} CompactedOpensIff(src: Cache, t: Schema, dir: Cache, out: Cache, hash: Hasher,
                                             sh: SlotHasher)
    requires Compacted(src, t, dir, out, hash, sh)
    ensures Opens(out, Crc64) <==>
      if t.backend == LogBackend then
        dir.index == [] && dir.keys == [] && dir.values == [] && AllFit32(Staging(src).value)
      else dir.log == []
  {
    hide Opens, Readable, Staging, SchemaOk, Image;
    if t.backend == LogBackend {
      FrozenLogOpens(t, Staging(src).value, IndexPart(dir), Crc64);
    } else {
      FrozenIndexOpens(t, IndexPart(out), dir.log, Survivors(Staging(src).value), hash, sh, Crc64);
    }
  }

  /** So a log with records, compacted into an index in its own directory, leaves a directory that never opens. */
  lemma {:induction false} InPlaceCompactionNeverOpens(src: Cache, t: Schema, out: Cache, hash: Hasher, sh: SlotHasher)
    requires Compacted(src, t, src, out, hash, sh) && t.backend != LogBackend
    requires src.manifest.schema.backend == LogBackend && src.manifest.count > 0
    ensures !Opens(out, Crc64)
  {
    CompactedOpensIff(src, t, src, out, hash, sh);
    SourceCount(src);
    RecordsNeedBytes(src);
  }

  lemma {:induction false} RecordsNeedBytes(c: Cache)
    requires Readable(c) && c.manifest.schema.backend == LogBackend && |SourceRecords(c)| > 0
    ensures c.log != []
  {
    LogTapeAdvances(c.log, Crc64);
    ParseRound(LogTape(c.log, Crc64), 0, 0, c.manifest.count, ParseLog(c.log, c.manifest.count, Crc64).value);
  }
}
