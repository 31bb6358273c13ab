/** Freezing a log, appending to it, opening and compacting it: src/backends/fce_backend_log.c lines 97-175. */
module Appending {
  import opened Bytes
  import opened Records
  import opened Format
  import opened Codecs
  import opened Crc
  import opened Log
  import opened LogCache
  import opened Schemas
  import opened Validation
  import opened Reader
  import opened ReaderGet
  import opened Builders
  import opened Compaction
  import opened CompactionLaws
  import opened Mph

  /** What an append sees of a directory, and what it leaves there. */
  function LogPart(c: Cache): LogFiles {
    LogFiles(c.log, c.manifest.count, c.manifest.log.size, c.manifest.log.crc)
  }

  function WithLog(c: Cache, f: LogFiles): Cache {
    c.(log := f.log, manifest := c.manifest.(count := f.count, log := Stamp.Stamp(f.size, f.crc)))
  }

  /** fce_log_append on a directory. */
  method AppendTo(c: Cache, key: Bytes, value: Bytes) returns (r: Result<()>, d: Cache)
    requires |c.log| <= MAX_FILE
    ensures c.manifest.schema.backend != LogBackend ==> r == Err(InvalidArgument) && d == c
    ensures c.manifest.schema.backend == LogBackend ==>
      match EncodePair(c.manifest.schema.keyCodec, c.manifest.schema.valueCodec, key, value)
      case Err(status) => r == Err(status) && d == c
      case Ok(p) => d == WithLog(c, LogPart(d)) && Appended(LogPart(c), p, LogPart(d), r)
  {
    var dir := new LogDir(LogPart(c), c.manifest.schema);
    r := dir.Append(key, value);
    d := WithLog(c, dir.files);
    assert WithLog(c, LogPart(c)) == c && LogPart(d) == dir.files;
  }

  /** A frozen log with more records appended is the frozen log of all of them. */
  lemma {:induction false} AppendedIsFrozen(s: Schema, encoded: seq<Pair>, more: seq<Pair>, dir: Cache, c: Cache,
                                            hash: Hasher, sh: SlotHasher)
    requires s.backend == LogBackend && Frozen(s, encoded, dir, c, hash, sh)
    ensures Frozen(s, encoded + more, dir, WithLog(c, AppendAll(LogPart(c), more, Crc64)), hash, sh)
  {
    hide LogImage, AppendAll;
    FreezeThenAppend(encoded, more, Crc64);
    LogPartOfFrozen(s, encoded, dir, c, hash, sh);
  }

  lemma {:induction false} LogPartOfFrozen(s: Schema, encoded: seq<Pair>, dir: Cache, c: Cache, hash: Hasher,
                                           sh: SlotHasher)
    requires s.backend == LogBackend && Frozen(s, encoded, dir, c, hash, sh)
    ensures LogPart(c) == LogImage(encoded, Crc64)
  {
    hide LogImage;
  }

  /** One successful append to a frozen log. */
  lemma {:induction false} AppendStep(s: Schema, encoded: seq<Pair>, p: Pair, dir: Cache, c: Cache, d: Cache,
                                      hash: Hasher, sh: SlotHasher)
    requires s.backend == LogBackend && Frozen(s, encoded, dir, c, hash, sh) && Freezable(s, encoded, hash, sh)
    requires d == WithLog(c, LogPart(d)) && Appended(LogPart(c), p, LogPart(d), Ok(()))
    ensures Frozen(s, encoded + [p], dir, d, hash, sh) && Freezable(s, encoded + [p], hash, sh)
  {
    hide LogImage, Frozen, AppendFiles;
    AppendedIsFrozen(s, encoded, [p], dir, c, hash, sh);
    AppendedOnce(LogPart(c), p);
    LogPartOfFrozen(s, encoded, dir, c, hash, sh);
    AppendedFits(encoded, p);
  }

  lemma {:induction false} AppendedOnce(f: LogFiles, p: Pair)
    ensures AppendAll(f, [p], Crc64) == AppendFiles(f, p, Crc64)
  {
    assert [p][..0] == [];
  }

  lemma {:induction false} AppendedFits(encoded: seq<Pair>, p: Pair)
    ensures |LogBytes(encoded + [p], Crc64)| == |LogImage(encoded, Crc64).log| + 32 + |p.key| + |p.value|
  {
    LogAppend(encoded, p, Crc64);
  }

  lemma {:induction false} MorePutsEncoded(s: Schema, puts: seq<Pair>, encoded: seq<Pair>, late: seq<Pair>,
                                           more: seq<Pair>)
    requires EncodedPuts(s.keyCodec, s.valueCodec, puts, encoded) && EncodedPuts(s.keyCodec, s.valueCodec, late, more)
    ensures EncodedPuts(s.keyCodec, s.valueCodec, puts + late, encoded + more)
  {
    hide EncodePair;
  }

  /** r is open on a directory that was frozen as a log and appended to. */
  ghost predicate OpenAfterAppends(s: Schema, encoded: seq<Pair>, more: seq<Pair>, dir: Cache, c: Cache, r: OpenReader,
                                   hash: Hasher, sh: SlotHasher) {
    && s.backend == LogBackend && SchemaOk(s) && Frozen(s, encoded, dir, c, hash, sh)
    && r.cache == WithLog(c, AppendAll(LogPart(c), more, Crc64))
    && |r.cache.log| <= MAX_FILE && Ready(r, hash, Crc64)
  }

  lemma {:induction false} OpenAfterAppendsIsOpen(s: Schema, encoded: seq<Pair>, more: seq<Pair>, dir: Cache, c: Cache,
                                                  r: OpenReader, hash: Hasher, sh: SlotHasher)
    requires OpenAfterAppends(s, encoded, more, dir, c, r, hash, sh)
    ensures OpenOn(s, encoded + more, dir, r, hash, sh)
  {
    hide AppendAll, Ready;
    AppendedIsFrozen(s, encoded, more, dir, c, hash, sh);
  }

  /** Freeze, append, open, get: the newest put answers, whether it was staged or appended. */
  lemma {:induction false} FreezeAppendGet(s: Schema, puts: seq<Pair>, encoded: seq<Pair>, late: seq<Pair>,
                                           more: seq<Pair>,
                                           dir: Cache, c: Cache, r: OpenReader, hash: Hasher, sh: SlotHasher,
                                           key: Bytes)
    requires EncodedPuts(s.keyCodec, s.valueCodec, puts, encoded) && EncodedPuts(s.keyCodec, s.valueCodec, late, more)
    requires OpenAfterAppends(s, encoded, more, dir, c, r, hash, sh)
    ensures var all := puts + late;
      && (LastPut(all, key) == None ==>
            GetAnswer(r.cache.manifest, encoded + more, key) ==
            (match QueryKey(s.keyCodec, key) case Err(status) => Err(status) case Ok(_) => Err(NotFound)))
      && (LastPut(all, key).Some? ==>
            (GetAnswer(r.cache.manifest, encoded + more, key) == Ok(LastPut(all, key).value)
             <==> Recoverable(s.valueCodec, LastPut(all, key).value)))
    ensures Serves(r, encoded + more, hash, sh, Crc64)
  {
    hide GetAnswer, Serves, EncodedPuts, OpenOn;
    OpenAfterAppendsIsOpen(s, encoded, more, dir, c, r, hash, sh);
    MorePutsEncoded(s, puts, encoded, late, more);
    FreezeOpenGet(s, puts + late, encoded + more, dir, r, hash, sh, key);
  }

  /** Freeze, append, compact into any backend, open, get. */
  lemma {:induction false} FreezeAppendCompactGet(s: Schema, puts: seq<Pair>, encoded: seq<Pair>, late: seq<Pair>,
                                                  more: seq<Pair>,
                                                  dir: Cache, c: Cache, r: OpenReader, t: Schema, dir2: Cache,
                                                  output: OpenReader,
                                                  hash: Hasher, sh: SlotHasher, key: Bytes)
    requires EncodedPuts(s.keyCodec, s.valueCodec, puts, encoded) && EncodedPuts(s.keyCodec, s.valueCodec, late, more)
    requires OpenAfterAppends(s, encoded, more, dir, c, r, hash, sh)
    requires Compacted(r.cache, t, dir2, output.cache, hash, sh) && t == s.(backend := t.backend)
    requires Ready(output, hash, Crc64) && (t.backend == DirectBackend ==> |key| == 8)
    ensures var all, recs := puts + late, Served(t, SourceRecords(r.cache));
      && Serves(output, recs, hash, sh, Crc64)
      && (LastPut(all, key) == None ==>
            GetAnswer(output.cache.manifest, recs, key) ==
            (match QueryKey(s.keyCodec, key) case Err(status) => Err(status) case Ok(_) => Err(NotFound)))
      && (LastPut(all, key).Some? ==>
            (GetAnswer(output.cache.manifest, recs, key) == Ok(LastPut(all, key).value)
             <==> Recoverable(s.valueCodec, LastPut(all, key).value)))
  {
    hide GetAnswer, Serves, EncodedPuts, OpenOn, Compacted, Ready, SourceRecords;
    OpenAfterAppendsIsOpen(s, encoded, more, dir, c, r, hash, sh);
    MorePutsEncoded(s, puts, encoded, late, more);
    FreezeCompactGet(s, puts + late, encoded + more, dir, r, t, dir2, output, hash, sh, key);
  }
}
