/** Staging and freezing: src/api/fce_builder_api.c. */
module Builders {
  import opened Bytes
  import opened Records
  import opened Format
  import opened SortedIndex
  import opened RadixBuild
  import opened RadixFlat
  import opened DirectTable
  import opened Mph
  import opened Codecs
  import opened Log
  import opened LogCache
  import opened Crc
  import opened Schemas
  import opened Validation
  import opened Reader
  import opened ReaderGet
  import Bitpack

  /** SIZE_MAX / sizeof(BuildRecord) */
  const MAX_RECORDS := 0xffff_ffff_ffff_ffff / 40

  /** The largest array that doubling from 64 reaches: 2^58 records. */
  const MAX_STAGED := 0x400_0000_0000_0000

  ghost predicate Capacity(n: nat) {
    n == 0 || exists k: nat :: k <= 52 && n == 64 * Bitpack.Pow2(k)
  }

  lemma {:induction false} CapacityDoubles(n: nat)
    requires Capacity(n)
    ensures n <= MAX_STAGED && Capacity(64)
    ensures (if n != 0 then n * 2 else 64) <= MAX_RECORDS <==> n < MAX_STAGED
    ensures n < MAX_STAGED ==> Capacity(if n != 0 then n * 2 else 64)
  {
    assert 64 == 64 * Bitpack.Pow2(0);
    if n != 0 {
      var k: nat :| k <= 52 && n == 64 * Bitpack.Pow2(k);
      Bitpack.Pow2Monotone(k, 52);
      Pow2Of52();
      if k < 52 {
        assert n * 2 == 64 * Bitpack.Pow2(k + 1);
        Bitpack.Pow2Monotone(k + 1, 52);
      }
    }
  }

  lemma {:induction false} Pow2Of52()
    ensures 64 * Bitpack.Pow2(52) == MAX_STAGED
  {
    Bitpack.Pow2Of32();
    assert Bitpack.Pow2(36) == 16 * Bitpack.Pow2(32);
    assert Bitpack.Pow2(40) == 16 * Bitpack.Pow2(36);
    assert Bitpack.Pow2(44) == 16 * Bitpack.Pow2(40);
    assert Bitpack.Pow2(48) == 16 * Bitpack.Pow2(44);
    assert Bitpack.Pow2(52) == 16 * Bitpack.Pow2(48);
  }

  /** The fixed sizes of the schema, checked before encoding. */
  predicate Sized(s: Schema, key: Bytes, value: Bytes) {
    && (s.fixedKeySize != 0 ==> |key| == s.fixedKeySize)
    && (s.fixedValueSize != 0 ==> |value| == s.fixedValueSize)
  }

  ghost predicate AllSized(s: Schema, puts: seq<Pair>) {
    forall i :: 0 <= i < |puts| ==> Sized(s, puts[i].key, puts[i].value)
  }

  /** Puts that a freeze accepts, backend by backend. */
  ghost predicate Freezable(s: Schema, puts: seq<Pair>, hash: Hasher, sh: SlotHasher) {
    if s.backend == LogBackend then |LogBytes(puts, Crc64)| <= MAX_FILE
    else
      var recs := Survivors(puts);
      && (s.allowDuplicatePut || DistinctKeys(puts)) && Storable(recs)
      && match s.backend
         case SortedBackend => |recs| * SORTED_ENTRY <= MAX_FILE
         case RadixBackend => |Prefixes(recs)| <= U32_MAX
         case DirectBackend => Tabular(recs, s.allowSparse)
         case _ => Placeable(recs, hash, sh)
  }

  /** The directory holds the frozen records of these puts; dir is what it held before. */
  ghost predicate Frozen(s: Schema, puts: seq<Pair>, dir: Cache, c: Cache, hash: Hasher, sh: SlotHasher) {
    if s.backend == LogBackend then c == LogCacheOf(s, LogImage(puts, Crc64), IndexPart(dir))
    else
      var f := IndexPart(c);
      c == IndexCache(s, f, dir.log, Crc64) && Image(s.backend, f, Survivors(puts), hash, sh)
  }

  /** The status of a freeze that is refused. */
  ghost function FreezeStatus(s: Schema, records: seq<BuildRecord>): Status {
    match s.backend
    case SortedBackend => FreezeError(records, s.allowDuplicatePut, Io)
    case RadixBackend => FreezeError(records, s.allowDuplicatePut, OutOfMemory)
    case DirectBackend => DirectError(records, s.allowDuplicatePut, s.allowSparse)
    case MphBackend => FreezeError(records, s.allowDuplicatePut, Unsupported)
    case LogBackend => Io
  }

  /** How a freeze ends. */
  ghost predicate FreezeResult(s: Schema, records: seq<BuildRecord>, dir: Cache, r: Result<Cache>, hash: Hasher,
                               sh: SlotHasher)
  {
    && (r.Ok? <==> Freezable(s, Pairs(records), hash, sh))
    && (r.Ok? ==> Frozen(s, Pairs(records), dir, r.value, hash, sh))
    && (r.Err? ==> r.status == FreezeStatus(s, records))
  }

  method WriteIndexCache(s: Schema, f: IndexFiles, staleLog: Bytes) returns (c: Cache)
    ensures c == IndexCache(s, f, staleLog, Crc64)
  {
    var i := FileCrc64(f.index);
    var k := FileCrc64(f.keys);
    var v := FileCrc64(f.values);
    return Cache(Manifest(s, f.count, Stamp(|f.index|, i), Stamp(|f.keys|, k), Stamp(|f.values|, v), UNSTAMPED),
                 f.index, f.keys, f.values, staleLog);
  }

  /** The index backends. */
  method FreezeIndex(s: Schema, records: seq<BuildRecord>, hash: Hasher, sh: SlotHasher) returns (r: Result<IndexFiles>)
    requires Stamped(records) && s.backend != LogBackend
    requires s.backend == MphBackend ==> |Survivors(Pairs(records))| <= U32_MAX
    ensures r.Ok? <==> Freezable(s, Pairs(records), hash, sh)
    ensures r.Ok? ==> Image(s.backend, r.value, Survivors(Pairs(records)), hash, sh)
    ensures r.Err? ==> r.status == FreezeStatus(s, records)
  {
    hide FreezeError, DirectError, SortedImage, RadixImage, DirectImage, MphImage, Storable, Prefixes, Placeable,
      Tabular, Survivors, DistinctKeys, Pairs;
    match s.backend {
      case SortedBackend => r := FreezeSorted(records, s.allowDuplicatePut, hash);
      case RadixBackend => r := FreezeRadix(records, s.allowDuplicatePut);
      case DirectBackend => r := FreezeDirect(records, s.allowDuplicatePut, s.allowSparse);
      case MphBackend => r := FreezeMph(records, s.allowDuplicatePut, hash, sh);
    }
  }

  /** The freeze switch over a directory. */
  method FreezeRecords(s: Schema, records: seq<BuildRecord>, dir: Cache, hash: Hasher, sh: SlotHasher)
    returns (r: Result<Cache>)
    requires Stamped(records)
    requires s.backend == MphBackend ==> |Survivors(Pairs(records))| <= U32_MAX
    ensures FreezeResult(s, records, dir, r, hash, sh)
  {
    hide Image, Survivors, LogBytes, FreezeError, DirectError, Storable, Placeable, Tabular, Prefixes, DistinctKeys;
    if s.backend == LogBackend {
      var log := FreezeLog(Pairs(records));
      if log.Err? {
        return Err(log.status);
      }
      return Ok(LogCacheOf(s, log.value, IndexPart(dir)));
    }
    var files := FreezeIndex(s, records, hash, sh);
    if files.Err? {
      return Err(files.status);
    }
    var c := WriteIndexCache(s, files.value, dir.log);
    assert IndexPart(c) == files.value;
    return Ok(c);
  }

  /** What becomes of a put when count records are staged: its encoded form, or the first complaint. */
  function PutAnswer(s: Schema, count: nat, key: Bytes, value: Bytes): Result<Pair> {
    if !Sized(s, key, value) then Err(InvalidArgument)
    else if count >= MAX_STAGED then Err(OutOfMemory)
    else EncodePair(s.keyCodec, s.valueCodec, key, value)
  }

  class Builder {
    const schema: Schema
    var records: array<BuildRecord>
    var count: nat
    var frozen: bool
    /** The accepted puts before encoding. */
    ghost var puts: seq<Pair>

    ghost predicate Valid()
      reads this, records
    {
      && count <= records.Length && Capacity(records.Length)
      && AllSized(schema, puts)
      && Stamped(records[..count])
      && EncodedPuts(schema.keyCodec, schema.valueCodec, puts, Pairs(records[..count]))
    }

    ghost function Staged(): seq<BuildRecord>
      reads this, records
      requires count <= records.Length
    {
      records[..count]
    }

    constructor (schema: Schema)
      requires SchemaOk(schema)
      ensures Valid() && fresh(records) && this.schema == schema && puts == [] && Staged() == [] && !frozen
    {
      this.schema := schema;
      records, count, frozen, puts := new BuildRecord[0], 0, false, [];
    }

    /** builder_grow: room for one more record, doubling from 64. */
    method Grow() returns (r: Result<()>)
      requires Valid()
      modifies this`records
      ensures Valid() && (records == old(records) || fresh(records))
      ensures Staged() == old(Staged()) && (r.Ok? ==> count < records.Length)
      ensures r == if count < MAX_STAGED then Ok(()) else Err(OutOfMemory)
    {
      CapacityDoubles(records.Length);
      if count < records.Length {
        return Ok(());
      }
      var nc := if records.Length != 0 then records.Length * 2 else 64;
      if nc > MAX_RECORDS {
        return Err(OutOfMemory);
      }
      records := Reallocate(records, count, nc);
      return Ok(());
    }

    static method Reallocate(from: array<BuildRecord>, count: nat, nc: nat) returns (nr: array<BuildRecord>)
      requires count <= from.Length <= nc
      ensures fresh(nr) && nr.Length == nc && nr[..count] == from[..count]
    {
      nr := new BuildRecord[nc];
      for i := 0 to count
        invariant nr[..i] == from[..i]
      {
        nr[i] := from[i];
      }
    }

    /** fce_builder_put: stage the encoded pair, or leave what is staged as it was. */
    method Put(key: Bytes, value: Bytes) returns (r: Result<()>)
      requires Valid()
      modifies this, records
      ensures Valid() && (records == old(records) || fresh(records)) && frozen == old(frozen)
      ensures r.Ok? <==> !old(frozen) && PutAnswer(schema, old(count), key, value).Ok?
      ensures r.Err? ==>
        r.status == if old(frozen) then InvalidArgument else PutAnswer(schema, old(count), key, value).status
      ensures r.Ok? ==>
        && EncodePair(schema.keyCodec, schema.valueCodec, key, value).Ok?
        && var p := EncodePair(schema.keyCodec, schema.valueCodec, key, value).value;
        && Staged() == old(Staged()) + [BuildRecord(p.key, p.value, old(count))]
        && puts == old(puts) + [Pair(key, value)]
      ensures r.Err? ==> Staged() == old(Staged()) && puts == old(puts)
      ensures schema.fixedKeySize != 0 && |key| != schema.fixedKeySize ==> r == Err(InvalidArgument)
      ensures schema.fixedValueSize != 0 && |value| != schema.fixedValueSize ==> r == Err(InvalidArgument)
      ensures |key| <= U32_MAX && |value| <= U32_MAX ==>
        (r.Ok? <==>
          && !old(frozen) && old(count) < 0x400_0000_0000_0000
          && (schema.fixedKeySize != 0 ==> |key| == schema.fixedKeySize)
          && (schema.fixedValueSize != 0 ==> |value| == schema.fixedValueSize)
          && Accepts(schema.keyCodec, key) && Accepts(schema.valueCodec, value))
    {
      hide Encode, Accepts, Capacity, EncodedPuts;
      if |key| <= U32_MAX && |value| <= U32_MAX {
        EncodeAccepts(schema.keyCodec, key);
        EncodeAccepts(schema.valueCodec, value);
      }
      if frozen || !Sized(schema, key, value) {
        return Err(InvalidArgument);
      }
      r := Grow();
      if r.Err? {
        return;
      }
      var encoded := FceEncodePair(schema.keyCodec, schema.valueCodec, key, value);
      if encoded.Err? {
        return Err(encoded.status);
      }
      Stage(encoded.value, key, value);
      return Ok(());
    }

    method Stage(p: Pair, ghost key: Bytes, ghost value: Bytes)
      requires Valid() && count < records.Length
      requires EncodePair(schema.keyCodec, schema.valueCodec, key, value) == Ok(p) && Sized(schema, key, value)
      modifies this`count, this`puts, records
      ensures Valid()
      ensures Staged() == old(Staged()) + [BuildRecord(p.key, p.value, old(count))]
        && puts == old(puts) + [Pair(key, value)]
    {
      ghost var before := records[..count];
      records[count] := BuildRecord(p.key, p.value, count);
      count := count + 1;
      puts := puts + [Pair(key, value)];
      assert records[..count] == before + [BuildRecord(p.key, p.value, count - 1)];
      assert Pairs(records[..count]) == Pairs(before) + [p];
    }

    /** fce_builder_freeze into a directory: at most once, and only success freezes. */
    method Freeze(dir: Cache, hash: Hasher, sh: SlotHasher) returns (r: Result<Cache>)
      requires Valid()
      requires schema.backend == MphBackend ==> |Survivors(Pairs(Staged()))| <= U32_MAX
      modifies this`frozen
      ensures Valid() && Staged() == old(Staged()) && puts == old(puts)
      ensures old(frozen) ==> r == Err(InvalidArgument)
      ensures !old(frozen) ==> FreezeResult(schema, old(Staged()), dir, r, hash, sh)
      ensures frozen == (old(frozen) || r.Ok?)
    {
      hide FreezeResult, Capacity, AllSized, EncodedPuts;
      if frozen {
        return Err(InvalidArgument);
      }
      r := FreezeRecords(schema, records[..count], dir, hash, sh);
      frozen := r.Ok?;
    }
  }

  // ---- From puts to gets ----

  /** The records a frozen directory serves: every put for a log, the newest per key otherwise. */
  ghost function Served(s: Schema, puts: seq<Pair>): seq<Pair> {
    if s.backend == LogBackend then puts else Survivors(puts)
  }

  lemma {:induction false} ServedKeepsTheMap(s: Schema, puts: seq<Pair>)
    ensures SameMap(Served(s, puts), puts)
  {
    SurvivorsKeepTheMap(puts);
  }

  /** Any reader that opens a frozen directory serves exactly the staged records. */
  lemma {:induction false} FrozenIsServed(s: Schema, puts: seq<Pair>, dir: Cache, r: OpenReader, hash: Hasher,
                                          sh: SlotHasher)
    requires Freezable(s, puts, hash, sh) && Frozen(s, puts, dir, r.cache, hash, sh)
    requires Ready(r, hash, Crc64)
    ensures Serves(r, Served(s, puts), hash, sh, Crc64)
  {
    if s.backend == LogBackend {
      LogIsServed(s, puts, IndexPart(dir), r, hash, sh, Crc64);
    }
  }

  /** r is open on a directory that was frozen from these encoded puts. */
  ghost predicate OpenOn(s: Schema, puts: seq<Pair>, dir: Cache, r: OpenReader, hash: Hasher, sh: SlotHasher) {
    SchemaOk(s) && Freezable(s, puts, hash, sh) && Frozen(s, puts, dir, r.cache, hash, sh) && Ready(r, hash, Crc64)
  }

  lemma {:induction false} OpenServes(s: Schema, puts: seq<Pair>, dir: Cache, r: OpenReader, hash: Hasher,
                                      sh: SlotHasher)
    requires OpenOn(s, puts, dir, r, hash, sh)
    ensures Serves(r, Served(s, puts), hash, sh, Crc64) && SameMap(Served(s, puts), puts)
      && r.cache.manifest.schema == s
    ensures s.backend == DirectBackend ==> PassThrough(s.keyCodec)
  {
    FrozenIsServed(s, puts, dir, r, hash, sh);
    ServedKeepsTheMap(s, puts);
    if s.backend == DirectBackend {
      CanonicalKeys(s);
    }
  }

  lemma {:induction false} LogIsServed(s: Schema, puts: seq<Pair>, stale: IndexFiles, r: OpenReader, hash: Hasher,
                                       sh: SlotHasher, sum: Checksum)
    requires s.backend == LogBackend && |LogBytes(puts, sum)| <= MAX_FILE
    requires r.cache == LogCacheOf(s, LogImage(puts, sum), stale) && Ready(r, hash, sum)
    ensures Serves(r, puts, hash, sh, sum)
  {
    LogRoundTrip(puts, sum, r.cache.log);
  }

  /** The contract of the whole engine: freeze, open, get. Whatever the backend, the codecs and the hash
      functions, a key answers with the original bytes of its last put exactly when they survive the
      value codec, and a key never put is not found (or refused by the key codec itself). */
  lemma {:induction false} FreezeOpenGet(s: Schema, puts: seq<Pair>, encoded: seq<Pair>, dir: Cache, r: OpenReader,
                                         hash: Hasher, sh: SlotHasher, key: Bytes)
    requires EncodedPuts(s.keyCodec, s.valueCodec, puts, encoded) && OpenOn(s, encoded, dir, r, hash, sh)
    requires s.backend == DirectBackend ==> |key| == 8
    ensures Serves(r, Served(s, encoded), hash, sh, Crc64)
    ensures LastPut(puts, key) == None ==>
              GetAnswer(r.cache.manifest, Served(s, encoded), key) ==
              (match QueryKey(s.keyCodec, key) case Err(status) => Err(status) case Ok(_) => Err(NotFound))
    ensures LastPut(puts, key).Some? ==>
              (GetAnswer(r.cache.manifest, Served(s, encoded), key) == Ok(LastPut(puts, key).value)
               <==> Recoverable(s.valueCodec, LastPut(puts, key).value))
  {
    hide Frozen, Freezable, Ready, GetAnswer, Serves, EncodedPuts;
    OpenServes(s, encoded, dir, r, hash, sh);
    GetThroughCodecs(r.cache.manifest, puts, encoded, Served(s, encoded), key);
  }

  /** The same puts frozen under two backends: any two readers answer every key alike, whatever the
      hash functions (8-byte keys when one of them is a direct table). */
  lemma {:induction false} AllBackendsAgree(s: Schema, t: Schema, puts: seq<Pair>, dir: Cache, dir2: Cache,
                                            r: OpenReader, r2: OpenReader,
                                            hash: Hasher, hash2: Hasher, sh: SlotHasher, sh2: SlotHasher, key: Bytes)
    requires OpenOn(s, puts, dir, r, hash, sh) && OpenOn(t, puts, dir2, r2, hash2, sh2)
    requires t.keyCodec == s.keyCodec && t.valueCodec == s.valueCodec
    requires s.backend == DirectBackend || t.backend == DirectBackend ==> |key| == 8
    ensures Serves(r, Served(s, puts), hash, sh, Crc64) && Serves(r2, Served(t, puts), hash2, sh2, Crc64)
    ensures GetAnswer(r.cache.manifest, Served(s, puts), key) == GetAnswer(r2.cache.manifest, Served(t, puts), key)
  {
    hide Frozen, Freezable, Ready, GetAnswer, Serves;
    OpenServes(s, puts, dir, r, hash, sh);
    OpenServes(t, puts, dir2, r2, hash2, sh2);
    BackendsAgree(r.cache.manifest, r2.cache.manifest, Served(s, puts), Served(t, puts), key);
  }
}
