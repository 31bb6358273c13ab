/** Opening and querying a cache: src/api/fce_reader_api.c lines 91-186. */
module Reader {
  import opened Bytes
  import opened Records
  import opened Format
  import opened SortedIndex
  import opened RadixBuild
  import opened RadixFlat
  import opened DirectTable
  import opened Mph
  import opened Log
  import opened LogIndex
  import opened LogCache
  import opened Crc
  import opened Schemas
  import opened Validation

  // ---- What a freeze leaves in the directory ----

  function StampOf(file: Bytes, sum: Checksum): Stamp {
    Stamp(|file|, sum(file))
  }

  const UNSTAMPED := Stamp(0, 0)

  /** The files of an index backend; log.fce is not touched and keeps what it held. */
  function IndexCache(s: Schema, f: IndexFiles, staleLog: Bytes, sum: Checksum): Cache {
    Cache(Manifest(s, f.count, StampOf(f.index, sum), StampOf(f.keys, sum), StampOf(f.values, sum), UNSTAMPED),
          f.index, f.keys, f.values, staleLog)
  }

  /** The files of the log backend beside whatever index files were there. */
  function LogCacheOf(s: Schema, l: LogFiles, stale: IndexFiles): Cache {
    Cache(Manifest(s, l.count, UNSTAMPED, UNSTAMPED, UNSTAMPED, Stamp(l.size, l.crc)),
          stale.index, stale.keys, stale.values, l.log)
  }

  ghost predicate Image(b: Backend, f: IndexFiles, recs: seq<Pair>, hash: Hasher, sh: SlotHasher) {
    match b
    case SortedBackend => SortedImage(f, recs, hash)
    case RadixBackend => RadixImage(f, recs)
    case DirectBackend => DirectImage(f, recs)
    case MphBackend => MphImage(f, recs, hash, sh)
    case LogBackend => false
  }

  // ---- Builder output validates ----

  lemma {:induction false} SortedImageIsOk(f: IndexFiles, recs: seq<Pair>, hash: Hasher)
    requires SortedImage(f, recs, hash)
    ensures SortedOk(f.index, f.keys, f.values, f.count)
  {
  }

  lemma {:induction false} TerminalsAreTotal(x: RadixIndex, n: nat)
    requires SlicesInRange(x) && n <= |x.nodes|
    ensures Total(x.nodes[..n], TERMINAL_NODE) == Total(View(x)[..n], TERMINAL_WEIGHT)
  {
    if n > 0 {
      TerminalsAreTotal(x, n - 1);
      assert x.nodes[..n][..n - 1] == x.nodes[..n - 1];
      assert View(x)[..n][..n - 1] == View(x)[..n - 1];
    }
  }

  lemma {:induction false} RadixImageIsOk(f: IndexFiles, recs: seq<Pair>)
    requires RadixImage(f, recs)
    ensures RadixOk(f.index, f.keys, f.values, f.count)
  {
    hide RadixHeaderOf, RadixSections, Total;
    var h, x := RadixHeaderOf(f.index), RadixSections(f.index);
    RadixSectionsWhole(f.index);
    TerminalsAreTotal(x, |x.nodes|);
    assert x.nodes[..|x.nodes|] == x.nodes && View(x)[..|x.nodes|] == View(x);
    assert |Listed(x.values, f.keys, f.values)| == |recs|;
    RadixHeaderFitsIff(h, |f.index|, |recs|);
    SafeNodesAreOk(h, x);
  }

  lemma {:induction false} SafeNodesAreOk(h: RadixHeader, x: RadixIndex)
    requires SafeIndex(x) && SlicesInside(x) && |x.nodes| == h.nodeCount && |x.edges| == h.edgeCount
    requires |x.values| == h.valueCount
    ensures NodesOk(h, x)
  {
    forall n | 0 <= n < |x.nodes| ensures NodeOk(h, x, n) {
      assert NodeSafe(x, n) && EdgesOf(x, n) == ReadableEdges(x, x.nodes[n]);
    }
  }

  lemma {:induction false} DirectImageIsOk(f: IndexFiles, recs: seq<Pair>)
    requires DirectImage(f, recs)
    ensures DirectOk(f.index, f.keys, f.values, f.count)
  {
    var slots := DirectSlots(f.index);
    PresentListing(slots, f.keys, f.values, recs);
    SameRecordsSameSize(Listed(PresentLocs(slots), f.keys, f.values), recs);
    forall s | 0 <= s < |slots| && slots[s].present ensures LocInRange(slots[s].loc, |f.keys|, |f.values|) {
      assert SlotInPlace(slots, f.keys, f.values, s);
    }
  }

  lemma {:induction false} MphImageIsOk(f: IndexFiles, recs: seq<Pair>, hash: Hasher, sh: SlotHasher)
    requires MphImage(f, recs, hash, sh)
    ensures MphOk(f.index, f.keys, f.values, f.count)
  {
    hide MphHeaderOf, MphSections;
    var x := MphSections(f.index);
    var listed := Listed(SlotLocs(x.slots), f.keys, f.values);
    MphSectionsWhole(f.index);
    MphHeaderFitsIff(MphHeaderOf(f.index), |f.index|, |recs|);
    forall s | 0 <= s < |x.slots| ensures x.slots[s].present && LocInRange(x.slots[s].loc, |f.keys|, |f.values|) {
      assert SlotHolds(x, listed, hash, sh, s);
      assert LocInRange(SlotLocs(x.slots)[s], |f.keys|, |f.values|);
    }
  }

  lemma {:induction false} BuilderOutputIsStructured(b: Backend, f: IndexFiles, recs: seq<Pair>, hash: Hasher,
                                                     sh: SlotHasher)
    requires Image(b, f, recs, hash, sh)
    ensures BackendOk(b, f)
  {
    match b {
      case SortedBackend => SortedImageIsOk(f, recs, hash);
      case RadixBackend => RadixImageIsOk(f, recs);
      case DirectBackend => DirectImageIsOk(f, recs);
      case MphBackend => MphImageIsOk(f, recs, hash, sh);
    }
  }

  // ---- fce_reader_open ----

  datatype OpenReader = OpenReader(cache: Cache, logIndex: seq<LogIndexEntry>)

  /** Exactly the directories that open. */
  ghost predicate Opens(c: Cache, sum: Checksum) {
    && SchemaOk(c.manifest.schema) && Intact(c, sum) && StructureOk(c)
    && (c.manifest.schema.backend == LogBackend ==>
      c.manifest.count <= MAX_ENTRIES && ParseLog(c.log, c.manifest.count, sum).Ok?)
  }

  /** What an open reader knows of its files. */
  ghost predicate Ready(r: OpenReader, hash: Hasher, sum: Checksum) {
    && SchemaOk(r.cache.manifest.schema) && StructureOk(r.cache)
    && (r.cache.manifest.schema.backend == LogBackend ==>
          && ParseLog(r.cache.log, r.cache.manifest.count, sum).Ok?
          && Indexes(r.logIndex, r.cache.log, ParseLog(r.cache.log, r.cache.manifest.count, sum).value, hash))
  }

  /** The status of a directory that does not open. */
  ghost function OpenStatus(c: Cache): Status {
    if !SchemaOk(c.manifest.schema) then InvalidArgument
    else if Intact(c, Crc64) && StructureOk(c) && c.manifest.schema.backend == LogBackend
      && c.manifest.count > MAX_ENTRIES then OutOfMemory
    else Corrupt
  }

  /** Where validation leaves the file the C code has no defined outcome; the answer here is an error. */
  method Open(c: Cache, hash: Hasher) returns (r: Result<OpenReader>)
    requires |c.index| <= MAX_FILE
    ensures r.Ok? <==> Opens(c, Crc64)
    ensures r.Ok? ==> r.value.cache == c && Ready(r.value, hash, Crc64)
    ensures r.Ok? && c.manifest.schema.keyKind == U64Keys ==> c.manifest.schema.fixedKeySize in {0, 8}
    ensures r.Ok? && c.manifest.schema.keyKind == U128Keys ==> c.manifest.schema.fixedKeySize in {0, 16}
    ensures r.Err? && !(Intact(c, Crc64) && RunsOff(c)) ==> r.status == OpenStatus(c)
  {
    var schemaOk := ValidateSchema(c.manifest.schema);
    if schemaOk.Err? {
      return Err(schemaOk.status);
    }
    var valid := ValidateReaderFiles(c);
    if valid != Accepted {
      return Err(Corrupt);
    }
    if c.manifest.schema.backend != LogBackend {
      return Ok(OpenReader(c, []));
    }
    var entries := BuildLogIndex(c.log, c.manifest.count, hash, Crc64);
    if entries.Err? {
      return Err(entries.status);
    }
    return Ok(OpenReader(c, entries.value));
  }

  /** A freshly frozen index opens, unless another backend's log was left behind. */
  lemma {:induction false} FrozenIndexOpens(s: Schema, f: IndexFiles, staleLog: Bytes,
                                            recs: seq<Pair>, hash: Hasher, sh: SlotHasher, sum: Checksum)
    requires SchemaOk(s) && Image(s.backend, f, recs, hash, sh)
    ensures var c := IndexCache(s, f, staleLog, sum);
            Opens(c, sum) <==> staleLog == []
  {
    BuilderOutputIsStructured(s.backend, f, recs, hash, sh);
    var c := IndexCache(s, f, staleLog, sum);
    assert IndexPart(c) == f;
    IndexCacheIntact(s, f, staleLog, sum);
  }

  lemma {:induction false} IndexCacheIntact(s: Schema, f: IndexFiles, staleLog: Bytes, sum: Checksum)
    ensures Intact(IndexCache(s, f, staleLog, sum), sum) <==> staleLog == []
  {
  }

  /** A freshly frozen log opens exactly when no index files were left behind and every encoded length
      fits 32 bits. */
  lemma {:induction false} FrozenLogOpens(s: Schema, recs: seq<Pair>, stale: IndexFiles, sum: Checksum)
    requires SchemaOk(s) && s.backend == LogBackend && |LogBytes(recs, sum)| <= MAX_FILE
    ensures var c := LogCacheOf(s, LogImage(recs, sum), stale);
            Opens(c, sum) <==> stale.index == [] && stale.keys == [] && stale.values == [] && AllFit32(recs)
  {
    var log := LogBytes(recs, sum);
    LogRoundTrip(recs, sum, log);
    LogCountFits(recs, sum);
  }

  lemma {:induction false} LogCountFits(recs: seq<Pair>, sum: Checksum)
    requires |LogBytes(recs, sum)| <= MAX_FILE
    ensures |recs| <= MAX_ENTRIES
  {
    LongRows(Rows(recs, sum));
  }

  lemma {:induction false} LongRows(rows: seq<Bytes>)
    requires forall i :: 0 <= i < |rows| ==> |rows[i]| >= 32
    ensures |Flatten(rows)| >= 32 * |rows|
  {
    if rows != [] {
      LongRows(rows[..|rows| - 1]);
    }
  }

  // ---- Damage is noticed ----

  /** A change inside one window of at most eight bytes of a file that was intact. */
  lemma {:induction false} BurstBreaksFile(p: Bytes, a: Bytes, b: Bytes, q: Bytes, s: Stamp)
    requires |a| == |b| <= 8 && a != b && FileIntact(p + a + q, s, Crc64)
    ensures !FileIntact(p + b + q, s, Crc64)
  {
    BurstChangesCrc64(p, a, b, q);
  }

  /** Which of the data files. */
  datatype DataFile = IndexFile | KeysFile | ValuesFile | LogFile

  function Contents(c: Cache, file: DataFile): Bytes {
    match file
    case IndexFile => c.index
    case KeysFile => c.keys
    case ValuesFile => c.values
    case LogFile => c.log
  }

  function Overwrite(c: Cache, file: DataFile, data: Bytes): Cache {
    match file
    case IndexFile => c.(index := data)
    case KeysFile => c.(keys := data)
    case ValuesFile => c.(values := data)
    case LogFile => c.(log := data)
  }

  function StampFor(m: Manifest, file: DataFile): Stamp {
    match file
    case IndexFile => m.index
    case KeysFile => m.keys
    case ValuesFile => m.values
    case LogFile => m.log
  }

  lemma {:induction false} IntactFiles(c: Cache, file: DataFile, sum: Checksum)
    requires Intact(c, sum)
    ensures FileIntact(Contents(c, file), StampFor(c.manifest, file), sum)
  {
  }

  lemma {:induction false} BrokenFile(c: Cache, file: DataFile, data: Bytes, sum: Checksum)
    requires !FileIntact(data, StampFor(c.manifest, file), sum)
    ensures !Intact(Overwrite(c, file, data), sum)
  {
  }

  /** Any change confined to at most eight consecutive bytes of any data file of a cache with matching
      checksums makes validation fail before the damaged file is interpreted. */
  lemma {:induction false} BurstIsCorrupt(c: Cache, file: DataFile, p: Bytes, a: Bytes, b: Bytes, q: Bytes)
    requires Intact(c, Crc64) && Contents(c, file) == p + a + q && |a| == |b| <= 8 && a != b
    ensures var d := Overwrite(c, file, p + b + q); !Intact(d, Crc64) && !Opens(d, Crc64)
  {
    IntactFiles(c, file, Crc64);
    BurstBreaksFile(p, a, b, q, StampFor(c.manifest, file));
    BrokenFile(c, file, p + b + q, Crc64);
  }
}
