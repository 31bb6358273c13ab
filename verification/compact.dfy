/** Translating a cache into another backend: fce_compact of src/api/fce_reader_api.c lines 492-542. */
module Compaction {
  import opened Bytes
  import opened Sorting
  import opened Records
  import opened Format
  import opened Codecs
  import opened Log
  import opened Crc
  import opened Schemas
  import opened Validation
  import opened Reader
  import opened ReaderGet
  import opened Scans
  import opened Builders
  import opened Mph

  // ---- One record ----

  /** What is read for a record: both parts of a log record are decoded, of an indexed one only the value. */
  function Reads(s: Schema, source: Backend, p: Pair): Result<Pair> {
    match (if source == LogBackend then Decode(s.keyCodec, p.key) else Ok(p.key))
    case Err(status) => Err(status)
    case Ok(k) =>
      match (if source == LogBackend then Decode(s.valueCodec, p.value) else ReadValue(s.valueCodec, p.value))
      case Err(status) => Err(status)
      case Ok(v) => Ok(Pair(k, v))
  }

  /** The record that is staged for it, sizes aside: what was read goes through both codecs again. */
  function Translator(s: Schema, source: Backend): Pair -> Result<Pair> {
    (p: Pair) =>
      match Reads(s, source, p)
      case Err(status) => Err(status)
      case Ok(q) => EncodePair(s.keyCodec, s.valueCodec, q.key, q.value)
  }

  /** How the put of record i ends. */
  function Restaged(s: Schema, source: Backend, i: nat, p: Pair): Result<Pair> {
    match Reads(s, source, p)
    case Err(status) => Err(status)
    case Ok(q) => PutAnswer(s, i, q.key, q.value)
  }

  // ---- All records ----

  ghost predicate Mapped(f: Pair -> Result<Pair>, recs: seq<Pair>, staged: seq<Pair>) {
    |staged| == |recs| && forall i :: 0 <= i < |recs| ==> f(recs[i]) == Ok(staged[i])
  }

  /** The staged records, one for each record of the source. */
  ghost predicate Translated(s: Schema, source: Backend, recs: seq<Pair>, staged: seq<Pair>) {
    Mapped(Translator(s, source), recs, staged)
  }

  /** All records staged in order, or the first complaint. */
  ghost function Restaging(s: Schema, source: Backend, recs: seq<Pair>): Result<seq<Pair>> {
    if recs == [] then Ok([])
    else
      match Restaging(s, source, recs[..|recs| - 1])
      case Err(status) => Err(status)
      case Ok(front) =>
        match Restaged(s, source, |recs| - 1, recs[|recs| - 1])
        case Err(status) => Err(status)
        case Ok(p) => Ok(front + [p])
  }

  /** A record that is staged whenever there is room. */
  ghost predicate Takes(s: Schema, source: Backend, p: Pair) {
    && Reads(s, source, p).Ok?
    && var q := Reads(s, source, p).value;
    Sized(s, q.key, q.value) && EncodePair(s.keyCodec, s.valueCodec, q.key, q.value).Ok?
  }

  /** All is staged exactly when every record decodes, has the fixed sizes and encodes again, and the builder
      has room for them; what is staged is then the translation of each. */
  lemma {:induction false} RestagingIff(s: Schema, source: Backend, recs: seq<Pair>)
    ensures Restaging(s, source, recs).Ok? <==>
      |recs| <= MAX_STAGED && forall i :: 0 <= i < |recs| ==> Takes(s, source, recs[i])
    ensures Restaging(s, source, recs).Ok? ==> Translated(s, source, recs, Restaging(s, source, recs).value)
  {
    hide Restaged, Takes, Translator;
    if recs != [] {
      var n := |recs| - 1;
      RestagingIff(s, source, recs[..n]);
      assert forall i :: 0 <= i < n ==> recs[..n][i] == recs[i];
      TakesOne(s, source, n, recs[n]);
    }
  }

  lemma {:induction false} TakesOne(s: Schema, source: Backend, i: nat, p: Pair)
    ensures Restaged(s, source, i, p).Ok? <==> i < MAX_STAGED && Takes(s, source, p)
    ensures Restaged(s, source, i, p).Ok? ==> Translator(s, source)(p) == Restaged(s, source, i, p)
  {
    hide Decode, EncodePair, Encode, ReadValue;
  }

  /** The status is that of the first record that is not staged. */
  lemma {:induction false} RestagingFails(s: Schema, source: Backend, recs: seq<Pair>, i: nat)
    requires i < |recs| && Restaging(s, source, recs[..i]).Ok? && Restaged(s, source, i, recs[i]).Err?
    ensures Restaging(s, source, recs) == Err(Restaged(s, source, i, recs[i]).status)
  {
    hide Restaged;
    var n := |recs| - 1;
    if i < n {
      assert recs[..n][..i] == recs[..i];
      RestagingFails(s, source, recs[..n], i);
    }
  }

  lemma {:induction false} RestagingGrows(s: Schema, source: Backend, recs: seq<Pair>, i: nat)
    requires i < |recs| && Restaging(s, source, recs[..i]).Ok? && Restaged(s, source, i, recs[i]).Ok?
    ensures Restaging(s, source, recs[..i + 1])
      == Ok(Restaging(s, source, recs[..i]).value + [Restaged(s, source, i, recs[i]).value])
  {
    hide Restaged;
    assert recs[..i + 1][..i] == recs[..i];
  }

  // ---- Reading a log ----

  /** The record at pos of a log that has been parsed. */
  method ReadRecord(log: Bytes, pos: nat, ghost sum: Checksum) returns (p: Pair, next: nat)
    requires pos + 32 <= |log| && ParseRecord(log, pos, sum).Some?
    ensures var parsed := ParseRecord(log, pos, sum).value; p == PairAt(parsed.loc, log, log) && next == parsed.next
  {
    var kl := UnLe(log[pos + 8..pos + 16]);
    var vl := UnLe(log[pos + 16..pos + 24]);
    var at := pos + 24;
    var key := log[at..at + kl];
    at := at + kl;
    var value := log[at..at + vl];
    at := at + vl + 8;
    return Pair(key, value), at;
  }

  /** Decode one record and stage it. */
  method PutFromLog(s: Schema, p: Pair, b: Builder) returns (r: Result<()>)
    requires b.Valid() && !b.frozen && b.schema == s.(backend := b.schema.backend)
    modifies b, b.records
    ensures b.Valid() && (b.records == old(b.records) || fresh(b.records)) && !b.frozen
    ensures StagedOne(old(Pairs(b.Staged())), Pairs(b.Staged()), Restaged(s, LogBackend, old(b.count), p), r)
  {
    var key := FceCodecDecode(s.keyCodec, p.key);
    if key.Err? {
      return Err(key.status);
    }
    var value := FceCodecDecode(s.valueCodec, p.value);
    if value.Err? {
      return Err(value.status);
    }
    r := PutPair(s, key.value, value.value, b);
  }

  /** One more record is staged, or none and the status is passed on. */
  ghost predicate StagedOne(before: seq<Pair>, after: seq<Pair>, answer: Result<Pair>, r: Result<()>) {
    match answer
    case Ok(p) => r == Ok(()) && after == before + [p]
    case Err(status) => r == Err(status) && after == before
  }

  method PutPair(s: Schema, key: Bytes, value: Bytes, b: Builder) returns (r: Result<()>)
    requires b.Valid() && !b.frozen && b.schema == s.(backend := b.schema.backend)
    modifies b, b.records
    ensures b.Valid() && (b.records == old(b.records) || fresh(b.records)) && !b.frozen
    ensures StagedOne(old(Pairs(b.Staged())), Pairs(b.Staged()), PutAnswer(s, old(b.count), key, value), r)
  {
    hide Encode, Capacity, AllSized, EncodedPuts;
    ghost var before := b.Staged();
    r := b.Put(key, value);
    if r.Ok? {
      assert r.value == ();
      assert Pairs(b.Staged()) == Pairs(before) + [PutAnswer(s, old(b.count), key, value).value];
    }
  }

  method FeedLog(r: OpenReader, b: Builder, ghost locs: seq<Loc>, ghost recs: seq<Pair>, ghost sum: Checksum)
    returns (st: Result<()>)
    requires b.Valid() && !b.frozen && b.Staged() == []
    requires b.schema == r.cache.manifest.schema.(backend := b.schema.backend)
    requires ParseLog(r.cache.log, r.cache.manifest.count, sum) == Ok(locs)
      && Laid(locs, r.cache.log, r.cache.log, recs)
    modifies b, b.records
    ensures b.Valid() && !b.frozen
    ensures FeedEnds(Restaging(r.cache.manifest.schema, LogBackend, recs), Pairs(b.Staged()), st)
  {
    hide Capacity, AllSized, EncodedPuts, Stamped, Restaged, Laid, PairAt, RecordBytes;
    var log, s := r.cache.log, r.cache.manifest.schema;
    ghost var t, n := LogTape(log, sum), r.cache.manifest.count;
    LogTapeAdvances(log, sum);
    ghost var i := 0;
    var pos := 0;
    assert locs[0..] == locs;
    while pos + 32 <= |log|
      invariant pos <= |log| && i <= |locs| && i <= |recs|
      invariant ParseFrom(t, pos, i, n) == Ok(locs[i..])
      invariant b.Valid() && !b.frozen && (b.records == old(b.records) || fresh(b.records))
      invariant Restaging(s, LogBackend, recs[..i]) == Ok(Pairs(b.Staged()))
      decreases |log| - pos
    {
      NextRecord(log, pos, i, n, sum, locs, recs);
      var p, next := ReadRecord(log, pos, sum);
      StagedCount(s, LogBackend, recs[..i], b);
      st := PutFromLog(s, p, b);
      if st.Err? {
        RestagingFails(s, LogBackend, recs, i);
        return;
      }
      RestagingGrows(s, LogBackend, recs, i);
      pos, i := next, i + 1;
    }
    LogIsRead(log, pos, i, n, sum, locs, recs);
    return Ok(());
  }

  /** How feeding the builder ends. */
  ghost predicate FeedEnds(answer: Result<seq<Pair>>, staged: seq<Pair>, st: Result<()>) {
    match answer
    case Ok(all) => st == Ok(()) && staged == all
    case Err(status) => st == Err(status)
  }

  lemma {:induction false} StagedCount(s: Schema, source: Backend, recs: seq<Pair>, b: Builder)
    requires b.Valid() && Restaging(s, source, recs) == Ok(Pairs(b.Staged()))
    ensures b.count == |recs|
  {
    RestagingIff(s, source, recs);
  }

  lemma {:induction false} LogIsRead(log: Bytes, pos: nat, i: nat, n: nat, sum: Checksum, locs: seq<Loc>,
                                     recs: seq<Pair>)
    requires pos <= |log| < pos + 32 && i <= |locs| && Laid(locs, log, log, recs)
    requires LogTape(log, sum).Advances() && ParseFrom(LogTape(log, sum), pos, i, n) == Ok(locs[i..])
    ensures i == |recs| && recs[..i] == recs
  {
  }

  lemma {:induction false} NextRecord(log: Bytes, pos: nat, i: nat, n: nat, sum: Checksum, locs: seq<Loc>,
                                      recs: seq<Pair>)
    requires pos + 32 <= |log| && i <= |locs| && Laid(locs, log, log, recs)
    requires LogTape(log, sum).Advances() && ParseFrom(LogTape(log, sum), pos, i, n) == Ok(locs[i..])
    ensures i < |locs| && |recs| == |locs| && ParseRecord(log, pos, sum).Some?
    ensures var p := ParseRecord(log, pos, sum).value;
            PairAt(p.loc, log, log) == recs[i] && ParseFrom(LogTape(log, sum), p.next, i + 1, n) == Ok(locs[i + 1..])
  {
    ParseRound(LogTape(log, sum), pos, i, n, locs[i..]);
    assert locs[i..][0] == locs[i] && locs[i..][1..] == locs[i + 1..];
    assert Listed(locs, log, log)[i] == recs[i];
  }

  // ---- Reading an index ----

  /** Drain a full scan into the builder. */
  method FeedIndex(r: OpenReader, b: Builder, ghost recs: seq<Pair>) returns (st: Result<()>)
    requires StructureOk(r.cache) && r.cache.manifest.schema.backend != LogBackend
    requires b.Valid() && !b.frozen && b.Staged() == []
    requires b.schema == r.cache.manifest.schema.(backend := b.schema.backend)
    requires Occupied(Cells(r), OccupiedCells(Cells(r))) && CellsInRange(Cells(r), r.cache.keys, r.cache.values)
    requires recs == Listing(Cells(r), OccupiedCells(Cells(r)), r.cache.keys, r.cache.values)
    modifies b, b.records
    ensures b.Valid() && !b.frozen
    ensures FeedEnds(Restaging(r.cache.manifest.schema, r.cache.manifest.schema.backend, recs), Pairs(b.Staged()), st)
  {
    hide Capacity, AllSized, EncodedPuts, Stamped, Restaged, StructureOk, Cells;
    var s := r.cache.manifest.schema;
    var scan := ScanAll(r);
    var it := scan.value;
    while true
      invariant it.Valid() && it.reader == r && it.matches == OccupiedCells(Cells(r)) && it.pos <= |recs| && fresh(it)
      invariant b.Valid() && !b.frozen && (b.records == old(b.records) || fresh(b.records))
      invariant b.schema == s.(backend := b.schema.backend)
      invariant Restaging(s, s.backend, recs[..it.pos]) == Ok(Pairs(b.Staged()))
      decreases |recs| - it.pos
    {
      ghost var i := it.pos;
      var nx := it.Next();
      if nx == Err(NotFound) {
        if i < |recs| {
          ItemNeverNotFound(Cells(r)[it.matches[i]], r.cache.keys, r.cache.values, s.valueCodec);
        }
        break;
      }
      ItemIsRead(r, recs, i);
      if nx.Err? {
        RestagingFails(s, s.backend, recs, i);
        return Err(nx.status);
      }
      StagedCount(s, s.backend, recs[..i], b);
      st := PutPair(s, nx.value.key, nx.value.value, b);
      if st.Err? {
        RestagingFails(s, s.backend, recs, i);
        return;
      }
      RestagingGrows(s, s.backend, recs, i);
    }
    assert recs[..it.pos] == recs;
    return Ok(());
  }

  /** What the iterator yields is what a compaction reads. */
  lemma {:induction false} ItemIsRead(r: OpenReader, recs: seq<Pair>, i: nat)
    requires StructureOk(r.cache) && r.cache.manifest.schema.backend != LogBackend && i < |recs|
    requires Occupied(Cells(r), OccupiedCells(Cells(r))) && CellsInRange(Cells(r), r.cache.keys, r.cache.values)
    requires recs == Listing(Cells(r), OccupiedCells(Cells(r)), r.cache.keys, r.cache.values)
    ensures var s := r.cache.manifest.schema;
      && var item := Item(Cells(r)[OccupiedCells(Cells(r))[i]], r.cache.keys, r.cache.values, s.valueCodec);
      && item == Reads(s, s.backend, recs[i])
      && Restaged(s, s.backend, i, recs[i])
         == match item case Err(status) => Err(status) case Ok(q) => PutAnswer(s, i, q.key, q.value)
  {
    hide StructureOk;
  }

  lemma {:induction false} ItemNeverNotFound(cell: Option<Loc>, keys: Bytes, values: Bytes, vc: Codec)
    ensures Item(cell, keys, values, vc) != Err(NotFound)
  {
  }

  // ---- The whole translation ----

  /** Structure and, for a log, framing are right. */
  ghost predicate Readable(c: Cache) {
    && StructureOk(c)
    && (c.manifest.schema.backend == LogBackend ==> ParseLog(c.log, c.manifest.count, Crc64).Ok?)
  }

  /** The records of a log, and those of a table. */
  ghost function LogRecords(c: Cache): seq<Pair>
    requires ParseLog(c.log, c.manifest.count, Crc64).Ok?
  {
    LogTapeAdvances(c.log, Crc64);
    ParsedInRange(c.log, Crc64, 0, 0, c.manifest.count);
    Listed(ParseLog(c.log, c.manifest.count, Crc64).value, c.log, c.log)
  }

  /** The parser only returns places inside the log. */
  lemma {:induction false} ParsedInRange(log: Bytes, sum: Checksum, pos: nat, order: nat, count: nat)
    requires pos <= |log| && LogTape(log, sum).Advances() && ParseFrom(LogTape(log, sum), pos, order, count).Ok?
    ensures InRange(ParseFrom(LogTape(log, sum), pos, order, count).value, log, log)
    decreases |log| - pos
  {
    hide ParseRecord;
    var t := LogTape(log, sum);
    var locs := ParseFrom(t, pos, order, count).value;
    ParseRound(t, pos, order, count, locs);
    if pos + 32 <= |log| {
      ParsedInRange(log, sum, t.at(pos).value.next, order + 1, count);
      assert forall i :: 0 < i < |locs| ==> locs[i] == locs[1..][i - 1];
    }
  }

  ghost function TableRecords(r: OpenReader): seq<Pair>
    requires StructureOk(r.cache)
  {
    FullScanIsListable(r);
    Listing(Cells(r), OccupiedCells(Cells(r)), r.cache.keys, r.cache.values)
  }

  /** The records a compaction reads off an open source, in its order. */
  ghost function SourceRecords(c: Cache): seq<Pair>
    requires Readable(c)
  {
    if c.manifest.schema.backend == LogBackend then LogRecords(c) else TableRecords(OpenReader(c, []))
  }

  lemma {:induction false} FullScanIsListable(r: OpenReader)
    requires StructureOk(r.cache)
    ensures Occupied(Cells(r), OccupiedCells(Cells(r))) && CellsInRange(Cells(r), r.cache.keys, r.cache.values)
  {
    ValidatedCells(r);
    OccupiedCellsAreOccupied(Cells(r));
  }

  /** The open log index plays no part in a full scan. */
  lemma {:induction false} CellsOfCache(r: OpenReader)
    requires StructureOk(r.cache)
    ensures Cells(r) == Cells(OpenReader(r.cache, []))
  {
  }

  lemma {:induction false} OccupiedCellsAreOccupied(cells: seq<Option<Loc>>)
    ensures Occupied(cells, OccupiedCells(cells))
  {
    SelectIsFilter(|cells|, i => 0 <= i < |cells| && cells[i].Some?);
    var m := OccupiedCells(cells);
    forall k | 0 <= k < |m| ensures m[k] < |cells| && cells[m[k]].Some? {
      assert m[k] in m;
    }
  }

  /** The manifest counts the records of the source. */
  lemma {:induction false} SourceCount(c: Cache)
    requires Readable(c)
    ensures |SourceRecords(c)| == c.manifest.count
  {
    if c.manifest.schema.backend == LogBackend {
      LogTapeAdvances(c.log, Crc64);
      ParseCount(LogTape(c.log, Crc64), 0, 0, c.manifest.count);
    } else {
      CellCount(OpenReader(c, []));
    }
  }

  lemma {:induction false} ParseCount(t: Tape, pos: nat, order: nat, count: nat)
    requires t.Advances() && pos <= t.size && ParseFrom(t, pos, order, count).Ok?
    ensures order + |ParseFrom(t, pos, order, count).value| == count
    decreases t.size - pos
  {
    var locs := ParseFrom(t, pos, order, count).value;
    ParseRound(t, pos, order, count, locs);
    if pos + 32 <= t.size {
      ParseCount(t, t.at(pos).value.next, order + 1, count);
    }
  }

  lemma {:induction false} CellCount(r: OpenReader)
    requires StructureOk(r.cache) && r.cache.manifest.schema.backend != LogBackend
    ensures |OccupiedCells(Cells(r))| == r.cache.manifest.count
  {
    if r.cache.manifest.schema.backend == DirectBackend {
      DirectCellCount(r);
    } else {
      hide StructureOk, Cells;
      var cells := Cells(r);
      FullCellCount(r);
      SelectAll(|cells|, i => 0 <= i < |cells| && cells[i].Some?);
    }
  }

  lemma {:induction false} DirectCellCount(r: OpenReader)
    requires StructureOk(r.cache) && r.cache.manifest.schema.backend == DirectBackend
    ensures |OccupiedCells(Cells(r))| == r.cache.manifest.count
  {
    var cells := Cells(r);
    var slots := DirectTable.DirectSlots(r.cache.index);
    SelectSame(|slots|, i => 0 <= i < |cells| && cells[i].Some?, s => 0 <= s < |slots| && slots[s].present);
  }

  lemma {:induction false} FullCellCount(r: OpenReader)
    requires StructureOk(r.cache)
    requires r.cache.manifest.schema.backend != LogBackend && r.cache.manifest.schema.backend != DirectBackend
    ensures |Cells(r)| == r.cache.manifest.count && AllOccupied(Cells(r))
  {
    if r.cache.manifest.schema.backend == RadixBackend {
      RadixCellCount(r);
    } else {
      hide InRange, RadixCells, RadixOk;
    }
  }

  lemma {:induction false} RadixCellCount(r: OpenReader)
    requires StructureOk(r.cache) && r.cache.manifest.schema.backend == RadixBackend
    ensures |Cells(r)| == r.cache.manifest.count && AllOccupied(Cells(r))
  {
    hide InRange, NodesOk;
    assert RadixOk(r.cache.index, r.cache.keys, r.cache.values, r.cache.manifest.count);
  }

  lemma {:induction false} SurvivorsAreFewer(puts: seq<Pair>)
    ensures |Survivors(puts)| <= |puts|
  {
    if puts != [] {
      SurvivorsAreFewer(puts[..|puts| - 1]);
      UpsertGrowsByOne(Survivors(puts[..|puts| - 1]), puts[|puts| - 1]);
    }
  }

  lemma {:induction false} UpsertGrowsByOne(recs: seq<Pair>, p: Pair)
    ensures |Upsert(recs, p)| <= |recs| + 1
  {
    if recs != [] && !KeyLess(p.key, recs[0].key) && recs[0].key != p.key {
      UpsertGrowsByOne(recs[1..], p);
    }
  }

  /** What a compaction stages. */
  ghost function Staging(c: Cache): Result<seq<Pair>>
    requires Readable(c)
  {
    Restaging(c.manifest.schema, c.manifest.schema.backend, SourceRecords(c))
  }

  /** Exactly the compactions that succeed: the source opens, the target schema is valid, every record is staged
      and the target backend accepts what is staged. */
  ghost predicate Compacts(src: Cache, t: Schema, hash: Hasher, sh: SlotHasher) {
    && Opens(src, Crc64) && Readable(src) && SchemaOk(t)
    && Staging(src).Ok? && Freezable(t, Staging(src).value, hash, sh)
  }

  /** What a successful compaction leaves. */
  ghost predicate Compacted(src: Cache, t: Schema, dir: Cache, out: Cache, hash: Hasher, sh: SlotHasher) {
    Compacts(src, t, hash, sh) && Frozen(t, Staging(src).value, dir, out, hash, sh)
  }

  /** Records stamped with their positions, as the builder stages them. */
  function Stamp(ps: seq<Pair>): (records: seq<BuildRecord>)
    ensures Stamped(records) && Pairs(records) == ps
  {
    seq(|ps|, i requires 0 <= i < |ps| => BuildRecord(ps[i].key, ps[i].value, i))
  }

  /** The status of a compaction that fails. */
  ghost function CompactStatus(src: Cache, t: Schema): Status {
    if !(Opens(src, Crc64) && Readable(src)) then OpenStatus(src)
    else if !SchemaOk(t) then InvalidArgument
    else
      match Staging(src)
      case Err(status) => status
      case Ok(staged) => FreezeStatus(t, Stamp(staged))
  }

  method Feed(r: OpenReader, b: Builder, ghost hash: Hasher) returns (st: Result<()>)
    requires Ready(r, hash, Crc64) && Readable(r.cache)
    requires b.Valid() && !b.frozen && b.Staged() == []
    requires b.schema == r.cache.manifest.schema.(backend := b.schema.backend)
    modifies b, b.records
    ensures b.Valid() && !b.frozen
    ensures FeedEnds(Staging(r.cache), Pairs(b.Staged()), st)
  {
    hide Capacity, AllSized, EncodedPuts, Stamped, Restaging, FeedEnds, StructureOk;
    var c := r.cache;
    if c.manifest.schema.backend == LogBackend {
      ghost var locs := ParseLog(c.log, c.manifest.count, Crc64).value;
      st := FeedLog(r, b, locs, SourceRecords(c), Crc64);
    } else {
      CellsOfCache(r);
      FullScanIsListable(r);
      st := FeedIndex(r, b, SourceRecords(c));
    }
  }

  method Translate(r: OpenReader, t: Schema, dir: Cache, hash: Hasher, sh: SlotHasher) returns (out: Result<Cache>)
    requires Ready(r, hash, Crc64) && Readable(r.cache) && Opens(r.cache, Crc64)
    requires t == r.cache.manifest.schema.(backend := t.backend)
    requires t.backend == MphBackend ==> r.cache.manifest.count <= U32_MAX
    ensures out.Ok? <==> Compacts(r.cache, t, hash, sh)
    ensures out.Ok? ==> Compacted(r.cache, t, dir, out.value, hash, sh)
    ensures out.Err? ==> out.status == CompactStatus(r.cache, t)
  {
    hide Opens, Ready, Readable, Staging, Freezable, Frozen, FreezeStatus;
    var schemaOk := ValidateSchema(t);
    if schemaOk.Err? {
      return Err(schemaOk.status);
    }
    var b := new Builder(t);
    var fed := Feed(r, b, hash);
    if fed.Err? {
      return Err(fed.status);
    }
    StagedIsFewEnough(r.cache, Pairs(b.Staged()));
    StampedIsStamp(b.Staged());
    out := b.Freeze(dir, hash, sh);
  }

  lemma {:induction false} StagedIsFewEnough(c: Cache, staged: seq<Pair>)
    requires Readable(c) && Staging(c) == Ok(staged)
    ensures |Survivors(staged)| <= c.manifest.count
  {
    SourceCount(c);
    RestagingIff(c.manifest.schema, c.manifest.schema.backend, SourceRecords(c));
    SurvivorsAreFewer(staged);
  }

  lemma {:induction false} StampedIsStamp(records: seq<BuildRecord>)
    requires Stamped(records)
    ensures records == Stamp(Pairs(records))
  {
  }

  lemma {:induction false} OpensIsReadable(c: Cache)
    requires Opens(c, Crc64)
    ensures Readable(c)
  {
  }

  /** fce_compact: exactly when it succeeds, what it then leaves, and its status otherwise. */
  method Compact(src: Cache, backend: Backend, dir: Cache, hash: Hasher, sh: SlotHasher) returns (out: Result<Cache>)
    requires |src.index| <= MAX_FILE
    requires backend == MphBackend ==> src.manifest.count <= U32_MAX
    ensures out.Ok? <==> Compacts(src, src.manifest.schema.(backend := backend), hash, sh)
    ensures out.Ok? ==> Compacted(src, src.manifest.schema.(backend := backend), dir, out.value, hash, sh)
    ensures out.Err? && !(Intact(src, Crc64) && RunsOff(src)) ==>
      out.status == CompactStatus(src, src.manifest.schema.(backend := backend))
  {
    hide Opens, Ready, Readable, Staging, Freezable, Frozen, Intact, RunsOff, FreezeStatus;
    var source := Open(src, hash);
    if source.Err? {
      return Err(source.status);
    }
    OpensIsReadable(src);
    out := Translate(source.value, src.manifest.schema.(backend := backend), dir, hash, sh);
  }
}
