/** Writing logs: freeze_log and fce_log_append of src/backends/fce_backend_log.c. */
module LogCache {
  import opened Bytes
  import opened Records
  import opened Codecs
  import opened Crc
  import opened Log
  import opened Schemas

  /** log.fce and the fields of the manifest that describe it. */
  datatype LogFiles = LogFiles(log: Bytes, count: nat, size: nat, crc: u64)

  /** What one freeze of the records leaves. */
  ghost function LogImage(recs: seq<Pair>, sum: Checksum): LogFiles {
    var log := LogBytes(recs, sum);
    LogFiles(log, |recs|, |log|, sum(log))
  }

  /** The framing of one record, with the checksum chained over header, key and value. */
  method FrameRecord(p: Pair) returns (b: Bytes)
    ensures b == RecordBytes(p, Crc64)
  {
    var head := Head(p);
    var crc := CrcOfParts(head, p.key, p.value);
    b := head + p.key + p.value + Le(crc, 8);
  }

  method FreezeLog(recs: seq<Pair>) returns (r: Result<LogFiles>)
    ensures r == if |LogBytes(recs, Crc64)| <= MAX_FILE then Ok(LogImage(recs, Crc64)) else Err(Io)
  {
    var log: Bytes := [];
    var logSize := 0;
    for i := 0 to |recs|
      invariant log == LogBytes(recs[..i], Crc64) && logSize == |log| <= MAX_FILE
    {
      var b := FrameRecord(recs[i]);
      LogGrows(recs, i, Crc64);
      if |log| + |b| > MAX_FILE {
        LogOnlyGrows(recs, i + 1, Crc64);
        return Err(Io);
      }
      log := log + b;
      logSize := logSize + |b|;
    }
    assert recs[..|recs|] == recs;
    var crc := FileCrc64(log);
    return Ok(LogFiles(log, |recs|, logSize, crc));
  }

  lemma {:induction false} LogGrows(recs: seq<Pair>, i: nat, sum: Checksum)
    requires i < |recs|
    ensures LogBytes(recs[..i + 1], sum) == LogBytes(recs[..i], sum) + RecordBytes(recs[i], sum)
  {
    LogAppend(recs[..i], recs[i], sum);
    assert recs[..i + 1] == recs[..i] + [recs[i]];
  }

  lemma {:induction false} LogAppend(recs: seq<Pair>, p: Pair, sum: Checksum)
    ensures LogBytes(recs + [p], sum) == LogBytes(recs, sum) + RecordBytes(p, sum)
  {
    assert Rows(recs + [p], sum)[..|recs|] == Rows(recs, sum);
  }

  lemma {:induction false} LogOnlyGrows(recs: seq<Pair>, i: nat, sum: Checksum)
    requires i <= |recs|
    ensures |LogBytes(recs[..i], sum)| <= |LogBytes(recs, sum)|
  {
    assert Rows(recs, sum)[..i] == Rows(recs[..i], sum);
    var tail := FlattenSplit(Rows(recs, sum), i);
  }

  // ---- Appending ----

  /** The files after a successful append of one encoded record. */
  ghost function AppendFiles(f: LogFiles, p: Pair, sum: Checksum): LogFiles {
    var log := f.log + RecordBytes(p, sum);
    LogFiles(log, f.count + 1, f.size + 32 + |p.key| + |p.value|, sum(log))
  }

  ghost function AppendAll(f: LogFiles, ps: seq<Pair>, sum: Checksum): LogFiles {
    if ps == [] then f else AppendFiles(AppendAll(f, ps[..|ps| - 1], sum), ps[|ps| - 1], sum)
  }

  /** How an append of an encoded record ends: without the room, the manifest keeps its old fields
      and the log keeps its old bytes as a prefix. */
  ghost predicate Appended(before: LogFiles, p: Pair, after: LogFiles, r: Result<()>) {
    if |before.log| + 32 + |p.key| + |p.value| <= MAX_FILE then
      r == Ok(()) && after == AppendFiles(before, p, Crc64)
    else
      r == Err(Io) && after == before.(log := after.log) && before.log <= after.log && |after.log| == MAX_FILE
  }

  lemma {:induction false} ExtendIsAppend(f: LogFiles, p: Pair, b: Bytes, sum: Checksum, log: Bytes, size: nat)
    requires b == RecordBytes(p, sum) && log == f.log + b && size == f.size + |b|
    ensures LogFiles(log, f.count + 1, size, sum(log)) == AppendFiles(f, p, sum)
  {
  }

  /** The longer log and the manifest rewritten for it. */
  method Extend(f: LogFiles, ghost p: Pair, b: Bytes) returns (g: LogFiles)
    requires b == RecordBytes(p, Crc64)
    ensures g == AppendFiles(f, p, Crc64)
  {
    var log := f.log + b;
    var crc := FileCrc64(log);
    ExtendIsAppend(f, p, b, Crc64, log, f.size + |b|);
    return LogFiles(log, f.count + 1, f.size + |b|, crc);
  }

  method WriteRecord(f: LogFiles, p: Pair) returns (r: Result<()>, g: LogFiles)
    requires |f.log| <= MAX_FILE
    ensures Appended(f, p, g, r)
  {
    var b := FrameRecord(p);
    if |f.log| + |b| > MAX_FILE {
      r, g := Err(Io), f.(log := f.log + b[..MAX_FILE - |f.log|]);
    } else {
      g := Extend(f, p, b);
      r := Ok(());
    }
  }

  /** Bytes of 32-bit size and a log that is at most half full. */
  predicate Roomy(f: LogFiles, key: Bytes, value: Bytes) {
    |key| <= U32_MAX && |value| <= U32_MAX && |f.log| <= 0x3fff_ffff_ffff_ffff
  }

  lemma {:induction false} AppendRoom(keyCodec: Codec, valueCodec: Codec, key: Bytes, value: Bytes)
    requires |key| <= U32_MAX && |value| <= U32_MAX
    ensures var e := EncodePair(keyCodec, valueCodec, key, value);
      && (e.Ok? <==> Accepts(keyCodec, key) && Accepts(valueCodec, value))
      && (e.Ok? ==> |e.value.key| + |e.value.value| <= 0x5_0000_0000)
  {
    hide Encode, Accepts;
    EncodeAccepts(keyCodec, key);
    EncodeAccepts(valueCodec, value);
    if Encode(keyCodec, key).Ok? {
      EncodedSize(keyCodec, key);
    }
    if Encode(valueCodec, value).Ok? {
      EncodedSize(valueCodec, value);
    }
  }

  /** What log.fce and the manifest of a directory hold; the schema is read from the manifest. */
  class LogDir {
    var files: LogFiles
    const schema: Schema

    constructor (files: LogFiles, schema: Schema)
      ensures this.files == files && this.schema == schema
    {
      this.files, this.schema := files, schema;
    }

    /** fce_log_append inside its lock. */
    method Append(key: Bytes, value: Bytes) returns (r: Result<()>)
      requires |files.log| <= MAX_FILE
      modifies this
      ensures schema.backend != LogBackend ==> r == Err(InvalidArgument) && files == old(files)
      ensures schema.backend == LogBackend ==>
        match EncodePair(schema.keyCodec, schema.valueCodec, key, value)
        case Err(status) => r == Err(status) && files == old(files)
        case Ok(p) => Appended(old(files), p, files, r)
      ensures schema.backend == LogBackend && Roomy(old(files), key, value) ==>
        (r.Ok? <==> Accepts(schema.keyCodec, key) && Accepts(schema.valueCodec, value))
    {
      hide Encode, Accepts, AppendFiles;
      if |key| <= U32_MAX && |value| <= U32_MAX {
        AppendRoom(schema.keyCodec, schema.valueCodec, key, value);
      }
      if schema.backend != LogBackend {
        return Err(InvalidArgument);
      }
      var encoded := FceEncodePair(schema.keyCodec, schema.valueCodec, key, value);
      match encoded {
        case Err(status) => r := Err(status);
        case Ok(p) => r := AppendRecord(p);
      }
    }

    method AppendRecord(p: Pair) returns (r: Result<()>)
      requires |files.log| <= MAX_FILE
      modifies this
      ensures Appended(old(files), p, files, r)
    {
      var g;
      r, g := WriteRecord(files, p);
      files := g;
    }
  }

  lemma {:induction false} AppendIsImage(recs: seq<Pair>, p: Pair, sum: Checksum)
    ensures AppendFiles(LogImage(recs, sum), p, sum) == LogImage(recs + [p], sum)
  {
    LogAppend(recs, p, sum);
  }

  /** Freezing some records and appending others gives the very files of one freeze of all. */
  lemma {:induction false} FreezeThenAppend(recs: seq<Pair>, more: seq<Pair>, sum: Checksum)
    ensures AppendAll(LogImage(recs, sum), more, sum) == LogImage(recs + more, sum)
  {
    if more == [] {
      assert recs + more == recs;
    } else {
      var n := |more| - 1;
      var front := more[..n];
      FreezeThenAppend(recs, front, sum);
      AppendIsImage(recs + front, more[n], sum);
      assert recs + front + [more[n]] == recs + more;
    }
  }
}
