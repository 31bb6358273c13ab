/** The log's in-memory index and lookup: build_log_index and get_log of
    src/backends/fce_backend_log.c. */
module LogIndex {
  import opened Bytes
  import opened Sorting
  import opened Records
  import opened Format
  import opened SortedIndex
  import opened Log

  datatype LogIndexEntry = LogIndexEntry(hash: Hash128, loc: Loc, order: nat)

  function CmpLogIndexEntry(x: LogIndexEntry, y: LogIndexEntry): int {
    if x.hash.hi != y.hash.hi then x.hash.hi - y.hash.hi
    else if x.hash.lo != y.hash.lo then x.hash.lo - y.hash.lo
    else if x.loc.keyLen != y.loc.keyLen then x.loc.keyLen - y.loc.keyLen
    else if x.loc.keyOff != y.loc.keyOff then x.loc.keyOff - y.loc.keyOff
    else x.order - y.order
  }

  const BY_LOG_INDEX_ENTRY := (x: LogIndexEntry, y: LogIndexEntry) => CmpLogIndexEntry(x, y) <= 0

  lemma {:induction false} CmpLogIndexEntryIsTotal()
    ensures TotalPreorder(BY_LOG_INDEX_ENTRY)
  {
  }

  ghost predicate InHashOrder(e: seq<LogIndexEntry>) {
    forall i, j :: 0 <= i < j < |e| ==> !HashLess(e[j].hash, e[i].hash)
  }

  /** The entry of each parsed record, in file order. */
  function EntryOf(log: Bytes, loc: Loc, order: nat, hash: Hasher): LogIndexEntry
    requires LocInRange(loc, |log|, |log|)
  {
    LogIndexEntry(hash(log[loc.keyOff..loc.keyOff + loc.keyLen]), loc, order)
  }

  ghost function LogEntries(log: Bytes, locs: seq<Loc>, hash: Hasher): seq<LogIndexEntry>
    requires InRange(locs, log, log)
  {
    seq(|locs|, i requires 0 <= i < |locs| => EntryOf(log, locs[i], i, hash))
  }

  /** The index holds one entry per record of the log, in hash order. */
  ghost predicate Indexes(e: seq<LogIndexEntry>, log: Bytes, locs: seq<Loc>, hash: Hasher) {
    && InRange(locs, log, log) && |e| == |locs|
    && InHashOrder(e)
    && forall x :: x in e <==> x in LogEntries(log, locs, hash)
  }

  /** sizeof(LogIndexEntry) times the count must not overflow a size_t. */
  const MAX_ENTRIES := 0xffff_ffff_ffff_ffff / 48

  method BuildLogIndex(log: Bytes, count: nat, hash: Hasher, sum: Checksum) returns (r: Result<seq<LogIndexEntry>>)
    ensures count > MAX_ENTRIES ==> r == Err(OutOfMemory)
    ensures count <= MAX_ENTRIES && ParseLog(log, count, sum).Err? ==> r == Err(Corrupt)
    ensures count <= MAX_ENTRIES && ParseLog(log, count, sum).Ok? ==>
              r.Ok? && Indexes(r.value, log, ParseLog(log, count, sum).value, hash)
  {
    if count > MAX_ENTRIES {
      return Err(OutOfMemory);
    }
    var entries, locs :- ReadEntries(log, count, hash, sum);
    CmpLogIndexEntryIsTotal();
    var sorted := Qsort(entries, BY_LOG_INDEX_ENTRY);
    SortedLogIndex(entries, sorted, log, locs, hash);
    return Ok(sorted);
  }

  /** The parsing loop. */
  method ReadEntries(log: Bytes, count: nat, hash: Hasher, sum: Checksum)
    returns (r: Result<seq<LogIndexEntry>>, ghost locs: seq<Loc>)
    ensures r.Err? ==> r == Err(Corrupt) && ParseLog(log, count, sum).Err?
    ensures r.Ok? ==>
      ParseLog(log, count, sum) == Ok(locs) && InRange(locs, log, log) && r.value == LogEntries(log, locs, hash)
  {
    var entries := [];
    locs := [];
    var pos, order := 0, 0;
    ghost var t, all := LogTape(log, sum), ParseLog(log, count, sum);
    LogTapeAdvances(log, sum);
    ResumeStart(all, locs);
    while pos + 32 <= |log|
      invariant 0 <= pos <= |log| && order == |locs| <= count
      invariant InRange(locs, log, log) && entries == LogEntries(log, locs, hash)
      invariant Resumes(all, locs, ParseFrom(t, pos, order, count))
      decreases |log| - pos
    {
      var p := ParseRecord(log, pos, sum);
      assert t.at(pos) == p;
      if p == None || order >= count {
        return Err(Corrupt), locs;
      }
      ResumeStep(all, locs, p.value.loc, ParseFrom(t, p.value.next, order + 1, count));
      EntriesGrow(log, locs, p.value.loc, hash);
      entries := entries + [EntryOf(log, p.value.loc, order, hash)];
      locs := locs + [p.value.loc];
      pos, order := p.value.next, order + 1;
    }
    if pos != |log| || order != count {
      return Err(Corrupt), locs;
    }
    assert locs + [] == locs;
    return Ok(entries), locs;
  }

  lemma {:induction false} EntriesGrow(log: Bytes, locs: seq<Loc>, loc: Loc, hash: Hasher)
    requires InRange(locs, log, log) && LocInRange(loc, |log|, |log|)
    ensures InRange(locs + [loc], log, log)
    ensures LogEntries(log, locs + [loc], hash) == LogEntries(log, locs, hash) + [EntryOf(log, loc, |locs|, hash)]
  {
  }

  lemma {:induction false} ResumeStart(all: Result<seq<Loc>>, none: seq<Loc>)
    requires none == []
    ensures Resumes(all, none, all)
  {
    if all.Ok? {
      assert none + all.value == all.value;
    }
  }

  /** The whole parse is what was read so far followed by the parse of the rest. */
  ghost predicate Resumes(all: Result<seq<Loc>>, done: seq<Loc>, rest: Result<seq<Loc>>) {
    all == (match rest case Err(status) => Err(status) case Ok(locs) => Ok(done + locs))
  }

  lemma {:induction false} ResumeStep(all: Result<seq<Loc>>, done: seq<Loc>, loc: Loc, rest: Result<seq<Loc>>)
    requires Resumes(all, done, match rest case Err(status) => Err(status) case Ok(locs) => Ok([loc] + locs))
    ensures Resumes(all, done + [loc], rest)
  {
    if rest.Ok? {
      assert done + ([loc] + rest.value) == done + [loc] + rest.value;
    }
  }

  lemma {:induction false} SortedLogIndex(entries: seq<LogIndexEntry>, sorted: seq<LogIndexEntry>, log: Bytes,
                                          locs: seq<Loc>, hash: Hasher)
    requires InRange(locs, log, log) && entries == LogEntries(log, locs, hash)
    requires multiset(entries) == multiset(sorted) && |sorted| == |entries| && Ascending(sorted, BY_LOG_INDEX_ENTRY)
    ensures Indexes(sorted, log, locs, hash)
  {
    SameElements(entries, sorted);
    forall i, j | 0 <= i < j < |sorted| ensures !HashLess(sorted[j].hash, sorted[i].hash) {
      assert BY_LOG_INDEX_ENTRY(sorted[i], sorted[j]);
    }
  }

  // ---- get_log ----

  predicate Matches(e: LogIndexEntry, log: Bytes, h: Hash128, key: Bytes) {
    e.hash == h && KeyEqual(log, e.loc.keyOff, e.loc.keyLen, key)
  }

  /** The linear scan: among the matching entries, the one with the greatest order. */
  function Newest(e: seq<LogIndexEntry>, log: Bytes, h: Hash128, key: Bytes,
                  best: Option<LogIndexEntry>): Option<LogIndexEntry>
  {
    if e == [] then best
    else Newest(e[1..], log, h, key, Better(e[0], log, h, key, best))
  }

  function Better(x: LogIndexEntry, log: Bytes, h: Hash128, key: Bytes,
                  best: Option<LogIndexEntry>): Option<LogIndexEntry>
  {
    if Matches(x, log, h, key) && (best == None || x.order > best.value.order) then Some(x) else best
  }

  function Found(best: Option<LogIndexEntry>, log: Bytes): Result<Bytes> {
    match best
    case None => Err(NotFound)
    case Some(e) => ValueAt(e.loc, log)
  }

  /** The first entry whose hash is not below the wanted one. */
  method LowerBound(e: seq<LogIndexEntry>, h: Hash128) returns (lo: nat)
    requires InHashOrder(e)
    ensures lo <= |e|
    ensures forall i :: 0 <= i < lo ==> HashLess(e[i].hash, h)
    ensures forall i :: lo <= i < |e| ==> !HashLess(e[i].hash, h)
  {
    var hi := |e|;
    lo := 0;
    while lo < hi
      invariant 0 <= lo <= hi <= |e|
      invariant forall i :: 0 <= i < lo ==> HashLess(e[i].hash, h)
      invariant forall i :: hi <= i < |e| ==> !HashLess(e[i].hash, h)
    {
      var mid := lo + (hi - lo) / 2;
      if HashLess(e[mid].hash, h) {
        lo := mid + 1;
      } else {
        hi := mid;
      }
    }
  }

  method GetLog(e: seq<LogIndexEntry>, log: Bytes, hash: Hasher, key: Bytes) returns (r: Result<Bytes>)
    requires InHashOrder(e)
    ensures r == Found(Newest(e, log, hash(key), key, None), log)
  {
    var h := hash(key);
    var n := |e|;
    var lo := LowerBound(e, h);
    SkipOthers(e, log, h, key, None, lo);
    var best: Option<LogIndexEntry> := None;
    var i := lo;
    while i < n && e[i].hash == h
      invariant lo <= i <= n
      invariant Newest(e, log, h, key, None) == Newest(e[i..], log, h, key, best)
    {
      assert e[i..][1..] == e[i + 1..];
      if KeyEqual(log, e[i].loc.keyOff, e[i].loc.keyLen, key) {
        if best == None || e[i].order > best.value.order {
          best := Some(e[i]);
        }
      }
      i := i + 1;
    }
    SkipOthers(e[i..], log, h, key, best, n - i);
    return Found(best, log);
  }

  lemma {:induction false} SkipOthers(e: seq<LogIndexEntry>, log: Bytes, h: Hash128, key: Bytes,
                                      best: Option<LogIndexEntry>, k: nat)
    requires k <= |e| && forall i :: 0 <= i < k ==> e[i].hash != h
    ensures Newest(e, log, h, key, best) == Newest(e[k..], log, h, key, best)
  {
    if k > 0 {
      SkipOthers(e[1..], log, h, key, best, k - 1);
      assert e[1..][k - 1..] == e[k..];
    } else {
      assert e[0..] == e;
    }
  }

  lemma {:induction false} NewestIsMaximal(e: seq<LogIndexEntry>, log: Bytes, h: Hash128, key: Bytes,
                                           best: Option<LogIndexEntry>)
    ensures var r := Newest(e, log, h, key, best);
            && (r == best || (r.Some? && r.value in e && Matches(r.value, log, h, key)))
            && (best.Some? ==> r.Some? && best.value.order <= r.value.order)
            && (forall x :: x in e && Matches(x, log, h, key) ==> r.Some? && x.order <= r.value.order)
  {
    if e != [] {
      NewestIsMaximal(e[1..], log, h, key, Better(e[0], log, h, key, best));
      assert forall x :: x in e <==> x == e[0] || x in e[1..];
    }
  }

  /** On the index of a log of these records, the lookup is the newest record under the key, under
      any hash function. */
  lemma {:induction false} LogLookupIsLastPut(e: seq<LogIndexEntry>, log: Bytes, locs: seq<Loc>, recs: seq<Pair>,
                                              hash: Hasher, key: Bytes)
    requires Indexes(e, log, locs, hash) && Laid(locs, log, log, recs)
    ensures Found(Newest(e, log, hash(key), key, None), log) == Answer(LastPut(recs, key))
  {
    var entries := LogEntries(log, locs, hash);
    NewestIsMaximal(e, log, hash(key), key, None);
    forall i | 0 <= i < |recs|
      ensures entries[i] in e && entries[i].order == i && ValueAt(entries[i].loc, log) == Ok(recs[i].value)
      ensures Matches(entries[i], log, hash(key), key) <==> recs[i].key == key
    {
      EntryMatches(log, locs, recs, hash, key, i);
      assert entries[i] in entries;
    }
    var best := Newest(e, log, hash(key), key, None);
    if best == None {
      LastPutNone(recs, key);
    } else {
      assert best.value in entries;
      var p :| 0 <= p < |entries| && entries[p] == best.value;
      LastPutAt(recs, p);
    }
  }

  lemma {:induction false} EntryMatches(log: Bytes, locs: seq<Loc>, recs: seq<Pair>, hash: Hasher, key: Bytes, i: nat)
    requires Laid(locs, log, log, recs) && i < |recs|
    ensures |locs| == |recs|
    ensures var x := EntryOf(log, locs[i], i, hash);
            (Matches(x, log, hash(key), key) <==> recs[i].key == key) && ValueAt(x.loc, log) == Ok(recs[i].value)
  {
    assert Listed(locs, log, log)[i] == PairAt(locs[i], log, log);
  }
}
