/** The sorted hash index: src/backends/fce_backend_sorted.c. */
module SortedIndex {
  import opened Bytes
  import opened Sorting
  import opened Records
  import opened Format

  /** The index, key and value files of one frozen cache, and the manifest's record count. */
  datatype IndexFiles = IndexFiles(index: Bytes, keys: Bytes, values: Bytes, count: nat)

  // ---- cmp_sorted_entry ----

  predicate HashLess(a: Hash128, b: Hash128) {
    a.hi < b.hi || (a.hi == b.hi && a.lo < b.lo)
  }

  function CmpSortedEntry(x: SortedEntry, y: SortedEntry): int {
    if x.hash.hi != y.hash.hi then x.hash.hi - y.hash.hi
    else if x.hash.lo != y.hash.lo then x.hash.lo - y.hash.lo
    else if x.loc.keyLen != y.loc.keyLen then x.loc.keyLen - y.loc.keyLen
    else x.loc.keyOff - y.loc.keyOff
  }

  const BY_SORTED_ENTRY := (x: SortedEntry, y: SortedEntry) => CmpSortedEntry(x, y) <= 0

  ghost predicate HashOrdered(e: seq<SortedEntry>) {
    forall i, j :: 0 <= i < j < |e| ==> !HashLess(e[j].hash, e[i].hash)
  }

  // ---- The frozen image ----

  ghost function Locs(e: seq<SortedEntry>): seq<Loc> {
    seq(|e|, i requires 0 <= i < |e| => e[i].loc)
  }

  function SortedEntries(index: Bytes): seq<SortedEntry> {
    DecodeTable(index, SORTED_ENTRY, DecSorted)
  }

  /** The files hold exactly these records, each under the hash of its key, in hash order. */
  ghost predicate SortedImage(f: IndexFiles, recs: seq<Pair>, hash: Hasher) {
    var e := SortedEntries(f.index);
    && |f.index| == |e| * SORTED_ENTRY <= MAX_FILE && f.count == |e|
    && HashOrdered(e)
    && InRange(Locs(e), f.keys, f.values)
    && var listed := Listed(Locs(e), f.keys, f.values);
    && SameRecords(listed, recs)
    && forall i :: 0 <= i < |e| ==> e[i].hash == hash(listed[i].key)
  }

  /** Entries lie by the high word of the hash, then the low word, then key length, then key offset. */
  ghost predicate InEntryOrder(e: seq<SortedEntry>) {
    forall i, j :: 0 <= i < j < |e| ==> !EntryPrecedes(e[j], e[i])
  }

  ghost predicate EntryPrecedes(x: SortedEntry, y: SortedEntry) {
    || HashLess(x.hash, y.hash)
    || (x.hash == y.hash && x.loc.keyLen < y.loc.keyLen)
    || (x.hash == y.hash && x.loc.keyLen == y.loc.keyLen && x.loc.keyOff < y.loc.keyOff)
  }

  /** A hash is a 128-bit number, high word first. */
  lemma {:induction false} HashLessIff(a: Hash128, b: Hash128)
    ensures HashLess(a, b) <==>
            0x1_0000_0000_0000_0000 * (a.hi as nat) + a.lo < 0x1_0000_0000_0000_0000 * (b.hi as nat) + b.lo
  {
  }

  lemma {:induction false} CmpSortedEntryIsTotal()
    ensures TotalPreorder(BY_SORTED_ENTRY)
  {
  }

  /** The entries in key order, as write_keys_values fills them. */
  ghost function EntriesOf(recs: seq<Pair>, locs: seq<Loc>, hash: Hasher): seq<SortedEntry>
    requires |recs| == |locs|
  {
    seq(|recs|, i requires 0 <= i < |recs| => SortedEntry(hash(recs[i].key), locs[i]))
  }

  method FillEntries(recs: seq<Pair>, locs: seq<Loc>, hash: Hasher) returns (entries: seq<SortedEntry>)
    requires |recs| == |locs|
    ensures entries == EntriesOf(recs, locs, hash)
  {
    entries := [];
    for i := 0 to |recs|
      invariant entries == EntriesOf(recs, locs, hash)[..i]
    {
      entries := entries + [SortedEntry(hash(recs[i].key), locs[i])];
    }
  }

  /** The status of a failed freeze: duplicates first, then the key and value files, then what is left. */
  ghost function FreezeError(records: seq<BuildRecord>, allowDuplicatePut: bool, otherwise: Status): Status {
    if !allowDuplicatePut && !DistinctKeys(Pairs(records)) then InvalidArgument
    else if !Storable(Survivors(Pairs(records))) then StoreError(Survivors(Pairs(records)))
    else otherwise
  }

  method FreezeSorted(records: seq<BuildRecord>, allowDuplicatePut: bool, hash: Hasher) returns (r: Result<IndexFiles>)
    requires Stamped(records)
    ensures
      var recs := Survivors(Pairs(records));
      && (r.Ok? <==>
        (allowDuplicatePut || DistinctKeys(Pairs(records))) && Storable(recs) && |recs| * SORTED_ENTRY <= MAX_FILE)
      && (r.Ok? ==> SortedImage(r.value, recs, hash))
    ensures r.Ok? ==> InEntryOrder(SortedEntries(r.value.index))
    ensures r.Err? ==> r.status == FreezeError(records, allowDuplicatePut, Io)
  {
    var recs :- DedupeRecords(records, allowDuplicatePut);
    var lay :- WriteKeysValues(recs);
    var entries := FillEntries(recs, lay.locs, hash);
    CmpSortedEntryIsTotal();
    var sorted := Qsort(entries, BY_SORTED_ENTRY);
    if |sorted| * SORTED_ENTRY > MAX_FILE {
      return Err(Io);
    }
    SurvivorsKeepTheMap(Pairs(records));
    r := Ok(IndexFiles(EncodeTable(sorted, EncSorted), lay.keys, lay.values, |recs|));
    SortedEntriesAreTheImage(recs, lay, entries, sorted, hash);
    AscendingEntries(sorted);
  }

  lemma {:induction false} AscendingEntries(e: seq<SortedEntry>)
    requires Ascending(e, BY_SORTED_ENTRY)
    ensures InEntryOrder(e)
  {
    forall i, j | 0 <= i < j < |e| ensures !EntryPrecedes(e[j], e[i]) {
      assert BY_SORTED_ENTRY(e[i], e[j]);
    }
  }

  lemma {:induction false} SortedEntriesAreTheImage(recs: seq<Pair>, lay: Layout, entries: seq<SortedEntry>,
                                                    sorted: seq<SortedEntry>, hash: Hasher)
    requires IncreasingKeys(recs) && Storable(recs) && |recs| * SORTED_ENTRY <= MAX_FILE
    requires lay.keys == KeyBytes(recs) && lay.values == ValueBytes(recs)
    requires Laid(lay.locs, lay.keys, lay.values, recs) && |lay.locs| == |recs|
    requires entries == EntriesOf(recs, lay.locs, hash)
    requires multiset(entries) == multiset(sorted) && |sorted| == |entries| && Ascending(sorted, BY_SORTED_ENTRY)
    ensures SortedImage(IndexFiles(EncodeTable(sorted, EncSorted), lay.keys, lay.values, |recs|), recs, hash)
    ensures SortedEntries(EncodeTable(sorted, EncSorted)) == sorted
  {
    hide KeyBytes, ValueBytes, EncodeTable;
    IncreasingIsDistinct(recs);
    SameElements(entries, sorted);
    var listing := Listed(lay.locs, lay.keys, lay.values);
    forall e | e in sorted ensures LocFits(e.loc) && LocInRange(e.loc, |lay.keys|, |lay.values|) {
      var i :| 0 <= i < |entries| && entries[i] == e;
      StoredLocsFit(lay, recs, i);
    }
    SortedTable(sorted);
    forall i, j | 0 <= i < j < |sorted| ensures !HashLess(sorted[j].hash, sorted[i].hash) {
      assert BY_SORTED_ENTRY(sorted[i], sorted[j]);
    }
    forall i, j | 0 <= i < j < |entries| ensures entries[i] != entries[j] {
      assert listing[i] == PairAt(entries[i].loc, lay.keys, lay.values);
      assert listing[j] == PairAt(entries[j].loc, lay.keys, lay.values);
    }
    PermutationKeepsDistinct(entries, sorted);
    ListedPermutes(recs, lay, entries, sorted, hash);
  }

  lemma {:induction false} ListedPermutes(recs: seq<Pair>, lay: Layout, entries: seq<SortedEntry>,
                                          sorted: seq<SortedEntry>, hash: Hasher)
    requires DistinctKeys(recs) && Laid(lay.locs, lay.keys, lay.values, recs) && |lay.locs| == |recs|
    requires entries == EntriesOf(recs, lay.locs, hash)
    requires Distinct(sorted) && forall x :: x in entries <==> x in sorted
    requires InRange(Locs(sorted), lay.keys, lay.values)
    ensures SameRecords(Listed(Locs(sorted), lay.keys, lay.values), recs)
    ensures forall i :: 0 <= i < |sorted| ==> sorted[i].hash == hash(Listed(Locs(sorted), lay.keys, lay.values)[i].key)
  {
    var listed := Listed(Locs(sorted), lay.keys, lay.values);
    var origin := seq(|sorted|, i requires 0 <= i < |sorted| =>
      assert sorted[i] in entries; var p :| 0 <= p < |entries| && entries[p] == sorted[i]; p);
    forall i | 0 <= i < |sorted| ensures listed[i] == recs[origin[i]] && sorted[i].hash == hash(listed[i].key) {
      assert Listed(lay.locs, lay.keys, lay.values)[origin[i]] == PairAt(sorted[i].loc, lay.keys, lay.values);
    }
    forall p | 0 <= p < |recs| ensures p in origin {
      assert entries[p] in sorted;
      var i :| 0 <= i < |sorted| && sorted[i] == entries[p];
      assert origin[i] == p by {
        assert Listed(lay.locs, lay.keys, lay.values)[p] == PairAt(sorted[i].loc, lay.keys, lay.values) == listed[i];
      }
    }
    RearrangedRecords(listed, recs, origin);
  }

  // ---- get_sorted ----

  /** The obvious lookup: the first entry with the hash and the key. */
  function FirstMatch(e: seq<SortedEntry>, keys: Bytes, values: Bytes, h: Hash128, key: Bytes): Result<Bytes> {
    if e == [] then Err(NotFound)
    else if e[0].hash == h && KeyEqual(keys, e[0].loc.keyOff, e[0].loc.keyLen, key) then ValueAt(e[0].loc, values)
    else FirstMatch(e[1..], keys, values, h, key)
  }

  /** Lower bound on the hash, then a scan of the run of equal hashes. */
  method GetSorted(index: Bytes, keys: Bytes, values: Bytes, hash: Hasher, key: Bytes) returns (r: Result<Bytes>)
    ensures HashOrdered(SortedEntries(index)) ==> r == FirstMatch(SortedEntries(index), keys, values, hash(key), key)
  {
    var e := SortedEntries(index);
    var n := |e|;
    var h := hash(key);
    var lo, hi := 0, n;
    while lo < hi
      invariant 0 <= lo <= hi <= n
      invariant HashOrdered(e) ==> forall i :: 0 <= i < lo ==> HashLess(e[i].hash, h)
      invariant HashOrdered(e) ==> forall i :: hi <= i < n ==> !HashLess(e[i].hash, h)
    {
      var mid := lo + (hi - lo) / 2;
      if HashLess(e[mid].hash, h) {
        lo := mid + 1;
      } else {
        hi := mid;
      }
    }
    var i := lo;
    if HashOrdered(e) {
      SkipOtherHashes(e, keys, values, h, key, lo);
    }
    while i < n && e[i].hash == h
      invariant lo <= i <= n
      invariant HashOrdered(e) ==> FirstMatch(e, keys, values, h, key) == FirstMatch(e[i..], keys, values, h, key)
    {
      assert e[i..][1..] == e[i + 1..];
      if KeyEqual(keys, e[i].loc.keyOff, e[i].loc.keyLen, key) {
        return ValueAt(e[i].loc, values);
      }
      i := i + 1;
    }
    if HashOrdered(e) {
      NoMatchPast(e[i..], keys, values, h, key);
    }
    return Err(NotFound);
  }

  lemma {:induction false} SkipOtherHashes(e: seq<SortedEntry>, keys: Bytes, values: Bytes, h: Hash128, key: Bytes,
                                           k: nat)
    requires k <= |e| && forall i :: 0 <= i < k ==> e[i].hash != h
    ensures FirstMatch(e, keys, values, h, key) == FirstMatch(e[k..], keys, values, h, key)
  {
    if k > 0 {
      SkipOtherHashes(e[1..], keys, values, h, key, k - 1);
      assert e[1..][k - 1..] == e[k..];
    } else {
      assert e[0..] == e;
    }
  }

  lemma {:induction false} NoMatchPast(e: seq<SortedEntry>, keys: Bytes, values: Bytes, h: Hash128, key: Bytes)
    requires forall i :: 0 <= i < |e| ==> e[i].hash != h
    ensures FirstMatch(e, keys, values, h, key) == Err(NotFound)
  {
    SkipOtherHashes(e, keys, values, h, key, |e|);
  }

  /** On a frozen cache the lookup is the map, under any hash function. */
  lemma {:induction false} SortedLookupIsLastPut(f: IndexFiles, recs: seq<Pair>, hash: Hasher, key: Bytes)
    requires SortedImage(f, recs, hash)
    ensures FirstMatch(SortedEntries(f.index), f.keys, f.values, hash(key), key) == Answer(LastPut(recs, key))
  {
    var e := SortedEntries(f.index);
    var listed := Listed(Locs(e), f.keys, f.values);
    PermutationSameMap(listed, recs);
    forall i | 0 <= i < |e|
      ensures (Matches(e[i], f.keys, hash(key), key) <==> listed[i].key == key)
        && ValueAt(e[i].loc, f.values) == Ok(listed[i].value)
    {
      MatchIsKeyEquality(e, f.keys, f.values, hash, key, i);
    }
    FirstMatchIsLookup(e, f.keys, f.values, hash(key), key, listed);
  }

  lemma {:induction false} FirstMatchIsLookup(e: seq<SortedEntry>, keys: Bytes, values: Bytes, h: Hash128, key: Bytes,
                                              listed: seq<Pair>)
    requires |listed| == |e| && DistinctKeys(listed)
    requires forall i :: 0 <= i < |e| ==>
      (Matches(e[i], keys, h, key) <==> listed[i].key == key) && ValueAt(e[i].loc, values) == Ok(listed[i].value)
    ensures FirstMatch(e, keys, values, h, key) == Answer(LastPut(listed, key))
  {
    if p :| 0 <= p < |e| && listed[p].key == key {
      FirstMatchAt(e, keys, values, h, key, p);
      LastPutAt(listed, p);
    } else {
      FirstMatchNone(e, keys, values, h, key);
      LastPutNone(listed, key);
    }
  }

  /** Comparing stored bytes makes hash collisions harmless. */
  lemma {:induction false} MatchIsKeyEquality(e: seq<SortedEntry>, keys: Bytes, values: Bytes, hash: Hasher,
                                              key: Bytes, i: nat)
    requires i < |e| && InRange(Locs(e), keys, values)
    requires e[i].hash == hash(Listed(Locs(e), keys, values)[i].key)
    ensures Matches(e[i], keys, hash(key), key) <==> Listed(Locs(e), keys, values)[i].key == key
    ensures ValueAt(e[i].loc, values) == Ok(Listed(Locs(e), keys, values)[i].value)
  {
    var loc := Locs(e)[i];
    assert LocInRange(loc, |keys|, |values|) && Listed(Locs(e), keys, values)[i] == PairAt(loc, keys, values);
  }

  predicate Matches(e: SortedEntry, keys: Bytes, h: Hash128, key: Bytes) {
    e.hash == h && KeyEqual(keys, e.loc.keyOff, e.loc.keyLen, key)
  }

  lemma {:induction false} FirstMatchNone(e: seq<SortedEntry>, keys: Bytes, values: Bytes, h: Hash128, key: Bytes)
    requires forall i :: 0 <= i < |e| ==> !Matches(e[i], keys, h, key)
    ensures FirstMatch(e, keys, values, h, key) == Err(NotFound)
  {
    if e != [] {
      FirstMatchNone(e[1..], keys, values, h, key);
    }
  }

  lemma {:induction false} FirstMatchAt(e: seq<SortedEntry>, keys: Bytes, values: Bytes, h: Hash128, key: Bytes, p: nat)
    requires p < |e| && Matches(e[p], keys, h, key)
    requires forall i :: 0 <= i < p ==> !Matches(e[i], keys, h, key)
    ensures FirstMatch(e, keys, values, h, key) == ValueAt(e[p].loc, values)
  {
    if p > 0 {
      FirstMatchAt(e[1..], keys, values, h, key, p - 1);
    }
  }
}
