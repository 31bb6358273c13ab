/** What a client gets by draining an iterator of a frozen cache: src/api/fce_reader_api.c lines 226-457. */
module ScanLaws {
  import opened Bytes
  import opened Records
  import opened Format
  import opened Codecs
  import opened Crc
  import opened Mph
  import opened Schemas
  import opened Validation
  import opened Reader
  import opened ReaderGet
  import opened Scans
  import opened Builders
  import opened Compaction
  import opened CompactionLaws

  /** The items at the given positions of the table. */
  function ItemsAt(r: OpenReader, matches: seq<nat>): seq<Result<Pair>>
    requires StructureOk(r.cache) && forall k :: 0 <= k < |matches| ==> matches[k] < |Cells(r)|
  {
    seq(|matches|, k requires 0 <= k < |matches| =>
      Item(Cells(r)[matches[k]], r.cache.keys, r.cache.values, r.cache.manifest.schema.valueCodec))
  }

  /** The loop of every client, and of fce_compact up to the first error: call next until it says NOT_FOUND. */
  method Drain(it: Iterator) returns (items: seq<Result<Pair>>)
    requires it.Valid() && it.pos == 0
    modifies it
    ensures it.Valid() && it.matches == old(it.matches)
    ensures items == ItemsAt(it.reader, it.matches)
  {
    hide StructureOk, Cells;
    items := [];
    ghost var all := ItemsAt(it.reader, it.matches);
    while true
      invariant it.Valid() && it.matches == old(it.matches) && it.pos <= |it.matches|
      invariant items == all[..it.pos]
      decreases |it.matches| - it.pos
    {
      ghost var i := it.pos;
      var next := it.Next();
      if next == Err(NotFound) {
        if i < |it.matches| {
          ItemNeverNotFound(Cells(it.reader)[it.matches[i]], it.reader.cache.keys, it.reader.cache.values,
                            it.reader.cache.manifest.schema.valueCodec);
        }
        break;
      }
      assert next == all[i];
      items := items + [next];
    }
  }

  /** The item for a key: the key as stored and the original bytes of its last put, or an error when these do not
      survive the value codec. */
  ghost predicate Yields(s: Schema, puts: seq<Pair>, key: Bytes, item: Result<Pair>) {
    && LastPut(puts, key).Some? && Encode(s.keyCodec, key).Ok?
    && var value := LastPut(puts, key).value;
    if Recoverable(s.valueCodec, value) then item == Ok(Pair(Encode(s.keyCodec, key).value, value)) else item.Err?
  }

  /** A key that was put and whose stored form is wanted. */
  ghost predicate Wanted(s: Schema, puts: seq<Pair>, want: Bytes -> bool, key: Bytes) {
    LastPut(puts, key).Some? && Encode(s.keyCodec, key).Ok? && want(Encode(s.keyCodec, key).value)
  }

  /** A record of a frozen cache is the encoded last put of some key. */
  lemma {:induction false} RecordOfKey(s: Schema, puts: seq<Pair>, encoded: seq<Pair>, p: Pair) returns (key: Bytes)
    requires EncodedPuts(s.keyCodec, s.valueCodec, puts, encoded) && LastPut(encoded, p.key) == Some(p.value)
    ensures LastPut(puts, key).Some? && Encode(s.keyCodec, key) == Ok(p.key)
    ensures Encode(s.valueCodec, LastPut(puts, key).value) == Ok(p.value)
  {
    hide Encode;
    LastPutWasPut(encoded, p.key);
    var i :| 0 <= i < |encoded| && encoded[i] == p;
    key := puts[i].key;
    assert EncodePair(s.keyCodec, s.valueCodec, puts[i].key, puts[i].value) == Ok(p);
    LastPutEncoded(s.keyCodec, s.valueCodec, puts, encoded, key, p.key);
  }

  lemma {:induction false} ItemYields(s: Schema, puts: seq<Pair>, key: Bytes, loc: Loc, keys: Bytes, values: Bytes)
    requires LocInRange(loc, |keys|, |values|) && LastPut(puts, key).Some?
    requires Encode(s.keyCodec, key) == Ok(PairAt(loc, keys, values).key)
    requires Encode(s.valueCodec, LastPut(puts, key).value) == Ok(PairAt(loc, keys, values).value)
    ensures Yields(s, puts, key, Item(Some(loc), keys, values, s.valueCodec))
  {
    hide Encode, Decode, Recoverable;
    DecodesIffRecoverable(s.valueCodec, LastPut(puts, key).value, PairAt(loc, keys, values).value);
  }

  /** Item k is the item of a wanted key. */
  lemma {:induction false} ItemOfKey(s: Schema, puts: seq<Pair>, encoded: seq<Pair>, r: OpenReader, matches: seq<nat>,
                                     recs: seq<Pair>, want: Bytes -> bool, k: nat)
    returns (key: Bytes)
    requires EncodedPuts(s.keyCodec, s.valueCodec, puts, encoded) && SameMap(recs, encoded) && DistinctKeys(recs)
    requires StructureOk(r.cache) && r.cache.manifest.schema == s && ScanFinds(r, matches, recs, want) && k < |matches|
    ensures Wanted(s, puts, want, key)
    ensures Encode(s.keyCodec, key) == Ok(Listing(Cells(r), matches, r.cache.keys, r.cache.values)[k].key)
    ensures Yields(s, puts, key, ItemsAt(r, matches)[k])
  {
    hide StructureOk, Cells, Encode, EncodedPuts, Yields, DistinctKeys, SameMap, Item;
    var listing := Listing(Cells(r), matches, r.cache.keys, r.cache.values);
    var p := listing[k];
    assert p in listing;
    ListedIsLast(recs, encoded, p);
    key := RecordOfKey(s, puts, encoded, p);
    ItemYields(s, puts, key, Cells(r)[matches[k]].value, r.cache.keys, r.cache.values);
  }

  lemma {:induction false} ListedIsLast(recs: seq<Pair>, encoded: seq<Pair>, p: Pair)
    requires SameMap(recs, encoded) && DistinctKeys(recs) && p in recs
    ensures LastPut(encoded, p.key) == Some(p.value)
  {
    var i :| 0 <= i < |recs| && recs[i] == p;
    LastPutAt(recs, i);
  }

  /** Every wanted key has an item. */
  lemma {:induction false} KeyHasItem(s: Schema, puts: seq<Pair>, encoded: seq<Pair>, r: OpenReader, matches: seq<nat>,
                                      recs: seq<Pair>, want: Bytes -> bool, key: Bytes)
    returns (k: nat)
    requires EncodedPuts(s.keyCodec, s.valueCodec, puts, encoded) && SameMap(recs, encoded)
    requires StructureOk(r.cache) && ScanFinds(r, matches, recs, want) && Wanted(s, puts, want, key)
    ensures k < |matches|
    ensures Encode(s.keyCodec, key) == Ok(Listing(Cells(r), matches, r.cache.keys, r.cache.values)[k].key)
  {
    hide StructureOk, Cells, Encode, EncodedPuts, DistinctKeys;
    var listing := Listing(Cells(r), matches, r.cache.keys, r.cache.values);
    var stored := Encode(s.keyCodec, key).value;
    LastPutEncoded(s.keyCodec, s.valueCodec, puts, encoded, key, stored);
    LastPutWasPut(recs, stored);
    var p := Pair(stored, LastPut(recs, stored).value);
    assert p in recs && want(p.key);
    assert p in listing;
    k :| 0 <= k < |listing| && listing[k] == p;
  }

  /** The drained items and the wanted keys correspond one to one. */
  ghost predicate YieldsEach(s: Schema, puts: seq<Pair>, want: Bytes -> bool, items: seq<Result<Pair>>) {
    exists keys: seq<Bytes> :: YieldsKeys(s, puts, want, items, keys)
  }

  /** Item k belongs to key k, and the keys are the wanted ones, each once. */
  ghost predicate YieldsKeys(s: Schema, puts: seq<Pair>, want: Bytes -> bool, items: seq<Result<Pair>>,
                             keys: seq<Bytes>)
  {
    && |keys| == |items|
    && (forall k :: 0 <= k < |keys| ==> Yields(s, puts, keys[k], items[k]))
    && (forall i, j :: 0 <= i < j < |keys| ==> keys[i] != keys[j])
    && (forall key :: key in keys <==> Wanted(s, puts, want, key))
  }

  /** Whatever scan found the positions of an index - all, by prefix or by range - draining it yields each wanted
      key once, with the original bytes of its last put. */
  lemma {:induction false} DrainedScanYields(s: Schema, puts: seq<Pair>, encoded: seq<Pair>, dir: Cache, r: OpenReader,
                                             matches: seq<nat>, want: Bytes -> bool, hash: Hasher, sh: SlotHasher)
    requires EncodedPuts(s.keyCodec, s.valueCodec, puts, encoded) && OpenOn(s, encoded, dir, r, hash, sh)
    requires s.backend != LogBackend && ScanFinds(r, matches, Survivors(encoded), want)
    ensures YieldsEach(s, puts, want, ItemsAt(r, matches))
  {
    hide StructureOk, Frozen, Freezable, Cells, Encode, EncodedPuts, Yields, SameMap, Wanted, Serves;
    OpenServes(s, encoded, dir, r, hash, sh);
    ServedIsDistinct(r, Survivors(encoded), hash, sh);
    var recs := Survivors(encoded);
    var keys := KeysOfItems(s, puts, encoded, r, matches, recs, want, |matches|);
    ItemKeysDiffer(s, r, matches, recs, want, keys);
    forall key ensures key in keys <==> Wanted(s, puts, want, key) {
      if Wanted(s, puts, want, key) {
        var k := KeyHasItem(s, puts, encoded, r, matches, recs, want, key);
        SameStoredKey(s, key, keys[k]);
      }
      if key in keys {
        var k :| 0 <= k < |keys| && keys[k] == key;
      }
    }
    assert YieldsKeys(s, puts, want, ItemsAt(r, matches), keys);
  }

  lemma {:induction false} SameStoredKey(s: Schema, key: Bytes, other: Bytes)
    requires Encode(s.keyCodec, key).Ok? && Encode(s.keyCodec, key) == Encode(s.keyCodec, other)
    ensures key == other
  {
    EncodeInjective(s.keyCodec, key, other);
  }

  lemma {:induction false} KeysOfItems(s: Schema, puts: seq<Pair>, encoded: seq<Pair>, r: OpenReader, matches: seq<nat>,
                                       recs: seq<Pair>, want: Bytes -> bool, n: nat)
    returns (keys: seq<Bytes>)
    requires EncodedPuts(s.keyCodec, s.valueCodec, puts, encoded) && SameMap(recs, encoded) && DistinctKeys(recs)
    requires StructureOk(r.cache) && r.cache.manifest.schema == s && ScanFinds(r, matches, recs, want) && n <= |matches|
    ensures |keys| == n
    ensures forall k :: 0 <= k < n ==>
      Wanted(s, puts, want, keys[k]) && Yields(s, puts, keys[k], ItemsAt(r, matches)[k])
    ensures forall k :: 0 <= k < n ==>
      Encode(s.keyCodec, keys[k]) == Ok(Listing(Cells(r), matches, r.cache.keys, r.cache.values)[k].key)
  {
    hide StructureOk, Cells, Encode, EncodedPuts, Yields, SameMap, Wanted, DistinctKeys;
    keys := [];
    while |keys| < n
      invariant |keys| <= n
      invariant forall k :: 0 <= k < |keys| ==>
        Wanted(s, puts, want, keys[k]) && Yields(s, puts, keys[k], ItemsAt(r, matches)[k])
      invariant forall k :: 0 <= k < |keys| ==>
        Encode(s.keyCodec, keys[k]) == Ok(Listing(Cells(r), matches, r.cache.keys, r.cache.values)[k].key)
    {
      var key := ItemOfKey(s, puts, encoded, r, matches, recs, want, |keys|);
      keys := keys + [key];
    }
  }

  lemma {:induction false} ItemKeysDiffer(s: Schema, r: OpenReader, matches: seq<nat>, recs: seq<Pair>,
                                          want: Bytes -> bool,
                                          keys: seq<Bytes>)
    requires StructureOk(r.cache) && ScanFinds(r, matches, recs, want) && |keys| == |matches|
    requires forall k :: 0 <= k < |keys| ==>
      Encode(s.keyCodec, keys[k]) == Ok(Listing(Cells(r), matches, r.cache.keys, r.cache.values)[k].key)
    ensures forall i, j :: 0 <= i < j < |keys| ==> keys[i] != keys[j]
  {
    hide StructureOk, Cells, Encode;
    var listing := Listing(Cells(r), matches, r.cache.keys, r.cache.values);
    forall i, j | 0 <= i < j < |keys| ensures keys[i] != keys[j] {
      assert listing[i].key != listing[j].key;
    }
  }

  // ---- The three scans ----

  lemma {:induction false} ScanFindsSame(r: OpenReader, matches: seq<nat>, recs: seq<Pair>, want: Bytes -> bool,
                                         same: Bytes -> bool)
    requires StructureOk(r.cache) && ScanFinds(r, matches, recs, want) && forall k :: want(k) == same(k)
    ensures ScanFinds(r, matches, recs, same)
  {
    hide StructureOk, Cells;
  }

  /** A full scan of an index yields every key that was put. */
  method ScanEverything(s: Schema, ghost puts: seq<Pair>, ghost encoded: seq<Pair>, ghost dir: Cache, r: OpenReader,
                        ghost hash: Hasher, ghost sh: SlotHasher)
    returns (items: seq<Result<Pair>>)
    requires EncodedPuts(s.keyCodec, s.valueCodec, puts, encoded) && OpenOn(s, encoded, dir, r, hash, sh)
    requires s.backend != LogBackend
    ensures YieldsEach(s, puts, _ => true, items)
  {
    hide StructureOk, Frozen, Freezable, Cells, Encode, EncodedPuts, YieldsEach;
    var scan := ScanAll(r);
    OpenServes(s, encoded, dir, r, hash, sh);
    items := Drain(scan.value);
    ghost var want := (k: Bytes) => true;
    FullScanFindsAll(r, Survivors(encoded), hash, sh, Crc64);
    ScanFindsSame(r, scan.value.matches, Survivors(encoded), _ => true, want);
    DrainedScanYields(s, puts, encoded, dir, r, scan.value.matches, want, hash, sh);
    SameYield(s, puts, want, _ => true, items);
  }

  /** A prefix scan yields the keys whose stored bytes start with the prefix. */
  method ScanBelow(s: Schema, ghost puts: seq<Pair>, ghost encoded: seq<Pair>, ghost dir: Cache, r: OpenReader,
                   prefix: Bytes, ghost hash: Hasher, ghost sh: SlotHasher)
    returns (items: seq<Result<Pair>>)
    requires EncodedPuts(s.keyCodec, s.valueCodec, puts, encoded) && OpenOn(s, encoded, dir, r, hash, sh)
    requires s.backend == SortedBackend || s.backend == RadixBackend
    ensures YieldsEach(s, puts, k => prefix <= k, items)
  {
    hide StructureOk, Frozen, Freezable, Cells, Encode, EncodedPuts, YieldsEach, Serves, SameMap, PrefixPositions,
      PrefixScanIsSafe, ScanFinds;
    OpenServes(s, encoded, dir, r, hash, sh);
    PrefixScanFinds(r, [], prefix, Survivors(encoded), hash, sh, Crc64);
    var scan := FcePrefixScan(r, prefix);
    PrefixScanFinds(r, scan.value.matches, prefix, Survivors(encoded), hash, sh, Crc64);
    items := Drain(scan.value);
    ghost var want := (k: Bytes) => prefix <= k;
    ScanFindsSame(r, scan.value.matches, Survivors(encoded), k => prefix <= k, want);
    DrainedScanYields(s, puts, encoded, dir, r, scan.value.matches, want, hash, sh);
    SameYield(s, puts, want, k => prefix <= k, items);
  }

  /** A range scan under a pass-through key codec yields the keys in [start, end). */
  method ScanBetween(s: Schema, ghost puts: seq<Pair>, ghost encoded: seq<Pair>, ghost dir: Cache, r: OpenReader,
                     start: Bytes, end: Bytes, ghost hash: Hasher, ghost sh: SlotHasher)
    returns (items: seq<Result<Pair>>)
    requires EncodedPuts(s.keyCodec, s.valueCodec, puts, encoded) && OpenOn(s, encoded, dir, r, hash, sh)
    requires (s.backend == SortedBackend || s.backend == RadixBackend) && PassThrough(s.keyCodec)
    ensures YieldsEach(s, puts, k => !KeyLess(k, start) && KeyLess(k, end), items)
  {
    hide StructureOk, Frozen, Freezable, Cells, Encode, EncodedPuts, YieldsEach, KeyLess, Serves, SameMap, Filtered,
      AllOccupied;
    OpenServes(s, encoded, dir, r, hash, sh);
    var scan := RangeScan(r, start, end);
    RangeScanFinds(r, scan.value.matches, start, end, Survivors(encoded), hash, sh, Crc64);
    items := Drain(scan.value);
    ghost var want := (k: Bytes) => !KeyLess(k, start) && KeyLess(k, end);
    ScanFindsSame(r, scan.value.matches, Survivors(encoded), k => !KeyLess(k, start) && KeyLess(k, end), want);
    DrainedScanYields(s, puts, encoded, dir, r, scan.value.matches, want, hash, sh);
    SameYield(s, puts, want, k => !KeyLess(k, start) && KeyLess(k, end), items);
  }

  lemma {:induction false} SameYield(s: Schema, puts: seq<Pair>, want: Bytes -> bool, same: Bytes -> bool,
                                     items: seq<Result<Pair>>)
    requires YieldsEach(s, puts, want, items) && forall k :: want(k) == same(k)
    ensures YieldsEach(s, puts, same, items)
  {
    hide Yields;
    var keys: seq<Bytes> :| YieldsKeys(s, puts, want, items, keys);
    assert YieldsKeys(s, puts, same, items, keys);
  }
}
