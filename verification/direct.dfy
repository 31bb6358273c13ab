/** The direct table: src/backends/fce_backend_direct.c. */
module DirectTable {
  import opened Bytes
  import opened Sorting
  import opened Records
  import opened Format
  import opened SortedIndex

  const SLOT_LIMIT := 0xffff_ffff_ffff_ffff / 40 - 1  // SIZE_MAX / sizeof(DirectSlot) - 1
  const EMPTY := DirectSlot(false, 0, Loc(0, 0, 0, 0))

  /** rd64 of an 8-byte key. */
  function KeyNumber(key: Bytes): (k: u64)
    requires |key| == 8
  {
    Pow256Values();
    UnLe(key)
  }

  lemma {:induction false} KeyNumberIsInjective(a: Bytes, b: Bytes)
    requires |a| == |b| == 8 && KeyNumber(a) == KeyNumber(b)
    ensures a == b
  {
    UnLeRoundTrip(a);
    UnLeRoundTrip(b);
  }

  /** Key number n is the n-th key that fce_builder_put_u64 writes. */
  lemma {:induction false} KeyNumberOf(n: u64)
    ensures KeyNumber(Le(n, 8)) == n
  {
    Pow256Values();
    LeRoundTrip(n, 8);
  }

  ghost predicate EightByteKeys(recs: seq<Pair>) {
    forall i :: 0 <= i < |recs| ==> |recs[i].key| == 8
  }

  /** The largest key, 0 for an empty list. */
  ghost function MaxKey(recs: seq<Pair>): u64
    requires EightByteKeys(recs)
  {
    if recs == [] then 0
    else
      var m, k := MaxKey(recs[..|recs| - 1]), KeyNumber(recs[|recs| - 1].key);
      if k > m then k else m
  }

  lemma {:induction false} MaxKeyBounds(recs: seq<Pair>, i: nat)
    requires EightByteKeys(recs) && i < |recs|
    ensures KeyNumber(recs[i].key) <= MaxKey(recs)
  {
    if i < |recs| - 1 {
      MaxKeyBounds(recs[..|recs| - 1], i);
    }
  }

  /** max_key + 1 in uint64_t. */
  function SlotCount(maxKey: u64): u64 {
    if maxKey == 0xffff_ffff_ffff_ffff then 0 else maxKey + 1
  }

  /** Dense enough, or declared sparse, and addressable at all. */
  ghost predicate Tabular(recs: seq<Pair>, allowSparse: bool) {
    && EightByteKeys(recs)
    && (recs != [] && !allowSparse ==> SlotCount(MaxKey(recs)) <= |recs| * 4)
    && MaxKey(recs) <= SLOT_LIMIT
    && (MaxKey(recs) + 1) * DIRECT_SLOT <= MAX_FILE
  }

  /** The keys are numbers up to m written in eight little-endian bytes, m among them. */
  ghost predicate NumbersUpTo(recs: seq<Pair>, m: u64) {
    && (exists i :: 0 <= i < |recs| && recs[i].key == Le(m, 8))
    && forall i :: 0 <= i < |recs| ==> exists k: nat :: k <= m && recs[i].key == Le(k, 8)
  }

  lemma {:induction false} LargestNumber(recs: seq<Pair>, m: u64)
    requires NumbersUpTo(recs, m)
    ensures EightByteKeys(recs) && MaxKey(recs) == m
  {
    hide KeyNumber, MaxKey;
    forall i | 0 <= i < |recs| ensures |recs[i].key| == 8 && KeyNumber(recs[i].key) <= m {
      var k: nat :| k <= m && recs[i].key == Le(k, 8);
      KeyNumberOf(k);
    }
    var i :| 0 <= i < |recs| && recs[i].key == Le(m, 8);
    KeyNumberOf(m);
    MaxKeyBounds(recs, i);
    MaxKeyIsReached(recs);
  }

  lemma {:induction false} MaxKeyIsReached(recs: seq<Pair>)
    requires EightByteKeys(recs) && recs != []
    ensures exists i :: 0 <= i < |recs| && KeyNumber(recs[i].key) == MaxKey(recs)
  {
    var n := |recs| - 1;
    if n > 0 && KeyNumber(recs[n].key) <= MaxKey(recs[..n]) {
      MaxKeyIsReached(recs[..n]);
      var i :| 0 <= i < n && KeyNumber(recs[i].key) == MaxKey(recs[..n]);
      assert KeyNumber(recs[i].key) == MaxKey(recs);
    } else {
      assert KeyNumber(recs[n].key) == MaxKey(recs);
    }
  }

  /** What suits a table, in numbers: without the sparse flag at most four slots a key, and 40 bytes a slot. */
  lemma {:induction false} TabularIff(recs: seq<Pair>, m: u64, allowSparse: bool)
    requires NumbersUpTo(recs, m)
    ensures Tabular(recs, allowSparse) <==>
            (allowSparse || m + 1 <= 4 * |recs|) && 40 * (m + 1) <= 0x7fff_ffff_ffff_ffff
  {
    LargestNumber(recs, m);
  }

  // ---- The frozen image ----

  function DirectSlots(index: Bytes): seq<DirectSlot> {
    DecodeTable(index, DIRECT_SLOT, DecDirect)
  }

  ghost function Present(slots: seq<DirectSlot>): seq<nat> {
    Select(|slots|, s => 0 <= s < |slots| && slots[s].present)
  }

  ghost function PresentLocs(slots: seq<DirectSlot>): seq<Loc> {
    SelectIsFilter(|slots|, s => 0 <= s < |slots| && slots[s].present);
    var present := Present(slots);
    seq(|present|, t requires 0 <= t < |present| => assert present[t] in present; slots[present[t]].loc)
  }

  /** The occupied slots hold exactly these records, each in the slot its key numbers. */
  ghost predicate DirectHolds(slots: seq<DirectSlot>, keys: Bytes, values: Bytes, recs: seq<Pair>) {
    && InRange(PresentLocs(slots), keys, values)
    && SameRecords(Listed(PresentLocs(slots), keys, values), recs)
    && EightByteKeys(recs)
    && forall s :: 0 <= s < |slots| && slots[s].present ==> SlotInPlace(slots, keys, values, s)
  }

  ghost predicate SlotInPlace(slots: seq<DirectSlot>, keys: Bytes, values: Bytes, s: nat)
    requires s < |slots|
  {
    && slots[s].keyU64 == s && LocInRange(slots[s].loc, |keys|, |values|)
    && var key := PairAt(slots[s].loc, keys, values).key;
    && |key| == 8 && KeyNumber(key) == s
  }

  ghost predicate DirectImage(f: IndexFiles, recs: seq<Pair>) {
    && |f.index| == |DirectSlots(f.index)| * DIRECT_SLOT <= MAX_FILE && f.count == |recs|
    && DirectHolds(DirectSlots(f.index), f.keys, f.values, recs)
  }

  // ---- freeze_direct ----

  method ScanKeys(recs: seq<Pair>) returns (r: Result<u64>)
    ensures r == if EightByteKeys(recs) then Ok(MaxKey(recs)) else Err(InvalidArgument)
  {
    var maxKey: u64 := 0;
    for i := 0 to |recs|
      invariant EightByteKeys(recs[..i]) && maxKey == MaxKey(recs[..i])
    {
      if |recs[i].key| != 8 {
        return Err(InvalidArgument);
      }
      var k := KeyNumber(recs[i].key);
      assert recs[..i + 1][..i] == recs[..i];
      if k > maxKey {
        maxKey := k;
      }
    }
    assert recs[..|recs|] == recs;
    return Ok(maxKey);
  }

  /** Keys that do not suit a table are refused before anything is written. */
  ghost function DirectError(records: seq<BuildRecord>, allowDuplicatePut: bool, allowSparse: bool): Status {
    var recs := Survivors(Pairs(records));
    if !allowDuplicatePut && !DistinctKeys(Pairs(records)) then InvalidArgument
    else if !EightByteKeys(recs) then InvalidArgument
    else if recs != [] && !allowSparse && SlotCount(MaxKey(recs)) > |recs| * 4 then InvalidArgument
    else if MaxKey(recs) > SLOT_LIMIT then OutOfMemory
    else if !Storable(recs) then StoreError(recs)
    else Io
  }

  method FreezeDirect(records: seq<BuildRecord>, allowDuplicatePut: bool, allowSparse: bool)
    returns (r: Result<IndexFiles>)
    requires Stamped(records)
    ensures
      var recs := Survivors(Pairs(records));
      && (r.Ok? <==>
        (allowDuplicatePut || DistinctKeys(Pairs(records))) && Tabular(recs, allowSparse) && Storable(recs))
      && (r.Ok? ==> DirectImage(r.value, recs))
    ensures r.Err? ==> r.status == DirectError(records, allowDuplicatePut, allowSparse)
  {
    hide Survivors, DirectImage, KeyBytes, ValueBytes, EncodeTable, DistinctKeys, FilledTo;
    var recs :- DedupeRecords(records, allowDuplicatePut);
    SurvivorsKeepTheMap(Pairs(records));
    IncreasingIsDistinct(recs);
    var maxKey :- ScanKeys(recs);
    if |recs| > 0 && SlotCount(maxKey) > |recs| * 4 && !allowSparse {
      return Err(InvalidArgument);
    }
    if maxKey > SLOT_LIMIT {
      return Err(OutOfMemory);
    }
    var slotsCount := SlotCount(maxKey);
    var lay :- WriteKeysValues(recs);
    if slotsCount * DIRECT_SLOT > MAX_FILE {
      return Err(Io);
    }
    forall i | 0 <= i < |recs| ensures KeyNumber(recs[i].key) < slotsCount {
      MaxKeyBounds(recs, i);
    }
    var slots := FillSlots(recs, lay.locs, slotsCount);
    r := Ok(IndexFiles(EncodeTable(slots, EncDirect), lay.keys, lay.values, |recs|));
    FilledIsTheImage(slots, recs, lay);
  }

  function SlotOf(p: Pair, loc: Loc): DirectSlot
    requires |p.key| == 8
  {
    DirectSlot(true, KeyNumber(p.key), loc)
  }

  /** Slots of the first k records filled, all others empty. */
  ghost predicate FilledTo(slots: seq<DirectSlot>, recs: seq<Pair>, locs: seq<Loc>, k: nat)
    requires k <= |recs| == |locs| && EightByteKeys(recs)
  {
    && (forall i :: 0 <= i < k ==>
      KeyNumber(recs[i].key) < |slots| && slots[KeyNumber(recs[i].key)] == SlotOf(recs[i], locs[i]))
    && (forall s :: 0 <= s < |slots| && slots[s].present ==> exists i :: 0 <= i < k && KeyNumber(recs[i].key) == s)
  }

  method FillSlots(recs: seq<Pair>, locs: seq<Loc>, n: nat) returns (slots: seq<DirectSlot>)
    requires EightByteKeys(recs) && DistinctKeys(recs) && |recs| == |locs|
    requires forall i :: 0 <= i < |recs| ==> KeyNumber(recs[i].key) < n
    ensures |slots| == n && FilledTo(slots, recs, locs, |recs|)
    ensures forall s :: 0 <= s < n && !slots[s].present ==> slots[s] == EMPTY
  {
    var table := new DirectSlot[n](_ => EMPTY);
    for i := 0 to |recs|
      invariant FilledTo(table[..], recs, locs, i)
      invariant forall s :: 0 <= s < n && !table[s].present ==> table[s] == EMPTY
    {
      var k := KeyNumber(recs[i].key);
      FilledStep(table[..], recs, locs, i);
      ghost var before := table[..];
      table[k] := SlotOf(recs[i], locs[i]);
      assert table[..] == before[k := SlotOf(recs[i], locs[i])];
    }
    return table[..];
  }

  lemma {:induction false} FilledStep(slots: seq<DirectSlot>, recs: seq<Pair>, locs: seq<Loc>, i: nat)
    requires EightByteKeys(recs) && DistinctKeys(recs) && i < |recs| == |locs|
    requires FilledTo(slots, recs, locs, i) && KeyNumber(recs[i].key) < |slots|
    ensures FilledTo(slots[KeyNumber(recs[i].key) := SlotOf(recs[i], locs[i])], recs, locs, i + 1)
  {
    hide KeyNumber, SlotOf;
    var k := KeyNumber(recs[i].key);
    var slots' := slots[k := SlotOf(recs[i], locs[i])];
    forall j | 0 <= j < i ensures slots'[KeyNumber(recs[j].key)] == SlotOf(recs[j], locs[j]) {
      if KeyNumber(recs[j].key) == k {
        KeyNumberIsInjective(recs[j].key, recs[i].key);
      }
    }
    forall s | 0 <= s < |slots'| && slots'[s].present
      ensures exists j :: 0 <= j < i + 1 && KeyNumber(recs[j].key) == s
    {
      if s != k {
        var j :| 0 <= j < i && KeyNumber(recs[j].key) == s;
      }
    }
  }

  /** Slot s holds record i at its place in the key and value files. */
  ghost predicate HoldsRecord(slots: seq<DirectSlot>, recs: seq<Pair>, lay: Layout, s: nat, i: nat)
    requires s < |slots| && EightByteKeys(recs)
  {
    && i < |recs| && KeyNumber(recs[i].key) == s && slots[s].keyU64 == s
    && LocFits(slots[s].loc) && LocInRange(slots[s].loc, |lay.keys|, |lay.values|)
    && PairAt(slots[s].loc, lay.keys, lay.values) == recs[i]
  }

  lemma {:induction false} FilledOwners(slots: seq<DirectSlot>, recs: seq<Pair>, lay: Layout) returns (owner: seq<nat>)
    requires EightByteKeys(recs) && Storable(recs)
    requires lay.keys == KeyBytes(recs) && lay.values == ValueBytes(recs)
    requires Laid(lay.locs, lay.keys, lay.values, recs) && |lay.locs| == |recs|
    requires FilledTo(slots, recs, lay.locs, |recs|)
    ensures |owner| == |slots|
    ensures forall s :: 0 <= s < |slots| && slots[s].present ==> HoldsRecord(slots, recs, lay, s, owner[s])
  {
    owner := seq(|slots|, s requires 0 <= s < |slots| =>
      if slots[s].present then var i :| 0 <= i < |recs| && KeyNumber(recs[i].key) == s; i else 0);
    forall s | 0 <= s < |slots| && slots[s].present ensures HoldsRecord(slots, recs, lay, s, owner[s]) {
      StoredLocsFit(lay, recs, owner[s]);
      assert Listed(lay.locs, lay.keys, lay.values)[owner[s]] == PairAt(lay.locs[owner[s]], lay.keys, lay.values);
    }
  }

  lemma {:induction false} FilledIsTheImage(slots: seq<DirectSlot>, recs: seq<Pair>, lay: Layout)
    requires EightByteKeys(recs) && DistinctKeys(recs) && Storable(recs)
    requires lay.keys == KeyBytes(recs) && lay.values == ValueBytes(recs)
    requires Laid(lay.locs, lay.keys, lay.values, recs) && |lay.locs| == |recs|
    requires FilledTo(slots, recs, lay.locs, |recs|) && |slots| * DIRECT_SLOT <= MAX_FILE
    requires forall s :: 0 <= s < |slots| && !slots[s].present ==> slots[s] == EMPTY
    ensures DirectImage(IndexFiles(EncodeTable(slots, EncDirect), lay.keys, lay.values, |recs|), recs)
  {
    var owner := FilledOwners(slots, recs, lay);
    forall x | x in slots ensures LocFits(x.loc) {
      var s :| 0 <= s < |slots| && slots[s] == x;
      assert slots[s].present ==> HoldsRecord(slots, recs, lay, s, owner[s]);
    }
    Format.DirectTable(slots);
    PresentAreTheRecords(slots, recs, lay, owner);
    forall s | 0 <= s < |slots| && slots[s].present ensures SlotInPlace(slots, lay.keys, lay.values, s) {
      assert HoldsRecord(slots, recs, lay, s, owner[s]);
    }
  }

  lemma {:induction false} PresentAreTheRecords(slots: seq<DirectSlot>, recs: seq<Pair>, lay: Layout, owner: seq<nat>)
    requires EightByteKeys(recs) && DistinctKeys(recs) && |owner| == |slots|
    requires |lay.locs| == |recs| && FilledTo(slots, recs, lay.locs, |recs|)
    requires forall s :: 0 <= s < |slots| && slots[s].present ==> HoldsRecord(slots, recs, lay, s, owner[s])
    ensures InRange(PresentLocs(slots), lay.keys, lay.values)
    ensures SameRecords(Listed(PresentLocs(slots), lay.keys, lay.values), recs)
  {
    hide KeyNumber, Select;
    var present := Present(slots);
    SelectIsFilter(|slots|, s => 0 <= s < |slots| && slots[s].present);
    var locs := PresentLocs(slots);
    forall t | 0 <= t < |present|
      ensures present[t] < |slots| && slots[present[t]].present
        && HoldsRecord(slots, recs, lay, present[t], owner[present[t]])
    {
      assert present[t] in present;
    }
    var listed := Listed(locs, lay.keys, lay.values);
    var origin := seq(|present|, t requires 0 <= t < |present| => owner[present[t]]);
    forall i, j | 0 <= i < j < |origin| ensures origin[i] != origin[j] {
      assert present[i] < present[j];
    }
    forall i | 0 <= i < |recs| ensures i in origin {
      var s := KeyNumber(recs[i].key);
      assert s in present;
      var t :| 0 <= t < |present| && present[t] == s;
      KeyNumberIsInjective(recs[owner[s]].key, recs[i].key);
      assert origin[t] == i;
    }
    RearrangedRecords(listed, recs, origin);
  }

  // ---- get_direct ----

  function DirectLookup(slots: seq<DirectSlot>, values: Bytes, k: u64): Result<Bytes> {
    if k >= |slots| then Err(NotFound)
    else if !slots[k].present || slots[k].keyU64 != k then Err(NotFound)
    else ValueAt(slots[k].loc, values)
  }

  lemma {:induction false} DirectLookupIsLastPut(f: IndexFiles, recs: seq<Pair>, key: Bytes)
    requires DirectImage(f, recs) && |key| == 8
    ensures DirectLookup(DirectSlots(f.index), f.values, KeyNumber(key)) == Answer(LastPut(recs, key))
  {
    var slots := DirectSlots(f.index);
    var listed, k := Listed(PresentLocs(slots), f.keys, f.values), KeyNumber(key);
    PermutationSameMap(listed, recs);
    PresentListing(slots, f.keys, f.values, recs);
    if k < |slots| && slots[k].present {
      var t :| 0 <= t < |listed| && Present(slots)[t] == k;
      assert PlacedPair(slots, f.keys, f.values, k, listed[t]);
      KeyNumberIsInjective(listed[t].key, key);
      LastPutAt(listed, t);
    } else {
      forall t | 0 <= t < |listed| ensures listed[t].key != key {
        assert PlacedPair(slots, f.keys, f.values, Present(slots)[t], listed[t]);
      }
      LastPutNone(listed, key);
    }
  }

  ghost predicate PlacedPair(slots: seq<DirectSlot>, keys: Bytes, values: Bytes, s: nat, p: Pair) {
    && s < |slots| && slots[s].present && slots[s].keyU64 == s
    && |p.key| == 8 && KeyNumber(p.key) == s
    && LocInRange(slots[s].loc, |keys|, |values|) && PairAt(slots[s].loc, keys, values) == p
  }

  /** The t-th listed record is the one in the t-th occupied slot, and every occupied slot is listed. */
  lemma {:induction false} PresentListing(slots: seq<DirectSlot>, keys: Bytes, values: Bytes, recs: seq<Pair>)
    requires DirectHolds(slots, keys, values, recs)
    ensures |Present(slots)| == |Listed(PresentLocs(slots), keys, values)|
    ensures forall t :: 0 <= t < |Present(slots)| ==>
      PlacedPair(slots, keys, values, Present(slots)[t], Listed(PresentLocs(slots), keys, values)[t])
    ensures forall s :: 0 <= s < |slots| && slots[s].present ==> s in Present(slots)
  {
    var present, locs := Present(slots), PresentLocs(slots);
    SelectIsFilter(|slots|, s => 0 <= s < |slots| && slots[s].present);
    forall t | 0 <= t < |present| ensures PlacedPair(slots, keys, values, present[t], Listed(locs, keys, values)[t]) {
      assert present[t] in present;
      assert SlotInPlace(slots, keys, values, present[t]);
      assert Listed(locs, keys, values)[t] == PairAt(locs[t], keys, values);
    }
  }
}
