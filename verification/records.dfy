/** Staged records, the "last put wins" meaning of a cache, and src/core/fce_build_records.c. */
module Records {
  import opened Bytes
  import opened Sorting

  datatype Pair = Pair(key: Bytes, value: Bytes)

  datatype BuildRecord = BuildRecord(key: Bytes, value: Bytes, order: nat) {
    function ToPair(): Pair { Pair(key, value) }
  }

  /** The specification every backend refines: the value of the newest put under the key. */
  ghost function LastPut(puts: seq<Pair>, key: Bytes): Option<Bytes> {
    if puts == [] then None
    else
      var last := puts[|puts| - 1];
      if last.key == key then Some(last.value) else LastPut(puts[..|puts| - 1], key)
  }

  ghost predicate SameMap(a: seq<Pair>, b: seq<Pair>) {
    forall key :: LastPut(a, key) == LastPut(b, key)
  }

  ghost predicate DistinctKeys(puts: seq<Pair>) {
    forall i, j :: 0 <= i < j < |puts| ==> puts[i].key != puts[j].key
  }

  ghost predicate IncreasingKeys(puts: seq<Pair>) {
    forall i, j :: 0 <= i < j < |puts| ==> KeyLess(puts[i].key, puts[j].key)
  }

  /** LastPut is pinned by any position that nothing newer overrides. */
  lemma {:induction false} LastPutAt(puts: seq<Pair>, p: nat)
    requires p < |puts|
    requires forall q :: p < q < |puts| ==> puts[q].key != puts[p].key
    ensures LastPut(puts, puts[p].key) == Some(puts[p].value)
  {
    if p < |puts| - 1 {
      LastPutAt(puts[..|puts| - 1], p);
    }
  }

  lemma {:induction false} LastPutNone(puts: seq<Pair>, key: Bytes)
    requires forall q :: 0 <= q < |puts| ==> puts[q].key != key
    ensures LastPut(puts, key) == None
  {
    if puts != [] {
      LastPutNone(puts[..|puts| - 1], key);
    }
  }

  /** The converse: an answer always comes from the newest position holding the key. */
  lemma {:induction false} LastPutWitness(puts: seq<Pair>, key: Bytes) returns (p: nat)
    requires LastPut(puts, key).Some?
    ensures p < |puts| && puts[p] == Pair(key, LastPut(puts, key).value)
    ensures forall q :: p < q < |puts| ==> puts[q].key != key
  {
    p := |puts| - 1;
    if puts[p].key != key {
      p := LastPutWitness(puts[..|puts| - 1], key);
    }
  }

  lemma {:induction false} IncreasingIsDistinct(puts: seq<Pair>)
    requires IncreasingKeys(puts)
    ensures DistinctKeys(puts)
  {
    forall i, j | 0 <= i < j < |puts| ensures puts[i].key != puts[j].key {
      KeyLessIrreflexive(puts[i].key);
    }
  }

  /** The same records in some order, no key twice. */
  ghost predicate SameRecords(a: seq<Pair>, b: seq<Pair>) {
    && DistinctKeys(a) && DistinctKeys(b)
    && forall x :: x in a <==> x in b
  }

  lemma {:induction false} SameRecordsSameSize(a: seq<Pair>, b: seq<Pair>)
    requires SameRecords(a, b)
    ensures |a| == |b|
  {
    DistinctCard(a);
    DistinctCard(b);
    assert Elements(a) == Elements(b);
  }

  lemma {:induction false} RearrangedRecords(listed: seq<Pair>, recs: seq<Pair>, origin: seq<nat>)
    requires |listed| == |origin| && DistinctKeys(recs) && Distinct(origin)
    requires forall s :: 0 <= s < |listed| ==> origin[s] < |recs| && listed[s] == recs[origin[s]]
    requires forall i :: 0 <= i < |recs| ==> i in origin
    ensures SameRecords(listed, recs)
  {
    forall p | p in recs ensures p in listed {
      var i :| 0 <= i < |recs| && recs[i] == p;
      assert i in origin;
      var s :| 0 <= s < |origin| && origin[s] == i;
      assert listed[s] == p;
    }
  }

  /** With distinct keys the order of the records does not matter. */
  lemma {:induction false} PermutationSameMap(a: seq<Pair>, b: seq<Pair>)
    requires SameRecords(a, b)
    ensures SameMap(a, b)
  {
    forall key ensures LastPut(a, key) == LastPut(b, key) {
      if LastPut(a, key).Some? {
        var p := LastPutWitness(a, key);
        assert a[p] in b;
        var q :| 0 <= q < |b| && b[q] == a[p];
        LastPutAt(b, q);
      } else if LastPut(b, key).Some? {
        var p := LastPutWitness(b, key);
        assert b[p] in a;
        var q :| 0 <= q < |a| && a[q] == b[p];
        LastPutAt(a, q);
      }
    }
  }

  // ---- The deduplicated list: ascending keys, newest value each ----

  ghost function Upsert(recs: seq<Pair>, p: Pair): seq<Pair> {
    if recs == [] || KeyLess(p.key, recs[0].key) then [p] + recs
    else if recs[0].key == p.key then [p] + recs[1..]
    else [recs[0]] + Upsert(recs[1..], p)
  }

  /** What deduplication keeps of a put sequence. */
  ghost function Survivors(puts: seq<Pair>): seq<Pair> {
    if puts == [] then [] else Upsert(Survivors(puts[..|puts| - 1]), puts[|puts| - 1])
  }

  lemma {:induction false} UpsertKeepsOrder(recs: seq<Pair>, p: Pair)
    requires IncreasingKeys(recs)
    ensures IncreasingKeys(Upsert(recs, p))
    ensures forall x :: x in Upsert(recs, p) ==> x == p || (x in recs && x.key != p.key)
    ensures forall x :: x in recs && x.key != p.key ==> x in Upsert(recs, p)
    ensures p in Upsert(recs, p)
  {
    IncreasingIsDistinct(recs);
    if recs != [] {
      KeyBytesCmpIsLexicographic(p.key, recs[0].key);
      var up := Upsert(recs, p);
      if KeyLess(p.key, recs[0].key) {
        forall j | 0 <= j < |recs| ensures KeyLess(p.key, recs[j].key) {
          if j > 0 {
            KeyLessTransitive(p.key, recs[0].key, recs[j].key);
          }
        }
        forall x | x in recs ensures x.key != p.key {
          KeyLessIrreflexive(p.key);
        }
      } else if recs[0].key != p.key {
        UpsertKeepsOrder(recs[1..], p);
        forall x | x in up[1..] ensures KeyLess(recs[0].key, x.key) {
        }
        assert forall x :: x in recs <==> x == recs[0] || x in recs[1..];
        forall i, j | 0 <= i < j < |up| ensures KeyLess(up[i].key, up[j].key) {
          if i == 0 {
            assert up[j] in up[1..];
          } else {
            assert up[i] == up[1..][i - 1] && up[j] == up[1..][j - 1];
          }
        }
      } else {
        assert forall x :: x in recs <==> x == recs[0] || x in recs[1..];
      }
    }
  }

  lemma {:induction false} SurvivorsKeepTheMap(puts: seq<Pair>)
    ensures IncreasingKeys(Survivors(puts)) && SameMap(Survivors(puts), puts)
  {
    if puts != [] {
      var front, p := puts[..|puts| - 1], puts[|puts| - 1];
      SurvivorsKeepTheMap(front);
      UpsertKeepsOrder(Survivors(front), p);
      IncreasingIsDistinct(Survivors(front));
      IncreasingIsDistinct(Survivors(puts));
      forall key ensures LastPut(Survivors(puts), key) == LastPut(puts, key) {
        DistinctLookup(Survivors(puts), key);
        DistinctLookup(Survivors(front), key);
      }
    }
  }

  /** With distinct keys, an answer is just membership. */
  lemma {:induction false} DistinctLookup(recs: seq<Pair>, key: Bytes)
    requires DistinctKeys(recs)
    ensures forall x :: x in recs && x.key == key ==> LastPut(recs, key) == Some(x.value)
    ensures LastPut(recs, key).Some? ==> Pair(key, LastPut(recs, key).value) in recs
  {
    forall x | x in recs && x.key == key ensures LastPut(recs, key) == Some(x.value) {
      var p :| 0 <= p < |recs| && recs[p] == x;
      LastPutAt(recs, p);
    }
    if LastPut(recs, key).Some? {
      var p := LastPutWitness(recs, key);
    }
  }

  /** A map has one ascending listing. */
  lemma {:induction false} AscendingListingIsUnique(a: seq<Pair>, b: seq<Pair>)
    requires IncreasingKeys(a) && IncreasingKeys(b) && SameMap(a, b)
    ensures a == b
  {
    IncreasingIsDistinct(a);
    IncreasingIsDistinct(b);
    forall x ensures x in a <==> x in b {
      DistinctLookup(a, x.key);
      DistinctLookup(b, x.key);
    }
    if a != [] {
      assert a[0] in b;
    }
    if b != [] {
      assert b[0] in a;
    }
    if a != [] && b != [] {
      assert a[0] in b && b[0] in a;
      assert a[0] == b[0] by {
        KeyBytesCmpIsLexicographic(a[0].key, b[0].key);
      }
      forall x ensures x in a[1..] <==> x in b[1..] {
        assert x in a <==> x == a[0] || x in a[1..];
        assert x in b <==> x == b[0] || x in b[1..];
        assert a[0] !in a[1..] && b[0] !in b[1..];
      }
      PermutationSameMap(a[1..], b[1..]);
      AscendingListingIsUnique(a[1..], b[1..]);
      assert a == [a[0]] + a[1..] && b == [b[0]] + b[1..];
    }
  }

  // ---- cmp_build_by_key ----

  /** Key bytes first, then length, then put order. */
  function CmpBuildByKey(a: BuildRecord, b: BuildRecord): int {
    var c := KeyBytesCmp(a.key, b.key);
    if c != 0 then c else a.order - b.order
  }

  const BUILD_BY_KEY := (a: BuildRecord, b: BuildRecord) => CmpBuildByKey(a, b) <= 0

  lemma {:induction false} CmpBuildByKeyIsTotal()
    ensures TotalPreorder(BUILD_BY_KEY)
  {
    forall a, b ensures BUILD_BY_KEY(a, b) || BUILD_BY_KEY(b, a) {
      KeyBytesCmpIsLexicographic(a.key, b.key);
      KeyBytesCmpIsLexicographic(b.key, a.key);
    }
    forall a, b, c | BUILD_BY_KEY(a, b) && BUILD_BY_KEY(b, c) ensures BUILD_BY_KEY(a, c) {
      KeyBytesCmpIsLexicographic(a.key, b.key);
      KeyBytesCmpIsLexicographic(b.key, c.key);
      KeyBytesCmpIsLexicographic(a.key, c.key);
      if KeyLess(a.key, b.key) && KeyLess(b.key, c.key) {
        KeyLessTransitive(a.key, b.key, c.key);
      }
    }
  }

  // ---- dedupe_records ----

  function Pairs(records: seq<BuildRecord>): (ps: seq<Pair>)
    ensures |ps| == |records|
    ensures forall i :: 0 <= i < |ps| ==> ps[i] == records[i].ToPair()
  {
    seq(|records|, i requires 0 <= i < |records| => records[i].ToPair())
  }

  /** The builder stamps every record with its position. */
  ghost predicate Stamped(records: seq<BuildRecord>) {
    forall i :: 0 <= i < |records| ==> records[i].order == i
  }

  method DedupeRecords(records: seq<BuildRecord>, allowDuplicatePut: bool) returns (r: Result<seq<Pair>>)
    requires Stamped(records)
    ensures r.Err? <==> !allowDuplicatePut && !DistinctKeys(Pairs(records))
    ensures r.Err? ==> r.status == InvalidArgument
    ensures r.Ok? ==> r.value == Survivors(Pairs(records))
  {
    hide Survivors, LastPut, TotalPreorder, DedupeProgress, Stamped, DistinctKeys, IncreasingKeys, Distinct, Ascending;
    CmpBuildByKeyIsTotal();
    var tmp := Qsort(records, BUILD_BY_KEY);
    SameElements(records, tmp);
    StampedIsDistinct(records);
    PermutationKeepsDistinct(records, tmp);
    var dedup: seq<BuildRecord> := [];
    ghost var rep: seq<nat> := [];  // the output slot that represents each sorted record
    NothingDeduped(tmp);
    var i := 0;
    while i < |tmp|
      invariant 0 <= i <= |tmp|
      invariant DedupeProgress(tmp, i, dedup, rep)
      invariant !allowDuplicatePut ==> dedup == tmp[..i]
    {
      var j, latest := LatestOfRun(tmp, i, allowDuplicatePut);
      if !allowDuplicatePut && j > i + 1 {
        DuplicateFound(records, tmp, i, i + 1);
        return Err(InvalidArgument);
      }
      DedupeStep(tmp, i, j, dedup, rep, latest);
      rep := rep + seq(j - i, _ => |dedup|);
      dedup := dedup + [latest];
      i := j;
    }
    DedupeKeepsMap(records, tmp, dedup, rep);
    SurvivorsKeepTheMap(Pairs(records));
    AscendingListingIsUnique(Pairs(dedup), Survivors(Pairs(records)));
    if !allowDuplicatePut {
      assert tmp[..i] == tmp;
      NoDuplicates(records, tmp);
    }
    return Ok(Pairs(dedup));
  }

  lemma {:induction false} StampedIsDistinct(records: seq<BuildRecord>)
    requires Stamped(records)
    ensures Distinct(records)
  {
    forall i, j | 0 <= i < j < |records| ensures records[i] != records[j] {
      assert records[i].order != records[j].order;
    }
  }

  lemma {:induction false} NothingDeduped(tmp: seq<BuildRecord>)
    ensures DedupeProgress(tmp, 0, [], [])
  {
  }

  /** The inner loop: the end of the run of equal keys at i and its newest record. The scan
      stops at the second record of a run when duplicates are not allowed. */
  method LatestOfRun(tmp: seq<BuildRecord>, i: nat, allowDuplicatePut: bool) returns (j: nat, latest: BuildRecord)
    requires i < |tmp|
    ensures i < j <= |tmp| && latest in tmp[i..j]
    ensures forall t :: i <= t < j ==> tmp[t].key == tmp[i].key && tmp[t].order <= latest.order
    ensures j < |tmp| ==> tmp[j].key != tmp[i].key || (!allowDuplicatePut && j == i + 2)
  {
    j, latest := i + 1, tmp[i];
    while j < |tmp| && tmp[j].key == tmp[i].key
      invariant i < j <= |tmp|
      invariant latest in tmp[i..j]
      invariant forall t :: i <= t < j ==> tmp[t].key == tmp[i].key && tmp[t].order <= latest.order
      invariant !allowDuplicatePut ==> j == i + 1
    {
      assert tmp[i..j + 1] == tmp[i..j] + [tmp[j]];
      if tmp[j].order > latest.order {
        latest := tmp[j];
      }
      j := j + 1;
      if !allowDuplicatePut {
        return;
      }
    }
  }

  ghost predicate Represents(dedup: seq<BuildRecord>, d: nat, t: BuildRecord) {
    d < |dedup| && dedup[d].key == t.key && t.order <= dedup[d].order
  }

  /** The first i sorted records are represented; everything emitted is below the rest. */
  ghost predicate DedupeProgress(tmp: seq<BuildRecord>, i: nat, dedup: seq<BuildRecord>, rep: seq<nat>)
    requires i <= |tmp|
  {
    && |rep| == i
    && (forall t :: 0 <= t < i ==> Represents(dedup, rep[t], tmp[t]))
    && (forall d :: 0 <= d < |dedup| ==> dedup[d] in tmp)
    && (forall d, t :: 0 <= d < |dedup| && i <= t < |tmp| ==> KeyLess(dedup[d].key, tmp[t].key))
    && IncreasingKeys(Pairs(dedup))
  }

  lemma {:induction false} DedupeStep(tmp: seq<BuildRecord>, i: nat, j: nat, dedup: seq<BuildRecord>, rep: seq<nat>,
                                      latest: BuildRecord)
    requires Ascending(tmp, BUILD_BY_KEY)
    requires i < j <= |tmp| && DedupeProgress(tmp, i, dedup, rep)
    requires j < |tmp| ==> tmp[j].key != tmp[i].key
    requires latest in tmp[i..j]
    requires forall t :: i <= t < j ==> tmp[t].key == tmp[i].key && tmp[t].order <= latest.order
    ensures DedupeProgress(tmp, j, dedup + [latest], rep + seq(j - i, _ => |dedup|))
  {
    var dedup', rep' := dedup + [latest], rep + seq(j - i, _ => |dedup|);
    forall t | j <= t < |tmp| ensures KeyLess(latest.key, tmp[t].key) {
      RunEnds(tmp, i, j, t);
    }
    forall t | 0 <= t < j ensures Represents(dedup', rep'[t], tmp[t]) {
      if t < i {
        assert Represents(dedup, rep[t], tmp[t]);
      }
    }
    assert Pairs(dedup') == Pairs(dedup) + [latest.ToPair()];
    forall d | 0 <= d < |dedup| ensures KeyLess(Pairs(dedup)[d].key, latest.key) {
      assert KeyLess(dedup[d].key, tmp[i].key);
    }
    ExtendIncreasing(Pairs(dedup), latest.ToPair());
  }

  lemma {:induction false} ExtendIncreasing(recs: seq<Pair>, p: Pair)
    requires IncreasingKeys(recs) && forall d :: 0 <= d < |recs| ==> KeyLess(recs[d].key, p.key)
    ensures IncreasingKeys(recs + [p])
  {
  }

  /** Past the end of a run of equal keys, every key is strictly greater. */
  lemma {:induction false} RunEnds(tmp: seq<BuildRecord>, i: nat, j: nat, t: nat)
    requires Ascending(tmp, BUILD_BY_KEY)
    requires i < j <= t < |tmp| && tmp[j].key != tmp[i].key
    ensures KeyLess(tmp[i].key, tmp[t].key)
  {
    assert BUILD_BY_KEY(tmp[i], tmp[j]);
    KeyBytesCmpIsLexicographic(tmp[i].key, tmp[j].key);
    if t > j {
      assert BUILD_BY_KEY(tmp[j], tmp[t]);
      KeyBytesCmpIsLexicographic(tmp[j].key, tmp[t].key);
      if KeyLess(tmp[j].key, tmp[t].key) {
        KeyLessTransitive(tmp[i].key, tmp[j].key, tmp[t].key);
      }
    }
  }

  lemma {:induction false} DuplicateFound(records: seq<BuildRecord>, tmp: seq<BuildRecord>, i: nat, j: nat)
    requires i < j < |tmp| && tmp[i].key == tmp[j].key
    requires forall x :: x in records <==> x in tmp
    requires Distinct(tmp)
    ensures !DistinctKeys(Pairs(records))
  {
    assert tmp[i] in records && tmp[j] in records;
    var p :| 0 <= p < |records| && records[p] == tmp[i];
    var q :| 0 <= q < |records| && records[q] == tmp[j];
    assert Pairs(records)[p].key == Pairs(records)[q].key;
  }

  lemma {:induction false} NoDuplicates(records: seq<BuildRecord>, tmp: seq<BuildRecord>)
    requires Stamped(records)
    requires forall x :: x in records <==> x in tmp
    requires IncreasingKeys(Pairs(tmp))
    ensures DistinctKeys(Pairs(records))
  {
    IncreasingIsDistinct(Pairs(tmp));
    forall p, q | 0 <= p < q < |records| ensures records[p].key != records[q].key {
      assert records[p] in tmp && records[q] in tmp;
      var i :| 0 <= i < |tmp| && tmp[i] == records[p];
      var j :| 0 <= j < |tmp| && tmp[j] == records[q];
      assert Pairs(tmp)[i].key == records[p].key && Pairs(tmp)[j].key == records[q].key;
    }
  }

  /** Every kept record is the newest put under its key. */
  lemma {:induction false} KeptIsNewest(records: seq<BuildRecord>, tmp: seq<BuildRecord>, dedup: seq<BuildRecord>,
                                        rep: seq<nat>, d: nat)
    requires Stamped(records)
    requires forall x :: x in records <==> x in tmp
    requires DedupeProgress(tmp, |tmp|, dedup, rep)
    requires d < |dedup|
    ensures LastPut(Pairs(records), dedup[d].key) == Some(dedup[d].value)
  {
    hide KeyLess, LastPut;
    assert dedup[d] in records;
    var p := dedup[d].order;
    forall q | p < q < |records| ensures records[q].key != dedup[d].key {
      assert records[q] in tmp;
      var t :| 0 <= t < |tmp| && tmp[t] == records[q];
      assert Represents(dedup, rep[t], tmp[t]);
      if rep[t] != d {
        IncreasingIsDistinct(Pairs(dedup));
        assert Pairs(dedup)[rep[t]].key != Pairs(dedup)[d].key;
      }
    }
    assert Pairs(records)[p] == dedup[d].ToPair();
    LastPutAt(Pairs(records), p);
  }

  /** A key with a record has one after deduplication. */
  lemma {:induction false} KeyIsKept(records: seq<BuildRecord>, tmp: seq<BuildRecord>, dedup: seq<BuildRecord>,
                                     rep: seq<nat>, key: Bytes)
    requires forall x :: x in records <==> x in tmp
    requires DedupeProgress(tmp, |tmp|, dedup, rep) && LastPut(Pairs(records), key).Some?
    ensures LastPut(Pairs(dedup), key).Some?
  {
    hide KeyLess;
    var a := Pairs(dedup);
    var q := LastPutWitness(Pairs(records), key);
    assert records[q] in tmp;
    var t :| 0 <= t < |tmp| && tmp[t] == records[q];
    assert Represents(dedup, rep[t], tmp[t]);
    IncreasingIsDistinct(a);
    assert a[rep[t]].key == key;
    LastPutAt(a, rep[t]);
  }

  lemma {:induction false} DedupedIncreases(tmp: seq<BuildRecord>, dedup: seq<BuildRecord>, rep: seq<nat>)
    requires DedupeProgress(tmp, |tmp|, dedup, rep)
    ensures IncreasingKeys(Pairs(dedup))
  {
  }

  lemma {:induction false} DedupeKeepsMap(records: seq<BuildRecord>, tmp: seq<BuildRecord>, dedup: seq<BuildRecord>,
                                          rep: seq<nat>)
    requires Stamped(records)
    requires forall x :: x in records <==> x in tmp
    requires DedupeProgress(tmp, |tmp|, dedup, rep)
    ensures IncreasingKeys(Pairs(dedup)) && SameMap(Pairs(dedup), Pairs(records))
  {
    DedupedIncreases(tmp, dedup, rep);
    hide DedupeProgress, Stamped;
    var a, b := Pairs(dedup), Pairs(records);
    forall key ensures LastPut(a, key) == LastPut(b, key) {
      if LastPut(a, key).Some? {
        var d := LastPutWitness(a, key);
        KeptIsNewest(records, tmp, dedup, rep, d);
      } else if LastPut(b, key).Some? {
        KeyIsKept(records, tmp, dedup, rep, key);
      }
    }
  }

  // ---- write_keys_values ----

  /** Where one record lies in keys.fce and values.fce. */
  datatype Loc = Loc(keyOff: nat, keyLen: nat, valOff: nat, valLen: nat)

  predicate LocInRange(loc: Loc, keySize: nat, valueSize: nat) {
    RangeOk(loc.keyOff, loc.keyLen, keySize) && RangeOk(loc.valOff, loc.valLen, valueSize)
  }

  function PairAt(loc: Loc, keys: Bytes, values: Bytes): Pair
    requires LocInRange(loc, |keys|, |values|)
  {
    Pair(keys[loc.keyOff..loc.keyOff + loc.keyLen], values[loc.valOff..loc.valOff + loc.valLen])
  }

  ghost predicate InRange(locs: seq<Loc>, keys: Bytes, values: Bytes) {
    forall i :: 0 <= i < |locs| ==> LocInRange(locs[i], |keys|, |values|)
  }

  /** The records that a list of locations denotes. */
  ghost function Listed(locs: seq<Loc>, keys: Bytes, values: Bytes): seq<Pair>
    requires InRange(locs, keys, values)
  {
    seq(|locs|, i requires 0 <= i < |locs| => PairAt(locs[i], keys, values))
  }

  ghost predicate Laid(locs: seq<Loc>, keys: Bytes, values: Bytes, recs: seq<Pair>) {
    InRange(locs, keys, values) && Listed(locs, keys, values) == recs
  }

  /** The value slice of a located record, re-checked as every lookup does. */
  function ValueAt(loc: Loc, values: Bytes): Result<Bytes> {
    if RangeOk(loc.valOff, loc.valLen, |values|) then Ok(values[loc.valOff..loc.valOff + loc.valLen])
    else Err(Corrupt)
  }

  /** How a lookup reports an abstract answer. */
  function Answer(o: Option<Bytes>): Result<Bytes> {
    match o
    case Some(v) => Ok(v)
    case None => Err(NotFound)
  }

  /** Appending one record's bytes leaves every earlier slice as it was. */
  lemma {:induction false} LaidExtends(locs: seq<Loc>, keys: Bytes, values: Bytes, recs: seq<Pair>, p: Pair)
    requires Laid(locs, keys, values, recs)
    ensures Laid(locs + [Loc(|keys|, |p.key|, |values|, |p.value|)], keys + p.key, values + p.value, recs + [p])
  {
    var keys', values' := keys + p.key, values + p.value;
    var locs' := locs + [Loc(|keys|, |p.key|, |values|, |p.value|)];
    assert InRange(locs', keys', values');
    forall k | 0 <= k < |locs'| ensures Listed(locs', keys', values')[k] == (recs + [p])[k] {
      if k < |locs| {
        assert PairAt(locs[k], keys', values') == PairAt(locs[k], keys, values) == Listed(locs, keys, values)[k];
      }
    }
  }

  ghost function KeyBytes(recs: seq<Pair>): Bytes {
    if recs == [] then [] else KeyBytes(recs[..|recs| - 1]) + recs[|recs| - 1].key
  }

  ghost function ValueBytes(recs: seq<Pair>): Bytes {
    if recs == [] then [] else ValueBytes(recs[..|recs| - 1]) + recs[|recs| - 1].value
  }

  predicate Fits32(p: Pair) {
    |p.key| <= U32_MAX && |p.value| <= U32_MAX
  }

  ghost predicate AllFit32(recs: seq<Pair>) {
    forall i :: 0 <= i < |recs| ==> Fits32(recs[i])
  }

  datatype Layout = Layout(locs: seq<Loc>, keys: Bytes, values: Bytes)

  /** What the key and value files can hold: 32-bit slices and writable file sizes. */
  ghost predicate Storable(recs: seq<Pair>) {
    && AllFit32(recs)
    && |KeyBytes(recs)| <= MAX_FILE && |ValueBytes(recs)| <= MAX_FILE
  }

  /** The complaint about the first record that cannot be stored. */
  ghost function StoreError(recs: seq<Pair>): Status {
    if recs == [] then Io
    else if !Storable(recs[..|recs| - 1]) then StoreError(recs[..|recs| - 1])
    else if !Fits32(recs[|recs| - 1]) then InvalidArgument
    else Io
  }

  lemma {:induction false} FirstStoreError(recs: seq<Pair>, n: nat)
    requires n < |recs| && Storable(recs[..n]) && !Storable(recs[..n + 1])
    ensures !Storable(recs) && StoreError(recs) == if !Fits32(recs[n]) then InvalidArgument else Io
    decreases |recs|
  {
    StorablePrefix(recs, n + 1);
    if n == |recs| - 1 {
      assert recs[..n + 1] == recs;
    } else {
      var front := recs[..|recs| - 1];
      assert front[..n] == recs[..n] && front[..n + 1] == recs[..n + 1];
      FirstStoreError(front, n);
    }
  }

  method WriteKeysValues(recs: seq<Pair>) returns (r: Result<Layout>)
    ensures r.Ok? <==> Storable(recs)
    ensures r.Err? ==> r.status == StoreError(recs)
    ensures r.Ok? ==> r.value.keys == KeyBytes(recs) && r.value.values == ValueBytes(recs)
    ensures r.Ok? ==> Laid(r.value.locs, r.value.keys, r.value.values, recs)
  {
    var locs: seq<Loc>, keys: Bytes, values: Bytes := [], [], [];
    for i := 0 to |recs|
      invariant Storable(recs[..i])
      invariant keys == KeyBytes(recs[..i]) && values == ValueBytes(recs[..i])
      invariant Laid(locs, keys, values, recs[..i])
    {
      assert recs[..i + 1] == recs[..i] + [recs[i]];
      LaidExtends(locs, keys, values, recs[..i], recs[i]);
      if !Fits32(recs[i]) {
        assert !Fits32(recs[..i + 1][i]);
        FirstStoreError(recs, i);
        return Err(InvalidArgument);
      }
      if |keys| + |recs[i].key| > MAX_FILE || |values| + |recs[i].value| > MAX_FILE {
        FirstStoreError(recs, i);
        return Err(Io);
      }
      locs := locs + [Loc(|keys|, |recs[i].key|, |values|, |recs[i].value|)];
      keys := keys + recs[i].key;
      values := values + recs[i].value;
    }
    assert recs[..|recs|] == recs;
    return Ok(Layout(locs, keys, values));
  }

  lemma {:induction false} StorablePrefix(recs: seq<Pair>, n: nat)
    requires n <= |recs|
    ensures Storable(recs) ==> Storable(recs[..n])
    decreases |recs| - n
  {
    if n == |recs| {
      assert recs[..n] == recs;
    } else {
      StorablePrefix(recs, n + 1);
      assert recs[..n + 1][..n] == recs[..n];
    }
  }

  /** Every location of a stored layout fits the struct fields it is written to. */
  lemma {:induction false} StoredLocsFit(l: Layout, recs: seq<Pair>, i: nat)
    requires Storable(recs) && l.keys == KeyBytes(recs) && l.values == ValueBytes(recs)
    requires Laid(l.locs, l.keys, l.values, recs) && i < |l.locs|
    ensures |l.locs| == |recs| && l.locs[i].keyLen == |recs[i].key| && l.locs[i].valLen == |recs[i].value|
    ensures l.locs[i].keyOff <= MAX_FILE && l.locs[i].valOff <= MAX_FILE
    ensures l.locs[i].keyLen <= U32_MAX && l.locs[i].valLen <= U32_MAX
  {
    assert Listed(l.locs, l.keys, l.values)[i] == PairAt(l.locs[i], l.keys, l.values) == recs[i];
  }
}
