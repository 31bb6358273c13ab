/** A directory that holds one record, as the builder writes it: what the counterexamples of the translation start
    from. Only the backends that take a transforming key codec are needed. */
module OneRecord {
  import opened Bytes
  import opened Records
  import opened Format
  import opened SortedIndex
  import opened Sorting
  import opened MphGroup
  import opened Mph
  import opened Crc
  import opened Schemas
  import opened Validation
  import opened Reader
  import opened Builders

  predicate Hashed(s: Schema) {
    s.backend == SortedBackend || s.backend == MphBackend
  }

  lemma {:induction false} OneSurvivor(p: Pair)
    ensures Survivors([p]) == [p] && DistinctKeys([p]) && IncreasingKeys([p])
    ensures KeyBytes([p]) == p.key && ValueBytes([p]) == p.value
    ensures Fits32(p) ==> Storable([p])
  {
    assert [p][..0] == [];
    assert Survivors([p]) == Upsert(Survivors([]), p) == [p];
    assert KeyBytes([p]) == KeyBytes([]) + p.key && ValueBytes([p]) == ValueBytes([]) + p.value;
  }

  function OneLayout(p: Pair): Layout {
    Layout([Loc(0, |p.key|, 0, |p.value|)], p.key, p.value)
  }

  lemma {:induction false} OneLaid(p: Pair)
    ensures Laid(OneLayout(p).locs, p.key, p.value, [p])
  {
    var lay := OneLayout(p);
    assert PairAt(lay.locs[0], p.key, p.value) == p;
    assert Listed(lay.locs, p.key, p.value) == [p];
  }

  // ---- Sorted index ----

  lemma {:induction false} OneSortedImage(p: Pair, hash: Hasher) returns (f: IndexFiles)
    requires Fits32(p)
    ensures SortedImage(f, [p], hash)
  {
    hide SortedImage, EncodeTable, KeyBytes, ValueBytes, Storable;
    var lay := OneLayout(p);
    var e := EntriesOf([p], lay.locs, hash);
    OneSurvivor(p);
    OneLaid(p);
    SortedEntriesAreTheImage([p], lay, e, e, hash);
    f := IndexFiles(EncodeTable(e, EncSorted), p.key, p.value, 1);
  }

  // ---- Minimal perfect hash: one bucket, one slot ----

  lemma {:induction false} OneBucket(p: Pair, hash: Hasher)
    ensures Buckets([p], hash) == [0] && Members([0], 0) == [0] && Groups([p], hash) == [[0]]
    ensures BucketOrder([BuildBucket(0, 1)], [0], 1)
  {
    assert Buckets([p], hash)[0] == 0;
    assert [0][..0] == [];
    var none: seq<nat> := [];
    assert Members(none, 0) == [];
    assert Members([0], 0) == [0];
    assert BucketList([0], 1) == [BuildBucket(0, 1)];
  }

  lemma {:induction false} OneTrial(p: Pair, sh: SlotHasher, seed: u64)
    ensures TrialSlots([p], [0], seed, sh) == [0] && SeedFits([p], [0], sh, [false], seed)
  {
    assert TrialSlots([p], [0], seed, sh)[0] == 0;
  }

  lemma {:induction false} OneAdvances(p: Pair, sh: SlotHasher, st: Seeding)
    requires st == Seeding([0], [false])
    ensures GroupsInRange([p], [[0]]) && Advance([p], [[0]], 0, sh, st).Some?
  {
    hide TrialSlots, Mark;
    assert [[0]][0] == [0];
    OneTrial(p, sh, 1);
    assert IsFirstSeed([p], [0], sh, [false], 1);
  }

  lemma {:induction false} OneIsPlaceable(p: Pair, hash: Hasher, sh: SlotHasher)
    ensures Placeable([p], hash, sh)
  {
    hide Greedy, Advance, Groups, Buckets, BucketOrder, Members;
    var recs, gs, order := [p], Groups([p], hash), [BuildBucket(0, 1)];
    OneBucket(p, hash);
    GreedyStarts(recs, gs, order, sh);
    assert seq(1, _ => 0) == [0] && seq(1, _ => false) == [false];
    OneAdvances(p, sh, Seeding([0], [false]));
    GreedySteps(recs, gs, order, sh, 0);
  }

  lemma {:induction false} OnePlaced(p: Pair, loc: Loc, hash: Hasher, sh: SlotHasher)
    ensures Placed([p], [0], hash, sh, [loc], Below(1), [1], [true], [SlotEntry(p, loc, hash)])
  {
    assert SlotAt([p], [0], [1], sh, 0) == 0;
  }

  lemma {:induction false} OneMphImage(p: Pair, hash: Hasher, sh: SlotHasher) returns (f: IndexFiles)
    requires Fits32(p)
    ensures MphImage(f, [p], hash, sh)
  {
    hide MphImage, EncodeMph, KeyBytes, ValueBytes, Storable, Groups, Buckets, Placed, Members, BucketOrder, Laid,
      SlotEntry;
    var lay := OneLayout(p);
    var x := MphIndex([1], [SlotEntry(p, lay.locs[0], hash)]);
    OneSurvivor(p);
    OneLaid(p);
    OneBucket(p, hash);
    OnePlaced(p, lay.locs[0], hash, sh);
    PlacedIsTheImage(x, [true], [p], lay, hash, sh);
    f := IndexFiles(EncodeMph(x), p.key, p.value, 1);
  }

  // ---- The directory ----

  lemma {:induction false} OneImage(s: Schema, p: Pair, hash: Hasher, sh: SlotHasher) returns (f: IndexFiles)
    requires Hashed(s) && Fits32(p)
    ensures Image(s.backend, f, [p], hash, sh)
  {
    hide SortedImage, MphImage;
    if s.backend == SortedBackend {
      f := OneSortedImage(p, hash);
    } else {
      f := OneMphImage(p, hash, sh);
    }
  }

  lemma {:induction false} OneIsFreezable(s: Schema, p: Pair, hash: Hasher, sh: SlotHasher)
    requires Hashed(s) && Fits32(p)
    ensures Freezable(s, [p], hash, sh)
  {
    hide Placeable, KeyBytes, ValueBytes;
    OneSurvivor(p);
    OneIsPlaceable(p, hash, sh);
  }

  /** Every record of 32-bit lengths can be frozen alone, and the directory opens. */
  lemma {:induction false} OneDirectory(s: Schema, p: Pair, dir: Cache, hash: Hasher, sh: SlotHasher)
    returns (c: Cache)
    requires SchemaOk(s) && Hashed(s) && Fits32(p) && dir.log == []
    ensures Freezable(s, [p], hash, sh) && Frozen(s, [p], dir, c, hash, sh) && Opens(c, Crc64)
  {
    hide Image, Freezable, Opens, StructureOk, Intact, SortedImage, MphImage, SchemaOk;
    var f := OneImage(s, p, hash, sh);
    OneSurvivor(p);
    OneIsFreezable(s, p, hash, sh);
    c := IndexCache(s, f, [], Crc64);
    assert IndexPart(c) == f;
    FrozenIndexOpens(s, f, [], [p], hash, sh, Crc64);
  }

  /** Whatever the freeze of one record into an empty directory left, it opens. */
  lemma {:induction false} OneOpens(s: Schema, p: Pair, dir: Cache, c: Cache, hash: Hasher, sh: SlotHasher)
    requires SchemaOk(s) && Hashed(s) && dir.log == [] && Frozen(s, [p], dir, c, hash, sh)
    ensures Opens(c, Crc64) && |c.index| <= MAX_FILE && c.manifest.schema == s
  {
    hide Image, Opens, StructureOk, Intact, SortedImage, MphImage, SchemaOk;
    OneSurvivor(p);
    FrozenIndexOpens(s, IndexPart(c), [], [p], hash, sh, Crc64);
    OneIsSmall(s, IndexPart(c), p, hash, sh);
  }

  lemma {:induction false} OneIsSmall(s: Schema, f: IndexFiles, p: Pair, hash: Hasher, sh: SlotHasher)
    requires Hashed(s) && Image(s.backend, f, [p], hash, sh)
    ensures |f.index| <= MAX_FILE
  {
  }
}
