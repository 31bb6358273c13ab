/** The minimal perfect hash: src/backends/fce_backend_mph.c. */
module Mph {
  import opened Bytes
  import opened Sorting
  import opened Records
  import opened Format
  import opened SortedIndex
  import opened MphGroup

  /** The seeded 64-bit hash behind mph_slot_for: again a parameter. */
  type SlotHasher = (Bytes, u64) -> u64

  const SEED_LIMIT := 1000000

  function Reduce(h: nat, n: nat): (r: nat)
    requires n > 0
    ensures r < n
  {
    h % n
  }

  function BucketOf(key: Bytes, hash: Hasher, n: nat): nat
    requires n > 0
  {
    Reduce(hash(key).hi, n)
  }

  function SlotFor(key: Bytes, seed: u64, sh: SlotHasher, n: nat): (s: nat)
    requires n > 0
    ensures s < n
  {
    Reduce(sh(key, seed), n)
  }

  /** Bucket and slot are remainders: of the high word of the key's hash, and of its seeded hash. */
  lemma {:induction false} HomeIsRemainder(key: Bytes, seed: u64, hash: Hasher, sh: SlotHasher, n: nat)
    requires n > 0
    ensures BucketOf(key, hash, n) < n && exists q: nat :: hash(key).hi == q * n + BucketOf(key, hash, n)
    ensures SlotFor(key, seed, sh, n) < n && exists q: nat :: sh(key, seed) == q * n + SlotFor(key, seed, sh, n)
  {
    var h, s := hash(key).hi, sh(key, seed);
    assert h == h / n * n + h % n && s == s / n * n + s % n;
  }

  // ---- One bucket: does a seed fit? ----

  ghost function TrialSlots(recs: seq<Pair>, ms: seq<nat>, seed: u64, sh: SlotHasher): seq<nat>
    requires forall j :: 0 <= j < |ms| ==> ms[j] < |recs|
  {
    seq(|ms|, j requires 0 <= j < |ms| => SlotFor(recs[ms[j]].key, seed, sh, |recs|))
  }

  /** All trial slots are free and no two members share one. */
  ghost predicate Fits(trial: seq<nat>, used: seq<bool>) {
    (forall j :: 0 <= j < |trial| ==> trial[j] < |used| && !used[trial[j]]) && Distinct(trial)
  }

  method TrySeed(recs: seq<Pair>, ms: seq<nat>, seed: u64, sh: SlotHasher, used: array<bool>)
    returns (placed: bool, trial: seq<nat>)
    requires forall j :: 0 <= j < |ms| ==> ms[j] < |recs|
    requires used.Length == |recs|
    ensures placed <==> Fits(TrialSlots(recs, ms, seed, sh), used[..])
    ensures placed ==> trial == TrialSlots(recs, ms, seed, sh)
  {
    ghost var goal := TrialSlots(recs, ms, seed, sh);
    trial := [];
    for j := 0 to |ms|
      invariant trial == goal[..j]
      invariant Fits(trial, used[..])
    {
      var slot := SlotFor(recs[ms[j]].key, seed, sh, |recs|);
      assert slot == goal[j];
      if used[slot] {
        assert used[..][goal[j]];
        return false, trial;
      }
      for k := 0 to j
        invariant forall i :: 0 <= i < k ==> trial[i] != slot
      {
        if trial[k] == slot {
          assert goal[k] == goal[j];
          return false, trial;
        }
      }
      trial := trial + [slot];
    }
    assert goal[..|ms|] == goal;
    return true, trial;
  }

  ghost predicate SeedFits(recs: seq<Pair>, ms: seq<nat>, sh: SlotHasher, used: seq<bool>, seed: u64)
    requires forall j :: 0 <= j < |ms| ==> ms[j] < |recs|
  {
    Fits(TrialSlots(recs, ms, seed, sh), used)
  }

  ghost predicate IsFirstSeed(recs: seq<Pair>, ms: seq<nat>, sh: SlotHasher, used: seq<bool>, seed: u64)
    requires forall j :: 0 <= j < |ms| ==> ms[j] < |recs|
  {
    && 1 <= seed < SEED_LIMIT && SeedFits(recs, ms, sh, used, seed)
    && forall q :: 1 <= q < seed ==> !SeedFits(recs, ms, sh, used, q)
  }

  /** The least fitting seed below the limit, if there is one. */
  ghost function FirstSeed(recs: seq<Pair>, ms: seq<nat>, sh: SlotHasher, used: seq<bool>): Option<u64>
    requires forall j :: 0 <= j < |ms| ==> ms[j] < |recs|
  {
    if seed :| IsFirstSeed(recs, ms, sh, used, seed) then Some(seed) else None
  }

  method FindSeed(recs: seq<Pair>, ms: seq<nat>, sh: SlotHasher, used: array<bool>)
    returns (r: Option<u64>, trial: seq<nat>)
    requires forall j :: 0 <= j < |ms| ==> ms[j] < |recs|
    requires used.Length == |recs|
    ensures r == FirstSeed(recs, ms, sh, used[..])
    ensures r.Some? ==> r.value > 0 && trial == TrialSlots(recs, ms, r.value, sh) && Fits(trial, used[..])
  {
    ghost var free := used[..];
    var seed := 1;
    while seed < SEED_LIMIT
      invariant 1 <= seed <= SEED_LIMIT
      invariant forall q :: 1 <= q < seed ==> !SeedFits(recs, ms, sh, free, q)
    {
      var placed, slots := TrySeed(recs, ms, seed, sh, used);
      assert placed <==> SeedFits(recs, ms, sh, free, seed);
      if placed {
        assert IsFirstSeed(recs, ms, sh, free, seed);
        return Some(seed), slots;
      }
      seed := seed + 1;
    }
    return None, [];
  }

  // ---- All buckets, largest first ----

  datatype BuildBucket = BuildBucket(index: nat, count: nat)

  function CmpMphBucketDesc(x: BuildBucket, y: BuildBucket): int {
    if x.count != y.count then y.count - x.count else x.index - y.index
  }

  const BY_BUCKET_DESC := (x: BuildBucket, y: BuildBucket) => CmpMphBucketDesc(x, y) <= 0

  ghost function Buckets(recs: seq<Pair>, hash: Hasher): (bk: seq<nat>)
    ensures |bk| == |recs| && forall i :: 0 <= i < |bk| ==> bk[i] < |recs|
  {
    seq(|recs|, i requires 0 <= i < |recs| => BucketOf(recs[i].key, hash, |recs|))
  }

  /** The processing order: every bucket once, by falling size, then by index. */
  ghost predicate BucketOrder(order: seq<BuildBucket>, bk: seq<nat>, n: nat) {
    && Ascending(order, BY_BUCKET_DESC)
    && multiset(order) == multiset(BucketList(bk, n))
  }

  ghost function BucketList(bk: seq<nat>, n: nat): seq<BuildBucket> {
    seq(n, b requires 0 <= b < n => BuildBucket(b, |Members(bk, b)|))
  }

  datatype Seeding = Seeding(seeds: seq<u64>, used: seq<bool>)

  ghost function Mark(used: seq<bool>, trial: seq<nat>): seq<bool> {
    seq(|used|, s requires 0 <= s < |used| => used[s] || s in trial)
  }

  /** The records of every bucket. */
  ghost function Groups(recs: seq<Pair>, hash: Hasher): (gs: seq<seq<nat>>)
    ensures |gs| == |recs| && GroupsInRange(recs, gs)
  {
    var bk := Buckets(recs, hash);
    var gs := seq(|recs|, b requires 0 <= b < |recs| => Members(bk, b));
    assert GroupsInRange(recs, gs) by {
      forall b | 0 <= b < |gs| ensures forall j :: 0 <= j < |gs[b]| ==> gs[b][j] < |recs| {
        MembersAreAscending(bk, b);
      }
    }
    gs
  }

  ghost predicate GroupsInRange(recs: seq<Pair>, gs: seq<seq<nat>>) {
    forall b, j :: 0 <= b < |gs| && 0 <= j < |gs[b]| ==> gs[b][j] < |recs|
  }

  /** The greedy assignment after k buckets, or None once a bucket could not be placed. */
  ghost function Greedy(recs: seq<Pair>, gs: seq<seq<nat>>, order: seq<BuildBucket>, sh: SlotHasher,
                        k: nat): Option<Seeding>
    requires GroupsInRange(recs, gs) && k <= |order|
  {
    if k == 0 then Some(Seeding(seq(|recs|, _ => 0), seq(|recs|, _ => false)))
    else
      var before := Greedy(recs, gs, order, sh, k - 1);
      if before.None? then None else Advance(recs, gs, order[k - 1].index, sh, before.value)
  }

  ghost function Advance(recs: seq<Pair>, gs: seq<seq<nat>>, b: nat, sh: SlotHasher, st: Seeding): Option<Seeding>
    requires GroupsInRange(recs, gs)
  {
    if b >= |gs| || b >= |st.seeds| then None
    else if gs[b] == [] then Some(Seeding(st.seeds[b := 0], st.used))
    else
      var seed := FirstSeed(recs, gs[b], sh, st.used);
      if seed.None? then None
      else Some(Seeding(st.seeds[b := seed.value], Mark(st.used, TrialSlots(recs, gs[b], seed.value, sh))))
  }

  /** The seed search succeeds for every bucket. */
  ghost predicate Placeable(recs: seq<Pair>, hash: Hasher, sh: SlotHasher) {
    exists order :: BucketOrder(order, Buckets(recs, hash), |recs|)
      && Greedy(recs, Groups(recs, hash), order, sh, |order|).Some?
  }

  // ---- The seeds, whatever finds them ----

  /** Bucket a comes before bucket b: it is larger, or of the same size with a lower index. */
  ghost predicate Precedes(bk: seq<nat>, a: nat, b: nat) {
    |Members(bk, a)| > |Members(bk, b)| || (|Members(bk, a)| == |Members(bk, b)| && a < b)
  }

  ghost predicate BucketsInRange(recs: seq<Pair>, bk: seq<nat>) {
    |bk| == |recs| && forall i :: 0 <= i < |bk| ==> bk[i] < |recs|
  }

  /** With this seed the records of bucket b have slots of their own, and none in the slot of a record of a bucket
      that comes before it. */
  ghost predicate SeedSuits(recs: seq<Pair>, bk: seq<nat>, sh: SlotHasher, seeds: seq<u64>, b: nat, seed: u64)
    requires BucketsInRange(recs, bk) && |seeds| == |recs|
  {
    && (forall i, j :: 0 <= i < j < |recs| && bk[i] == b && bk[j] == b ==>
          SlotFor(recs[i].key, seed, sh, |recs|) != SlotFor(recs[j].key, seed, sh, |recs|))
    && (forall i, j :: 0 <= i < |recs| && 0 <= j < |recs| && bk[i] == b && Precedes(bk, bk[j], b) ==>
          SlotFor(recs[i].key, seed, sh, |recs|) != SlotFor(recs[j].key, seeds[bk[j]], sh, |recs|))
  }

  /** An empty bucket has seed 0, any other the least seed that suits it. */
  ghost predicate LeastSeed(recs: seq<Pair>, bk: seq<nat>, sh: SlotHasher, seeds: seq<u64>, b: nat)
    requires BucketsInRange(recs, bk) && b < |seeds| == |recs|
  {
    if forall i :: 0 <= i < |bk| ==> bk[i] != b then seeds[b] == 0
    else
      && 1 <= seeds[b] < 1000000 && SeedSuits(recs, bk, sh, seeds, b, seeds[b])
      && forall q :: 1 <= q < seeds[b] ==> !SeedSuits(recs, bk, sh, seeds, b, q)
  }

  ghost predicate LeastSeeds(recs: seq<Pair>, bk: seq<nat>, sh: SlotHasher, seeds: seq<u64>) {
    && BucketsInRange(recs, bk) && |seeds| == |recs|
    && forall b :: 0 <= b < |recs| ==> LeastSeed(recs, bk, sh, seeds, b)
  }

  /** The processing order: the largest bucket first, buckets of one size by index. */
  lemma {:induction false} LargestFirst(order: seq<BuildBucket>, bk: seq<nat>, n: nat)
    requires BucketOrder(order, bk, n)
    ensures |order| == n
    ensures forall i, j :: 0 <= i < j < |order| ==>
      order[i].count >= order[j].count && (order[i].count == order[j].count ==> order[i].index < order[j].index)
    ensures forall i, j :: 0 <= i < j < |order| ==> Precedes(bk, order[i].index, order[j].index)
    ensures forall i :: 0 <= i < |order| ==> order[i].count == |Members(bk, order[i].index)| && order[i].index < n
  {
    hide Members;
    OrderCoversBuckets(order, bk, n);
    forall i, j | 0 <= i < j < |order|
      ensures order[i].count >= order[j].count && (order[i].count == order[j].count ==> order[i].index < order[j].index)
    {
      assert BY_BUCKET_DESC(order[i], order[j]);
      assert order[i].index != order[j].index;
    }
  }

  /** The buckets that come before the next one are those already done. */
  lemma {:induction false} DonePrecede(order: seq<BuildBucket>, bk: seq<nat>, n: nat, k: nat, a: nat)
    requires BucketOrder(order, bk, n) && k < |order| && a < n
    ensures Precedes(bk, a, order[k].index) <==> exists j :: 0 <= j < k && order[j].index == a
  {
    hide BucketOrder, Members;
    LargestFirst(order, bk, n);
    var j := PositionOf(order, bk, n, a);
    if j > k {
      assert Precedes(bk, order[k].index, order[j].index);
    }
    if j < k {
      assert Precedes(bk, order[j].index, order[k].index);
    }
    forall i | 0 <= i < |order| && i != j ensures order[i].index != order[j].index {
      assert Precedes(bk, order[if i < j then i else j].index, order[if i < j then j else i].index);
    }
  }

  lemma {:induction false} PositionOf(order: seq<BuildBucket>, bk: seq<nat>, n: nat, b: nat) returns (j: nat)
    requires BucketOrder(order, bk, n) && b < n
    ensures j < |order| && order[j].index == b
  {
    hide Members;
    OrderCoversBuckets(order, bk, n);
    j :| 0 <= j < |order| && order[j] == BuildBucket(b, |Members(bk, b)|);
  }

  /** What the greedy assignment holds after k buckets. */
  ghost predicate SeededTo(recs: seq<Pair>, bk: seq<nat>, sh: SlotHasher, order: seq<BuildBucket>, k: nat, st: Seeding)
  {
    && BucketsInRange(recs, bk) && |st.seeds| == |st.used| == |recs| == |order| && k <= |order|
    && (forall j :: 0 <= j < k ==> order[j].index < |recs| && LeastSeed(recs, bk, sh, st.seeds, order[j].index))
    && (forall s :: 0 <= s < |recs| ==> (st.used[s] <==> Taken(recs, bk, sh, order, k, st.seeds, s)))
  }

  /** Some record of the first k buckets has this slot. */
  ghost predicate Taken(recs: seq<Pair>, bk: seq<nat>, sh: SlotHasher, order: seq<BuildBucket>, k: nat,
                        seeds: seq<u64>, s: nat)
    requires BucketsInRange(recs, bk) && |seeds| == |recs| && k <= |order|
  {
    exists i, j :: 0 <= i < |recs| && 0 <= j < k && bk[i] == order[j].index
      && SlotFor(recs[i].key, seeds[bk[i]], sh, |recs|) == s
  }

  lemma {:induction false} SuitsSame(recs: seq<Pair>, bk: seq<nat>, sh: SlotHasher, a: seq<u64>, c: seq<u64>, b: nat,
                                     seed: u64)
    requires BucketsInRange(recs, bk) && |a| == |c| == |recs|
    requires forall d :: 0 <= d < |recs| && Precedes(bk, d, b) ==> a[d] == c[d]
    ensures SeedSuits(recs, bk, sh, a, b, seed) <==> SeedSuits(recs, bk, sh, c, b, seed)
  {
    hide Members;
  }

  /** The seed of a bucket depends on the buckets before it only. */
  lemma {:induction false} LeastSame(recs: seq<Pair>, bk: seq<nat>, sh: SlotHasher, a: seq<u64>, c: seq<u64>, b: nat)
    requires BucketsInRange(recs, bk) && b < |a| == |c| == |recs| && a[b] == c[b]
    requires forall d :: 0 <= d < |recs| && Precedes(bk, d, b) ==> a[d] == c[d]
    ensures LeastSeed(recs, bk, sh, a, b) <==> LeastSeed(recs, bk, sh, c, b)
  {
    hide SeedSuits, Precedes;
    forall q: u64 ensures SeedSuits(recs, bk, sh, a, b, q) <==> SeedSuits(recs, bk, sh, c, b, q) {
      SuitsSame(recs, bk, sh, a, c, b, q);
    }
  }

  ghost predicate SlotFree(recs: seq<Pair>, bk: seq<nat>, sh: SlotHasher, seeds: seq<u64>, b: nat, i: nat, seed: u64)
    requires BucketsInRange(recs, bk) && |seeds| == |recs| && i < |recs|
  {
    forall j :: 0 <= j < |recs| && Precedes(bk, bk[j], b) ==>
      SlotFor(recs[i].key, seed, sh, |recs|) != SlotFor(recs[j].key, seeds[bk[j]], sh, |recs|)
  }

  /** A slot is unused exactly when no bucket that comes before the next one has it. */
  lemma {:induction false} UnusedIffFree(recs: seq<Pair>, bk: seq<nat>, sh: SlotHasher, order: seq<BuildBucket>,
                                         k: nat, st: Seeding, i: nat, seed: u64)
    requires SeededTo(recs, bk, sh, order, k, st) && BucketOrder(order, bk, |recs|) && k < |order| && i < |recs|
    ensures !st.used[SlotFor(recs[i].key, seed, sh, |recs|)]
      <==> SlotFree(recs, bk, sh, st.seeds, order[k].index, i, seed)
  {
    hide LeastSeed, Precedes, BucketOrder, SlotFor;
    var s := SlotFor(recs[i].key, seed, sh, |recs|);
    forall j | 0 <= j < |recs|
      ensures Precedes(bk, bk[j], order[k].index) <==> exists x :: 0 <= x < k && order[x].index == bk[j]
    {
      DonePrecede(order, bk, |recs|, k, bk[j]);
    }
  }

  lemma {:induction false} FitsIffSuits(recs: seq<Pair>, bk: seq<nat>, sh: SlotHasher, order: seq<BuildBucket>,
                                        k: nat, st: Seeding, seed: u64)
    requires SeededTo(recs, bk, sh, order, k, st) && BucketOrder(order, bk, |recs|) && k < |order|
    ensures var ms := Members(bk, order[k].index);
      && (forall j :: 0 <= j < |ms| ==> ms[j] < |recs|)
      && (SeedFits(recs, ms, sh, st.used, seed) <==> SeedSuits(recs, bk, sh, st.seeds, order[k].index, seed))
  {
    hide SeededTo, BucketOrder, SlotFor, Members, Precedes;
    var b := order[k].index;
    var ms := Members(bk, b);
    SeededSizes(recs, bk, sh, order, k, st);
    MembersAreAscending(bk, b);
    var trial := TrialSlots(recs, ms, seed, sh);
    forall i | 0 <= i < |recs| && bk[i] == b
      ensures exists j :: 0 <= j < |ms| && ms[j] == i
      ensures !st.used[SlotFor(recs[i].key, seed, sh, |recs|)] <==> SlotFree(recs, bk, sh, st.seeds, b, i, seed)
    {
      EveryRecordIsAMember(bk, i);
      UnusedIffFree(recs, bk, sh, order, k, st, i, seed);
    }
    DistinctIffApart(recs, bk, sh, b, ms, seed);
    assert forall j :: 0 <= j < |ms| ==> trial[j] == SlotFor(recs[ms[j]].key, seed, sh, |recs|);
    if SeedFits(recs, ms, sh, st.used, seed) {
      forall i, j | 0 <= i < |recs| && 0 <= j < |recs| && bk[i] == b && Precedes(bk, bk[j], b)
        ensures SlotFor(recs[i].key, seed, sh, |recs|) != SlotFor(recs[j].key, st.seeds[bk[j]], sh, |recs|)
      {
        var x :| 0 <= x < |ms| && ms[x] == i;
        assert !st.used[trial[x]];
        assert SlotFree(recs, bk, sh, st.seeds, b, i, seed);
      }
    }
    if SeedSuits(recs, bk, sh, st.seeds, b, seed) {
      forall x | 0 <= x < |trial| ensures !st.used[trial[x]] {
        assert SlotFree(recs, bk, sh, st.seeds, b, ms[x], seed);
      }
    }
  }

  lemma {:induction false} SeededSizes(recs: seq<Pair>, bk: seq<nat>, sh: SlotHasher, order: seq<BuildBucket>,
                                       k: nat, st: Seeding)
    requires SeededTo(recs, bk, sh, order, k, st)
    ensures BucketsInRange(recs, bk) && |st.seeds| == |st.used| == |recs| == |order| && k <= |order|
  {
  }

  lemma {:induction false} DistinctIffApart(recs: seq<Pair>, bk: seq<nat>, sh: SlotHasher, b: nat, ms: seq<nat>,
                                            seed: u64)
    requires BucketsInRange(recs, bk) && ms == Members(bk, b)
    requires forall j :: 0 <= j < |ms| ==> ms[j] < |recs|
    ensures Distinct(TrialSlots(recs, ms, seed, sh)) <==>
      forall i, j :: 0 <= i < j < |recs| && bk[i] == b && bk[j] == b ==>
        SlotFor(recs[i].key, seed, sh, |recs|) != SlotFor(recs[j].key, seed, sh, |recs|)
  {
    hide SlotFor, Members;
    var trial := TrialSlots(recs, ms, seed, sh);
    MembersAreAscending(bk, b);
    if Distinct(trial) {
      forall i, j | 0 <= i < j < |recs| && bk[i] == b && bk[j] == b
        ensures SlotFor(recs[i].key, seed, sh, |recs|) != SlotFor(recs[j].key, seed, sh, |recs|)
      {
        EveryRecordIsAMember(bk, i);
        EveryRecordIsAMember(bk, j);
        var x :| 0 <= x < |ms| && ms[x] == i;
        var y :| 0 <= y < |ms| && ms[y] == j;
        assert trial[x] != trial[y];
      }
    }
  }

  /** The least seed that fits is the one that is found. */
  lemma {:induction false} FirstSeedIs(recs: seq<Pair>, ms: seq<nat>, sh: SlotHasher, used: seq<bool>, seed: u64)
    requires forall j :: 0 <= j < |ms| ==> ms[j] < |recs|
    requires IsFirstSeed(recs, ms, sh, used, seed)
    ensures FirstSeed(recs, ms, sh, used) == Some(seed)
  {
    hide SeedFits;
    var found := FirstSeed(recs, ms, sh, used).value;
    assert IsFirstSeed(recs, ms, sh, used, found);
    assert !(found < seed) && !(seed < found);
  }

  /** One more bucket is seeded as it has to be. */
  lemma {:induction false} SeededStep(recs: seq<Pair>, bk: seq<nat>, sh: SlotHasher, order: seq<BuildBucket>,
                                      gs: seq<seq<nat>>, k: nat, st: Seeding, next: Seeding)
    requires SeededTo(recs, bk, sh, order, k, st) && BucketOrder(order, bk, |recs|) && k < |order|
    requires GroupsInRange(recs, gs) && |gs| == |recs| && gs[..] == gs
    requires order[k].index < |gs| && gs[order[k].index] == Members(bk, order[k].index)
    requires Advance(recs, gs, order[k].index, sh, st) == Some(next)
    ensures SeededTo(recs, bk, sh, order, k + 1, next)
  {
    hide BucketOrder, Members, SeedSuits, SlotFor, Precedes, GroupsInRange;
    SeededSizes(recs, bk, sh, order, k, st);
    SeededSeeds(recs, bk, sh, order, gs, k, st, next);
    SeededSlots(recs, bk, sh, order, gs, k, st, next);
  }

  lemma {:induction false} SeededSeeds(recs: seq<Pair>, bk: seq<nat>, sh: SlotHasher, order: seq<BuildBucket>,
                                       gs: seq<seq<nat>>, k: nat, st: Seeding, next: Seeding)
    requires SeededTo(recs, bk, sh, order, k, st) && BucketOrder(order, bk, |recs|) && k < |order|
    requires GroupsInRange(recs, gs) && order[k].index < |gs| && gs[order[k].index] == Members(bk, order[k].index)
    requires Advance(recs, gs, order[k].index, sh, st) == Some(next)
    ensures |next.seeds| == |recs|
    ensures forall j :: 0 <= j <= k ==> order[j].index < |recs| && LeastSeed(recs, bk, sh, next.seeds, order[j].index)
  {
    hide BucketOrder, Members, SlotFor, Precedes, GroupsInRange, LeastSeed, Taken, FirstSeed;
    var b := order[k].index;
    forall j | 0 <= j < k ensures LeastSeed(recs, bk, sh, next.seeds, order[j].index) {
      LaterDoesNotPrecede(order, bk, |recs|, j, k);
      LeastSame(recs, bk, sh, st.seeds, next.seeds, order[j].index);
    }
    NewestSeed(recs, bk, sh, order, gs, k, st, next);
  }

  lemma {:induction false} LaterDoesNotPrecede(order: seq<BuildBucket>, bk: seq<nat>, n: nat, j: nat, k: nat)
    requires BucketOrder(order, bk, n) && j <= k < |order|
    ensures !Precedes(bk, order[k].index, order[j].index) && (j < k ==> order[j].index != order[k].index)
  {
    hide BucketOrder, Members;
    LargestFirst(order, bk, n);
    if j < k {
      assert Precedes(bk, order[j].index, order[k].index);
    }
  }

  lemma {:induction false} NewestSeed(recs: seq<Pair>, bk: seq<nat>, sh: SlotHasher, order: seq<BuildBucket>,
                                      gs: seq<seq<nat>>, k: nat, st: Seeding, next: Seeding)
    requires SeededTo(recs, bk, sh, order, k, st) && BucketOrder(order, bk, |recs|) && k < |order|
    requires GroupsInRange(recs, gs) && order[k].index < |gs| && gs[order[k].index] == Members(bk, order[k].index)
    requires Advance(recs, gs, order[k].index, sh, st) == Some(next)
    ensures order[k].index < |recs| == |next.seeds| && LeastSeed(recs, bk, sh, next.seeds, order[k].index)
  {
    hide BucketOrder, Members, SlotFor, Precedes, GroupsInRange, SeedSuits, Taken, SeedFits;
    var b := order[k].index;
    LaterDoesNotPrecede(order, bk, |recs|, k, k);
    SeededSizes(recs, bk, sh, order, k, st);
    NoMembersIff(bk, b);
    MembersAreAscending(bk, b);
    forall q: u64
      ensures SeedFits(recs, Members(bk, b), sh, st.used, q) <==> SeedSuits(recs, bk, sh, next.seeds, b, q)
    {
      FitsIffSuits(recs, bk, sh, order, k, st, q);
      SuitsSame(recs, bk, sh, st.seeds, next.seeds, b, q);
    }
  }

  lemma {:induction false} NoMembersIff(bk: seq<nat>, b: nat)
    ensures Members(bk, b) == [] <==> forall i :: 0 <= i < |bk| ==> bk[i] != b
  {
    hide Members;
    MembersAreAscending(bk, b);
    if Members(bk, b) != [] {
      assert bk[Members(bk, b)[0]] == b;
    }
    forall i | 0 <= i < |bk| && bk[i] == b ensures Members(bk, b) != [] {
      EveryRecordIsAMember(bk, i);
    }
  }

  lemma {:induction false} SeededSlots(recs: seq<Pair>, bk: seq<nat>, sh: SlotHasher, order: seq<BuildBucket>,
                                       gs: seq<seq<nat>>, k: nat, st: Seeding, next: Seeding)
    requires SeededTo(recs, bk, sh, order, k, st) && BucketOrder(order, bk, |recs|) && k < |order|
    requires GroupsInRange(recs, gs) && order[k].index < |gs| && gs[order[k].index] == Members(bk, order[k].index)
    requires Advance(recs, gs, order[k].index, sh, st) == Some(next)
    ensures BucketsInRange(recs, bk) && |next.seeds| == |next.used| == |recs|
    ensures forall s :: 0 <= s < |recs| ==> (next.used[s] <==> Taken(recs, bk, sh, order, k + 1, next.seeds, s))
  {
    hide BucketOrder, Members, SlotFor, Precedes, GroupsInRange, LeastSeed, FirstSeed, SeededTo;
    SeededSizes(recs, bk, sh, order, k, st);
    forall s | 0 <= s < |recs| ensures next.used[s] <==> Taken(recs, bk, sh, order, k + 1, next.seeds, s) {
      SlotStep(recs, bk, sh, order, gs, k, st, next, s);
    }
  }

  lemma {:induction false} SlotStep(recs: seq<Pair>, bk: seq<nat>, sh: SlotHasher, order: seq<BuildBucket>,
                                    gs: seq<seq<nat>>, k: nat, st: Seeding, next: Seeding, s: nat)
    requires SeededTo(recs, bk, sh, order, k, st) && BucketOrder(order, bk, |recs|) && k < |order| && s < |recs|
    requires GroupsInRange(recs, gs) && order[k].index < |gs| && gs[order[k].index] == Members(bk, order[k].index)
    requires Advance(recs, gs, order[k].index, sh, st) == Some(next)
    ensures |next.seeds| == |next.used| == |recs| && BucketsInRange(recs, bk)
    ensures next.used[s] <==> Taken(recs, bk, sh, order, k + 1, next.seeds, s)
  {
    hide BucketOrder, Members, SlotFor, GroupsInRange, Taken, TrialSlots, FirstSeed, LeastSeed;
    SeededSizes(recs, bk, sh, order, k, st);
    if next.used[s] {
      UsedIsTaken(recs, bk, sh, order, gs, k, st, next, s);
    }
    if Taken(recs, bk, sh, order, k + 1, next.seeds, s) {
      TakenIsUsed(recs, bk, sh, order, gs, k, st, next, s);
    }
  }

  lemma {:induction false} UsedIsTaken(recs: seq<Pair>, bk: seq<nat>, sh: SlotHasher, order: seq<BuildBucket>,
                                       gs: seq<seq<nat>>, k: nat, st: Seeding, next: Seeding, s: nat)
    requires SeededTo(recs, bk, sh, order, k, st) && BucketOrder(order, bk, |recs|) && k < |order| && s < |recs|
    requires GroupsInRange(recs, gs) && order[k].index < |gs| && gs[order[k].index] == Members(bk, order[k].index)
    requires Advance(recs, gs, order[k].index, sh, st) == Some(next)
    requires |next.seeds| == |next.used| == |recs| && BucketsInRange(recs, bk) && next.used[s]
    ensures Taken(recs, bk, sh, order, k + 1, next.seeds, s)
  {
    hide BucketOrder, Members, SlotFor, Precedes, GroupsInRange, LeastSeed, FirstSeed;
    var b, ms := order[k].index, Members(bk, order[k].index);
    MembersAreAscending(bk, b);
    if st.used[s] {
      var i, j :| 0 <= i < |recs| && 0 <= j < k && bk[i] == order[j].index
        && SlotFor(recs[i].key, st.seeds[bk[i]], sh, |recs|) == s;
      LaterDoesNotPrecede(order, bk, |recs|, j, k);
      assert SlotFor(recs[i].key, next.seeds[bk[i]], sh, |recs|) == s;
    } else {
      var trial := TrialSlots(recs, ms, next.seeds[b], sh);
      assert s in trial;
      var x :| 0 <= x < |trial| && trial[x] == s;
      assert bk[ms[x]] == order[k].index;
    }
  }

  lemma {:induction false} TakenIsUsed(recs: seq<Pair>, bk: seq<nat>, sh: SlotHasher, order: seq<BuildBucket>,
                                       gs: seq<seq<nat>>, k: nat, st: Seeding, next: Seeding, s: nat)
    requires SeededTo(recs, bk, sh, order, k, st) && BucketOrder(order, bk, |recs|) && k < |order| && s < |recs|
    requires GroupsInRange(recs, gs) && order[k].index < |gs| && gs[order[k].index] == Members(bk, order[k].index)
    requires Advance(recs, gs, order[k].index, sh, st) == Some(next)
    requires |next.seeds| == |next.used| == |recs| && BucketsInRange(recs, bk)
    requires Taken(recs, bk, sh, order, k + 1, next.seeds, s)
    ensures next.used[s]
  {
    hide BucketOrder, Members, SlotFor, Precedes, GroupsInRange, LeastSeed, FirstSeed;
    var b, ms := order[k].index, Members(bk, order[k].index);
    MembersAreAscending(bk, b);
    var i, j :| 0 <= i < |recs| && 0 <= j < k + 1 && bk[i] == order[j].index
      && SlotFor(recs[i].key, next.seeds[bk[i]], sh, |recs|) == s;
    if j < k {
      LaterDoesNotPrecede(order, bk, |recs|, j, k);
      assert SlotFor(recs[i].key, st.seeds[bk[i]], sh, |recs|) == s;
    } else {
      EveryRecordIsAMember(bk, i);
      var x :| 0 <= x < |ms| && ms[x] == i;
      assert TrialSlots(recs, ms, next.seeds[b], sh)[x] == s;
    }
  }

  /** Whatever the greedy assignment has seeded is seeded as it has to be. */
  lemma {:induction false} GreedyIsLeast(recs: seq<Pair>, hash: Hasher, sh: SlotHasher, order: seq<BuildBucket>, k: nat)
    requires BucketOrder(order, Buckets(recs, hash), |recs|) && k <= |order|
    requires Greedy(recs, Groups(recs, hash), order, sh, k).Some?
    ensures SeededTo(recs, Buckets(recs, hash), sh, order, k, Greedy(recs, Groups(recs, hash), order, sh, k).value)
  {
    hide BucketOrder, Members, SeededTo, Advance, Precedes;
    var bk, gs := Buckets(recs, hash), Groups(recs, hash);
    LargestFirst(order, bk, |recs|);
    if k == 0 {
      NothingSeeded(recs, bk, sh, order);
    } else {
      GreedyIsLeast(recs, hash, sh, order, k - 1);
      SeededStep(recs, bk, sh, order, gs, k - 1, Greedy(recs, gs, order, sh, k - 1).value,
                 Greedy(recs, gs, order, sh, k).value);
    }
  }

  lemma {:induction false} NothingSeeded(recs: seq<Pair>, bk: seq<nat>, sh: SlotHasher, order: seq<BuildBucket>)
    requires BucketsInRange(recs, bk) && |order| == |recs|
    ensures SeededTo(recs, bk, sh, order, 0, Seeding(seq(|recs|, _ => 0), seq(|recs|, _ => false)))
  {
  }

  /** When a seed for every bucket exists, the greedy assignment finds it. */
  lemma {:induction false} LeastIsGreedy(recs: seq<Pair>, hash: Hasher, sh: SlotHasher, order: seq<BuildBucket>,
                                         all: seq<u64>, k: nat)
    requires BucketOrder(order, Buckets(recs, hash), |recs|) && k <= |order|
    requires LeastSeeds(recs, Buckets(recs, hash), sh, all)
    ensures var g := Greedy(recs, Groups(recs, hash), order, sh, k);
      && g.Some? && |g.value.seeds| == |recs|
      && forall j :: 0 <= j < k ==> order[j].index < |recs| && g.value.seeds[order[j].index] == all[order[j].index]
  {
    hide BucketOrder, Members, SeededTo, Precedes, LeastSeed, FirstSeed, Mark, Buckets, TrialSlots, BucketsInRange;
    var bk, gs := Buckets(recs, hash), Groups(recs, hash);
    LargestFirst(order, bk, |recs|);
    if k > 0 {
      LeastIsGreedy(recs, hash, sh, order, all, k - 1);
      GreedyIsLeast(recs, hash, sh, order, k - 1);
      var st, b := Greedy(recs, gs, order, sh, k - 1).value, order[k - 1].index;
      if gs[b] != [] {
        SeedIsFirst(recs, bk, sh, order, k - 1, st, all);
        FirstSeedIs(recs, gs[b], sh, st.used, all[b]);
      } else {
        EmptyHasNoSeed(recs, bk, sh, all, b);
      }
      forall j | 0 <= j < k - 1 ensures order[j].index != b {
        LaterDoesNotPrecede(order, bk, |recs|, j, k - 1);
      }
    }
  }

  lemma {:induction false} EmptyHasNoSeed(recs: seq<Pair>, bk: seq<nat>, sh: SlotHasher, all: seq<u64>, b: nat)
    requires LeastSeeds(recs, bk, sh, all) && b < |recs| && Members(bk, b) == []
    ensures all[b] == 0
  {
    hide Members, SeedSuits;
    NoMembersIff(bk, b);
    assert LeastSeed(recs, bk, sh, all, b);
  }

  lemma {:induction false} SeedIsFirst(recs: seq<Pair>, bk: seq<nat>, sh: SlotHasher, order: seq<BuildBucket>,
                                       k: nat, st: Seeding, all: seq<u64>)
    requires SeededTo(recs, bk, sh, order, k, st) && BucketOrder(order, bk, |recs|) && k < |order|
    requires LeastSeeds(recs, bk, sh, all) && order[k].index < |recs| && Members(bk, order[k].index) != []
    requires forall j :: 0 <= j < k ==> order[j].index < |recs| && st.seeds[order[j].index] == all[order[j].index]
    ensures forall j :: 0 <= j < |Members(bk, order[k].index)| ==> Members(bk, order[k].index)[j] < |recs|
    ensures IsFirstSeed(recs, Members(bk, order[k].index), sh, st.used, all[order[k].index])
  {
    hide BucketOrder, Members, SeededTo, Precedes, SeedSuits, SeedFits;
    var b := order[k].index;
    SeededSizes(recs, bk, sh, order, k, st);
    NoMembersIff(bk, b);
    assert LeastSeed(recs, bk, sh, all, b);
    forall d | 0 <= d < |recs| && Precedes(bk, d, b) ensures st.seeds[d] == all[d] {
      DonePrecede(order, bk, |recs|, k, d);
    }
    forall q: u64
      ensures forall j :: 0 <= j < |Members(bk, b)| ==> Members(bk, b)[j] < |recs|
      ensures SeedFits(recs, Members(bk, b), sh, st.used, q) <==> SeedSuits(recs, bk, sh, all, b, q)
    {
      FitsIffSuits(recs, bk, sh, order, k, st, q);
      SuitsSame(recs, bk, sh, st.seeds, all, b, q);
    }
  }

  /** The search succeeds exactly when every bucket has a least seed after the larger ones, and finds those. */
  lemma {:induction false} GreedyIffLeast(recs: seq<Pair>, hash: Hasher, sh: SlotHasher, order: seq<BuildBucket>)
    requires BucketOrder(order, Buckets(recs, hash), |recs|)
    ensures var g := Greedy(recs, Groups(recs, hash), order, sh, |order|);
      && (g.Some? <==> exists all :: LeastSeeds(recs, Buckets(recs, hash), sh, all))
      && (g.Some? ==> LeastSeeds(recs, Buckets(recs, hash), sh, g.value.seeds))
  {
    hide BucketOrder, Members, Greedy, LeastSeed, Taken;
    var bk, gs := Buckets(recs, hash), Groups(recs, hash);
    if Greedy(recs, gs, order, sh, |order|).Some? {
      GreedyIsLeast(recs, hash, sh, order, |order|);
      var st := Greedy(recs, gs, order, sh, |order|).value;
      forall b | 0 <= b < |recs| ensures LeastSeed(recs, bk, sh, st.seeds, b) {
        var j := PositionOf(order, bk, |recs|, b);
      }
      assert LeastSeeds(recs, bk, sh, st.seeds);
    }
    if all :| LeastSeeds(recs, bk, sh, all) {
      LeastIsGreedy(recs, hash, sh, order, all, |order|);
    }
  }

  // ---- Placement ----

  const EMPTY_SLOT := MphSlot(false, Hash128(0, 0), Loc(0, 0, 0, 0))

  function SlotEntry(p: Pair, loc: Loc, hash: Hasher): MphSlot {
    MphSlot(true, hash(p.key), loc)
  }

  /** The slot of record i under the seed of its bucket. */
  ghost function SlotAt(recs: seq<Pair>, bk: seq<nat>, seeds: seq<u64>, sh: SlotHasher, i: nat): (s: nat)
    requires i < |recs| == |bk| == |seeds| && bk[i] < |recs|
    ensures s < |recs|
  {
    SlotFor(recs[i].key, seeds[bk[i]], sh, |recs|)
  }

  /** Every record of a finished bucket owns a slot of its own. */
  ghost predicate Placed(recs: seq<Pair>, bk: seq<nat>, hash: Hasher, sh: SlotHasher, locs: seq<Loc>,
                         done: set<nat>, seeds: seq<u64>, used: seq<bool>, slots: seq<MphSlot>) {
    && |recs| == |bk| == |locs| == |seeds| == |used| == |slots|
    && (forall i :: 0 <= i < |bk| ==> bk[i] < |recs|)
    && (forall i :: 0 <= i < |recs| && bk[i] in done ==> AtHome(recs, bk, hash, sh, locs, seeds, used, slots, i))
    && (forall i, j :: 0 <= i < j < |recs| && bk[i] in done && bk[j] in done ==>
          SlotAt(recs, bk, seeds, sh, i) != SlotAt(recs, bk, seeds, sh, j))
  }

  ghost predicate AtHome(recs: seq<Pair>, bk: seq<nat>, hash: Hasher, sh: SlotHasher, locs: seq<Loc>,
                         seeds: seq<u64>, used: seq<bool>, slots: seq<MphSlot>, i: nat)
    requires i < |recs| == |bk| == |locs| == |seeds| == |used| == |slots| && bk[i] < |recs|
  {
    var s := SlotAt(recs, bk, seeds, sh, i);
    seeds[bk[i]] != 0 && used[s] && slots[s] == SlotEntry(recs[i], locs[i], hash)
  }

  ghost function Fill(slots: seq<MphSlot>, trial: seq<nat>, entries: seq<MphSlot>): (r: seq<MphSlot>)
    requires |trial| == |entries|
    ensures |r| == |slots|
  {
    if trial == [] then slots
    else
      var n := |trial| - 1;
      var r0 := Fill(slots, trial[..n], entries[..n]);
      if trial[n] < |r0| then r0[trial[n] := entries[n]] else r0
  }

  lemma {:induction false} FillAt(slots: seq<MphSlot>, trial: seq<nat>, entries: seq<MphSlot>, s: nat)
    requires |trial| == |entries| && Distinct(trial) && s < |slots|
    ensures s !in trial ==> Fill(slots, trial, entries)[s] == slots[s]
    ensures forall j :: 0 <= j < |trial| && trial[j] == s ==> Fill(slots, trial, entries)[s] == entries[j]
  {
    if trial != [] {
      var n := |trial| - 1;
      FillAt(slots, trial[..n], entries[..n], s);
      assert trial == trial[..n] + [trial[n]];
    }
  }

  ghost function Entries(recs: seq<Pair>, locs: seq<Loc>, hash: Hasher, ms: seq<nat>): (es: seq<MphSlot>)
    requires |recs| == |locs| && forall j :: 0 <= j < |ms| ==> ms[j] < |recs|
    ensures |es| == |ms|
  {
    seq(|ms|, j requires 0 <= j < |ms| => SlotEntry(recs[ms[j]], locs[ms[j]], hash))
  }

  method PlaceBucket(recs: seq<Pair>, locs: seq<Loc>, hash: Hasher, ms: seq<nat>, trial: seq<nat>,
                     used: array<bool>, slots: array<MphSlot>)
    requires |recs| == |locs| == used.Length == slots.Length && |trial| == |ms|
    requires forall j :: 0 <= j < |ms| ==> ms[j] < |recs| && trial[j] < |recs|
    modifies used, slots
    ensures used[..] == Mark(old(used[..]), trial)
    ensures slots[..] == Fill(old(slots[..]), trial, Entries(recs, locs, hash, ms))
  {
    ghost var es := Entries(recs, locs, hash, ms);
    for j := 0 to |ms|
      invariant used[..] == Mark(old(used[..]), trial[..j])
      invariant slots[..] == Fill(old(slots[..]), trial[..j], es[..j])
    {
      assert trial[..j + 1] == trial[..j] + [trial[j]];
      used[trial[j]] := true;
      slots[trial[j]] := SlotEntry(recs[ms[j]], locs[ms[j]], hash);
      assert trial[..j + 1][..j] == trial[..j] && es[..j + 1][..j] == es[..j];
    }
    assert trial[..|ms|] == trial && es[..|ms|] == es;
  }

  /** Placing one more bucket with a fitting seed keeps all owners apart. */
  lemma {:induction false} PlacedStep(recs: seq<Pair>, bk: seq<nat>, hash: Hasher, sh: SlotHasher, locs: seq<Loc>,
                                      done: set<nat>, seeds: seq<u64>, used: seq<bool>, slots: seq<MphSlot>, b: nat,
                                      seed: u64)
    requires Placed(recs, bk, hash, sh, locs, done, seeds, used, slots) && b < |recs| && b !in done && seed != 0
    requires forall j :: 0 <= j < |Members(bk, b)| ==> Members(bk, b)[j] < |recs|
    requires Fits(TrialSlots(recs, Members(bk, b), seed, sh), used)
    ensures
      var ms := Members(bk, b);
      var trial := TrialSlots(recs, ms, seed, sh);
      Placed(recs, bk, hash, sh, locs, done + {b}, seeds[b := seed], Mark(used, trial),
        Fill(slots, trial, Entries(recs, locs, hash, ms)))
  {
    var ms := Members(bk, b);
    var trial := TrialSlots(recs, ms, seed, sh);
    var seeds' := seeds[b := seed];
    var used', slots' := Mark(used, trial), Fill(slots, trial, Entries(recs, locs, hash, ms));
    forall i | 0 <= i < |recs| && bk[i] in done + {b}
      ensures AtHome(recs, bk, hash, sh, locs, seeds', used', slots', i)
      ensures bk[i] == b <==> SlotAt(recs, bk, seeds', sh, i) in trial
    {
      HomeStep(recs, bk, hash, sh, locs, done, seeds, used, slots, b, seed, i);
    }
    forall i, j | 0 <= i < j < |recs| && bk[i] in done + {b} && bk[j] in done + {b}
      ensures SlotAt(recs, bk, seeds', sh, i) != SlotAt(recs, bk, seeds', sh, j)
    {
      if bk[i] == b && bk[j] == b {
        EveryRecordIsAMember(bk, i);
        EveryRecordIsAMember(bk, j);
        var a :| 0 <= a < |ms| && ms[a] == i;
        var c :| 0 <= c < |ms| && ms[c] == j;
        assert trial[a] != trial[c];
      }
    }
  }

  lemma {:induction false} HomeStep(recs: seq<Pair>, bk: seq<nat>, hash: Hasher, sh: SlotHasher, locs: seq<Loc>,
                                    done: set<nat>, seeds: seq<u64>, used: seq<bool>, slots: seq<MphSlot>, b: nat,
                                    seed: u64, i: nat)
    requires Placed(recs, bk, hash, sh, locs, done, seeds, used, slots) && b < |recs| && b !in done && seed != 0
    requires forall j :: 0 <= j < |Members(bk, b)| ==> Members(bk, b)[j] < |recs|
    requires Fits(TrialSlots(recs, Members(bk, b), seed, sh), used)
    requires i < |recs| && bk[i] in done + {b}
    ensures
      var ms := Members(bk, b);
      var trial := TrialSlots(recs, ms, seed, sh);
      && AtHome(recs, bk, hash, sh, locs, seeds[b := seed], Mark(used, trial),
        Fill(slots, trial, Entries(recs, locs, hash, ms)), i)
      && (bk[i] == b <==> SlotAt(recs, bk, seeds[b := seed], sh, i) in trial)
  {
    var ms := Members(bk, b);
    var trial := TrialSlots(recs, ms, seed, sh);
    var s := SlotAt(recs, bk, seeds[b := seed], sh, i);
    FillAt(slots, trial, Entries(recs, locs, hash, ms), s);
    if bk[i] == b {
      EveryRecordIsAMember(bk, i);
      var j :| 0 <= j < |ms| && ms[j] == i;
      assert trial[j] == s;
    } else {
      assert AtHome(recs, bk, hash, sh, locs, seeds, used, slots, i);
    }
  }

  // ---- The seed search of freeze_mph ----

  lemma {:induction false} GreedyStaysStuck(recs: seq<Pair>, gs: seq<seq<nat>>, order: seq<BuildBucket>,
                                            sh: SlotHasher, k: nat, m: nat)
    requires GroupsInRange(recs, gs) && k <= m <= |order| && Greedy(recs, gs, order, sh, k).None?
    ensures Greedy(recs, gs, order, sh, m).None?
  {
    if k < m {
      GreedyStaysStuck(recs, gs, order, sh, k, m - 1);
    }
  }

  lemma {:induction false} ByBucketDescIsTotal()
    ensures TotalPreorder(BY_BUCKET_DESC) && Antisymmetric(BY_BUCKET_DESC)
  {
  }

  /** Every bucket below n occurs, none twice, each with its size. */
  ghost predicate OrderIsComplete(order: seq<BuildBucket>, bk: seq<nat>, n: nat) {
    && (forall k :: 0 <= k < |order| ==> order[k].index < n && order[k].count == |Members(bk, order[k].index)|)
    && (forall i, j :: 0 <= i < j < |order| ==> order[i].index != order[j].index)
    && (forall b :: 0 <= b < n ==> BuildBucket(b, |Members(bk, b)|) in order)
  }

  lemma {:induction false} OrderCoversBuckets(order: seq<BuildBucket>, bk: seq<nat>, n: nat)
    requires multiset(order) == multiset(BucketList(bk, n))
    ensures |order| == n && OrderIsComplete(order, bk, n)
  {
    var list := BucketList(bk, n);
    assert |multiset(order)| == |order| && |multiset(list)| == |list|;
    SameElements(order, list);
    assert Distinct(list);
    PermutationKeepsDistinct(list, order);
    forall k | 0 <= k < n
      ensures order[k].index < n && order[k] == BuildBucket(order[k].index, |Members(bk, order[k].index)|)
    {
      assert order[k] in list;
    }
    forall b | 0 <= b < n ensures BuildBucket(b, |Members(bk, b)|) in order {
      assert list[b] in order;
    }
  }

  method ComputeBuckets(recs: seq<Pair>, hash: Hasher) returns (bk: seq<nat>)
    ensures bk == Buckets(recs, hash)
  {
    bk := [];
    for i := 0 to |recs|
      invariant bk == Buckets(recs, hash)[..i]
    {
      bk := bk + [BucketOf(recs[i].key, hash, |recs|)];
    }
  }

  method ListBuckets(bk: seq<nat>, sizes: seq<nat>) returns (list: seq<BuildBucket>)
    requires forall b :: 0 <= b < |sizes| ==> sizes[b] == |Members(bk, b)|
    ensures list == BucketList(bk, |sizes|)
  {
    list := [];
    for b := 0 to |sizes|
      invariant list == BucketList(bk, |sizes|)[..b]
    {
      list := list + [BuildBucket(b, sizes[b])];
    }
  }

  /** Either every bucket gets the least seed that fits what the larger buckets left over, and
      every record a slot of its own, or no greedy assignment exists. */
  method PlaceAll(recs: seq<Pair>, locs: seq<Loc>, hash: Hasher, sh: SlotHasher)
    returns (ok: bool, seeds: seq<u64>, slots: seq<MphSlot>, ghost used: seq<bool>)
    requires |recs| == |locs|
    ensures ok <==> Placeable(recs, hash, sh)
    ensures ok <==> exists all :: LeastSeeds(recs, Buckets(recs, hash), sh, all)
    ensures ok ==> LeastSeeds(recs, Buckets(recs, hash), sh, seeds)
    ensures ok ==> Placed(recs, Buckets(recs, hash), hash, sh, locs, Below(|recs|), seeds, used, slots)
  {
    hide Placed, LeastSeeds, Greedy, Members, OrderIsComplete;
    var n := |recs|;
    var bk := ComputeBuckets(recs, hash);
    var sizes, offsets, items := GroupByBucket(bk, n);
    var list := ListBuckets(bk, sizes);
    ByBucketDescIsTotal();
    var order := Qsort(list, BY_BUCKET_DESC);
    OrderCoversBuckets(order, bk, n);
    SegmentsAreGroups(recs, hash, bk, offsets, items);
    ok, seeds, slots, used := PlaceInOrder(recs, locs, hash, sh, order, offsets, items, bk, Groups(recs, hash));
    OnlyOneOrder(recs, hash, sh, order);
    GreedyIffLeast(recs, hash, sh, order);
  }

  ghost predicate Segment(gs: seq<seq<nat>>, offsets: seq<nat>, items: seq<nat>, b: nat) {
    b < |gs| == |offsets| && offsets[b] + |gs[b]| <= |items| && items[offsets[b]..offsets[b] + |gs[b]|] == gs[b]
  }

  lemma {:induction false} SegmentsAreGroups(recs: seq<Pair>, hash: Hasher, bk: seq<nat>, offsets: seq<nat>,
                                             items: seq<nat>)
    requires bk == Buckets(recs, hash) && |offsets| == |recs|
    requires forall b :: 0 <= b < |recs| ==> offsets[b] == Offset(bk, b) && SegmentIsBucket(bk, b, items)
    ensures forall b :: 0 <= b < |recs| ==> Segment(Groups(recs, hash), offsets, items, b)
  {
  }

  /** The first k buckets of the order. */
  ghost predicate DoneTo(order: seq<BuildBucket>, n: nat, done: set<nat>, k: nat) {
    |order| == n && done <= Below(n) && forall j :: 0 <= j < n ==> (order[j].index in done <==> j < k)
  }

  lemma {:induction false} NoBucketDone(order: seq<BuildBucket>, bk: seq<nat>, n: nat)
    requires |order| == n && OrderIsComplete(order, bk, n)
    ensures DoneTo(order, n, {}, 0)
  {
  }

  lemma {:induction false} NextBucket(order: seq<BuildBucket>, bk: seq<nat>, n: nat, done: set<nat>, k: nat)
    requires k < n && DoneTo(order, n, done, k) && OrderIsComplete(order, bk, n)
    ensures order[k].index < n && order[k].index !in done && order[k].count == |Members(bk, order[k].index)|
    ensures DoneTo(order, n, done + {order[k].index}, k + 1)
  {
    hide Members;
  }

  lemma {:induction false} GreedyStarts(recs: seq<Pair>, gs: seq<seq<nat>>, order: seq<BuildBucket>, sh: SlotHasher)
    requires GroupsInRange(recs, gs)
    ensures Greedy(recs, gs, order, sh, 0) == Some(Seeding(seq(|recs|, _ => 0), seq(|recs|, _ => false)))
  {
  }

  lemma {:induction false} GreedySteps(recs: seq<Pair>, gs: seq<seq<nat>>, order: seq<BuildBucket>, sh: SlotHasher,
                                       k: nat)
    requires GroupsInRange(recs, gs) && k < |order| && Greedy(recs, gs, order, sh, k).Some?
    ensures Greedy(recs, gs, order, sh, k + 1) == Advance(recs, gs, order[k].index, sh,
      Greedy(recs, gs, order, sh, k).value)
  {
  }

  lemma {:induction false} NothingPlaced(recs: seq<Pair>, bk: seq<nat>, hash: Hasher, sh: SlotHasher, locs: seq<Loc>,
                                         seeds: seq<u64>, used: seq<bool>, slots: seq<MphSlot>)
    requires |recs| == |bk| == |locs| == |seeds| == |used| == |slots| && forall i :: 0 <= i < |bk| ==> bk[i] < |recs|
    ensures Placed(recs, bk, hash, sh, locs, {}, seeds, used, slots)
  {
  }

  method PlaceInOrder(recs: seq<Pair>, locs: seq<Loc>, hash: Hasher, sh: SlotHasher,
                      order: seq<BuildBucket>, offsets: seq<nat>, items: seq<nat>, ghost bk: seq<nat>,
                      ghost gs: seq<seq<nat>>)
    returns (ok: bool, seeds: seq<u64>, slots: seq<MphSlot>, ghost used: seq<bool>)
    requires |recs| == |locs| == |bk| == |gs| == |order| && forall i :: 0 <= i < |bk| ==> bk[i] < |recs|
    requires GroupsInRange(recs, gs) && forall b :: 0 <= b < |gs| ==> gs[b] == Members(bk, b)
    requires forall b :: 0 <= b < |recs| ==> Segment(gs, offsets, items, b)
    requires OrderIsComplete(order, bk, |recs|)
    ensures ok <==> Greedy(recs, gs, order, sh, |order|).Some?
    ensures ok ==> Greedy(recs, gs, order, sh, |order|) == Some(Seeding(seeds, used))
    ensures ok ==> Placed(recs, bk, hash, sh, locs, Below(|recs|), seeds, used, slots)
  {
    hide Placed, Members, Greedy, Advance, OrderIsComplete, GroupsInRange, Below;
    var n := |recs|;
    var seedOf, usedSlot, slot := new u64[n](_ => 0), new bool[n](_ => false), new MphSlot[n](_ => EMPTY_SLOT);
    assert seedOf[..] == seq(n, _ => 0) && usedSlot[..] == seq(n, _ => false);
    NothingPlaced(recs, bk, hash, sh, locs, seedOf[..], usedSlot[..], slot[..]);
    ghost var done: set<nat> := {};
    ok := true;
    GreedyStarts(recs, gs, order, sh);
    NoBucketDone(order, bk, n);
    for k := 0 to n
      invariant ok && Greedy(recs, gs, order, sh, k) == Some(Seeding(seedOf[..], usedSlot[..]))
      invariant Placed(recs, bk, hash, sh, locs, done, seedOf[..], usedSlot[..], slot[..])
      invariant DoneTo(order, n, done, k)
    {
      NextBucket(order, bk, n, done, k);
      GreedySteps(recs, gs, order, sh, k);
      var b := order[k].index;
      assert Segment(gs, offsets, items, b);
      ok := PlaceNext(recs, locs, hash, sh, b, items[offsets[b]..offsets[b] + order[k].count],
                      seedOf, usedSlot, slot, bk, gs, done);
      if !ok {
        GreedyStaysStuck(recs, gs, order, sh, k + 1, n);
        return false, [], [], [];
      }
      done := done + {b};
    }
    AllBucketsDone(order, bk, n, done);
    return true, seedOf[..], slot[..], usedSlot[..];
  }

  lemma {:induction false} AllBucketsDone(order: seq<BuildBucket>, bk: seq<nat>, n: nat, done: set<nat>)
    requires OrderIsComplete(order, bk, n) && done <= Below(n)
    requires forall j :: 0 <= j < |order| ==> order[j].index in done
    ensures done == Below(n)
  {
    forall b: nat | b < n ensures b in done {
      var j :| 0 <= j < |order| && order[j] == BuildBucket(b, |Members(bk, b)|);
    }
  }

  /** One bucket of the search: its members in items, the seed loop, the placement. */
  method PlaceNext(recs: seq<Pair>, locs: seq<Loc>, hash: Hasher, sh: SlotHasher, b: nat, ms: seq<nat>,
                   seedOf: array<u64>, usedSlot: array<bool>, slot: array<MphSlot>,
                   ghost bk: seq<nat>, ghost gs: seq<seq<nat>>, ghost done: set<nat>)
    returns (placed: bool)
    requires Placed(recs, bk, hash, sh, locs, done, seedOf[..], usedSlot[..], slot[..])
    requires GroupsInRange(recs, gs) && b < |recs| == |gs| && b !in done && ms == Members(bk, b) == gs[b]
    modifies seedOf, usedSlot, slot
    ensures
      var next := Advance(recs, gs, b, sh, Seeding(old(seedOf[..]), old(usedSlot[..])));
      && (placed <==> next.Some?)
      && (placed ==> next == Some(Seeding(seedOf[..], usedSlot[..])))
    ensures placed ==> Placed(recs, bk, hash, sh, locs, done + {b}, seedOf[..], usedSlot[..], slot[..])
  {
    MembersAreAscending(bk, b);
    if |ms| == 0 {
      EmptyBucketStep(recs, bk, hash, sh, locs, done, seedOf[..], usedSlot[..], slot[..], b);
      seedOf[b] := 0;
      return true;
    }
    var seed, trial := FindSeed(recs, ms, sh, usedSlot);
    if seed.None? {
      return false;
    }
    PlacedStep(recs, bk, hash, sh, locs, done, seedOf[..], usedSlot[..], slot[..], b, seed.value);
    seedOf[b] := seed.value;
    PlaceBucket(recs, locs, hash, ms, trial, usedSlot, slot);
    return true;
  }

  lemma {:induction false} OnlyOneOrder(recs: seq<Pair>, hash: Hasher, sh: SlotHasher, order: seq<BuildBucket>)
    requires BucketOrder(order, Buckets(recs, hash), |recs|)
    ensures Placeable(recs, hash, sh) <==> Greedy(recs, Groups(recs, hash), order, sh, |order|).Some?
  {
    ByBucketDescIsTotal();
    forall o | BucketOrder(o, Buckets(recs, hash), |recs|) ensures o == order {
      SortedPermutationIsUnique(o, order, BY_BUCKET_DESC);
    }
  }

  lemma {:induction false} EmptyBucketStep(recs: seq<Pair>, bk: seq<nat>, hash: Hasher, sh: SlotHasher, locs: seq<Loc>,
                                           done: set<nat>, seeds: seq<u64>, used: seq<bool>, slots: seq<MphSlot>,
                                           b: nat)
    requires Placed(recs, bk, hash, sh, locs, done, seeds, used, slots) && b < |recs| && Members(bk, b) == []
    ensures Placed(recs, bk, hash, sh, locs, done + {b}, seeds[b := 0], used, slots)
  {
    forall i | 0 <= i < |bk| ensures bk[i] != b {
      EveryRecordIsAMember(bk, i);
    }
    forall i | 0 <= i < |recs| && bk[i] in done + {b}
      ensures AtHome(recs, bk, hash, sh, locs, seeds[b := 0], used, slots, i)
    {
      assert AtHome(recs, bk, hash, sh, locs, seeds, used, slots, i);
    }
  }

  // ---- The index file ----

  const MPH_HEADER := 40
  const MPH_MAGIC: u64 := 0x3148504d454346
  const MPH_HEADER_WIDTHS: seq<nat> := [8, 8, 8, 8, 8]

  datatype MphHeader = MphHeader(magic: u64, bucketCount: u64, slotCount: u64, bucketsOff: u64, slotsOff: u64)
  datatype MphIndex = MphIndex(seeds: seq<u64>, slots: seq<MphSlot>)

  function MphHeaderOf(index: Bytes): MphHeader
    requires |index| >= MPH_HEADER
  {
    Pow256Values();
    var v := Unpack(index[..MPH_HEADER], MPH_HEADER_WIDTHS);
    assert forall i :: 0 <= i < 5 ==> v[i] < Pow256(MPH_HEADER_WIDTHS[i]);
    MphHeader(v[0], v[1], v[2], v[3], v[4])
  }

  predicate MphSectionsFit(h: MphHeader, size: nat) {
    && h.bucketsOff == MPH_HEADER
    && h.slotsOff == h.bucketsOff + h.bucketCount * MPH_BUCKET
    && h.slotsOff + h.slotCount * MPH_SLOT == size
  }

  predicate MphFileFits(index: Bytes) {
    && |index| >= MPH_HEADER && MphHeaderOf(index).magic == MPH_MAGIC
    && MphSectionsFit(MphHeaderOf(index), |index|)
  }

  predicate MphLaidOut(index: Bytes) {
    && |index| >= MPH_HEADER
    && MphHeaderOf(index).bucketsOff <= |index| && MphHeaderOf(index).slotsOff <= |index|
  }

  /** What can be read of the two arrays that the header describes. */
  function MphSections(index: Bytes): (x: MphIndex)
    requires MphLaidOut(index)
    ensures |x.seeds| <= MphHeaderOf(index).bucketCount && |x.slots| <= MphHeaderOf(index).slotCount
  {
    var h := MphHeaderOf(index);
    MphIndex(ReadTable(index, h.bucketsOff, h.bucketCount, MPH_BUCKET, DecBucket),
             ReadTable(index, h.slotsOff, h.slotCount, MPH_SLOT, DecMphSlot))
  }

  /** In a file whose sections fit, the arrays are read whole. */
  lemma {:induction false} MphSectionsWhole(index: Bytes)
    requires MphFileFits(index)
    ensures MphLaidOut(index)
    ensures var h := MphHeaderOf(index);
      MphSections(index) == MphIndex(DecodeTable(index[h.bucketsOff..h.slotsOff], MPH_BUCKET, DecBucket),
                                     DecodeTable(index[h.slotsOff..], MPH_SLOT, DecMphSlot))
    ensures |MphSections(index).seeds| == MphHeaderOf(index).bucketCount
    ensures |MphSections(index).slots| == MphHeaderOf(index).slotCount
  {
    hide DecodeTable, ReadTable, MphHeaderOf;
    var h := MphHeaderOf(index);
    ReadWhole(index, h.bucketsOff, h.bucketCount, MPH_BUCKET, DecBucket);
    ReadWhole(index, h.slotsOff, h.slotCount, MPH_SLOT, DecMphSlot);
    assert index[h.slotsOff..h.slotsOff + h.slotCount * MPH_SLOT] == index[h.slotsOff..];
  }

  function MphHeaderFor(x: MphIndex): Bytes {
    Pack([MPH_MAGIC, |x.seeds|, |x.slots|, MPH_HEADER, MPH_HEADER + |x.seeds| * MPH_BUCKET], MPH_HEADER_WIDTHS)
  }

  function EncodeMph(x: MphIndex): Bytes {
    MphHeaderFor(x) + EncodeTable(x.seeds, EncBucket) + EncodeTable(x.slots, EncMphSlot)
  }

  lemma {:induction false} MphHeaderWidths()
    ensures Sum(MPH_HEADER_WIDTHS) == MPH_HEADER
  {
    SumOfEights(5);
    assert MPH_HEADER_WIDTHS == seq(5, _ => 8);
  }

  lemma {:induction false} MphHeaderRoundTrip(x: MphIndex, rest: Bytes)
    requires |x.seeds| <= U32_MAX && |x.slots| <= U32_MAX
    ensures |MphHeaderFor(x)| == MPH_HEADER
    ensures MphHeaderOf(MphHeaderFor(x) + rest)
      == MphHeader(MPH_MAGIC, |x.seeds|, |x.slots|, MPH_HEADER, MPH_HEADER + |x.seeds| * MPH_BUCKET)
  {
    hide Pack, Unpack, Sum;
    var fields: seq<nat> := [MPH_MAGIC, |x.seeds|, |x.slots|, MPH_HEADER, MPH_HEADER + |x.seeds| * MPH_BUCKET];
    Pow256Values();
    MphHeaderWidths();
    PackRoundTrip(fields, MPH_HEADER_WIDTHS);
    assert (MphHeaderFor(x) + rest)[..MPH_HEADER] == MphHeaderFor(x);
  }

  lemma {:induction false} ThreeSections(a: Bytes, b: Bytes, c: Bytes)
    ensures var w := a + b + c; w[|a|..|a| + |b|] == b && w[|a| + |b|..] == c
  {
  }

  lemma {:induction false} MphFileRoundTrip(x: MphIndex)
    requires |x.seeds| == |x.slots| <= U32_MAX && forall s :: s in x.slots ==> LocFits(s.loc)
    ensures MphFileFits(EncodeMph(x)) && MphLaidOut(EncodeMph(x)) && MphSections(EncodeMph(x)) == x
    ensures |EncodeMph(x)| <= MAX_FILE
    ensures MphHeaderOf(EncodeMph(x)).bucketCount == MphHeaderOf(EncodeMph(x)).slotCount == |x.slots|
  {
    var bs, ss := EncodeTable(x.seeds, EncBucket), EncodeTable(x.slots, EncMphSlot);
    BucketTable(x.seeds);
    MphSlotTable(x.slots);
    MphHeaderRoundTrip(x, bs + ss);
    assert EncodeMph(x) == MphHeaderFor(x) + (bs + ss);
    ThreeSections(MphHeaderFor(x), bs, ss);
    MphSectionsWhole(EncodeMph(x));
  }

  // ---- The frozen image ----

  ghost function SlotLocs(slots: seq<MphSlot>): seq<Loc> {
    seq(|slots|, s requires 0 <= s < |slots| => slots[s].loc)
  }

  /** A bijection: every slot is taken, and the lookup of the key it holds ends in it. */
  ghost predicate MphHolds(x: MphIndex, keys: Bytes, values: Bytes, recs: seq<Pair>, hash: Hasher, sh: SlotHasher) {
    && |x.seeds| == |x.slots| == |recs|
    && InRange(SlotLocs(x.slots), keys, values)
    && var listed := Listed(SlotLocs(x.slots), keys, values);
    && SameRecords(listed, recs)
    && forall s :: 0 <= s < |x.slots| ==> SlotHolds(x, listed, hash, sh, s)
  }

  ghost predicate SlotHolds(x: MphIndex, listed: seq<Pair>, hash: Hasher, sh: SlotHasher, s: nat)
    requires s < |x.slots| == |x.seeds| == |listed|
  {
    var k := listed[s].key;
    var seed := x.seeds[BucketOf(k, hash, |x.seeds|)];
    && x.slots[s].present && x.slots[s].hash == hash(k)
    && seed != 0 && SlotFor(k, seed, sh, |x.slots|) == s
  }

  ghost predicate MphImage(f: IndexFiles, recs: seq<Pair>, hash: Hasher, sh: SlotHasher) {
    && MphFileFits(f.index) && MphLaidOut(f.index) && |f.index| <= MAX_FILE && f.count == |recs|
    && MphHolds(MphSections(f.index), f.keys, f.values, recs, hash, sh)
  }

  method FreezeMph(records: seq<BuildRecord>, allowDuplicatePut: bool, hash: Hasher, sh: SlotHasher)
    returns (r: Result<IndexFiles>)
    requires Stamped(records)
    requires |Survivors(Pairs(records))| <= U32_MAX
    ensures
      var recs := Survivors(Pairs(records));
      && (r.Ok? <==> (allowDuplicatePut || DistinctKeys(Pairs(records))) && Storable(recs) && Placeable(recs, hash, sh))
      && (r.Ok? ==> MphImage(r.value, recs, hash, sh))
    ensures
      var recs := Survivors(Pairs(records));
      && (r.Ok? <==>
        && (allowDuplicatePut || DistinctKeys(Pairs(records))) && Storable(recs)
        && exists all :: LeastSeeds(recs, Buckets(recs, hash), sh, all))
      && (r.Ok? ==> LeastSeeds(recs, Buckets(recs, hash), sh, MphSections(r.value.index).seeds))
    ensures r.Err? ==> r.status == FreezeError(records, allowDuplicatePut, Unsupported)
  {
    hide LeastSeeds, Storable, DistinctKeys, Placeable, Survivors, Placed, MphImage, MphSections, EncodeMph, Buckets,
      KeyBytes, ValueBytes, IncreasingKeys, InRange;
    var recs :- DedupeRecords(records, allowDuplicatePut);
    SurvivorsKeepTheMap(Pairs(records));
    var lay :- WriteKeysValues(recs);
    var ok, seeds, slots, used := PlaceAll(recs, lay.locs, hash, sh);
    if !ok {
      return Err(Unsupported);
    }
    var x := MphIndex(seeds, slots);
    r := Ok(IndexFiles(EncodeMph(x), lay.keys, lay.values, |recs|));
    PlacedIsTheImage(x, used, recs, lay, hash, sh);
  }

  lemma {:induction false} PlacedIsTheImage(x: MphIndex, used: seq<bool>, recs: seq<Pair>, lay: Layout, hash: Hasher,
                                            sh: SlotHasher)
    requires IncreasingKeys(recs) && Storable(recs) && |recs| <= U32_MAX
    requires lay.keys == KeyBytes(recs) && lay.values == ValueBytes(recs)
    requires Laid(lay.locs, lay.keys, lay.values, recs)
    requires Placed(recs, Buckets(recs, hash), hash, sh, lay.locs, Below(|recs|), x.seeds, used, x.slots)
    ensures MphImage(IndexFiles(EncodeMph(x), lay.keys, lay.values, |recs|), recs, hash, sh)
    ensures MphLaidOut(EncodeMph(x)) && MphSections(EncodeMph(x)) == x
  {
    IncreasingIsDistinct(recs);
    var owner := AllSlotsOwned(x, used, recs, lay, hash, sh);
    forall s | s in x.slots ensures LocFits(s.loc) {
      var k :| 0 <= k < |x.slots| && x.slots[k] == s;
      assert OwnsSlot(x, recs, lay.locs, hash, sh, owner[k], k);
      StoredLocsFit(lay, recs, owner[k]);
    }
    MphFileRoundTrip(x);
    OwnersMakeTheImage(x, recs, lay, hash, sh, owner);
  }

  /** Record i sits in slot s, where the lookup of its key ends. */
  ghost predicate OwnsSlot(x: MphIndex, recs: seq<Pair>, locs: seq<Loc>, hash: Hasher, sh: SlotHasher, i: nat, s: nat)
    requires s < |recs| == |locs| == |x.slots| == |x.seeds|
  {
    && i < |recs|
    && x.slots[s] == SlotEntry(recs[i], locs[i], hash)
    && var seed := x.seeds[BucketOf(recs[i].key, hash, |recs|)];
    && seed != 0 && SlotFor(recs[i].key, seed, sh, |recs|) == s
  }

  /** n different numbers below n: every one of them occurs, at one position. */
  lemma {:induction false} InverseOf(homes: seq<nat>) returns (owner: seq<nat>)
    requires Distinct(homes) && forall i :: 0 <= i < |homes| ==> homes[i] < |homes|
    ensures |owner| == |homes| && Distinct(owner)
    ensures forall s :: 0 <= s < |owner| ==> owner[s] < |homes| && homes[owner[s]] == s
    ensures forall i :: 0 <= i < |homes| ==> i in owner
  {
    var n := |homes|;
    DistinctBelow(homes, n);
    owner := seq(n, s requires 0 <= s < n => assert s in homes; var i :| 0 <= i < n && homes[i] == s; i);
    forall i | 0 <= i < n ensures i in owner {
      assert homes[owner[homes[i]]] == homes[i];
    }
  }

  lemma {:induction false} HomesOf(recs: seq<Pair>, bk: seq<nat>, hash: Hasher, sh: SlotHasher, locs: seq<Loc>,
                                   seeds: seq<u64>, used: seq<bool>, slots: seq<MphSlot>)
    returns (homes: seq<nat>)
    requires Placed(recs, bk, hash, sh, locs, Below(|recs|), seeds, used, slots)
    ensures |homes| == |recs| == |bk| == |locs| == |seeds| == |used| == |slots| && Distinct(homes)
    ensures forall i :: 0 <= i < |recs| ==> bk[i] < |seeds| && homes[i] == SlotAt(recs, bk, seeds, sh, i)
    ensures forall i :: 0 <= i < |homes| ==> homes[i] < |homes|
  {
    homes := seq(|recs|, i requires 0 <= i < |recs| => SlotAt(recs, bk, seeds, sh, i));
  }

  lemma {:induction false} HomeIsOwned(x: MphIndex, used: seq<bool>, recs: seq<Pair>, locs: seq<Loc>, hash: Hasher,
                                       sh: SlotHasher, i: nat)
    requires Placed(recs, Buckets(recs, hash), hash, sh, locs, Below(|recs|), x.seeds, used, x.slots) && i < |recs|
    requires |recs| == |x.slots| == |x.seeds| == |Buckets(recs, hash)| == |locs|
    requires Buckets(recs, hash)[i] < |x.seeds|
    ensures OwnsSlot(x, recs, locs, hash, sh, i, SlotAt(recs, Buckets(recs, hash), x.seeds, sh, i))
  {
    assert AtHome(recs, Buckets(recs, hash), hash, sh, locs, x.seeds, used, x.slots, i);
  }

  /** Pigeonhole: n records in n different slots leave no slot free. */
  lemma {:induction false} AllSlotsOwned(x: MphIndex, used: seq<bool>, recs: seq<Pair>, lay: Layout, hash: Hasher,
                                         sh: SlotHasher)
    returns (owner: seq<nat>)
    requires |lay.locs| == |recs|
    requires Placed(recs, Buckets(recs, hash), hash, sh, lay.locs, Below(|recs|), x.seeds, used, x.slots)
    ensures |owner| == |recs| == |x.slots| == |x.seeds|
    ensures forall s :: 0 <= s < |owner| ==> OwnsSlot(x, recs, lay.locs, hash, sh, owner[s], s)
    ensures forall i :: 0 <= i < |recs| ==> i in owner
    ensures Distinct(owner)
  {
    hide Placed, AtHome, SlotAt, OwnsSlot;
    var bk := Buckets(recs, hash);
    var homes := HomesOf(recs, bk, hash, sh, lay.locs, x.seeds, used, x.slots);
    owner := InverseOf(homes);
    forall s | 0 <= s < |owner| ensures OwnsSlot(x, recs, lay.locs, hash, sh, owner[s], s) {
      HomeIsOwned(x, used, recs, lay.locs, hash, sh, owner[s]);
    }
  }

  lemma {:induction false} OwnersMakeTheImage(x: MphIndex, recs: seq<Pair>, lay: Layout, hash: Hasher, sh: SlotHasher,
                                              owner: seq<nat>)
    requires DistinctKeys(recs) && Laid(lay.locs, lay.keys, lay.values, recs)
    requires |owner| == |recs| == |x.slots| == |x.seeds| && Distinct(owner)
    requires forall s :: 0 <= s < |owner| ==> OwnsSlot(x, recs, lay.locs, hash, sh, owner[s], s)
    requires forall i :: 0 <= i < |recs| ==> i in owner
    ensures MphHolds(x, lay.keys, lay.values, recs, hash, sh)
  {
    OwnersList(x, recs, lay, hash, sh, owner);
    var listed := Listed(SlotLocs(x.slots), lay.keys, lay.values);
    RearrangedRecords(listed, recs, owner);
    forall s | 0 <= s < |listed| ensures SlotHolds(x, listed, hash, sh, s) {
      assert OwnsSlot(x, recs, lay.locs, hash, sh, owner[s], s);
    }
  }

  lemma {:induction false} OwnersList(x: MphIndex, recs: seq<Pair>, lay: Layout, hash: Hasher, sh: SlotHasher,
                                      owner: seq<nat>)
    requires Laid(lay.locs, lay.keys, lay.values, recs)
    requires |owner| == |recs| == |x.slots| == |x.seeds|
    requires forall s :: 0 <= s < |owner| ==> OwnsSlot(x, recs, lay.locs, hash, sh, owner[s], s)
    ensures InRange(SlotLocs(x.slots), lay.keys, lay.values)
    ensures forall s :: 0 <= s < |owner| ==>
      owner[s] < |recs| && Listed(SlotLocs(x.slots), lay.keys, lay.values)[s] == recs[owner[s]]
  {
    var locs, full := SlotLocs(x.slots), Listed(lay.locs, lay.keys, lay.values);
    forall s | 0 <= s < |locs| ensures locs[s] == lay.locs[owner[s]] && LocInRange(locs[s], |lay.keys|, |lay.values|) {
      assert OwnsSlot(x, recs, lay.locs, hash, sh, owner[s], s);
    }
    forall s | 0 <= s < |locs| ensures Listed(locs, lay.keys, lay.values)[s] == recs[owner[s]] {
      assert PairAt(locs[s], lay.keys, lay.values) == full[owner[s]];
    }
  }

  // ---- get_mph ----

  function MphLookup(x: MphIndex, keys: Bytes, values: Bytes, hash: Hasher, sh: SlotHasher, key: Bytes): Result<Bytes> {
    if |x.slots| == 0 || |x.seeds| == 0 then Err(NotFound)
    else
      var h := hash(key);
      var seed := x.seeds[BucketOf(key, hash, |x.seeds|)];
      if seed == 0 then Err(NotFound)
      else
        var m := x.slots[SlotFor(key, seed, sh, |x.slots|)];
        if m.present && m.hash == h && KeyEqual(keys, m.loc.keyOff, m.loc.keyLen, key) then ValueAt(m.loc, values)
        else Err(NotFound)
  }

  /** On a frozen cache one probe decides: stored keys hit their own value, all others miss. */
  lemma {:induction false} MphLookupIsLastPut(f: IndexFiles, recs: seq<Pair>, hash: Hasher, sh: SlotHasher, key: Bytes)
    requires MphImage(f, recs, hash, sh)
    ensures MphLookup(MphSections(f.index), f.keys, f.values, hash, sh, key) == Answer(LastPut(recs, key))
  {
    var x := MphSections(f.index);
    var listed := Listed(SlotLocs(x.slots), f.keys, f.values);
    PermutationSameMap(listed, recs);
    if s :| 0 <= s < |listed| && listed[s].key == key {
      assert SlotHolds(x, listed, hash, sh, s);
      SlotMatch(x, f.keys, f.values, key, s);
      LastPutAt(listed, s);
    } else {
      LastPutNone(listed, key);
      if |x.slots| > 0 {
        SlotMatch(x, f.keys, f.values, key, SlotFor(key, x.seeds[BucketOf(key, hash, |x.seeds|)], sh, |x.slots|));
      }
    }
  }

  /** The byte comparison of one slot tells exactly whether it holds the key. */
  lemma {:induction false} SlotMatch(x: MphIndex, keys: Bytes, values: Bytes, key: Bytes, s: nat)
    requires s < |x.slots| && InRange(SlotLocs(x.slots), keys, values)
    ensures var loc := x.slots[s].loc;
      var p := Listed(SlotLocs(x.slots), keys, values)[s];
      (KeyEqual(keys, loc.keyOff, loc.keyLen, key) <==> p.key == key) && ValueAt(loc, values) == Ok(p.value)
  {
    var loc := SlotLocs(x.slots)[s];
    assert LocInRange(loc, |keys|, |values|) && Listed(SlotLocs(x.slots), keys, values)[s] == PairAt(loc, keys, values);
  }
}
