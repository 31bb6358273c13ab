/** Which puts a freeze accepts, in terms of the puts alone: src/core/fce_build_records.c lines 33-112 and the
    backends' freeze functions. */
module PutLaws {
  import opened Bytes
  import opened Sorting
  import opened Records
  import opened Format
  import opened RadixBuild
  import opened DirectTable
  import opened Mph
  import opened Log
  import opened LogCache
  import opened Crc
  import opened Schemas
  import opened Builders

  // ---- Deduplication keeps the keys and adds no bytes ----

  /** The different keys of a put sequence. */
  ghost function KeySet(puts: seq<Pair>): set<Bytes> {
    set p | p in puts :: p.key
  }

  lemma {:induction false} AnsweredKeys(puts: seq<Pair>, key: Bytes)
    ensures LastPut(puts, key).Some? <==> key in KeySet(puts)
  {
    if LastPut(puts, key).Some? {
      var p := LastPutWitness(puts, key);
      assert puts[p] in puts;
    } else if key in KeySet(puts) {
      var p :| p in puts && p.key == key;
      AnsweredOnce(puts, p);
      assert false;
    }
  }

  lemma {:induction false} AnsweredOnce(puts: seq<Pair>, p: Pair)
    requires p in puts
    ensures LastPut(puts, p.key).Some?
  {
    var n := |puts| - 1;
    if puts[n].key != p.key {
      assert puts == puts[..n] + [puts[n]];
      AnsweredOnce(puts[..n], p);
    }
  }

  /** One survivor for each different key. */
  lemma {:induction false} SurvivorsAreTheKeys(puts: seq<Pair>)
    ensures KeySet(Survivors(puts)) == KeySet(puts) && |Survivors(puts)| == |KeySet(puts)|
  {
    hide Survivors, LastPut;
    var recs := Survivors(puts);
    SurvivorsKeepTheMap(puts);
    forall key ensures key in KeySet(recs) <==> key in KeySet(puts) {
      AnsweredKeys(recs, key);
      AnsweredKeys(puts, key);
    }
    IncreasingIsDistinct(recs);
    DistinctKeysCount(recs);
  }

  lemma {:induction false} DistinctKeysCount(recs: seq<Pair>)
    requires DistinctKeys(recs)
    ensures |KeySet(recs)| == |recs|
  {
    var keys := seq(|recs|, i requires 0 <= i < |recs| => recs[i].key);
    DistinctCard(keys);
    assert forall i :: 0 <= i < |recs| ==> keys[i] == recs[i].key && recs[i] in recs;
    assert Elements(keys) == KeySet(recs);
  }

  /** Total key and value bytes. */
  ghost function KeyLoad(puts: seq<Pair>): nat {
    if puts == [] then 0 else |puts[0].key| + KeyLoad(puts[1..])
  }

  ghost function ValueLoad(puts: seq<Pair>): nat {
    if puts == [] then 0 else |puts[0].value| + ValueLoad(puts[1..])
  }

  lemma {:induction false} LoadSnoc(puts: seq<Pair>, p: Pair)
    ensures KeyLoad(puts + [p]) == KeyLoad(puts) + |p.key| && ValueLoad(puts + [p]) == ValueLoad(puts) + |p.value|
  {
    if puts == [] {
      assert puts + [p] == [p];
    } else {
      assert (puts + [p])[1..] == puts[1..] + [p];
      LoadSnoc(puts[1..], p);
    }
  }

  lemma {:induction false} LoadsAreSizes(recs: seq<Pair>)
    ensures |KeyBytes(recs)| == KeyLoad(recs) && |ValueBytes(recs)| == ValueLoad(recs)
  {
    if recs != [] {
      var n := |recs| - 1;
      LoadsAreSizes(recs[..n]);
      LoadSnoc(recs[..n], recs[n]);
      assert recs == recs[..n] + [recs[n]];
    }
  }

  lemma {:induction false} UpsertLoad(recs: seq<Pair>, p: Pair)
    ensures KeyLoad(Upsert(recs, p)) <= KeyLoad(recs) + |p.key|
    ensures ValueLoad(Upsert(recs, p)) <= ValueLoad(recs) + |p.value|
    ensures forall x :: x in Upsert(recs, p) ==> x == p || x in recs
  {
    var up := Upsert(recs, p);
    if recs == [] || KeyLess(p.key, recs[0].key) {
      assert up[1..] == recs;
    } else if recs[0].key == p.key {
      assert up[1..] == recs[1..];
    } else {
      UpsertLoad(recs[1..], p);
      assert up[1..] == Upsert(recs[1..], p);
    }
  }

  lemma {:induction false} SurvivorsLoad(puts: seq<Pair>)
    ensures KeyLoad(Survivors(puts)) <= KeyLoad(puts) && ValueLoad(Survivors(puts)) <= ValueLoad(puts)
    ensures forall x :: x in Survivors(puts) ==> x in puts
    ensures |Survivors(puts)| <= |puts|
  {
    if puts != [] {
      var n := |puts| - 1;
      SurvivorsLoad(puts[..n]);
      LoadSnoc(puts[..n], puts[n]);
      assert puts == puts[..n] + [puts[n]];
      UpsertLoad(Survivors(puts[..n]), puts[n]);
      UpsertSize(Survivors(puts[..n]), puts[n]);
    }
  }

  lemma {:induction false} UpsertSize(recs: seq<Pair>, p: Pair)
    ensures |Upsert(recs, p)| <= |recs| + 1
  {
    if recs != [] {
      UpsertSize(recs[1..], p);
    }
  }

  /** Lengths of 32 bits and totals that a file can hold, in numbers. */
  ghost predicate Small(puts: seq<Pair>) {
    && (forall p :: p in puts ==> |p.key| <= 0xffff_ffff && |p.value| <= 0xffff_ffff)
    && KeyLoad(puts) <= 0x7fff_ffff_ffff_ffff && ValueLoad(puts) <= 0x7fff_ffff_ffff_ffff
  }

  /** Small puts can be stored after deduplication. */
  lemma {:induction false} SmallIsStorable(puts: seq<Pair>)
    requires Small(puts)
    ensures Storable(Survivors(puts))
  {
    hide Survivors, KeyBytes, ValueBytes;
    SurvivorsLoad(puts);
    LoadsAreSizes(Survivors(puts));
  }

  // ---- The direct table ----

  lemma {:induction false} NumbersSurvive(puts: seq<Pair>, m: u64)
    requires NumbersUpTo(puts, m)
    ensures NumbersUpTo(Survivors(puts), m)
  {
    hide Survivors, Le;
    var recs := Survivors(puts);
    SurvivorsAreTheKeys(puts);
    forall i | 0 <= i < |recs| ensures exists k: nat :: k <= m && recs[i].key == Le(k, 8) {
      assert recs[i].key in KeySet(recs);
      var j :| 0 <= j < |puts| && puts[j].key == recs[i].key;
    }
    var j :| 0 <= j < |puts| && puts[j].key == Le(m, 8);
    assert puts[j] in puts && Le(m, 8) in KeySet(recs);
    var i :| 0 <= i < |recs| && recs[i].key == Le(m, 8);
  }

  /** Puts under numbers up to m freeze into a direct table exactly when no key comes twice (or that is allowed),
      the table has at most four slots for each different key (or may be sparse) and fits a file. */
  lemma {:induction false} DirectFreezesIff(s: Schema, puts: seq<Pair>, m: u64, hash: Hasher, sh: SlotHasher)
    requires s.backend == DirectBackend && NumbersUpTo(puts, m) && Small(puts)
    ensures Freezable(s, puts, hash, sh) <==>
            && (s.allowDuplicatePut || |KeySet(puts)| == |puts|)
            && (s.allowSparse || m + 1 <= 4 * |KeySet(puts)|)
            && 40 * (m + 1) <= 0x7fff_ffff_ffff_ffff
  {
    hide Survivors, Tabular, Small, NumbersUpTo, KeySet, DistinctKeys;
    SmallIsStorable(puts);
    SurvivorsAreTheKeys(puts);
    NumbersSurvive(puts, m);
    TabularIff(Survivors(puts), m, s.allowSparse);
    DistinctIffCounted(puts);
  }

  lemma {:induction false} DistinctIffCounted(puts: seq<Pair>)
    ensures DistinctKeys(puts) <==> |KeySet(puts)| == |puts|
  {
    if DistinctKeys(puts) {
      DistinctKeysCount(puts);
    } else {
      var i, j :| 0 <= i < j < |puts| && puts[i].key == puts[j].key;
      var rest := puts[..j] + puts[j + 1..];
      forall p | p in puts ensures p.key in KeySet(rest) {
        var k :| 0 <= k < |puts| && puts[k] == p;
        assert puts[i] == rest[i];
        assert p.key == (if k == j then rest[i] else if k < j then rest[k] else rest[k - 1]).key;
      }
      assert KeySet(puts) <= KeySet(rest);
      KeySetSize(rest);
      SubsetCard(KeySet(puts), KeySet(rest));
    }
  }

  lemma {:induction false} KeySetSize(puts: seq<Pair>)
    ensures |KeySet(puts)| <= |puts|
  {
    SurvivorsAreTheKeys(puts);
    SurvivorsLoad(puts);
  }

  /** The numbers below n as fce_builder_put_u64 writes them. */
  ghost function NumberKeys(n: nat): set<Bytes> {
    set k: nat | k < n :: Le(k, 8)
  }

  lemma {:induction false} NumberKeysCount(n: nat)
    requires n <= 0x1_0000_0000_0000_0000
    ensures |NumberKeys(n)| == n
  {
    hide Le;
    if n > 0 {
      NumberKeysCount(n - 1);
      Pow256Values();
      LeRoundTrip(n - 1, 8);
      forall k: nat | k < n - 1 ensures Le(k, 8) != Le(n - 1, 8) {
        LeRoundTrip(k, 8);
      }
      assert NumberKeys(n) == NumberKeys(n - 1) + {Le(n - 1, 8)};
    }
  }

  lemma {:induction false} NumberKeysAreNumbers(puts: seq<Pair>, n: nat)
    requires 0 < n <= 0x1_0000_0000_0000_0000 && KeySet(puts) == NumberKeys(n)
    ensures NumbersUpTo(puts, n - 1)
  {
    hide Le;
    forall i | 0 <= i < |puts| ensures exists k: nat :: k <= n - 1 && puts[i].key == Le(k, 8) {
      assert puts[i] in puts && puts[i].key in NumberKeys(n);
      var k: nat :| k < n && puts[i].key == Le(k, 8);
      assert k <= n - 1;
    }
    assert Le(n - 1, 8) in NumberKeys(n);
    var p :| p in puts && p.key == Le(n - 1, 8);
    var i :| 0 <= i < |puts| && puts[i] == p;
  }

  /** The numbers 0 to n - 1, in any order, always freeze: no sparse flag is needed. */
  lemma {:induction false} DenseFreezes(s: Schema, puts: seq<Pair>, n: nat, hash: Hasher, sh: SlotHasher)
    requires s.backend == DirectBackend && KeySet(puts) == NumberKeys(n) && Small(puts)
    requires 40 * n <= 0x7fff_ffff_ffff_ffff && (s.allowDuplicatePut || |puts| == n)
    ensures Freezable(s, puts, hash, sh) && |Survivors(puts)| == n
  {
    hide Survivors, Freezable, Small, KeySet, NumberKeys, NumbersUpTo;
    NumberKeysCount(n);
    SurvivorsAreTheKeys(puts);
    if n > 0 {
      NumberKeysAreNumbers(puts, n);
      DirectFreezesIff(s, puts, n - 1, hash, sh);
    } else {
      NothingFreezes(s, puts, hash, sh);
    }
  }

  lemma {:induction false} NothingFreezes(s: Schema, puts: seq<Pair>, hash: Hasher, sh: SlotHasher)
    requires s.backend == DirectBackend && KeySet(puts) == {}
    ensures Freezable(s, puts, hash, sh)
  {
    NoKeys(puts);
  }

  lemma {:induction false} NoKeys(puts: seq<Pair>)
    ensures KeySet(puts) == {} <==> puts == []
  {
    if puts != [] {
      assert puts[0] in puts && puts[0].key in KeySet(puts);
    }
  }

  // ---- The log, the sorted index and the trie ----

  /** A log takes 32 bytes a record beside its key and value; it refuses no key and no length. */
  lemma {:induction false} LogFreezesIff(s: Schema, puts: seq<Pair>, hash: Hasher, sh: SlotHasher)
    requires s.backend == LogBackend
    ensures Freezable(s, puts, hash, sh) <==>
            32 * |puts| + KeyLoad(puts) + ValueLoad(puts) <= 0x7fff_ffff_ffff_ffff
  {
    LogLoad(puts, Crc64);
  }

  lemma {:induction false} LogLoad(puts: seq<Pair>, sum: Checksum)
    ensures |LogBytes(puts, sum)| == 32 * |puts| + KeyLoad(puts) + ValueLoad(puts)
  {
    hide RecordBytes, LogBytes;
    if puts == [] {
      NothingLogged(sum);
    } else {
      var n := |puts| - 1;
      LogLoad(puts[..n], sum);
      LoadSnoc(puts[..n], puts[n]);
      LogAppend(puts[..n], puts[n], sum);
      assert puts == puts[..n] + [puts[n]];
    }
  }

  lemma {:induction false} NothingLogged(sum: Checksum)
    ensures LogBytes([], sum) == []
  {
  }

  /** A sorted index takes 48 bytes for each different key. */
  lemma {:induction false} SortedFreezesIff(s: Schema, puts: seq<Pair>, hash: Hasher, sh: SlotHasher)
    requires s.backend == SortedBackend && Small(puts)
    ensures Freezable(s, puts, hash, sh) <==>
            (s.allowDuplicatePut || |KeySet(puts)| == |puts|) && 48 * |KeySet(puts)| <= 0x7fff_ffff_ffff_ffff
  {
    hide Survivors, Small, KeySet, DistinctKeys;
    SmallIsStorable(puts);
    SurvivorsAreTheKeys(puts);
    DistinctIffCounted(puts);
  }

  lemma {:induction false} PrefixesSurvive(puts: seq<Pair>)
    ensures Prefixes(Survivors(puts)) == Prefixes(puts)
  {
    SurvivorsAreTheKeys(puts);
    SameKeysSamePrefixes(Survivors(puts), puts);
    SameKeysSamePrefixes(puts, Survivors(puts));
  }

  lemma {:induction false} SameKeysSamePrefixes(a: seq<Pair>, b: seq<Pair>)
    requires KeySet(a) <= KeySet(b)
    ensures Prefixes(a) <= Prefixes(b)
  {
    forall x | x in Prefixes(a) ensures x in Prefixes(b) {
      if x != [] {
        var i: nat, n: nat :| i < |a| && n <= |a[i].key| && a[i].key[..n] == x;
        assert a[i] in a && a[i].key in KeySet(b);
        var p :| p in b && p.key == a[i].key;
        var j :| 0 <= j < |b| && b[j] == p;
        assert x == b[j].key[..n];
      }
    }
  }

  /** A trie takes a node for each different prefix of a key, below 2^32 of them. */
  lemma {:induction false} RadixFreezesIff(s: Schema, puts: seq<Pair>, hash: Hasher, sh: SlotHasher)
    requires s.backend == RadixBackend && Small(puts)
    ensures Freezable(s, puts, hash, sh) <==>
            (s.allowDuplicatePut || |KeySet(puts)| == |puts|) && |Prefixes(puts)| <= 0xffff_ffff
    ensures |Prefixes(puts)| <= KeyLoad(puts) + 1
  {
    hide Survivors, Small, KeySet, DistinctKeys, Prefixes;
    SmallIsStorable(puts);
    SurvivorsAreTheKeys(puts);
    DistinctIffCounted(puts);
    PrefixesSurvive(puts);
    PrefixLoad(puts);
  }

  lemma {:induction false} PrefixLoad(puts: seq<Pair>)
    ensures |Prefixes(puts)| <= KeyLoad(puts) + 1
  {
    if puts == [] {
      assert Prefixes(puts) == {[]};
    } else {
      var n := |puts| - 1;
      PrefixLoad(puts[..n]);
      LoadSnoc(puts[..n], puts[n]);
      assert puts == puts[..n] + [puts[n]];
      NewPrefixes(puts[..n], puts[n]);
      KeyPrefixesCount(puts[n].key);
      SubsetCard(Prefixes(puts), Prefixes(puts[..n]) + KeyPrefixes(puts[n].key));
    }
  }

  /** The prefixes of one key but the empty one. */
  ghost function KeyPrefixes(key: Bytes): set<Bytes> {
    set n: nat | 0 < n <= |key| :: key[..n]
  }

  lemma {:induction false} KeyPrefixesCount(key: Bytes)
    ensures |KeyPrefixes(key)| <= |key|
  {
    if key == [] {
      assert KeyPrefixes(key) == {};
    } else {
      var front := key[..|key| - 1];
      KeyPrefixesCount(front);
      forall x | x in KeyPrefixes(key) ensures x in KeyPrefixes(front) + {key} {
        var n: nat :| 0 < n <= |key| && x == key[..n];
        if n < |key| {
          assert x == front[..n];
        } else {
          assert x == key;
        }
      }
      SubsetCard(KeyPrefixes(key), KeyPrefixes(front) + {key});
    }
  }

  lemma {:induction false} NewPrefixes(puts: seq<Pair>, p: Pair)
    ensures Prefixes(puts + [p]) <= Prefixes(puts) + KeyPrefixes(p.key)
  {
    var more := puts + [p];
    forall x | x in Prefixes(more) ensures x in Prefixes(puts) + KeyPrefixes(p.key) {
      if x != [] {
        var i: nat, n: nat :| i < |more| && n <= |more[i].key| && more[i].key[..n] == x;
        if i < |puts| {
          assert x == puts[i].key[..n];
        } else {
          assert x == p.key[..n] && n > 0;
        }
      }
    }
  }
}
