/** The contract of qsort: some permutation of the input, ascending in the comparator. */
module Sorting {

  ghost predicate TotalPreorder<T(!new)>(le: (T, T) -> bool) {
    && (forall a, b :: le(a, b) || le(b, a))
    && (forall a, b, c :: le(a, b) && le(b, c) ==> le(a, c))
  }

  ghost predicate Ascending<T>(s: seq<T>, le: (T, T) -> bool) {
    forall i, j :: 0 <= i < j < |s| ==> le(s[i], s[j])
  }

  /** An insertion sort; callers see only the contract, which any qsort meets. */
  method Qsort<T(!new)>(s: seq<T>, le: (T, T) -> bool) returns (t: seq<T>)
    requires TotalPreorder(le)
    ensures multiset(t) == multiset(s)
    ensures |t| == |s|
    ensures Ascending(t, le)
  {
    hide TotalPreorder, Ascending;
    NothingIsAscending(le);
    t := [];
    for i := 0 to |s|
      invariant |t| == i
      invariant multiset(t) == multiset(s[..i])
      invariant Ascending(t, le)
    {
      var k := 0;
      while k < i && le(t[k], s[i])
        invariant 0 <= k <= i
        invariant forall j :: 0 <= j < k ==> le(t[j], s[i])
      {
        k := k + 1;
      }
      InsertKeepsOrder(t, k, s[i], le);
      InsertAddsOne(t, k, s[i]);
      assert s[..i + 1] == s[..i] + [s[i]];
      t := t[..k] + [s[i]] + t[k..];
    }
    assert s[..|s|] == s;
  }

  lemma {:induction false} NothingIsAscending<T(!new)>(le: (T, T) -> bool)
    ensures Ascending([], le)
  {
  }

  lemma {:induction false} InsertAddsOne<T>(t: seq<T>, k: nat, x: T)
    requires k <= |t|
    ensures multiset(t[..k] + [x] + t[k..]) == multiset(t) + multiset{x}
  {
    assert t == t[..k] + t[k..];
  }

  lemma {:induction false} InsertKeepsOrder<T(!new)>(t: seq<T>, k: nat, x: T, le: (T, T) -> bool)
    requires TotalPreorder(le) && Ascending(t, le) && k <= |t|
    requires forall j :: 0 <= j < k ==> le(t[j], x)
    requires k < |t| ==> !le(t[k], x)
    ensures Ascending(t[..k] + [x] + t[k..], le)
  {
    var r := t[..k] + [x] + t[k..];
    forall i, j | 0 <= i < j < |r| ensures le(r[i], r[j]) {
      if i == k {
        assert le(x, t[k]);
        assert r[j] == t[j - 1];
      } else {
        var a := if i < k then i else i - 1;
        assert r[i] == t[a];
        if j == k {
          assert r[j] == x;
        } else {
          var b := if j < k then j else j - 1;
          assert r[j] == t[b];
        }
      }
    }
  }

  /** Membership is all most users need of the permutation. */
  lemma {:induction false} SameElements<T>(s: seq<T>, t: seq<T>)
    requires multiset(s) == multiset(t)
    ensures forall x :: x in s <==> x in t
  {
    forall x ensures x in s <==> x in t {
      assert x in s <==> x in multiset(s);
      assert x in t <==> x in multiset(t);
    }
  }

  ghost predicate Distinct<T(!new)>(s: seq<T>) {
    forall i, j :: 0 <= i < j < |s| ==> s[i] != s[j]
  }

  lemma {:induction false} DistinctMultiplicity<T(!new)>(s: seq<T>, x: T)
    requires Distinct(s)
    ensures multiset(s)[x] <= 1
  {
    if s != [] {
      assert s == [s[0]] + s[1..];
      DistinctMultiplicity(s[1..], x);
      if x == s[0] {
        assert x !in s[1..];
        assert multiset(s[1..])[x] == 0;
      }
    }
  }

  lemma {:induction false} PermutationKeepsDistinct<T(!new)>(s: seq<T>, t: seq<T>)
    requires multiset(s) == multiset(t) && Distinct(s)
    ensures Distinct(t)
  {
    forall i, j | 0 <= i < j < |t| ensures t[i] != t[j] {
      DistinctMultiplicity(s, t[i]);
      assert t == t[..i] + [t[i]] + t[i + 1..];
      assert t[j] in t[i + 1..];
      assert multiset(t[i + 1..])[t[j]] >= 1;
      assert multiset(t) == multiset(t[..i]) + multiset{t[i]} + multiset(t[i + 1..]);
    }
  }

  // ---- Counting ----

  ghost function Elements<T>(s: seq<T>): set<T> {
    set x | x in s
  }

  lemma {:induction false} DistinctCard<T(!new)>(s: seq<T>)
    requires Distinct(s)
    ensures |Elements(s)| == |s|
  {
    if s != [] {
      DistinctCard(s[1..]);
      assert s == [s[0]] + s[1..];
      assert Elements(s) == {s[0]} + Elements(s[1..]);
      assert s[0] !in s[1..];
    }
  }

  lemma {:induction false} SubsetCard<T>(a: set<T>, b: set<T>)
    requires a <= b
    ensures |a| <= |b|
    ensures |a| == |b| ==> a == b
  {
    assert b == a + (b - a);
    assert |b| == |a| + |b - a|;
    if |b - a| == 0 {
      assert b - a == {};
    }
  }

  ghost function Below(n: nat): (s: set<nat>)
    ensures |s| == n && forall k :: k in s <==> 0 <= k < n
  {
    if n == 0 then {} else Below(n - 1) + {n - 1}
  }

  /** Pigeonhole: distinct numbers below n are at most n many, and n of them are all of them. */
  lemma {:induction false} DistinctBelow(s: seq<nat>, n: nat)
    requires Distinct(s) && forall i :: 0 <= i < |s| ==> s[i] < n
    ensures |s| <= n
    ensures |s| == n ==> forall k :: 0 <= k < n ==> k in s
  {
    DistinctCard(s);
    assert Elements(s) <= Below(n);
    SubsetCard(Elements(s), Below(n));
    if |s| == n {
      forall k: nat | k < n ensures k in s {
        assert k in Below(n);
      }
    }
  }

  ghost predicate Antisymmetric<T(!new)>(le: (T, T) -> bool) {
    forall a, b :: le(a, b) && le(b, a) ==> a == b
  }

  lemma {:induction false} SameFirst<T(!new)>(s: seq<T>, t: seq<T>, le: (T, T) -> bool)
    requires TotalPreorder(le) && Antisymmetric(le) && Ascending(s, le) && Ascending(t, le)
    requires s != [] && t != [] && s[0] in t && t[0] in s
    ensures s[0] == t[0]
  {
    var i :| 0 <= i < |s| && s[i] == t[0];
    var j :| 0 <= j < |t| && t[j] == s[0];
    assert le(s[0], s[i]) && le(t[0], t[j]);
  }

  lemma {:induction false} SameRest<T(!new)>(s: seq<T>, t: seq<T>)
    requires s != [] && t != [] && s[0] == t[0] && multiset(s) == multiset(t)
    ensures multiset(s[1..]) == multiset(t[1..])
  {
    assert s == [s[0]] + s[1..] && t == [t[0]] + t[1..];
    assert multiset(s[1..]) == multiset(s) - multiset{s[0]};
    assert multiset(t[1..]) == multiset(t) - multiset{t[0]};
  }

  /** Under an order without ties qsort has only one possible outcome. */
  lemma {:induction false} SortedPermutationIsUnique<T(!new)>(s: seq<T>, t: seq<T>, le: (T, T) -> bool)
    requires TotalPreorder(le) && Antisymmetric(le)
    requires multiset(s) == multiset(t) && Ascending(s, le) && Ascending(t, le)
    ensures s == t
  {
    SameElements(s, t);
    if s != [] {
      assert s[0] in t;
    }
    if t != [] {
      assert t[0] in s;
    }
    if s != [] && t != [] {
      SameFirst(s, t, le);
      SameRest(s, t);
      assert s == [s[0]] + s[1..] && t == [t[0]] + t[1..];
      SortedPermutationIsUnique(s[1..], t[1..], le);
    }
  }

  // ---- Filters over index ranges ----

  /** The indices below n that satisfy p, ascending: what every full-table scan collects. */
  ghost function Select(n: nat, p: nat -> bool): seq<nat> {
    if n == 0 then [] else if p(n - 1) then Select(n - 1, p) + [n - 1] else Select(n - 1, p)
  }

  lemma {:induction false} SelectIsFilter(n: nat, p: nat -> bool)
    ensures forall k :: k in Select(n, p) <==> 0 <= k < n && p(k)
    ensures forall i, j :: 0 <= i < j < |Select(n, p)| ==> Select(n, p)[i] < Select(n, p)[j]
  {
    if n > 0 {
      SelectIsFilter(n - 1, p);
      var front := Select(n - 1, p);
      forall i | 0 <= i < |front| ensures front[i] < n - 1 {
        assert front[i] in front;
      }
    }
  }
}
