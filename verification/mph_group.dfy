/** Grouping the records by bucket: the counting sort of freeze_mph (src/backends/fce_backend_mph.c). */
module MphGroup {

  /** The records of bucket b, in record order. bk[i] is the bucket of record i. */
  ghost function Members(bk: seq<nat>, b: nat): seq<nat> {
    if bk == [] then []
    else
      var front := Members(bk[..|bk| - 1], b);
      if bk[|bk| - 1] == b then front + [|bk| - 1] else front
  }

  lemma {:induction false} MembersAreAscending(bk: seq<nat>, b: nat)
    ensures forall j :: 0 <= j < |Members(bk, b)| ==> Members(bk, b)[j] < |bk| && bk[Members(bk, b)[j]] == b
    ensures forall i, j :: 0 <= i < j < |Members(bk, b)| ==> Members(bk, b)[i] < Members(bk, b)[j]
  {
    if bk != [] {
      MembersAreAscending(bk[..|bk| - 1], b);
    }
  }

  ghost function Offset(bk: seq<nat>, b: nat): nat {
    if b == 0 then 0 else Offset(bk, b - 1) + |Members(bk, b - 1)|
  }

  lemma {:induction false} EveryRecordIsAMember(bk: seq<nat>, i: nat)
    requires i < |bk|
    ensures i in Members(bk, bk[i])
  {
    if i < |bk| - 1 {
      EveryRecordIsAMember(bk[..|bk| - 1], i);
    }
  }

  lemma {:induction false} MembersPrefix(bk: seq<nat>, i: nat, b: nat)
    requires i <= |bk|
    ensures Members(bk[..i], b) <= Members(bk, b)
  {
    if i < |bk| {
      MembersPrefix(bk[..|bk| - 1], i, b);
      assert bk[..|bk| - 1][..i] == bk[..i];
    } else {
      assert bk[..i] == bk;
    }
  }

  lemma {:induction false} MembersStep(bk: seq<nat>, i: nat, b: nat)
    requires i < |bk|
    ensures Members(bk[..i + 1], b) == Members(bk[..i], b) + (if bk[i] == b then [i] else [])
  {
    assert bk[..i + 1][..i] == bk[..i];
  }

  lemma {:induction false} OffsetMonotone(bk: seq<nat>, a: nat, b: nat)
    requires a <= b
    ensures Offset(bk, a) <= Offset(bk, b)
  {
    if a < b {
      OffsetMonotone(bk, a, b - 1);
    }
  }

  /** All buckets together hold every record: the last offset is the record count. */
  lemma {:induction false} OffsetsFill(bk: seq<nat>, n: nat)
    requires forall i :: 0 <= i < |bk| ==> bk[i] < n
    ensures Offset(bk, n) == |bk|
  {
    if bk == [] {
      EmptyOffset(bk, n);
    } else {
      var front := bk[..|bk| - 1];
      OffsetsFill(front, n);
      OffsetGrows(front, bk[|bk| - 1], n);
      assert bk == front + [bk[|bk| - 1]];
    }
  }

  lemma {:induction false} EmptyOffset(bk: seq<nat>, n: nat)
    requires bk == []
    ensures Offset(bk, n) == 0
  {
    if n > 0 {
      EmptyOffset(bk, n - 1);
    }
  }

  lemma {:induction false} OffsetGrows(bk: seq<nat>, x: nat, b: nat)
    ensures Offset(bk + [x], b) == Offset(bk, b) + (if x < b then 1 else 0)
  {
    if b > 0 {
      OffsetGrows(bk, x, b - 1);
      assert (bk + [x])[..|bk|] == bk;
    }
  }

  /** The first i records are filed, each bucket filling its own segment from the left. */
  ghost predicate Filed(bk: seq<nat>, n: nat, i: nat, pos: seq<nat>, items: seq<nat>) {
    && i <= |bk| == |items| && |pos| == n
    && forall b :: 0 <= b < n ==> FiledBucket(bk, i, b, pos[b], items)
  }

  ghost predicate FiledBucket(bk: seq<nat>, i: nat, b: nat, p: nat, items: seq<nat>)
    requires i <= |bk|
  {
    && Offset(bk, b) <= p <= |items|
    && items[Offset(bk, b)..p] == Members(bk[..i], b)
  }

  lemma {:induction false} FileOne(bk: seq<nat>, n: nat, i: nat, pos: seq<nat>, items: seq<nat>)
    requires forall k :: 0 <= k < |bk| ==> bk[k] < n
    requires Filed(bk, n, i, pos, items) && i < |bk|
    ensures pos[bk[i]] < |items|
    ensures Filed(bk, n, i + 1, pos[bk[i] := pos[bk[i]] + 1], items[pos[bk[i]] := i])
  {
    var h := bk[i];
    assert FiledBucket(bk, i, h, pos[h], items);
    SegmentBound(bk, n, i, h);
    MembersStep(bk, i, h);
    MembersPrefix(bk, i + 1, h);
    var items', pos' := items[pos[h] := i], pos[h := pos[h] + 1];
    assert items'[Offset(bk, h)..pos[h] + 1] == items[Offset(bk, h)..pos[h]] + [i];
    forall b | 0 <= b < n ensures FiledBucket(bk, i + 1, b, pos'[b], items') {
      if b != h {
        assert FiledBucket(bk, i, b, pos[b], items);
        OtherSegmentKept(bk, n, i, b, pos[b], items, pos[h]);
      }
    }
  }

  lemma {:induction false} OtherSegmentKept(bk: seq<nat>, n: nat, i: nat, b: nat, p: nat, items: seq<nat>, at: nat)
    requires forall k :: 0 <= k < |bk| ==> bk[k] < n
    requires i < |bk| && b < n && b != bk[i] && FiledBucket(bk, i, b, p, items)
    requires Offset(bk, bk[i]) <= at < Offset(bk, bk[i] + 1) && at < |items|
    ensures FiledBucket(bk, i + 1, b, p, items[at := i])
  {
    MembersStep(bk, i, b);
    SegmentBound(bk, n, i, b);
    if b < bk[i] {
      OffsetMonotone(bk, b + 1, bk[i]);
    } else {
      OffsetMonotone(bk, bk[i] + 1, b);
    }
    var lo := Offset(bk, b);
    assert p <= Offset(bk, b + 1);
    assert items[at := i][lo..p] == items[lo..p];
  }

  lemma {:induction false} SegmentBound(bk: seq<nat>, n: nat, i: nat, b: nat)
    requires forall k :: 0 <= k < |bk| ==> bk[k] < n
    requires i <= |bk| && b < n
    ensures Offset(bk, b) + |Members(bk, b)| == Offset(bk, b + 1) <= |bk|
    ensures |Members(bk[..i], b)| <= |Members(bk, b)|
  {
    OffsetsFill(bk, n);
    OffsetMonotone(bk, b + 1, n);
    MembersPrefix(bk, i, b);
  }

  /** Both arrays start at the running total of the sizes. */
  method StartOffsets(bk: seq<nat>, sizes: seq<nat>) returns (offsets: array<nat>, pos: array<nat>)
    requires forall b :: 0 <= b < |sizes| ==> sizes[b] == |Members(bk, b)|
    ensures fresh(offsets) && fresh(pos) && offsets != pos && offsets.Length == pos.Length == |sizes|
    ensures forall b :: 0 <= b < |sizes| ==> offsets[b] == pos[b] == Offset(bk, b)
  {
    hide Members;
    offsets, pos := new nat[|sizes|], new nat[|sizes|];
    var off := 0;
    for b := 0 to |sizes|
      invariant off == Offset(bk, b)
      invariant forall c :: 0 <= c < b ==> offsets[c] == pos[c] == Offset(bk, c)
    {
      offsets[b] := off;
      pos[b] := off;
      off := off + sizes[b];
    }
  }

  /** A stable counting sort: segment b of items lists exactly the records of bucket b. */
  method GroupByBucket(bk: seq<nat>, n: nat) returns (sizes: seq<nat>, offsets: seq<nat>, items: seq<nat>)
    requires forall i :: 0 <= i < |bk| ==> bk[i] < n
    ensures |sizes| == |offsets| == n && |items| == |bk|
    ensures forall b :: 0 <= b < n ==>
      sizes[b] == |Members(bk, b)| && offsets[b] == Offset(bk, b) && SegmentIsBucket(bk, b, items)
  {
    hide Members, Offset, SegmentIsBucket;
    var bucketSizes := CountSizes(bk, n);
    var bucketOffsets, bucketPos := StartOffsets(bk, bucketSizes);
    items := FillItems(bk, n, bucketPos);
    sizes, offsets := bucketSizes, bucketOffsets[..];
  }

  method CountSizes(bk: seq<nat>, n: nat) returns (sizes: seq<nat>)
    requires forall i :: 0 <= i < |bk| ==> bk[i] < n
    ensures |sizes| == n && forall b :: 0 <= b < n ==> sizes[b] == |Members(bk, b)|
  {
    var bucketSizes := new nat[n](_ => 0);
    for i := 0 to |bk|
      invariant forall b :: 0 <= b < n ==> bucketSizes[b] == |Members(bk[..i], b)|
    {
      forall b | 0 <= b < n ensures |Members(bk[..i + 1], b)| == |Members(bk[..i], b)| + (if bk[i] == b then 1 else 0) {
        MembersStep(bk, i, b);
      }
      bucketSizes[bk[i]] := bucketSizes[bk[i]] + 1;
    }
    assert bk[..|bk|] == bk;
    return bucketSizes[..];
  }

  method FillItems(bk: seq<nat>, n: nat, bucketPos: array<nat>) returns (items: seq<nat>)
    requires forall i :: 0 <= i < |bk| ==> bk[i] < n
    requires bucketPos.Length == n && forall b :: 0 <= b < n ==> bucketPos[b] == Offset(bk, b)
    modifies bucketPos
    ensures |items| == |bk|
    ensures forall b :: 0 <= b < n ==> SegmentIsBucket(bk, b, items)
  {
    hide Offset;
    var bucketItems := new nat[|bk|];
    OffsetsFill(bk, n);
    forall b | 0 <= b < n ensures FiledBucket(bk, 0, b, bucketPos[..][b], bucketItems[..]) {
      OffsetMonotone(bk, b, n);
    }
    for i := 0 to |bk|
      invariant Filed(bk, n, i, bucketPos[..], bucketItems[..])
    {
      FileOne(bk, n, i, bucketPos[..], bucketItems[..]);
      bucketItems[bucketPos[bk[i]]] := i;
      bucketPos[bk[i]] := bucketPos[bk[i]] + 1;
    }
    items := bucketItems[..];
    forall b | 0 <= b < n ensures SegmentIsBucket(bk, b, items) {
      assert FiledBucket(bk, |bk|, b, bucketPos[..][b], items);
      assert bk[..|bk|] == bk;
    }
  }

  ghost predicate SegmentIsBucket(bk: seq<nat>, b: nat, items: seq<nat>) {
    && Offset(bk, b) + |Members(bk, b)| <= |items|
    && items[Offset(bk, b)..Offset(bk, b) + |Members(bk, b)|] == Members(bk, b)
  }
}
