/** The delta_i32 codec: src/codecs/fce_codecs.c lines 21-41 and 111-131. */
module Delta {
  import opened Bytes
  import opened Words

  /** The difference of two elements as a 64-bit integer. */
  function Gap(from: i32, to: i32): int {
    to as int - from as int
  }

  /** What is stored at position i: the first value, then differences. */
  function StepAt(xs: seq<i32>, i: nat): int
    requires i < |xs|
  {
    if i == 0 then xs[0] else Gap(xs[i - 1], xs[i])
  }

  predicate StepsFit(xs: seq<i32>) {
    forall i :: 0 <= i < |xs| ==> FitsI32(StepAt(xs, i))
  }

  function Differences(xs: seq<i32>): (ds: seq<i32>)
    requires StepsFit(xs)
  {
    seq(|xs|, i requires 0 <= i < |xs| => StepAt(xs, i))
  }

  /** The running sum before position k. */
  function Total(ds: seq<i32>, k: nat): int
    requires k <= |ds|
  {
    if k == 0 then 0 else Total(ds, k - 1) + ds[k - 1]
  }

  predicate SumsFit(ds: seq<i32>) {
    forall k :: 0 <= k <= |ds| ==> FitsI32(Total(ds, k))
  }

  function Sums(ds: seq<i32>): seq<i32>
    requires SumsFit(ds)
  {
    seq(|ds|, i requires 0 <= i < |ds| => Total(ds, i + 1))
  }

  function DeltaEncode(xs: seq<i32>): Result<seq<i32>> {
    if StepsFit(xs) then Ok(Differences(xs)) else Err(InvalidArgument)
  }

  function DeltaDecode(ds: seq<i32>): Result<seq<i32>> {
    if SumsFit(ds) then Ok(Sums(ds)) else Err(Corrupt)
  }

  method EncodeDelta(xs: seq<i32>) returns (r: Result<seq<i32>>)
    ensures r == DeltaEncode(xs)
  {
    var n := |xs|;
    var out := new i32[n];
    if n > 0 {
      out[0] := xs[0];
      for i := 1 to n
        invariant forall j :: 0 <= j < i ==> FitsI32(StepAt(xs, j)) && out[j] == StepAt(xs, j)
      {
        var d: int := xs[i] as int - xs[i - 1] as int;
        assert d == StepAt(xs, i);
        if d < -0x8000_0000 || d > INT32_MAX {
          assert !StepsFit(xs);
          return Err(InvalidArgument);
        }
        out[i] := d;
      }
    }
    assert StepsFit(xs);
    assert out[..] == Differences(xs);
    return Ok(out[..]);
  }

  method DecodeDelta(ds: seq<i32>) returns (r: Result<seq<i32>>)
    ensures r == DeltaDecode(ds)
  {
    var n := |ds|;
    var out := new i32[n];
    if n > 0 {
      out[0] := ds[0];
      assert Total(ds, 0) == 0 && Total(ds, 1) == ds[0];
      for i := 1 to n
        invariant forall k :: 0 <= k <= i ==> FitsI32(Total(ds, k))
        invariant forall j :: 0 <= j < i ==> out[j] == Total(ds, j + 1)
      {
        var v: int := out[i - 1] as int + ds[i] as int;
        assert v == Total(ds, i + 1);
        if v < -0x8000_0000 || v > INT32_MAX {
          assert !FitsI32(Total(ds, i + 1));
          return Err(Corrupt);
        }
        out[i] := v;
      }
    }
    assert SumsFit(ds) && out[..] == Sums(ds);
    return Ok(out[..]);
  }

  lemma {:induction false} TotalOfDifferences(xs: seq<i32>, ds: seq<i32>, k: nat)
    requires StepsFit(xs) && ds == Differences(xs) && k <= |xs|
    ensures Total(ds, k) == if k == 0 then 0 else xs[k - 1]
  {
    if k > 0 {
      TotalOfDifferences(xs, ds, k - 1);
      assert ds[k - 1] == StepAt(xs, k - 1);
    }
  }

  lemma {:induction false} DecodeUndoesEncode(xs: seq<i32>, ds: seq<i32>)
    requires StepsFit(xs) && ds == Differences(xs)
    ensures SumsFit(ds) && Sums(ds) == xs
  {
    forall k | 0 <= k <= |ds| ensures FitsI32(Total(ds, k)) {
      TotalOfDifferences(xs, ds, k);
    }
    forall i | 0 <= i < |ds| ensures Sums(ds)[i] == xs[i] {
      TotalOfDifferences(xs, ds, i + 1);
    }
  }

  lemma {:induction false} EncodeUndoesDecode(xs: seq<i32>, ds: seq<i32>)
    requires SumsFit(ds) && xs == Sums(ds)
    ensures StepsFit(xs) && Differences(xs) == ds
  {
    forall i | 0 <= i < |xs| ensures StepAt(xs, i) == ds[i] {
      assert xs[i] == Total(ds, i + 1) == Total(ds, i) + ds[i];
      assert i > 0 ==> xs[i - 1] == Total(ds, i);
    }
    assert Differences(xs) == ds;
  }

  /** Encode and decode are mutually inverse partial maps: each accepts exactly the other's outputs,
      so the overflow checks reject exactly the arrays that have no counterpart. */
  lemma {:induction false} DeltaInverse(xs: seq<i32>, ds: seq<i32>)
    ensures DeltaEncode(xs) == Ok(ds) <==> DeltaDecode(ds) == Ok(xs)
  {
    if DeltaEncode(xs) == Ok(ds) {
      DecodeUndoesEncode(xs, ds);
    }
    if DeltaDecode(ds) == Ok(xs) {
      EncodeUndoesDecode(xs, ds);
    }
  }
}
