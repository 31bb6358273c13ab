/** The rle codec: src/codecs/fce_codecs.c lines 42-61 and 132-156. */
module Rle {
  import opened Bytes
  import opened Words

  /** A run starting at the front: equal values, at most INT32_MAX of them. */
  function RunLength(xs: seq<i32>): (k: nat)
    requires xs != []
    ensures 1 <= k <= |xs| && k <= INT32_MAX
    ensures forall i :: 0 <= i < k ==> xs[i] == xs[0]
    ensures k < |xs| && k < INT32_MAX ==> xs[k] != xs[0]
  {
    RunFrom(xs, 1)
  }

  function RunFrom(xs: seq<i32>, j: nat): (k: nat)
    requires 1 <= j <= |xs| && j <= INT32_MAX
    requires forall i :: 0 <= i < j ==> xs[i] == xs[0]
    ensures j <= k <= |xs| && k <= INT32_MAX
    ensures forall i :: 0 <= i < k ==> xs[i] == xs[0]
    ensures k < |xs| && k < INT32_MAX ==> xs[k] != xs[0]
    decreases |xs| - j
  {
    if j < |xs| && xs[j] == xs[0] && j < INT32_MAX then RunFrom(xs, j + 1) else j
  }

  /** value, count, value, count, ... */
  function Runs(xs: seq<i32>): (ps: seq<i32>)
    ensures |ps| % 2 == 0 && |ps| <= 2 * |xs|
    decreases |xs|
  {
    if xs == [] then []
    else
      var k := RunLength(xs);
      [xs[0], k] + Runs(xs[k..])
  }

  function RleEncode(xs: seq<i32>): seq<i32> {
    [Signed(ToU32(|xs|))] + Runs(xs)
  }

  function Copies(v: i32, c: nat): seq<i32> {
    seq(c, _ => v)
  }

  /** The values the pairs spell, when their counts are not negative and stay within room. */
  function Expand(ps: seq<i32>, room: nat): (r: Option<seq<i32>>)
    ensures r.Some? ==> |r.value| <= room
    decreases |ps|
  {
    if |ps| < 2 then Some([])
    else
      var (v, c) := (ps[0], ps[1]);
      if c < 0 || c > room then None
      else
        match Expand(ps[2..], room - c)
        case None => None
        case Some(rest) => Some(Copies(v, c) + rest)
  }

  /** A count word, then pairs. A negative count asks for more memory than there is. */
  function RleDecode(ws: seq<i32>): Result<seq<i32>> {
    if |ws| % 2 == 0 then Err(Corrupt)
    else if ws[0] < 0 then Err(OutOfMemory)
    else
      match Expand(ws[1..], ws[0])
      case None => Err(Corrupt)
      case Some(xs) => if |xs| == ws[0] then Ok(xs) else Err(Corrupt)
  }

  /** The inner loop: the end of the run that starts at i. */
  method ScanRun(xs: seq<i32>, i: nat) returns (j: nat)
    requires i < |xs|
    ensures j == i + RunLength(xs[i..])
  {
    var v := xs[i];
    ghost var rest := xs[i..];
    j := i + 1;
    while j < |xs| && xs[j] == v && j - i < INT32_MAX
      invariant i < j <= |xs| && j - i <= INT32_MAX
      invariant forall k :: 0 <= k < j - i ==> rest[k] == v
      invariant RunLength(rest) == RunFrom(rest, j - i)
    {
      assert rest[j - i] == xs[j];
      j := j + 1;
    }
    assert j < |xs| ==> rest[j - i] == xs[j];
  }

  lemma {:induction false} CountFirst(xs: seq<i32>)
    ensures RleEncode(xs) == [Signed(ToU32(|xs|))] + Runs(xs[0..])
  {
    assert xs[0..] == xs;
  }

  lemma {:induction false} RunsEnd(xs: seq<i32>, done: seq<i32>)
    ensures done + Runs(xs[|xs|..]) == done
  {
  }

  lemma {:induction false} RunsStep(xs: seq<i32>, i: nat, j: nat, done: seq<i32>)
    requires i < |xs| && j == i + RunLength(xs[i..])
    ensures done + Runs(xs[i..]) == done + [xs[i], j - i] + Runs(xs[j..])
  {
    assert xs[i..][j - i..] == xs[j..];
    assert Runs(xs[i..]) == [xs[i], j - i] + Runs(xs[j..]);
  }

  method PutPair(tmp: array<i32>, w: nat, v: i32, c: i32)
    requires w + 2 <= tmp.Length
    modifies tmp
    ensures tmp[..w + 2] == old(tmp[..w]) + [v, c]
  {
    tmp[w] := v;
    tmp[w + 1] := c;
  }

  method EncodeRle(xs: seq<i32>) returns (ws: seq<i32>)
    ensures ws == RleEncode(xs)
  {
    hide Runs, RunLength, RleEncode;
    var n := |xs|;
    var tmp := new i32[2 + n * 2];
    tmp[0] := Signed(ToU32(n));
    CountFirst(xs);
    assert tmp[..1] == [tmp[0]];
    var w, i := 1, 0;
    while i < n
      invariant 0 <= i <= n && 1 <= w <= 1 + 2 * i
      invariant RleEncode(xs) == tmp[..w] + Runs(xs[i..])
    {
      var j := ScanRun(xs, i);
      RunsStep(xs, i, j, tmp[..w]);
      PutPair(tmp, w, xs[i], j - i);
      w := w + 2;
      i := j;
    }
    RunsEnd(xs, tmp[..w]);
    return tmp[..w];
  }

  /** Write c copies of v from position w on. */
  method CopyRun(out: array<i32>, w: nat, v: i32, c: nat)
    requires w + c <= out.Length
    modifies out
    ensures out[..w + c] == old(out[..w]) + Copies(v, c)
  {
    for j := 0 to c
      invariant out[..w] == old(out[..w])
      invariant forall k :: w <= k < w + j ==> out[k] == v
    {
      out[w + j] := v;
    }
  }

  method DecodeRle(ws: seq<i32>) returns (r: Result<seq<i32>>)
    requires |ws| % 2 == 1
    ensures r == RleDecode(ws)
  {
    hide Expand, Copies;
    var pairs := |ws| / 2;
    if ws[0] < 0 {
      return Err(OutOfMemory);
    }
    var n := ws[0];
    var out := new i32[n];
    var w := 0;
    ghost var all := Expand(ws[1..], n);
    PendingStart(all, out[..0]);
    for i := 0 to pairs
      invariant 0 <= w <= n
      invariant Pending(all, out[..w], Expand(ws[1 + 2 * i..], n - w))
    {
      var v, c := ws[1 + i * 2], ws[2 + i * 2];
      ExpandPair(ws, 1 + 2 * i, n - w);
      if c < 0 || w + c > n {
        return Err(Corrupt);
      }
      PendingStep(all, out[..w], Copies(v, c), Expand(ws[1 + 2 * (i + 1)..], n - w - c));
      CopyRun(out, w, v, c);
      w := w + c;
    }
    NoPairLeft(ws[1 + 2 * pairs..], n - w);
    if w != n {
      return Err(Corrupt);
    }
    assert out[..w] == out[..] && out[..w] + [] == out[..w];
    return Ok(out[..]);
  }

  lemma {:induction false} NoPairLeft(ps: seq<i32>, room: nat)
    requires |ps| < 2
    ensures Expand(ps, room) == Some([])
  {
  }

  lemma {:induction false} ExpandPair(ws: seq<i32>, at: nat, room: nat)
    requires at + 2 <= |ws|
    ensures Expand(ws[at..], room) ==
            if ws[at + 1] < 0 || ws[at + 1] > room then None
            else match Expand(ws[at + 2..], room - ws[at + 1])
                 case None => None
                 case Some(rest) => Some(Copies(ws[at], ws[at + 1]) + rest)
  {
    assert ws[at..][2..] == ws[at + 2..];
  }

  /** What is written so far followed by what the rest spells is the whole. */
  ghost predicate Pending(all: Option<seq<i32>>, done: seq<i32>, rest: Option<seq<i32>>) {
    all == (match rest case None => None case Some(xs) => Some(done + xs))
  }

  lemma {:induction false} PendingStart(all: Option<seq<i32>>, none: seq<i32>)
    requires none == []
    ensures Pending(all, none, all)
  {
    if all.Some? {
      assert none + all.value == all.value;
    }
  }

  lemma {:induction false} PendingStep(all: Option<seq<i32>>, done: seq<i32>, run: seq<i32>, rest: Option<seq<i32>>)
    requires Pending(all, done, match rest case None => None case Some(xs) => Some(run + xs))
    ensures Pending(all, done + run, rest)
  {
    if rest.Some? {
      assert done + (run + rest.value) == done + run + rest.value;
    }
  }

  lemma {:induction false} ExpandRuns(xs: seq<i32>, room: nat)
    ensures Expand(Runs(xs), room) == if |xs| <= room then Some(xs) else None
    decreases |xs|
  {
    hide RunLength, Copies, Runs, Expand;
    FrontRun(xs, room);
    if xs != [] && RunLength(xs) <= room {
      ExpandRuns(xs[RunLength(xs)..], room - RunLength(xs));
    }
  }

  /** One run is expanded first. */
  lemma {:induction false} FrontRun(xs: seq<i32>, room: nat)
    ensures xs == [] ==> Expand(Runs(xs), room) == Some([])
    ensures xs != [] ==>
      var k := RunLength(xs);
      && xs == Copies(xs[0], k) + xs[k..] && |Copies(xs[0], k)| == k
      && Expand(Runs(xs), room) ==
        if k > room then None
        else
          match Expand(Runs(xs[k..]), room - k)
          case None => None
          case Some(rest) => Some(Copies(xs[0], k) + rest)
  {
    hide RunLength, Copies, Runs, Expand;
    if xs == [] {
      NoRuns(room);
    } else {
      RunsStart(xs);
      RunIsCopies(xs);
      var ps := Runs(xs);
      assert ps[0..] == ps && ps[2..] == Runs(xs[RunLength(xs)..]);
      ExpandPair(ps, 0, room);
    }
  }

  lemma {:induction false} NoRuns(room: nat)
    ensures Runs([]) == [] && Expand([], room) == Some([])
  {
    NoPairLeft([], room);
  }

  lemma {:induction false} RunsStart(xs: seq<i32>)
    requires xs != []
    ensures Runs(xs) == [xs[0], RunLength(xs)] + Runs(xs[RunLength(xs)..])
  {
  }

  lemma {:induction false} RunIsCopies(xs: seq<i32>)
    requires xs != []
    ensures var k := RunLength(xs); xs == Copies(xs[0], k) + xs[k..] && |Copies(xs[0], k)| == k
  {
    hide RunFrom;
  }

  /** The round trip holds exactly when the count survives its cast to int32_t. */
  lemma {:induction false} RleRoundTrip(xs: seq<i32>)
    ensures RleDecode(RleEncode(xs)) == Ok(xs) <==> |xs| <= INT32_MAX
  {
    var ws := RleEncode(xs);
    assert ws[1..] == Runs(xs);
    if ws[0] >= 0 {
      ExpandRuns(xs, ws[0]);
    }
  }

  /** Past INT32_MAX elements the count word wraps, and the decoder refuses what the encoder wrote. */
  lemma {:induction false} RleOverflowRefused(xs: seq<i32>)
    requires |xs| > INT32_MAX
    ensures RleDecode(RleEncode(xs)).Err?
  {
    var ws := RleEncode(xs);
    assert ws[1..] == Runs(xs);
    if ws[0] >= 0 {
      ExpandRuns(xs, ws[0]);
    }
  }

  /** Whatever the count word says, the pairs alone determine the array. */
  lemma {:induction false} RleInjective(xs: seq<i32>, ys: seq<i32>)
    requires RleEncode(xs) == RleEncode(ys)
    ensures xs == ys
  {
    assert Runs(xs) == RleEncode(xs)[1..] && Runs(ys) == RleEncode(ys)[1..];
    var room := |xs| + |ys|;
    ExpandRuns(xs, room);
    ExpandRuns(ys, room);
  }
}
