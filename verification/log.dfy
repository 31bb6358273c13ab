/** The append log: the framing and the parser of src/backends/fce_backend_log.c. */
module Log {
  import opened Bytes
  import opened Records
  import opened Format

  /** A checksum of a byte string; the parser is right for any. */
  type Checksum = Bytes -> u64

  const MAGIC := 0x31_474f_4c45_4346

  // ---- One record: magic, lengths, key, value, checksum of all before ----

  function Head(p: Pair): (b: Bytes)
    ensures |b| == 24
  {
    Le(MAGIC, 8) + Le(|p.key|, 8) + Le(|p.value|, 8)
  }

  function Body(p: Pair): Bytes {
    Head(p) + p.key + p.value
  }

  function RecordBytes(p: Pair, sum: Checksum): (b: Bytes)
    ensures |b| == 32 + |p.key| + |p.value|
  {
    Body(p) + Le(sum(Body(p)), 8)
  }

  function Rows(recs: seq<Pair>, sum: Checksum): (rows: seq<Bytes>)
    ensures |rows| == |recs|
  {
    seq(|recs|, i requires 0 <= i < |recs| => RecordBytes(recs[i], sum))
  }

  /** The records end to end. */
  function LogBytes(recs: seq<Pair>, sum: Checksum): Bytes {
    Flatten(Rows(recs, sum))
  }

  // ---- The parser ----

  datatype Parsed = Parsed(loc: Loc, next: nat)

  /** The record at pos, when it is framed and summed right. */
  function ParseRecord(log: Bytes, pos: nat, sum: Checksum): (r: Option<Parsed>)
    requires pos + 32 <= |log|
    ensures r.Some? ==> pos + 32 <= r.value.next <= |log| && LocInRange(r.value.loc, |log|, |log|)
  {
    var magic, kl, vl := UnLe(log[pos..pos + 8]), UnLe(log[pos + 8..pos + 16]), UnLe(log[pos + 16..pos + 24]);
    if magic != MAGIC || kl > U32_MAX || vl > U32_MAX then None
    else if !RangeOk(pos + 24, kl, |log|) then None
    else if !RangeOk(pos + 24 + kl, vl, |log|) then None
    else
      var end := pos + 24 + kl + vl;
      if !RangeOk(end, 8, |log|) || sum(log[pos..end]) != UnLe(log[end..end + 8]) then None
      else Some(Parsed(Loc(pos + 24, kl, pos + 24 + kl, vl), end + 8))
  }

  /** What stands at each position of a file of the given size. */
  datatype Tape = Tape(size: nat, at: nat -> Option<Parsed>) {
    ghost predicate Advances() {
      forall pos: nat :: pos + 32 <= size && at(pos).Some? ==> pos < at(pos).value.next <= size
    }
  }

  function LogTape(log: Bytes, sum: Checksum): (t: Tape)
    ensures t.size == |log|
  {
    Tape(|log|, (pos: nat) => if pos + 32 <= |log| then ParseRecord(log, pos, sum) else None)
  }

  /** The rest of the file from pos on, of which order records have been read. */
  function ParseFrom(t: Tape, pos: nat, order: nat, count: nat): Result<seq<Loc>>
    requires t.Advances() && pos <= t.size
    decreases t.size - pos
  {
    if pos + 32 <= t.size then
      match t.at(pos)
      case None => Err(Corrupt)
      case Some(p) =>
        if order >= count then Err(Corrupt)
        else
          match ParseFrom(t, p.next, order + 1, count)
          case Err(status) => Err(status)
          case Ok(rest) => Ok([p.loc] + rest)
    else if pos != t.size || order != count then Err(Corrupt)
    else Ok([])
  }

  lemma {:induction false} LogTapeAdvances(log: Bytes, sum: Checksum)
    ensures LogTape(log, sum).Advances()
  {
  }

  /** One successful round of the parser. */
  lemma {:induction false} ParseRound(t: Tape, pos: nat, order: nat, count: nat, locs: seq<Loc>)
    requires t.Advances() && pos <= t.size && ParseFrom(t, pos, order, count) == Ok(locs)
    ensures pos + 32 > t.size ==> pos == t.size && order == count && locs == []
    ensures pos + 32 <= t.size ==>
      && t.at(pos).Some? && order < count && locs != [] && locs[0] == t.at(pos).value.loc
      && ParseFrom(t, t.at(pos).value.next, order + 1, count) == Ok(locs[1..])
  {
  }

  function ParseLog(log: Bytes, count: nat, sum: Checksum): Result<seq<Loc>> {
    LogTapeAdvances(log, sum);
    ParseFrom(LogTape(log, sum), 0, 0, count)
  }

  // ---- Printing and parsing are inverse ----

  /** The bytes of the first i records. */
  ghost function Start(recs: seq<Pair>, i: nat): nat
    requires i <= |recs|
  {
    if i == 0 then 0 else Start(recs, i - 1) + 32 + |recs[i - 1].key| + |recs[i - 1].value|
  }

  /** Where record i of a printed log lies. */
  ghost function LocOf(recs: seq<Pair>, i: nat): Loc
    requires i < |recs|
  {
    Loc(Start(recs, i) + 24, |recs[i].key|, Start(recs, i) + 24 + |recs[i].key|, |recs[i].value|)
  }

  ghost function LogLocs(recs: seq<Pair>): seq<Loc> {
    seq(|recs|, i requires 0 <= i < |recs| => LocOf(recs, i))
  }

  lemma {:induction false} StartIsLength(recs: seq<Pair>, i: nat, rows: seq<Bytes>)
    requires i <= |recs| == |rows| && forall j :: 0 <= j < |rows| ==> |rows[j]| == 32 + |recs[j].key| + |recs[j].value|
    ensures |Flatten(rows[..i])| == Start(recs, i)
  {
    if i > 0 {
      StartIsLength(recs, i - 1, rows);
      assert rows[..i][..i - 1] == rows[..i - 1];
    }
  }

  lemma {:induction false} FlattenSplit(rows: seq<Bytes>, i: nat) returns (tail: Bytes)
    requires i <= |rows|
    ensures Flatten(rows) == Flatten(rows[..i]) + tail
  {
    if i == |rows| {
      assert rows[..i] == rows;
      tail := [];
    } else {
      var front := rows[..|rows| - 1];
      var t := FlattenSplit(front, i);
      assert front[..i] == rows[..i];
      tail := t + rows[|rows| - 1];
    }
  }

  /** Row i of a concatenation is where the rows before it end. */
  lemma {:induction false} RowIn(rows: seq<Bytes>, i: nat)
    requires i < |rows|
    ensures var b, pos := Flatten(rows), |Flatten(rows[..i])|;
            && pos + |rows[i]| == |Flatten(rows[..i + 1])| <= |b|
            && b[pos..pos + |rows[i]|] == rows[i]
  {
    assert rows[..i + 1][..i] == rows[..i];
    var tail := FlattenSplit(rows, i + 1);
  }

  lemma {:induction false} SubSlice(b: Bytes, pos: nat, r: Bytes, i: nat, j: nat)
    requires i <= j <= |r| && pos + |r| <= |b| && b[pos..pos + |r|] == r
    ensures b[pos + i..pos + j] == r[i..j]
  {
    forall k | 0 <= k < j - i ensures b[pos + i..pos + j][k] == r[i..j][k] {
      assert b[pos..pos + |r|][i + k] == r[i + k];
    }
  }

  lemma {:induction false} FourParts(a: Bytes, b: Bytes, c: Bytes, d: Bytes)
    ensures var r := a + b + c + d; var i, j, k := |a|, |a| + |b|, |a| + |b| + |c|;
            r[..i] == a && r[i..j] == b && r[j..k] == c && r[k..] == d && r[..k] == a + b + c
  {
  }

  /** The fields of a header, read back. */
  lemma {:induction false} HeadRoundTrip(b: Bytes, pos: nat, p: Pair)
    requires pos + 24 <= |b| && b[pos..pos + 24] == Head(p)
    requires |p.key| <= MAX_FILE && |p.value| <= MAX_FILE
    ensures HeadAt(b, pos, |p.key|, |p.value|)
  {
    hide Le, UnLe;
    var h := Head(p);
    FourParts(Le(MAGIC, 8), Le(|p.key|, 8), Le(|p.value|, 8), []);
    assert h + [] == h && h[16..] == h[16..24];
    SubSlice(b, pos, h, 0, 8);
    SubSlice(b, pos, h, 8, 16);
    SubSlice(b, pos, h, 16, 24);
    Pow256Values();
    LeRoundTrip(MAGIC, 8);
    LeRoundTrip(|p.key|, 8);
    LeRoundTrip(|p.value|, 8);
  }

  /** The pieces of a record inside a file. */
  lemma {:induction false} RecordPieces(b: Bytes, pos: nat, p: Pair, sum: Checksum)
    requires pos + 32 + |p.key| + |p.value| <= |b|
    requires b[pos..pos + 32 + |p.key| + |p.value|] == RecordBytes(p, sum)
    ensures var end := pos + 24 + |p.key| + |p.value|;
            && b[pos..pos + 24] == Head(p)
            && b[pos + 24..pos + 24 + |p.key|] == p.key
            && b[pos + 24 + |p.key|..end] == p.value
            && b[pos..end] == Body(p)
            && b[end..end + 8] == Le(sum(Body(p)), 8)
  {
    var r := RecordBytes(p, sum);
    var k, e := 24 + |p.key|, 24 + |p.key| + |p.value|;
    FourParts(Head(p), p.key, p.value, Le(sum(Body(p)), 8));
    SubSlice(b, pos, r, 0, 24);
    SubSlice(b, pos, r, 24, k);
    SubSlice(b, pos, r, k, e);
    SubSlice(b, pos, r, 0, e);
    SubSlice(b, pos, r, e, |r|);
    assert r[e..|r|] == r[e..];
  }

  /** The three length-and-magic words at a position. */
  predicate HeadAt(b: Bytes, pos: nat, kl: nat, vl: nat)
    requires pos + 24 <= |b|
  {
    UnLe(b[pos..pos + 8]) == MAGIC && UnLe(b[pos + 8..pos + 16]) == kl && UnLe(b[pos + 16..pos + 24]) == vl
  }

  predicate SummedAt(b: Bytes, pos: nat, end: nat, sum: Checksum)
    requires pos <= end && end + 8 <= |b|
  {
    UnLe(b[end..end + 8]) == sum(b[pos..end])
  }

  lemma {:induction false} ParseFields(b: Bytes, pos: nat, kl: nat, vl: nat, sum: Checksum)
    requires pos + 32 + kl + vl <= |b| && HeadAt(b, pos, kl, vl) && SummedAt(b, pos, pos + 24 + kl + vl, sum)
    ensures ParseRecord(b, pos, sum) ==
            if kl <= U32_MAX && vl <= U32_MAX
              then Some(Parsed(Loc(pos + 24, kl, pos + 24 + kl, vl), pos + 32 + kl + vl)) else None
  {
  }

  lemma {:induction false} SumRoundTrip(b: Bytes, sum: Checksum)
    ensures UnLe(Le(sum(b), 8)) == sum(b)
  {
    Pow256Values();
    LeRoundTrip(sum(b), 8);
  }

  lemma {:induction false} PrintedFields(b: Bytes, pos: nat, p: Pair, sum: Checksum)
    requires |b| <= MAX_FILE && pos + 32 + |p.key| + |p.value| <= |b|
    requires b[pos..pos + 32 + |p.key| + |p.value|] == RecordBytes(p, sum)
    ensures HeadAt(b, pos, |p.key|, |p.value|) && SummedAt(b, pos, pos + 24 + |p.key| + |p.value|, sum)
  {
    RecordPieces(b, pos, p, sum);
    HeadRoundTrip(b, pos, p);
    SumRoundTrip(Body(p), sum);
  }

  /** A printed record parses to its own location, unless a length does not fit 32 bits. */
  lemma {:induction false} ParsePrinted(b: Bytes, pos: nat, p: Pair, sum: Checksum)
    requires |b| <= MAX_FILE && pos + 32 + |p.key| + |p.value| <= |b|
    requires b[pos..pos + 32 + |p.key| + |p.value|] == RecordBytes(p, sum)
    ensures ParseRecord(b, pos, sum) ==
            if Fits32(p) then Some(Parsed(Loc(pos + 24, |p.key|, pos + 24 + |p.key|, |p.value|),
              pos + 32 + |p.key| + |p.value|))
            else None
  {
    hide RecordBytes, ParseRecord, HeadAt, SummedAt;
    PrintedFields(b, pos, p, sum);
    ParseFields(b, pos, |p.key|, |p.value|, sum);
  }

  /** Record i of a printed log, as one row among rows. */
  lemma {:induction false} RecordInLog(recs: seq<Pair>, i: nat, sum: Checksum, b: Bytes, rows: seq<Bytes>)
    requires i < |recs| && rows == Rows(recs, sum) && b == Flatten(rows)
    ensures var pos, p := Start(recs, i), recs[i];
            pos + 32 + |p.key| + |p.value| <= |b| && b[pos..pos + 32 + |p.key| + |p.value|] == RecordBytes(p, sum)
    ensures Start(recs, i + 1) <= |b| == Start(recs, |recs|)
  {
    hide RecordBytes, Flatten;
    StartIsLength(recs, i, rows);
    StartIsLength(recs, i + 1, rows);
    StartIsLength(recs, |recs|, rows);
    assert rows[..|recs|] == rows;
    RowIn(rows, i);
  }

  /** Record j starts at starts[j] and parses when it fits. */
  ghost predicate Rowed(t: Tape, starts: seq<nat>, fits: seq<bool>, locs: seq<Loc>) {
    && |starts| == |locs| + 1 && |fits| == |locs| && starts[|locs|] == t.size
    && forall j :: 0 <= j < |locs| ==> RowAt(t, starts, fits, locs, j)
  }

  ghost predicate RowAt(t: Tape, starts: seq<nat>, fits: seq<bool>, locs: seq<Loc>, j: nat)
    requires |starts| == |locs| + 1 && |fits| == |locs| && j < |locs|
  {
    && starts[j] + 32 <= starts[j + 1] <= t.size
    && t.at(starts[j]) == if fits[j] then Some(Parsed(locs[j], starts[j + 1])) else None
  }

  ghost predicate AllTrue(s: seq<bool>) {
    forall j :: 0 <= j < |s| ==> s[j]
  }

  lemma {:induction false} AllTrueFrom(s: seq<bool>, i: nat)
    requires i < |s|
    ensures AllTrue(s[i..]) <==> s[i] && AllTrue(s[i + 1..])
  {
    assert s[i..] == [s[i]] + s[i + 1..];
  }

  lemma {:induction false} ParseRows(t: Tape, starts: seq<nat>, fits: seq<bool>, locs: seq<Loc>, i: nat)
    requires t.Advances() && Rowed(t, starts, fits, locs) && i <= |locs|
    ensures starts[i] <= t.size
    ensures ParseFrom(t, starts[i], i, |locs|) == if AllTrue(fits[i..]) then Ok(locs[i..]) else Err(Corrupt)
    decreases |locs| - i
  {
    if i < |locs| {
      assert RowAt(t, starts, fits, locs, i);
      ParseRows(t, starts, fits, locs, i + 1);
      AllTrueFrom(fits, i);
      assert locs[i..] == [locs[i]] + locs[i + 1..];
    }
  }

  ghost function Starts(recs: seq<Pair>): seq<nat> {
    seq(|recs| + 1, i requires 0 <= i <= |recs| => Start(recs, i))
  }

  ghost function Fits(recs: seq<Pair>): seq<bool> {
    seq(|recs|, i requires 0 <= i < |recs| => Fits32(recs[i]))
  }

  lemma {:induction false} RowAtPrinted(b: Bytes, pos: nat, p: Pair, sum: Checksum, starts: seq<nat>, fits: seq<bool>,
                                        locs: seq<Loc>, i: nat)
    requires |b| <= MAX_FILE && pos + 32 + |p.key| + |p.value| <= |b|
    requires b[pos..pos + 32 + |p.key| + |p.value|] == RecordBytes(p, sum)
    requires |starts| == |locs| + 1 && |fits| == |locs| && i < |locs|
    requires starts[i] == pos && starts[i + 1] == pos + 32 + |p.key| + |p.value| && fits[i] == Fits32(p)
    requires locs[i] == Loc(pos + 24, |p.key|, pos + 24 + |p.key|, |p.value|)
    ensures RowAt(LogTape(b, sum), starts, fits, locs, i)
  {
    ParsePrinted(b, pos, p, sum);
  }

  lemma {:induction false} PrintedRow(recs: seq<Pair>, sum: Checksum, b: Bytes, i: nat, rows: seq<Bytes>)
    requires rows == Rows(recs, sum) && b == Flatten(rows) && |b| <= MAX_FILE && i < |recs|
    ensures RowAt(LogTape(b, sum), Starts(recs), Fits(recs), LogLocs(recs), i)
  {
    RecordInLog(recs, i, sum, b, rows);
    RowAtPrinted(b, Start(recs, i), recs[i], sum, Starts(recs), Fits(recs), LogLocs(recs), i);
  }

  lemma {:induction false} PrintedRows(recs: seq<Pair>, sum: Checksum, b: Bytes, rows: seq<Bytes>)
    requires rows == Rows(recs, sum) && b == Flatten(rows) && |b| <= MAX_FILE
    ensures Rowed(LogTape(b, sum), Starts(recs), Fits(recs), LogLocs(recs))
  {
    StartIsLength(recs, |recs|, rows);
    assert rows[..|recs|] == rows;
    forall i | 0 <= i < |recs| ensures RowAt(LogTape(b, sum), Starts(recs), Fits(recs), LogLocs(recs), i) {
      PrintedRow(recs, sum, b, i, rows);
    }
  }

  /** What the printer writes, the parser accepts exactly when every length fits 32 bits (the writer
      does not check), and then it recovers exactly those records in order. */
  lemma {:induction false} LogRoundTrip(recs: seq<Pair>, sum: Checksum, b: Bytes)
    requires b == LogBytes(recs, sum) && |b| <= MAX_FILE
    ensures AllFit32(recs) ==> ParseLog(b, |recs|, sum).Ok? && Laid(ParseLog(b, |recs|, sum).value, b, b, recs)
    ensures !AllFit32(recs) ==> ParseLog(b, |recs|, sum) == Err(Corrupt)
  {
    var starts, fits, locs := Starts(recs), Fits(recs), LogLocs(recs);
    PrintedRows(recs, sum, b, Rows(recs, sum));
    LogTapeAdvances(b, sum);
    ParseRows(LogTape(b, sum), starts, fits, locs, 0);
    assert starts[0] == 0 && fits[0..] == fits && locs[0..] == locs;
    AllFitIsAllTrue(recs);
    PrintedIsLaid(recs, sum, b, Rows(recs, sum));
  }

  lemma {:induction false} AllFitIsAllTrue(recs: seq<Pair>)
    ensures AllFit32(recs) <==> AllTrue(Fits(recs))
  {
    if AllTrue(Fits(recs)) {
      forall i | 0 <= i < |recs| ensures Fits32(recs[i]) {
        assert Fits(recs)[i];
      }
    }
  }

  lemma {:induction false} PrintedIsLaid(recs: seq<Pair>, sum: Checksum, b: Bytes, rows: seq<Bytes>)
    requires rows == Rows(recs, sum) && b == Flatten(rows)
    ensures Laid(LogLocs(recs), b, b, recs)
  {
    hide Rows, Flatten, LocOf, LocInRange, PairAt;
    var locs := LogLocs(recs);
    forall i | 0 <= i < |locs| ensures LocInRange(locs[i], |b|, |b|) && PairAt(locs[i], b, b) == recs[i] {
      PrintedAt(recs, sum, b, rows, i);
    }
    assert Listed(locs, b, b) == recs;
  }

  lemma {:induction false} PrintedAt(recs: seq<Pair>, sum: Checksum, b: Bytes, rows: seq<Bytes>, i: nat)
    requires rows == Rows(recs, sum) && b == Flatten(rows) && i < |recs|
    ensures LocInRange(LocOf(recs, i), |b|, |b|) && PairAt(LocOf(recs, i), b, b) == recs[i]
  {
    hide RecordBytes, Rows, Flatten, Start, Head, Body;
    RecordInLog(recs, i, sum, b, rows);
    RecordPieces(b, Start(recs, i), recs[i], sum);
  }
}
