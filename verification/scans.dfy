/** Scans and iterators: src/api/fce_reader_api.c lines 226-457. */
module Scans {
  import opened Bytes
  import opened Sorting
  import opened Records
  import opened Format
  import opened SortedIndex
  import opened RadixTrie
  import opened RadixFlat
  import opened RadixScan
  import opened DirectTable
  import opened Mph
  import opened Codecs
  import opened Log
  import opened Schemas
  import opened Validation
  import opened Reader
  import opened ReaderGet

  function SortedCells(index: Bytes): seq<Option<Loc>> {
    var e := SortedEntries(index);
    seq(|e|, i requires 0 <= i < |e| => Some(e[i].loc))
  }

  function RadixCells(index: Bytes): seq<Option<Loc>>
    requires RadixLaidOut(index)
  {
    var v := RadixSections(index).values;
    seq(|v|, i requires 0 <= i < |v| => Some(v[i]))
  }

  function DirectCells(index: Bytes): seq<Option<Loc>> {
    var s := DirectSlots(index);
    seq(|s|, i requires 0 <= i < |s| => if s[i].present then Some(s[i].loc) else None)
  }

  function MphCells(index: Bytes): seq<Option<Loc>>
    requires MphLaidOut(index)
  {
    var s := MphSections(index).slots;
    seq(|s|, i requires 0 <= i < |s| => if s[i].present then Some(s[i].loc) else None)
  }

  /** The table that iterators index: sorted entries, radix values or slots. An empty slot has no place. */
  function Cells(r: OpenReader): seq<Option<Loc>>
    requires StructureOk(r.cache)
  {
    match r.cache.manifest.schema.backend
    case SortedBackend => SortedCells(r.cache.index)
    case RadixBackend => RadixCells(r.cache.index)
    case DirectBackend => DirectCells(r.cache.index)
    case MphBackend => MphCells(r.cache.index)
    case LogBackend => []
  }

  ghost predicate CellsInRange(cells: seq<Option<Loc>>, keys: Bytes, values: Bytes) {
    forall i :: 0 <= i < |cells| && cells[i].Some? ==> LocInRange(cells[i].value, |keys|, |values|)
  }

  /** Validation has already put every occupied cell in range. */
  lemma {:induction false} ValidatedCells(r: OpenReader)
    requires StructureOk(r.cache)
    ensures CellsInRange(Cells(r), r.cache.keys, r.cache.values)
  {
    hide RadixLaidOut, MphLaidOut, RadixSections, MphSections, DirectSlots, SortedEntries, NodesOk, SafeIndex, Present,
      RadixHeaderOf, MphHeaderOf, LocInRange;
    var c, cells := r.cache, Cells(r);
    forall i | 0 <= i < |cells| && cells[i].Some? ensures LocInRange(cells[i].value, |c.keys|, |c.values|) {
      if c.manifest.schema.backend == SortedBackend {
        assert LocInRange(Locs(SortedEntries(c.index))[i], |c.keys|, |c.values|);
      }
    }
  }

  /** The occupied cells at the given positions. */
  ghost predicate Occupied(cells: seq<Option<Loc>>, matches: seq<nat>) {
    forall k :: 0 <= k < |matches| ==> matches[k] < |cells| && cells[matches[k]].Some?
  }

  ghost function Listing(cells: seq<Option<Loc>>, matches: seq<nat>, keys: Bytes, values: Bytes): seq<Pair>
    requires Occupied(cells, matches) && CellsInRange(cells, keys, values)
  {
    seq(|matches|, k requires 0 <= k < |matches| => PairAt(cells[matches[k]].value, keys, values))
  }

  // ---- The iterator ----

  function Item(cell: Option<Loc>, keys: Bytes, values: Bytes, vc: Codec): Result<Pair> {
    match cell
    case None => Err(Corrupt)
    case Some(loc) =>
      if !LocInRange(loc, |keys|, |values|) then Err(Corrupt)
      else
        var p := PairAt(loc, keys, values);
        match ReadValue(vc, p.value)
        case Err(status) => Err(status)
        case Ok(v) => Ok(Pair(p.key, v))
  }

  class Iterator {
    const reader: OpenReader
    var matches: seq<nat>
    var pos: nat

    constructor (reader: OpenReader, matches: seq<nat>)
      ensures this.reader == reader && this.matches == matches && pos == 0
    {
      this.reader, this.matches, this.pos := reader, matches, 0;
    }

    /** Every position is an index into the backend's table. */
    ghost predicate Valid()
      reads this
    {
      StructureOk(reader.cache) && forall k :: 0 <= k < |matches| ==> matches[k] < |Cells(reader)|
    }

    /** fce_iterator_next: the next match with its key as stored and its value decoded. A match that
        fails is passed over all the same. */
    method Next() returns (r: Result<Pair>)
      requires Valid()
      modifies this`pos
      ensures Valid()
      ensures old(pos) >= |matches| ==> r == Err(NotFound) && pos == old(pos)
      ensures old(pos) < |matches| ==>
        && pos == old(pos) + 1
        && r == Item(Cells(reader)[matches[old(pos)]], reader.cache.keys, reader.cache.values,
          reader.cache.manifest.schema.valueCodec)
    {
      if pos >= |matches| {
        return Err(NotFound);
      }
      var cell := Cells(reader)[matches[pos]];
      pos := pos + 1;
      if cell.None? || !LocInRange(cell.value, |reader.cache.keys|, |reader.cache.values|) {
        return Err(Corrupt);
      }
      var p := PairAt(cell.value, reader.cache.keys, reader.cache.values);
      if PassThrough(reader.cache.manifest.schema.valueCodec) {
        return Ok(p);
      }
      var v := FceCodecDecode(reader.cache.manifest.schema.valueCodec, p.value);
      match v {
        case Err(status) => return Err(status);
        case Ok(value) => return Ok(Pair(p.key, value));
      }
    }
  }

  // ---- What a scan finds ----

  /** Exactly the records whose key is wanted, each once. */
  ghost predicate Finds(listing: seq<Pair>, recs: seq<Pair>, want: Bytes -> bool) {
    && DistinctKeys(listing)
    && forall p :: p in listing <==> p in recs && want(p.key)
  }

  ghost predicate ScanFinds(r: OpenReader, matches: seq<nat>, recs: seq<Pair>, want: Bytes -> bool)
    requires StructureOk(r.cache)
  {
    && Occupied(Cells(r), matches) && CellsInRange(Cells(r), r.cache.keys, r.cache.values)
    && Finds(Listing(Cells(r), matches, r.cache.keys, r.cache.values), recs, want)
  }

  /** The occupied positions, ascending. */
  ghost function OccupiedCells(cells: seq<Option<Loc>>): seq<nat> {
    Select(|cells|, i => 0 <= i < |cells| && cells[i].Some?)
  }

  /** fce_reader_scan_all. */
  method ScanAll(r: OpenReader) returns (it: Result<Iterator>)
    requires StructureOk(r.cache)
    ensures r.cache.manifest.schema.backend == LogBackend ==> it == Err(Unsupported)
    ensures r.cache.manifest.schema.backend != LogBackend ==>
      it.Ok? && fresh(it.value) && it.value.Valid() && it.value.reader == r && it.value.pos == 0
        && it.value.matches == OccupiedCells(Cells(r))
  {
    hide StructureOk, Cells;
    if r.cache.manifest.schema.backend == LogBackend {
      return Err(Unsupported);
    }
    var cells := Cells(r);
    ghost var here := (i: nat) => 0 <= i < |cells| && cells[i].Some?;
    var matches: seq<nat> := [];
    for i := 0 to |cells|
      invariant matches == Select(i, here)
      invariant forall k :: 0 <= k < |matches| ==> matches[k] < i
    {
      if cells[i].Some? {
        matches := matches + [i];
      }
    }
    SelectSame(|cells|, here, i => 0 <= i < |cells| && cells[i].Some?);
    var iter := new Iterator(r, matches);
    return Ok(iter);
  }

  // ---- Full scans list every record once ----

  ghost predicate AllOccupied(cells: seq<Option<Loc>>) {
    forall i :: 0 <= i < |cells| ==> cells[i].Some?
  }

  ghost function UpTo(n: nat): seq<nat> {
    seq(n, i => i)
  }

  lemma {:induction false} SelectAll(n: nat, p: nat -> bool)
    requires forall i: nat :: i < n ==> p(i)
    ensures Select(n, p) == UpTo(n)
  {
    if n > 0 {
      SelectAll(n - 1, p);
      assert UpTo(n) == UpTo(n - 1) + [n - 1];
    }
  }

  /** A table without gaps over the given locations. */
  lemma {:induction false} GaplessListing(cells: seq<Option<Loc>>, locs: seq<Loc>, keys: Bytes, values: Bytes)
    requires |cells| == |locs| && InRange(locs, keys, values)
    requires forall i :: 0 <= i < |cells| ==> cells[i] == Some(locs[i])
    ensures AllOccupied(cells) && OccupiedCells(cells) == UpTo(|cells|) && CellsInRange(cells, keys, values)
    ensures Occupied(cells, UpTo(|cells|))
    ensures Listing(cells, UpTo(|cells|), keys, values) == Listed(locs, keys, values)
  {
    SelectAll(|cells|, i => 0 <= i < |cells| && cells[i].Some?);
  }

  lemma {:induction false} DirectListing(r: OpenReader, recs: seq<Pair>)
    requires StructureOk(r.cache) && r.cache.manifest.schema.backend == DirectBackend
    requires DirectImage(IndexPart(r.cache), recs)
    ensures ScanFinds(r, OccupiedCells(Cells(r)), recs, _ => true)
  {
    var c, cells := r.cache, Cells(r);
    var slots := DirectSlots(c.index);
    SelectSame(|slots|, i => 0 <= i < |cells| && cells[i].Some?, s => 0 <= s < |slots| && slots[s].present);
    SelectIsFilter(|slots|, s => 0 <= s < |slots| && slots[s].present);
    ValidatedCells(r);
    var present := Present(slots);
    assert OccupiedCells(cells) == present;
    forall k | 0 <= k < |present| ensures present[k] < |cells| && cells[present[k]] == Some(PresentLocs(slots)[k]) {
      assert present[k] in present;
    }
    assert Listing(cells, present, c.keys, c.values) == Listed(PresentLocs(slots), c.keys, c.values);
  }

  lemma {:induction false} SortedListing(r: OpenReader, recs: seq<Pair>, hash: Hasher)
    requires StructureOk(r.cache) && r.cache.manifest.schema.backend == SortedBackend
    requires SortedImage(IndexPart(r.cache), recs, hash)
    ensures Gapless(r, recs)
  {
    var c := r.cache;
    GaplessListing(Cells(r), Locs(SortedEntries(c.index)), c.keys, c.values);
  }

  lemma {:induction false} RadixListing(r: OpenReader, recs: seq<Pair>)
    requires StructureOk(r.cache) && r.cache.manifest.schema.backend == RadixBackend
    requires RadixImage(IndexPart(r.cache), recs)
    ensures Gapless(r, recs)
    ensures Listing(Cells(r), UpTo(|Cells(r)|), r.cache.keys, r.cache.values) == recs
  {
    var c := r.cache;
    IncreasingIsDistinct(recs);
    GaplessListing(Cells(r), RadixSections(c.index).values, c.keys, c.values);
  }

  lemma {:induction false} MphListing(r: OpenReader, recs: seq<Pair>, hash: Hasher, sh: SlotHasher)
    requires StructureOk(r.cache) && r.cache.manifest.schema.backend == MphBackend
    requires MphImage(IndexPart(r.cache), recs, hash, sh)
    ensures Gapless(r, recs)
  {
    var c := r.cache;
    GaplessListing(Cells(r), SlotLocs(MphSections(c.index).slots), c.keys, c.values);
  }

  /** Every cell is occupied, and the cells in order are the records in some order. */
  ghost predicate Gapless(r: OpenReader, recs: seq<Pair>)
    requires StructureOk(r.cache)
  {
    var cells := Cells(r);
    && AllOccupied(cells) && OccupiedCells(cells) == UpTo(|cells|)
    && CellsInRange(cells, r.cache.keys, r.cache.values)
    && Occupied(cells, UpTo(|cells|))
    && SameRecords(Listing(cells, UpTo(|cells|), r.cache.keys, r.cache.values), recs)
  }

  /** On the files of a frozen index a full scan lists every record exactly once. */
  lemma {:induction false} FullScanFindsAll(r: OpenReader, recs: seq<Pair>, hash: Hasher, sh: SlotHasher, sum: Checksum)
    requires StructureOk(r.cache) && r.cache.manifest.schema.backend != LogBackend && Serves(r, recs, hash, sh, sum)
    ensures ScanFinds(r, OccupiedCells(Cells(r)), recs, _ => true)
  {
    hide StructureOk, Cells, SortedImage, RadixImage, DirectImage, MphImage;
    match r.cache.manifest.schema.backend {
      case SortedBackend => SortedListing(r, recs, hash);
      case RadixBackend => RadixListing(r, recs);
      case DirectBackend => DirectListing(r, recs);
      case MphBackend => MphListing(r, recs, hash, sh);
    }
  }

  // ---- Selective scans ----

  /** Picking positions of a gapless table by their keys. */
  lemma {:induction false} PickedRecords(r: OpenReader, recs: seq<Pair>, matches: seq<nat>, want: Bytes -> bool)
    requires StructureOk(r.cache) && Gapless(r, recs) && Distinct(matches)
    requires forall m :: m in matches <==> 0 <= m < |Cells(r)| && want(KeyOfCell(r, m))
    ensures ScanFinds(r, matches, recs, want)
  {
    var cells := Cells(r);
    var all := Listing(cells, UpTo(|cells|), r.cache.keys, r.cache.values);
    forall k | 0 <= k < |matches| ensures matches[k] < |cells| && cells[matches[k]].Some? {
      assert matches[k] in matches;
    }
    var picked := Listing(cells, matches, r.cache.keys, r.cache.values);
    forall k | 0 <= k < |picked| ensures picked[k] == all[matches[k]] && want(picked[k].key) {
      assert matches[k] in matches;
    }
    PickedAreWanted(all, recs, matches, picked, want);
  }

  lemma {:induction false} PickedAreWanted(all: seq<Pair>, recs: seq<Pair>, matches: seq<nat>, picked: seq<Pair>,
                                           want: Bytes -> bool)
    requires SameRecords(all, recs) && Distinct(matches) && |picked| == |matches|
    requires forall k :: 0 <= k < |picked| ==> matches[k] < |all| && picked[k] == all[matches[k]] && want(picked[k].key)
    requires forall m :: 0 <= m < |all| && want(all[m].key) ==> m in matches
    ensures Finds(picked, recs, want)
  {
    forall i, j | 0 <= i < j < |picked| ensures picked[i].key != picked[j].key {
      assert matches[i] != matches[j];
    }
    forall p | p in recs && want(p.key) ensures p in picked {
      assert p in all;
      var m :| 0 <= m < |all| && all[m] == p;
      assert m in matches;
      var k :| 0 <= k < |matches| && matches[k] == m;
      assert picked[k] == p;
    }
    forall p | p in picked ensures p in recs {
      var k :| 0 <= k < |picked| && picked[k] == p;
      assert all[matches[k]] in all;
    }
  }

  ghost function KeyOfCell(r: OpenReader, m: nat): Bytes
    requires StructureOk(r.cache) && m < |Cells(r)| && CellsInRange(Cells(r), r.cache.keys, r.cache.values)
      && AllOccupied(Cells(r))
  {
    PairAt(Cells(r)[m].value, r.cache.keys, r.cache.values).key
  }

  /** start <= key < end in byte order. */
  predicate Within(key: Bytes, start: Bytes, end: Bytes) {
    KeyBytesCmp(key, start) >= 0 && KeyBytesCmp(key, end) < 0
  }

  /** The positions a filtering loop collects, in table order. */
  ghost predicate Filtered(r: OpenReader, matches: seq<nat>, n: nat, want: Bytes -> bool)
    requires StructureOk(r.cache) && n <= |Cells(r)| && CellsInRange(Cells(r), r.cache.keys, r.cache.values)
      && AllOccupied(Cells(r))
  {
    && (forall i, j :: 0 <= i < j < |matches| ==> matches[i] < matches[j])
    && (forall m :: m in matches <==> 0 <= m < n && want(KeyOfCell(r, m)))
  }

  /** The filtering loop of the range scan and of the prefix scan on a sorted index. */
  lemma {:induction false} NoEmptyCells(r: OpenReader)
    requires StructureOk(r.cache)
      && (r.cache.manifest.schema.backend == SortedBackend || r.cache.manifest.schema.backend == RadixBackend)
    ensures AllOccupied(Cells(r))
  {
  }

  method FilterCells(r: OpenReader, want: Bytes -> bool) returns (matches: seq<nat>)
    requires StructureOk(r.cache)
      && (r.cache.manifest.schema.backend == SortedBackend || r.cache.manifest.schema.backend == RadixBackend)
    ensures CellsInRange(Cells(r), r.cache.keys, r.cache.values) && AllOccupied(Cells(r))
    ensures Filtered(r, matches, |Cells(r)|, want)
  {
    hide StructureOk, Cells;
    var cells := Cells(r);
    ValidatedCells(r);
    NoEmptyCells(r);
    matches := [];
    for i := 0 to |cells|
      invariant Filtered(r, matches, i, want)
    {
      var loc := cells[i].value;
      if want(r.cache.keys[loc.keyOff..loc.keyOff + loc.keyLen]) {
        FilteredGrows(r, matches, i, want);
        matches := matches + [i];
      }
    }
  }

  lemma {:induction false} FilteredGrows(r: OpenReader, matches: seq<nat>, i: nat, want: Bytes -> bool)
    requires StructureOk(r.cache) && CellsInRange(Cells(r), r.cache.keys, r.cache.values) && AllOccupied(Cells(r))
    requires i < |Cells(r)| && Filtered(r, matches, i, want) && want(KeyOfCell(r, i))
    ensures Filtered(r, matches + [i], i + 1, want)
  {
    forall k | 0 <= k < |matches| ensures matches[k] < i {
      assert matches[k] in matches;
    }
  }

  method RangeScan(r: OpenReader, start: Bytes, end: Bytes) returns (it: Result<Iterator>)
    requires StructureOk(r.cache)
    ensures var m := r.cache.manifest;
            if (m.schema.backend != SortedBackend && m.schema.backend != RadixBackend)
              || !PassThrough(m.schema.keyCodec) then it == Err(Unsupported)
            else
              && it.Ok? && fresh(it.value) && it.value.Valid() && it.value.reader == r && it.value.pos == 0
              && CellsInRange(Cells(r), r.cache.keys, r.cache.values) && AllOccupied(Cells(r))
              && Filtered(r, it.value.matches, |Cells(r)|, k => Within(k, start, end))
  {
    if r.cache.manifest.schema.backend != SortedBackend && r.cache.manifest.schema.backend != RadixBackend {
      return Err(Unsupported);
    }
    if !PassThrough(r.cache.manifest.schema.keyCodec) {
      return Err(Unsupported);
    }
    var want := (k: Bytes) => Within(k, start, end);
    var matches := FilterCells(r, want);
    FilteredSame(r, matches, want, k => Within(k, start, end));
    FilteredValid(r, matches, want);
    var iter := new Iterator(r, matches);
    return Ok(iter);
  }

  lemma {:induction false} FilteredSame(r: OpenReader, matches: seq<nat>, want: Bytes -> bool, same: Bytes -> bool)
    requires StructureOk(r.cache) && CellsInRange(Cells(r), r.cache.keys, r.cache.values) && AllOccupied(Cells(r))
    requires Filtered(r, matches, |Cells(r)|, want) && forall k :: want(k) == same(k)
    ensures Filtered(r, matches, |Cells(r)|, same)
  {
  }

  lemma {:induction false} FilteredValid(r: OpenReader, matches: seq<nat>, want: Bytes -> bool)
    requires StructureOk(r.cache) && CellsInRange(Cells(r), r.cache.keys, r.cache.values) && AllOccupied(Cells(r))
    requires Filtered(r, matches, |Cells(r)|, want)
    ensures forall k :: 0 <= k < |matches| ==> matches[k] < |Cells(r)|
  {
    forall k | 0 <= k < |matches| ensures matches[k] < |Cells(r)| {
      assert matches[k] in matches;
    }
  }

  /** A range scan of a frozen cache lists exactly the records with start <= key < end, each once. */
  lemma {:induction false} RangeScanFinds(r: OpenReader, matches: seq<nat>, start: Bytes, end: Bytes,
                                          recs: seq<Pair>, hash: Hasher, sh: SlotHasher, sum: Checksum)
    requires StructureOk(r.cache) && CellsInRange(Cells(r), r.cache.keys, r.cache.values) && AllOccupied(Cells(r))
    requires r.cache.manifest.schema.backend == SortedBackend || r.cache.manifest.schema.backend == RadixBackend
    requires Filtered(r, matches, |Cells(r)|, k => Within(k, start, end)) && Serves(r, recs, hash, sh, sum)
    ensures ScanFinds(r, matches, recs, k => !KeyLess(k, start) && KeyLess(k, end))
    ensures r.cache.manifest.schema.backend == RadixBackend ==>
              IncreasingKeys(Listing(Cells(r), matches, r.cache.keys, r.cache.values))
  {
    hide StructureOk, Cells, KeyLess, RadixHolds;
    var within := (k: Bytes) => !KeyLess(k, start) && KeyLess(k, end);
    forall k ensures Within(k, start, end) == within(k) {
      KeyBytesCmpIsLexicographic(k, start);
      KeyBytesCmpIsLexicographic(k, end);
    }
    FilteredSame(r, matches, k => Within(k, start, end), within);
    if r.cache.manifest.schema.backend == RadixBackend {
      RadixListing(r, recs);
    } else {
      SortedListing(r, recs, hash);
    }
    PickedRecords(r, recs, matches, within);
    if r.cache.manifest.schema.backend == RadixBackend {
      AscendingPick(r, matches, recs);
    }
  }

  lemma {:induction false} AscendingPick(r: OpenReader, matches: seq<nat>, recs: seq<Pair>)
    requires StructureOk(r.cache) && Gapless(r, recs) && IncreasingKeys(recs)
    requires Listing(Cells(r), UpTo(|Cells(r)|), r.cache.keys, r.cache.values) == recs
    requires Occupied(Cells(r), matches) && forall i, j :: 0 <= i < j < |matches| ==> matches[i] < matches[j]
    ensures IncreasingKeys(Listing(Cells(r), matches, r.cache.keys, r.cache.values))
  {
    hide StructureOk, Cells, KeyLess;
    var cells := Cells(r);
    var all, picked := Listing(cells, UpTo(|cells|), r.cache.keys, r.cache.values),
      Listing(cells, matches, r.cache.keys, r.cache.values);
    assert forall k :: 0 <= k < |picked| ==> picked[k] == all[matches[k]];
  }

  /** On a radix index the search of a prefix scan has to stay inside its arrays; the reader does not check that. */
  ghost predicate PrefixScanIsSafe(r: OpenReader, prefix: Bytes)
    requires StructureOk(r.cache)
  {
    r.cache.manifest.schema.backend == RadixBackend ==> ScanIsSafe(RadixSections(r.cache.index), prefix)
  }

  /** The positions a prefix scan finds on any accepted index: the entries whose key starts with the prefix, or the
      values of the keys that start with it and can be walked. */
  ghost predicate PrefixPositions(r: OpenReader, prefix: Bytes, matches: seq<nat>)
    requires StructureOk(r.cache)
      && (r.cache.manifest.schema.backend == SortedBackend || r.cache.manifest.schema.backend == RadixBackend)
  {
    if r.cache.manifest.schema.backend == RadixBackend then
      var x := RadixSections(r.cache.index);
      && ScanOutcome(x, prefix, matches) && ChildrenInRange(View(x))
      && forall m :: m in matches <==> m != NO_VALUE && exists key :: prefix <= key && CarriesAt(View(x), 0, key, m)
    else
      && CellsInRange(Cells(r), r.cache.keys, r.cache.values) && AllOccupied(Cells(r))
      && Filtered(r, matches, |Cells(r)|, k => prefix <= k)
  }

  /** fce_reader_prefix_scan. */
  method FcePrefixScan(r: OpenReader, prefix: Bytes) returns (it: Result<Iterator>)
    requires StructureOk(r.cache) && PrefixScanIsSafe(r, prefix)
    ensures var m := r.cache.manifest;
            if m.schema.backend != SortedBackend && m.schema.backend != RadixBackend then it == Err(Unsupported)
            else
              && it.Ok? && fresh(it.value) && it.value.Valid() && it.value.reader == r && it.value.pos == 0
              && PrefixPositions(r, prefix, it.value.matches)
  {
    hide StructureOk, Cells, PrefixPositions;
    var m := r.cache.manifest;
    if m.schema.backend != SortedBackend && m.schema.backend != RadixBackend {
      return Err(Unsupported);
    }
    var matches;
    if m.schema.backend == RadixBackend {
      matches := ScanTrie(r, prefix);
    } else {
      matches := ScanEntries(r, prefix);
    }
    var iter := new Iterator(r, matches);
    return Ok(iter);
  }

  method ScanTrie(r: OpenReader, prefix: Bytes) returns (matches: seq<nat>)
    requires StructureOk(r.cache) && r.cache.manifest.schema.backend == RadixBackend && PrefixScanIsSafe(r, prefix)
    ensures forall k :: 0 <= k < |matches| ==> matches[k] < |Cells(r)|
    ensures PrefixPositions(r, prefix, matches)
  {
    hide NodeSafe, ScanIsSafe, ScanOutcome, CarriesAt;
    var x := RadixSections(r.cache.index);
    SafeViewIsClosed(x);
    matches := PrefixScan(x, prefix);
    forall m ensures m in matches <==>
      m != NO_VALUE && exists key :: prefix <= key && CarriesAt(View(x), 0, key, m)
    {
      if m >= 0 {
        OutcomeIsWalked(x, prefix, matches, m);
      }
    }
    forall k | 0 <= k < |matches| ensures matches[k] < |Cells(r)| {
      assert matches[k] in matches;
      var key :| prefix <= key && CarriesAt(View(x), 0, key, matches[k]);
      CarriedIsValue(x, key, matches[k]);
    }
  }

  lemma {:induction false} CarriedIsValue(x: RadixIndex, key: Bytes, m: nat)
    requires SafeIndex(x) && ChildrenInRange(View(x)) && m != NO_VALUE && CarriesAt(View(x), 0, key, m)
    ensures m < |x.values|
  {
    assert NodeSafe(x, Walk(View(x), 0, key).value);
  }

  /** On the files of a frozen cache every prefix scan is safe, and it lists exactly the records whose key starts
      with the prefix, each once. */
  lemma {:induction false} PrefixScanFinds(r: OpenReader, matches: seq<nat>, prefix: Bytes, recs: seq<Pair>,
                                           hash: Hasher, sh: SlotHasher, sum: Checksum)
    requires StructureOk(r.cache) && Serves(r, recs, hash, sh, sum)
    requires r.cache.manifest.schema.backend == SortedBackend || r.cache.manifest.schema.backend == RadixBackend
    ensures PrefixScanIsSafe(r, prefix)
    ensures PrefixPositions(r, prefix, matches) ==> ScanFinds(r, matches, recs, k => prefix <= k)
  {
    hide StructureOk, Cells, SafeIndex, ScanIsSafe, ScanOutcome, Filtered, Gapless, ScanFinds;
    if r.cache.manifest.schema.backend == RadixBackend {
      TrieScanFinds(r, matches, prefix, recs);
    } else if PrefixPositions(r, prefix, matches) {
      EntryScanFinds(r, matches, prefix, recs, hash);
    }
  }

  lemma {:induction false} TrieScanFinds(r: OpenReader, matches: seq<nat>, prefix: Bytes, recs: seq<Pair>)
    requires StructureOk(r.cache) && r.cache.manifest.schema.backend == RadixBackend
    requires RadixImage(IndexPart(r.cache), recs)
    ensures ScanIsSafe(RadixSections(r.cache.index), prefix)
    ensures ScanOutcome(RadixSections(r.cache.index), prefix, matches) ==>
      ScanFinds(r, matches, recs, k => prefix <= k)
  {
    hide ScanIsSafe, ScanOutcome, Gapless, ScanFinds, Laid, SafeIndex;
    var x := RadixSections(r.cache.index);
    var paths :| RadixHolds(x, paths, r.cache.keys, r.cache.values, recs);
    RadixHasAll(x, paths, r.cache.keys, r.cache.values, recs);
    TrieScanIsSafe(x, paths, recs, prefix);
    if ScanOutcome(x, prefix, matches) {
      TrieScanIsExact(x, paths, recs, prefix, matches);
      RadixListing(r, recs);
      PrefixPicks(r, recs, matches, prefix);
    }
  }

  lemma {:induction false} RadixHasAll(x: RadixIndex, paths: seq<Bytes>, keys: Bytes, values: Bytes, recs: seq<Pair>)
    requires RadixHolds(x, paths, keys, values, recs)
    ensures |x.values| == |recs|
  {
    assert |Listed(x.values, keys, values)| == |recs|;
  }

  lemma {:induction false} EntryScanFinds(r: OpenReader, matches: seq<nat>, prefix: Bytes, recs: seq<Pair>,
                                          hash: Hasher)
    requires StructureOk(r.cache) && r.cache.manifest.schema.backend == SortedBackend
    requires SortedImage(IndexPart(r.cache), recs, hash) && PrefixPositions(r, prefix, matches)
    ensures ScanFinds(r, matches, recs, k => prefix <= k)
  {
    SortedListing(r, recs, hash);
    PickedRecords(r, recs, matches, k => prefix <= k);
  }

  lemma {:induction false} PrefixPicks(r: OpenReader, recs: seq<Pair>, matches: seq<nat>, prefix: Bytes)
    requires StructureOk(r.cache) && Gapless(r, recs) && Distinct(matches)
    requires Listing(Cells(r), UpTo(|Cells(r)|), r.cache.keys, r.cache.values) == recs
    requires forall m :: m in matches <==> 0 <= m < |recs| && prefix <= recs[m].key
    ensures forall k :: 0 <= k < |matches| ==> matches[k] < |Cells(r)|
    ensures ScanFinds(r, matches, recs, k => prefix <= k)
  {
    hide StructureOk, Cells;
    var all := Listing(Cells(r), UpTo(|Cells(r)|), r.cache.keys, r.cache.values);
    assert forall m :: 0 <= m < |recs| ==> KeyOfCell(r, m) == all[m].key;
    PickedRecords(r, recs, matches, k => prefix <= k);
  }

  method ScanEntries(r: OpenReader, prefix: Bytes) returns (matches: seq<nat>)
    requires StructureOk(r.cache) && r.cache.manifest.schema.backend == SortedBackend
    ensures forall k :: 0 <= k < |matches| ==> matches[k] < |Cells(r)|
    ensures PrefixPositions(r, prefix, matches)
  {
    hide StructureOk, Cells;
    var want := (k: Bytes) => prefix <= k;
    matches := FilterCells(r, want);
    FilteredValid(r, matches, want);
    FilteredSame(r, matches, want, k => prefix <= k);
  }
}
