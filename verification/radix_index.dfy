/** The flattened trie: writing it, reading it back, and looking a key up (freeze_radix, get_radix). */
module RadixFlat {
  import opened Bytes
  import opened Records
  import opened Format
  import opened RadixTrie
  import opened RadixBuild
  import opened SortedIndex

  /** The three arrays of index.fce. */
  datatype RadixIndex = RadixIndex(nodes: seq<RadixNode>, edges: seq<RadixEdge>, values: seq<Loc>)

  /** The edges that a node has lie in the array; where the slice of a node without edges lies does not matter. */
  predicate SlicesInRange(x: RadixIndex) {
    forall n :: 0 <= n < |x.nodes| ==>
      x.nodes[n].edgeCount == 0 || x.nodes[n].firstEdge + x.nodes[n].edgeCount <= |x.edges|
  }

  /** Builder output keeps the empty slices in the array as well. */
  predicate SlicesInside(x: RadixIndex) {
    forall n :: 0 <= n < |x.nodes| ==> x.nodes[n].firstEdge + x.nodes[n].edgeCount <= |x.edges|
  }

  function EdgesOf(x: RadixIndex, n: nat): seq<RadixEdge>
    requires SlicesInRange(x) && n < |x.nodes|
  {
    if x.nodes[n].edgeCount == 0 then []
    else x.edges[x.nodes[n].firstEdge..x.nodes[n].firstEdge + x.nodes[n].edgeCount]
  }

  /** The arrays read as a trie again. */
  function View(x: RadixIndex): (t: Trie)
    requires SlicesInRange(x)
    ensures |t| == |x.nodes|
  {
    seq(|x.nodes|, n requires 0 <= n < |x.nodes| => TmpNode(EdgesOf(x, n), x.nodes[n].valueIndex))
  }

  /** What validate_reader_files checks of the arrays; it does not ask for a tree. */
  ghost predicate SafeIndex(x: RadixIndex) {
    && |x.nodes| > 0 && SlicesInRange(x)
    && (forall n :: 0 <= n < |x.nodes| ==> NodeSafe(x, n))
  }

  ghost predicate NodeSafe(x: RadixIndex, n: nat)
    requires SlicesInRange(x) && n < |x.nodes|
  {
    && (x.nodes[n].valueIndex == NO_VALUE || x.nodes[n].valueIndex < |x.values|)
    && (forall j :: 0 <= j < |EdgesOf(x, n)| ==> EdgesOf(x, n)[j].child < |x.nodes|)
    && SortedLabels(EdgesOf(x, n))
  }

  lemma {:induction false} SafeViewIsClosed(x: RadixIndex)
    requires SafeIndex(x)
    ensures ChildrenInRange(View(x))
  {
    forall n, j | 0 <= n < |x.nodes| && 0 <= j < |View(x)[n].edges| ensures View(x)[n].edges[j].child < |x.nodes| {
      assert NodeSafe(x, n);
    }
  }

  // ---- Flattening ----

  method FlattenTrie(t: Trie, values: seq<Loc>) returns (x: RadixIndex)
    requires |t| <= U32_MAX && Total(t, EDGE_WEIGHT) <= U32_MAX
    ensures SlicesInRange(x) && SlicesInside(x) && View(x) == t && x.values == values
    ensures |x.edges| == Total(t, EDGE_WEIGHT)
    ensures forall n :: 0 <= n < |t| ==> x.nodes[n].firstEdge == Total(t[..n], EDGE_WEIGHT)
  {
    var nodes: seq<RadixNode>, edges: seq<RadixEdge> := [], [];
    for i := 0 to |t|
      invariant FlatSoFar(nodes, edges, t, i)
    {
      FlatStep(nodes, edges, t, i);
      nodes := nodes + [RadixNode(|edges|, |t[i].edges|, t[i].valueIndex)];
      ghost var before := edges;
      for j := 0 to |t[i].edges|
        invariant edges == before + t[i].edges[..j]
      {
        edges := edges + [t[i].edges[j]];
      }
      assert t[i].edges[..|t[i].edges|] == t[i].edges;
    }
    x := RadixIndex(nodes, edges, values);
    FlatIsView(x, t);
  }

  ghost predicate FlatSoFar(nodes: seq<RadixNode>, edges: seq<RadixEdge>, t: Trie, i: nat)
    requires i <= |t|
  {
    && |nodes| == i && |edges| == Total(t[..i], EDGE_WEIGHT)
    && forall n :: 0 <= n < i ==> FlatNode(nodes[n], edges, t, n)
  }

  lemma {:induction false} FlatStep(nodes: seq<RadixNode>, edges: seq<RadixEdge>, t: Trie, i: nat)
    requires i < |t| && FlatSoFar(nodes, edges, t, i)
    requires |t| <= U32_MAX && Total(t, EDGE_WEIGHT) <= U32_MAX
    ensures |edges| <= U32_MAX && |t[i].edges| <= U32_MAX
    ensures FlatSoFar(nodes + [RadixNode(|edges|, |t[i].edges|, t[i].valueIndex)], edges + t[i].edges, t, i + 1)
  {
    TotalPrefix(t, i + 1, EDGE_WEIGHT);
    assert t[..i + 1] == t[..i] + [t[i]];
    TotalAppend(t[..i], t[i], EDGE_WEIGHT);
    forall n | 0 <= n < i ensures FlatNode(nodes[n], edges + t[i].edges, t, n) {
      assert FlatNode(nodes[n], edges, t, n);
    }
  }

  lemma {:induction false} FlatIsView(x: RadixIndex, t: Trie)
    requires FlatSoFar(x.nodes, x.edges, t, |t|)
    ensures SlicesInRange(x) && SlicesInside(x) && View(x) == t && |x.edges| == Total(t, EDGE_WEIGHT)
    ensures forall n :: 0 <= n < |t| ==> x.nodes[n].firstEdge == Total(t[..n], EDGE_WEIGHT)
  {
    assert t[..|t|] == t;
    forall n | 0 <= n < |t|
      ensures x.nodes[n].firstEdge + x.nodes[n].edgeCount <= |x.edges|
        && x.nodes[n].firstEdge == Total(t[..n], EDGE_WEIGHT)
    {
      assert FlatNode(x.nodes[n], x.edges, t, n);
    }
    forall n | 0 <= n < |t| ensures View(x)[n] == t[n] {
      assert FlatNode(x.nodes[n], x.edges, t, n);
    }
  }

  ghost predicate FlatNode(node: RadixNode, edges: seq<RadixEdge>, t: Trie, n: nat)
    requires n < |t|
  {
    && node.firstEdge == Total(t[..n], EDGE_WEIGHT) && node.valueIndex == t[n].valueIndex
    && node.firstEdge + node.edgeCount <= |edges|
    && edges[node.firstEdge..node.firstEdge + node.edgeCount] == t[n].edges
  }

  lemma {:induction false} TotalPrefix(t: Trie, n: nat, w: TmpNode -> nat)
    requires n <= |t|
    ensures Total(t[..n], w) <= Total(t, w)
    decreases |t|
  {
    if n == |t| {
      assert t[..n] == t;
    } else {
      TotalPrefix(t[..|t| - 1], n, w);
      assert t[..|t| - 1][..n] == t[..n];
    }
  }

  // ---- The index file ----

  const RADIX_HEADER := 56
  const RADIX_MAGIC: u64 := 0x3158444152454346
  const RADIX_HEADER_WIDTHS: seq<nat> := [8, 8, 8, 8, 8, 8, 8]

  datatype RadixHeader = RadixHeader(magic: u64, nodeCount: u64, edgeCount: u64, valueCount: u64,
                                     nodesOff: u64, edgesOff: u64, valuesOff: u64)

  function RadixHeaderOf(index: Bytes): RadixHeader
    requires |index| >= RADIX_HEADER
  {
    Pow256Values();
    var v := Unpack(index[..RADIX_HEADER], RADIX_HEADER_WIDTHS);
    assert forall i :: 0 <= i < 7 ==> v[i] < Pow256(RADIX_HEADER_WIDTHS[i]);
    RadixHeader(v[0], v[1], v[2], v[3], v[4], v[5], v[6])
  }

  /** The sections follow the header one after the other and fill the file. */
  predicate RadixSectionsFit(h: RadixHeader, size: nat) {
    && h.nodesOff == RADIX_HEADER
    && h.edgesOff == h.nodesOff + h.nodeCount * RADIX_NODE
    && h.valuesOff == h.edgesOff + h.edgeCount * RADIX_EDGE
    && h.valuesOff + h.valueCount * RADIX_VALUE == size
  }

  predicate RadixFileFits(index: Bytes) {
    && |index| >= RADIX_HEADER && RadixHeaderOf(index).magic == RADIX_MAGIC
    && RadixSectionsFit(RadixHeaderOf(index), |index|)
  }

  /** Every section starts inside the file. */
  predicate RadixLaidOut(index: Bytes) {
    && |index| >= RADIX_HEADER
    && var h := RadixHeaderOf(index);
    h.nodesOff <= |index| && h.edgesOff <= |index| && h.valuesOff <= |index|
  }

  lemma {:induction false} RadixFitsIsLaidOut(index: Bytes)
    requires RadixFileFits(index)
    ensures RadixLaidOut(index)
  {
  }

  /** What can be read of the three arrays that the header describes. */
  function RadixSections(index: Bytes): (x: RadixIndex)
    requires RadixLaidOut(index)
    ensures var h := RadixHeaderOf(index);
      |x.nodes| <= h.nodeCount && |x.edges| <= h.edgeCount && |x.values| <= h.valueCount
  {
    var h := RadixHeaderOf(index);
    RadixIndex(ReadTable(index, h.nodesOff, h.nodeCount, RADIX_NODE, DecNode),
               ReadTable(index, h.edgesOff, h.edgeCount, RADIX_EDGE, DecEdge),
               ReadTable(index, h.valuesOff, h.valueCount, RADIX_VALUE, DecValue))
  }

  function RadixHeaderFor(x: RadixIndex): Bytes {
    var edgesOff := RADIX_HEADER + |x.nodes| * RADIX_NODE;
    var valuesOff := edgesOff + |x.edges| * RADIX_EDGE;
    Pack([RADIX_MAGIC, |x.nodes|, |x.edges|, |x.values|, RADIX_HEADER, edgesOff, valuesOff], RADIX_HEADER_WIDTHS)
  }

  function EncodeRadix(x: RadixIndex): Bytes {
    RadixHeaderFor(x) + EncodeTable(x.nodes, EncNode) + EncodeTable(x.edges, EncEdge) + EncodeTable(x.values, EncValue)
  }

  lemma {:induction false} RadixHeaderWidths()
    ensures Sum(RADIX_HEADER_WIDTHS) == RADIX_HEADER
  {
    SumOfEights(7);
    assert RADIX_HEADER_WIDTHS == seq(7, _ => 8);
  }

  lemma {:induction false} RadixHeaderRoundTrip(x: RadixIndex, rest: Bytes)
    requires |x.nodes| <= U32_MAX && |x.edges| <= U32_MAX && |x.values| <= U32_MAX
    ensures |RadixHeaderFor(x)| == RADIX_HEADER
    ensures RadixHeaderOf(RadixHeaderFor(x) + rest) == RadixHeader(RADIX_MAGIC, |x.nodes|, |x.edges|, |x.values|,
      RADIX_HEADER,
      RADIX_HEADER + |x.nodes| * RADIX_NODE, RADIX_HEADER + |x.nodes| * RADIX_NODE + |x.edges| * RADIX_EDGE)
  {
    hide Pack, Unpack, Sum;
    var edgesOff: nat := RADIX_HEADER + |x.nodes| * RADIX_NODE;
    var fields: seq<nat> := [RADIX_MAGIC, |x.nodes|, |x.edges|, |x.values|, RADIX_HEADER, edgesOff,
      edgesOff + |x.edges| * RADIX_EDGE];
    Pow256Values();
    RadixHeaderWidths();
    PackRoundTrip(fields, RADIX_HEADER_WIDTHS);
    assert (RadixHeaderFor(x) + rest)[..RADIX_HEADER] == RadixHeaderFor(x);
  }

  lemma {:induction false} FourSections(a: Bytes, b: Bytes, c: Bytes, d: Bytes)
    ensures var w := a + b + c + d;
      && w[|a|..|a| + |b|] == b && w[|a| + |b|..|a| + |b| + |c|] == c && w[|a| + |b| + |c|..] == d
  {
  }

  /** In a file whose sections fit, the arrays are read whole. */
  lemma {:induction false} RadixSectionsWhole(index: Bytes)
    requires RadixFileFits(index)
    ensures RadixLaidOut(index)
    ensures var h := RadixHeaderOf(index);
      RadixSections(index) == RadixIndex(DecodeTable(index[h.nodesOff..h.edgesOff], RADIX_NODE, DecNode),
                                         DecodeTable(index[h.edgesOff..h.valuesOff], RADIX_EDGE, DecEdge),
                                         DecodeTable(index[h.valuesOff..], RADIX_VALUE, DecValue))
    ensures var h, x := RadixHeaderOf(index), RadixSections(index);
      |x.nodes| == h.nodeCount && |x.edges| == h.edgeCount && |x.values| == h.valueCount
  {
    hide DecodeTable, ReadTable, RadixHeaderOf;
    RadixFitsIsLaidOut(index);
    var h := RadixHeaderOf(index);
    ReadWhole(index, h.nodesOff, h.nodeCount, RADIX_NODE, DecNode);
    ReadWhole(index, h.edgesOff, h.edgeCount, RADIX_EDGE, DecEdge);
    ReadWhole(index, h.valuesOff, h.valueCount, RADIX_VALUE, DecValue);
    assert index[h.valuesOff..h.valuesOff + h.valueCount * RADIX_VALUE] == index[h.valuesOff..];
  }

  lemma {:induction false} RadixFileRoundTrip(x: RadixIndex)
    requires |x.nodes| <= U32_MAX && |x.edges| <= U32_MAX && |x.values| <= U32_MAX
    requires forall v :: v in x.values ==> LocFits(v)
    ensures RadixFileFits(EncodeRadix(x)) && RadixLaidOut(EncodeRadix(x)) && RadixSections(EncodeRadix(x)) == x
    ensures |EncodeRadix(x)| <= MAX_FILE
    ensures RadixHeaderOf(EncodeRadix(x)).nodeCount == |x.nodes|
      && RadixHeaderOf(EncodeRadix(x)).valueCount == |x.values|
  {
    hide EncodeTable, DecodeTable, RadixHeaderFor, RadixHeaderOf, RadixSections;
    var ns, es, vs := EncodeTable(x.nodes, EncNode), EncodeTable(x.edges, EncEdge), EncodeTable(x.values, EncValue);
    NodeTable(x.nodes);
    EdgeTable(x.edges);
    ValueTable(x.values);
    RadixHeaderRoundTrip(x, ns + es + vs);
    assert EncodeRadix(x) == RadixHeaderFor(x) + (ns + es + vs);
    FourSections(RadixHeaderFor(x), ns, es, vs);
    RadixSectionsWhole(EncodeRadix(x));
  }

  // ---- freeze_radix ----

  /** The files hold a trie over exactly these records, value i being record i. */
  ghost predicate RadixImage(f: IndexFiles, recs: seq<Pair>) {
    && RadixFileFits(f.index) && RadixLaidOut(f.index) && |f.index| <= MAX_FILE && f.count == |recs|
      && IncreasingKeys(recs)
    && exists paths :: RadixHolds(RadixSections(f.index), paths, f.keys, f.values, recs)
  }

  ghost predicate RadixHolds(x: RadixIndex, paths: seq<Bytes>, keys: Bytes, values: Bytes, recs: seq<Pair>) {
    && SafeIndex(x) && SlicesInside(x) && Built(View(x), paths, recs) && Laid(x.values, keys, values, recs)
    && |recs| <= U32_MAX
  }

  method FreezeRadix(records: seq<BuildRecord>, allowDuplicatePut: bool) returns (r: Result<IndexFiles>)
    requires Stamped(records)
    ensures
      var recs := Survivors(Pairs(records));
      && (r.Ok? <==>
        (allowDuplicatePut || DistinctKeys(Pairs(records))) && Storable(recs) && |Prefixes(recs)| <= U32_MAX)
      && (r.Ok? ==> RadixImage(r.value, recs))
    ensures r.Err? ==> r.status == FreezeError(records, allowDuplicatePut, OutOfMemory)
  {
    var recs :- DedupeRecords(records, allowDuplicatePut);
    SurvivorsKeepTheMap(Pairs(records));
    var lay :- WriteKeysValues(recs);
    var built, paths := BuildTrie(recs);
    if built.Err? {
      return Err(built.status);
    }
    var t := built.value;
    var x := FlattenTrie(t, lay.locs);
    r := Ok(IndexFiles(EncodeRadix(x), lay.keys, lay.values, |recs|));
    FlattenedIsTheImage(x, t, paths, lay, recs);
  }

  lemma {:induction false} FlattenedIsTheImage(x: RadixIndex, t: Trie, paths: seq<Bytes>, lay: Layout, recs: seq<Pair>)
    requires IncreasingKeys(recs) && Storable(recs) && |t| <= U32_MAX
    requires lay.keys == KeyBytes(recs) && lay.values == ValueBytes(recs)
    requires Laid(lay.locs, lay.keys, lay.values, recs) && x.values == lay.locs
    requires SlicesInRange(x) && SlicesInside(x) && View(x) == t && Built(t, paths, recs)
    requires |x.edges| == Total(t, EDGE_WEIGHT)
    ensures RadixImage(IndexFiles(EncodeRadix(x), lay.keys, lay.values, |recs|), recs)
  {
    hide EncodeRadix, RadixHeaderOf, RadixSections, EdgeSpells, KeyBytes, ValueBytes, LocInRange, Walk;
    IncreasingIsDistinct(recs);
    KeysArePrefixes(recs);
    NodesArePrefixes(t, paths, recs);
    forall v | v in x.values ensures LocFits(v) {
      var i :| 0 <= i < |lay.locs| && lay.locs[i] == v;
      StoredLocsFit(lay, recs, i);
    }
    RadixFileRoundTrip(x);
    TrieViewIsSafe(x, paths, recs);
    assert RadixHolds(x, paths, lay.keys, lay.values, recs);
  }

  /** Builder output passes every structural check of the reader. */
  lemma {:induction false} TrieViewIsSafe(x: RadixIndex, paths: seq<Bytes>, recs: seq<Pair>)
    requires SlicesInRange(x) && Built(View(x), paths, recs) && |x.values| == |recs|
    ensures SafeIndex(x)
  {
    var t := View(x);
    forall n | 0 <= n < |x.nodes| ensures NodeSafe(x, n) {
      assert t[n].edges == EdgesOf(x, n) && SortedLabels(t[n].edges);
    }
  }

  // ---- get_radix ----

  /** Binary search among the sorted edges of one node. */
  method FindChild(x: RadixIndex, node: nat, c: byte) returns (r: Option<u32>)
    requires SafeIndex(x) && node < |x.nodes|
    ensures r == Child(View(x)[node].edges, c)
    ensures r.Some? ==> r.value < |x.nodes|
  {
    ghost var edges := EdgesOf(x, node);
    assert NodeSafe(x, node);
    var first, count := x.nodes[node].firstEdge, x.nodes[node].edgeCount;
    var lo, hi := 0, count;
    while lo < hi
      invariant 0 <= lo <= hi <= count
      invariant forall i :: 0 <= i < lo ==> edges[i].edgeLabel < c
      invariant forall i :: hi <= i < count ==> c <= edges[i].edgeLabel
    {
      var mid := lo + (hi - lo) / 2;
      var e := x.edges[first + mid];
      assert e == edges[mid];
      if e.edgeLabel < c {
        lo := mid + 1;
      } else {
        hi := mid;
      }
    }
    if lo < count {
      var e := x.edges[first + lo];
      assert e == edges[lo];
      if e.edgeLabel == c {
        ChildOfEdge(edges, lo);
        return Some(e.child);
      }
    }
    ChildIn(edges, c);
    return None;
  }

  /** The walk and the final checks, on whatever arrays the reader accepted. */
  function RadixLookup(x: RadixIndex, keys: Bytes, values: Bytes, key: Bytes): Result<Bytes>
    requires SafeIndex(x)
  {
    SafeViewIsClosed(x);
    match Walk(View(x), 0, key)
    case None => Err(NotFound)
    case Some(n) =>
      assert NodeSafe(x, n);
      if x.nodes[n].valueIndex == NO_VALUE then Err(NotFound)
      else
        var v := x.values[x.nodes[n].valueIndex];
        if !KeyEqual(keys, v.keyOff, v.keyLen, key) then Err(NotFound) else ValueAt(v, values)
  }

  /** Every array access is in bounds for any accepted index, tree or not. */
  method GetRadix(x: RadixIndex, keys: Bytes, values: Bytes, key: Bytes) returns (r: Result<Bytes>)
    requires SafeIndex(x)
    ensures r == RadixLookup(x, keys, values, key)
  {
    SafeViewIsClosed(x);
    ghost var t := View(x);
    var node: u32 := 0;
    for i := 0 to |key|
      invariant node < |x.nodes|
      invariant Walk(t, 0, key) == Walk(t, node, key[i..])
    {
      var next := FindChild(x, node, key[i]);
      assert key[i..][1..] == key[i + 1..];
      if next.None? {
        return Err(NotFound);
      }
      node := next.value;
    }
    assert key[|key|..] == [];
    assert NodeSafe(x, node);
    if x.nodes[node].valueIndex == NO_VALUE {
      return Err(NotFound);
    }
    var v := x.values[x.nodes[node].valueIndex];
    if !KeyEqual(keys, v.keyOff, v.keyLen, key) {
      return Err(NotFound);
    }
    return ValueAt(v, values);
  }

  /** On a frozen cache the walk is the map. */
  lemma {:induction false} RadixLookupIsLastPut(f: IndexFiles, recs: seq<Pair>, key: Bytes)
    requires RadixImage(f, recs)
    ensures SafeIndex(RadixSections(f.index))
    ensures RadixLookup(RadixSections(f.index), f.keys, f.values, key) == Answer(LastPut(recs, key))
  {
    var x := RadixSections(f.index);
    var paths :| RadixHolds(x, paths, f.keys, f.values, recs);
    WalkIsLookup(x, paths, f.keys, f.values, recs, key);
  }

  lemma {:induction false} WalkIsLookup(x: RadixIndex, paths: seq<Bytes>, keys: Bytes, values: Bytes, recs: seq<Pair>,
                                        key: Bytes)
    requires RadixHolds(x, paths, keys, values, recs) && IncreasingKeys(recs)
    ensures RadixLookup(x, keys, values, key) == Answer(LastPut(recs, key))
  {
    hide Laid, Held, Total, EdgeSpells, Prefixes, SortedLabels;
    var t := View(x);
    IncreasingIsDistinct(recs);
    WalkIsIndex(t, paths, recs, key);
    if p :| 0 <= p < |recs| && recs[p].key == key {
      HeldIsFound(x, keys, values, recs, key, p);
      LastPutAt(recs, p);
    } else {
      LastPutNone(recs, key);
    }
  }

  lemma {:induction false} HeldIsFound(x: RadixIndex, keys: Bytes, values: Bytes, recs: seq<Pair>, key: Bytes, p: nat)
    requires SafeIndex(x) && ChildrenInRange(View(x)) && Laid(x.values, keys, values, recs) && |recs| <= U32_MAX
    requires p < |recs| && recs[p].key == key && Held(View(x), key, p)
    ensures RadixLookup(x, keys, values, key) == Ok(recs[p].value)
  {
    assert PairAt(x.values[p], keys, values) == Listed(x.values, keys, values)[p] == recs[p];
  }

  /** The walk ends at a node carrying index p exactly when the key is that of record p. */
  lemma {:induction false} WalkIsIndex(t: Trie, paths: seq<Bytes>, recs: seq<Pair>, key: Bytes)
    requires Built(t, paths, recs) && |recs| <= U32_MAX
    ensures forall p :: 0 <= p < |recs| && recs[p].key == key ==> Held(t, key, p)
    ensures Walk(t, 0, key).Some? && t[Walk(t, 0, key).value].valueIndex != NO_VALUE ==>
      var p := t[Walk(t, 0, key).value].valueIndex; p < |recs| && recs[p].key == key
  {
    var w := Walk(t, 0, key);
    if w.Some? {
      WalkReachesItsPath(t, paths, key, w.value);
    }
    forall p | 0 <= p < |recs| && recs[p].key == key ensures Held(t, key, p) {
      assert Held(t, recs[p].key, p);
    }
  }
}
