/** Opening a cache: the checks of validate_reader_files, src/api/fce_reader_api.c lines 3-89. */
module Validation {
  import opened Bytes
  import opened Sorting
  import opened Records
  import opened Format
  import opened SortedIndex
  import opened RadixTrie
  import opened RadixBuild
  import opened RadixFlat
  import opened DirectTable
  import opened Mph
  import opened Schemas
  import opened Log
  import opened Crc

  /** The manifest fields that the reader checks or obeys. */
  datatype Manifest = Manifest(schema: Schema, count: nat, index: Stamp, keys: Stamp, values: Stamp, log: Stamp)

  /** The size and checksum of one data file. */
  datatype Stamp = Stamp(size: nat, crc: u64)

  /** A cache directory; a missing file reads as an empty one. */
  datatype Cache = Cache(manifest: Manifest, index: Bytes, keys: Bytes, values: Bytes, log: Bytes)

  // ---- Sizes and checksums ----

  predicate FileIntact(file: Bytes, s: Stamp, sum: Checksum) {
    s.size == |file| && (s.size > 0 ==> sum(file) == s.crc)
  }

  predicate Intact(c: Cache, sum: Checksum) {
    && FileIntact(c.index, c.manifest.index, sum) && FileIntact(c.keys, c.manifest.keys, sum)
    && FileIntact(c.values, c.manifest.values, sum) && FileIntact(c.log, c.manifest.log, sum)
  }

  method CheckFile(file: Bytes, s: Stamp) returns (ok: bool)
    ensures ok == FileIntact(file, s, Crc64)
  {
    if s.size != |file| {
      return false;
    }
    if s.size == 0 {
      return true;
    }
    var crc := FileCrc64(file);
    return crc == s.crc;
  }

  // ---- Shared loops ----

  /** The outcome of the structural checks. PastTheEnd: the next read lies outside the mapped file. */
  datatype Verdict = Accepted | Refused | PastTheEnd

  method AllInRange(locs: seq<Loc>, keys: Bytes, values: Bytes) returns (ok: bool)
    ensures ok <==> InRange(locs, keys, values)
  {
    for i := 0 to |locs|
      invariant forall k :: 0 <= k < i ==> LocInRange(locs[k], |keys|, |values|)
    {
      if !LocInRange(locs[i], |keys|, |values|) {
        return false;
      }
    }
    return true;
  }

  // ---- Sorted index ----

  ghost predicate SortedOk(index: Bytes, keys: Bytes, values: Bytes, count: nat) {
    && |index| % SORTED_ENTRY == 0 && |index| / SORTED_ENTRY == count
    && InRange(Locs(SortedEntries(index)), keys, values)
  }

  method ValidateSorted(index: Bytes, keys: Bytes, values: Bytes, count: nat) returns (ok: bool)
    ensures ok <==> SortedOk(index, keys, values, count)
  {
    if |index| % SORTED_ENTRY != 0 {
      return false;
    }
    var e := SortedEntries(index);
    if |e| != count {
      return false;
    }
    for i := 0 to |e|
      invariant forall k :: 0 <= k < i ==> LocInRange(e[k].loc, |keys|, |values|)
    {
      if !LocInRange(e[i].loc, |keys|, |values|) {
        assert !LocInRange(Locs(e)[i], |keys|, |values|);
        return false;
      }
    }
    return true;
  }

  // ---- Radix ----

  /** The header checks in the arithmetic of uint64_t. */
  predicate RadixHeaderOk(h: RadixHeader, size: nat, count: nat) {
    var ns, es, vs := Mul64(h.nodeCount, RADIX_NODE), Mul64(h.edgeCount, RADIX_EDGE), Mul64(h.valueCount, RADIX_VALUE);
    && h.magic == RADIX_MAGIC && h.nodeCount != 0 && h.valueCount == count
    && RangeOk(h.nodesOff, ns, size) && RangeOk(h.edgesOff, es, size) && RangeOk(h.valuesOff, vs, size)
    && h.nodesOff == RADIX_HEADER && h.edgesOff == Add64(h.nodesOff, ns) && h.valuesOff == Add64(h.edgesOff, es)
    && Add64(h.valuesOff, vs) == size
  }

  /** The section sizes do not overflow. */
  predicate RadixCountsFit(h: RadixHeader) {
    h.nodeCount * RADIX_NODE < TWO64 && h.edgeCount * RADIX_EDGE < TWO64 && h.valueCount * RADIX_VALUE < TWO64
  }

  /** An accepted header describes sections that fill the file if and only if no section size overflows. */
  lemma {:induction false} RadixHeaderFitsIff(h: RadixHeader, size: nat, count: nat)
    requires size <= MAX_FILE
    ensures RadixHeaderOk(h, size, count) ==> (RadixSectionsFit(h, size) <==> RadixCountsFit(h))
    ensures h.magic == RADIX_MAGIC && h.nodeCount != 0 && h.valueCount == count && RadixSectionsFit(h, size)
      ==> RadixHeaderOk(h, size, count)
  {
  }

  method CheckRadixHeader(h: RadixHeader, size: nat, count: nat) returns (ok: bool)
    ensures ok <==> RadixHeaderOk(h, size, count)
    ensures size <= MAX_FILE && RadixCountsFit(h) ==>
      (ok <==> h.magic == RADIX_MAGIC && RadixSectionsFit(h, size) && h.nodeCount != 0 && h.valueCount == count)
    ensures size <= MAX_FILE && ok && !RadixCountsFit(h) ==> !RadixSectionsFit(h, size)
  {
    if size <= MAX_FILE {
      RadixHeaderFitsIff(h, size, count);
    }
    if h.magic != RADIX_MAGIC || h.nodeCount == 0 || h.valueCount != count {
      return false;
    }
    var ns, es, vs := Mul64(h.nodeCount, RADIX_NODE), Mul64(h.edgeCount, RADIX_EDGE), Mul64(h.valueCount, RADIX_VALUE);
    if !RangeOk(h.nodesOff, ns, size) || !RangeOk(h.edgesOff, es, size) || !RangeOk(h.valuesOff, vs, size) {
      return false;
    }
    return h.nodesOff == RADIX_HEADER && h.edgesOff == Add64(h.nodesOff, ns) && h.valuesOff == Add64(h.edgesOff, es) &&
           Add64(h.valuesOff, vs) == size;
  }

  predicate RadixAccepted(index: Bytes, count: nat) {
    |index| >= RADIX_HEADER && RadixHeaderOk(RadixHeaderOf(index), |index|, count)
  }

  lemma {:induction false} AcceptedIsLaidOut(index: Bytes, count: nat)
    requires RadixAccepted(index, count)
    ensures RadixLaidOut(index)
  {
  }

  /** The checks on the value and the slice of a node, against the counts of the header. */
  predicate NodeCounted(h: RadixHeader, node: RadixNode) {
    node.firstEdge + node.edgeCount <= h.edgeCount && (node.valueIndex == NO_VALUE || node.valueIndex < h.valueCount)
  }

  predicate EdgesOk(h: RadixHeader, edges: seq<RadixEdge>) {
    (forall j :: 0 <= j < |edges| ==> edges[j].child < h.nodeCount) && SortedLabels(edges)
  }

  /** The edges of a node as far as they can be read. */
  function ReadableEdges(x: RadixIndex, node: RadixNode): seq<RadixEdge> {
    var end := node.firstEdge + node.edgeCount;
    if node.firstEdge >= |x.edges| then [] else x.edges[node.firstEdge..if end <= |x.edges| then end else |x.edges|]
  }

  /** A node that passes, all its edges inside the file. */
  predicate NodeOk(h: RadixHeader, x: RadixIndex, n: nat)
    requires n < |x.nodes|
  {
    var node := x.nodes[n];
    && NodeCounted(h, node) && EdgesOk(h, ReadableEdges(x, node))
    && |ReadableEdges(x, node)| == node.edgeCount
  }

  /** A node whose edges run off the file before a check fails. */
  predicate NodeRunsOff(h: RadixHeader, x: RadixIndex, n: nat)
    requires n < |x.nodes|
  {
    var node := x.nodes[n];
    && NodeCounted(h, node) && EdgesOk(h, ReadableEdges(x, node))
    && |ReadableEdges(x, node)| < node.edgeCount
  }

  ghost predicate NodesOk(h: RadixHeader, x: RadixIndex) {
    |x.nodes| == h.nodeCount && forall n :: 0 <= n < |x.nodes| ==> NodeOk(h, x, n)
  }

  /** Some node runs off the file, after others that pass. */
  ghost predicate NodesRunOff(h: RadixHeader, x: RadixIndex) {
    exists n :: 0 <= n <= |x.nodes| && RunsOffAt(h, x, n)
  }

  ghost predicate RunsOffAt(h: RadixHeader, x: RadixIndex, n: nat)
    requires n <= |x.nodes|
  {
    && n < h.nodeCount && (forall m :: 0 <= m < n ==> NodeOk(h, x, m))
    && (n < |x.nodes| ==> NodeRunsOff(h, x, n))
  }

  ghost const TERMINAL_NODE := (n: RadixNode) => if n.valueIndex == NO_VALUE then 0 else 1

  /** Header, nodes, edges, terminals and values are right, and lookups are safe. */
  ghost predicate RadixOk(index: Bytes, keys: Bytes, values: Bytes, count: nat) {
    && RadixAccepted(index, count) && RadixLaidOut(index)
    && var h, x := RadixHeaderOf(index), RadixSections(index);
    && NodesOk(h, x) && SafeIndex(x) && Total(x.nodes, TERMINAL_NODE) == count
    && |x.values| == h.valueCount && InRange(x.values, keys, values)
  }

  /** Validation itself leaves the file: in the node loop, or in the value loop behind it. */
  ghost predicate RadixRunsOff(index: Bytes, keys: Bytes, values: Bytes, count: nat) {
    && RadixAccepted(index, count) && RadixLaidOut(index)
    && var h, x := RadixHeaderOf(index), RadixSections(index);
    || NodesRunOff(h, x)
    || (NodesOk(h, x) && Total(x.nodes, TERMINAL_NODE) == count
        && |x.values| < h.valueCount && InRange(x.values, keys, values))
  }

  /** Nodes that pass make lookups safe. */
  lemma {:induction false} NodesOkAreSafe(h: RadixHeader, x: RadixIndex)
    requires NodesOk(h, x) && h.nodeCount > 0 && |x.values| == h.valueCount
    ensures SafeIndex(x)
  {
    forall n | 0 <= n < |x.nodes|
      ensures x.nodes[n].edgeCount == 0 || x.nodes[n].firstEdge + x.nodes[n].edgeCount <= |x.edges|
    {
      assert NodeOk(h, x, n);
    }
    forall n | 0 <= n < |x.nodes| ensures NodeSafe(x, n) {
      assert NodeOk(h, x, n) && EdgesOf(x, n) == ReadableEdges(x, x.nodes[n]);
    }
  }

  lemma {:induction false} ReadableEdge(x: RadixIndex, node: RadixNode, j: nat)
    requires j < node.edgeCount && node.firstEdge + j < |x.edges|
    ensures j < |ReadableEdges(x, node)| && ReadableEdges(x, node)[j] == x.edges[node.firstEdge + j]
  {
  }

  /** The loop over the edges of a node: child in range, labels strictly ascending. */
  method ValidateNode(h: RadixHeader, x: RadixIndex, n: nat) returns (v: Verdict)
    requires n < |x.nodes| && |x.edges| <= h.edgeCount
    ensures v == Accepted <==> NodeOk(h, x, n)
    ensures v == PastTheEnd <==> NodeRunsOff(h, x, n)
  {
    var node := x.nodes[n];
    if node.firstEdge + node.edgeCount > h.edgeCount {
      return Refused;
    }
    if node.valueIndex != NO_VALUE && node.valueIndex >= h.valueCount {
      return Refused;
    }
    ghost var edges := ReadableEdges(x, node);
    var prev: byte := 0;
    for j := 0 to node.edgeCount
      invariant j <= |edges| && EdgesOk(h, edges[..j])
      invariant j > 0 ==> prev == edges[j - 1].edgeLabel
    {
      if node.firstEdge + j >= |x.edges| {
        assert edges[..j] == edges;
        return PastTheEnd;
      }
      var e := x.edges[node.firstEdge + j];
      ReadableEdge(x, node, j);
      assert edges[..j + 1] == edges[..j] + [e];
      if e.child >= h.nodeCount {
        return Refused;
      }
      if j > 0 && e.edgeLabel <= prev {
        assert edges[j - 1].edgeLabel >= edges[j].edgeLabel;
        return Refused;
      }
      prev := e.edgeLabel;
    }
    assert edges[..node.edgeCount] == edges;
    return Accepted;
  }

  method ValidateNodes(h: RadixHeader, x: RadixIndex) returns (v: Verdict, terminals: nat)
    requires |x.nodes| <= h.nodeCount && |x.edges| <= h.edgeCount
    ensures v == Accepted <==> NodesOk(h, x)
    ensures v == PastTheEnd <==> NodesRunOff(h, x)
    ensures v == Accepted ==> terminals == Total(x.nodes, TERMINAL_NODE)
  {
    hide NodeOk, NodeRunsOff;
    terminals := 0;
    for i := 0 to h.nodeCount
      invariant i <= |x.nodes| && forall n :: 0 <= n < i ==> NodeOk(h, x, n)
      invariant terminals == Total(x.nodes[..i], TERMINAL_NODE)
    {
      if i == |x.nodes| {
        assert RunsOffAt(h, x, i);
        return PastTheEnd, terminals;
      }
      assert x.nodes[..i + 1][..i] == x.nodes[..i];
      v := ValidateNode(h, x, i);
      if v != Accepted {
        OneVerdict(h, x, i);
        return v, terminals;
      }
      if x.nodes[i].valueIndex != NO_VALUE {
        terminals := terminals + 1;
      }
    }
    assert x.nodes[..|x.nodes|] == x.nodes;
    VerdictsDiffer(h, x);
    return Accepted, terminals;
  }

  /** The first node that does not pass decides. */
  lemma {:induction false} OneVerdict(h: RadixHeader, x: RadixIndex, i: nat)
    requires i < |x.nodes| <= h.nodeCount && !NodeOk(h, x, i) && forall n :: 0 <= n < i ==> NodeOk(h, x, n)
    ensures !NodesOk(h, x) && (NodesRunOff(h, x) <==> NodeRunsOff(h, x, i))
  {
    if NodeRunsOff(h, x, i) {
      assert RunsOffAt(h, x, i);
    }
    if NodesRunOff(h, x) {
      var n :| 0 <= n <= |x.nodes| && RunsOffAt(h, x, n);
      assert n <= i;
      assert n < i ==> NodeOk(h, x, n) && NodeRunsOff(h, x, n);
    }
  }

  /** The loop over count rows of which only these lie in the file. */
  method ValuesVerdict(locs: seq<Loc>, count: nat, keys: Bytes, values: Bytes) returns (v: Verdict)
    requires |locs| <= count
    ensures v == Accepted <==> InRange(locs, keys, values) && |locs| == count
    ensures v == PastTheEnd <==> InRange(locs, keys, values) && |locs| < count
  {
    var ok := AllInRange(locs, keys, values);
    return if !ok then Refused else if |locs| < count then PastTheEnd else Accepted;
  }

  /** Accepts exactly the files on which lookups are safe; says when it would read outside the file itself. */
  method ValidateRadix(index: Bytes, keys: Bytes, values: Bytes, count: nat) returns (v: Verdict)
    ensures v == Accepted <==> RadixOk(index, keys, values, count)
    ensures v == PastTheEnd <==> RadixRunsOff(index, keys, values, count)
  {
    hide NodesOk, NodesRunOff, SafeIndex, RadixHeaderOk, RadixHeaderOf, RadixSections, InRange;
    if |index| < RADIX_HEADER {
      return Refused;
    }
    var h := RadixHeaderOf(index);
    var headerOk := CheckRadixHeader(h, |index|, count);
    if !headerOk {
      return Refused;
    }
    AcceptedIsLaidOut(index, count);
    var x := RadixSections(index);
    VerdictsDiffer(h, x);
    var terminals;
    v, terminals := ValidateNodes(h, x);
    if v != Accepted {
      return;
    }
    if terminals != count {
      return Refused;
    }
    v := ValuesVerdict(x.values, h.valueCount, keys, values);
    if v == Accepted {
      AcceptedHasNodes(index, count);
      NodesOkAreSafe(h, x);
    }
  }

  lemma {:induction false} AcceptedHasNodes(index: Bytes, count: nat)
    requires RadixAccepted(index, count)
    ensures RadixHeaderOf(index).nodeCount > 0 && RadixHeaderOf(index).valueCount == count
  {
  }

  lemma {:induction false} VerdictsDiffer(h: RadixHeader, x: RadixIndex)
    ensures !(NodesOk(h, x) && NodesRunOff(h, x))
  {
    forall n | 0 <= n <= |x.nodes| && RunsOffAt(h, x, n) ensures !NodesOk(h, x) {
      if n < |x.nodes| {
        assert !NodeOk(h, x, n);
      }
    }
  }

  // ---- Direct table ----

  ghost predicate DirectOk(index: Bytes, keys: Bytes, values: Bytes, count: nat) {
    && |index| % DIRECT_SLOT == 0
    && var slots := DirectSlots(index);
    && |Present(slots)| == count
    && forall s :: 0 <= s < |slots| && slots[s].present ==> LocInRange(slots[s].loc, |keys|, |values|)
  }

  method ValidateDirect(index: Bytes, keys: Bytes, values: Bytes, count: nat) returns (ok: bool)
    ensures ok <==> DirectOk(index, keys, values, count)
  {
    if |index| % DIRECT_SLOT != 0 {
      return false;
    }
    var slots := DirectSlots(index);
    ghost var here := (s: nat) => 0 <= s < |slots| && slots[s].present;
    var present := 0;
    for i := 0 to |slots|
      invariant present == |Select(i, here)|
      invariant forall s :: 0 <= s < i && slots[s].present ==> LocInRange(slots[s].loc, |keys|, |values|)
    {
      if slots[i].present {
        present := present + 1;
        if !LocInRange(slots[i].loc, |keys|, |values|) {
          return false;
        }
      }
    }
    SelectSame(|slots|, here, s => 0 <= s < |slots| && slots[s].present);
    return present == count;
  }

  lemma {:induction false} SelectSame(n: nat, p: nat -> bool, q: nat -> bool)
    requires forall k: nat :: p(k) == q(k)
    ensures Select(n, p) == Select(n, q)
  {
    if n > 0 {
      SelectSame(n - 1, p, q);
    }
  }

  // ---- Minimal perfect hash ----

  /** The header checks in the arithmetic of uint64_t. */
  predicate MphHeaderOk(h: MphHeader, size: nat, count: nat) {
    var bs, ss := Mul64(h.bucketCount, MPH_BUCKET), Mul64(h.slotCount, MPH_SLOT);
    && h.magic == MPH_MAGIC && h.bucketCount == count && h.slotCount == count
    && RangeOk(h.bucketsOff, bs, size) && RangeOk(h.slotsOff, ss, size)
    && h.bucketsOff == MPH_HEADER && h.slotsOff == Add64(h.bucketsOff, bs) && Add64(h.slotsOff, ss) == size
  }

  predicate MphCountsFit(h: MphHeader) {
    h.bucketCount * MPH_BUCKET < TWO64 && h.slotCount * MPH_SLOT < TWO64
  }

  lemma {:induction false} MphHeaderFitsIff(h: MphHeader, size: nat, count: nat)
    requires size <= MAX_FILE
    ensures MphHeaderOk(h, size, count) ==> (MphSectionsFit(h, size) <==> MphCountsFit(h))
    ensures h.magic == MPH_MAGIC && h.bucketCount == h.slotCount == count && MphSectionsFit(h, size)
      ==> MphHeaderOk(h, size, count)
  {
  }

  predicate MphAccepted(index: Bytes, count: nat) {
    |index| >= MPH_HEADER && MphHeaderOk(MphHeaderOf(index), |index|, count)
  }

  method CheckMphHeader(h: MphHeader, size: nat, count: nat) returns (ok: bool)
    ensures ok <==> MphHeaderOk(h, size, count)
    ensures size <= MAX_FILE && MphCountsFit(h) ==>
      (ok <==> h.magic == MPH_MAGIC && MphSectionsFit(h, size) && h.bucketCount == h.slotCount == count)
    ensures size <= MAX_FILE && ok && !MphCountsFit(h) ==> !MphSectionsFit(h, size)
  {
    if size <= MAX_FILE {
      MphHeaderFitsIff(h, size, count);
    }
    if h.magic != MPH_MAGIC || h.bucketCount != count || h.slotCount != count {
      return false;
    }
    var bs, ss := Mul64(h.bucketCount, MPH_BUCKET), Mul64(h.slotCount, MPH_SLOT);
    if !RangeOk(h.bucketsOff, bs, size) || !RangeOk(h.slotsOff, ss, size) {
      return false;
    }
    return h.bucketsOff == MPH_HEADER && h.slotsOff == Add64(h.bucketsOff, bs) && Add64(h.slotsOff, ss) == size;
  }

  /** What the slot loop asks of the slots it reads. */
  ghost predicate PresentInRange(slots: seq<MphSlot>, keys: Bytes, values: Bytes) {
    forall s :: 0 <= s < |slots| && slots[s].present ==> LocInRange(slots[s].loc, |keys|, |values|)
  }

  ghost predicate MphOk(index: Bytes, keys: Bytes, values: Bytes, count: nat) {
    && MphAccepted(index, count) && MphLaidOut(index)
    && var x := MphSections(index);
    && |x.seeds| == |x.slots| == count && PresentInRange(x.slots, keys, values)
    && forall s :: 0 <= s < |x.slots| ==> x.slots[s].present
  }

  /** The slot loop itself leaves the file. */
  ghost predicate MphRunsOff(index: Bytes, keys: Bytes, values: Bytes, count: nat) {
    && MphAccepted(index, count) && MphLaidOut(index)
    && |MphSections(index).slots| < count && PresentInRange(MphSections(index).slots, keys, values)
  }

  /** When all slots lie in the file, so do all seeds. */
  lemma {:induction false} SeedsLieInFile(index: Bytes, count: nat)
    requires MphAccepted(index, count) && |index| <= MAX_FILE
    ensures MphLaidOut(index) && |MphSections(index).slots| <= count
    ensures |MphSections(index).slots| == count ==>
      MphCountsFit(MphHeaderOf(index)) && |MphSections(index).seeds| == count
  {
    var h, x := MphHeaderOf(index), MphSections(index);
    if |x.slots| == count {
      SlotsLieInFile(index);
    }
  }

  lemma {:induction false} SlotsLieInFile(index: Bytes)
    requires MphLaidOut(index)
    ensures MphHeaderOf(index).slotsOff + |MphSections(index).slots| * MPH_SLOT <= |index|
  {
    ReadLiesInFile(index, MphHeaderOf(index).slotsOff, MphHeaderOf(index).slotCount, MPH_SLOT, DecMphSlot);
  }

  method ValidateMph(index: Bytes, keys: Bytes, values: Bytes, count: nat) returns (v: Verdict)
    requires |index| <= MAX_FILE
    ensures v == Accepted <==> MphOk(index, keys, values, count)
    ensures v == PastTheEnd <==> MphRunsOff(index, keys, values, count)
  {
    hide MphHeaderOk, MphHeaderOf, MphSections;
    if |index| < MPH_HEADER {
      return Refused;
    }
    var headerOk := CheckMphHeader(MphHeaderOf(index), |index|, count);
    if !headerOk {
      return Refused;
    }
    SeedsLieInFile(index, count);
    v := SlotsVerdict(MphSections(index).slots, count, keys, values);
  }

  /** The loop over count slots of which only these lie in the file. */
  method SlotsVerdict(slots: seq<MphSlot>, count: nat, keys: Bytes, values: Bytes) returns (v: Verdict)
    requires |slots| <= count
    ensures v == Accepted <==>
      |slots| == count && PresentInRange(slots, keys, values) && forall s :: 0 <= s < |slots| ==> slots[s].present
    ensures v == PastTheEnd <==> |slots| < count && PresentInRange(slots, keys, values)
  {
    var present := 0;
    for i := 0 to count
      invariant i <= |slots| && 0 <= present <= i
      invariant present == i <==> forall s :: 0 <= s < i ==> slots[s].present
      invariant forall s :: 0 <= s < i && slots[s].present ==> LocInRange(slots[s].loc, |keys|, |values|)
    {
      if i == |slots| {
        return PastTheEnd;
      }
      if slots[i].present {
        present := present + 1;
        if !LocInRange(slots[i].loc, |keys|, |values|) {
          return Refused;
        }
      }
    }
    return if present == count then Accepted else Refused;
  }

  // ---- All backends ----

  /** The structural checks of one backend; the log is checked by its parser. */
  ghost predicate BackendOk(b: Backend, f: IndexFiles) {
    match b
    case SortedBackend => SortedOk(f.index, f.keys, f.values, f.count)
    case RadixBackend => RadixOk(f.index, f.keys, f.values, f.count)
    case DirectBackend => DirectOk(f.index, f.keys, f.values, f.count)
    case MphBackend => MphOk(f.index, f.keys, f.values, f.count)
    case LogBackend => true
  }

  /** The structural checks themselves read outside the index file. */
  ghost predicate BackendRunsOff(b: Backend, f: IndexFiles) {
    match b
    case RadixBackend => RadixRunsOff(f.index, f.keys, f.values, f.count)
    case MphBackend => MphRunsOff(f.index, f.keys, f.values, f.count)
    case _ => false
  }

  function IndexPart(c: Cache): IndexFiles {
    IndexFiles(c.index, c.keys, c.values, c.manifest.count)
  }

  ghost predicate StructureOk(c: Cache) {
    BackendOk(c.manifest.schema.backend, IndexPart(c))
  }

  ghost predicate RunsOff(c: Cache) {
    BackendRunsOff(c.manifest.schema.backend, IndexPart(c))
  }

  method ValidateBackend(b: Backend, f: IndexFiles) returns (v: Verdict)
    requires |f.index| <= MAX_FILE
    ensures v == Accepted <==> BackendOk(b, f)
    ensures v == PastTheEnd <==> BackendRunsOff(b, f)
  {
    hide RadixOk, MphOk, SortedOk, DirectOk, RadixRunsOff, MphRunsOff;
    var ok: bool;
    match b {
      case SortedBackend => ok := ValidateSorted(f.index, f.keys, f.values, f.count);
      case RadixBackend => v := ValidateRadix(f.index, f.keys, f.values, f.count); return;
      case DirectBackend => ok := ValidateDirect(f.index, f.keys, f.values, f.count);
      case MphBackend => v := ValidateMph(f.index, f.keys, f.values, f.count); return;
      case LogBackend => ok := true;
    }
    return if ok then Accepted else Refused;
  }

  method ValidateReaderFiles(c: Cache) returns (v: Verdict)
    requires |c.index| <= MAX_FILE
    ensures v == Accepted <==> Intact(c, Crc64) && StructureOk(c)
    ensures v == PastTheEnd <==> Intact(c, Crc64) && RunsOff(c)
  {
    hide FileIntact, BackendOk, BackendRunsOff;
    var m := c.manifest;
    var ok := CheckFile(c.index, m.index);
    if !ok { return Refused; }
    ok := CheckFile(c.keys, m.keys);
    if !ok { return Refused; }
    ok := CheckFile(c.values, m.values);
    if !ok { return Refused; }
    ok := CheckFile(c.log, m.log);
    if !ok { return Refused; }
    v := ValidateBackend(m.schema.backend, IndexPart(c));
  }
}
