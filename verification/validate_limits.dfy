/** Section sizes that overflow uint64_t: src/api/fce_reader_api.c lines 27-36 and 70-77. The products in the
    header checks are not guarded, and the loops behind them trust the counts. */
module ValidationLimits {
  import opened Bytes
  import opened Format
  import opened RadixTrie
  import opened RadixFlat
  import opened Mph
  import opened Schemas
  import opened SortedIndex
  import opened Log
  import opened Validation
  import opened Reader

  /** The counts of a header fit, for the backends that multiply them. */
  predicate CountsFit(b: Backend, index: Bytes) {
    && (b == RadixBackend && |index| >= RADIX_HEADER ==> RadixCountsFit(RadixHeaderOf(index)))
    && (b == MphBackend && |index| >= MPH_HEADER ==> MphCountsFit(MphHeaderOf(index)))
  }

  /** Without overflow validation stays inside the file, whatever the file holds. */
  lemma {:induction false} NoOverflowStaysInside(b: Backend, f: IndexFiles)
    requires |f.index| <= MAX_FILE && CountsFit(b, f.index)
    ensures !BackendRunsOff(b, f)
  {
    if b == RadixBackend && RadixAccepted(f.index, f.count) {
      RadixInside(f.index, f.keys, f.values, f.count);
    }
    if b == MphBackend && MphAccepted(f.index, f.count) {
      MphInside(f.index, f.count);
    }
  }

  lemma {:induction false} RadixInside(index: Bytes, keys: Bytes, values: Bytes, count: nat)
    requires |index| <= MAX_FILE && RadixAccepted(index, count) && RadixCountsFit(RadixHeaderOf(index))
    ensures !RadixRunsOff(index, keys, values, count)
  {
    hide RadixHeaderOf, RadixSections, RadixHeaderOk;
    var h := RadixHeaderOf(index);
    RadixHeaderFitsIff(h, |index|, count);
    AcceptedIsMagic(index, count);
    RadixSectionsWhole(index);
    WholeNodesStay(h, RadixSections(index));
  }

  lemma {:induction false} AcceptedIsMagic(index: Bytes, count: nat)
    requires RadixAccepted(index, count)
    ensures RadixHeaderOf(index).magic == RADIX_MAGIC
  {
  }

  lemma {:induction false} WholeNodesStay(h: RadixHeader, x: RadixIndex)
    requires |x.nodes| == h.nodeCount && |x.edges| == h.edgeCount
    ensures !NodesRunOff(h, x)
  {
  }

  lemma {:induction false} MphInside(index: Bytes, count: nat)
    requires |index| <= MAX_FILE && MphAccepted(index, count) && MphCountsFit(MphHeaderOf(index))
    ensures MphLaidOut(index) && |MphSections(index).slots| == count
  {
    hide MphHeaderOf, MphSections;
    MphHeaderFitsIff(MphHeaderOf(index), |index|, count);
    MphSectionsWhole(index);
  }

  /** With overflow a perfect-hash file is never accepted: a bad slot refuses it, or the loop leaves the file. */
  lemma {:induction false} MphOverflowRunsOffIff(index: Bytes, keys: Bytes, values: Bytes, count: nat)
    requires |index| <= MAX_FILE && MphAccepted(index, count) && !MphCountsFit(MphHeaderOf(index))
    ensures MphLaidOut(index) && !MphOk(index, keys, values, count)
    ensures MphRunsOff(index, keys, values, count) <==> PresentInRange(MphSections(index).slots, keys, values)
  {
    SeedsLieInFile(index, count);
  }

  /** With overflowing node or value counts a radix file is never accepted. */
  lemma {:induction false} RadixOverflowIsNotAccepted(index: Bytes, keys: Bytes, values: Bytes, count: nat)
    requires |index| <= MAX_FILE && RadixAccepted(index, count)
    requires var h := RadixHeaderOf(index);
      h.nodeCount * RADIX_NODE >= TWO64 || h.valueCount * RADIX_VALUE >= TWO64
    ensures !RadixOk(index, keys, values, count)
  {
    hide RadixHeaderOf;
    AcceptedIsLaidOut(index, count);
    var h := RadixHeaderOf(index);
    ReadLiesInFile(index, h.nodesOff, h.nodeCount, RADIX_NODE, DecNode);
    ReadLiesInFile(index, h.valuesOff, h.valueCount, RADIX_VALUE, DecValue);
  }

  // ---- Files that make validation leave the file ----

  const NODES_THAT_WRAP: u64 := 0x1000_0000_0000_0001

  /** 2^60 + 1 nodes of 16 bytes are 16 bytes again. */
  const WRAPPING_RADIX: RadixHeader := RadixHeader(RADIX_MAGIC, NODES_THAT_WRAP, 0, 0, 56, 72, 72)

  /** A header and one leaf. */
  function WrappingRadixFile(): Bytes {
    Pack([RADIX_MAGIC, NODES_THAT_WRAP, 0, 0, 56, 72, 72], RADIX_HEADER_WIDTHS) + EncNode(RadixNode(0, 0, NO_VALUE))
  }

  lemma {:induction false} WrappingRadixHeader()
    ensures |WrappingRadixFile()| == 72 && RadixHeaderOf(WrappingRadixFile()) == WRAPPING_RADIX
    ensures WrappingRadixFile()[56..72] == EncNode(RadixNode(0, 0, NO_VALUE))
  {
    hide Pack, Unpack, EncNode, Sum;
    var fields := [RADIX_MAGIC, NODES_THAT_WRAP, 0, 0, 56, 72, 72];
    var head, tail := Pack(fields, RADIX_HEADER_WIDTHS), EncNode(RadixNode(0, 0, NO_VALUE));
    Pow256Values();
    RadixHeaderWidths();
    PackRoundTrip(fields, RADIX_HEADER_WIDTHS);
    NodeRow(RadixNode(0, 0, NO_VALUE));
    assert (head + tail)[..56] == head && (head + tail)[56..] == tail;
    assert Unpack(WrappingRadixFile()[..56], RADIX_HEADER_WIDTHS) == fields;
  }

  /** The header passes although its sections do not fit, and the node loop reads on behind the one node. */
  lemma {:induction false} WrappingRadixRunsOff(keys: Bytes, values: Bytes)
    ensures RadixAccepted(WrappingRadixFile(), 0) && !RadixSectionsFit(WRAPPING_RADIX, 72)
    ensures RadixRunsOff(WrappingRadixFile(), keys, values, 0)
  {
    hide RadixHeaderOf, WrappingRadixFile;
    var index := WrappingRadixFile();
    WrappingRadixHeader();
    OneNode(index);
    assert RunsOffAt(WRAPPING_RADIX, RadixSections(index), 1);
  }

  lemma {:induction false} OneNode(index: Bytes)
    requires |index| == 72 && RadixHeaderOf(index) == WRAPPING_RADIX
    requires index[56..72] == EncNode(RadixNode(0, 0, NO_VALUE))
    ensures RadixLaidOut(index) && RadixSections(index).nodes == [RadixNode(0, 0, NO_VALUE)]
  {
    hide RadixHeaderOf;
    NodeRow(RadixNode(0, 0, NO_VALUE));
    assert Row(index[56..72], 16, 0) == index[56..72];
  }

  const SLOTS_THAT_WRAP: u64 := 0x2000_0000_0000_0000

  /** 2^61 seeds of 8 bytes and as many slots of 48 are no bytes at all. */
  function WrappingMphFile(): Bytes {
    Pack([MPH_MAGIC, SLOTS_THAT_WRAP, SLOTS_THAT_WRAP, 40, 40], MPH_HEADER_WIDTHS)
  }

  lemma {:induction false} WrappingMphRunsOff(keys: Bytes, values: Bytes)
    ensures |WrappingMphFile()| == 40
    ensures MphHeaderOf(WrappingMphFile()) == MphHeader(MPH_MAGIC, SLOTS_THAT_WRAP, SLOTS_THAT_WRAP, 40, 40)
    ensures MphRunsOff(WrappingMphFile(), keys, values, SLOTS_THAT_WRAP)
  {
    var fields := [MPH_MAGIC, SLOTS_THAT_WRAP, SLOTS_THAT_WRAP, 40, 40];
    Pow256Values();
    PackRoundTrip(fields, MPH_HEADER_WIDTHS);
    var index := WrappingMphFile();
    assert index[..40] == index;
    EmptyTail(index);
  }

  lemma {:induction false} EmptyTail(index: Bytes)
    requires MphLaidOut(index) && MphHeaderOf(index).slotsOff == |index|
    ensures MphSections(index).slots == []
  {
    hide MphHeaderOf;
    SlotsLieInFile(index);
  }

  /** Both files can sit in a directory with a valid schema and matching sizes and checksums. */
  lemma {:induction false} DirectoryThatRunsOff(s: Schema, sum: Checksum)
    requires SchemaOk(s) && (s.backend == RadixBackend || s.backend == MphBackend)
    ensures exists c: Cache :: c.manifest.schema == s && Intact(c, sum) && RunsOff(c)
  {
    hide WrappingRadixFile, WrappingMphFile, RadixRunsOff, MphRunsOff;
    var index, count := if s.backend == RadixBackend then WrappingRadixFile() else WrappingMphFile(),
                        if s.backend == RadixBackend then 0 else SLOTS_THAT_WRAP;
    if s.backend == RadixBackend {
      WrappingRadixRunsOff([], []);
    } else {
      WrappingMphRunsOff([], []);
    }
    var c := IndexCache(s, IndexFiles(index, [], [], count), [], sum);
    assert IndexPart(c) == IndexFiles(index, [], [], count);
    IndexCacheIntact(s, IndexFiles(index, [], [], count), [], sum);
    assert c.manifest.schema == s && Intact(c, sum) && RunsOff(c);
  }
}
