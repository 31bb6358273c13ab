/** Where every field lies on disk: the structs of src/internal/fce_internal.h lines 58-135, the index headers and
    the log record. */
module DiskLayout {
  import opened Bytes
  import opened Records
  import opened Format
  import DirectTable
  import opened RadixFlat
  import opened Mph
  import opened Log

  /** The little-endian number of w bytes at an offset. */
  ghost function Field(b: Bytes, at: nat, w: nat): nat
    requires at + w <= |b|
  {
    UnLe(b[at..at + w])
  }

  // ---- A row of fields ----

  /** The bytes before field i. */
  ghost function Offset(ws: seq<nat>, i: nat): nat
    requires i <= |ws|
  {
    if i == 0 then 0 else Offset(ws, i - 1) + ws[i - 1]
  }

  lemma {:induction false} OffsetOfTail(ws: seq<nat>, i: nat)
    requires 0 < i <= |ws|
    ensures Offset(ws, i) == ws[0] + Offset(ws[1..], i - 1)
  {
    if i > 1 {
      OffsetOfTail(ws, i - 1);
    }
  }

  lemma {:induction false} Within(b: Bytes, start: nat, at: nat, w: nat)
    requires start + at + w <= |b|
    ensures Field(b[start..], at, w) == Field(b, start + at, w)
  {
    assert b[start..][at..at + w] == b[start + at..start + at + w];
  }

  lemma {:induction false} UnpackAt(b: Bytes, ws: seq<nat>, i: nat)
    requires |b| == Sum(ws) && i < |ws|
    ensures Offset(ws, i) + ws[i] <= |b| && Unpack(b, ws)[i] == Field(b, Offset(ws, i), ws[i])
  {
    hide UnLe;
    if i > 0 {
      UnpackAt(b[ws[0]..], ws[1..], i - 1);
      OffsetOfTail(ws, i);
      Within(b, ws[0], Offset(ws[1..], i - 1), ws[i]);
    }
  }

  /** The fields of a row, read where they lie. */
  lemma {:induction false} UnpackFields(b: Bytes, ws: seq<nat>)
    requires |b| == Sum(ws)
    ensures forall i :: 0 <= i < |ws| ==>
      Offset(ws, i) + ws[i] <= |b| && Unpack(b, ws)[i] == Field(b, Offset(ws, i), ws[i])
  {
    forall i | 0 <= i < |ws|
      ensures Offset(ws, i) + ws[i] <= |b| && Unpack(b, ws)[i] == Field(b, Offset(ws, i), ws[i])
    {
      UnpackAt(b, ws, i);
    }
  }

  lemma {:induction false} OffsetValues(ws: seq<nat>)
    requires |ws| >= 3
    ensures Offset(ws, 0) == 0 && Offset(ws, 1) == ws[0] && Offset(ws, 2) == ws[0] + ws[1]
    ensures |ws| >= 4 ==> Offset(ws, 3) == Offset(ws, 2) + ws[2]
    ensures |ws| >= 5 ==> Offset(ws, 4) == Offset(ws, 3) + ws[3]
    ensures |ws| >= 7 ==> Offset(ws, 5) == Offset(ws, 4) + ws[4] && Offset(ws, 6) == Offset(ws, 5) + ws[5]
    ensures |ws| >= 8 ==> Offset(ws, 7) == Offset(ws, 6) + ws[6]
  {
  }

  lemma {:induction false} Shift(b: Bytes, at: nat, size: nat)
    requires at + size <= |b|
    ensures forall k: nat, w: nat {:trigger Field(b[at..at + size], k, w)} :: k + w <= size ==>
      Field(b[at..at + size], k, w) == Field(b, at + k, w)
  {
    forall k: nat, w: nat {:trigger Field(b[at..at + size], k, w)} | k + w <= size
      ensures Field(b[at..at + size], k, w) == Field(b, at + k, w)
    {
      SubSlice(b, at, b[at..at + size], k, k + w);
    }
  }

  // ---- The structs ----

  ghost predicate SortedAt(b: Bytes, at: nat, x: SortedEntry) {
    && at + 48 <= |b|
    && Field(b, at, 8) == x.hash.lo && Field(b, at + 8, 8) == x.hash.hi
    && Field(b, at + 16, 8) == x.loc.keyOff && Field(b, at + 24, 4) == x.loc.keyLen
    && Field(b, at + 32, 8) == x.loc.valOff && Field(b, at + 40, 4) == x.loc.valLen
  }

  lemma {:induction false} SortedLies(b: Bytes, at: nat)
    requires at + 48 <= |b|
    ensures SortedAt(b, at, DecSorted(b[at..at + 48]))
  {
    hide Unpack, Sum, Field, Offset;
    var row := b[at..at + 48];
    Widths();
    UnpackFields(row, SORTED_WIDTHS);
    OffsetValues(SORTED_WIDTHS);
    Shift(b, at, 48);
  }

  ghost predicate DirectAt(b: Bytes, at: nat, x: DirectSlot) {
    && at + 40 <= |b|
    && (Field(b, at, 1) != 0 <==> x.present) && Field(b, at + 8, 8) == x.keyU64
    && Field(b, at + 16, 8) == x.loc.keyOff && Field(b, at + 24, 4) == x.loc.keyLen
    && Field(b, at + 28, 4) == x.loc.valLen && Field(b, at + 32, 8) == x.loc.valOff
  }

  lemma {:induction false} DirectLies(b: Bytes, at: nat)
    requires at + 40 <= |b|
    ensures DirectAt(b, at, DecDirect(b[at..at + 40]))
  {
    hide Unpack, Sum, Field, Offset;
    var row := b[at..at + 40];
    Widths();
    UnpackFields(row, DIRECT_WIDTHS);
    OffsetValues(DIRECT_WIDTHS);
    Shift(b, at, 40);
  }

  ghost predicate MphSlotAt(b: Bytes, at: nat, x: MphSlot) {
    && at + 48 <= |b|
    && (Field(b, at, 1) != 0 <==> x.present) && Field(b, at + 8, 8) == x.hash.lo
    && Field(b, at + 16, 8) == x.hash.hi && Field(b, at + 24, 8) == x.loc.keyOff
    && Field(b, at + 32, 4) == x.loc.keyLen && Field(b, at + 36, 4) == x.loc.valLen
    && Field(b, at + 40, 8) == x.loc.valOff
  }

  lemma {:induction false} MphSlotLies(b: Bytes, at: nat)
    requires at + 48 <= |b|
    ensures MphSlotAt(b, at, DecMphSlot(b[at..at + 48]))
  {
    hide Unpack, Sum, Field, Offset;
    var row := b[at..at + 48];
    Widths();
    UnpackFields(row, MPH_SLOT_WIDTHS);
    OffsetValues(MPH_SLOT_WIDTHS);
    Shift(b, at, 48);
  }

  ghost predicate NodeAt(b: Bytes, at: nat, x: RadixNode) {
    && at + 16 <= |b|
    && Field(b, at, 4) == x.firstEdge && Field(b, at + 4, 4) == x.edgeCount
    && Field(b, at + 8, 4) == x.valueIndex
  }

  lemma {:induction false} NodeLies(b: Bytes, at: nat)
    requires at + 16 <= |b|
    ensures NodeAt(b, at, DecNode(b[at..at + 16]))
  {
    hide Unpack, Sum, Field, Offset;
    var row := b[at..at + 16];
    Widths();
    UnpackFields(row, RADIX_NODE_WIDTHS);
    OffsetValues(RADIX_NODE_WIDTHS);
    Shift(b, at, 16);
  }

  ghost predicate EdgeAt(b: Bytes, at: nat, x: RadixEdge) {
    && at + 8 <= |b|
    && Field(b, at, 1) == x.edgeLabel && Field(b, at + 4, 4) == x.child
  }

  lemma {:induction false} EdgeLies(b: Bytes, at: nat)
    requires at + 8 <= |b|
    ensures EdgeAt(b, at, DecEdge(b[at..at + 8]))
  {
    hide Unpack, Sum, Field, Offset;
    var row := b[at..at + 8];
    Widths();
    UnpackFields(row, RADIX_EDGE_WIDTHS);
    OffsetValues(RADIX_EDGE_WIDTHS);
    Shift(b, at, 8);
  }

  ghost predicate RadixValueAt(b: Bytes, at: nat, x: Loc) {
    && at + 24 <= |b|
    && Field(b, at, 8) == x.keyOff && Field(b, at + 8, 4) == x.keyLen
    && Field(b, at + 12, 4) == x.valLen && Field(b, at + 16, 8) == x.valOff
  }

  lemma {:induction false} ValueLies(b: Bytes, at: nat)
    requires at + 24 <= |b|
    ensures RadixValueAt(b, at, DecValue(b[at..at + 24]))
  {
    hide Unpack, Sum, Field, Offset;
    var row := b[at..at + 24];
    Widths();
    UnpackFields(row, RADIX_VALUE_WIDTHS);
    OffsetValues(RADIX_VALUE_WIDTHS);
    Shift(b, at, 24);
  }

  // ---- The files ----

  /** Row i of a section starts at i times the size of a row. */
  lemma {:induction false} RowLies<T>(b: Bytes, size: nat, dec: Bytes --> T, i: nat)
    requires size > 0 && forall row: Bytes :: |row| == size ==> dec.requires(row)
    requires i < |DecodeTable(b, size, dec)|
    ensures i * size + size <= |b| && DecodeTable(b, size, dec)[i] == dec(b[i * size..i * size + size])
  {
    TableBounds(|b|, size, i);
    assert (i + 1) * size == i * size + size;
    assert Row(b, size, i) == b[i * size..i * size + size];
  }

  lemma {:induction false} SectionRowLies<T>(b: Bytes, off: nat, n: nat, size: nat, dec: Bytes --> T, i: nat)
    requires size > 0 && forall row: Bytes :: |row| == size ==> dec.requires(row)
    requires off <= |b| && i < |ReadTable(b, off, n, size, dec)|
    ensures off + i * size + size <= |b|
    ensures ReadTable(b, off, n, size, dec)[i] == dec(b[off + i * size..off + i * size + size])
  {
    hide DecodeTable, Fitting;
    var m := Fitting(|b| - off, n, size);
    var section := b[off..off + m * size];
    RowLies(section, size, dec, i);
    SubSlice(b, off, section, i * size, i * size + size);
  }

  /** A sorted index is an array of 48-byte entries, a direct table one of 40-byte slots. */
  lemma {:induction false} SortedFile(index: Bytes, i: nat)
    requires i < |index| / 48
    ensures |DecodeTable(index, SORTED_ENTRY, DecSorted)| == |index| / 48
    ensures SortedAt(index, 48 * i, DecodeTable(index, SORTED_ENTRY, DecSorted)[i])
  {
    hide SortedAt, DecSorted;
    RowLies(index, SORTED_ENTRY, DecSorted, i);
    SortedLies(index, 48 * i);
  }

  lemma {:induction false} DirectFile(index: Bytes, k: nat)
    requires k < |index| / 40
    ensures |DirectTable.DirectSlots(index)| == |index| / 40
    ensures DirectAt(index, 40 * k, DirectTable.DirectSlots(index)[k])
  {
    hide DirectAt, DecDirect;
    RowLies(index, DIRECT_SLOT, DecDirect, k);
    DirectLies(index, 40 * k);
  }

  /** A header of 64-bit words. */
  lemma {:induction false} WordsLie(b: Bytes, ws: seq<nat>)
    requires |b| >= Sum(ws) && forall i :: 0 <= i < |ws| ==> ws[i] == 8
    ensures forall i :: 0 <= i < |ws| ==>
      8 * i + 8 <= |b| && Unpack(b[..Sum(ws)], ws)[i] == Field(b, 8 * i, 8)
  {
    hide Unpack;
    var row := b[..Sum(ws)];
    UnpackFields(row, ws);
    forall i | 0 <= i < |ws| ensures 8 * i + 8 <= |b| && Unpack(row, ws)[i] == Field(b, 8 * i, 8) {
      OffsetOfEights(ws, i);
      assert row[8 * i..8 * i + 8] == b[8 * i..8 * i + 8];
    }
  }

  lemma {:induction false} OffsetOfEights(ws: seq<nat>, i: nat)
    requires i <= |ws| && forall k :: 0 <= k < |ws| ==> ws[k] == 8
    ensures Offset(ws, i) == 8 * i
  {
    if i > 0 {
      OffsetOfEights(ws, i - 1);
    }
  }

  /** The 56-byte header of a trie. */
  lemma {:induction false} RadixHeaderLies(index: Bytes)
    requires |index| >= 56
    ensures RadixHeaderOf(index) == RadixHeader(Field(index, 0, 8), Field(index, 8, 8), Field(index, 16, 8),
      Field(index, 24, 8), Field(index, 32, 8), Field(index, 40, 8), Field(index, 48, 8))
  {
    hide Unpack, Sum, Field, Offset;
    RadixHeaderWidths();
    WordsLie(index, RADIX_HEADER_WIDTHS);
  }

  /** And its sections: 16-byte nodes, 8-byte edges, 24-byte values, where the header says. */
  lemma {:induction false} RadixNodeLies(index: Bytes, i: nat)
    requires RadixLaidOut(index) && i < |RadixSections(index).nodes|
    ensures NodeAt(index, Field(index, 32, 8) + 16 * i, RadixSections(index).nodes[i])
  {
    hide RadixHeaderOf, NodeAt, DecNode, ReadTable;
    RadixHeaderLies(index);
    var h := RadixHeaderOf(index);
    SectionRowLies(index, h.nodesOff, h.nodeCount, RADIX_NODE, DecNode, i);
    NodeLies(index, h.nodesOff + 16 * i);
  }

  lemma {:induction false} RadixEdgeLies(index: Bytes, i: nat)
    requires RadixLaidOut(index) && i < |RadixSections(index).edges|
    ensures EdgeAt(index, Field(index, 40, 8) + 8 * i, RadixSections(index).edges[i])
  {
    hide RadixHeaderOf, EdgeAt, DecEdge, ReadTable;
    RadixHeaderLies(index);
    var h := RadixHeaderOf(index);
    SectionRowLies(index, h.edgesOff, h.edgeCount, RADIX_EDGE, DecEdge, i);
    EdgeLies(index, h.edgesOff + 8 * i);
  }

  lemma {:induction false} RadixValueLies(index: Bytes, i: nat)
    requires RadixLaidOut(index) && i < |RadixSections(index).values|
    ensures RadixValueAt(index, Field(index, 48, 8) + 24 * i, RadixSections(index).values[i])
  {
    hide RadixHeaderOf, RadixValueAt, DecValue, ReadTable;
    RadixHeaderLies(index);
    var h := RadixHeaderOf(index);
    SectionRowLies(index, h.valuesOff, h.valueCount, RADIX_VALUE, DecValue, i);
    ValueLies(index, h.valuesOff + 24 * i);
  }

  ghost predicate SeedAt(b: Bytes, at: nat, seed: u64) {
    at + 8 <= |b| && Field(b, at, 8) == seed
  }

  /** The 40-byte header of a perfect hash. */
  lemma {:induction false} MphHeaderLies(index: Bytes)
    requires |index| >= 40
    ensures MphHeaderOf(index) == MphHeader(Field(index, 0, 8), Field(index, 8, 8), Field(index, 16, 8),
      Field(index, 24, 8), Field(index, 32, 8))
  {
    hide Unpack, Sum, Field, Offset;
    MphHeaderWidths();
    WordsLie(index, MPH_HEADER_WIDTHS);
  }

  /** And its sections: 8-byte seeds and 48-byte slots. */
  lemma {:induction false} MphFile(index: Bytes, i: nat)
    requires MphLaidOut(index)
    ensures var x := MphSections(index);
      && (i < |x.seeds| ==> SeedAt(index, Field(index, 24, 8) + 8 * i, x.seeds[i]))
      && (i < |x.slots| ==> MphSlotAt(index, Field(index, 32, 8) + 48 * i, x.slots[i]))
  {
    hide MphHeaderOf, MphSlotAt, DecMphSlot, ReadTable;
    MphHeaderLies(index);
    var h, x := MphHeaderOf(index), MphSections(index);
    if i < |x.seeds| {
      SectionRowLies(index, h.bucketsOff, h.bucketCount, MPH_BUCKET, DecBucket, i);
    }
    if i < |x.slots| {
      SectionRowLies(index, h.slotsOff, h.slotCount, MPH_SLOT, DecMphSlot, i);
      MphSlotLies(index, h.slotsOff + 48 * i);
    }
  }

  // ---- What is written ----

  /** A trie starts with FCERADX1, a perfect hash with FCEMPH1 and a zero, a log record with FCELOG1 and a zero. */
  lemma {:induction false} Magics()
    ensures Le(RADIX_MAGIC, 8) == [0x46, 0x43, 0x45, 0x52, 0x41, 0x44, 0x58, 0x31]
    ensures Le(MPH_MAGIC, 8) == [0x46, 0x43, 0x45, 0x4d, 0x50, 0x48, 0x31, 0x00]
    ensures Le(MAGIC, 8) == [0x46, 0x43, 0x45, 0x4c, 0x4f, 0x47, 0x31, 0x00]
  {
    hide Le, UnLe;
    EightBytes([0x46, 0x43, 0x45, 0x52, 0x41, 0x44, 0x58, 0x31], RADIX_MAGIC);
    EightBytes([0x46, 0x43, 0x45, 0x4d, 0x50, 0x48, 0x31, 0x00], MPH_MAGIC);
    EightBytes([0x46, 0x43, 0x45, 0x4c, 0x4f, 0x47, 0x31, 0x00], MAGIC);
  }

  lemma {:induction false} EightBytes(b: Bytes, n: nat)
    requires |b| == 8
    requires n == b[0] as nat + 0x100 * (b[1] as nat) + 0x1_0000 * (b[2] as nat) + 0x100_0000 * (b[3] as nat)
      + 0x1_0000_0000 * (b[4] as nat) + 0x100_0000_0000 * (b[5] as nat) + 0x1_0000_0000_0000 * (b[6] as nat)
      + 0x100_0000_0000_0000 * (b[7] as nat)
    ensures Le(n, 8) == b
  {
    UnLeEight(b);
    UnLeRoundTrip(b);
  }

  /** The header of a freshly frozen trie: its magic, the counts of its three arrays, and the arrays one after the
      other to the end of the file. */
  lemma {:induction false} RadixFitsIff(index: Bytes)
    ensures RadixFileFits(index) <==>
            && |index| >= 56 && index[..8] == [0x46, 0x43, 0x45, 0x52, 0x41, 0x44, 0x58, 0x31]
            && Field(index, 32, 8) == 56
            && Field(index, 40, 8) == 56 + 16 * Field(index, 8, 8)
            && Field(index, 48, 8) == 56 + 16 * Field(index, 8, 8) + 8 * Field(index, 16, 8)
            && |index| == 56 + 16 * Field(index, 8, 8) + 8 * Field(index, 16, 8) + 24 * Field(index, 24, 8)
  {
    hide RadixHeaderOf, Le, UnLe;
    if |index| >= 56 {
      RadixHeaderLies(index);
      Magics();
      MagicRead(index, RADIX_MAGIC);
    }
  }

  lemma {:induction false} MphFitsIff(index: Bytes)
    ensures MphFileFits(index) <==>
            && |index| >= 40 && index[..8] == [0x46, 0x43, 0x45, 0x4d, 0x50, 0x48, 0x31, 0x00]
            && Field(index, 24, 8) == 40
            && Field(index, 32, 8) == 40 + 8 * Field(index, 8, 8)
            && |index| == 40 + 8 * Field(index, 8, 8) + 48 * Field(index, 16, 8)
  {
    hide MphHeaderOf, Le, UnLe;
    if |index| >= 40 {
      MphHeaderLies(index);
      Magics();
      MagicRead(index, MPH_MAGIC);
    }
  }

  lemma {:induction false} MagicRead(b: Bytes, magic: u64)
    requires |b| >= 8
    ensures Field(b, 0, 8) == magic <==> b[..8] == Le(magic, 8)
  {
    Pow256Values();
    LeRoundTrip(magic, 8);
    UnLeRoundTrip(b[..8]);
    assert b[0..8] == b[..8];
  }

  /** A log record: the magic, the two lengths, the bytes of key and value, and the checksum of all that. */
  lemma {:induction false} RecordLies(p: Pair, sum: Checksum)
    requires |p.key| < TWO64 && |p.value| < TWO64
    ensures var r, k, v := RecordBytes(p, sum), |p.key|, |p.value|;
      && |r| == 32 + k + v
      && r[..8] == [0x46, 0x43, 0x45, 0x4c, 0x4f, 0x47, 0x31, 0x00]
      && Field(r, 8, 8) == k && Field(r, 16, 8) == v
      && r[24..24 + k] == p.key && r[24 + k..24 + k + v] == p.value
      && Field(r, 24 + k + v, 8) == sum(r[..24 + k + v])
  {
    hide Le, UnLe, Head, Body;
    var r, k, v := RecordBytes(p, sum), |p.key|, |p.value|;
    assert r[0..0 + 32 + k + v] == r;
    RecordPieces(r, 0, p, sum);
    HeadLies(p);
    SubSlice(r, 0, Head(p), 0, 8);
    SubSlice(r, 0, Head(p), 8, 16);
    SubSlice(r, 0, Head(p), 16, 24);
    SumRoundTrip(Body(p), sum);
    assert r[..24 + k + v] == r[0..24 + k + v];
  }

  lemma {:induction false} HeadLies(p: Pair)
    requires |p.key| < TWO64 && |p.value| < TWO64
    ensures var h := Head(p);
      && h[0..8] == [0x46, 0x43, 0x45, 0x4c, 0x4f, 0x47, 0x31, 0x00]
      && UnLe(h[8..16]) == |p.key| && UnLe(h[16..24]) == |p.value|
  {
    hide Le, UnLe;
    Magics();
    Pow256Values();
    LeRoundTrip(|p.key|, 8);
    LeRoundTrip(|p.value|, 8);
    FourParts(Le(MAGIC, 8), Le(|p.key|, 8), Le(|p.value|, 8), []);
    assert Head(p) + [] == Head(p) && Head(p)[16..24] == Head(p)[16..];
    assert Head(p)[0..8] == Head(p)[..8];
  }
}
