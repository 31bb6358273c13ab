/** The on-disk structs of src/internal/fce_internal.h as little-endian byte rows, and arrays of them. */
module Format {
  import opened Bytes
  import opened Records

  // ---- One struct: a row of fixed-width fields ----

  ghost predicate FieldsFit(vs: seq<nat>, ws: seq<nat>) {
    |vs| == |ws| && forall i :: 0 <= i < |vs| ==> vs[i] < Pow256(ws[i])
  }

  function Pack(vs: seq<nat>, ws: seq<nat>): (b: Bytes)
    requires |vs| == |ws|
    ensures |b| == Sum(ws)
  {
    if vs == [] then [] else Le(vs[0], ws[0]) + Pack(vs[1..], ws[1..])
  }

  function Sum(ws: seq<nat>): nat {
    if ws == [] then 0 else ws[0] + Sum(ws[1..])
  }

  function Unpack(b: Bytes, ws: seq<nat>): (vs: seq<nat>)
    requires |b| == Sum(ws)
    ensures FieldsFit(vs, ws)
  {
    if ws == [] then [] else [UnLe(b[..ws[0]])] + Unpack(b[ws[0]..], ws[1..])
  }

  lemma {:induction false} SumOfEights(n: nat)
    ensures Sum(seq(n, _ => 8)) == 8 * n
  {
    if n > 0 {
      SumOfEights(n - 1);
      assert seq(n, _ => 8)[1..] == seq(n - 1, _ => 8);
    }
  }

  lemma {:induction false} PackRoundTrip(vs: seq<nat>, ws: seq<nat>)
    requires FieldsFit(vs, ws)
    ensures Unpack(Pack(vs, ws), ws) == vs
  {
    if vs != [] {
      var b := Pack(vs, ws);
      assert b[..ws[0]] == Le(vs[0], ws[0]) && b[ws[0]..] == Pack(vs[1..], ws[1..]);
      LeRoundTrip(vs[0], ws[0]);
      PackRoundTrip(vs[1..], ws[1..]);
    }
  }

  // ---- An array of structs: rows of equal size laid end to end ----

  ghost predicate RowsOf(rows: seq<Bytes>, size: nat) {
    forall i :: 0 <= i < |rows| ==> |rows[i]| == size
  }

  function Flatten(rows: seq<Bytes>): Bytes {
    if rows == [] then [] else Flatten(rows[..|rows| - 1]) + rows[|rows| - 1]
  }

  lemma {:induction false} FlattenRow(rows: seq<Bytes>, size: nat, i: nat)
    requires RowsOf(rows, size) && i < |rows|
    ensures |Flatten(rows)| == |rows| * size && (i + 1) * size <= |rows| * size
    ensures Flatten(rows)[i * size..(i + 1) * size] == rows[i]
  {
    FlattenSize(rows, size);
    Scale(i + 1, |rows|, size);
    assert (i + 1) * size == i * size + size;
    FlattenSlice(rows, size, i, i * size);
  }

  lemma {:induction false} FlattenSlice(rows: seq<Bytes>, size: nat, i: nat, off: nat)
    requires RowsOf(rows, size) && i < |rows| && off == i * size
    ensures off + size <= |Flatten(rows)| && Flatten(rows)[off..off + size] == rows[i]
  {
    var n := |rows| - 1;
    var front := rows[..n];
    if i < n {
      FlattenSlice(front, size, i, off);
      SliceOfPrefix(Flatten(front), rows[n], off, off + size);
    } else {
      FlattenSize(front, size);
    }
  }

  lemma {:induction false} SliceOfPrefix(a: Bytes, b: Bytes, lo: nat, hi: nat)
    requires lo <= hi <= |a|
    ensures (a + b)[lo..hi] == a[lo..hi]
  {
  }

  lemma {:induction false} FlattenSize(rows: seq<Bytes>, size: nat)
    requires RowsOf(rows, size)
    ensures |Flatten(rows)| == |rows| * size
  {
    if rows != [] {
      FlattenSize(rows[..|rows| - 1], size);
      assert |rows| * size == (|rows| - 1) * size + size;
    }
  }

  lemma {:induction false} Scale(a: nat, b: nat, size: nat)
    requires a <= b
    ensures a * size <= b * size
  {
  }

  function Row(b: Bytes, size: nat, i: nat): (row: Bytes)
    requires (i + 1) * size <= |b|
    ensures |row| == size
  {
    assert (i + 1) * size == i * size + size;
    b[i * size..(i + 1) * size]
  }

  function EncodeTable<T>(xs: seq<T>, enc: T -> Bytes): Bytes {
    Flatten(seq(|xs|, i requires 0 <= i < |xs| => enc(xs[i])))
  }

  /** The view of a file as an array of structs: size / sizeof rows, a ragged tail ignored. */
  function DecodeTable<T>(b: Bytes, size: nat, dec: Bytes --> T): (xs: seq<T>)
    requires size > 0 && forall row: Bytes :: |row| == size ==> dec.requires(row)
    ensures |xs| == |b| / size
  {
    seq(|b| / size, i requires 0 <= i < |b| / size =>
      assert (i + 1) * size <= |b| by { TableBounds(|b|, size, i); }
      dec(Row(b, size, i)))
  }

  /** Rows of a section that claims count rows: as many as lie inside the file. */
  function ReadTable<T>(file: Bytes, off: nat, count: nat, size: nat, dec: Bytes --> T): (xs: seq<T>)
    requires off <= |file| && size > 0 && forall row: Bytes :: |row| == size ==> dec.requires(row)
    ensures |xs| <= count && (|xs| < count ==> |file| < off + count * size)
  {
    var n := Fitting(|file| - off, count, size);
    DivExact(n, size);
    DecodeTable(file[off..off + n * size], size, dec)
  }

  function Fitting(space: nat, count: nat, size: nat): (n: nat)
    requires size > 0
    ensures n <= count && n * size <= space && (n < count ==> space < count * size)
    ensures count * size <= space ==> n == count
  {
    if count <= space / size then
      Scale(count, space / size, size);
      assert space / size * size <= space;
      count
    else
      assert space / size * size <= space < (space / size + 1) * size;
      Scale(space / size + 1, count, size);
      space / size
  }

  lemma {:induction false} ReadLiesInFile<T>(file: Bytes, off: nat, count: nat, size: nat, dec: Bytes --> T)
    requires off <= |file| && size > 0 && forall row: Bytes :: |row| == size ==> dec.requires(row)
    ensures off + |ReadTable(file, off, count, size, dec)| * size <= |file|
  {
    DivExact(Fitting(|file| - off, count, size), size);
  }

  /** A section that lies inside the file is read whole. */
  lemma {:induction false} ReadWhole<T>(file: Bytes, off: nat, count: nat, size: nat, dec: Bytes --> T)
    requires size > 0 && forall row: Bytes :: |row| == size ==> dec.requires(row)
    requires off + count * size <= |file|
    ensures ReadTable(file, off, count, size, dec) == DecodeTable(file[off..off + count * size], size, dec)
    ensures |ReadTable(file, off, count, size, dec)| == count
  {
    DivExact(count, size);
  }

  lemma {:induction false} TableBounds(n: nat, size: nat, i: nat)
    requires size > 0 && i < n / size
    ensures (i + 1) * size <= n
  {
    Scale(i + 1, n / size, size);
    assert n / size * size <= n;
  }

  lemma {:induction false} TableRoundTrip<T>(xs: seq<T>, size: nat, enc: T -> Bytes, dec: Bytes --> T)
    requires size > 0 && forall row: Bytes :: |row| == size ==> dec.requires(row)
    requires forall x :: x in xs ==> |enc(x)| == size && dec(enc(x)) == x
    ensures |EncodeTable(xs, enc)| == |xs| * size
    ensures DecodeTable(EncodeTable(xs, enc), size, dec) == xs
  {
    var rows := seq(|xs|, i requires 0 <= i < |xs| => enc(xs[i]));
    forall i | 0 <= i < |rows| ensures |rows[i]| == size {
      assert xs[i] in xs;
    }
    assert RowsOf(rows, size);
    var b := EncodeTable(xs, enc);
    FlattenSize(rows, size);
    DivExact(|xs|, size);
    var ys := DecodeTable(b, size, dec);
    assert |ys| == |xs|;
    forall i | 0 <= i < |xs| ensures ys[i] == xs[i] {
      FlattenRow(rows, size, i);
      assert Row(b, size, i) == rows[i] == enc(xs[i]);
      assert xs[i] in xs;
    }
  }

  lemma {:induction false} DivExact(n: nat, size: nat)
    requires size > 0
    ensures n * size / size == n && n * size % size == 0
  {
    var q, r := n * size / size, n * size % size;
    assert size * (n - q) == r;
    if n > q {
      Scale(1, n - q, size);
    }
  }

  // ---- The concrete structs ----

  datatype Hash128 = Hash128(lo: u64, hi: u64)

  /** hash_key is a parameter: no lookup may depend on which hash it is. */
  type Hasher = Bytes -> Hash128

  datatype SortedEntry = SortedEntry(hash: Hash128, loc: Loc)
  datatype DirectSlot = DirectSlot(present: bool, keyU64: u64, loc: Loc)
  datatype MphSlot = MphSlot(present: bool, hash: Hash128, loc: Loc)
  datatype RadixNode = RadixNode(firstEdge: u32, edgeCount: u32, valueIndex: u32)
  datatype RadixEdge = RadixEdge(edgeLabel: byte, child: u32)

  predicate LocFits(loc: Loc) {
    loc.keyOff < TWO64 && loc.keyLen < TWO32 && loc.valOff < TWO64 && loc.valLen < TWO32
  }

  // sizeof of each struct, and the widths of its fields in declaration order.
  const SORTED_ENTRY := 48
  const DIRECT_SLOT := 40
  const MPH_SLOT := 48
  const MPH_BUCKET := 8
  const RADIX_NODE := 16
  const RADIX_EDGE := 8
  const RADIX_VALUE := 24

  const SORTED_WIDTHS: seq<nat> := [8, 8, 8, 4, 4, 8, 4, 4]
  const DIRECT_WIDTHS: seq<nat> := [1, 7, 8, 8, 4, 4, 8]
  const MPH_SLOT_WIDTHS: seq<nat> := [1, 7, 8, 8, 8, 4, 4, 8]
  const RADIX_NODE_WIDTHS: seq<nat> := [4, 4, 4, 4]
  const RADIX_EDGE_WIDTHS: seq<nat> := [1, 3, 4]
  const RADIX_VALUE_WIDTHS: seq<nat> := [8, 4, 4, 8]

  lemma {:induction false} Widths()
    ensures Sum(SORTED_WIDTHS) == SORTED_ENTRY && Sum(DIRECT_WIDTHS) == DIRECT_SLOT
    ensures Sum(MPH_SLOT_WIDTHS) == MPH_SLOT && Sum(RADIX_NODE_WIDTHS) == RADIX_NODE
    ensures Sum(RADIX_EDGE_WIDTHS) == RADIX_EDGE && Sum(RADIX_VALUE_WIDTHS) == RADIX_VALUE
  {
  }

  function EncSorted(e: SortedEntry): Bytes {
    Pack([e.hash.lo, e.hash.hi, e.loc.keyOff, e.loc.keyLen, 0, e.loc.valOff, e.loc.valLen, 0], SORTED_WIDTHS)
  }

  function DecSorted(row: Bytes): SortedEntry
    requires |row| == SORTED_ENTRY
  {
    Widths(); Pow256Values();
    var v := Unpack(row, SORTED_WIDTHS);
    assert v[0] < Pow256(8) && v[1] < Pow256(8);
    SortedEntry(Hash128(v[0], v[1]), Loc(v[2], v[3], v[5], v[6]))
  }

  function EncDirect(s: DirectSlot): Bytes {
    Pack([if s.present then 1 else 0, 0, s.keyU64, s.loc.keyOff, s.loc.keyLen, s.loc.valLen, s.loc.valOff],
      DIRECT_WIDTHS)
  }

  function DecDirect(row: Bytes): DirectSlot
    requires |row| == DIRECT_SLOT
  {
    Widths(); Pow256Values();
    var v := Unpack(row, DIRECT_WIDTHS);
    assert v[2] < Pow256(8);
    DirectSlot(v[0] != 0, v[2], Loc(v[3], v[4], v[6], v[5]))
  }

  function EncMphSlot(s: MphSlot): Bytes {
    Pack([if s.present then 1 else 0, 0, s.hash.lo, s.hash.hi, s.loc.keyOff, s.loc.keyLen, s.loc.valLen, s.loc.valOff],
         MPH_SLOT_WIDTHS)
  }

  function DecMphSlot(row: Bytes): MphSlot
    requires |row| == MPH_SLOT
  {
    Widths(); Pow256Values();
    var v := Unpack(row, MPH_SLOT_WIDTHS);
    assert v[2] < Pow256(8) && v[3] < Pow256(8);
    MphSlot(v[0] != 0, Hash128(v[2], v[3]), Loc(v[4], v[5], v[7], v[6]))
  }

  function EncBucket(seed: u64): Bytes {
    Le(seed, 8)
  }

  function DecBucket(row: Bytes): u64
    requires |row| == MPH_BUCKET
  {
    Pow256Values();
    UnLe(row)
  }

  function EncNode(n: RadixNode): Bytes {
    Pack([n.firstEdge, n.edgeCount, n.valueIndex, 0], RADIX_NODE_WIDTHS)
  }

  function DecNode(row: Bytes): RadixNode
    requires |row| == RADIX_NODE
  {
    Widths(); Pow256Values();
    var v := Unpack(row, RADIX_NODE_WIDTHS);
    assert v[0] < Pow256(4) && v[1] < Pow256(4) && v[2] < Pow256(4);
    RadixNode(v[0], v[1], v[2])
  }

  function EncEdge(e: RadixEdge): Bytes {
    Pack([e.edgeLabel, 0, e.child], RADIX_EDGE_WIDTHS)
  }

  function DecEdge(row: Bytes): RadixEdge
    requires |row| == RADIX_EDGE
  {
    Widths(); Pow256Values();
    var v := Unpack(row, RADIX_EDGE_WIDTHS);
    assert v[0] < Pow256(1) && v[2] < Pow256(4);
    RadixEdge(v[0], v[2])
  }

  function EncValue(loc: Loc): Bytes {
    Pack([loc.keyOff, loc.keyLen, loc.valLen, loc.valOff], RADIX_VALUE_WIDTHS)
  }

  function DecValue(row: Bytes): Loc
    requires |row| == RADIX_VALUE
  {
    Widths();
    var v := Unpack(row, RADIX_VALUE_WIDTHS);
    Loc(v[0], v[1], v[3], v[2])
  }

  lemma {:induction false} SortedRow(x: SortedEntry)
    requires LocFits(x.loc)
    ensures |EncSorted(x)| == SORTED_ENTRY && DecSorted(EncSorted(x)) == x
  {
    hide Pack, Unpack, Sum;
    Widths(); Pow256Values();
    PackRoundTrip([x.hash.lo, x.hash.hi, x.loc.keyOff, x.loc.keyLen, 0, x.loc.valOff, x.loc.valLen, 0],
                  SORTED_WIDTHS);
  }

  lemma {:induction false} SortedTable(xs: seq<SortedEntry>)
    requires forall x :: x in xs ==> LocFits(x.loc)
    ensures |EncodeTable(xs, EncSorted)| == |xs| * SORTED_ENTRY
    ensures DecodeTable(EncodeTable(xs, EncSorted), SORTED_ENTRY, DecSorted) == xs
  {
    hide EncodeTable, DecodeTable, EncSorted, DecSorted;
    forall x | x in xs ensures |EncSorted(x)| == SORTED_ENTRY && DecSorted(EncSorted(x)) == x {
      SortedRow(x);
    }
    TableRoundTrip(xs, SORTED_ENTRY, EncSorted, DecSorted);
  }

  lemma {:induction false} DirectRow(x: DirectSlot)
    requires LocFits(x.loc)
    ensures |EncDirect(x)| == DIRECT_SLOT && DecDirect(EncDirect(x)) == x
  {
    hide Pack, Unpack, Sum;
    Widths(); Pow256Values();
    PackRoundTrip([if x.present then 1 else 0, 0, x.keyU64, x.loc.keyOff, x.loc.keyLen, x.loc.valLen, x.loc.valOff],
                  DIRECT_WIDTHS);
  }

  lemma {:induction false} DirectTable(xs: seq<DirectSlot>)
    requires forall x :: x in xs ==> LocFits(x.loc)
    ensures |EncodeTable(xs, EncDirect)| == |xs| * DIRECT_SLOT
    ensures DecodeTable(EncodeTable(xs, EncDirect), DIRECT_SLOT, DecDirect) == xs
  {
    hide EncodeTable, DecodeTable, EncDirect, DecDirect;
    forall x | x in xs ensures |EncDirect(x)| == DIRECT_SLOT && DecDirect(EncDirect(x)) == x {
      DirectRow(x);
    }
    TableRoundTrip(xs, DIRECT_SLOT, EncDirect, DecDirect);
  }

  lemma {:induction false} MphSlotRow(x: MphSlot)
    requires LocFits(x.loc)
    ensures |EncMphSlot(x)| == MPH_SLOT && DecMphSlot(EncMphSlot(x)) == x
  {
    hide Pack, Unpack, Sum;
    Widths(); Pow256Values();
    PackRoundTrip([if x.present then 1 else 0, 0, x.hash.lo, x.hash.hi, x.loc.keyOff, x.loc.keyLen, x.loc.valLen,
                   x.loc.valOff],
                  MPH_SLOT_WIDTHS);
  }

  lemma {:induction false} MphSlotTable(xs: seq<MphSlot>)
    requires forall x :: x in xs ==> LocFits(x.loc)
    ensures |EncodeTable(xs, EncMphSlot)| == |xs| * MPH_SLOT
    ensures DecodeTable(EncodeTable(xs, EncMphSlot), MPH_SLOT, DecMphSlot) == xs
  {
    hide EncodeTable, DecodeTable, EncMphSlot, DecMphSlot;
    forall x | x in xs ensures |EncMphSlot(x)| == MPH_SLOT && DecMphSlot(EncMphSlot(x)) == x {
      MphSlotRow(x);
    }
    TableRoundTrip(xs, MPH_SLOT, EncMphSlot, DecMphSlot);
  }

  lemma {:induction false} BucketTable(xs: seq<u64>)
    ensures |EncodeTable(xs, EncBucket)| == |xs| * MPH_BUCKET
    ensures DecodeTable(EncodeTable(xs, EncBucket), MPH_BUCKET, DecBucket) == xs
  {
    Pow256Values();
    forall x | x in xs ensures |EncBucket(x)| == MPH_BUCKET && DecBucket(EncBucket(x)) == x {
      LeRoundTrip(x, 8);
    }
    TableRoundTrip(xs, MPH_BUCKET, EncBucket, DecBucket);
  }

  lemma {:induction false} NodeRow(x: RadixNode)
    ensures |EncNode(x)| == RADIX_NODE && DecNode(EncNode(x)) == x
  {
    hide Pack, Unpack, Sum;
    Widths(); Pow256Values();
    PackRoundTrip([x.firstEdge, x.edgeCount, x.valueIndex, 0],
                  RADIX_NODE_WIDTHS);
  }

  lemma {:induction false} NodeTable(xs: seq<RadixNode>)
    ensures |EncodeTable(xs, EncNode)| == |xs| * RADIX_NODE
    ensures DecodeTable(EncodeTable(xs, EncNode), RADIX_NODE, DecNode) == xs
  {
    hide EncodeTable, DecodeTable, EncNode, DecNode;
    forall x | x in xs ensures |EncNode(x)| == RADIX_NODE && DecNode(EncNode(x)) == x {
      NodeRow(x);
    }
    TableRoundTrip(xs, RADIX_NODE, EncNode, DecNode);
  }

  lemma {:induction false} EdgeRow(x: RadixEdge)
    ensures |EncEdge(x)| == RADIX_EDGE && DecEdge(EncEdge(x)) == x
  {
    hide Pack, Unpack, Sum;
    Widths(); Pow256Values();
    PackRoundTrip([x.edgeLabel, 0, x.child],
                  RADIX_EDGE_WIDTHS);
  }

  lemma {:induction false} EdgeTable(xs: seq<RadixEdge>)
    ensures |EncodeTable(xs, EncEdge)| == |xs| * RADIX_EDGE
    ensures DecodeTable(EncodeTable(xs, EncEdge), RADIX_EDGE, DecEdge) == xs
  {
    hide EncodeTable, DecodeTable, EncEdge, DecEdge;
    forall x | x in xs ensures |EncEdge(x)| == RADIX_EDGE && DecEdge(EncEdge(x)) == x {
      EdgeRow(x);
    }
    TableRoundTrip(xs, RADIX_EDGE, EncEdge, DecEdge);
  }

  lemma {:induction false} ValueRow(x: Loc)
    requires LocFits(x)
    ensures |EncValue(x)| == RADIX_VALUE && DecValue(EncValue(x)) == x
  {
    hide Pack, Unpack, Sum;
    Widths(); Pow256Values();
    PackRoundTrip([x.keyOff, x.keyLen, x.valLen, x.valOff],
                  RADIX_VALUE_WIDTHS);
  }

  lemma {:induction false} ValueTable(xs: seq<Loc>)
    requires forall x :: x in xs ==> LocFits(x)
    ensures |EncodeTable(xs, EncValue)| == |xs| * RADIX_VALUE
    ensures DecodeTable(EncodeTable(xs, EncValue), RADIX_VALUE, DecValue) == xs
  {
    hide EncodeTable, DecodeTable, EncValue, DecValue;
    forall x | x in xs ensures |EncValue(x)| == RADIX_VALUE && DecValue(EncValue(x)) == x {
      ValueRow(x);
    }
    TableRoundTrip(xs, RADIX_VALUE, EncValue, DecValue);
  }
}
