/** Inserting every key (freeze_radix, radix_add_node, radix_find_or_add_edge). */
module RadixBuild {
  import opened Bytes
  import opened Sorting
  import opened Records
  import opened Format
  import opened RadixTrie

  // ---- Sums over the nodes ----

  ghost function Total<T>(t: seq<T>, w: T -> nat): nat {
    if t == [] then 0 else Total(t[..|t| - 1], w) + w(t[|t| - 1])
  }

  ghost const EDGE_WEIGHT := (n: TmpNode) => |n.edges|
  ghost const TERMINAL_WEIGHT := (n: TmpNode) => if n.valueIndex == NO_VALUE then 0 else 1

  lemma {:induction false} TotalAppend(t: Trie, x: TmpNode, w: TmpNode -> nat)
    ensures Total(t + [x], w) == Total(t, w) + w(x)
  {
    assert (t + [x])[..|t|] == t;
  }

  lemma {:induction false} TotalUpdate(t: Trie, n: nat, x: TmpNode, w: TmpNode -> nat)
    requires n < |t|
    ensures Total(t[n := x], w) + w(t[n]) == Total(t, w) + w(x)
  {
    var last := |t| - 1;
    if n < last {
      TotalUpdate(t[..last], n, x, w);
      assert t[n := x][..last] == t[..last][n := x];
    } else {
      assert t[n := x][..last] == t[..last];
    }
  }

  /** All key prefixes: the node set that the trie must have. */
  ghost function Prefixes(recs: seq<Pair>): set<Bytes> {
    {[]} + set i, n | 0 <= i < |recs| && 0 <= n <= |recs[i].key| :: recs[i].key[..n]
  }

  /** The key leads to a node that carries this value index. */
  ghost predicate Held(t: Trie, key: Bytes, i: nat)
    requires |t| > 0 && ChildrenInRange(t)
  {
    var w := Walk(t, 0, key);
    w.Some? && t[w.value].valueIndex == i
  }

  /** Exactly the first k records are in the trie, each at the end of its key. */
  ghost predicate HoldsValues(t: Trie, paths: seq<Bytes>, recs: seq<Pair>, k: nat)
    requires IsTrie(t, paths) && k <= |recs|
  {
    && (forall n :: 0 <= n < |t| && t[n].valueIndex != NO_VALUE ==>
          t[n].valueIndex < k && recs[t[n].valueIndex].key == paths[n])
    && (forall i :: 0 <= i < k ==> Held(t, recs[i].key, i))
    && Total(t, TERMINAL_WEIGHT) == k
  }

  class TrieBuilder {
    var nodes: Trie
    ghost var paths: seq<Bytes>

    ghost predicate Valid()
      reads this
    {
      IsTrie(nodes, paths) && Total(nodes, EDGE_WEIGHT) == |nodes| - 1
    }

    constructor ()
      ensures Valid() && nodes == [TmpNode([], NO_VALUE)] && paths == [[]]
    {
      nodes := [TmpNode([], NO_VALUE)];
      paths := [[]];
      new;
      assert nodes[..0] == [];
    }

    method AddNode() returns (r: Result<u32>)
      modifies this`nodes
      ensures |old(nodes)| > U32_MAX ==> r == Err(OutOfMemory) && nodes == old(nodes)
      ensures |old(nodes)| <= U32_MAX ==> r == Ok(|old(nodes)|) && nodes == old(nodes) + [TmpNode([], NO_VALUE)]
    {
      if |nodes| > U32_MAX {
        return Err(OutOfMemory);
      }
      r := Ok(|nodes|);
      nodes := nodes + [TmpNode([], NO_VALUE)];
    }

    static method ScanLabels(edges: seq<RadixEdge>, c: byte) returns (pos: nat)
      ensures pos == LabelPos(edges, c)
    {
      pos := 0;
      while pos < |edges| && edges[pos].edgeLabel < c
        invariant 0 <= pos <= |edges|
        invariant LabelPos(edges, c) == pos + LabelPos(edges[pos..], c)
      {
        assert edges[pos..][1..] == edges[pos + 1..];
        pos := pos + 1;
      }
    }

    method FindOrAddEdge(node: nat, c: byte) returns (r: Result<u32>)
      requires Valid() && node < |nodes|
      modifies this
      ensures Valid()
      ensures
        var before, known := old(nodes), Child(old(nodes)[node].edges, c);
        if known.Some? then r == Ok(known.value) && nodes == before && paths == old(paths)
        else if |before| > U32_MAX then r == Err(OutOfMemory) && nodes == before && paths == old(paths)
        else r == Ok(|before|) && nodes == WithEdge(before, node, c) && paths == old(paths) + [old(paths)[node] + [c]]
    {
      hide EdgeSpells, Walk, Total;
      var edges := nodes[node].edges;
      var pos := ScanLabels(edges, c);
      if pos < |edges| && edges[pos].edgeLabel == c {
        ChildOfEdge(edges, pos);
        return Ok(edges[pos].child);
      }
      NoChildAt(edges, c);
      ghost var before := nodes;
      r := AddNode();
      if r.Err? {
        return;
      }
      WithEdgeIsTrie(before, paths, node, c);
      WithEdgeTotals(before, node, c);
      edges := edges[..pos] + [RadixEdge(c, r.value)] + edges[pos..];
      nodes := nodes[node := TmpNode(edges, nodes[node].valueIndex)];
      paths := paths + [paths[node] + [c]];
      assert nodes == WithEdge(before, node, c);
    }

    /** The inner loop over one key: walk, adding what is missing. */
    method InsertKey(key: Bytes) returns (r: Result<nat>)
      requires Valid()
      modifies this
      ensures Valid() && Grown(old(nodes), old(paths), nodes, paths, key)
      ensures r.Ok? ==> r.value < |nodes| && paths[r.value] == key
      ensures r.Err? ==> r.status == OutOfMemory && |nodes| > U32_MAX
    {
      ghost var t0, p0 := nodes, paths;
      r := Ok(0);
      for j := 0 to |key|
        invariant Valid() && Grown(t0, p0, nodes, paths, key)
        invariant r.Ok? && SpelledSoFar(paths, r.value, key, j)
      {
        ghost var t1, p1, node := nodes, paths, r.value;
        var next := FindOrAddEdge(r.value, key[j]);
        EdgeStep(t0, p0, t1, p1, key, node, j, nodes, paths, next);
        if next.Err? {
          return Err(next.status);
        }
        r := Ok(next.value);
      }
      assert key[..|key|] == key;
    }

    ghost predicate HoldsFirst(recs: seq<Pair>, k: nat)
      requires k <= |recs|
      reads this
    {
      Progress(nodes, paths, recs, k)
    }

    /** The outer loop body: insert a key and store its index at the node it ends in. */
    method AddRecord(recs: seq<Pair>, i: nat) returns (r: Result<nat>)
      requires i < |recs| && DistinctKeys(recs) && HoldsFirst(recs, i)
      modifies this
      ensures r.Ok? ==> HoldsFirst(recs, i + 1)
      ensures r.Err? ==> r.status == OutOfMemory && |Prefixes(recs)| > U32_MAX
    {
      ghost var t0, p0 := nodes, paths;
      r := InsertKey(recs[i].key);
      NewPathsArePrefixes(t0, p0, nodes, paths, recs, i);
      if r.Err? {
        NodesArePrefixes(nodes, paths, recs);
        return;
      }
      RecordStep(t0, p0, nodes, paths, recs, i, r.value);
      nodes := nodes[r.value := TmpNode(nodes[r.value].edges, ToU32(i))];
    }
  }

  /** The first k records are in. Indices are 32-bit, so only a list that fits holds its values. */
  ghost predicate Progress(t: Trie, paths: seq<Bytes>, recs: seq<Pair>, k: nat)
    requires k <= |recs|
  {
    && IsTrie(t, paths) && Total(t, EDGE_WEIGHT) == |t| - 1
    && Elements(paths) <= Prefixes(recs)
    && (|recs| <= U32_MAX ==> HoldsValues(t, paths, recs, k))
  }

  /** Only nodes for prefixes of the key were added, none of them carrying a value. */
  ghost predicate Grown(t: Trie, paths: seq<Bytes>, t': Trie, paths': seq<Bytes>, key: Bytes) {
    && Extends(t, t') && |t'| == |paths'| && |t| == |paths| && paths <= paths'
    && (forall n :: |t| <= n < |t'| ==> t'[n].valueIndex == NO_VALUE && paths'[n] <= key)
    && Total(t', TERMINAL_WEIGHT) == Total(t, TERMINAL_WEIGHT)
  }

  lemma {:induction false} StepAlongEdge(t: Trie, paths: seq<Bytes>, n: nat, c: byte)
    requires IsTrie(t, paths) && n < |t| && Child(t[n].edges, c).Some?
    ensures Child(t[n].edges, c).value < |t| && paths[Child(t[n].edges, c).value] == paths[n] + [c]
  {
    WalkSpells(t, paths, n, [c]);
    ChildIn(t[n].edges, c);
    assert Walk(t, n, [c]) == Walk(t, Child(t[n].edges, c).value, []);
  }

  lemma {:induction false} GrownByEdge(t: Trie, paths: seq<Bytes>, t1: Trie, p1: seq<Bytes>, key: Bytes, n: nat, j: nat)
    requires Grown(t, paths, t1, p1, key)
    requires j < |key| && n < |t1| == |p1| <= U32_MAX && p1[n] == key[..j]
    requires Extends(t1, WithEdge(t1, n, key[j]))
    requires Total(WithEdge(t1, n, key[j]), TERMINAL_WEIGHT) == Total(t1, TERMINAL_WEIGHT)
    ensures Grown(t, paths, WithEdge(t1, n, key[j]), p1 + [p1[n] + [key[j]]], key)
  {
    var t2 := WithEdge(t1, n, key[j]);
    ExtendsIsTransitive(t, t1, t2);
    assert p1[n] + [key[j]] == key[..j + 1];
  }

  ghost predicate SpelledSoFar(paths: seq<Bytes>, n: nat, key: Bytes, j: nat)
    requires j <= |key|
  {
    n < |paths| && paths[n] == key[..j]
  }

  /** One call of FindOrAddEdge, seen from the start of the key. */
  lemma {:induction false} EdgeStep(t0: Trie, p0: seq<Bytes>, t1: Trie, p1: seq<Bytes>, key: Bytes, node: nat, j: nat,
                                    t2: Trie, p2: seq<Bytes>, next: Result<u32>)
    requires IsTrie(t1, p1) && Grown(t0, p0, t1, p1, key) && j < |key| && SpelledSoFar(p1, node, key, j)
    requires
      var known := Child(t1[node].edges, key[j]);
      if known.Some? then next == Ok(known.value) && t2 == t1 && p2 == p1
      else if |t1| > U32_MAX then next.Err? && t2 == t1 && p2 == p1
      else next == Ok(|t1|) && t2 == WithEdge(t1, node, key[j]) && p2 == p1 + [p1[node] + [key[j]]]
    ensures Grown(t0, p0, t2, p2, key)
    ensures next.Ok? ==> SpelledSoFar(p2, next.value, key, j + 1)
  {
    assert key[..j + 1] == key[..j] + [key[j]];
    if Child(t1[node].edges, key[j]).Some? {
      StepAlongEdge(t1, p1, node, key[j]);
    } else if |t1| <= U32_MAX {
      WithEdgeIsTrie(t1, p1, node, key[j]);
      WithEdgeTotals(t1, node, key[j]);
      GrownByEdge(t0, p0, t1, p1, key, node, j);
    }
  }

  lemma {:induction false} ExtendsIsTransitive(a: Trie, b: Trie, c: Trie)
    requires Extends(a, b) && Extends(b, c)
    ensures Extends(a, c)
  {
    forall n | 0 <= n < |a| ensures KeepsChildren(a[n].edges, c[n].edges) {
      assert KeepsChildren(a[n].edges, b[n].edges) && KeepsChildren(b[n].edges, c[n].edges);
    }
  }

  lemma {:induction false} NoChildAt(edges: seq<RadixEdge>, c: byte)
    requires SortedLabels(edges)
    requires var pos := LabelPos(edges, c); pos < |edges| ==> edges[pos].edgeLabel != c
    ensures Child(edges, c).None?
  {
    ChildIn(edges, c);
  }

  lemma {:induction false} WithEdgeTotals(t: Trie, n: nat, c: byte)
    requires n < |t| <= U32_MAX
    ensures Total(WithEdge(t, n, c), EDGE_WEIGHT) == Total(t, EDGE_WEIGHT) + 1
    ensures Total(WithEdge(t, n, c), TERMINAL_WEIGHT) == Total(t, TERMINAL_WEIGHT)
  {
    var x := WithEdge(t, n, c)[n];
    TotalUpdate(t, n, x, EDGE_WEIGHT);
    TotalUpdate(t, n, x, TERMINAL_WEIGHT);
    TotalAppend(t[n := x], TmpNode([], NO_VALUE), EDGE_WEIGHT);
    TotalAppend(t[n := x], TmpNode([], NO_VALUE), TERMINAL_WEIGHT);
  }

  // ---- All records ----

  /** A trie that holds all the records and no node that is not a prefix of a key. */
  ghost predicate Built(t: Trie, paths: seq<Bytes>, recs: seq<Pair>) {
    && IsTrie(t, paths)
    && HoldsValues(t, paths, recs, |recs|)
    && Elements(paths) == Prefixes(recs)
    && Total(t, EDGE_WEIGHT) == |t| - 1
  }

  method BuildTrie(recs: seq<Pair>) returns (r: Result<Trie>, ghost paths: seq<Bytes>)
    requires IncreasingKeys(recs)
    ensures r.Ok? <==> |Prefixes(recs)| <= U32_MAX
    ensures r.Ok? ==> Built(r.value, paths, recs) && |r.value| == |Prefixes(recs)|
    ensures r.Err? ==> r.status == OutOfMemory
  {
    IncreasingIsDistinct(recs);
    var b := new TrieBuilder();
    for i := 0 to |recs|
      invariant b.HoldsFirst(recs, i)
    {
      var added := b.AddRecord(recs, i);
      if added.Err? {
        return Err(added.status), [];
      }
    }
    AllInserted(b.nodes, b.paths, recs);
    if |b.nodes| > U32_MAX || |recs| > U32_MAX {
      return Err(OutOfMemory), [];
    }
    return Ok(b.nodes), b.paths;
  }

  lemma {:induction false} AllInserted(t: Trie, paths: seq<Bytes>, recs: seq<Pair>)
    requires DistinctKeys(recs) && Progress(t, paths, recs, |recs|)
    ensures |t| <= |Prefixes(recs)| && |recs| <= |Prefixes(recs)|
    ensures |recs| <= U32_MAX ==> Built(t, paths, recs) && |t| == |Prefixes(recs)|
  {
    NodesArePrefixes(t, paths, recs);
    KeysArePrefixes(recs);
    if |recs| <= U32_MAX {
      AllPrefixesAreNodes(t, paths, recs);
      SubsetCard(Elements(paths), Prefixes(recs));
    }
  }

  lemma {:induction false} NewPathsArePrefixes(t: Trie, paths: seq<Bytes>, t': Trie, paths': seq<Bytes>,
                                               recs: seq<Pair>, i: nat)
    requires i < |recs| && Grown(t, paths, t', paths', recs[i].key) && Elements(paths) <= Prefixes(recs)
    ensures Elements(paths') <= Prefixes(recs)
  {
    forall x | x in paths' ensures x in Prefixes(recs) {
      var n :| 0 <= n < |paths'| && paths'[n] == x;
      if n < |t| {
        assert paths[n] in Elements(paths);
      } else {
        assert x == recs[i].key[..|x|];
      }
    }
  }

  lemma {:induction false} NodesArePrefixes(t: Trie, paths: seq<Bytes>, recs: seq<Pair>)
    requires IsTrie(t, paths) && Elements(paths) <= Prefixes(recs)
    ensures |t| <= |Prefixes(recs)| && |Elements(paths)| == |t|
  {
    DistinctCard(paths);
    SubsetCard(Elements(paths), Prefixes(recs));
  }

  lemma {:induction false} KeysArePrefixes(recs: seq<Pair>)
    requires DistinctKeys(recs)
    ensures |recs| <= |Prefixes(recs)|
  {
    var keys := seq(|recs|, i requires 0 <= i < |recs| => recs[i].key);
    DistinctCard(keys);
    forall x | x in keys ensures x in Prefixes(recs) {
      var i :| 0 <= i < |keys| && keys[i] == x;
      assert recs[i].key[..|recs[i].key|] == x;
    }
    SubsetCard(Elements(keys), Prefixes(recs));
  }

  lemma {:induction false} AllPrefixesAreNodes(t: Trie, paths: seq<Bytes>, recs: seq<Pair>)
    requires IsTrie(t, paths) && HoldsValues(t, paths, recs, |recs|)
    ensures Prefixes(recs) <= Elements(paths)
  {
    hide EdgeSpells, SortedLabels, Total;
    forall x | x in Prefixes(recs) ensures x in paths {
      if x == [] {
        assert paths[0] == x;
      } else {
        var i, n :| 0 <= i < |recs| && 0 <= n <= |recs[i].key| && recs[i].key[..n] == x;
        assert Held(t, recs[i].key, i);
        assert recs[i].key == x + recs[i].key[n..];
        WalkConcat(t, 0, x, recs[i].key[n..]);
        var m := Walk(t, 0, x).value;
        WalkReachesItsPath(t, paths, x, m);
        assert paths[m] == x;
      }
    }
  }

  /** Changing a value index moves no node. */
  lemma {:induction false} SameEdgesSameTrie(t: Trie, t': Trie, paths: seq<Bytes>)
    requires |t| == |t'| && forall n :: 0 <= n < |t| ==> t'[n].edges == t[n].edges
    requires IsTrie(t, paths)
    ensures IsTrie(t', paths)
    ensures Total(t', EDGE_WEIGHT) == Total(t, EDGE_WEIGHT)
  {
    SameEdgesSameTotal(t, t');
    assert ChildrenInRange(t');
    forall n, j | 0 <= n < |t'| && 0 <= j < |t'[n].edges| ensures EdgeSpells(t', paths, n, j) {
      assert EdgeSpells(t, paths, n, j);
    }
    forall n | 0 <= n < |t'| ensures Walk(t', 0, paths[n]) == Some(n) {
      SameEdgesSameWalk(t, t', 0, paths[n]);
    }
  }

  lemma {:induction false} SameEdgesSameTotal(t: Trie, t': Trie)
    requires |t| == |t'| && forall n :: 0 <= n < |t| ==> t'[n].edges == t[n].edges
    ensures Total(t', EDGE_WEIGHT) == Total(t, EDGE_WEIGHT)
  {
    if t != [] {
      SameEdgesSameTotal(t[..|t| - 1], t'[..|t| - 1]);
    }
  }

  lemma {:induction false} SameEdgesSameWalk(t: Trie, t': Trie, n: nat, key: Bytes)
    requires |t| == |t'| && forall n :: 0 <= n < |t| ==> t'[n].edges == t[n].edges
    requires ChildrenInRange(t) && ChildrenInRange(t') && n < |t|
    ensures Walk(t', n, key) == Walk(t, n, key)
    decreases |key|
  {
    if key != [] && Child(t[n].edges, key[0]).Some? {
      ChildIn(t[n].edges, key[0]);
      SameEdgesSameWalk(t, t', Child(t[n].edges, key[0]).value, key[1..]);
    }
  }

  lemma {:induction false} RecordStep(t: Trie, paths: seq<Bytes>, t1: Trie, p1: seq<Bytes>, recs: seq<Pair>, i: nat,
                                      n: nat)
    requires i < |recs| && DistinctKeys(recs) && Progress(t, paths, recs, i)
    requires IsTrie(t1, p1) && Total(t1, EDGE_WEIGHT) == |t1| - 1 && Elements(p1) <= Prefixes(recs)
    requires Grown(t, paths, t1, p1, recs[i].key) && n < |t1| && p1[n] == recs[i].key
    ensures Progress(t1[n := TmpNode(t1[n].edges, ToU32(i))], p1, recs, i + 1)
  {
    var t2 := t1[n := TmpNode(t1[n].edges, ToU32(i))];
    SameEdgesSameTrie(t1, t2, p1);
    if |recs| <= U32_MAX {
      ValueStep(t, paths, t1, p1, recs, i, n);
    }
  }

  lemma {:induction false} ValueStep(t: Trie, paths: seq<Bytes>, t1: Trie, p1: seq<Bytes>, recs: seq<Pair>, i: nat,
                                     n: nat)
    requires IsTrie(t, paths) && IsTrie(t1, p1) && i < |recs| <= U32_MAX && DistinctKeys(recs)
    requires HoldsValues(t, paths, recs, i) && Grown(t, paths, t1, p1, recs[i].key)
    requires n < |t1| && p1[n] == recs[i].key
    requires IsTrie(t1[n := TmpNode(t1[n].edges, i)], p1)
    ensures HoldsValues(t1[n := TmpNode(t1[n].edges, i)], p1, recs, i + 1)
  {
    NodeWasFree(t, paths, t1, p1, recs, i, n);
    TotalUpdate(t1, n, TmpNode(t1[n].edges, i), TERMINAL_WEIGHT);
    RecordsHeld(t, paths, t1, p1, recs, i, n);
    ValuesCorrect(t, paths, t1, p1, recs, i, n);
  }

  lemma {:induction false} NodeWasFree(t: Trie, paths: seq<Bytes>, t1: Trie, p1: seq<Bytes>, recs: seq<Pair>, i: nat,
                                       n: nat)
    requires IsTrie(t, paths) && i < |recs| && DistinctKeys(recs) && HoldsValues(t, paths, recs, i)
    requires Grown(t, paths, t1, p1, recs[i].key) && n < |t1| && p1[n] == recs[i].key
    ensures t1[n].valueIndex == NO_VALUE
  {
    if n < |t| {
      assert t[n].valueIndex == t1[n].valueIndex && paths[n] == p1[n];
    }
  }

  lemma {:induction false} RecordsHeld(t: Trie, paths: seq<Bytes>, t1: Trie, p1: seq<Bytes>, recs: seq<Pair>, i: nat,
                                       n: nat)
    requires IsTrie(t, paths) && IsTrie(t1, p1) && i < |recs| <= U32_MAX && DistinctKeys(recs)
    requires HoldsValues(t, paths, recs, i) && Grown(t, paths, t1, p1, recs[i].key)
    requires n < |t1| && p1[n] == recs[i].key && t1[n].valueIndex == NO_VALUE
    ensures var t2 := t1[n := TmpNode(t1[n].edges, i)];
      ChildrenInRange(t2) && forall k :: 0 <= k < i + 1 ==> Held(t2, recs[k].key, k)
  {
    hide EdgeSpells, SortedLabels, Total, DistinctKeys;
    var t2 := t1[n := TmpNode(t1[n].edges, i)];
    assert ChildrenInRange(t2);
    forall k | 0 <= k < i + 1 ensures Held(t2, recs[k].key, k) {
      SameEdgesSameWalk(t1, t2, 0, recs[k].key);
      if k < i {
        assert Held(t, recs[k].key, k);
        WalkSurvives(t, t1, 0, recs[k].key);
      } else {
        assert Walk(t1, 0, p1[n]) == Some(n);
      }
    }
  }

  lemma {:induction false} ValuesCorrect(t: Trie, paths: seq<Bytes>, t1: Trie, p1: seq<Bytes>, recs: seq<Pair>,
                                         i: nat, n: nat)
    requires IsTrie(t, paths) && i < |recs| <= U32_MAX
    requires HoldsValues(t, paths, recs, i) && Grown(t, paths, t1, p1, recs[i].key)
    requires n < |t1| && p1[n] == recs[i].key
    ensures var t2 := t1[n := TmpNode(t1[n].edges, i)];
      forall m :: 0 <= m < |t2| && t2[m].valueIndex != NO_VALUE ==>
        t2[m].valueIndex < i + 1 && recs[t2[m].valueIndex].key == p1[m]
  {
    var t2 := t1[n := TmpNode(t1[n].edges, i)];
    forall m | 0 <= m < |t2| && t2[m].valueIndex != NO_VALUE
      ensures t2[m].valueIndex < i + 1 && recs[t2[m].valueIndex].key == p1[m]
    {
      if m != n {
        assert m < |t| && t[m].valueIndex == t2[m].valueIndex && paths[m] == p1[m];
      }
    }
  }
}
