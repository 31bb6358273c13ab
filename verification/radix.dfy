/** The radix trie of src/backends/fce_backend_radix.c: what a trie is, and how it grows. */
module RadixTrie {
  import opened Bytes
  import opened Format

  const NO_VALUE: u32 := 0xffff_ffff

  /** A node while the trie is built (RadixTmpNode): its own sorted edge list. */
  datatype TmpNode = TmpNode(edges: seq<RadixEdge>, valueIndex: u32)
  type Trie = seq<TmpNode>

  predicate SortedLabels(edges: seq<RadixEdge>) {
    forall i, j :: 0 <= i < j < |edges| ==> edges[i].edgeLabel < edges[j].edgeLabel
  }

  /** The child behind a label, by plain search. */
  function Child(edges: seq<RadixEdge>, c: byte): Option<u32> {
    if edges == [] then None
    else if edges[0].edgeLabel == c then Some(edges[0].child)
    else Child(edges[1..], c)
  }

  predicate ChildrenInRange(t: Trie) {
    forall n, j :: 0 <= n < |t| && 0 <= j < |t[n].edges| ==> t[n].edges[j].child < |t|
  }

  /** The node reached from n by reading the key. */
  function Walk(t: Trie, n: nat, key: Bytes): (r: Option<nat>)
    requires n < |t| && ChildrenInRange(t)
    ensures r.Some? ==> r.value < |t|
    decreases |key|
  {
    if key == [] then Some(n)
    else
      match Child(t[n].edges, key[0])
      case None => None
      case Some(m) => ChildIn(t[n].edges, key[0]); Walk(t, m, key[1..])
  }

  /** A found child is the target of an edge with that label; a sorted miss has no such edge. */
  lemma {:induction false} ChildIn(edges: seq<RadixEdge>, c: byte)
    ensures Child(edges, c).Some? ==> RadixEdge(c, Child(edges, c).value) in edges
    ensures Child(edges, c).None? ==> forall e :: e in edges ==> e.edgeLabel != c
  {
    if edges != [] {
      assert edges == [edges[0]] + edges[1..];
      ChildIn(edges[1..], c);
    }
  }

  lemma {:induction false} ChildOfEdge(edges: seq<RadixEdge>, j: nat)
    requires SortedLabels(edges) && j < |edges|
    ensures Child(edges, edges[j].edgeLabel) == Some(edges[j].child)
  {
    if j > 0 {
      ChildOfEdge(edges[1..], j - 1);
    }
  }

  /** Node n spells paths[n]: a rooted tree whose edges lead to younger nodes. */
  ghost predicate IsTrie(t: Trie, paths: seq<Bytes>) {
    && |t| == |paths| > 0 && paths[0] == []
    && ChildrenInRange(t)
    && (forall n :: 0 <= n < |t| ==> SortedLabels(t[n].edges))
    && (forall n, j :: 0 <= n < |t| && 0 <= j < |t[n].edges| ==> EdgeSpells(t, paths, n, j))
    && (forall m, n :: 0 <= m < n < |t| ==> paths[m] != paths[n])
    && (forall n :: 0 <= n < |t| ==> Walk(t, 0, paths[n]) == Some(n))
  }

  ghost predicate EdgeSpells(t: Trie, paths: seq<Bytes>, n: nat, j: nat)
    requires |t| == |paths| && ChildrenInRange(t) && n < |t| && j < |t[n].edges|
  {
    var e := t[n].edges[j];
    n < e.child && paths[e.child] == paths[n] + [e.edgeLabel]
  }

  lemma {:induction false} WalkSpells(t: Trie, paths: seq<Bytes>, n: nat, key: Bytes)
    requires IsTrie(t, paths) && n < |t|
    ensures Walk(t, n, key).Some? ==> paths[Walk(t, n, key).value] == paths[n] + key
    decreases |key|
  {
    if key != [] {
      ChildIn(t[n].edges, key[0]);
      if Child(t[n].edges, key[0]).Some? {
        var m := Child(t[n].edges, key[0]).value;
        var j :| 0 <= j < |t[n].edges| && t[n].edges[j] == RadixEdge(key[0], m);
        assert EdgeSpells(t, paths, n, j);
        WalkSpells(t, paths, m, key[1..]);
        assert paths[n] + key == (paths[n] + [key[0]]) + key[1..];
      }
    }
  }

  /** From the root, reading a key reaches node n exactly when n spells the key. */
  lemma {:induction false} WalkReachesItsPath(t: Trie, paths: seq<Bytes>, key: Bytes, n: nat)
    requires IsTrie(t, paths) && n < |t|
    ensures Walk(t, 0, key) == Some(n) <==> paths[n] == key
  {
    WalkSpells(t, paths, 0, key);
  }

  lemma {:induction false} WalkConcat(t: Trie, n: nat, a: Bytes, b: Bytes)
    requires n < |t| && ChildrenInRange(t)
    ensures Walk(t, n, a + b) == (match Walk(t, n, a) case None => None case Some(m) => Walk(t, m, b))
    decreases |a|
  {
    if a == [] {
      assert a + b == b;
    } else {
      assert (a + b)[1..] == a[1..] + b;
      ChildIn(t[n].edges, a[0]);
      if Child(t[n].edges, a[0]).Some? {
        WalkConcat(t, Child(t[n].edges, a[0]).value, a[1..], b);
      }
    }
  }

  // ---- Growing ----

  /** The in-place insertion point: past all smaller labels. */
  function LabelPos(edges: seq<RadixEdge>, c: byte): (pos: nat)
    ensures pos <= |edges|
    ensures forall i :: 0 <= i < pos ==> edges[i].edgeLabel < c
    ensures pos < |edges| ==> c <= edges[pos].edgeLabel
  {
    if edges == [] || c <= edges[0].edgeLabel then 0 else 1 + LabelPos(edges[1..], c)
  }

  /** The trie with a fresh node behind a new label of an existing node. */
  function WithEdge(t: Trie, n: nat, c: byte): Trie
    requires n < |t| <= U32_MAX
  {
    var pos := LabelPos(t[n].edges, c);
    var edges := t[n].edges[..pos] + [RadixEdge(c, |t|)] + t[n].edges[pos..];
    t[n := TmpNode(edges, t[n].valueIndex)] + [TmpNode([], NO_VALUE)]
  }

  /** Every old child stays; nodes keep their values. */
  ghost predicate Extends(t: Trie, t': Trie) {
    && |t| <= |t'|
    && forall n :: 0 <= n < |t| ==> t'[n].valueIndex == t[n].valueIndex && KeepsChildren(t[n].edges, t'[n].edges)
  }

  ghost predicate KeepsChildren(a: seq<RadixEdge>, b: seq<RadixEdge>) {
    forall c: byte :: Child(a, c).Some? ==> Child(b, c) == Child(a, c)
  }

  lemma {:induction false} InsertKeepsOrder(edges: seq<RadixEdge>, c: byte, child: u32)
    requires SortedLabels(edges) && Child(edges, c).None?
    ensures var pos := LabelPos(edges, c); SortedLabels(edges[..pos] + [RadixEdge(c, child)] + edges[pos..])
  {
    var pos := LabelPos(edges, c);
    ChildIn(edges, c);
    assert pos < |edges| ==> edges[pos] in edges && c < edges[pos].edgeLabel;
  }

  lemma {:induction false} InsertKeepsChildren(edges: seq<RadixEdge>, c: byte, child: u32)
    requires SortedLabels(edges) && Child(edges, c).None?
    ensures var pos := LabelPos(edges, c);
      var edges' := edges[..pos] + [RadixEdge(c, child)] + edges[pos..];
      SortedLabels(edges') && KeepsChildren(edges, edges') && Child(edges', c) == Some(child)
  {
    hide SortedLabels;
    var pos := LabelPos(edges, c);
    var edges' := edges[..pos] + [RadixEdge(c, child)] + edges[pos..];
    ChildIn(edges, c);
    assert pos < |edges| ==> edges[pos] in edges && c < edges[pos].edgeLabel;
    InsertKeepsOrder(edges, c, child);
    ChildOfEdge(edges', pos);
    forall d: byte | Child(edges, d).Some? ensures Child(edges', d) == Child(edges, d) {
      ChildIn(edges, d);
      var j :| 0 <= j < |edges| && edges[j] == RadixEdge(d, Child(edges, d).value);
      var k := if j < pos then j else j + 1;
      assert edges'[k] == edges[j];
      ChildOfEdge(edges', k);
    }
  }

  lemma {:induction false} WalkSurvives(t: Trie, t': Trie, n: nat, key: Bytes)
    requires Extends(t, t') && ChildrenInRange(t) && ChildrenInRange(t') && n < |t|
    ensures Walk(t, n, key).Some? ==> Walk(t', n, key) == Walk(t, n, key)
    decreases |key|
  {
    if key != [] && Child(t[n].edges, key[0]).Some? {
      ChildIn(t[n].edges, key[0]);
      assert KeepsChildren(t[n].edges, t'[n].edges);
      WalkSurvives(t, t', Child(t[n].edges, key[0]).value, key[1..]);
    }
  }

  lemma {:induction false} WithEdgeIsTrie(t: Trie, paths: seq<Bytes>, n: nat, c: byte)
    requires IsTrie(t, paths) && n < |t| <= U32_MAX && Child(t[n].edges, c).None?
    ensures Extends(t, WithEdge(t, n, c))
    ensures IsTrie(WithEdge(t, n, c), paths + [paths[n] + [c]])
    ensures Child(WithEdge(t, n, c)[n].edges, c) == Some(|t|)
  {
    InsertKeepsChildren(t[n].edges, c, |t|);
    WithEdgeSpells(t, paths, n, c);
    WithEdgeWalks(t, paths, n, c);
    PathIsNew(t, paths, n, c);
    var t', paths' := WithEdge(t, n, c), paths + [paths[n] + [c]];
    forall m | 0 <= m < |t'| ensures SortedLabels(t'[m].edges) {
      if m != n && m < |t| {
        assert t'[m] == t[m];
      }
    }
    forall m | 0 <= m < |t'| ensures Walk(t', 0, paths'[m]) == Some(m) {
      if m < |t| {
        assert paths'[m] == paths[m];
      }
    }
  }

  lemma {:induction false} PathIsNew(t: Trie, paths: seq<Bytes>, n: nat, c: byte)
    requires IsTrie(t, paths) && n < |t| && Child(t[n].edges, c).None?
    ensures forall m :: 0 <= m < |t| ==> paths[m] != paths[n] + [c]
  {
    WalkConcat(t, 0, paths[n], [c]);
    forall m | 0 <= m < |t| ensures paths[m] != paths[n] + [c] {
      assert Walk(t, 0, paths[m]) == Some(m);
    }
  }

  lemma {:induction false} WithEdgeSpells(t: Trie, paths: seq<Bytes>, n: nat, c: byte)
    requires IsTrie(t, paths) && n < |t| <= U32_MAX
    ensures var t', paths' := WithEdge(t, n, c), paths + [paths[n] + [c]];
      && |t'| == |paths'| && ChildrenInRange(t')
      && forall m, j :: 0 <= m < |t'| && 0 <= j < |t'[m].edges| ==> EdgeSpells(t', paths', m, j)
  {
    var t', paths' := WithEdge(t, n, c), paths + [paths[n] + [c]];
    var pos := LabelPos(t[n].edges, c);
    assert ChildrenInRange(t');
    forall m, j | 0 <= m < |t'| && 0 <= j < |t'[m].edges| ensures EdgeSpells(t', paths', m, j) {
      if m != n {
        assert m < |t| && t'[m] == t[m];
        assert EdgeSpells(t, paths, m, j);
      } else if j != pos {
        assert EdgeSpells(t, paths, n, if j < pos then j else j - 1);
      }
    }
  }

  lemma {:induction false} WithEdgeWalks(t: Trie, paths: seq<Bytes>, n: nat, c: byte)
    requires IsTrie(t, paths) && n < |t| <= U32_MAX && ChildrenInRange(WithEdge(t, n, c))
    requires Extends(t, WithEdge(t, n, c)) && Child(WithEdge(t, n, c)[n].edges, c) == Some(|t|)
    ensures forall m :: 0 <= m < |t| ==> Walk(WithEdge(t, n, c), 0, paths[m]) == Some(m)
    ensures Walk(WithEdge(t, n, c), 0, paths[n] + [c]) == Some(|t|)
  {
    var t' := WithEdge(t, n, c);
    forall m | 0 <= m < |t| ensures Walk(t', 0, paths[m]) == Some(m) {
      WalkSurvives(t, t', 0, paths[m]);
    }
    WalkConcat(t', 0, paths[n], [c]);
    assert Walk(t', n, [c]) == Walk(t', |t|, []);
  }
}
