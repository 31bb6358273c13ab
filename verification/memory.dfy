/** The tracking allocator: src/core/fce_memory.c. Addresses come from the C allocator, which is a parameter
    of every call: 0 is its failure, anything else an address not in use. */
module Memory {

  datatype Node = Node(ptr: nat, size: nat)

  function TotalSize(nodes: seq<Node>): nat {
    if nodes == [] then 0 else nodes[0].size + TotalSize(nodes[1..])
  }

  predicate Tracked(nodes: seq<Node>, ptr: nat) {
    exists i :: 0 <= i < |nodes| && nodes[i].ptr == ptr
  }

  ghost predicate DistinctPtrs(nodes: seq<Node>) {
    && (forall i :: 0 <= i < |nodes| ==> nodes[i].ptr != 0)
    && (forall i, j :: 0 <= i < j < |nodes| ==> nodes[i].ptr != nodes[j].ptr)
  }

  /** The list without the node of a pointer. */
  ghost function Without(nodes: seq<Node>, ptr: nat): seq<Node> {
    if nodes == [] then []
    else if nodes[0].ptr == ptr then nodes[1..]
    else [nodes[0]] + Without(nodes[1..], ptr)
  }

  lemma {:induction false} WithoutIsCut(nodes: seq<Node>, i: nat)
    requires i < |nodes| && forall j :: 0 <= j < i ==> nodes[j].ptr != nodes[i].ptr
    ensures Without(nodes, nodes[i].ptr) == nodes[..i] + nodes[i + 1..]
    ensures TotalSize(Without(nodes, nodes[i].ptr)) + nodes[i].size == TotalSize(nodes)
  {
    if i > 0 {
      WithoutIsCut(nodes[1..], i - 1);
      assert nodes[..i] + nodes[i + 1..] == [nodes[0]] + (nodes[1..][..i - 1] + nodes[1..][i..]);
    } else {
      assert nodes[..0] + nodes[1..] == nodes[1..];
    }
  }

  lemma {:induction false} SizeAfterUpdate(nodes: seq<Node>, i: nat, n: Node)
    requires i < |nodes|
    ensures TotalSize(nodes[i := n]) + nodes[i].size == TotalSize(nodes) + n.size
  {
    if i > 0 {
      SizeAfterUpdate(nodes[1..], i - 1, n);
      assert nodes[i := n][1..] == nodes[1..][i - 1 := n];
    } else {
      assert nodes[0 := n][1..] == nodes[1..];
    }
  }

  lemma {:induction false} CutIsDistinct(nodes: seq<Node>, i: nat)
    requires DistinctPtrs(nodes) && i < |nodes|
    ensures DistinctPtrs(nodes[..i] + nodes[i + 1..])
  {
  }

  lemma {:induction false} UpdateIsDistinct(nodes: seq<Node>, i: nat, n: Node)
    requires DistinctPtrs(nodes) && i < |nodes| && n.ptr != 0 && (n.ptr == nodes[i].ptr || !Tracked(nodes, n.ptr))
    ensures DistinctPtrs(nodes[i := n])
  {
  }

  lemma {:induction false} WithoutTracks(nodes: seq<Node>, ptr: nat)
    requires DistinctPtrs(nodes)
    ensures DistinctPtrs(Without(nodes, ptr))
    ensures forall q :: Tracked(Without(nodes, ptr), q) <==> Tracked(nodes, q) && q != ptr
  {
    if i :| 0 <= i < |nodes| && nodes[i].ptr == ptr {
      WithoutIsCut(nodes, i);
      CutIsDistinct(nodes, i);
      CutTracks(nodes, i);
    } else {
      WithoutNothing(nodes, ptr);
    }
  }

  lemma {:induction false} CutTracks(nodes: seq<Node>, i: nat)
    requires DistinctPtrs(nodes) && i < |nodes|
    ensures forall q :: Tracked(nodes[..i] + nodes[i + 1..], q) <==> Tracked(nodes, q) && q != nodes[i].ptr
  {
    var cut := nodes[..i] + nodes[i + 1..];
    forall q | Tracked(nodes, q) && q != nodes[i].ptr ensures Tracked(cut, q) {
      var j :| 0 <= j < |nodes| && nodes[j].ptr == q;
      assert cut[if j < i then j else j - 1].ptr == q;
    }
    forall q | Tracked(cut, q) ensures Tracked(nodes, q) && q != nodes[i].ptr {
      var j :| 0 <= j < |cut| && cut[j].ptr == q;
      assert nodes[if j < i then j else j + 1].ptr == q;
    }
  }

  lemma {:induction false} WithoutNothing(nodes: seq<Node>, ptr: nat)
    requires !Tracked(nodes, ptr)
    ensures Without(nodes, ptr) == nodes
  {
    if nodes != [] {
      assert nodes[0].ptr != ptr;
      forall i | 0 <= i < |nodes| - 1 ensures nodes[1..][i].ptr != ptr {
        assert nodes[i + 1].ptr != ptr;
      }
      WithoutNothing(nodes[1..], ptr);
    }
  }

  /** The list with the node of a pointer replaced. */
  ghost function Replaced(nodes: seq<Node>, ptr: nat, n: Node): seq<Node> {
    if nodes == [] then []
    else if nodes[0].ptr == ptr then [n] + nodes[1..]
    else [nodes[0]] + Replaced(nodes[1..], ptr, n)
  }

  lemma {:induction false} ReplacedIsUpdate(nodes: seq<Node>, i: nat, n: Node)
    requires i < |nodes| && forall j :: 0 <= j < i ==> nodes[j].ptr != nodes[i].ptr
    ensures Replaced(nodes, nodes[i].ptr, n) == nodes[i := n]
  {
    if i > 0 {
      ReplacedIsUpdate(nodes[1..], i - 1, n);
      assert nodes[i := n] == [nodes[0]] + nodes[1..][i - 1 := n];
    }
  }

  lemma {:induction false} ReplacedTracks(nodes: seq<Node>, ptr: nat, n: Node)
    requires DistinctPtrs(nodes) && Tracked(nodes, ptr) && n.ptr != 0 && (n.ptr == ptr || !Tracked(nodes, n.ptr))
    ensures DistinctPtrs(Replaced(nodes, ptr, n)) && |Replaced(nodes, ptr, n)| == |nodes|
    ensures forall q :: Tracked(Replaced(nodes, ptr, n), q) <==> q == n.ptr || (Tracked(nodes, q) && q != ptr)
  {
    var i :| 0 <= i < |nodes| && nodes[i].ptr == ptr;
    ReplacedIsUpdate(nodes, i, n);
    UpdateIsDistinct(nodes, i, n);
    var after := nodes[i := n];
    assert after[i].ptr == n.ptr;
    forall q | Tracked(nodes, q) && q != ptr ensures Tracked(after, q) {
      var j :| 0 <= j < |nodes| && nodes[j].ptr == q;
      assert after[j].ptr == q;
    }
    forall q | Tracked(after, q) ensures q == n.ptr || (Tracked(nodes, q) && q != ptr) {
      var j :| 0 <= j < |after| && after[j].ptr == q;
      assert j != i ==> nodes[j].ptr == q;
    }
  }

  lemma {:induction false} PushedTracks(nodes: seq<Node>, n: Node)
    ensures forall q :: Tracked([n] + nodes, q) <==> q == n.ptr || Tracked(nodes, q)
  {
    var after := [n] + nodes;
    assert after[0] == n;
    forall q | Tracked(nodes, q) ensures Tracked(after, q) {
      var j :| 0 <= j < |nodes| && nodes[j].ptr == q;
      assert after[j + 1].ptr == q;
    }
    forall q | Tracked(after, q) ensures q == n.ptr || Tracked(nodes, q) {
      var j :| 0 <= j < |after| && after[j].ptr == q;
      assert j != 0 ==> nodes[j - 1].ptr == q;
    }
  }

  // ---- Histories ----

  /** What happened to the allocation list. */
  datatype Event = Got(ptr: nat, size: nat) | Gave(ptr: nat) | Moved(ptr: nat, to: nat, size: nat)

  ghost function After(nodes: seq<Node>, e: Event): seq<Node> {
    match e
    case Got(p, n) => [Node(p, n)] + nodes
    case Gave(p) => Without(nodes, p)
    case Moved(p, q, n) => Replaced(nodes, p, Node(q, n))
  }

  /** The list that a history leaves. */
  ghost function Replay(es: seq<Event>): seq<Node> {
    if es == [] then [] else After(Replay(es[..|es| - 1]), es[|es| - 1])
  }

  /** Fresh addresses are new, and only tracked ones are released or moved. */
  ghost predicate Proper(nodes: seq<Node>, e: Event) {
    match e
    case Got(p, _) => p != 0 && !Tracked(nodes, p)
    case Gave(p) => Tracked(nodes, p)
    case Moved(p, q, _) => Tracked(nodes, p) && q != 0 && (q == p || !Tracked(nodes, q))
  }

  ghost predicate Legal(es: seq<Event>) {
    es == [] || (Legal(es[..|es| - 1]) && Proper(Replay(es[..|es| - 1]), es[|es| - 1]))
  }

  ghost function Gots(es: seq<Event>): nat {
    if es == [] then 0 else Gots(es[..|es| - 1]) + if es[|es| - 1].Got? then 1 else 0
  }

  ghost function Gaves(es: seq<Event>): nat {
    if es == [] then 0 else Gaves(es[..|es| - 1]) + if es[|es| - 1].Gave? then 1 else 0
  }

  function Max(a: nat, b: nat): nat { if a >= b then a else b }

  /** The largest total size after any event, 0 before the first. */
  ghost function Peak(es: seq<Event>): nat {
    if es == [] then 0 else Max(Peak(es[..|es| - 1]), TotalSize(Replay(es)))
  }

  /** One more event. */
  lemma {:induction false} Extend(es: seq<Event>, e: Event)
    ensures Replay(es + [e]) == After(Replay(es), e)
    ensures Legal(es + [e]) <==> Legal(es) && Proper(Replay(es), e)
    ensures Gots(es + [e]) == Gots(es) + if e.Got? then 1 else 0
    ensures Gaves(es + [e]) == Gaves(es) + if e.Gave? then 1 else 0
    ensures Peak(es + [e]) == Max(Peak(es), TotalSize(After(Replay(es), e)))
  {
    var more := es + [e];
    assert more[..|more| - 1] == es && more[|more| - 1] == e;
  }

  /** Peak is the least upper bound of the total sizes over the history, the empty one included. */
  lemma {:induction false} PeakIsLargest(es: seq<Event>)
    ensures forall k :: 0 <= k <= |es| ==> TotalSize(Replay(es[..k])) <= Peak(es)
    ensures exists k :: 0 <= k <= |es| && TotalSize(Replay(es[..k])) == Peak(es)
  {
    assert es[..|es|] == es;
    if es == [] {
      assert TotalSize(Replay(es[..0])) == Peak(es);
    } else {
      var before := es[..|es| - 1];
      PeakIsLargest(before);
      forall k | 0 <= k <= |es| ensures TotalSize(Replay(es[..k])) <= Peak(es) {
        if k < |es| {
          assert before[..k] == es[..k];
        }
      }
      var k :| 0 <= k <= |before| && TotalSize(Replay(before[..k])) == Peak(before);
      assert before[..k] == es[..k];
      assert TotalSize(Replay(es[..|es|])) == Peak(es) || TotalSize(Replay(es[..k])) == Peak(es);
    }
  }

  /** Allocations and frees balance over every legal history, and no address is listed twice. */
  lemma {:induction false} LegalHistory(es: seq<Event>)
    requires Legal(es)
    ensures DistinctPtrs(Replay(es)) && Gots(es) == Gaves(es) + |Replay(es)|
    ensures TotalSize(Replay(es)) <= Peak(es)
  {
    if es != [] {
      var before, e := es[..|es| - 1], es[|es| - 1];
      LegalHistory(before);
      match e
      case Got(p, n) => GotKeeps(Replay(before), Node(p, n));
      case Gave(p) => GaveKeeps(Replay(before), p);
      case Moved(p, q, n) => ReplacedTracks(Replay(before), p, Node(q, n));
    }
  }

  lemma {:induction false} GotKeeps(nodes: seq<Node>, n: Node)
    requires DistinctPtrs(nodes) && n.ptr != 0 && !Tracked(nodes, n.ptr)
    ensures DistinctPtrs([n] + nodes)
  {
    forall i | 0 <= i < |nodes| ensures nodes[i].ptr != n.ptr {
      assert !Tracked(nodes, n.ptr);
    }
  }

  lemma {:induction false} GaveKeeps(nodes: seq<Node>, ptr: nat)
    requires DistinctPtrs(nodes) && Tracked(nodes, ptr)
    ensures DistinctPtrs(Without(nodes, ptr)) && |Without(nodes, ptr)| + 1 == |nodes|
    ensures TotalSize(Without(nodes, ptr)) <= TotalSize(nodes)
  {
    var i :| 0 <= i < |nodes| && nodes[i].ptr == ptr;
    WithoutIsCut(nodes, i);
    CutIsDistinct(nodes, i);
  }

  // ---- What each call does to the history ----

  function Rounded(size: nat): nat { if size == 0 then 1 else size }

  function Mallocs(size: nat, p: nat, node: nat): seq<Event> {
    if p == 0 || node == 0 then [] else [Got(p, Rounded(size))]
  }

  ghost function Frees(nodes: seq<Node>, ptr: nat): seq<Event> {
    if Tracked(nodes, ptr) then [Gave(ptr)] else []
  }

  ghost function Reallocs(nodes: seq<Node>, ptr: nat, size: nat, q: nat, p: nat, node: nat): seq<Event> {
    if ptr == 0 then Mallocs(size, p, node)
    else if size == 0 then Frees(nodes, ptr)
    else if Tracked(nodes, ptr) && q != 0 then [Moved(ptr, q, size)]
    else []
  }

  datatype Stats = Stats(active: nat, bytes: nat, total: nat, frees: nat, peak: nat)

  /** The statistics that a history should leave. */
  ghost function StatsOf(es: seq<Event>): Stats {
    Stats(|Replay(es)|, TotalSize(Replay(es)), Gots(es), Gaves(es), Peak(es))
  }

  class Allocator {
    /** g_allocations, newest first. */
    var nodes: seq<Node>
    var activeAllocations: nat
    var activeBytes: nat
    var totalAllocations: nat
    var totalFrees: nat
    var peakBytes: nat
    ghost var events: seq<Event>

    /** List and counters are those of the history. */
    ghost predicate Valid()
      reads this
    {
      && Legal(events) && nodes == Replay(events)
      && Stats(activeAllocations, activeBytes, totalAllocations, totalFrees, peakBytes) == StatsOf(events)
    }

    constructor ()
      ensures Valid() && events == [] && nodes == []
      ensures activeAllocations == activeBytes == totalAllocations == totalFrees == peakBytes == 0
    {
      nodes, activeAllocations, activeBytes, totalAllocations, totalFrees, peakBytes := [], 0, 0, 0, 0, 0;
      events := [];
    }

    /** fce_memory_stats. */
    method MemoryStats() returns (s: Stats)
      requires Valid()
      ensures s == StatsOf(events)
    {
      s := Stats(activeAllocations, activeBytes, totalAllocations, totalFrees, peakBytes);
    }

    /** find_allocation. */
    method FindAllocation(ptr: nat) returns (i: nat)
      ensures i <= |nodes|
      ensures i < |nodes| ==> nodes[i].ptr == ptr && forall j :: 0 <= j < i ==> nodes[j].ptr != ptr
      ensures i == |nodes| ==> !Tracked(nodes, ptr)
    {
      i := 0;
      while i < |nodes| && nodes[i].ptr != ptr
        invariant i <= |nodes|
        invariant forall j :: 0 <= j < i ==> nodes[j].ptr != ptr
      {
        i := i + 1;
      }
    }

    /** add_stats. */
    method AddStats(n: nat)
      modifies this`activeAllocations, this`totalAllocations, this`activeBytes, this`peakBytes
      ensures activeAllocations == old(activeAllocations) + 1 && totalAllocations == old(totalAllocations) + 1
      ensures activeBytes == old(activeBytes) + n && peakBytes == Max(old(peakBytes), activeBytes)
    {
      activeAllocations := activeAllocations + 1;
      totalAllocations := totalAllocations + 1;
      activeBytes := activeBytes + n;
      if activeBytes > peakBytes {
        peakBytes := activeBytes;
      }
    }

    /** fce_xmalloc: p and node are what the two mallocs return. */
    method Xmalloc(size: nat, p: nat, node: nat) returns (r: nat)
      requires Valid() && !Tracked(nodes, p)
      modifies this
      ensures Valid() && events == old(events) + Mallocs(size, p, node)
      ensures r == if p == 0 || node == 0 then 0 else p
      ensures nodes == if r == 0 then old(nodes) else [Node(p, Rounded(size))] + old(nodes)
      ensures totalAllocations == old(totalAllocations) + (if r == 0 then 0 else 1) && totalFrees == old(totalFrees)
      ensures peakBytes == if r == 0 then old(peakBytes) else Max(old(peakBytes), activeBytes)
    {
      var n := if size == 0 then 1 else size;
      if p == 0 || node == 0 {
        return 0;
      }
      Extend(events, Got(p, n));
      nodes := [Node(p, n)] + nodes;
      AddStats(n);
      events := events + [Got(p, n)];
      return p;
    }

    /** fce_free: the node is unlinked and counted; an untracked pointer changes nothing here. */
    method Free(ptr: nat)
      requires Valid()
      modifies this
      ensures Valid() && events == old(events) + Frees(old(nodes), ptr)
      ensures nodes == Without(old(nodes), ptr)
      ensures totalFrees == old(totalFrees) + (if Tracked(old(nodes), ptr) then 1 else 0)
      ensures totalAllocations == old(totalAllocations) && peakBytes == old(peakBytes)
    {
      LegalHistory(events);
      if ptr == 0 {
        WithoutNothing(nodes, ptr);
        return;
      }
      var i := FindAllocation(ptr);
      if i == |nodes| {
        WithoutNothing(nodes, ptr);
      } else {
        Unlink(i);
      }
    }

    method Unlink(i: nat)
      requires Valid() && i < |nodes|
      modifies this
      ensures Valid() && events == old(events) + [Gave(old(nodes)[i].ptr)]
      ensures nodes == Without(old(nodes), old(nodes)[i].ptr)
      ensures totalFrees == old(totalFrees) + 1
      ensures totalAllocations == old(totalAllocations) && peakBytes == old(peakBytes)
    {
      var node := nodes[i];
      LegalHistory(events);
      WithoutIsCut(nodes, i);
      Extend(events, Gave(node.ptr));
      nodes := nodes[..i] + nodes[i + 1..];
      if activeAllocations > 0 {
        activeAllocations := activeAllocations - 1;
      }
      if activeBytes >= node.size {
        activeBytes := activeBytes - node.size;
      }
      totalFrees := totalFrees + 1;
      events := events + [Gave(node.ptr)];
    }

    /** fce_xrealloc: q is what realloc returns, p and node are used when there is nothing to resize. */
    method Xrealloc(ptr: nat, size: nat, q: nat, p: nat, node: nat) returns (r: nat)
      requires Valid() && !Tracked(nodes, p) && (q == ptr || !Tracked(nodes, q))
      modifies this
      ensures Valid() && events == old(events) + Reallocs(old(nodes), ptr, size, q, p, node)
      ensures ptr == 0 ==> r == (if p == 0 || node == 0 then 0 else p)
      ensures ptr == 0 ==> nodes == if r == 0 then old(nodes) else [Node(p, Rounded(size))] + old(nodes)
      ensures ptr != 0 && size == 0 ==> r == 0 && nodes == Without(old(nodes), ptr)
      ensures ptr != 0 && size != 0 ==> r == if Tracked(old(nodes), ptr) then q else 0
      ensures ptr != 0 && size != 0 ==> nodes == if r == 0 then old(nodes) else Replaced(old(nodes), ptr, Node(q, size))
      ensures totalAllocations == old(totalAllocations) + if ptr == 0 && r != 0 then 1 else 0
      ensures totalFrees == old(totalFrees) + if ptr != 0 && size == 0 && Tracked(old(nodes), ptr) then 1 else 0
      ensures peakBytes == if r == 0 then old(peakBytes) else Max(old(peakBytes), activeBytes)
    {
      if ptr == 0 {
        r := Xmalloc(size, p, node);
        return;
      }
      if size == 0 {
        Free(ptr);
        return 0;
      }
      var i := FindAllocation(ptr);
      if i == |nodes| || q == 0 {
        return 0;
      }
      Resize(i, q, size);
      return q;
    }

    method Resize(i: nat, q: nat, size: nat)
      requires Valid() && i < |nodes| && q != 0 && (q == nodes[i].ptr || !Tracked(nodes, q))
      modifies this
      ensures Valid() && events == old(events) + [Moved(old(nodes)[i].ptr, q, size)]
      ensures nodes == Replaced(old(nodes), old(nodes)[i].ptr, Node(q, size))
      ensures totalFrees == old(totalFrees) && totalAllocations == old(totalAllocations)
      ensures peakBytes == Max(old(peakBytes), activeBytes)
    {
      var oldSize := nodes[i].size;
      LegalHistory(events);
      SizeAfterUpdate(nodes, i, Node(q, size));
      ReplacedIsUpdate(nodes, i, Node(q, size));
      Extend(events, Moved(nodes[i].ptr, q, size));
      events := events + [Moved(nodes[i].ptr, q, size)];
      nodes := nodes[i := Node(q, size)];
      if size >= oldSize {
        activeBytes := activeBytes + (size - oldSize);
      } else {
        activeBytes := activeBytes - (oldSize - size);
      }
      if activeBytes > peakBytes {
        peakBytes := activeBytes;
      }
    }
  }
}
