/** Arenas: src/core/fce_memory.c. */
module Arenas {
  import opened Bytes
  import opened Memory
  import opened Sorting

  /** The struct sizes of a 64-bit build: a mutex and two list heads, and the two kinds of list node. */
  const ARENA_SIZE := 56
  const PTR_SIZE := 16
  const CLEANUP_SIZE := 24

  /** A block and the list node that remembers it. */
  datatype ArenaPtr = ArenaPtr(node: nat, block: nat)

  /** A cleanup that releases its context block, and its list node. */
  datatype ArenaCleanup = ArenaCleanup(node: nat, ctx: nat)

  function PtrBlocks(ps: seq<ArenaPtr>): seq<nat> {
    if ps == [] then [] else [ps[0].block, ps[0].node] + PtrBlocks(ps[1..])
  }

  function CleanupBlocks(cs: seq<ArenaCleanup>): seq<nat> {
    if cs == [] then [] else [cs[0].ctx, cs[0].node] + CleanupBlocks(cs[1..])
  }

  function Contexts(cs: seq<ArenaCleanup>): seq<nat> {
    seq(|cs|, i requires 0 <= i < |cs| => cs[i].ctx)
  }

  /** Everything an arena has to give back, in the order it does: cleanups, blocks, itself. */
  function OwnedBy(self: nat, ptrs: seq<ArenaPtr>, cleanups: seq<ArenaCleanup>): seq<nat> {
    CleanupBlocks(cleanups) + (PtrBlocks(ptrs) + [self])
  }

  /** A list of blocks, each allocated once. */
  ghost predicate AllTracked(nodes: seq<Node>, blocks: seq<nat>) {
    Distinct(blocks) && forall b :: b in blocks ==> Tracked(nodes, b)
  }

  ghost function WithoutAll(nodes: seq<Node>, blocks: seq<nat>): seq<Node>
    decreases |blocks|
  {
    if blocks == [] then nodes else WithoutAll(Without(nodes, blocks[0]), blocks[1..])
  }

  lemma {:induction false} TrackedAfterFirst(nodes: seq<Node>, blocks: seq<nat>)
    requires DistinctPtrs(nodes) && blocks != [] && AllTracked(nodes, blocks)
    ensures Tracked(nodes, blocks[0]) && AllTracked(Without(nodes, blocks[0]), blocks[1..])
  {
    WithoutTracks(nodes, blocks[0]);
    assert blocks[0] in blocks;
    forall b | b in blocks[1..] ensures Tracked(Without(nodes, blocks[0]), b) {
      assert b in blocks && b != blocks[0];
    }
  }

  /** Nothing of the blocks is left, everything else is. */
  lemma {:induction false} WithoutAllTracks(nodes: seq<Node>, blocks: seq<nat>)
    requires DistinctPtrs(nodes)
    ensures DistinctPtrs(WithoutAll(nodes, blocks))
    ensures forall q :: Tracked(WithoutAll(nodes, blocks), q) <==> Tracked(nodes, q) && q !in blocks
    decreases |blocks|
  {
    if blocks != [] {
      WithoutTracks(nodes, blocks[0]);
      WithoutAllTracks(Without(nodes, blocks[0]), blocks[1..]);
      assert forall q :: q in blocks <==> q == blocks[0] || q in blocks[1..];
    }
  }

  // ---- What each call does to the history ----

  /** One release for each block. */
  function GivesBack(blocks: seq<nat>): seq<Event> {
    seq(|blocks|, i requires 0 <= i < |blocks| => Gave(blocks[i]))
  }

  /** fce_arena_create. */
  function Creates(p: nat, node: nat, inited: bool): seq<Event> {
    if p == 0 || node == 0 then [] else if inited then [Got(p, ARENA_SIZE)] else [Got(p, ARENA_SIZE), Gave(p)]
  }

  /** fce_arena_alloc: a block whose list node fails is released again, as are both when the lock fails. */
  function Allocs(size: nat, p: nat, pNode: nat, n: nat, nNode: nat, locks: bool): seq<Event> {
    if p == 0 || pNode == 0 then [] else [Got(p, Rounded(size))] + AllocsNode(p, n, nNode, locks)
  }

  function AllocsNode(p: nat, n: nat, nNode: nat, locks: bool): seq<Event> {
    if n == 0 || nNode == 0 then [Gave(p)]
    else if locks then [Got(n, PTR_SIZE)]
    else [Got(n, PTR_SIZE), Gave(n), Gave(p)]
  }

  /** fce_arena_register_cleanup. */
  function Registers(n: nat, nNode: nat, locks: bool): seq<Event> {
    if n == 0 || nNode == 0 then []
    else if locks then [Got(n, CLEANUP_SIZE)]
    else [Got(n, CLEANUP_SIZE), Gave(n)]
  }

  lemma {:induction false} GiveBackOne(es: seq<Event>, blocks: seq<nat>)
    requires Legal(es) && AllTracked(Replay(es), blocks) && blocks != []
    ensures var more := es + [Gave(blocks[0])];
      && Legal(more) && Replay(more) == Without(Replay(es), blocks[0]) && AllTracked(Replay(more), blocks[1..])
      && Gaves(more) == Gaves(es) + 1 && Gots(more) == Gots(es)
  {
    hide Legal, Replay, Gots, Gaves, AllTracked, DistinctPtrs, Peak, TotalSize, Without;
    LegalHistory(es);
    TrackedAfterFirst(Replay(es), blocks);
    Extend(es, Gave(blocks[0]));
  }

  /** Releasing tracked blocks one by one is legal and leaves the others. */
  lemma {:induction false} ReplayGivesBack(es: seq<Event>, blocks: seq<nat>)
    requires Legal(es) && AllTracked(Replay(es), blocks)
    ensures Legal(es + GivesBack(blocks)) && Replay(es + GivesBack(blocks)) == WithoutAll(Replay(es), blocks)
    ensures Gaves(es + GivesBack(blocks)) == Gaves(es) + |blocks| && Gots(es + GivesBack(blocks)) == Gots(es)
    decreases |blocks|
  {
    hide Legal, Replay, Gots, Gaves, AllTracked, DistinctPtrs, Peak, TotalSize, Without, Tracked;
    if blocks == [] {
      assert es + GivesBack(blocks) == es;
    } else {
      GiveBackOne(es, blocks);
      ReplayGivesBack(es + [Gave(blocks[0])], blocks[1..]);
      assert es + GivesBack(blocks) == es + [Gave(blocks[0])] + GivesBack(blocks[1..]);
    }
  }

  class Arena {
    const self: nat
    var ptrs: seq<ArenaPtr>
    var cleanups: seq<ArenaCleanup>

    ghost function Owned(): seq<nat>
      reads this
    {
      OwnedBy(self, ptrs, cleanups)
    }

    constructor (self: nat)
      ensures this.self == self && ptrs == [] && cleanups == []
    {
      this.self, ptrs, cleanups := self, [], [];
    }

    /** fce_arena_create: p and node are what the two mallocs return, inited is the outcome of the lock. */
    static method Create(mem: Allocator, p: nat, node: nat, inited: bool) returns (r: Result<Arena>)
      requires mem.Valid() && !Tracked(mem.nodes, p)
      modifies mem
      ensures mem.Valid() && mem.events == old(mem.events) + Creates(p, node, inited)
      ensures r == Err(OutOfMemory) <==> p == 0 || node == 0
      ensures r == Err(Io) <==> p != 0 && node != 0 && !inited
      ensures r.Ok? <==> p != 0 && node != 0 && inited
      ensures r.Ok? ==> fresh(r.value) && r.value.self == p && r.value.ptrs == [] && r.value.cleanups == []
      ensures r.Ok? ==> mem.nodes == [Node(p, ARENA_SIZE)] + old(mem.nodes)
      ensures !r.Ok? ==> mem.nodes == old(mem.nodes)
    {
      hide Allocator.Valid;
      var self := mem.Xmalloc(ARENA_SIZE, p, node);
      if self == 0 {
        return Err(OutOfMemory);
      }
      if !inited {
        FreeNewest(mem, self);
        return Err(Io);
      }
      var arena := new Arena(self);
      return Ok(arena);
    }

    /** fce_arena_alloc: the block and its list node, or nothing. */
    method Alloc(mem: Allocator, size: nat, p: nat, pNode: nat, n: nat, nNode: nat, locks: bool) returns (r: nat)
      requires mem.Valid() && AllTracked(mem.nodes, Owned())
      requires !Tracked(mem.nodes, p) && !Tracked(mem.nodes, n) && p != n
      modifies this`ptrs, mem
      ensures mem.Valid() && mem.events == old(mem.events) + Allocs(size, p, pNode, n, nNode, locks)
      ensures r == if p == 0 || pNode == 0 || n == 0 || nNode == 0 || !locks then 0 else p
      ensures r == 0 ==> ptrs == old(ptrs) && mem.nodes == old(mem.nodes)
      ensures r != 0 ==> ptrs == [ArenaPtr(n, p)] + old(ptrs)
      ensures r != 0 ==> mem.nodes == [Node(n, PTR_SIZE), Node(p, Rounded(size))] + old(mem.nodes)
      ensures AllTracked(mem.nodes, Owned())
    {
      hide Allocator.Valid;
      var ok := AllocPair(mem, size, p, pNode, n, nNode, locks);
      if !ok {
        return 0;
      }
      OwnTwoMore(old(mem.nodes), mem.nodes, CleanupBlocks(cleanups), PtrBlocks(ptrs) + [self], p, n);
      ptrs := [ArenaPtr(n, p)] + ptrs;
      assert PtrBlocks(ptrs) + [self] == [p, n] + (PtrBlocks(old(ptrs)) + [self]);
      return p;
    }

    /** fce_arena_register_cleanup; ctx is a block that the cleanup frees. */
    method RegisterCleanup(mem: Allocator, ctx: nat, n: nat, nNode: nat, locks: bool) returns (r: Result<()>)
      requires mem.Valid() && AllTracked(mem.nodes, Owned())
      requires Tracked(mem.nodes, ctx) && ctx !in Owned() && !Tracked(mem.nodes, n)
      modifies this`cleanups, mem
      ensures mem.Valid() && mem.events == old(mem.events) + Registers(n, nNode, locks)
      ensures r == Err(OutOfMemory) <==> n == 0 || nNode == 0
      ensures r == Err(Io) <==> n != 0 && nNode != 0 && !locks
      ensures r.Ok? <==> n != 0 && nNode != 0 && locks
      ensures !r.Ok? ==> cleanups == old(cleanups) && mem.nodes == old(mem.nodes)
      ensures r.Ok? ==> cleanups == [ArenaCleanup(n, ctx)] + old(cleanups)
      ensures r.Ok? ==> mem.nodes == [Node(n, CLEANUP_SIZE)] + old(mem.nodes)
      ensures AllTracked(mem.nodes, Owned())
    {
      hide Allocator.Valid, PtrBlocks, Distinct, AllTracked, Tracked;
      var node := mem.Xmalloc(CLEANUP_SIZE, n, nNode);
      if node == 0 {
        return Err(OutOfMemory);
      }
      if !locks {
        FreeNewest(mem, node);
        return Err(Io);
      }
      OwnContext(old(mem.nodes), mem.nodes, Owned(), ctx, n);
      cleanups := [ArenaCleanup(n, ctx)] + cleanups;
      assert Owned() == [ctx, n] + old(Owned());
      return Ok(());
    }

    /** fce_arena_destroy: every cleanup runs once, newest first, and every owned block is freed exactly
        once, the arena itself last. */
    method Destroy(mem: Allocator) returns (ran: seq<nat>)
      requires mem.Valid() && AllTracked(mem.nodes, Owned())
      modifies this, mem
      ensures mem.Valid() && ran == old(Contexts(cleanups))
      ensures mem.events == old(mem.events) + GivesBack(old(Owned()))
      ensures mem.nodes == WithoutAll(old(mem.nodes), old(Owned()))
      ensures mem.totalFrees == old(mem.totalFrees) + |old(Owned())|
      ensures ptrs == [] && cleanups == []
    {
      hide Freeing, Legal, Replay, Gots, Gaves, Peak, WithoutAll, GivesBack;
      var c, p := cleanups, ptrs;
      ghost var before, all := mem.events, Owned();
      FreeingStarts(mem, all);
      ReplayGivesBack(before, all);
      cleanups, ptrs := [], [];
      ran := RunCleanups(mem, before, all, c, PtrBlocks(p) + [self]);
      FreeBlocks(mem, before, all, p);
      FreeSelf(mem, before, all);
    }

    method FreeBlocks(mem: Allocator, ghost before: seq<Event>, ghost all: seq<nat>, p: seq<ArenaPtr>)
      requires mem.Valid() && Freeing(mem, before, all, PtrBlocks(p) + [self])
      modifies mem
      ensures mem.Valid() && Freeing(mem, before, all, [self])
    {
      hide Allocator.Valid, Freeing;
      assert p[0..] == p;
      var i := 0;
      while i < |p|
        invariant 0 <= i <= |p|
        invariant mem.Valid() && Freeing(mem, before, all, PtrBlocks(p[i..]) + [self])
      {
        NextPtr(p, i, [self]);
        FreePair(mem, before, all, p[i].block, p[i].node, PtrBlocks(p[i + 1..]) + [self]);
        i := i + 1;
      }
      assert PtrBlocks(p[i..]) + [self] == [self];
    }

    method FreeSelf(mem: Allocator, ghost before: seq<Event>, ghost all: seq<nat>)
      requires mem.Valid() && Freeing(mem, before, all, [self])
      modifies mem
      ensures mem.Valid() && mem.events == before + GivesBack(all)
    {
      FreeNext(mem, before, all, self, []);
      assert all[..|all|] == all;
    }
  }

  /** Release the block that was allocated last. */
  method FreeNewest(mem: Allocator, ptr: nat)
    requires mem.Valid() && mem.nodes != [] && mem.nodes[0].ptr == ptr
    modifies mem
    ensures mem.Valid() && mem.nodes == old(mem.nodes)[1..] && mem.events == old(mem.events) + [Gave(ptr)]
  {
    mem.Free(ptr);
  }

  /** Of all blocks, those in left are still to be freed. */
  ghost predicate Freeing(mem: Allocator, before: seq<Event>, all: seq<nat>, left: seq<nat>)
    reads mem
  {
    && AllTracked(mem.nodes, left)
    && |left| <= |all| && left == all[|all| - |left|..]
    && mem.events == before + GivesBack(all[..|all| - |left|])
  }

  method FreeNext(mem: Allocator, ghost before: seq<Event>, ghost all: seq<nat>, a: nat, ghost left: seq<nat>)
    requires mem.Valid() && Freeing(mem, before, all, [a] + left)
    modifies mem
    ensures mem.Valid() && Freeing(mem, before, all, left)
  {
    hide Legal, Replay, StatsOf, GivesBack;
    LegalHistory(mem.events);
    TrackedAfterFirst(mem.nodes, [a] + left);
    NextLeft(all, a, left);
    mem.Free(a);
  }

  lemma {:induction false} NextLeft(all: seq<nat>, a: nat, left: seq<nat>)
    requires |left| < |all| && [a] + left == all[|all| - |left| - 1..]
    ensures ([a] + left)[1..] == left && left == all[|all| - |left|..]
    ensures GivesBack(all[..|all| - |left|]) == GivesBack(all[..|all| - |left| - 1]) + [Gave(a)]
  {
    var k := |all| - |left| - 1;
    assert all[k..][0] == all[k] && all[k..][1..] == all[k + 1..] && ([a] + left)[1..] == left;
  }

  lemma {:induction false} FreeingStarts(mem: Allocator, all: seq<nat>)
    requires AllTracked(mem.nodes, all)
    ensures Freeing(mem, mem.events, all, all)
  {
    assert all[0..] == all && all[..0] == [];
    assert mem.events + GivesBack([]) == mem.events;
  }

  method FreePair(mem: Allocator, ghost before: seq<Event>, ghost all: seq<nat>, a: nat, b: nat, ghost left: seq<nat>)
    requires mem.Valid() && Freeing(mem, before, all, [a, b] + left)
    modifies mem
    ensures mem.Valid() && Freeing(mem, before, all, left)
  {
    assert [a, b] + left == [a] + ([b] + left);
    FreeNext(mem, before, all, a, [b] + left);
    FreeNext(mem, before, all, b, left);
  }

  lemma {:induction false} NextCleanup(c: seq<ArenaCleanup>, i: nat, rest: seq<nat>)
    requires i < |c|
    ensures CleanupBlocks(c[i..]) + rest == [c[i].ctx, c[i].node] + (CleanupBlocks(c[i + 1..]) + rest)
  {
    assert c[i..][1..] == c[i + 1..];
  }

  lemma {:induction false} NextPtr(p: seq<ArenaPtr>, i: nat, rest: seq<nat>)
    requires i < |p|
    ensures PtrBlocks(p[i..]) + rest == [p[i].block, p[i].node] + (PtrBlocks(p[i + 1..]) + rest)
  {
    assert p[i..][1..] == p[i + 1..];
  }

  method RunCleanups(mem: Allocator, ghost before: seq<Event>, ghost all: seq<nat>, c: seq<ArenaCleanup>,
                     ghost rest: seq<nat>)
    returns (ran: seq<nat>)
    requires mem.Valid() && Freeing(mem, before, all, CleanupBlocks(c) + rest)
    modifies mem
    ensures mem.Valid() && Freeing(mem, before, all, rest) && ran == Contexts(c)
  {
    hide Allocator.Valid, Freeing;
    ran := [];
    assert c[0..] == c;
    var i := 0;
    while i < |c|
      invariant 0 <= i <= |c| && |ran| == i && forall k :: 0 <= k < i ==> ran[k] == c[k].ctx
      invariant mem.Valid() && Freeing(mem, before, all, CleanupBlocks(c[i..]) + rest)
    {
      NextCleanup(c, i, rest);
      FreePair(mem, before, all, c[i].ctx, c[i].node, CleanupBlocks(c[i + 1..]) + rest);
      ran := ran + [c[i].ctx];
      i := i + 1;
    }
    assert CleanupBlocks(c[i..]) + rest == rest;
  }

  /** The two allocations of fce_arena_alloc, both kept or none. */
  method AllocPair(mem: Allocator, size: nat, p: nat, pNode: nat, n: nat, nNode: nat, locks: bool) returns (ok: bool)
    requires mem.Valid() && !Tracked(mem.nodes, p) && !Tracked(mem.nodes, n) && p != n
    modifies mem
    ensures mem.Valid() && mem.events == old(mem.events) + Allocs(size, p, pNode, n, nNode, locks)
    ensures ok == (p != 0 && pNode != 0 && n != 0 && nNode != 0 && locks)
    ensures mem.nodes == (if ok then [Node(n, PTR_SIZE), Node(p, Rounded(size))] else []) + old(mem.nodes)
  {
    hide Allocator.Valid;
    var block := mem.Xmalloc(size, p, pNode);
    if block == 0 {
      return false;
    }
    PushedTracks(old(mem.nodes), Node(p, Rounded(size)));
    ok := AllocNode(mem, block, n, nNode, locks);
    AllocsTwo(old(mem.events), size, p, pNode, n, nNode, locks);
  }

  lemma {:induction false} AllocsTwo(es: seq<Event>, size: nat, p: nat, pNode: nat, n: nat, nNode: nat, locks: bool)
    requires p != 0 && pNode != 0
    ensures es + [Got(p, Rounded(size))] + AllocsNode(p, n, nNode, locks)
      == es + Allocs(size, p, pNode, n, nNode, locks)
  {
  }

  /** The list node for the newest block, which is released when there is none. */
  method AllocNode(mem: Allocator, block: nat, n: nat, nNode: nat, locks: bool) returns (ok: bool)
    requires mem.Valid() && !Tracked(mem.nodes, n) && mem.nodes != [] && mem.nodes[0].ptr == block
    modifies mem
    ensures mem.Valid() && ok == (n != 0 && nNode != 0 && locks)
    ensures mem.events == old(mem.events) + AllocsNode(block, n, nNode, locks)
    ensures mem.nodes == if ok then [Node(n, PTR_SIZE)] + old(mem.nodes) else old(mem.nodes)[1..]
  {
    hide Allocator.Valid;
    var node := mem.Xmalloc(PTR_SIZE, n, nNode);
    if node == 0 {
      FreeNewest(mem, block);
      return false;
    }
    if !locks {
      FreeTwo(mem, node, block);
      return false;
    }
    return true;
  }

  method FreeTwo(mem: Allocator, node: nat, block: nat)
    requires mem.Valid() && |mem.nodes| >= 2 && mem.nodes[0].ptr == node && mem.nodes[1].ptr == block
    modifies mem
    ensures mem.Valid() && mem.nodes == old(mem.nodes)[2..]
    ensures mem.events == old(mem.events) + [Gave(node), Gave(block)]
  {
    hide Allocator.Valid;
    FreeNewest(mem, node);
    FreeNewest(mem, block);
  }

  lemma {:induction false} StillTracked(before: seq<Node>, after: seq<Node>, front: seq<Node>, blocks: seq<nat>)
    requires after == front + before && AllTracked(before, blocks)
    ensures AllTracked(after, blocks)
  {
    forall b | b in blocks ensures Tracked(after, b) {
      var i :| 0 <= i < |before| && before[i].ptr == b;
      assert after[|front| + i].ptr == b;
    }
  }

  lemma {:induction false} OwnTwoMore(before: seq<Node>, after: seq<Node>, cleanup: seq<nat>, rest: seq<nat>,
                                      p: nat, n: nat)
    requires AllTracked(before, cleanup + rest) && !Tracked(before, p) && !Tracked(before, n) && p != n
    requires |after| == |before| + 2 && after[2..] == before && after[0].ptr == n && after[1].ptr == p
    ensures AllTracked(after, cleanup + ([p, n] + rest))
  {
    var all, more := cleanup + rest, cleanup + ([p, n] + rest);
    StillTracked(before, after, after[..2], all);
    forall i, j | 0 <= i < j < |more| ensures more[i] != more[j] {
      var a, b := Slot(cleanup, i), Slot(cleanup, j);
      assert a.Some? ==> more[i] == all[a.value] && more[i] in all;
      assert b.Some? ==> more[j] == all[b.value] && more[j] in all;
    }
    forall b | b in more ensures Tracked(after, b) {
      assert b == p || b == n || b in all;
    }
  }

  /** Where an element of cleanup + [p, n] + rest lies in cleanup + rest. */
  function Slot(cleanup: seq<nat>, i: nat): Option<nat> {
    if i < |cleanup| then Some(i) else if i < |cleanup| + 2 then None else Some(i - 2)
  }

  lemma {:induction false} OwnContext(before: seq<Node>, after: seq<Node>, owned: seq<nat>, ctx: nat, n: nat)
    requires AllTracked(before, owned) && Tracked(before, ctx) && ctx !in owned && !Tracked(before, n)
    requires |after| == |before| + 1 && after[1..] == before && after[0].ptr == n
    ensures AllTracked(after, [ctx, n] + owned)
  {
    StillTracked(before, after, after[..1], owned);
    var i :| 0 <= i < |before| && before[i].ptr == ctx;
    assert after[i + 1].ptr == ctx;
    assert n !in owned && n != ctx;
  }
}
