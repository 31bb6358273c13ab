/** Runs of the allocator with any number of arenas: src/core/fce_memory.c. The client's own blocks are loose;
    it releases and resizes those only, and hands one over when it registers a cleanup. */
module MemoryRuns {
  import opened Arenas
  import opened Memory

  datatype ArenaState = ArenaState(ptrs: seq<ArenaPtr>, cleanups: seq<ArenaCleanup>)

  datatype World = World(events: seq<Event>, arenas: map<nat, ArenaState>, loose: set<nat>)

  const EMPTY := World([], map[], {})

  datatype Op =
    | Malloc(size: nat, p: nat, node: nat)
    | Free(ptr: nat)
    | Realloc(ptr: nat, size: nat, q: nat, p: nat, node: nat)
    | Create(p: nat, node: nat, inited: bool)
    | Alloc(arena: nat, size: nat, p: nat, pNode: nat, n: nat, nNode: nat, locks: bool)
    | Register(arena: nat, ctx: nat, n: nat, nNode: nat, locks: bool)
    | Destroy(arena: nat)

  ghost function Nodes(w: World): seq<Node> {
    Replay(w.events)
  }

  function Owned(w: World, a: nat): seq<nat>
    requires a in w.arenas
  {
    Blocks(w.arenas, a)
  }

  /** Addresses are new, and a client touches only what is its own. */
  ghost predicate Can(w: World, op: Op) {
    match op
    case Malloc(_, p, _) => !Tracked(Nodes(w), p)
    case Free(ptr) => ptr == 0 || ptr in w.loose
    case Realloc(ptr, _, q, p, _) =>
      (ptr == 0 || ptr in w.loose) && !Tracked(Nodes(w), p) && (q == ptr || !Tracked(Nodes(w), q))
    case Create(p, _, _) => !Tracked(Nodes(w), p)
    case Alloc(a, _, p, _, n, _, _) => a in w.arenas && !Tracked(Nodes(w), p) && !Tracked(Nodes(w), n) && p != n
    case Register(a, ctx, n, _, _) => a in w.arenas && ctx in w.loose && !Tracked(Nodes(w), n)
    case Destroy(a) => a in w.arenas
  }

  /** The events of the methods of Allocator and Arena. */
  ghost function Events(w: World, op: Op): seq<Event>
    requires Can(w, op)
  {
    match op
    case Malloc(size, p, node) => Mallocs(size, p, node)
    case Free(ptr) => Frees(Nodes(w), ptr)
    case Realloc(ptr, size, q, p, node) => Reallocs(Nodes(w), ptr, size, q, p, node)
    case Create(p, node, inited) => Creates(p, node, inited)
    case Alloc(_, size, p, pNode, n, nNode, locks) => Allocs(size, p, pNode, n, nNode, locks)
    case Register(_, _, n, nNode, locks) => Registers(n, nNode, locks)
    case Destroy(a) => GivesBack(Owned(w, a))
  }

  /** The blocks a call hands to the client, and those it takes away. */
  function Loose(loose: set<nat>, op: Op): set<nat> {
    match op
    case Malloc(_, p, node) => if p == 0 || node == 0 then loose else loose + {p}
    case Free(ptr) => loose - {ptr}
    case Realloc(ptr, size, q, p, node) =>
      if ptr == 0 then (if p == 0 || node == 0 then loose else loose + {p})
      else if size == 0 then loose - {ptr}
      else if q == 0 then loose
      else loose - {ptr} + {q}
    case Register(_, ctx, n, nNode, locks) => if n == 0 || nNode == 0 || !locks then loose else loose - {ctx}
    case _ => loose
  }

  function ArenasAfter(arenas: map<nat, ArenaState>, op: Op): map<nat, ArenaState>
    requires op.Alloc? || op.Register? || op.Destroy? ==> op.arena in arenas
  {
    match op
    case Create(p, node, inited) =>
      if p == 0 || node == 0 || !inited then arenas else arenas[p := ArenaState([], [])]
    case Alloc(a, size, p, pNode, n, nNode, locks) =>
      if p == 0 || pNode == 0 || n == 0 || nNode == 0 || !locks then arenas
      else arenas[a := arenas[a].(ptrs := [ArenaPtr(n, p)] + arenas[a].ptrs)]
    case Register(a, ctx, n, nNode, locks) =>
      if n == 0 || nNode == 0 || !locks then arenas
      else arenas[a := arenas[a].(cleanups := [ArenaCleanup(n, ctx)] + arenas[a].cleanups)]
    case Destroy(a) => arenas - {a}
    case _ => arenas
  }

  ghost function Do(w: World, op: Op): World
    requires Can(w, op)
  {
    World(w.events + Events(w, op), ArenasAfter(w.arenas, op), Loose(w.loose, op))
  }

  // ---- One owner for every block ----

  function Blocks(arenas: map<nat, ArenaState>, a: nat): seq<nat>
    requires a in arenas
  {
    OwnedBy(a, arenas[a].ptrs, arenas[a].cleanups)
  }

  /** Every tracked block belongs to exactly one arena, or to the client. */
  ghost predicate Split(nodes: seq<Node>, arenas: map<nat, ArenaState>, loose: set<nat>) {
    && (forall a :: a in arenas ==> AllTracked(nodes, Blocks(arenas, a)))
    && (forall a, q :: a in arenas && q in Blocks(arenas, a) ==> q !in loose)
    && (forall a, b, q :: a in arenas && b in arenas && a != b && q in Blocks(arenas, a) ==> q !in Blocks(arenas, b))
    && (forall q :: q in loose ==> Tracked(nodes, q))
    && (forall q :: Tracked(nodes, q) ==> q in loose || exists a :: a in arenas && q in Blocks(arenas, a))
  }

  ghost predicate Accounts(w: World) {
    Legal(w.events) && Split(Nodes(w), w.arenas, w.loose)
  }

  lemma {:induction false} SplitGot(nodes: seq<Node>, arenas: map<nat, ArenaState>, loose: set<nat>, n: Node)
    requires Split(nodes, arenas, loose) && !Tracked(nodes, n.ptr)
    ensures Split([n] + nodes, arenas, loose + {n.ptr})
  {
    hide OwnedBy;
    PushedTracks(nodes, n);
  }

  lemma {:induction false} SplitGave(nodes: seq<Node>, arenas: map<nat, ArenaState>, loose: set<nat>, ptr: nat)
    requires DistinctPtrs(nodes) && Split(nodes, arenas, loose) && ptr in loose
    ensures Split(Without(nodes, ptr), arenas, loose - {ptr})
  {
    hide OwnedBy;
    WithoutTracks(nodes, ptr);
  }

  lemma {:induction false} SplitMoved(nodes: seq<Node>, arenas: map<nat, ArenaState>, loose: set<nat>, ptr: nat,
                                      n: Node)
    requires DistinctPtrs(nodes) && Split(nodes, arenas, loose) && ptr in loose
    requires n.ptr != 0 && (n.ptr == ptr || !Tracked(nodes, n.ptr))
    ensures Split(Replaced(nodes, ptr, n), arenas, loose - {ptr} + {n.ptr})
  {
    hide OwnedBy;
    ReplacedTracks(nodes, ptr, n);
  }

  /** The client hands blocks of its own to an arena. */
  lemma {:induction false} SplitHandOver(nodes: seq<Node>, arenas: map<nat, ArenaState>, loose: set<nat>, a: nat,
                                         st: ArenaState, given: set<nat>)
    requires Split(nodes, arenas, loose) && given <= loose
    requires AllTracked(nodes, OwnedBy(a, st.ptrs, st.cleanups))
    requires forall q :: q in OwnedBy(a, st.ptrs, st.cleanups) <==>
      q in given || (a in arenas && q in Blocks(arenas, a))
    ensures Split(nodes, arenas[a := st], loose - given)
  {
    hide OwnedBy;
    var after := arenas[a := st];
    assert forall b :: b in after && b != a ==> b in arenas && Blocks(after, b) == Blocks(arenas, b);
    forall q | Tracked(nodes, q) && q !in loose - given ensures exists b :: b in after && q in Blocks(after, b) {
      if q in given {
        assert a in after && q in Blocks(after, a);
      } else {
        var b :| b in arenas && q in Blocks(arenas, b);
        assert b in after && q in Blocks(after, b);
      }
    }
  }

  /** An arena that goes takes its own blocks with it and nothing else. */
  lemma {:induction false} SplitDestroy(nodes: seq<Node>, arenas: map<nat, ArenaState>, loose: set<nat>, a: nat)
    requires DistinctPtrs(nodes) && Split(nodes, arenas, loose) && a in arenas
    ensures Split(WithoutAll(nodes, Blocks(arenas, a)), arenas - {a}, loose)
  {
    hide OwnedBy;
    WithoutAllTracks(nodes, Blocks(arenas, a));
    var after := arenas - {a};
    assert forall b :: b in after ==> b != a && Blocks(after, b) == Blocks(arenas, b);
    forall q | Tracked(nodes, q) && q !in Blocks(arenas, a) && q !in loose
      ensures exists b :: b in after && q in Blocks(after, b)
    {
      var b :| b in arenas && q in Blocks(arenas, b);
      assert b in after;
    }
  }

  // ---- Every call keeps the accounts ----

  /** A block that is allocated and released again leaves no trace in the list. */
  lemma {:induction false} ThereAndBack(es: seq<Event>, p: nat, n: nat)
    requires Legal(es) && p != 0 && !Tracked(Replay(es), p)
    ensures Legal(es + [Got(p, n), Gave(p)]) && Replay(es + [Got(p, n), Gave(p)]) == Replay(es)
  {
    Extend(es, Got(p, n));
    Extend(es + [Got(p, n)], Gave(p));
    PushedTracks(Replay(es), Node(p, n));
    assert es + [Got(p, n), Gave(p)] == es + [Got(p, n)] + [Gave(p)];
    assert ([Node(p, n)] + Replay(es))[1..] == Replay(es);
  }

  lemma {:induction false} MallocKeeps(w: World, size: nat, p: nat, node: nat)
    requires Accounts(w) && !Tracked(Nodes(w), p) && p != 0 && node != 0
    ensures Accounts(World(w.events + Mallocs(size, p, node), w.arenas, w.loose + {p}))
  {
    Extend(w.events, Got(p, Rounded(size)));
    SplitGot(Nodes(w), w.arenas, w.loose, Node(p, Rounded(size)));
  }

  lemma {:induction false} FreeKeeps(w: World, ptr: nat)
    requires Accounts(w) && ptr in w.loose
    ensures Accounts(World(w.events + [Gave(ptr)], w.arenas, w.loose - {ptr}))
  {
    LegalHistory(w.events);
    Extend(w.events, Gave(ptr));
    SplitGave(Nodes(w), w.arenas, w.loose, ptr);
  }

  lemma {:induction false} MoveKeeps(w: World, ptr: nat, q: nat, size: nat)
    requires Accounts(w) && ptr in w.loose && q != 0 && (q == ptr || !Tracked(Nodes(w), q))
    ensures Accounts(World(w.events + [Moved(ptr, q, size)], w.arenas, w.loose - {ptr} + {q}))
  {
    LegalHistory(w.events);
    Extend(w.events, Moved(ptr, q, size));
    SplitMoved(Nodes(w), w.arenas, w.loose, ptr, Node(q, size));
  }

  lemma {:induction false} CreateKeeps(w: World, p: nat)
    requires Accounts(w) && !Tracked(Nodes(w), p) && p != 0
    ensures Accounts(World(w.events + [Got(p, ARENA_SIZE)], w.arenas[p := ArenaState([], [])], w.loose))
  {
    hide Split, Legal, Replay;
    var nodes, node := Nodes(w), Node(p, ARENA_SIZE);
    Extend(w.events, Got(p, ARENA_SIZE));
    SplitGot(nodes, w.arenas, w.loose, node);
    FreshIsNoArena(nodes, w.arenas, w.loose, p);
    OwnsItself([node] + nodes, p);
    SplitHandOver([node] + nodes, w.arenas, w.loose + {p}, p, ArenaState([], []), {p});
    assert w.loose + {p} - {p} == w.loose by {
      FreshIsNotLoose(nodes, w.arenas, w.loose, p);
    }
  }

  lemma {:induction false} OwnsItself(nodes: seq<Node>, p: nat)
    requires nodes != [] && nodes[0].ptr == p
    ensures OwnedBy(p, [], []) == [p] && AllTracked(nodes, [p])
  {
  }

  lemma {:induction false} FreshIsNoArena(nodes: seq<Node>, arenas: map<nat, ArenaState>, loose: set<nat>, p: nat)
    requires Split(nodes, arenas, loose) && !Tracked(nodes, p)
    ensures p !in arenas
  {
    if p in arenas {
      SelfIsOwned(arenas, p);
    }
  }

  lemma {:induction false} SelfIsOwned(arenas: map<nat, ArenaState>, a: nat)
    requires a in arenas
    ensures a in Blocks(arenas, a)
  {
    var all := Blocks(arenas, a);
    assert all[|all| - 1] == a;
  }

  /** Two fresh blocks become the arena's. */
  lemma {:induction false} AllocKeeps(w: World, a: nat, p: nat, size: nat, n: nat)
    requires Accounts(w) && a in w.arenas && p != 0 && n != 0 && p != n
    requires !Tracked(Nodes(w), p) && !Tracked(Nodes(w), n)
    ensures var st := w.arenas[a].(ptrs := [ArenaPtr(n, p)] + w.arenas[a].ptrs);
      Accounts(World(w.events + [Got(p, size), Got(n, PTR_SIZE)], w.arenas[a := st], w.loose))
  {
    hide Split, Legal, Replay;
    var nodes, block, node := Nodes(w), Node(p, size), Node(n, PTR_SIZE);
    var st := w.arenas[a].(ptrs := [ArenaPtr(n, p)] + w.arenas[a].ptrs);
    PushedTracks(nodes, block);
    GotTwo(w.events, p, size, n);
    SplitGot(nodes, w.arenas, w.loose, block);
    SplitGot([block] + nodes, w.arenas, w.loose + {p}, node);
    assert [node] + ([block] + nodes) == [node, block] + nodes;
    assert w.loose + {p} + {n} - {p, n} == w.loose by {
      FreshIsNotLoose(nodes, w.arenas, w.loose, p);
      FreshIsNotLoose(nodes, w.arenas, w.loose, n);
    }
    ArenaGrows(nodes, w.arenas, w.loose, a, block, node);
    SplitHandOver([node, block] + nodes, w.arenas, w.loose + {p} + {n}, a, st, {p, n});
  }

  lemma {:induction false} GotTwo(es: seq<Event>, p: nat, size: nat, n: nat)
    requires Legal(es) && p != 0 && n != 0 && p != n && !Tracked(Replay(es), p) && !Tracked(Replay(es), n)
    ensures Legal(es + [Got(p, size), Got(n, PTR_SIZE)])
    ensures Replay(es + [Got(p, size), Got(n, PTR_SIZE)]) == [Node(n, PTR_SIZE), Node(p, size)] + Replay(es)
  {
    Extend(es, Got(p, size));
    PushedTracks(Replay(es), Node(p, size));
    Extend(es + [Got(p, size)], Got(n, PTR_SIZE));
    assert es + [Got(p, size), Got(n, PTR_SIZE)] == es + [Got(p, size)] + [Got(n, PTR_SIZE)];
  }

  lemma {:induction false} FreshIsNotLoose(nodes: seq<Node>, arenas: map<nat, ArenaState>, loose: set<nat>, p: nat)
    requires Split(nodes, arenas, loose) && !Tracked(nodes, p)
    ensures p !in loose
  {
  }

  lemma {:induction false} ArenaGrows(nodes: seq<Node>, arenas: map<nat, ArenaState>, loose: set<nat>, a: nat,
                                      block: Node, node: Node)
    requires Split(nodes, arenas, loose) && a in arenas && block.ptr != node.ptr
    requires !Tracked(nodes, block.ptr) && !Tracked(nodes, node.ptr)
    ensures var ptrs := [ArenaPtr(node.ptr, block.ptr)] + arenas[a].ptrs;
      var more := OwnedBy(a, ptrs, arenas[a].cleanups);
      && AllTracked([node, block] + nodes, more)
      && forall q :: q in more <==> q in {block.ptr, node.ptr} || q in Blocks(arenas, a)
  {
    var st := arenas[a];
    var ptrs := [ArenaPtr(node.ptr, block.ptr)] + st.ptrs;
    var front, rest := CleanupBlocks(st.cleanups), PtrBlocks(st.ptrs) + [a];
    assert ptrs[1..] == st.ptrs;
    assert OwnedBy(a, ptrs, st.cleanups) == front + ([block.ptr, node.ptr] + rest);
    OwnTwoMore(nodes, [node, block] + nodes, front, rest, block.ptr, node.ptr);
  }

  /** A loose block and a fresh list node become the arena's. */
  lemma {:induction false} RegisterKeeps(w: World, a: nat, ctx: nat, n: nat)
    requires Accounts(w) && a in w.arenas && ctx in w.loose && n != 0 && !Tracked(Nodes(w), n)
    ensures var st := w.arenas[a].(cleanups := [ArenaCleanup(n, ctx)] + w.arenas[a].cleanups);
      Accounts(World(w.events + [Got(n, CLEANUP_SIZE)], w.arenas[a := st], w.loose - {ctx}))
  {
    hide Split, Legal, Replay;
    var nodes, node := Nodes(w), Node(n, CLEANUP_SIZE);
    var st := w.arenas[a].(cleanups := [ArenaCleanup(n, ctx)] + w.arenas[a].cleanups);
    Extend(w.events, Got(n, CLEANUP_SIZE));
    SplitGot(nodes, w.arenas, w.loose, node);
    assert w.loose + {n} - {ctx, n} == w.loose - {ctx} by {
      FreshIsNotLoose(nodes, w.arenas, w.loose, n);
    }
    ArenaTakes(nodes, w.arenas, w.loose, a, ctx, node);
    SplitHandOver([node] + nodes, w.arenas, w.loose + {n}, a, st, {ctx, n});
  }

  lemma {:induction false} ArenaTakes(nodes: seq<Node>, arenas: map<nat, ArenaState>, loose: set<nat>, a: nat,
                                      ctx: nat, node: Node)
    requires Split(nodes, arenas, loose) && a in arenas && ctx in loose && !Tracked(nodes, node.ptr)
    ensures var cleanups := [ArenaCleanup(node.ptr, ctx)] + arenas[a].cleanups;
      var more := OwnedBy(a, arenas[a].ptrs, cleanups);
      && AllTracked([node] + nodes, more)
      && forall q :: q in more <==> q in {ctx, node.ptr} || q in Blocks(arenas, a)
  {
    var st := arenas[a];
    var cleanups := [ArenaCleanup(node.ptr, ctx)] + st.cleanups;
    assert cleanups[1..] == st.cleanups;
    assert OwnedBy(a, st.ptrs, cleanups) == [ctx, node.ptr] + Blocks(arenas, a);
    OwnContext(nodes, [node] + nodes, Blocks(arenas, a), ctx, node.ptr);
  }

  lemma {:induction false} DestroyKeeps(w: World, a: nat)
    requires Accounts(w) && a in w.arenas
    ensures Accounts(World(w.events + GivesBack(Owned(w, a)), w.arenas - {a}, w.loose))
  {
    hide OwnedBy;
    LegalHistory(w.events);
    ReplayGivesBack(w.events, Owned(w, a));
    SplitDestroy(Nodes(w), w.arenas, w.loose, a);
  }

  /** A call that fails half way: whatever it allocated is released again. */
  lemma {:induction false} FailureKeeps(w: World, es: seq<Event>)
    requires Accounts(w) && Legal(w.events + es) && Replay(w.events + es) == Nodes(w)
    ensures Accounts(World(w.events + es, w.arenas, w.loose))
  {
  }

  lemma {:induction false} ThereAndBackTwice(es: seq<Event>, p: nat, size: nat, n: nat)
    requires Legal(es) && p != 0 && n != 0 && p != n && !Tracked(Replay(es), p) && !Tracked(Replay(es), n)
    ensures var more := es + [Got(p, size), Got(n, PTR_SIZE), Gave(n), Gave(p)];
      Legal(more) && Replay(more) == Replay(es)
  {
    hide Legal, Replay;
    var one := es + [Got(p, size)];
    Extend(es, Got(p, size));
    PushedTracks(Replay(es), Node(p, size));
    ThereAndBack(one, n, PTR_SIZE);
    var three := one + [Got(n, PTR_SIZE), Gave(n)];
    Extend(three, Gave(p));
    assert es + [Got(p, size), Got(n, PTR_SIZE), Gave(n), Gave(p)] == three + [Gave(p)];
    assert ([Node(p, size)] + Replay(es))[1..] == Replay(es);
  }

  lemma {:induction false} BlocksAreReal(w: World)
    requires Accounts(w)
    ensures 0 !in w.loose && !Tracked(Nodes(w), 0)
  {
    LegalHistory(w.events);
  }

  lemma {:induction false} AllocFails(w: World, op: Op)
    requires Accounts(w) && Can(w, op) && op.Alloc?
    requires op.p == 0 || op.pNode == 0 || op.n == 0 || op.nNode == 0 || !op.locks
    ensures Accounts(Do(w, op))
  {
    hide Split, Legal, Replay;
    if op.p == 0 || op.pNode == 0 {
      assert w.events + Events(w, op) == w.events;
    } else {
      if op.n == 0 || op.nNode == 0 {
        ThereAndBack(w.events, op.p, Rounded(op.size));
        assert Events(w, op) == [Got(op.p, Rounded(op.size)), Gave(op.p)];
      } else {
        ThereAndBackTwice(w.events, op.p, Rounded(op.size), op.n);
        assert Events(w, op) == [Got(op.p, Rounded(op.size)), Got(op.n, PTR_SIZE), Gave(op.n), Gave(op.p)];
      }
      FailureKeeps(w, Events(w, op));
    }
  }

  lemma {:induction false} AllocIsKept(w: World, op: Op)
    requires Accounts(w) && Can(w, op) && op.Alloc?
    ensures Accounts(Do(w, op))
  {
    hide Split, Legal, Replay;
    if op.p == 0 || op.pNode == 0 || op.n == 0 || op.nNode == 0 || !op.locks {
      AllocFails(w, op);
    } else {
      assert Events(w, op) == [Got(op.p, Rounded(op.size)), Got(op.n, PTR_SIZE)];
      AllocKeeps(w, op.arena, op.p, Rounded(op.size), op.n);
    }
  }

  lemma {:induction false} RegisterIsKept(w: World, op: Op)
    requires Accounts(w) && Can(w, op) && op.Register?
    ensures Accounts(Do(w, op))
  {
    hide Split, Legal, Replay;
    if op.n == 0 || op.nNode == 0 {
      assert w.events + [] == w.events;
    } else if !op.locks {
      ThereAndBack(w.events, op.n, CLEANUP_SIZE);
      FailureKeeps(w, Events(w, op));
    } else {
      RegisterKeeps(w, op.arena, op.ctx, op.n);
    }
  }

  lemma {:induction false} CreateIsKept(w: World, op: Op)
    requires Accounts(w) && Can(w, op) && op.Create?
    ensures Accounts(Do(w, op))
  {
    hide Split, Legal, Replay;
    if op.p == 0 || op.node == 0 {
      assert w.events + [] == w.events;
    } else if !op.inited {
      ThereAndBack(w.events, op.p, ARENA_SIZE);
      FailureKeeps(w, Events(w, op));
    } else {
      CreateKeeps(w, op.p);
    }
  }

  lemma {:induction false} MallocIsKept(w: World, size: nat, p: nat, node: nat)
    requires Accounts(w) && !Tracked(Nodes(w), p)
    ensures Accounts(World(w.events + Mallocs(size, p, node), w.arenas, Loose(w.loose, Malloc(size, p, node))))
  {
    hide Split, Legal, Replay;
    if p == 0 || node == 0 {
      assert w.events + [] == w.events;
    } else {
      MallocKeeps(w, size, p, node);
    }
  }

  lemma {:induction false} FreeIsKept(w: World, ptr: nat)
    requires Accounts(w) && (ptr == 0 || ptr in w.loose)
    ensures Accounts(World(w.events + Frees(Nodes(w), ptr), w.arenas, w.loose - {ptr}))
  {
    hide Legal, Replay;
    BlocksAreReal(w);
    if ptr == 0 {
      assert w.events + [] == w.events && w.loose - {0} == w.loose;
    } else {
      FreeKeeps(w, ptr);
    }
  }

  lemma {:induction false} ReallocIsKept(w: World, op: Op)
    requires Accounts(w) && Can(w, op) && op.Realloc?
    ensures Accounts(Do(w, op))
  {
    hide Legal, Replay;
    if op.ptr == 0 {
      MallocIsKept(w, op.size, op.p, op.node);
    } else if op.size == 0 {
      FreeIsKept(w, op.ptr);
    } else if op.q == 0 {
      assert w.events + [] == w.events;
    } else {
      MoveKeeps(w, op.ptr, op.q, op.size);
    }
  }

  /** One owner for every block, and one legal history, after every call. */
  lemma {:induction false} OpKeeps(w: World, op: Op)
    requires Accounts(w) && Can(w, op)
    ensures Accounts(Do(w, op))
  {
    hide Split, Legal, Replay;
    match op
    case Malloc(size, p, node) => MallocIsKept(w, size, p, node);
    case Free(ptr) => FreeIsKept(w, ptr);
    case Realloc(_, _, _, _, _) => ReallocIsKept(w, op);
    case Create(_, _, _) => CreateIsKept(w, op);
    case Alloc(_, _, _, _, _, _, _) => AllocIsKept(w, op);
    case Register(_, _, _, _, _) => RegisterIsKept(w, op);
    case Destroy(a) => DestroyKeeps(w, a);
  }

  // ---- Runs ----

  ghost predicate CanRun(w: World, ops: seq<Op>)
    decreases |ops|
  {
    ops == [] || (Can(w, ops[0]) && CanRun(Do(w, ops[0]), ops[1..]))
  }

  ghost function Run(w: World, ops: seq<Op>): World
    requires CanRun(w, ops)
    decreases |ops|
  {
    if ops == [] then w else Run(Do(w, ops[0]), ops[1..])
  }

  /** The accounts hold after any calls with any number of arenas. */
  lemma {:induction false} RunKeeps(w: World, ops: seq<Op>)
    requires Accounts(w) && CanRun(w, ops)
    ensures Accounts(Run(w, ops)) && w.events <= Run(w, ops).events
    decreases |ops|
  {
    hide Accounts;
    if ops != [] {
      OpKeeps(w, ops[0]);
      RunKeeps(Do(w, ops[0]), ops[1..]);
    }
  }

  /** From the start: the statistics balance, the peak is the largest size ever reached, and every block
      in the list has one owner. */
  lemma {:induction false} EveryRunBalances(ops: seq<Op>)
    requires CanRun(EMPTY, ops)
    ensures var w := Run(EMPTY, ops); var s := StatsOf(w.events);
      && Accounts(w)
      && s.active == |Nodes(w)| && s.bytes == TotalSize(Nodes(w)) && s.total == s.frees + s.active
      && (forall k :: 0 <= k <= |w.events| ==> TotalSize(Replay(w.events[..k])) <= s.peak)
      && (exists k :: 0 <= k <= |w.events| && TotalSize(Replay(w.events[..k])) == s.peak)
  {
    RunKeeps(EMPTY, ops);
    var w := Run(EMPTY, ops);
    LegalHistory(w.events);
    PeakIsLargest(w.events);
  }

  /** When the client has released its own blocks and destroyed its arenas, nothing is left. */
  lemma {:induction false} NothingLeaks(ops: seq<Op>)
    requires CanRun(EMPTY, ops)
    ensures var w := Run(EMPTY, ops); var s := StatsOf(w.events);
      w.arenas == map[] && w.loose == {} <==> s.active == 0
    ensures var w := Run(EMPTY, ops); var s := StatsOf(w.events);
      s.active == 0 ==> s.bytes == 0 && s.total == s.frees
  {
    var w := Run(EMPTY, ops);
    RunKeeps(EMPTY, ops);
    LegalHistory(w.events);
    if w.arenas == map[] && w.loose == {} && Nodes(w) != [] {
      assert Tracked(Nodes(w), Nodes(w)[0].ptr);
    }
    if Nodes(w) == [] {
      forall a ensures a !in w.arenas {
        if a in w.arenas {
          SelfIsOwned(w.arenas, a);
        }
      }
      assert w.loose == {} by {
        assert forall q :: q in w.loose ==> Tracked(Nodes(w), q);
      }
    }
  }

  /** Destroying one arena of many: each of its blocks is released once, all other blocks stay, and every
      other arena still owns what it did. */
  lemma {:induction false} DestroyIsExact(w: World, a: nat)
    requires Accounts(w) && a in w.arenas
    ensures var t := Do(w, Destroy(a));
      && (forall q :: Tracked(Nodes(t), q) <==> Tracked(Nodes(w), q) && q !in Owned(w, a))
      && Gaves(t.events) == Gaves(w.events) + |Owned(w, a)| && Gots(t.events) == Gots(w.events)
      && (forall b :: b in w.arenas && b != a ==> b in t.arenas && Owned(t, b) == Owned(w, b))
      && (forall b :: b in w.arenas && b != a ==> AllTracked(Nodes(t), Owned(w, b)))
  {
    hide Legal, Replay, Gots, Gaves, GivesBack, OwnedBy;
    LegalHistory(w.events);
    ReplayGivesBack(w.events, Owned(w, a));
    WithoutAllTracks(Nodes(w), Owned(w, a));
    OpKeeps(w, Destroy(a));
  }

  // ---- The heap follows the machine ----

  /** The objects of the heap are those of the world. */
  ghost predicate Represents(mem: Allocator, arenas: map<nat, Arena>, w: World)
    reads mem, arenas.Values
  {
    && mem.Valid() && mem.events == w.events && arenas.Keys == w.arenas.Keys
    && forall a :: a in arenas ==> SameArena(arenas[a], a, w.arenas[a])
  }

  ghost predicate SameArena(arena: Arena, a: nat, st: ArenaState)
    reads arena
  {
    arena.self == a && arena.ptrs == st.ptrs && arena.cleanups == st.cleanups
  }

  /** One call on the heap is one step of the machine. */
  method Perform(mem: Allocator, arenas: map<nat, Arena>, op: Op, ghost w: World) returns (after: map<nat, Arena>)
    requires Represents(mem, arenas, w) && Accounts(w) && Can(w, op)
    modifies mem, arenas.Values
    ensures Represents(mem, after, Do(w, op))
    ensures forall a :: a in after && after[a] !in arenas.Values ==> fresh(after[a])
  {
    hide Represents, Accounts, Do, Can;
    match op
    case Malloc(_, _, _) | Free(_) | Realloc(_, _, _, _, _) =>
      PerformOnBlocks(mem, arenas, op, w);
      return arenas;
    case Create(_, _, _) => after := PerformCreate(mem, arenas, op, w);
    case Alloc(_, _, _, _, _, _, _) =>
      PerformAlloc(mem, arenas, op, w);
      return arenas;
    case Register(_, _, _, _, _) =>
      PerformRegister(mem, arenas, op, w);
      return arenas;
    case Destroy(_) => after := PerformDestroy(mem, arenas, op, w);
  }

  method PerformOnBlocks(mem: Allocator, arenas: map<nat, Arena>, op: Op, ghost w: World)
    requires Represents(mem, arenas, w) && Accounts(w) && Can(w, op) && (op.Malloc? || op.Free? || op.Realloc?)
    modifies mem
    ensures Represents(mem, arenas, Do(w, op))
  {
    hide Split, Legal, StatsOf;
    match op
    case Malloc(size, p, node) =>
      var _ := mem.Xmalloc(size, p, node);
    case Free(ptr) =>
      mem.Free(ptr);
    case Realloc(ptr, size, q, p, node) =>
      var _ := mem.Xrealloc(ptr, size, q, p, node);
  }

  method PerformCreate(mem: Allocator, arenas: map<nat, Arena>, op: Op, ghost w: World)
    returns (after: map<nat, Arena>)
    requires Represents(mem, arenas, w) && Accounts(w) && Can(w, op) && op.Create?
    modifies mem
    ensures Represents(mem, after, Do(w, op))
    ensures forall a :: a in after && after[a] !in arenas.Values ==> fresh(after[a])
  {
    hide Split, Legal, StatsOf, Replay, Tracked, Loose;
    after := arenas;
    var r := Arena.Create(mem, op.p, op.node, op.inited);
    if r.Ok? {
      after := arenas[op.p := r.value];
    }
  }

  method PerformAlloc(mem: Allocator, arenas: map<nat, Arena>, op: Op, ghost w: World)
    requires Represents(mem, arenas, w) && Accounts(w) && Can(w, op) && op.Alloc?
    modifies mem, arenas.Values
    ensures Represents(mem, arenas, Do(w, op))
  {
    hide Split, Legal, StatsOf;
    OwnsItsBlocks(w, op.arena);
    OthersDiffer(mem, arenas, w, op.arena);
    var _ := arenas[op.arena].Alloc(mem, op.size, op.p, op.pNode, op.n, op.nNode, op.locks);
  }

  method PerformRegister(mem: Allocator, arenas: map<nat, Arena>, op: Op, ghost w: World)
    requires Represents(mem, arenas, w) && Accounts(w) && Can(w, op) && op.Register?
    modifies mem, arenas.Values
    ensures Represents(mem, arenas, Do(w, op))
  {
    hide Split, Legal, StatsOf;
    OwnsItsBlocks(w, op.arena);
    OthersDiffer(mem, arenas, w, op.arena);
    var _ := arenas[op.arena].RegisterCleanup(mem, op.ctx, op.n, op.nNode, op.locks);
  }

  method PerformDestroy(mem: Allocator, arenas: map<nat, Arena>, op: Op, ghost w: World)
    returns (after: map<nat, Arena>)
    requires Represents(mem, arenas, w) && Accounts(w) && Can(w, op) && op.Destroy?
    modifies mem, arenas.Values
    ensures Represents(mem, after, Do(w, op))
    ensures forall a :: a in after ==> after[a] in arenas.Values
  {
    hide Split, Legal, StatsOf;
    OwnsItsBlocks(w, op.arena);
    OthersDiffer(mem, arenas, w, op.arena);
    var _ := arenas[op.arena].Destroy(mem);
    after := arenas - {op.arena};
  }

  lemma {:induction false} OthersDiffer(mem: Allocator, arenas: map<nat, Arena>, w: World, a: nat)
    requires Represents(mem, arenas, w) && a in arenas
    ensures forall b :: b in arenas && b != a ==> arenas[b] != arenas[a]
  {
    forall b | b in arenas && b != a ensures arenas[b] != arenas[a] {
      assert SameArena(arenas[a], a, w.arenas[a]) && SameArena(arenas[b], b, w.arenas[b]);
    }
  }

  lemma {:induction false} OwnsItsBlocks(w: World, a: nat)
    requires Accounts(w) && a in w.arenas
    ensures AllTracked(Nodes(w), Owned(w, a)) && forall q :: q in w.loose ==> Tracked(Nodes(w), q) && q !in Owned(w, a)
  {
  }

  /** A whole run on the heap ends in the world of the machine. */
  method Play(mem: Allocator, arenas: map<nat, Arena>, ops: seq<Op>, ghost w: World) returns (after: map<nat, Arena>)
    requires Represents(mem, arenas, w) && Accounts(w) && CanRun(w, ops)
    modifies mem, arenas.Values
    ensures Represents(mem, after, Run(w, ops)) && Accounts(Run(w, ops))
    ensures forall a :: a in after && after[a] !in arenas.Values ==> fresh(after[a])
    decreases |ops|
  {
    hide Split, Legal, StatsOf;
    after := arenas;
    ghost var now := w;
    var i := 0;
    assert ops[0..] == ops;
    while i < |ops|
      invariant 0 <= i <= |ops| && Accounts(now) && CanRun(now, ops[i..]) && Run(now, ops[i..]) == Run(w, ops)
      invariant Represents(mem, after, now)
      invariant forall a :: a in after && after[a] !in arenas.Values ==> fresh(after[a])
    {
      assert ops[i..][1..] == ops[i + 1..];
      OpKeeps(now, ops[i]);
      after := Perform(mem, after, ops[i], now);
      now := Do(now, ops[i]);
      i := i + 1;
    }
  }
}
