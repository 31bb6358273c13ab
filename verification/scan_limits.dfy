/** The stack search of a prefix scan on index files that are not tries: src/api/fce_reader_api.c lines 266-279.
    Validation checks every node by itself and does not ask for a tree. When does the search end, and when does it
    stay inside its stack and its match array? */
module ScanLimits {
  import opened Bytes
  import opened Records
  import opened Format
  import opened RadixTrie
  import opened RadixBuild
  import opened RadixFlat
  import opened RadixScan
  import opened Validation
  import opened Reader

  /** The stack after n rounds. */
  ghost function Search(t: Trie, s: seq<nat>, n: nat): (r: seq<nat>)
    requires ChildrenInRange(t) && OnStack(t, s)
    ensures OnStack(t, r)
    decreases n
  {
    if n == 0 then s else Search(t, Round(t, s), n - 1)
  }

  ghost predicate EndsIn(t: Trie, s: seq<nat>, n: nat)
    requires ChildrenInRange(t) && OnStack(t, s)
  {
    Search(t, s, n) == []
  }

  lemma {:induction false} EndsLater(t: Trie, s: seq<nat>, n: nat)
    requires ChildrenInRange(t) && OnStack(t, s)
    ensures EndsIn(t, s, 0) <==> s == []
    ensures n > 0 ==> (EndsIn(t, s, n) <==> EndsIn(t, Round(t, s), n - 1))
  {
    hide Round, OnStack, ChildrenInRange;
  }

  ghost predicate Ends(t: Trie, s: seq<nat>)
    requires ChildrenInRange(t) && OnStack(t, s)
  {
    exists n: nat :: EndsIn(t, s, n)
  }

  /** No cycle can be reached: some set of nodes holds the start and all children of its nodes, and a rank falls
      along every edge in it. */
  ghost predicate Acyclic(t: Trie, start: nat) {
    exists part: set<nat>, rank: seq<nat> :: start in part && Ranked(t, part, rank)
  }

  ghost predicate Ranked(t: Trie, part: set<nat>, rank: seq<nat>) {
    && |rank| == |t| && (forall n :: n in part ==> n < |t|)
    && forall n, j :: n in part && 0 <= j < |t[n].edges| ==>
         var c := t[n].edges[j].child; c in part && rank[c] < rank[n]
  }

  // ---- A falling rank ends the search ----

  ghost predicate AllIn(part: set<nat>, s: seq<nat>) {
    forall i :: 0 <= i < |s| ==> s[i] in part
  }

  /** The nodes that the search visits on behalf of node n. */
  ghost function Visits(t: Trie, part: set<nat>, rank: seq<nat>, n: nat): nat
    requires Ranked(t, part, rank) && n in part
    decreases rank[n], 1, 0
  {
    1 + VisitsOfKids(t, part, rank, n, |t[n].edges|)
  }

  ghost function VisitsOfKids(t: Trie, part: set<nat>, rank: seq<nat>, n: nat, j: nat): nat
    requires Ranked(t, part, rank) && n in part && j <= |t[n].edges|
    decreases rank[n], 0, j
  {
    if j == 0 then 0
    else VisitsOfKids(t, part, rank, n, j - 1) + Visits(t, part, rank, t[n].edges[j - 1].child)
  }

  ghost function VisitsOfStack(t: Trie, part: set<nat>, rank: seq<nat>, s: seq<nat>): nat
    requires Ranked(t, part, rank) && AllIn(part, s)
  {
    if s == [] then 0 else VisitsOfStack(t, part, rank, s[..|s| - 1]) + Visits(t, part, rank, s[|s| - 1])
  }

  lemma {:induction false} VisitsOfMore(t: Trie, part: set<nat>, rank: seq<nat>, s: seq<nat>, n: nat, j: nat)
    requires Ranked(t, part, rank) && AllIn(part, s) && n in part && j <= |t[n].edges|
    ensures VisitsOfStack(t, part, rank, s + Kids(t, n)[..j])
      == VisitsOfStack(t, part, rank, s) + VisitsOfKids(t, part, rank, n, j)
  {
    var more := s + Kids(t, n)[..j];
    if j == 0 {
      assert more == s;
    } else {
      VisitsOfMore(t, part, rank, s, n, j - 1);
      assert more[..|more| - 1] == s + Kids(t, n)[..j - 1];
    }
  }

  /** Every round uses up one visit. */
  lemma {:induction false} RankedSearchEnds(t: Trie, part: set<nat>, rank: seq<nat>, s: seq<nat>)
    requires ChildrenInRange(t) && Ranked(t, part, rank) && AllIn(part, s)
    ensures OnStack(t, s) && EndsIn(t, s, VisitsOfStack(t, part, rank, s))
    decreases VisitsOfStack(t, part, rank, s)
  {
    hide Search, EndsIn, Visits, VisitsOfKids, Kids;
    EndsLater(t, s, VisitsOfStack(t, part, rank, s));
    if s != [] {
      RoundUsesOne(t, part, rank, s);
      RankedSearchEnds(t, part, rank, Round(t, s));
    }
  }

  lemma {:induction false} RoundUsesOne(t: Trie, part: set<nat>, rank: seq<nat>, s: seq<nat>)
    requires ChildrenInRange(t) && Ranked(t, part, rank) && s != [] && OnStack(t, s)
    requires AllIn(part, s)
    ensures AllIn(part, Round(t, s))
    ensures VisitsOfStack(t, part, rank, Round(t, s)) + 1 == VisitsOfStack(t, part, rank, s)
  {
    var rest, n := s[..|s| - 1], s[|s| - 1];
    VisitsOfMore(t, part, rank, rest, n, |t[n].edges|);
    assert Kids(t, n)[..|t[n].edges|] == Kids(t, n);
  }

  // ---- A search that ends has a falling rank ----

  /** The lower part of the stack waits until the upper part is done. */
  lemma {:induction false} UpperPartFirst(t: Trie, a: seq<nat>, b: seq<nat>, n: nat) returns (k: nat)
    requires ChildrenInRange(t) && OnStack(t, a) && OnStack(t, b) && OnStack(t, a + b) && EndsIn(t, a + b, n)
    ensures k <= n && EndsIn(t, b, k) && EndsIn(t, a, n - k)
    decreases n
  {
    hide Search, EndsIn, Round, ChildrenInRange;
    EndsLater(t, b, 0);
    if b == [] {
      assert a + b == a;
      k := 0;
    } else {
      RoundAbove(t, a, b);
      EndsLater(t, a + b, n);
      k := UpperPartFirst(t, a, Round(t, b), n - 1);
      k := k + 1;
      EndsLater(t, b, k);
    }
  }

  lemma {:induction false} RoundAbove(t: Trie, a: seq<nat>, b: seq<nat>)
    requires ChildrenInRange(t) && OnStack(t, a) && OnStack(t, b) && OnStack(t, a + b) && b != []
    ensures Round(t, a + b) == a + Round(t, b)
  {
    hide Kids, ChildrenInRange;
    assert (a + b)[..|a + b| - 1] == a + b[..|b| - 1];
  }

  /** A child is done before its parent. */
  lemma {:induction false} ChildEndsSooner(t: Trie, n: nat, j: nat, rounds: nat) returns (k: nat)
    requires ChildrenInRange(t) && n < |t| && j < |t[n].edges| && EndsIn(t, [n], rounds)
    ensures k < rounds && EndsIn(t, [t[n].edges[j].child], k)
  {
    hide Search, EndsIn, ChildrenInRange;
    var kids := Kids(t, n);
    assert kids[j] == t[n].edges[j].child;
    EndsLater(t, [n], rounds);
    ParentRound(t, n);
    ThreeParts(kids, j);
    var later := UpperPartFirst(t, kids[..j + 1], kids[j + 1..], rounds - 1);
    k := UpperPartFirst(t, kids[..j], [kids[j]], rounds - 1 - later);
  }

  lemma {:induction false} ParentRound(t: Trie, n: nat)
    requires ChildrenInRange(t) && n < |t|
    ensures Round(t, [n]) == Kids(t, n)
  {
    assert [n][..0] + Kids(t, n) == Kids(t, n);
  }

  lemma {:induction false} ThreeParts(kids: seq<nat>, j: nat)
    requires j < |kids|
    ensures kids == kids[..j + 1] + kids[j + 1..] && kids[..j + 1] == kids[..j] + [kids[j]]
  {
  }

  /** The rounds that the search below n takes. */
  ghost function Least(t: Trie, n: nat, from: nat, bound: nat): (r: nat)
    requires ChildrenInRange(t) && n < |t| && from <= bound && EndsIn(t, [n], bound)
    ensures from <= r <= bound && EndsIn(t, [n], r) && forall k :: from <= k < r ==> !EndsIn(t, [n], k)
    decreases bound - from
  {
    if EndsIn(t, [n], from) then from else Least(t, n, from + 1, bound)
  }

  ghost function Time(t: Trie, n: nat): (r: nat)
    requires ChildrenInRange(t)
    ensures n < |t| && Ends(t, [n]) ==> EndsIn(t, [n], r) && forall k: nat :: k < r ==> !EndsIn(t, [n], k)
  {
    if n < |t| && Ends(t, [n]) then
      var bound: nat :| EndsIn(t, [n], bound);
      Least(t, n, 0, bound)
    else 0
  }

  /** The nodes whose search ends. */
  ghost function Ending(t: Trie): (part: set<nat>)
    requires ChildrenInRange(t)
    ensures forall n: nat :: n in part <==> n < |t| && Ends(t, [n])
  {
    set n: nat | n < |t| && Ends(t, [n])
  }

  ghost function Times(t: Trie): (rank: seq<nat>)
    requires ChildrenInRange(t)
    ensures |rank| == |t| && forall n :: 0 <= n < |t| ==> rank[n] == Time(t, n)
  {
    seq(|t|, n requires 0 <= n < |t| => Time(t, n))
  }

  lemma {:induction false} ChildIsFaster(t: Trie, n: nat, j: nat)
    requires ChildrenInRange(t) && n < |t| && j < |t[n].edges| && Ends(t, [n])
    ensures var c := t[n].edges[j].child; Ends(t, [c]) && Time(t, c) < Time(t, n)
  {
    hide Search, EndsIn;
    var k := ChildEndsSooner(t, n, j, Time(t, n));
    assert Ends(t, [t[n].edges[j].child]);
  }

  lemma {:induction false} EndingIsAcyclic(t: Trie, start: nat)
    requires ChildrenInRange(t) && start < |t| && Ends(t, [start])
    ensures Acyclic(t, start)
  {
    hide Ends, Ending, Times, Time;
    forall n, j | n in Ending(t) && 0 <= j < |t[n].edges|
      ensures t[n].edges[j].child in Ending(t) && Times(t)[t[n].edges[j].child] < Times(t)[n]
    {
      ChildIsFaster(t, n, j);
    }
    assert Ranked(t, Ending(t), Times(t));
  }

  /** On any links that validation accepts, the search below a node ends if and only if no cycle can be reached. */
  lemma {:induction false} SearchEndsIff(t: Trie, start: nat)
    requires ChildrenInRange(t) && start < |t|
    ensures Ends(t, [start]) <==> Acyclic(t, start)
  {
    if Acyclic(t, start) {
      var part: set<nat>, rank: seq<nat> :| start in part && Ranked(t, part, rank);
      RankedSearchEnds(t, part, rank, [start]);
    }
    if Ends(t, [start]) {
      EndingIsAcyclic(t, start);
    }
  }

  // ---- Staying inside the two arrays ----

  function Max(a: nat, b: nat): nat {
    if a < b then b else a
  }

  /** The most stack entries that the search below node n needs at once: while child j is searched, the j children
      before it wait. */
  ghost function Peak(t: Trie, part: set<nat>, rank: seq<nat>, n: nat): nat
    requires Ranked(t, part, rank) && n in part
    decreases rank[n], 1, 0
  {
    Max(1, PeakOfKids(t, part, rank, n, |t[n].edges|))
  }

  ghost function PeakOfKids(t: Trie, part: set<nat>, rank: seq<nat>, n: nat, j: nat): nat
    requires Ranked(t, part, rank) && n in part && j <= |t[n].edges|
    decreases rank[n], 0, j
  {
    if j == 0 then 0
    else Max(PeakOfKids(t, part, rank, n, j - 1), j - 1 + Peak(t, part, rank, t[n].edges[j - 1].child))
  }

  /** The values that the search below node n records, one for each visit of a node that carries one. */
  ghost function Hits(t: Trie, part: set<nat>, rank: seq<nat>, n: nat): nat
    requires Ranked(t, part, rank) && n in part
    decreases rank[n], 1, 0
  {
    TERMINAL_WEIGHT(t[n]) + HitsOfKids(t, part, rank, n, |t[n].edges|)
  }

  ghost function HitsOfKids(t: Trie, part: set<nat>, rank: seq<nat>, n: nat, j: nat): nat
    requires Ranked(t, part, rank) && n in part && j <= |t[n].edges|
    decreases rank[n], 0, j
  {
    if j == 0 then 0
    else HitsOfKids(t, part, rank, n, j - 1) + Hits(t, part, rank, t[n].edges[j - 1].child)
  }

  ghost function PeakOfStack(t: Trie, part: set<nat>, rank: seq<nat>, s: seq<nat>): nat
    requires Ranked(t, part, rank) && AllIn(part, s)
  {
    if s == [] then 0
    else Max(PeakOfStack(t, part, rank, s[..|s| - 1]), |s| - 1 + Peak(t, part, rank, s[|s| - 1]))
  }

  ghost function HitsOfStack(t: Trie, part: set<nat>, rank: seq<nat>, s: seq<nat>): nat
    requires Ranked(t, part, rank) && AllIn(part, s)
  {
    if s == [] then 0 else HitsOfStack(t, part, rank, s[..|s| - 1]) + Hits(t, part, rank, s[|s| - 1])
  }

  lemma {:induction false} StackOfMore(t: Trie, part: set<nat>, rank: seq<nat>, s: seq<nat>, n: nat, j: nat)
    requires Ranked(t, part, rank) && AllIn(part, s) && n in part && j <= |t[n].edges|
    ensures AllIn(part, s + Kids(t, n)[..j])
    ensures HitsOfStack(t, part, rank, s + Kids(t, n)[..j])
      == HitsOfStack(t, part, rank, s) + HitsOfKids(t, part, rank, n, j)
    ensures PeakOfStack(t, part, rank, s + Kids(t, n)[..j])
      == Max(PeakOfStack(t, part, rank, s), if j == 0 then 0 else |s| + PeakOfKids(t, part, rank, n, j))
  {
    hide Peak, Hits;
    var more := s + Kids(t, n)[..j];
    if j == 0 {
      assert more == s;
    } else {
      StackOfMore(t, part, rank, s, n, j - 1);
      assert more[..|more| - 1] == s + Kids(t, n)[..j - 1];
    }
  }

  /** A stack needs room for at least its own entries. */
  lemma {:induction false} PeakHoldsStack(t: Trie, part: set<nat>, rank: seq<nat>, s: seq<nat>)
    requires Ranked(t, part, rank) && AllIn(part, s)
    ensures |s| <= PeakOfStack(t, part, rank, s)
  {
  }

  /** A round uses up what it needs: the peak is that of the stack before it or of all that follows, and the hits
      are those it records and all that follow. */
  lemma {:induction false} RoundNeeds(t: Trie, part: set<nat>, rank: seq<nat>, s: seq<nat>)
    requires ChildrenInRange(t) && Ranked(t, part, rank) && s != [] && OnStack(t, s) && AllIn(part, s)
    ensures AllIn(part, Round(t, s))
    ensures PeakOfStack(t, part, rank, s) == Max(|s|, PeakOfStack(t, part, rank, Round(t, s)))
    ensures HitsOfStack(t, part, rank, s)
      == HitsOfStack(t, part, rank, Round(t, s)) + TERMINAL_WEIGHT(t[s[|s| - 1]])
  {
    hide Ranked, ChildrenInRange, HitsOfKids;
    var rest, n := s[..|s| - 1], s[|s| - 1];
    TopIsIn(t, part, s);
    StackOfMore(t, part, rank, rest, n, |t[n].edges|);
    assert Kids(t, n)[..|t[n].edges|] == Kids(t, n);
    PeakHoldsStack(t, part, rank, rest);
  }

  lemma {:induction false} TopIsIn(t: Trie, part: set<nat>, s: seq<nat>)
    requires s != [] && AllIn(part, s) && OnStack(t, s)
    ensures s[|s| - 1] in part && s[|s| - 1] < |t| && AllIn(part, s[..|s| - 1])
  {
  }

  /** The search from a stack completes within its visits exactly when its peak and its hits fit. */
  lemma {:induction false} CompletesIff(t: Trie, part: set<nat>, rank: seq<nat>, l: Loop, room: nat, n: nat)
    requires ChildrenInRange(t) && Ranked(t, part, rank) && OnStack(t, l.stack) && AllIn(part, l.stack)
    ensures Completes(t, l, room, n) ==>
      PeakOfStack(t, part, rank, l.stack) <= |t| && |l.matches| + HitsOfStack(t, part, rank, l.stack) <= room
    ensures VisitsOfStack(t, part, rank, l.stack) <= n ==> PeakOfStack(t, part, rank, l.stack) <= |t| ==>
      |l.matches| + HitsOfStack(t, part, rank, l.stack) <= room ==> Completes(t, l, room, n)
    decreases n
  {
    hide Ranked, ChildrenInRange, OnStack, AllIn, Visits, Peak, Hits, Round;
    if l.stack != [] {
      PeakHoldsStack(t, part, rank, l.stack);
      RoundNeeds(t, part, rank, l.stack);
      RoundUsesOne(t, part, rank, l.stack);
      if n > 0 {
        CompletesIff(t, part, rank, Step(t, l), room, n - 1);
      }
    }
  }

  /** A search that completes ends. */
  lemma {:induction false} CompletesEnds(t: Trie, l: Loop, room: nat, n: nat)
    requires ChildrenInRange(t) && OnStack(t, l.stack) && Completes(t, l, room, n)
    ensures EndsIn(t, l.stack, n)
    decreases n
  {
    hide Search, EndsIn, Round, ChildrenInRange, OnStack;
    if l.stack == [] {
      EmptyStaysEmpty(t, n);
    } else {
      EndsLater(t, l.stack, n);
      CompletesEnds(t, Step(t, l), room, n - 1);
    }
  }

  lemma {:induction false} EmptyStaysEmpty(t: Trie, n: nat)
    requires ChildrenInRange(t)
    ensures EndsIn(t, [], n)
  {
    if n > 0 {
      EmptyStaysEmpty(t, n - 1);
    }
  }

  /** No cycle can be reached, the peak fits a stack of one entry for each node, and the hits fit the match array. */
  ghost predicate Needs(t: Trie, part: set<nat>, rank: seq<nat>, start: nat, room: nat) {
    && start in part && Ranked(t, part, rank)
    && Peak(t, part, rank, start) <= |t| && Hits(t, part, rank, start) <= room
  }

  ghost predicate Fitting(t: Trie, start: nat, room: nat) {
    exists part: set<nat>, rank: seq<nat> :: Needs(t, part, rank, start, room)
  }

  /** Where no cycle can be reached, peak and hits decide; any falling rank gives the same ones. */
  lemma {:induction false} PeakAndHitsDecide(t: Trie, part: set<nat>, rank: seq<nat>, start: nat, room: nat)
    requires ChildrenInRange(t) && start in part && Ranked(t, part, rank)
    ensures StaysInside(t, start, room) <==> Needs(t, part, rank, start, room)
  {
    hide Completes, Visits, Peak, Hits;
    var l := Loop([start], []);
    OneEntry(t, part, rank, start);
    if n: nat :| Completes(t, l, room, n) {
      CompletesIff(t, part, rank, l, room, n);
    }
    if Needs(t, part, rank, start, room) {
      CompletesIff(t, part, rank, l, room, VisitsOfStack(t, part, rank, [start]));
    }
  }

  lemma {:induction false} OneEntry(t: Trie, part: set<nat>, rank: seq<nat>, start: nat)
    requires Ranked(t, part, rank) && start in part
    ensures AllIn(part, [start]) && PeakOfStack(t, part, rank, [start]) == Peak(t, part, rank, start)
    ensures HitsOfStack(t, part, rank, [start]) == Hits(t, part, rank, start)
  {
    assert [start][..0] == [];
  }

  /** On any links that validation accepts, the search below a node ends without leaving its stack or its match
      array if and only if no cycle can be reached and its peak and its hits fit them. */
  lemma {:induction false} StaysInsideIff(t: Trie, start: nat, room: nat)
    requires ChildrenInRange(t) && start < |t|
    ensures StaysInside(t, start, room) <==> Fitting(t, start, room)
    ensures StaysInside(t, start, room) ==> Acyclic(t, start)
  {
    hide Completes, Ranked, Peak, Hits, Ends;
    if StaysInside(t, start, room) {
      var n: nat :| Completes(t, Loop([start], []), room, n);
      CompletesEnds(t, Loop([start], []), room, n);
      EndsSomeTime(t, [start], n);
      SearchEndsIff(t, start);
      var part: set<nat>, rank: seq<nat> :| start in part && Ranked(t, part, rank);
      PeakAndHitsDecide(t, part, rank, start, room);
    }
    if Fitting(t, start, room) {
      var part: set<nat>, rank: seq<nat> :| Needs(t, part, rank, start, room);
      PeakAndHitsDecide(t, part, rank, start, room);
    }
  }

  lemma {:induction false} EndsSomeTime(t: Trie, s: seq<nat>, n: nat)
    requires ChildrenInRange(t) && OnStack(t, s) && EndsIn(t, s, n)
    ensures Ends(t, s)
  {
  }

  /** A prefix scan of an accepted file runs inside its arrays exactly when the prefix leads nowhere or the search
      below the node it leads to fits. */
  lemma {:induction false} ScanIsSafeIff(index: Bytes, keys: Bytes, values: Bytes, count: nat, prefix: Bytes)
    requires RadixOk(index, keys, values, count)
    ensures ChildrenInRange(View(RadixSections(index)))
    ensures ScanIsSafe(RadixSections(index), prefix) <==>
      match Walk(View(RadixSections(index)), 0, prefix)
      case None => true
      case Some(n) => Fitting(View(RadixSections(index)), n, Room(count))
  {
    hide RadixAccepted, RadixSections, NodesOk, SafeIndex, NodeSafe, StaysInside, Fitting;
    var x := RadixSections(index);
    AcceptedValues(index, keys, values, count);
    SafeViewIsClosed(x);
    var w := Walk(View(x), 0, prefix);
    if w.Some? {
      StaysInsideIff(View(x), w.value, Room(count));
    }
  }

  lemma {:induction false} AcceptedValues(index: Bytes, keys: Bytes, values: Bytes, count: nat)
    requires RadixOk(index, keys, values, count)
    ensures SafeIndex(RadixSections(index)) && |RadixSections(index).values| == count
  {
  }

  // ---- Accepted files that are not trees ----

  /** Written out, safe arrays are a file that validation accepts. */
  lemma {:induction false} SafeArraysAreAccepted(x: RadixIndex, keys: Bytes, values: Bytes)
    requires SafeIndex(x) && SlicesInside(x) && Total(x.nodes, TERMINAL_NODE) == |x.values|
    requires |x.nodes| <= U32_MAX && |x.edges| <= U32_MAX && |x.values| <= U32_MAX
    requires InRange(x.values, keys, values) && forall v :: v in x.values ==> LocFits(v)
    ensures RadixOk(EncodeRadix(x), keys, values, |x.values|) && RadixSections(EncodeRadix(x)) == x
  {
    hide SafeIndex, EncodeRadix, RadixHeaderOf, RadixSections, RadixHeaderOk, Total, InRange;
    var index := EncodeRadix(x);
    RadixFileRoundTrip(x);
    RadixSectionsWhole(index);
    RadixHeaderFitsIff(RadixHeaderOf(index), |index|, |x.values|);
    ArraysHaveNodes(x);
    SafeNodesAreOk(RadixHeaderOf(index), x);
  }

  lemma {:induction false} ArraysHaveNodes(x: RadixIndex)
    requires SafeIndex(x)
    ensures |x.nodes| > 0
  {
  }

  lemma {:induction false} NoTerminal(node: RadixNode, n: nat)
    requires node.valueIndex == NO_VALUE
    ensures Total(seq(n, _ => node), TERMINAL_NODE) == 0
    ensures n == 1 ==> [node] == seq(n, _ => node)
  {
    if n > 0 {
      NoTerminal(node, n - 1);
      assert seq(n, _ => node)[..n - 1] == seq(n - 1, _ => node);
    }
  }

  /** One node that is its own child. */
  const LOOP := RadixIndex([RadixNode(0, 1, NO_VALUE)], [RadixEdge(0, 0)], [])

  /** The loop is accepted, and a scan of all keys never ends. */
  lemma {:induction false} LoopIsAccepted(keys: Bytes, values: Bytes)
    ensures RadixOk(EncodeRadix(LOOP), keys, values, 0) && RadixSections(EncodeRadix(LOOP)) == LOOP
    ensures SafeIndex(LOOP) && ChildrenInRange(View(LOOP)) && !Ends(View(LOOP), [0])
    ensures !ScanIsSafe(LOOP, [])
  {
    hide RadixOk, RadixSections, EncodeRadix;
    NoTerminal(LOOP.nodes[0], 1);
    SafeArraysAreAccepted(LOOP, keys, values);
    SafeViewIsClosed(LOOP);
    SearchEndsIff(View(LOOP), 0);
    StaysInsideIff(View(LOOP), 0, 1);
    forall part: set<nat>, rank: seq<nat> | 0 in part ensures !Ranked(View(LOOP), part, rank) {
      assert View(LOOP)[0].edges[0].child == 0;
    }
  }

  /** A root with three edges to one leaf. */
  const FAN := RadixIndex([RadixNode(0, 3, NO_VALUE), RadixNode(3, 0, NO_VALUE)],
                          [RadixEdge(0, 1), RadixEdge(1, 1), RadixEdge(2, 1)], [])

  /** A root with two edges to one leaf that carries the only value. */
  const TWIN := RadixIndex([RadixNode(0, 2, NO_VALUE), RadixNode(2, 0, 0)], [RadixEdge(0, 1), RadixEdge(1, 1)],
                           [Loc(0, 0, 0, 0)])

  /** A root with some edges that all lead to the one other node. */
  lemma {:induction false} TwoLevels(x: RadixIndex)
    requires |x.nodes| == 2 && SafeIndex(x) && x.nodes[0].firstEdge == 0 && x.nodes[0].edgeCount == |x.edges|
    requires x.nodes[0].valueIndex == NO_VALUE && x.nodes[1].edgeCount == 0
    requires forall j :: 0 <= j < |x.edges| ==> x.edges[j].child == 1
    ensures ChildrenInRange(View(x)) && Ranked(View(x), {0, 1}, [1, 0])
    ensures Peak(View(x), {0, 1}, [1, 0], 0) == Max(1, |x.edges|)
    ensures Hits(View(x), {0, 1}, [1, 0], 0) == |x.edges| * TERMINAL_WEIGHT(View(x)[1])
  {
    SafeViewIsClosed(x);
    assert View(x)[0].edges == x.edges;
    TwoLevelKids(View(x), |x.edges|);
  }

  lemma {:induction false} TwoLevelKids(t: Trie, j: nat)
    requires Ranked(t, {0, 1}, [1, 0]) && j <= |t[0].edges| && t[1].edges == []
    requires forall k :: 0 <= k < |t[0].edges| ==> t[0].edges[k].child == 1
    ensures PeakOfKids(t, {0, 1}, [1, 0], 0, j) == j
    ensures HitsOfKids(t, {0, 1}, [1, 0], 0, j) == j * TERMINAL_WEIGHT(t[1])
  {
    if j > 0 {
      TwoLevelKids(t, j - 1);
      assert Peak(t, {0, 1}, [1, 0], 1) == 1 && Hits(t, {0, 1}, [1, 0], 1) == TERMINAL_WEIGHT(t[1]);
    }
  }

  /** The fan is accepted and its search ends, but the stack has no room for three entries: one for each node. */
  lemma {:induction false} FanIsAccepted(keys: Bytes, values: Bytes)
    ensures RadixOk(EncodeRadix(FAN), keys, values, 0) && RadixSections(EncodeRadix(FAN)) == FAN
    ensures SafeIndex(FAN) && ChildrenInRange(View(FAN)) && Ends(View(FAN), [0])
    ensures |Search(View(FAN), [0], 1)| == 3 > |FAN.nodes|
    ensures !ScanIsSafe(FAN, [])
  {
    hide RadixOk, RadixSections, EncodeRadix, Peak, Hits, Ends;
    FanIsSafe();
    SafeArraysAreAccepted(FAN, keys, values);
    TwoLevels(FAN);
    var t := View(FAN);
    ParentRound(t, 0);
    assert Search(t, [0], 1) == Search(t, Round(t, [0]), 0);
    SearchEndsIff(t, 0);
    PeakAndHitsDecide(t, {0, 1}, [1, 0], 0, 1);
  }

  lemma {:induction false} FanIsSafe()
    ensures SafeIndex(FAN) && SlicesInside(FAN) && Total(FAN.nodes, TERMINAL_NODE) == 0
  {
    assert FAN.nodes[..1] == [FAN.nodes[0]];
    NoTerminal(FAN.nodes[0], 1);
    assert NodeSafe(FAN, 0) && NodeSafe(FAN, 1);
  }

  /** The twin is accepted, its search ends and fits the stack, but it records the one value twice and the match
      array has room for one. */
  lemma {:induction false} TwinIsAccepted(keys: Bytes, values: Bytes)
    ensures RadixOk(EncodeRadix(TWIN), keys, values, 1) && RadixSections(EncodeRadix(TWIN)) == TWIN
    ensures SafeIndex(TWIN) && ChildrenInRange(View(TWIN)) && Ends(View(TWIN), [0])
    ensures StaysInside(View(TWIN), 0, 2) && !ScanIsSafe(TWIN, [])
  {
    hide RadixOk, RadixSections, EncodeRadix, Peak, Hits, Ends;
    TwinIsSafe();
    SafeArraysAreAccepted(TWIN, keys, values);
    TwoLevels(TWIN);
    var t := View(TWIN);
    SearchEndsIff(t, 0);
    PeakAndHitsDecide(t, {0, 1}, [1, 0], 0, 1);
    PeakAndHitsDecide(t, {0, 1}, [1, 0], 0, 2);
  }

  lemma {:induction false} TwinIsSafe()
    ensures SafeIndex(TWIN) && SlicesInside(TWIN) && Total(TWIN.nodes, TERMINAL_NODE) == 1
  {
    assert TWIN.nodes[..1] == [TWIN.nodes[0]];
    NoTerminal(TWIN.nodes[0], 1);
    assert NodeSafe(TWIN, 0) && NodeSafe(TWIN, 1);
  }
}
