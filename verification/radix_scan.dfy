/** The explicit-stack prefix scan of a radix cache (fce_reader_prefix_scan). */
module RadixScan {
  import opened Bytes
  import opened Format
  import opened Sorting
  import opened Records
  import opened RadixTrie
  import opened RadixBuild
  import opened RadixFlat

  // ---- The search loop, on whatever nodes the reader accepted ----

  /** The variables of the loop. */
  datatype Loop = Loop(stack: seq<nat>, matches: seq<nat>)

  ghost function Kids(t: Trie, n: nat): seq<nat>
    requires n < |t|
  {
    seq(|t[n].edges|, j requires 0 <= j < |t[n].edges| => t[n].edges[j].child)
  }

  ghost predicate OnStack(t: Trie, s: seq<nat>) {
    forall i :: 0 <= i < |s| ==> s[i] < |t|
  }

  /** One round on the stack: the top node is replaced by its children. */
  ghost function Round(t: Trie, s: seq<nat>): (r: seq<nat>)
    requires ChildrenInRange(t) && OnStack(t, s)
    ensures OnStack(t, r)
  {
    if s == [] then [] else s[..|s| - 1] + Kids(t, s[|s| - 1])
  }

  function Collected(matches: seq<nat>, valueIndex: u32): seq<nat> {
    if valueIndex == NO_VALUE then matches else matches + [valueIndex]
  }

  /** One round: pop a node, record its value, push its children. */
  ghost function Step(t: Trie, l: Loop): (r: Loop)
    requires ChildrenInRange(t) && OnStack(t, l.stack)
    ensures OnStack(t, r.stack)
  {
    if l.stack == [] then l
    else Loop(Round(t, l.stack), Collected(l.matches, t[l.stack[|l.stack| - 1]].valueIndex))
  }

  /** The loop ends within n rounds, and until then there is a stack entry for at most every node and there are at
      most room matches. Nothing is popped after the first push of a round, so no moment inside it is worse. */
  ghost predicate Completes(t: Trie, l: Loop, room: nat, n: nat)
    requires ChildrenInRange(t) && OnStack(t, l.stack)
    decreases n
  {
    && |l.stack| <= |t| && |l.matches| <= room
    && (l.stack == [] || (n > 0 && Completes(t, Step(t, l), room, n - 1)))
  }

  /** The matches after n rounds. */
  ghost function Gathered(t: Trie, l: Loop, n: nat): seq<nat>
    requires ChildrenInRange(t) && OnStack(t, l.stack)
    decreases n
  {
    if l.stack == [] || n == 0 then l.matches else Gathered(t, Step(t, l), n - 1)
  }

  /** The search below a node ends and never leaves its two arrays: one stack entry for each node, room matches. */
  ghost predicate StaysInside(t: Trie, start: nat, room: nat)
    requires ChildrenInRange(t) && start < |t|
  {
    exists n: nat :: Completes(t, Loop([start], []), room, n)
  }

  /** The length of the match array for a record count. */
  function Room(count: nat): nat {
    if count == 0 then 1 else count
  }

  /** A value that is found by reading some key from node n on. */
  ghost predicate Leads(t: Trie, n: nat, m: nat)
    requires ChildrenInRange(t) && n < |t|
  {
    m != NO_VALUE && exists rest: Bytes :: CarriesAt(t, n, rest, m)
  }

  ghost predicate CarriesAt(t: Trie, n: nat, rest: Bytes, m: nat)
    requires ChildrenInRange(t) && n < |t|
  {
    Walk(t, n, rest).Some? && t[Walk(t, n, rest).value].valueIndex == m
  }

  ghost predicate KidsLead(t: Trie, n: nat, m: nat)
    requires ChildrenInRange(t) && n < |t|
  {
    exists j :: 0 <= j < |t[n].edges| && Leads(t, t[n].edges[j].child, m)
  }

  /** What a node leads to is its own value and what its children lead to. */
  lemma {:induction false} LeadsOn(t: Trie, n: nat, m: nat)
    requires ChildrenInRange(t) && n < |t| && SortedLabels(t[n].edges)
    ensures Leads(t, n, m) <==> (m != NO_VALUE && t[n].valueIndex == m) || KidsLead(t, n, m)
  {
    if Leads(t, n, m) && t[n].valueIndex != m {
      var rest: Bytes :| CarriesAt(t, n, rest, m);
      ChildIn(t[n].edges, rest[0]);
      var j :| 0 <= j < |t[n].edges| && t[n].edges[j] == RadixEdge(rest[0], Child(t[n].edges, rest[0]).value);
      assert CarriesAt(t, t[n].edges[j].child, rest[1..], m);
    }
    if m != NO_VALUE && t[n].valueIndex == m {
      assert CarriesAt(t, n, [], m);
    }
    forall j | 0 <= j < |t[n].edges| && Leads(t, t[n].edges[j].child, m) ensures Leads(t, n, m) {
      var e := t[n].edges[j];
      var rest: Bytes :| CarriesAt(t, e.child, rest, m);
      ChildOfEdge(t[n].edges, j);
      assert ([e.edgeLabel] + rest)[1..] == rest;
      assert CarriesAt(t, n, [e.edgeLabel] + rest, m);
    }
  }

  ghost predicate StackLeads(t: Trie, s: seq<nat>, m: nat)
    requires ChildrenInRange(t) && OnStack(t, s)
  {
    exists i :: 0 <= i < |s| && Leads(t, s[i], m)
  }

  ghost predicate AllSorted(t: Trie) {
    forall n :: 0 <= n < |t| ==> SortedLabels(t[n].edges)
  }

  lemma {:induction false} StackLeadsOn(t: Trie, s: seq<nat>, m: nat)
    requires ChildrenInRange(t) && AllSorted(t) && OnStack(t, s) && s != []
    ensures StackLeads(t, s, m) <==>
      StackLeads(t, Round(t, s), m) || (m != NO_VALUE && t[s[|s| - 1]].valueIndex == m)
  {
    hide Leads, SortedLabels;
    var rest, n := s[..|s| - 1], s[|s| - 1];
    var r := Round(t, s);
    LeadsOn(t, n, m);
    if i :| 0 <= i < |r| && Leads(t, r[i], m) {
      if i < |rest| {
        assert s[i] == r[i];
      } else {
        assert Leads(t, t[n].edges[i - |rest|].child, m);
        assert Leads(t, s[|s| - 1], m);
      }
    }
    if i :| 0 <= i < |s| && Leads(t, s[i], m) {
      if i < |rest| {
        assert r[i] == s[i];
      } else if KidsLead(t, n, m) {
        var j :| 0 <= j < |t[n].edges| && Leads(t, t[n].edges[j].child, m);
        assert r[|rest| + j] == t[n].edges[j].child;
      }
    }
  }

  /** A search that ends has gathered exactly the values that its start leads to. */
  lemma {:induction false} GathersWhatItLeadsTo(t: Trie, l: Loop, room: nat, n: nat, m: nat)
    requires ChildrenInRange(t) && AllSorted(t) && OnStack(t, l.stack) && Completes(t, l, room, n)
    ensures m in Gathered(t, l, n) <==> m in l.matches || StackLeads(t, l.stack, m)
    decreases n
  {
    hide Leads, AllSorted, Round, ChildrenInRange;
    if l.stack != [] {
      StackLeadsOn(t, l.stack, m);
      GathersWhatItLeadsTo(t, Step(t, l), room, n - 1, m);
    }
  }

  // ---- The frontier of a search in a trie ----

  /** The stack s and the visited nodes v partition the work below the start node: stacked
      subtrees are disjoint from each other and from v, and together they cover everything. */
  ghost predicate Frontier(t: Trie, paths: seq<Bytes>, prefix: Bytes, s: seq<nat>, v: set<nat>) {
    && |t| == |paths|
    && (forall i :: 0 <= i < |s| ==> s[i] < |t| && prefix <= paths[s[i]])
    && (forall n :: n in v ==> n < |t| && prefix <= paths[n])
    && (forall i, j :: 0 <= i < |s| && 0 <= j < |s| && i != j ==> !(paths[s[i]] <= paths[s[j]]))
    && (forall i, n :: 0 <= i < |s| && n in v ==> !(paths[s[i]] <= paths[n]))
    && (forall n :: 0 <= n < |t| && prefix <= paths[n] ==> n in v || Covered(paths, s, n))
  }

  ghost predicate Covered(paths: seq<Bytes>, s: seq<nat>, n: nat)
    requires n < |paths|
  {
    exists i :: 0 <= i < |s| && s[i] < |paths| && paths[s[i]] <= paths[n]
  }

  /** A node strictly below n lies below one of its children. */
  lemma {:induction false} BelowAChild(t: Trie, paths: seq<Bytes>, n: nat, m: nat)
    requires IsTrie(t, paths) && n < |t| && m < |t| && m != n && paths[n] <= paths[m]
    ensures exists j :: 0 <= j < |Kids(t, n)| && Kids(t, n)[j] < |t| && paths[Kids(t, n)[j]] <= paths[m]
  {
    var rest := paths[m][|paths[n]|..];
    assert paths[m] == paths[n] + rest;
    WalkConcat(t, 0, paths[n], rest);
    assert Walk(t, n, rest) == Some(m);
    var c := rest[0];
    ChildIn(t[n].edges, c);
    var j :| 0 <= j < |t[n].edges| && t[n].edges[j].edgeLabel == c;
    assert EdgeSpells(t, paths, n, j);
    assert Kids(t, n)[j] == t[n].edges[j].child;
    assert paths[n] + [c] <= paths[m];
  }

  /** Popping a node and pushing its children keeps the frontier. */
  lemma {:induction false} FrontierStep(t: Trie, paths: seq<Bytes>, prefix: Bytes, s: seq<nat>, cur: nat, v: set<nat>)
    requires IsTrie(t, paths) && cur < |t| && Frontier(t, paths, prefix, s + [cur], v)
    ensures Frontier(t, paths, prefix, s + Kids(t, cur), v + {cur})
  {
    assert |t| == |paths|;
    var s1, v1 := s + Kids(t, cur), v + {cur};
    VisitedIsBelow(t, paths, prefix, s, cur, v);
    hide IsTrie, Kids, Covered, Frontier;
    forall i | 0 <= i < |s1|
      ensures s1[i] < |t| && prefix <= paths[s1[i]] && forall n :: n in v1 ==> n < |t| && !(paths[s1[i]] <= paths[n])
    {
      StackAvoidsVisited(t, paths, prefix, s, cur, v, i);
    }
    forall i, j | 0 <= i < |s1| && 0 <= j < |s1| && i != j ensures !(paths[s1[i]] <= paths[s1[j]]) {
      StackStaysDisjoint(t, paths, prefix, s, cur, v, i, j);
    }
    forall n | 0 <= n < |t| && prefix <= paths[n] && n !in v1 ensures Covered(paths, s1, n) {
      StaysCovered(t, paths, prefix, s, cur, v, n);
    }
    FrontierHolds(t, paths, prefix, s1, v1);
  }

  lemma {:induction false} VisitedIsBelow(t: Trie, paths: seq<Bytes>, prefix: Bytes, s: seq<nat>, cur: nat,
                                          v: set<nat>)
    requires |t| == |paths| && cur < |t| && Frontier(t, paths, prefix, s + [cur], v)
    ensures forall n :: n in v + {cur} ==> n < |t| && prefix <= paths[n]
  {
    assert (s + [cur])[|s|] == cur;
  }

  lemma {:induction false} FrontierHolds(t: Trie, paths: seq<Bytes>, prefix: Bytes, s: seq<nat>, v: set<nat>)
    requires |t| == |paths| && forall n :: n in v ==> n < |t| && prefix <= paths[n]
    requires forall i :: 0 <= i < |s| ==>
      s[i] < |t| && prefix <= paths[s[i]] && forall n :: n in v ==> n < |t| && !(paths[s[i]] <= paths[n])
    requires forall i, j :: 0 <= i < |s| && 0 <= j < |s| && i != j ==> !(paths[s[i]] <= paths[s[j]])
    requires forall n :: 0 <= n < |t| && prefix <= paths[n] && n !in v ==> Covered(paths, s, n)
    ensures Frontier(t, paths, prefix, s, v)
  {
    hide Covered;
  }

  lemma {:induction false} StackAvoidsVisited(t: Trie, paths: seq<Bytes>, prefix: Bytes, s: seq<nat>, cur: nat,
                                              v: set<nat>, i: nat)
    requires IsTrie(t, paths) && cur < |t| && Frontier(t, paths, prefix, s + [cur], v)
    requires i < |s| + |Kids(t, cur)|
    ensures var s1 := s + Kids(t, cur);
      s1[i] < |t| && prefix <= paths[s1[i]] && forall n :: n in v + {cur} ==> n < |t| && !(paths[s1[i]] <= paths[n])
  {
    var s0, s1 := s + [cur], s + Kids(t, cur);
    assert s0[|s|] == cur;
    if i < |s| {
      assert s0[i] == s1[i] && !(paths[s0[i]] <= paths[s0[|s|]]);
    } else {
      assert EdgeSpells(t, paths, cur, i - |s|);
      forall n | n in v + {cur} ensures n < |t| && !(paths[s1[i]] <= paths[n]) {
        if n != cur {
          assert !(paths[s0[|s|]] <= paths[n]);
        }
      }
    }
  }

  lemma {:induction false} StaysCovered(t: Trie, paths: seq<Bytes>, prefix: Bytes, s: seq<nat>, cur: nat, v: set<nat>,
                                        n: nat)
    requires IsTrie(t, paths) && cur < |t| && Frontier(t, paths, prefix, s + [cur], v)
    requires n < |t| && prefix <= paths[n] && n !in v && n != cur
    ensures Covered(paths, s + Kids(t, cur), n)
  {
    hide IsTrie, Kids;
    var s0, s1 := s + [cur], s + Kids(t, cur);
    assert Covered(paths, s0, n);
    var i :| 0 <= i < |s0| && s0[i] < |paths| && paths[s0[i]] <= paths[n];
    if i < |s| {
      assert s1[i] == s0[i];
    } else {
      CoveredByKid(t, paths, s, cur, n);
    }
  }

  lemma {:induction false} CoveredByKid(t: Trie, paths: seq<Bytes>, s: seq<nat>, cur: nat, n: nat)
    requires IsTrie(t, paths) && cur < |t| && n < |t| && n != cur && paths[cur] <= paths[n]
    ensures Covered(paths, s + Kids(t, cur), n)
  {
    hide EdgeSpells, Walk, SortedLabels, Child;
    var s1, kids := s + Kids(t, cur), Kids(t, cur);
    BelowAChild(t, paths, cur, n);
    var j :| 0 <= j < |kids| && kids[j] < |t| && paths[kids[j]] <= paths[n];
    assert s1[|s| + j] == kids[j];
  }

  lemma {:induction false} StackStaysDisjoint(t: Trie, paths: seq<Bytes>, prefix: Bytes, s: seq<nat>, cur: nat,
                                              v: set<nat>, i: nat, j: nat)
    requires IsTrie(t, paths) && |t| == |paths| && cur < |t| && Frontier(t, paths, prefix, s + [cur], v)
    requires i < |s| + |Kids(t, cur)| && j < |s| + |Kids(t, cur)| && i != j
    ensures var s1 := s + Kids(t, cur); s1[i] < |t| && s1[j] < |t| && !(paths[s1[i]] <= paths[s1[j]])
  {
    hide IsTrie, Frontier;
    if i < |s| && j < |s| {
      RestIsDisjoint(t, paths, prefix, s, cur, v, i, j);
    } else if i < |s| {
      StackAvoidsKid(t, paths, prefix, s, cur, v, i, j - |s|);
    } else if j < |s| {
      StackAvoidsKid(t, paths, prefix, s, cur, v, j, i - |s|);
    } else {
      KidsAreDisjoint(t, paths, cur, i - |s|, j - |s|);
    }
  }

  lemma {:induction false} RestIsDisjoint(t: Trie, paths: seq<Bytes>, prefix: Bytes, s: seq<nat>, cur: nat,
                                          v: set<nat>, i: nat, j: nat)
    requires |t| == |paths| && cur < |t| && Frontier(t, paths, prefix, s + [cur], v) && i < |s| && j < |s| && i != j
    ensures s[i] < |t| && s[j] < |t| && !(paths[s[i]] <= paths[s[j]])
  {
    var s0 := s + [cur];
    assert s0[i] == s[i] && s0[j] == s[j];
  }

  lemma {:induction false} StackAvoidsKid(t: Trie, paths: seq<Bytes>, prefix: Bytes, s: seq<nat>, cur: nat,
                                          v: set<nat>, i: nat, k: nat)
    requires IsTrie(t, paths) && cur < |t| && Frontier(t, paths, prefix, s + [cur], v)
    requires i < |s| && k < |t[cur].edges|
    ensures var kid := t[cur].edges[k].child;
      s[i] < |t| && kid < |t| && !(paths[s[i]] <= paths[kid]) && !(paths[kid] <= paths[s[i]])
  {
    var s0 := s + [cur];
    assert s0[|s|] == cur && s0[i] == s[i];
    assert !(paths[s0[i]] <= paths[s0[|s|]]) && !(paths[s0[|s|]] <= paths[s0[i]]);
    assert EdgeSpells(t, paths, cur, k);
  }

  lemma {:induction false} KidsAreDisjoint(t: Trie, paths: seq<Bytes>, n: nat, i: nat, j: nat)
    requires IsTrie(t, paths) && n < |t| && i < |t[n].edges| && j < |t[n].edges| && i != j
    ensures t[n].edges[i].child < |t| && t[n].edges[j].child < |t|
    ensures !(paths[t[n].edges[i].child] <= paths[t[n].edges[j].child])
  {
    var a, b := t[n].edges[i], t[n].edges[j];
    assert EdgeSpells(t, paths, n, i) && EdgeSpells(t, paths, n, j);
    assert a.edgeLabel != b.edgeLabel;
    assert paths[a.child][|paths[n]|] == a.edgeLabel && paths[b.child][|paths[n]|] == b.edgeLabel;
  }

  lemma {:induction false} StackIsApart(t: Trie, paths: seq<Bytes>, prefix: Bytes, s: seq<nat>, v: set<nat>)
    requires Frontier(t, paths, prefix, s, v)
    ensures Distinct(s) && Elements(s) !! v && Elements(s) + v <= Below(|t|)
  {
    hide Covered;
    forall i, j | 0 <= i < j < |s| ensures s[i] != s[j] {
      assert !(paths[s[i]] <= paths[s[j]]);
    }
    forall n | n in s ensures n !in v {
      var i :| 0 <= i < |s| && s[i] == n;
      assert paths[s[i]] <= paths[n];
    }
  }

  /** Stacked and visited nodes are all different, so both fit in node_count. */
  lemma {:induction false} FrontierFits(t: Trie, paths: seq<Bytes>, prefix: Bytes, s: seq<nat>, v: set<nat>)
    requires Frontier(t, paths, prefix, s, v)
    ensures |s| + |v| <= |t|
  {
    hide Frontier, Covered;
    StackIsApart(t, paths, prefix, s, v);
    DistinctCard(s);
    assert Elements(s) + v <= Below(|t|);
    SubsetCard(Elements(s) + v, Below(|t|));
  }

  /** The matches are the value indices of the visited nodes, none twice. */
  ghost predicate Harvest(t: Trie, matches: seq<nat>, from: seq<nat>, v: set<nat>, valueCount: nat) {
    && (forall n :: n in v ==> n < |t|)
    && Distinct(matches) && |from| == |matches|
    && (forall k :: 0 <= k < |matches| ==>
      matches[k] < valueCount && from[k] in v && t[from[k]].valueIndex == matches[k])
    && (forall n :: n in v && t[n].valueIndex != NO_VALUE ==> t[n].valueIndex in matches)
  }

  lemma {:induction false} HarvestStep(t: Trie, paths: seq<Bytes>, recs: seq<Pair>, matches: seq<nat>, from: seq<nat>,
                                       v: set<nat>, cur: nat)
    requires Built(t, paths, recs) && |recs| <= U32_MAX
    requires Harvest(t, matches, from, v, |recs|) && cur < |t| && cur !in v
    ensures
      if t[cur].valueIndex == NO_VALUE then Harvest(t, matches, from, v + {cur}, |recs|)
      else |matches| < |recs| && Harvest(t, matches + [t[cur].valueIndex], from + [cur], v + {cur}, |recs|)
  {
    hide EdgeSpells, Walk, Prefixes, Held, Total, SortedLabels;
    if t[cur].valueIndex != NO_VALUE {
      var m := t[cur].valueIndex;
      forall k | 0 <= k < |matches| ensures matches[k] != m {
        assert paths[from[k]] == recs[matches[k]].key && paths[cur] == recs[m].key;
      }
      DistinctBelow(matches + [m], |recs|);
    }
  }

  /** Once the stack is empty, the matches are exactly the keys below the prefix. */
  lemma {:induction false} HarvestIsComplete(t: Trie, paths: seq<Bytes>, prefix: Bytes, recs: seq<Pair>,
                                             matches: seq<nat>, from: seq<nat>, v: set<nat>)
    requires Built(t, paths, recs) && |recs| <= U32_MAX
    requires Frontier(t, paths, prefix, [], v) && Harvest(t, matches, from, v, |recs|)
    ensures forall m :: m in matches <==> 0 <= m < |recs| && prefix <= recs[m].key
  {
    forall m | 0 <= m < |recs| && prefix <= recs[m].key ensures m in matches {
      assert Held(t, recs[m].key, m);
      var n := Walk(t, 0, recs[m].key).value;
      WalkReachesItsPath(t, paths, recs[m].key, n);
      assert !Covered(paths, [], n);
    }
    forall m | m in matches ensures 0 <= m < |recs| && prefix <= recs[m].key {
      var k :| 0 <= k < |matches| && matches[k] == m;
      assert recs[m].key == paths[from[k]];
    }
  }

  /** One round in a trie: the frontier and the harvest advance, and neither array can overflow. */
  lemma {:induction false} ScanStep(t: Trie, paths: seq<Bytes>, prefix: Bytes, recs: seq<Pair>,
                                    s: seq<nat>, matches: seq<nat>, from: seq<nat>, v: set<nat>, cur: nat)
    requires Built(t, paths, recs) && |recs| <= U32_MAX
    requires Frontier(t, paths, prefix, s + [cur], v) && Harvest(t, matches, from, v, |recs|)
    ensures cur < |t| && cur !in v && |s| + |Kids(t, cur)| + |v| + 1 <= |t|
    ensures Frontier(t, paths, prefix, s + Kids(t, cur), v + {cur})
    ensures
      if t[cur].valueIndex == NO_VALUE then Harvest(t, matches, from, v + {cur}, |recs|)
      else |matches| < |recs| && Harvest(t, matches + [t[cur].valueIndex], from + [cur], v + {cur}, |recs|)
  {
    assert (s + [cur])[|s|] == cur && paths[cur] <= paths[cur];
    FrontierStep(t, paths, prefix, s, cur, v);
    FrontierFits(t, paths, prefix, s + Kids(t, cur), v + {cur});
    HarvestStep(t, paths, recs, matches, from, v, cur);
  }

  /** The same about the variables of the loop. */
  lemma {:induction false} Visit(t: Trie, paths: seq<Bytes>, prefix: Bytes, recs: seq<Pair>, l: Loop, from: seq<nat>,
                                 v: set<nat>)
    returns (from1: seq<nat>, v1: set<nat>)
    requires Built(t, paths, recs) && |recs| <= U32_MAX && ChildrenInRange(t) && OnStack(t, l.stack) && l.stack != []
    requires Frontier(t, paths, prefix, l.stack, v) && Harvest(t, l.matches, from, v, |recs|)
    ensures |v1| == |v| + 1 <= |t|
    ensures Frontier(t, paths, prefix, Step(t, l).stack, v1) && Harvest(t, Step(t, l).matches, from1, v1, |recs|)
  {
    hide Frontier, Harvest, Built, Kids, ChildrenInRange, OnStack;
    var s, cur := l.stack[..|l.stack| - 1], l.stack[|l.stack| - 1];
    assert l.stack == s + [cur];
    ScanStep(t, paths, prefix, recs, s, l.matches, from, v, cur);
    from1 := if t[cur].valueIndex == NO_VALUE then from else from + [cur];
    v1 := v + {cur};
  }

  lemma {:induction false} HarvestFits(t: Trie, matches: seq<nat>, from: seq<nat>, v: set<nat>, count: nat)
    requires Harvest(t, matches, from, v, count)
    ensures |matches| <= count && Distinct(matches)
  {
    DistinctBelow(matches, count);
  }

  /** In a trie the search ends inside its arrays and finds exactly the keys below the prefix, each once. */
  lemma {:induction false} TrieSearch(t: Trie, paths: seq<Bytes>, prefix: Bytes, recs: seq<Pair>, l: Loop,
                                      from: seq<nat>, v: set<nat>, n: nat)
    requires Built(t, paths, recs) && |recs| <= U32_MAX && ChildrenInRange(t) && OnStack(t, l.stack)
    requires Frontier(t, paths, prefix, l.stack, v) && Harvest(t, l.matches, from, v, |recs|) && |t| <= n + |v|
    ensures Completes(t, l, |recs|, n) && Distinct(Gathered(t, l, n))
    ensures forall m :: m in Gathered(t, l, n) <==> 0 <= m < |recs| && prefix <= recs[m].key
    decreases n
  {
    hide Frontier, Harvest, Built, Step, ChildrenInRange, OnStack, Distinct;
    FrontierFits(t, paths, prefix, l.stack, v);
    HarvestFits(t, l.matches, from, v, |recs|);
    if l.stack == [] {
      HarvestIsComplete(t, paths, prefix, recs, l.matches, from, v);
    } else {
      var from1, v1 := Visit(t, paths, prefix, recs, l, from, v);
      TrieSearch(t, paths, prefix, recs, Step(t, l), from1, v1, n - 1);
    }
  }

  lemma {:induction false} StartFrontier(t: Trie, paths: seq<Bytes>, prefix: Bytes, start: nat)
    requires |t| == |paths| && start < |t| && paths[start] == prefix
    ensures Frontier(t, paths, prefix, [start], {}) && Harvest(t, [], [], {}, 0)
  {
    forall n | 0 <= n < |t| && prefix <= paths[n] ensures Covered(paths, [start], n) {
      assert paths[[start][0]] <= paths[n];
    }
  }

  lemma {:induction false} MoreRoom(t: Trie, l: Loop, room: nat, more: nat, n: nat)
    requires ChildrenInRange(t) && OnStack(t, l.stack) && Completes(t, l, room, n) && room <= more
    ensures Completes(t, l, more, n)
    decreases n
  {
    if l.stack != [] {
      MoreRoom(t, Step(t, l), room, more, n - 1);
    }
  }

  lemma {:induction false} NothingBelow(t: Trie, paths: seq<Bytes>, prefix: Bytes, recs: seq<Pair>)
    requires Built(t, paths, recs) && Walk(t, 0, prefix) == None
    ensures forall m :: 0 <= m < |recs| ==> !(prefix <= recs[m].key)
  {
    forall m | 0 <= m < |recs| ensures !(prefix <= recs[m].key) {
      assert Held(t, recs[m].key, m);
      if prefix <= recs[m].key {
        assert recs[m].key == prefix + recs[m].key[|prefix|..];
        WalkConcat(t, 0, prefix, recs[m].key[|prefix|..]);
      }
    }
  }

  // ---- fce_reader_prefix_scan on a radix index ----

  /** The walk along the prefix falls off, or the search below its end stays inside its arrays. */
  ghost predicate ScanIsSafe(x: RadixIndex, prefix: Bytes)
    requires SafeIndex(x)
  {
    SafeViewIsClosed(x);
    var w := Walk(View(x), 0, prefix);
    w.Some? ==> StaysInside(View(x), w.value, Room(|x.values|))
  }

  /** A scan's matches: none when the walk falls off, else what the search gathers. */
  ghost predicate ScanOutcome(x: RadixIndex, prefix: Bytes, found: seq<nat>)
    requires SafeIndex(x)
  {
    SafeViewIsClosed(x);
    var t, w := View(x), Walk(View(x), 0, prefix);
    if w.None? then found == []
    else exists n: nat :: SearchOutcome(t, w.value, Room(|x.values|), n, found)
  }

  ghost predicate SearchOutcome(t: Trie, start: nat, room: nat, n: nat, found: seq<nat>)
    requires ChildrenInRange(t) && start < |t|
  {
    Completes(t, Loop([start], []), room, n) && found == Gathered(t, Loop([start], []), n)
  }

  /** On any accepted index: the values of the keys that start with the prefix and can be walked. */
  lemma {:induction false} OutcomeIsWalked(x: RadixIndex, prefix: Bytes, found: seq<nat>, m: nat)
    requires SafeIndex(x) && ScanOutcome(x, prefix, found) && ChildrenInRange(View(x))
    ensures m in found <==> m != NO_VALUE && exists key :: prefix <= key && CarriesAt(View(x), 0, key, m)
  {
    hide Leads, CarriesAt, StackLeads, Completes, Gathered, ChildrenInRange, NodeSafe;
    var t, w := View(x), Walk(View(x), 0, prefix);
    if w.None? {
      forall key: Bytes | prefix <= key ensures !CarriesAt(t, 0, key, m) {
        WalkPast(t, prefix, key, m);
      }
    } else {
      var n: nat :| SearchOutcome(t, w.value, Room(|x.values|), n, found);
      SafeLabelsAreSorted(x);
      GathersWhatItLeadsTo(t, Loop([w.value], []), Room(|x.values|), n, m);
      OneOnStack(t, w.value, m);
      LeadsBelow(t, prefix, m);
    }
  }

  lemma {:induction false} OneOnStack(t: Trie, start: nat, m: nat)
    requires ChildrenInRange(t) && start < |t|
    ensures OnStack(t, [start]) && (StackLeads(t, [start], m) <==> Leads(t, start, m))
  {
    assert [start][0] == start;
  }

  lemma {:induction false} WalkPast(t: Trie, prefix: Bytes, key: Bytes, m: nat)
    requires |t| > 0 && ChildrenInRange(t) && prefix <= key
    ensures match Walk(t, 0, prefix)
      case None => !CarriesAt(t, 0, key, m)
      case Some(n) => CarriesAt(t, 0, key, m) <==> CarriesAt(t, n, key[|prefix|..], m)
  {
    WalkConcat(t, 0, prefix, key[|prefix|..]);
    assert key == prefix + key[|prefix|..];
  }

  lemma {:induction false} LeadsBelow(t: Trie, prefix: Bytes, m: nat)
    requires |t| > 0 && ChildrenInRange(t) && Walk(t, 0, prefix).Some?
    ensures Leads(t, Walk(t, 0, prefix).value, m)
      <==> m != NO_VALUE && exists key :: prefix <= key && CarriesAt(t, 0, key, m)
  {
    hide CarriesAt, ChildrenInRange;
    var n := Walk(t, 0, prefix).value;
    if m != NO_VALUE {
      if rest: Bytes :| CarriesAt(t, n, rest, m) {
        WalkPast(t, prefix, prefix + rest, m);
        assert (prefix + rest)[|prefix|..] == rest;
      }
      if key :| prefix <= key && CarriesAt(t, 0, key, m) {
        WalkPast(t, prefix, key, m);
      }
    }
  }

  lemma {:induction false} SafeLabelsAreSorted(x: RadixIndex)
    requires SafeIndex(x)
    ensures AllSorted(View(x))
  {
    forall n | 0 <= n < |x.nodes| ensures SortedLabels(View(x)[n].edges) {
      assert NodeSafe(x, n);
    }
  }

  lemma {:induction false} TrieSearchFrom(t: Trie, paths: seq<Bytes>, prefix: Bytes, recs: seq<Pair>, start: nat)
    requires Built(t, paths, recs) && |recs| <= U32_MAX && ChildrenInRange(t) && start < |t| && paths[start] == prefix
    ensures Completes(t, Loop([start], []), |recs|, |t|) && Distinct(Gathered(t, Loop([start], []), |t|))
    ensures forall m :: m in Gathered(t, Loop([start], []), |t|) <==> 0 <= m < |recs| && prefix <= recs[m].key
  {
    hide Frontier, Completes, Gathered, Distinct;
    StartFrontier(t, paths, prefix, start);
    TrieSearch(t, paths, prefix, recs, Loop([start], []), [], {}, |t|);
  }

  /** On the index of a frozen cache every scan stays inside its arrays. */
  lemma {:induction false} TrieScanIsSafe(x: RadixIndex, paths: seq<Bytes>, recs: seq<Pair>, prefix: Bytes)
    requires SafeIndex(x) && Built(View(x), paths, recs) && |recs| == |x.values| <= U32_MAX
    ensures ScanIsSafe(x, prefix)
  {
    hide Completes, Gathered, HoldsValues;
    SafeViewIsClosed(x);
    var t, w := View(x), Walk(View(x), 0, prefix);
    if w.Some? {
      WalkReachesItsPath(t, paths, prefix, w.value);
      TrieSearchFrom(t, paths, prefix, recs, w.value);
      MoreRoom(t, Loop([w.value], []), |recs|, Room(|recs|), |t|);
    }
  }

  lemma {:induction false} OneOutcome(t: Trie, l: Loop, room: nat, n: nat, other: nat, k: nat)
    requires ChildrenInRange(t) && OnStack(t, l.stack) && Completes(t, l, room, n) && Completes(t, l, other, k)
    ensures Gathered(t, l, n) == Gathered(t, l, k)
    decreases n
  {
    if l.stack != [] {
      OneOutcome(t, Step(t, l), room, n - 1, other, k - 1);
    }
  }

  /** And it finds exactly the keys below the prefix, each once. */
  lemma {:induction false} TrieScanIsExact(x: RadixIndex, paths: seq<Bytes>, recs: seq<Pair>, prefix: Bytes,
                                           found: seq<nat>)
    requires SafeIndex(x) && Built(View(x), paths, recs) && |recs| == |x.values| <= U32_MAX
    requires ScanOutcome(x, prefix, found)
    ensures Distinct(found) && forall m :: m in found <==> 0 <= m < |recs| && prefix <= recs[m].key
  {
    hide Completes, Gathered, HoldsValues;
    SafeViewIsClosed(x);
    var t, w := View(x), Walk(View(x), 0, prefix);
    if w.None? {
      NothingBelow(t, paths, prefix, recs);
    } else {
      var n: nat :| SearchOutcome(t, w.value, Room(|x.values|), n, found);
      WalkReachesItsPath(t, paths, prefix, w.value);
      TrieSearchFrom(t, paths, prefix, recs, w.value);
      OneOutcome(t, Loop([w.value], []), Room(|x.values|), n, |recs|, |t|);
    }
  }

  /** The scan of any accepted index on which it is safe. */
  method PrefixScan(x: RadixIndex, prefix: Bytes) returns (found: seq<nat>)
    requires SafeIndex(x) && ScanIsSafe(x, prefix)
    ensures ScanOutcome(x, prefix, found)
  {
    ghost var t := View(x);
    SafeViewIsClosed(x);
    var node: u32 := 0;
    for i := 0 to |prefix|
      invariant node < |x.nodes|
      invariant Walk(t, 0, prefix) == Walk(t, node, prefix[i..])
    {
      var next := FindChild(x, node, prefix[i]);
      assert prefix[i..][1..] == prefix[i + 1..];
      if next.None? {
        return [];
      }
      node := next.value;
    }
    assert prefix[|prefix|..] == [];
    ghost var n: nat :| Completes(t, Loop([node], []), Room(|x.values|), n);
    found := Descend(x, node, n);
    assert SearchOutcome(t, node, Room(|x.values|), n, found);
  }

  /** The loop over the two arrays computes what the search gathers. */
  method Descend(x: RadixIndex, start: nat, ghost n: nat) returns (found: seq<nat>)
    requires SafeIndex(x) && ChildrenInRange(View(x)) && start < |x.nodes|
    requires Completes(View(x), Loop([start], []), Room(|x.values|), n)
    ensures found == Gathered(View(x), Loop([start], []), n)
  {
    hide NodeSafe, ChildrenInRange, Step;
    ghost var t := View(x);
    HasNodes(x);
    var matches := new nat[Room(|x.values|)];
    var stack := new nat[|x.nodes|];
    var count, sp := 0, 1;
    stack[0] := start;
    ghost var k := n;
    assert stack[..sp] == [start] && matches[..count] == [];
    while sp > 0
      invariant 0 <= sp <= stack.Length && 0 <= count <= matches.Length
      invariant OnStack(t, stack[..sp]) && Completes(t, Loop(stack[..sp], matches[..count]), matches.Length, k)
      invariant Gathered(t, Loop(stack[..sp], matches[..count]), k) == Gathered(t, Loop([start], []), n)
      decreases k
    {
      sp, count := DescendOnce(x, stack, sp, matches, count, k);
      k := k - 1;
    }
    assert stack[..0] == [];
    return matches[..count];
  }

  lemma {:induction false} HasNodes(x: RadixIndex)
    requires SafeIndex(x)
    ensures |x.nodes| > 0
  {
  }

  /** One round on the arrays. */
  method DescendOnce(x: RadixIndex, stack: array<nat>, sp0: nat, matches: array<nat>, count0: nat, ghost k: nat)
    returns (sp: nat, count: nat)
    requires SafeIndex(x) && ChildrenInRange(View(x)) && stack != matches
    requires 0 < sp0 <= stack.Length == |x.nodes| && count0 <= matches.Length && OnStack(View(x), stack[..sp0])
    requires Completes(View(x), Loop(stack[..sp0], matches[..count0]), matches.Length, k)
    modifies stack, matches
    ensures k > 0 && sp <= stack.Length && count <= matches.Length
    ensures Loop(stack[..sp], matches[..count]) == Step(View(x), old(Loop(stack[..sp0], matches[..count0])))
  {
    hide NodeSafe, ChildrenInRange;
    ghost var t, l := View(x), Loop(stack[..sp0], matches[..count0]);
    var cur := stack[sp0 - 1];
    assert l.stack[sp0 - 1] == cur;
    ghost var next := Step(t, l);
    StepFits(t, l, matches.Length, k);
    assert l.stack[..sp0 - 1] == stack[..sp0 - 1];
    count := RecordMatch(matches, count0, x.nodes[cur].valueIndex);
    sp := PushKids(x, stack, sp0 - 1, cur);
    assert stack[..sp] == next.stack && matches[..count] == next.matches;
  }

  lemma {:induction false} StepFits(t: Trie, l: Loop, room: nat, k: nat)
    requires ChildrenInRange(t) && OnStack(t, l.stack) && l.stack != [] && Completes(t, l, room, k)
    ensures k > 0 && |Step(t, l).stack| <= |t| && |Step(t, l).matches| <= room
    ensures |l.stack| - 1 + |Kids(t, l.stack[|l.stack| - 1])| <= |t|
    ensures t[l.stack[|l.stack| - 1]].valueIndex != NO_VALUE ==> |l.matches| < room
  {
  }

  method RecordMatch(matches: array<nat>, count0: nat, valueIndex: u32) returns (count: nat)
    requires count0 <= matches.Length && (valueIndex != NO_VALUE ==> count0 < matches.Length)
    modifies matches
    ensures count <= matches.Length && matches[..count] == Collected(old(matches[..count0]), valueIndex)
  {
    count := count0;
    if valueIndex != NO_VALUE {
      matches[count] := valueIndex;
      count := count + 1;
      assert matches[..count] == old(matches[..count0]) + [valueIndex];
    }
  }

  method PushKids(x: RadixIndex, stack: array<nat>, sp0: nat, cur: nat) returns (sp: nat)
    requires SafeIndex(x) && cur < |x.nodes| && sp0 + |EdgesOf(x, cur)| <= stack.Length
    modifies stack
    ensures sp == sp0 + |EdgesOf(x, cur)| && stack[..sp] == old(stack[..sp0]) + Kids(View(x), cur)
  {
    sp := sp0;
    for j := 0 to x.nodes[cur].edgeCount
      invariant sp == sp0 + j
      invariant stack[..sp] == old(stack[..sp0]) + Kids(View(x), cur)[..j]
    {
      stack[sp] := x.edges[x.nodes[cur].firstEdge + j].child;
      sp := sp + 1;
      assert stack[..sp] == stack[..sp - 1] + [Kids(View(x), cur)[j]];
    }
    assert Kids(View(x), cur)[..|EdgesOf(x, cur)|] == Kids(View(x), cur);
  }
}
