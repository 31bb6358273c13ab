/** The lock protocol makes progress: a release frees the lock, no run gets stuck, and every append and every read
    can finish (src/core/fce_file.c lines 61-160, src/backends/fce_backend_log.c lines 97-175). */
module LockProgress {
  import opened Bytes
  import opened Records
  import opened Log
  import opened Locks

  // ---- A held lock has a holder ----

  /** Thread i holds the lock of process p, in the mode of its operation. */
  ghost predicate HeldBy(s: State, procs: Procs, p: nat, i: nat) {
    && i < |procs| == |s.pcs| && procs[i] == p && s.pcs[i].Holding() && Kind(s.pcs[i].op) == LockOf(s, p)
  }

  ghost predicate Held(s: State, procs: Procs) {
    && |s.pcs| == |procs|
    && forall p: nat :: LockOf(s, p) != Free ==> exists i :: HeldBy(s, procs, p, i)
  }

  lemma {:induction false} HeldKept(s: State, procs: Procs, step: Step, sum: Checksum)
    requires Held(s, procs) && Can(s, procs, step) && (step.Append? ==> s.pcs[step.i].Writer())
    ensures Held(Do(s, procs, step, sum), procs)
  {
    hide Held;
    var t := Do(s, procs, step, sum);
    StepKeepsSize(s, procs, step, sum);
    forall p: nat | LockOf(t, p) != Free ensures exists i :: HeldBy(t, procs, p, i) {
      if p == procs[step.i] && step.Lock? {
        assert HeldBy(t, procs, p, step.i);
      } else {
        OtherLocksStay(s, procs, step, sum, p);
        var i := HolderOf(s, procs, p);
        HolderStays(s, procs, step, sum, p, i);
      }
    }
    AllHeld(t, procs);
  }

  lemma {:induction false} StepKeepsSize(s: State, procs: Procs, step: Step, sum: Checksum)
    requires Can(s, procs, step) && (step.Append? ==> s.pcs[step.i].Writer())
    ensures |Do(s, procs, step, sum).pcs| == |procs|
  {
  }

  /** Only taking the lock and releasing it change it, and a release frees it. */
  lemma {:induction false} OtherLocksStay(s: State, procs: Procs, step: Step, sum: Checksum, p: nat)
    requires Can(s, procs, step) && (step.Append? ==> s.pcs[step.i].Writer())
    requires LockOf(Do(s, procs, step, sum), p) != Free && !(p == procs[step.i] && step.Lock?)
    ensures LockOf(s, p) == LockOf(Do(s, procs, step, sum), p) && !(p == procs[step.i] && step.Unlock?)
  {
  }

  lemma {:induction false} HolderOf(s: State, procs: Procs, p: nat) returns (i: nat)
    requires Held(s, procs) && LockOf(s, p) != Free
    ensures HeldBy(s, procs, p, i)
  {
    i :| HeldBy(s, procs, p, i);
  }

  lemma {:induction false} HolderStays(s: State, procs: Procs, step: Step, sum: Checksum, p: nat, i: nat)
    requires Can(s, procs, step) && (step.Append? ==> s.pcs[step.i].Writer()) && HeldBy(s, procs, p, i)
    requires LockOf(s, p) == LockOf(Do(s, procs, step, sum), p) && !(p == procs[step.i] && step.Unlock?)
    requires LockOf(s, p) != Free && !(p == procs[step.i] && step.Lock?)
    ensures HeldBy(Do(s, procs, step, sum), procs, p, i)
  {
  }

  lemma {:induction false} AllHeld(s: State, procs: Procs)
    requires |s.pcs| == |procs| && forall p: nat :: LockOf(s, p) != Free ==> exists i :: HeldBy(s, procs, p, i)
    ensures Held(s, procs)
  {
  }

  lemma {:induction false} RunHolds(run: seq<State>, procs: Procs, sum: Checksum, k: nat)
    requires Run(run, procs, sum) && k < |run|
    ensures Held(run[k], procs)
  {
    hide Can, Do, Held, Run;
    if k == 0 {
      NothingHeld(run, procs, sum);
    } else {
      RunHolds(run, procs, sum, k - 1);
      var step := StepTaken(run, procs, sum, k - 1);
      HeldKept(run[k - 1], procs, step, sum);
    }
  }

  lemma {:induction false} NothingHeld(run: seq<State>, procs: Procs, sum: Checksum)
    requires Run(run, procs, sum)
    ensures Held(run[0], procs)
  {
  }

  /** On every run: a lock that is not free belongs to a thread of its process that is inside, a shared one to a
      reader and an exclusive one to a writer. */
  lemma {:induction false} LocksHaveHolders(run: seq<State>, procs: Procs, sum: Checksum, k: nat, p: nat)
    requires Run(run, procs, sum) && k < |run| && LockOf(run[k], p) != Free
    ensures |run[k].pcs| == |procs|
    ensures exists i ::
      && 0 <= i < |procs| && procs[i] == p && run[k].pcs[i].Holding()
      && (run[k].pcs[i].Writer() <==> LockOf(run[k], p) == Exclusive)
  {
    hide Run, Held;
    RunHolds(run, procs, sum, k);
    RunSize(run, procs, sum, k);
    var i := HolderOf(run[k], procs, p);
    assert run[k].pcs[i].Holding() && procs[i] == p;
  }

  lemma {:induction false} RunSize(run: seq<State>, procs: Procs, sum: Checksum, k: nat)
    requires Run(run, procs, sum) && k < |run|
    ensures |run[k].pcs| == |procs|
  {
    hide Run;
    RunHolds(run, procs, sum, k);
  }

  // ---- No run gets stuck ----

  /** In every state of every run in which some thread is under way, some thread can go on. */
  lemma {:induction false} NoDeadlock(run: seq<State>, procs: Procs, sum: Checksum, k: nat, i: nat)
    requires Run(run, procs, sum) && k < |run| && i < |run[k].pcs| && run[k].pcs[i] != Idle
    ensures exists step :: Can(run[k], procs, step) && run[k].pcs[step.i] != Idle
  {
    RunKeeps(run, procs, sum, k);
    RunHolds(run, procs, sum, k);
    var s := run[k];
    if j :| 0 <= j < |s.pcs| && s.pcs[j] != Idle && !s.pcs[j].Entered? {
      var step := NextStep(s, procs, j);
    } else {
      assert forall q :: q in s.locks ==> LockOf(s, q) == Free;
      assert Can(s, procs, Lock(i));
    }
  }

  /** A thread past the file lock is never blocked. */
  lemma {:induction false} NextStep(s: State, procs: Procs, j: nat) returns (step: Step)
    requires Exclusion(s, procs) && j < |s.pcs| && s.pcs[j] != Idle && !s.pcs[j].Entered?
    ensures Can(s, procs, step) && s.pcs[step.i] != Idle
  {
    match s.pcs[j] {
      case Locked(op) => step := if op == Reading then Unlock(j) else Fetch(j);
      case Fetched(_, _) => step := Append(j);
      case Appended(_, _) => step := Sum(j);
      case Summed(_, _, _) => step := Save(j);
      case Saved(_) => step := Unlock(j);
      case Unlocked(_) => step := Leave(j);
    }
  }

  // ---- Schedules ----

  /** The state after these steps, if each is allowed when its turn comes. */
  ghost function Take(s: State, procs: Procs, steps: seq<Step>, sum: Checksum): Option<State>
    decreases |steps|
  {
    if steps == [] then Some(s)
    else if !(Can(s, procs, steps[0]) && (steps[0].Append? ==> s.pcs[steps[0].i].Writer())) then None
    else Take(Do(s, procs, steps[0], sum), procs, steps[1..], sum)
  }

  lemma {:induction false} TakeFirst(s: State, procs: Procs, first: Step, rest: seq<Step>, sum: Checksum)
    requires Can(s, procs, first) && (first.Append? ==> s.pcs[first.i].Writer())
    ensures Take(s, procs, [first] + rest, sum) == Take(Do(s, procs, first, sum), procs, rest, sum)
  {
    assert ([first] + rest)[1..] == rest;
  }

  /** Steps that are allowed extend a run. */
  lemma {:induction false} TakeExtends(run: seq<State>, procs: Procs, steps: seq<Step>, sum: Checksum)
    returns (longer: seq<State>)
    requires Run(run, procs, sum) && run != [] && Take(run[|run| - 1], procs, steps, sum).Some?
    ensures Run(longer, procs, sum) && run <= longer
    ensures longer[|longer| - 1] == Take(run[|run| - 1], procs, steps, sum).value
    decreases |steps|
  {
    hide Can, Do, Init;
    if steps == [] {
      longer := run;
    } else {
      var last := run[|run| - 1];
      var more := run + [Do(last, procs, steps[0], sum)];
      assert Moves(last, Do(last, procs, steps[0], sum), procs, sum);
      forall k | 0 <= k < |more| - 1 ensures Moves(more[k], more[k + 1], procs, sum) {
        if k < |run| - 1 {
          assert more[k] == run[k] && more[k + 1] == run[k + 1];
        }
      }
      longer := TakeExtends(more, procs, steps[1..], sum);
    }
  }

  ghost predicate AllIdle(s: State) {
    forall i :: 0 <= i < |s.pcs| ==> s.pcs[i] == Idle
  }

  ghost predicate AllFree(s: State) {
    forall p: nat :: LockOf(s, p) == Free
  }

  lemma {:induction false} IdleIsFree(s: State, procs: Procs)
    requires Held(s, procs) && AllIdle(s)
    ensures AllFree(s)
  {
    forall p: nat, i | 0 <= i < |procs| ensures !HeldBy(s, procs, p, i) {
    }
  }

  // ---- An append from beginning to end ----

  function AppendSteps(i: nat, p: Pair): seq<Step> {
    [Enter(i, Writing(p)), Lock(i), Fetch(i), Append(i), Sum(i), Save(i), Unlock(i), Leave(i)]
  }

  lemma {:induction false} AppendRuns(s: State, procs: Procs, sum: Checksum, i: nat, p: Pair)
    requires |s.pcs| == |procs| && i < |procs| && AllIdle(s) && AllFree(s)
    ensures Take(s, procs, AppendSteps(i, p), sum).Some?
    ensures var t := Take(s, procs, AppendSteps(i, p), sum).value;
      t.history == s.history + [p] && t.pcs == s.pcs
  {
    hide Can, Do, Take;
    var steps := AppendSteps(i, p);
    var mid := AppendStarts(s, procs, sum, i, p, steps[4..]);
    assert steps == [steps[0], steps[1], steps[2], steps[3]] + steps[4..];
    var end := AppendEnds(mid, procs, sum, i, p, []);
    assert steps[4..] == [steps[4], steps[5], steps[6], steps[7]] + [];
    TakeNothing(end, procs, sum);
    assert end.pcs == s.pcs[i := Idle] == s.pcs;
  }

  lemma {:induction false} TakeNothing(s: State, procs: Procs, sum: Checksum)
    ensures Take(s, procs, [], sum) == Some(s)
  {
  }

  lemma {:induction false} AppendStarts(s: State, procs: Procs, sum: Checksum, i: nat, p: Pair, rest: seq<Step>)
    returns (t: State)
    requires |s.pcs| == |procs| && i < |procs| && AllIdle(s) && AllFree(s)
    ensures Take(s, procs, [Enter(i, Writing(p)), Lock(i), Fetch(i), Append(i)] + rest, sum)
      == Take(t, procs, rest, sum)
    ensures t.pcs == s.pcs[i := Appended(Writing(p), s.manifest)] && t.history == s.history + [p]
  {
    hide Take;
    var s1 := Do(s, procs, Enter(i, Writing(p)), sum);
    assert MayLock(s1, procs[i], Writing(p)) by {
      assert forall q :: q in s1.locks ==> LockOf(s, q) == Free;
    }
    var s2 := Do(s1, procs, Lock(i), sum);
    var s3 := Do(s2, procs, Fetch(i), sum);
    t := Do(s3, procs, Append(i), sum);
    TakeFour(s, s1, s2, s3, t, procs, Enter(i, Writing(p)), Lock(i), Fetch(i), Append(i), rest, sum);
    assert t.pcs == s.pcs[i := Appended(Writing(p), s.manifest)];
  }

  lemma {:induction false} AppendEnds(s: State, procs: Procs, sum: Checksum, i: nat, p: Pair, rest: seq<Step>)
    returns (t: State)
    requires |s.pcs| == |procs| && i < |procs| && s.pcs[i].Appended? && s.pcs[i].op == Writing(p)
    ensures Take(s, procs, [Sum(i), Save(i), Unlock(i), Leave(i)] + rest, sum) == Take(t, procs, rest, sum)
    ensures t.pcs == s.pcs[i := Idle] && t.history == s.history
  {
    hide Take;
    var s1 := Do(s, procs, Sum(i), sum);
    var s2 := Do(s1, procs, Save(i), sum);
    var s3 := Do(s2, procs, Unlock(i), sum);
    t := Do(s3, procs, Leave(i), sum);
    TakeFour(s, s1, s2, s3, t, procs, Sum(i), Save(i), Unlock(i), Leave(i), rest, sum);
    assert t.pcs == s.pcs[i := Idle];
  }

  lemma {:induction false} TakeFour(s: State, s1: State, s2: State, s3: State, s4: State, procs: Procs, a: Step,
                                    b: Step, c: Step, d: Step, rest: seq<Step>, sum: Checksum)
    requires Can(s, procs, a) && (a.Append? ==> s.pcs[a.i].Writer()) && s1 == Do(s, procs, a, sum)
    requires Can(s1, procs, b) && (b.Append? ==> s1.pcs[b.i].Writer()) && s2 == Do(s1, procs, b, sum)
    requires Can(s2, procs, c) && (c.Append? ==> s2.pcs[c.i].Writer()) && s3 == Do(s2, procs, c, sum)
    requires Can(s3, procs, d) && (d.Append? ==> s3.pcs[d.i].Writer()) && s4 == Do(s3, procs, d, sum)
    ensures Take(s, procs, [a, b, c, d] + rest, sum) == Take(s4, procs, rest, sum)
  {
    hide Can, Do, Take;
    TakeFirst(s, procs, a, [b, c, d] + rest, sum);
    TakeFirst(s1, procs, b, [c, d] + rest, sum);
    TakeFirst(s2, procs, c, [d] + rest, sum);
    TakeFirst(s3, procs, d, rest, sum);
    assert [a, b, c, d] + rest == [a] + ([b, c, d] + rest);
    assert [b, c, d] + rest == [b] + ([c, d] + rest);
    assert [c, d] + rest == [c] + ([d] + rest);
  }

  /** From every state of a run in which all threads are idle, any thread of any process can append any record, each
      step allowed in its turn. Then all are idle again, every lock is free, the record is the newest of the history,
      and log and manifest are those of one freeze of it. */
  lemma {:induction false} AppendCompletes(run: seq<State>, procs: Procs, sum: Checksum, i: nat, p: Pair)
    returns (longer: seq<State>)
    requires Run(run, procs, sum) && run != [] && AllIdle(run[|run| - 1]) && i < |procs|
    ensures Run(longer, procs, sum) && run <= longer
    ensures Take(run[|run| - 1], procs, AppendSteps(i, p), sum) == Some(longer[|longer| - 1])
    ensures var t := longer[|longer| - 1];
      AllIdle(t) && AllFree(t) && t.history == run[|run| - 1].history + [p] && Settled(t, sum)
  {
    hide Can, Do, Run, Take, AppendSteps, Recorded, Exclusion, Held, AllIdle, AllFree, Settled;
    var last := run[|run| - 1];
    RunHolds(run, procs, sum, |run| - 1);
    IdleIsFree(last, procs);
    RunSize(run, procs, sum, |run| - 1);
    AppendRuns(last, procs, sum, i, p);
    SameThreads(last, Take(last, procs, AppendSteps(i, p), sum).value);
    longer := TakeExtends(run, procs, AppendSteps(i, p), sum);
    FinishedRun(longer, procs, sum);
  }

  lemma {:induction false} SameThreads(s: State, t: State)
    requires AllIdle(s) && t.pcs == s.pcs
    ensures AllIdle(t)
  {
  }

  lemma {:induction false} FinishedRun(run: seq<State>, procs: Procs, sum: Checksum)
    requires Run(run, procs, sum) && run != [] && AllIdle(run[|run| - 1])
    ensures AllFree(run[|run| - 1]) && Settled(run[|run| - 1], sum)
  {
    hide Run, Can, Do, Settled;
    var k := |run| - 1;
    RunHolds(run, procs, sum, k);
    RunKeeps(run, procs, sum, k);
    IdleIsFree(run[k], procs);
  }

  function RefusedSteps(i: nat, p: Pair): seq<Step> {
    [Enter(i, Writing(p)), Lock(i), Fetch(i), Unlock(i), Leave(i)]
  }

  /** An append that is refused can leave again, and everything is as it was. */
  lemma {:induction false} RefusedAppendLeaves(run: seq<State>, procs: Procs, sum: Checksum, k: nat, i: nat, p: Pair)
    requires Run(run, procs, sum) && k < |run| && AllIdle(run[k]) && i < |procs|
    ensures Take(run[k], procs, RefusedSteps(i, p), sum).Some?
    ensures var t := Take(run[k], procs, RefusedSteps(i, p), sum).value;
      && t.pcs == run[k].pcs && t.log == run[k].log && t.manifest == run[k].manifest && t.history == run[k].history
      && AllFree(t)
  {
    hide Take, Run;
    var s, steps := run[k], RefusedSteps(i, p);
    RunHolds(run, procs, sum, k);
    IdleIsFree(s, procs);
    var s1 := Do(s, procs, steps[0], sum);
    assert MayLock(s1, procs[i], Writing(p)) by {
      assert forall q :: q in s1.locks ==> LockOf(s, q) == Free;
    }
    var s2 := Do(s1, procs, steps[1], sum);
    var s3 := Do(s2, procs, steps[2], sum);
    var s4 := Do(s3, procs, steps[3], sum);
    TakeFour(s, s1, s2, s3, s4, procs, steps[0], steps[1], steps[2], steps[3], [Leave(i)], sum);
    assert steps == [steps[0], steps[1], steps[2], steps[3]] + [Leave(i)];
    var t := Do(s4, procs, Leave(i), sum);
    TakeFirst(s4, procs, Leave(i), [], sum);
    assert [Leave(i)] + [] == [Leave(i)];
    TakeNothing(t, procs, sum);
    assert t.pcs == s.pcs;
  }

  // ---- Readers share ----

  ghost predicate NoWriter(s: State) {
    forall i :: 0 <= i < |s.pcs| ==> !s.pcs[i].Writer()
  }

  function ReadSteps(i: nat): seq<Step> {
    [Enter(i, Reading), Lock(i), Unlock(i), Leave(i)]
  }

  /** In every state of a run without a writer, however many readers are inside, any idle thread can enter, lock,
      unlock and leave, and the files and the history stay as they are. */
  lemma {:induction false} ReadersShare(run: seq<State>, procs: Procs, sum: Checksum, k: nat, i: nat)
    requires Run(run, procs, sum) && k < |run| && i < |procs| == |run[k].pcs|
    requires NoWriter(run[k]) && run[k].pcs[i] == Idle
    ensures Take(run[k], procs, ReadSteps(i), sum).Some?
    ensures var t := Take(run[k], procs, ReadSteps(i), sum).value;
      t.pcs == run[k].pcs && t.log == run[k].log && t.manifest == run[k].manifest && t.history == run[k].history
  {
    var s, steps := run[k], ReadSteps(i);
    RunHolds(run, procs, sum, k);
    var s1 := Do(s, procs, steps[0], sum);
    assert MayLock(s1, procs[i], Reading) by {
      forall q | q in s1.locks && q != procs[i] ensures s1.locks[q] != Exclusive {
        if LockOf(s, q) != Free {
          var j :| HeldBy(s, procs, q, j);
        }
      }
    }
    var s2 := Do(s1, procs, steps[1], sum);
    var s3 := Do(s2, procs, steps[2], sum);
    var s4 := Do(s3, procs, steps[3], sum);
    TakeFour(s, s1, s2, s3, s4, procs, steps[0], steps[1], steps[2], steps[3], [], sum);
    assert steps == [steps[0], steps[1], steps[2], steps[3]] + [];
    assert s4.pcs == s.pcs;
  }
}
