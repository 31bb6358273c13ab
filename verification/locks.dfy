/** The cache lock and concurrent appends as a protocol over its steps: cache_lock_acquire_impl and
    fce_cache_lock_release of src/core/fce_file.c, and fce_log_append of src/backends/fce_backend_log.c.
    Every process has one read-write lock for its threads; the lock file carries one POSIX record lock
    per process, which any release in that process drops. */
module Locks {
  import opened Bytes
  import opened Records
  import opened Log
  import opened LogCache

  datatype Op = Reading | Writing(p: Pair)

  /** The fields of the manifest that an append carries from its read to its write. */
  datatype LogManifest = LogManifest(count: nat, size: nat, crc: u64)

  /** How far a thread has come. */
  datatype Pc =
    | Idle
    | Entered(op: Op)                     // holds the process lock
    | Locked(op: Op)                      // holds the file lock too
    | Fetched(op: Op, m: LogManifest)     // has read the manifest
    | Appended(op: Op, m: LogManifest)    // has appended its record
    | Summed(op: Op, m: LogManifest, crc: u64)  // has summed the log file
    | Saved(op: Op)                       // has written the manifest
    | Unlocked(op: Op)                    // has dropped the file lock
  {
    predicate Writer() { !Idle? && op.Writing? }
    predicate Holding() { !Idle? && !Entered? && !Unlocked? }
    /** Log and manifest differ. */
    predicate Mid() { Appended? || Summed? }
  }

  datatype FileLock = Free | Shared | Exclusive

  /** Threads, record locks by process, the two files, and every append so far. */
  datatype State = State(pcs: seq<Pc>, locks: map<nat, FileLock>, log: Bytes, manifest: LogManifest, history: seq<Pair>)

  datatype Step =
    | Enter(i: nat, op: Op)
    | Lock(i: nat)
    | Fetch(i: nat)
    | Append(i: nat)
    | Sum(i: nat)
    | Save(i: nat)
    | Unlock(i: nat)
    | Leave(i: nat)

  /** Thread i runs in process procs[i]. */
  type Procs = seq<nat>

  function LockOf(s: State, p: nat): FileLock {
    if p in s.locks then s.locks[p] else Free
  }

  function Kind(op: Op): FileLock {
    if op == Reading then Shared else Exclusive
  }

  predicate Conflict(a: FileLock, b: FileLock) {
    (a == Exclusive && b != Free) || (b == Exclusive && a != Free)
  }

  /** pthread_rwlock: a writer alone, or readers only, per process. */
  predicate MayEnter(s: State, procs: Procs, i: nat, op: Op)
    requires |s.pcs| == |procs| && i < |procs|
  {
    forall j :: 0 <= j < |procs| && j != i && procs[j] == procs[i] && s.pcs[j] != Idle ==>
      op == Reading && !s.pcs[j].Writer()
  }

  /** fcntl F_SETLKW: granted when no other process holds a conflicting lock. */
  predicate MayLock(s: State, p: nat, op: Op) {
    forall q :: q in s.locks && q != p ==> !Conflict(Kind(op), s.locks[q])
  }

  /** An append whose manifest or record is refused unlocks straight from Fetched. */
  predicate Can(s: State, procs: Procs, step: Step) {
    && |s.pcs| == |procs| && step.i < |procs|
    && var pc := s.pcs[step.i];
    match step
    case Enter(i, op) => pc == Idle && MayEnter(s, procs, i, op)
    case Lock(i) => pc.Entered? && MayLock(s, procs[i], pc.op)
    case Fetch(_) => pc.Locked? && pc.Writer()
    case Append(_) => pc.Fetched?
    case Sum(_) => pc.Appended?
    case Save(_) => pc.Summed?
    case Unlock(_) => pc.Saved? || pc.Fetched? || (pc.Locked? && !pc.Writer())
    case Leave(_) => pc.Unlocked?
  }

  function Do(s: State, procs: Procs, step: Step, sum: Checksum): State
    requires Can(s, procs, step) && (step.Append? ==> s.pcs[step.i].Writer())
  {
    var i := step.i;
    var pc := s.pcs[i];
    match step
    case Enter(_, op) => s.(pcs := s.pcs[i := Entered(op)])
    case Lock(_) => s.(pcs := s.pcs[i := Locked(pc.op)], locks := s.locks[procs[i] := Kind(pc.op)])
    case Fetch(_) => s.(pcs := s.pcs[i := Fetched(pc.op, s.manifest)])
    case Append(_) =>
      s.(pcs := s.pcs[i := Appended(pc.op, pc.m)], log := s.log + RecordBytes(pc.op.p, sum),
        history := s.history + [pc.op.p])
    case Sum(_) => s.(pcs := s.pcs[i := Summed(pc.op, pc.m, sum(s.log))])
    case Save(_) =>
      var grown := if pc.Writer() then 32 + |pc.op.p.key| + |pc.op.p.value| else 0;
      s.(pcs := s.pcs[i := Saved(pc.op)], manifest := LogManifest(pc.m.count + 1, pc.m.size + grown, pc.crc))
    case Unlock(_) => s.(pcs := s.pcs[i := Unlocked(pc.op)], locks := s.locks[procs[i] := Free])
    case Leave(_) => s.(pcs := s.pcs[i := Idle])
  }

  // ---- Mutual exclusion of writers ----

  /** A writer in a process has it to itself. */
  ghost predicate ProcessExclusive(s: State, procs: Procs) {
    && |s.pcs| == |procs|
    && forall i, j :: 0 <= i < |procs| && 0 <= j < |procs| && i != j && procs[i] == procs[j] && s.pcs[i].Writer() ==>
      s.pcs[j] == Idle
  }

  /** A writer past the file lock owns it. */
  ghost predicate WriterOwns(s: State, procs: Procs) {
    && |s.pcs| == |procs|
    && forall i :: 0 <= i < |procs| && s.pcs[i].Writer() && s.pcs[i].Holding() ==> LockOf(s, procs[i]) == Exclusive
  }

  ghost predicate LocksAgree(s: State) {
    forall p, q :: p in s.locks && q in s.locks && p != q ==> !Conflict(s.locks[p], s.locks[q])
  }

  /** Only writers go past the shared part of the protocol. */
  ghost predicate OnlyWritersWrite(s: State) {
    forall i :: 0 <= i < |s.pcs| && (s.pcs[i].Fetched? || s.pcs[i].Mid() || s.pcs[i].Saved?) ==> s.pcs[i].Writer()
  }

  ghost predicate Exclusion(s: State, procs: Procs) {
    ProcessExclusive(s, procs) && WriterOwns(s, procs) && LocksAgree(s) && OnlyWritersWrite(s)
  }

  lemma {:induction false} ExclusionKept(s: State, procs: Procs, step: Step, sum: Checksum)
    requires Exclusion(s, procs) && Can(s, procs, step)
    ensures step.Append? ==> s.pcs[step.i].Writer()
    ensures Exclusion(Do(s, procs, step, sum), procs)
  {
    OnlyWritersKept(s, procs, step, sum);
    ProcessExclusiveKept(s, procs, step, sum);
    WriterOwnsKept(s, procs, step, sum);
    LocksAgreeKept(s, procs, step, sum);
    hide RecordBytes, LogBytes, Do, Can, ProcessExclusive, WriterOwns, LocksAgree, OnlyWritersWrite;
  }

  lemma {:induction false} OnlyWritersKept(s: State, procs: Procs, step: Step, sum: Checksum)
    requires Exclusion(s, procs) && Can(s, procs, step)
    ensures step.Append? ==> s.pcs[step.i].Writer()
    ensures OnlyWritersWrite(Do(s, procs, step, sum))
  {
    hide RecordBytes, LogBytes, ProcessExclusive, LocksAgree;
  }

  lemma {:induction false} ProcessExclusiveKept(s: State, procs: Procs, step: Step, sum: Checksum)
    requires Exclusion(s, procs) && Can(s, procs, step) && (step.Append? ==> s.pcs[step.i].Writer())
    ensures ProcessExclusive(Do(s, procs, step, sum), procs)
  {
    hide RecordBytes, LogBytes, WriterOwns, LocksAgree, OnlyWritersWrite;
    var t := Do(s, procs, step, sum);
    var i := step.i;
    assert forall j :: 0 <= j < |procs| && j != i ==> t.pcs[j] == s.pcs[j];
  }

  lemma {:induction false} WriterOwnsKept(s: State, procs: Procs, step: Step, sum: Checksum)
    requires Exclusion(s, procs) && Can(s, procs, step) && (step.Append? ==> s.pcs[step.i].Writer())
    ensures WriterOwns(Do(s, procs, step, sum), procs)
  {
    hide RecordBytes, LogBytes, LocksAgree, OnlyWritersWrite;
    var t := Do(s, procs, step, sum);
    var i := step.i;
    assert forall j :: 0 <= j < |procs| && j != i ==> t.pcs[j] == s.pcs[j];
  }

  lemma {:induction false} LocksAgreeKept(s: State, procs: Procs, step: Step, sum: Checksum)
    requires Exclusion(s, procs) && Can(s, procs, step) && (step.Append? ==> s.pcs[step.i].Writer())
    ensures LocksAgree(Do(s, procs, step, sum))
  {
    hide RecordBytes, LogBytes, ProcessExclusive, WriterOwns, OnlyWritersWrite;
  }

  /** No two writers are ever inside together, in one process or in several. */
  lemma {:induction false} WritersExclude(s: State, procs: Procs, i: nat, j: nat)
    requires Exclusion(s, procs) && i < |procs| && j < |procs| && i != j
    ensures !(s.pcs[i].Writer() && s.pcs[i].Holding() && s.pcs[j].Writer() && s.pcs[j].Holding())
  {
  }

  ghost predicate OneWriter(s: State) {
    forall i, j :: 0 <= i < |s.pcs| && 0 <= j < |s.pcs| && i != j ==>
      !(s.pcs[i].Writer() && s.pcs[i].Holding() && s.pcs[j].Writer() && s.pcs[j].Holding())
  }

  // ---- The manifest matches the log ----

  function FilesOf(s: State): LogFiles {
    LogFiles(s.log, s.manifest.count, s.manifest.size, s.manifest.crc)
  }

  /** Log and manifest are those of one freeze of the whole history. */
  ghost predicate Settled(s: State, sum: Checksum) {
    FilesOf(s) == LogImage(s.history, sum)
  }

  /** What an append in flight knows: its record is the newest, and its manifest counts all others. */
  ghost predicate InFlight(s: State, pc: Pc, sum: Checksum)
    requires pc.Mid()
  {
    && s.history != [] && pc.op.Writing? && pc.op.p == s.history[|s.history| - 1]
    && var before := s.history[..|s.history| - 1];
    && pc.m.count == |before| && pc.m.size == |LogBytes(before, sum)|
    && (pc.Summed? ==> pc.crc == sum(s.log))
  }

  ghost predicate NobodyMid(s: State) {
    forall i :: 0 <= i < |s.pcs| ==> !s.pcs[i].Mid()
  }

  ghost predicate Recorded(s: State, sum: Checksum) {
    && s.log == LogBytes(s.history, sum)
    && (NobodyMid(s) ==> Settled(s, sum))
    && (forall i :: 0 <= i < |s.pcs| && s.pcs[i].Fetched? ==> s.pcs[i].m == s.manifest)
    && (forall i :: 0 <= i < |s.pcs| && s.pcs[i].Mid() ==> InFlight(s, s.pcs[i], sum))
  }

  /** A thread that has the file lock for writing is the only one in flight. */
  lemma {:induction false} OnlyOneInFlight(s: State, procs: Procs, i: nat)
    requires Exclusion(s, procs) && i < |procs| && s.pcs[i].Writer() && s.pcs[i].Holding()
    ensures forall j :: 0 <= j < |procs| && j != i ==> !(s.pcs[j].Writer() && s.pcs[j].Holding())
    ensures forall j :: 0 <= j < |procs| && j != i ==> !s.pcs[j].Fetched? && !s.pcs[j].Mid() && !s.pcs[j].Saved?
  {
    forall j | 0 <= j < |procs| && j != i ensures !(s.pcs[j].Writer() && s.pcs[j].Holding()) {
      WritersExclude(s, procs, i, j);
    }
  }

  lemma {:induction false} RecordedKept(s: State, procs: Procs, step: Step, sum: Checksum)
    requires Exclusion(s, procs) && Recorded(s, sum) && Can(s, procs, step)
    ensures step.Append? ==> s.pcs[step.i].Writer()
    ensures Recorded(Do(s, procs, step, sum), sum)
  {
    var i, t := step.i, Do(s, procs, step, sum);
    if step.Append? {
      OnlyOneInFlight(s, procs, i);
      AppendRecords(s, t, i, sum);
    } else if step.Sum? {
      SumKeeps(s, t, i, sum);
    } else if step.Save? {
      OnlyOneInFlight(s, procs, i);
      SaveSettles(s, t, i, sum);
    } else {
      QuietStep(s, t, i, sum);
    }
  }

  lemma {:induction false} SumKeeps(s: State, t: State, i: nat, sum: Checksum)
    requires Recorded(s, sum) && i < |s.pcs| && s.pcs[i].Appended?
    requires t == s.(pcs := s.pcs[i := Summed(s.pcs[i].op, s.pcs[i].m, sum(s.log))])
    ensures Recorded(t, sum)
  {
    assert t.pcs[i].Mid();
    assert InFlight(s, s.pcs[i], sum);
  }

  /** A step that touches neither file and neither starts nor ends an append. */
  lemma {:induction false} QuietStep(s: State, t: State, i: nat, sum: Checksum)
    requires Recorded(s, sum) && i < |s.pcs| == |t.pcs|
    requires forall j :: 0 <= j < |s.pcs| && j != i ==> t.pcs[j] == s.pcs[j]
    requires t.log == s.log && t.manifest == s.manifest && t.history == s.history
    requires !s.pcs[i].Mid() && !t.pcs[i].Mid() && (t.pcs[i].Fetched? ==> t.pcs[i].m == t.manifest)
    ensures Recorded(t, sum)
  {
    if NobodyMid(t) {
      assert NobodyMid(s);
    }
  }

  lemma {:induction false} AppendRecords(s: State, t: State, i: nat, sum: Checksum)
    requires Recorded(s, sum) && i < |s.pcs| && s.pcs[i].Fetched? && s.pcs[i].Writer()
    requires forall j :: 0 <= j < |s.pcs| && j != i ==> !s.pcs[j].Fetched? && !s.pcs[j].Mid()
    requires t.pcs == s.pcs[i := Appended(s.pcs[i].op, s.pcs[i].m)] && t.manifest == s.manifest
    requires t.log == s.log + RecordBytes(s.pcs[i].op.p, sum) && t.history == s.history + [s.pcs[i].op.p]
    ensures Recorded(t, sum)
  {
    LogAppend(s.history, s.pcs[i].op.p, sum);
    assert NobodyMid(s);
    assert t.history[..|t.history| - 1] == s.history;
    assert t.pcs[i].Mid();
  }

  lemma {:induction false} SaveSettles(s: State, t: State, i: nat, sum: Checksum)
    requires Recorded(s, sum) && i < |s.pcs| && s.pcs[i].Summed? && s.pcs[i].op.Writing?
    requires forall j :: 0 <= j < |s.pcs| && j != i ==> !s.pcs[j].Fetched? && !s.pcs[j].Mid()
    requires t.pcs == s.pcs[i := Saved(s.pcs[i].op)] && t.log == s.log && t.history == s.history
    requires var pc := s.pcs[i];
             t.manifest == LogManifest(pc.m.count + 1, pc.m.size + 32 + |pc.op.p.key| + |pc.op.p.value|, pc.crc)
    ensures Recorded(t, sum)
  {
    hide LogBytes, RecordBytes;
    assert InFlight(s, s.pcs[i], sum);
    var before := s.history[..|s.history| - 1];
    assert s.history == before + [s.pcs[i].op.p];
    LogSizeGrows(before, s.pcs[i].op.p, sum);
  }

  lemma {:induction false} LogSizeGrows(recs: seq<Pair>, p: Pair, sum: Checksum)
    ensures |LogBytes(recs + [p], sum)| == |LogBytes(recs, sum)| + 32 + |p.key| + |p.value|
  {
    LogAppend(recs, p, sum);
  }

  // ---- Runs ----

  /** Everyone idle, no file lock, a log frozen from some records. */
  ghost predicate Init(s: State, procs: Procs, sum: Checksum) {
    && |s.pcs| == |procs| && (forall i :: 0 <= i < |s.pcs| ==> s.pcs[i] == Idle)
    && s.locks == map[] && Settled(s, sum)
  }

  ghost predicate Moves(s: State, t: State, procs: Procs, sum: Checksum) {
    exists step :: Can(s, procs, step) && (step.Append? ==> s.pcs[step.i].Writer()) && t == Do(s, procs, step, sum)
  }

  /** Any interleaving of any number of threads and processes. */
  ghost predicate Run(run: seq<State>, procs: Procs, sum: Checksum) {
    && run != [] && Init(run[0], procs, sum)
    && forall k :: 0 <= k < |run| - 1 ==> Moves(run[k], run[k + 1], procs, sum)
  }

  lemma {:induction false} StepTaken(run: seq<State>, procs: Procs, sum: Checksum, k: nat) returns (step: Step)
    requires Run(run, procs, sum) && k + 1 < |run|
    ensures Can(run[k], procs, step) && (step.Append? ==> run[k].pcs[step.i].Writer())
      && run[k + 1] == Do(run[k], procs, step, sum)
  {
    assert Moves(run[k], run[k + 1], procs, sum);
    step :| Can(run[k], procs, step) && (step.Append? ==> run[k].pcs[step.i].Writer())
      && run[k + 1] == Do(run[k], procs, step, sum);
  }

  lemma {:induction false} InitIsKept(s: State, procs: Procs, sum: Checksum)
    requires Init(s, procs, sum)
    ensures Exclusion(s, procs) && Recorded(s, sum)
  {
    hide LogBytes, RecordBytes;
  }

  lemma {:induction false} RunKeeps(run: seq<State>, procs: Procs, sum: Checksum, k: nat)
    requires Run(run, procs, sum) && k < |run|
    ensures Exclusion(run[k], procs) && Recorded(run[k], sum)
  {
    hide Exclusion, Recorded, Can, Do, Init;
    if k == 0 {
      InitIsKept(run[0], procs, sum);
    } else {
      RunKeeps(run, procs, sum, k - 1);
      var step := StepTaken(run, procs, sum, k - 1);
      ExclusionKept(run[k - 1], procs, step, sum);
      RecordedKept(run[k - 1], procs, step, sum);
    }
  }

  /** Over every run: no two writers are inside together, and whenever no append is between its write to
      the log and its write to the manifest, log, count, size and checksum are those of one freeze of all
      records appended so far. */
  lemma {:induction false} AppendsLoseNothing(run: seq<State>, procs: Procs, sum: Checksum, k: nat)
    requires Run(run, procs, sum) && k < |run|
    ensures OneWriter(run[k])
    ensures NobodyMid(run[k]) ==> Settled(run[k], sum)
    ensures run[0].history <= run[k].history
  {
    RunKeeps(run, procs, sum, k);
    var s := run[k];
    forall i, j | 0 <= i < |procs| && 0 <= j < |procs| && i != j
      ensures !(s.pcs[i].Writer() && s.pcs[i].Holding() && s.pcs[j].Writer() && s.pcs[j].Holding())
    {
      WritersExclude(s, procs, i, j);
    }
    HistoryGrows(run, procs, sum, 0, k);
  }

  /** An append that has reached the log stays there. */
  lemma {:induction false} StepGrows(s: State, procs: Procs, step: Step, sum: Checksum)
    requires Can(s, procs, step) && (step.Append? ==> s.pcs[step.i].Writer())
    ensures s.history <= Do(s, procs, step, sum).history
  {
    hide Can;
  }

  lemma {:induction false} HistoryGrows(run: seq<State>, procs: Procs, sum: Checksum, j: nat, k: nat)
    requires Run(run, procs, sum) && j <= k < |run|
    ensures run[j].history <= run[k].history
  {
    hide Run, Can, Do;
    if j < k {
      HistoryGrows(run, procs, sum, j, k - 1);
      var step := StepTaken(run, procs, sum, k - 1);
      StepGrows(run[k - 1], procs, step, sum);
    }
  }

  /** An append that has reached the log is in every later log. */
  lemma {:induction false} AppendedStays(run: seq<State>, procs: Procs, sum: Checksum, j: nat, k: nat, i: nat)
    requires Run(run, procs, sum) && j <= k < |run| && i < |run[j].pcs| && run[j].pcs[i].Mid()
    ensures run[j].pcs[i].op.Writing? && run[j].pcs[i].op.p in run[k].history
  {
    RunKeeps(run, procs, sum, j);
    assert InFlight(run[j], run[j].pcs[i], sum);
    HistoryGrows(run, procs, sum, j, k);
    var n := |run[j].history| - 1;
    assert run[k].history[n] == run[j].history[n];
  }

  // ---- Readers and writers ----

  predicate ReaderHolds(pc: Pc) {
    pc.Holding() && !pc.Writer()
  }

  /** No reader is inside together with a writer. */
  ghost predicate ReadersExcluded(s: State) {
    forall i, j :: 0 <= i < |s.pcs| && 0 <= j < |s.pcs| ==>
      !(ReaderHolds(s.pcs[i]) && s.pcs[j].Writer() && s.pcs[j].Holding())
  }

  /** At most one shared holder per process. */
  ghost predicate LoneReaders(s: State, procs: Procs) {
    && |s.pcs| == |procs|
    && forall i, j :: 0 <= i < |procs| && 0 <= j < |procs| && i != j && procs[i] == procs[j] ==>
         !(ReaderHolds(s.pcs[i]) && ReaderHolds(s.pcs[j]))
  }

  ghost predicate ReaderOwns(s: State, procs: Procs) {
    && |s.pcs| == |procs|
    && forall i :: 0 <= i < |procs| && ReaderHolds(s.pcs[i]) ==> LockOf(s, procs[i]) == Shared
  }

  lemma {:induction false} ReaderOwnsKept(s: State, procs: Procs, step: Step, sum: Checksum)
    requires Exclusion(s, procs) && ReaderOwns(s, procs) && LoneReaders(s, procs) && Can(s, procs, step)
    ensures step.Append? ==> s.pcs[step.i].Writer()
    ensures ReaderOwns(Do(s, procs, step, sum), procs)
  {
    var t := Do(s, procs, step, sum);
    var i := step.i;
    assert forall j :: 0 <= j < |procs| && j != i ==> t.pcs[j] == s.pcs[j];
  }

  lemma {:induction false} OwnersExclude(s: State, procs: Procs)
    requires Exclusion(s, procs) && ReaderOwns(s, procs)
    ensures ReadersExcluded(s)
  {
  }

  /** While no process has two shared holders at once, readers and writers exclude each other, and a
      reader sees a log and a manifest that belong together. */
  lemma {:induction false} LoneReadersAreSafe(run: seq<State>, procs: Procs, sum: Checksum, k: nat)
    requires Run(run, procs, sum) && k < |run|
    requires forall j :: 0 <= j < k ==> LoneReaders(run[j], procs)
    ensures ReadersExcluded(run[k])
    ensures (exists i :: 0 <= i < |run[k].pcs| && ReaderHolds(run[k].pcs[i])) ==> Settled(run[k], sum)
  {
    RunKeeps(run, procs, sum, k);
    ReadersKeepTheirLock(run, procs, sum, k);
    OwnersExclude(run[k], procs);
    ReadersSeeSettled(run[k], procs, sum);
  }

  lemma {:induction false} ReadersKeepTheirLock(run: seq<State>, procs: Procs, sum: Checksum, k: nat)
    requires Run(run, procs, sum) && k < |run|
    requires forall j :: 0 <= j < k ==> LoneReaders(run[j], procs)
    ensures ReaderOwns(run[k], procs)
  {
    if k > 0 {
      ReadersKeepTheirLock(run, procs, sum, k - 1);
      RunKeeps(run, procs, sum, k - 1);
      var step := StepTaken(run, procs, sum, k - 1);
      ReaderOwnsKept(run[k - 1], procs, step, sum);
    }
  }

  lemma {:induction false} ReadersSeeSettled(s: State, procs: Procs, sum: Checksum)
    requires Exclusion(s, procs) && Recorded(s, sum) && ReadersExcluded(s)
    ensures (exists i :: 0 <= i < |s.pcs| && ReaderHolds(s.pcs[i])) ==> Settled(s, sum)
  {
    if i :| 0 <= i < |s.pcs| && ReaderHolds(s.pcs[i]) {
      assert forall j :: 0 <= j < |s.pcs| && s.pcs[j].Mid() ==> s.pcs[j].Writer() && s.pcs[j].Holding();
    }
  }

  /** Either all threads share one process, or no two do. */
  ghost predicate OneOrSeparate(procs: Procs) {
    || (forall i, j :: 0 <= i < |procs| && 0 <= j < |procs| ==> procs[i] == procs[j])
    || (forall i, j :: 0 <= i < |procs| && 0 <= j < |procs| && i != j ==> procs[i] != procs[j])
  }

  lemma {:induction false} SafeArrangement(run: seq<State>, procs: Procs, sum: Checksum, k: nat)
    requires Run(run, procs, sum) && k < |run| && OneOrSeparate(procs)
    ensures ReadersExcluded(run[k])
  {
    RunKeeps(run, procs, sum, k);
    if forall i, j :: 0 <= i < |procs| && 0 <= j < |procs| && i != j ==> procs[i] != procs[j] {
      forall j | 0 <= j < k ensures LoneReaders(run[j], procs) {
        RunKeeps(run, procs, sum, j);
      }
      LoneReadersAreSafe(run, procs, sum, k);
    }
  }

  lemma {:induction false} ExtendRun(run: seq<State>, procs: Procs, sum: Checksum, step: Step)
    returns (longer: seq<State>)
    requires Run(run, procs, sum) && Can(run[|run| - 1], procs, step) && !step.Append?
    ensures Run(longer, procs, sum) && longer != [] && longer[|longer| - 1] == Do(run[|run| - 1], procs, step, sum)
  {
    var last := run[|run| - 1];
    longer := run + [Do(last, procs, step, sum)];
    assert Moves(last, Do(last, procs, step, sum), procs, sum);
    forall k | 0 <= k < |longer| - 1 ensures Moves(longer[k], longer[k + 1], procs, sum) {
      if k < |run| - 1 {
        assert longer[k] == run[k] && longer[k + 1] == run[k + 1];
      }
    }
  }

  /** Everyone idle but i, j and k. */
  ghost predicate Shape(run: seq<State>, procs: Procs, sum: Checksum, i: nat, j: nat, k: nat, ci: Pc, cj: Pc, ck: Pc,
                        locks: map<nat, FileLock>)
  {
    && Run(run, procs, sum)
    && var s := run[|run| - 1];
    && |s.pcs| == |procs| && s.locks == locks
    && forall x :: 0 <= x < |s.pcs| ==>
      s.pcs[x] == if x == i then ci else if x == j then cj else if x == k then ck else Idle
  }

  lemma {:induction false} OneReaderEnters(procs: Procs, sum: Checksum, i: nat, j: nat, k: nat)
    returns (run: seq<State>)
    requires i < |procs| && j < |procs| && k < |procs| && i != j && procs[i] == procs[j] && procs[k] != procs[i]
    ensures Shape(run, procs, sum, i, j, k, Locked(Reading), Idle, Idle, map[procs[i] := Shared])
  {
    var files := LogImage([], sum);
    var s := State(seq(|procs|, _ => Idle), map[], files.log, LogManifest(files.count, files.size, files.crc), []);
    run := [s];
    assert Shape(run, procs, sum, i, j, k, Idle, Idle, Idle, map[]);
    run := ExtendRun(run, procs, sum, Enter(i, Reading));
    assert Shape(run, procs, sum, i, j, k, Entered(Reading), Idle, Idle, map[]);
    run := ExtendRun(run, procs, sum, Lock(i));
  }

  lemma {:induction false} TwoReadersEnter(procs: Procs, sum: Checksum, i: nat, j: nat, k: nat)
    returns (run: seq<State>)
    requires i < |procs| && j < |procs| && k < |procs| && i != j && procs[i] == procs[j] && procs[k] != procs[i]
    ensures Shape(run, procs, sum, i, j, k, Locked(Reading), Locked(Reading), Idle, map[procs[i] := Shared])
  {
    run := OneReaderEnters(procs, sum, i, j, k);
    run := ExtendRun(run, procs, sum, Enter(j, Reading));
    assert Shape(run, procs, sum, i, j, k, Locked(Reading), Entered(Reading), Idle, map[procs[i] := Shared]);
    run := ExtendRun(run, procs, sum, Lock(j));
  }

  /** Two readers in one process and a writer in another: when the first reader closes, its release
      drops the record lock of the second, and the writer walks in on it. */
  lemma {:induction false} ReaderLosesItsLock(procs: Procs, sum: Checksum, i: nat, j: nat, k: nat)
    returns (run: seq<State>)
    requires i < |procs| && j < |procs| && k < |procs| && i != j && procs[i] == procs[j] && procs[k] != procs[i]
    ensures Run(run, procs, sum) && !ReadersExcluded(run[|run| - 1])
  {
    hide Settled, LogBytes;
    var op := Writing(Pair([], []));
    run := TwoReadersEnter(procs, sum, i, j, k);
    run := ExtendRun(run, procs, sum, Unlock(i));
    assert Shape(run, procs, sum, i, j, k, Unlocked(Reading), Locked(Reading), Idle, map[procs[i] := Free]);
    run := ExtendRun(run, procs, sum, Enter(k, op));
    assert Shape(run, procs, sum, i, j, k, Unlocked(Reading), Locked(Reading), Entered(op), map[procs[i] := Free]);
    run := ExtendRun(run, procs, sum, Lock(k));
    var t := run[|run| - 1];
    assert ReaderHolds(t.pcs[j]) && t.pcs[k].Writer() && t.pcs[k].Holding();
  }

  /** Reader-writer exclusion holds on every run exactly when all threads share one process or no two
      do. */
  lemma {:induction false} ReadersExcludedIff(procs: Procs, sum: Checksum)
    ensures (forall run :: Run(run, procs, sum) ==> ReadersExcluded(run[|run| - 1])) <==> OneOrSeparate(procs)
  {
    if OneOrSeparate(procs) {
      forall run | Run(run, procs, sum) ensures ReadersExcluded(run[|run| - 1]) {
        SafeArrangement(run, procs, sum, |run| - 1);
      }
    } else {
      var i, j :| 0 <= i < |procs| && 0 <= j < |procs| && i != j && procs[i] == procs[j];
      var a, b :| 0 <= a < |procs| && 0 <= b < |procs| && procs[a] != procs[b];
      var k := if procs[a] != procs[i] then a else b;
      var run := ReaderLosesItsLock(procs, sum, i, j, k);
    }
  }
}
