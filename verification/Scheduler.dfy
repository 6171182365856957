/** The distributed scheduler (mit_6.824/src/mapreduce/schedule.go, master.go)
    as a step system: task goroutines take workers from the register channel,
    call them, retry on failure, and signal completion. */
module Scheduler {
  import opened MapReduce

  /** A task goroutine has not begun, waits for a worker, waits for its call to `w`, or is done. */
  datatype Task = Spawned | Waiting | Running(w: nat) | Done

  /** A worker sits in the register channel, serves a task, or is never used again. */
  datatype Worker = Idle | Busy(t: nat) | Lost

  datatype Phase = Mapping | Reducing | Merged | Panicked

  datatype State = State(
    phase: Phase,
    tasks: seq<Task>,
    workers: map<nat, Worker>,
    files: Files,
    calls: nat,      // DoTask calls made so far
    signals: nat,    // sent to the wt channel and not yet received
    received: nat)   // received by the counting loop of this phase

  ghost predicate Fresh(tasks: seq<Task>, n: nat) {
    |tasks| == n && forall t :: 0 <= t < n ==> tasks[t] == Spawned
  }

  ghost predicate Init(job: Job, s: State) {
    s.phase == Mapping && Fresh(s.tasks, |job.docs|) && s.workers == map[] && s.calls == s.signals == s.received == 0
  }

  // ---------- steps ----------

  /** Register: a new worker appears in the register channel. */
  ghost predicate Register(s: State, s2: State, w: nat) {
    s.phase != Panicked && w !in s.workers && s2 == s.(workers := s.workers[w := Idle])
  }

  /** A goroutine begins by reading mr.files[taskNum].  A panic there ends the master,
      whatever the other goroutines are doing. */
  ghost predicate Begin(job: Job, s: State, s2: State, t: nat) {
    && s.phase in {Mapping, Reducing} && t < |s.tasks| && s.tasks[t] == Spawned
    && s2 == (if t < |job.docs| then s.(tasks := s.tasks[t := Waiting]) else s.(phase := Panicked))
  }

  /** A goroutine receives an idle worker and calls it. */
  ghost predicate Dispatch(s: State, s2: State, t: nat, w: nat) {
    && s.phase in {Mapping, Reducing} && t < |s.tasks| && s.tasks[t] == Waiting
    && w in s.workers && s.workers[w] == Idle
    && s2 == s.(tasks := s.tasks[t := Running(w)], workers := s.workers[w := Busy(t)], calls := s.calls + 1)
  }

  /** The effect of a completed DoTask on the files. */
  ghost predicate TaskDone(job: Job, phase: Phase, t: nat, f: Files, g: Files)
    requires job.nReduce > 0
  {
    if phase == Mapping then t < |job.docs| && MapDone(job, t, f, g)
    else HasInter(f, |job.docs|, t) && g == f[Res(t) := Coded(Reduced(Gather(f, |job.docs|, t), job.reduceF), job.enc)]
  }

  ghost predicate OwnOutput(job: Job, phase: Phase, t: nat, x: FileName) {
    if phase == Mapping then MapOutput(job, t, x) else x == Res(t)
  }

  /** The call returns true: the worker re-registers and the task signals. */
  ghost predicate CallOk(job: Job, s: State, s2: State, t: nat)
    requires job.nReduce > 0
  {
    && s.phase in {Mapping, Reducing} && t < |s.tasks| && s.tasks[t].Running?
    && TaskDone(job, s.phase, t, s.files, s2.files)
    && s2 == s.(tasks := s.tasks[t := Done], workers := s.workers[s.tasks[t].w := Idle],
                files := s2.files, signals := s.signals + 1)
  }

  /** The call returns false: the task's own files may hold anything, the worker
      is not put back, and the goroutine waits for another one. */
  ghost predicate CallFail(job: Job, s: State, s2: State, t: nat) {
    && s.phase in {Mapping, Reducing} && t < |s.tasks| && s.tasks[t].Running?
    && (forall x :: !OwnOutput(job, s.phase, t, x) ==>
          (x in s2.files <==> x in s.files) && (x in s.files ==> s2.files[x] == s.files[x]))
    && s2 == s.(tasks := s.tasks[t := Waiting], workers := s.workers[s.tasks[t].w := Lost], files := s2.files)
  }

  /** One turn of the counting loop. */
  ghost predicate Receive(s: State, s2: State) {
    && s.phase in {Mapping, Reducing} && s.signals > 0
    && s2 == s.(signals := s.signals - 1, received := s.received + 1)
  }

  /** schedule(mapPhase) returns and schedule(reducePhase) spawns its goroutines. */
  ghost predicate StartReduce(job: Job, s: State, s2: State) {
    && s.phase == Mapping && s.received == |s.tasks|
    && Fresh(s2.tasks, job.nReduce)
    && s2 == s.(phase := Reducing, tasks := s2.tasks, signals := 0, received := 0)
  }

  /** schedule(reducePhase) returns and the results are merged. */
  ghost predicate Finish(job: Job, s: State, s2: State) {
    && s.phase == Reducing && s.received == |s.tasks| && HasRes(s.files, job.nReduce)
    && s2 == s.(phase := Merged, files := s.files[Out := MergeOf(s.files, job.nReduce)])
  }

  ghost predicate Progress(job: Job, s: State, s2: State)
    requires job.nReduce > 0
  {
    || (exists t: nat :: Begin(job, s, s2, t))
    || (exists t: nat, w: nat :: Dispatch(s, s2, t, w))
    || (exists t: nat :: CallOk(job, s, s2, t))
    || (exists t: nat :: CallFail(job, s, s2, t))
    || Receive(s, s2)
    || StartReduce(job, s, s2)
    || Finish(job, s, s2)
  }

  ghost predicate CanProgress(job: Job, s: State)
    requires job.nReduce > 0
  {
    exists s2 :: Progress(job, s, s2)
  }

  ghost predicate Next(job: Job, s: State, s2: State)
    requires job.nReduce > 0
  {
    (exists w: nat :: Register(s, s2, w)) || Progress(job, s, s2)
  }

  // ---------- counting ----------

  ghost function DoneCount(tasks: seq<Task>): nat {
    if tasks == [] then 0
    else DoneCount(tasks[..|tasks| - 1]) + (if tasks[|tasks| - 1].Done? then 1 else 0)
  }

  lemma {:induction false} DoneCountUpdate(tasks: seq<Task>, t: nat, x: Task)
    requires t < |tasks|
    ensures DoneCount(tasks[t := x]) ==
      DoneCount(tasks) - (if tasks[t].Done? then 1 else 0) + (if x.Done? then 1 else 0)
  {
    var n := |tasks| - 1;
    if t < n {
      assert tasks[t := x][..n] == tasks[..n][t := x];
      DoneCountUpdate(tasks[..n], t, x);
    } else {
      assert tasks[t := x][..n] == tasks[..n];
    }
  }

  lemma {:induction false} DoneCountAll(tasks: seq<Task>)
    ensures DoneCount(tasks) <= |tasks|
    ensures DoneCount(tasks) == |tasks| ==> forall t :: 0 <= t < |tasks| ==> tasks[t].Done?
    ensures (forall t :: 0 <= t < |tasks| ==> !tasks[t].Done?) ==> DoneCount(tasks) == 0
  {
    if tasks != [] {
      DoneCountAll(tasks[..|tasks| - 1]);
    }
  }

  ghost function LostSet(ws: map<nat, Worker>): set<nat> { set w | w in ws && ws[w] == Lost }
  ghost function BusySet(ws: map<nat, Worker>): set<nat> { set w | w in ws && ws[w].Busy? }
  ghost function AliveSet(ws: map<nat, Worker>): set<nat> { set w | w in ws && ws[w] != Lost }

  lemma SetCount(a: set<nat>, b: set<nat>, w: nat, member: bool)
    requires b == if member then a + {w} else a - {w}
    ensures |b| == |a| - (if w in a then 1 else 0) + (if member then 1 else 0)
  {
    if member && w in a {
      assert b == a;
    } else if !member && w !in a {
      assert b == a;
    }
  }

  lemma LostCount(ws: map<nat, Worker>, w: nat, x: Worker)
    requires w in ws
    ensures |LostSet(ws[w := x])| == |LostSet(ws)| - (if ws[w] == Lost then 1 else 0) + (if x == Lost then 1 else 0)
  {
    SetCount(LostSet(ws), LostSet(ws[w := x]), w, x == Lost);
  }

  lemma BusyCount(ws: map<nat, Worker>, w: nat, x: Worker)
    requires w in ws
    ensures |BusySet(ws[w := x])| == |BusySet(ws)| - (if ws[w].Busy? then 1 else 0) + (if x.Busy? then 1 else 0)
  {
    SetCount(BusySet(ws), BusySet(ws[w := x]), w, x.Busy?);
  }

  lemma AliveCount(ws: map<nat, Worker>, w: nat, x: Worker)
    requires w in ws
    ensures |AliveSet(ws[w := x])| == |AliveSet(ws)| - (if ws[w] != Lost then 1 else 0) + (if x != Lost then 1 else 0)
  {
    SetCount(AliveSet(ws), AliveSet(ws[w := x]), w, x != Lost);
  }

  /** Calls that returned true, over both phases. */
  ghost function Successes(job: Job, s: State): nat {
    match s.phase
    case Mapping => DoneCount(s.tasks)
    case Reducing => |job.docs| + DoneCount(s.tasks)
    case Merged => |job.docs| + DoneCount(s.tasks)
    case Panicked => |job.docs| + DoneCount(s.tasks)
  }

  // ---------- invariants ----------

  /** A task waits for a call exactly when the worker is busy with it. */
  ghost predicate Paired(s: State) {
    && (forall t: nat :: t < |s.tasks| && s.tasks[t].Running? ==>
          s.tasks[t].w in s.workers && s.workers[s.tasks[t].w] == Busy(t))
    && (forall w :: w in s.workers && s.workers[w].Busy? ==>
          s.workers[w].t < |s.tasks| && s.tasks[s.workers[w].t] == Running(w))
  }

  ghost predicate MapTaskRight(job: Job, f: Files, m: nat)
    requires job.nReduce > 0 && m < |job.docs|
  {
    forall r: nat :: r < job.nReduce ==> Inter(m, r) in f && f[Inter(m, r)] == MapFile(job, m, r)
  }

  /** Finished tasks have left the right files. */
  ghost predicate FilesRight(job: Job, s: State)
    requires job.nReduce > 0
  {
    match s.phase
    case Mapping =>
      |s.tasks| == |job.docs| && forall m: nat :: m < |job.docs| && s.tasks[m].Done? ==> MapTaskRight(job, s.files, m)
    case Reducing =>
      && |s.tasks| == job.nReduce && Mapped(job, s.files) && NoFileNoTask(job, s.tasks)
      && forall r: nat :: r < job.nReduce && s.tasks[r].Done? ==> Res(r) in s.files && s.files[Res(r)] == ResFile(job, r)
    case Merged =>
      && |s.tasks| == job.nReduce <= |job.docs| && Mapped(job, s.files) && AllReduced(job, s.files)
      && Out in s.files && s.files[Out] == ActualOutput(job)
    case Panicked => |s.tasks| == job.nReduce > |job.docs| && Mapped(job, s.files)
  }

  /** A reduce task whose number is not that of a file never gets past its first line. */
  ghost predicate NoFileNoTask(job: Job, tasks: seq<Task>) {
    forall t :: |job.docs| <= t < |tasks| ==> tasks[t] == Spawned
  }

  ghost predicate Accounted(job: Job, s: State) {
    && (s.phase in {Mapping, Reducing} ==> s.signals + s.received == DoneCount(s.tasks))
    && s.calls == Successes(job, s) + |LostSet(s.workers)| + |BusySet(s.workers)|
  }

  ghost predicate Inv(job: Job, s: State)
    requires job.nReduce > 0
  {
    Paired(s) && FilesRight(job, s) && Accounted(job, s)
  }

  lemma InitInv(job: Job, s: State)
    requires job.nReduce > 0 && Init(job, s)
    ensures Inv(job, s)
  {
    DoneCountAll(s.tasks);
    assert LostSet(s.workers) == {} && BusySet(s.workers) == {};
  }

  lemma RegisterInv(job: Job, s: State, s2: State, w: nat)
    requires job.nReduce > 0 && Inv(job, s) && Register(s, s2, w)
    ensures Inv(job, s2)
  {
    assert LostSet(s2.workers) == LostSet(s.workers) && BusySet(s2.workers) == BusySet(s.workers);
  }

  lemma BeginInv(job: Job, s: State, s2: State, t: nat)
    requires job.nReduce > 0 && Inv(job, s) && Begin(job, s, s2, t)
    ensures Inv(job, s2)
  {
    DoneCountUpdate(s.tasks, t, Waiting);
  }

  lemma DispatchInv(job: Job, s: State, s2: State, t: nat, w: nat)
    requires job.nReduce > 0 && Inv(job, s) && Dispatch(s, s2, t, w)
    ensures Inv(job, s2)
  {
    DoneCountUpdate(s.tasks, t, Running(w));
    LostCount(s.workers, w, Busy(t));
    BusyCount(s.workers, w, Busy(t));
  }

  lemma OtherMapKept(job: Job, f: Files, g: Files, t: nat, m: nat)
    requires job.nReduce > 0 && t < |job.docs| && m < |job.docs| && m != t && MapDone(job, t, f, g) && MapTaskRight(job, f, m)
    ensures MapTaskRight(job, g, m)
  {
    forall r: nat | r < job.nReduce ensures Inter(m, r) in g && g[Inter(m, r)] == MapFile(job, m, r) {
      assert !MapOutput(job, t, Inter(m, r));
    }
  }

  lemma MapOkFiles(job: Job, s: State, s2: State, t: nat)
    requires job.nReduce > 0 && Inv(job, s) && CallOk(job, s, s2, t) && s.phase == Mapping
    ensures FilesRight(job, s2)
  {
    forall m: nat | m < |job.docs| && s2.tasks[m].Done? ensures MapTaskRight(job, s2.files, m) {
      if m != t {
        OtherMapKept(job, s.files, s2.files, t, m);
      }
    }
  }

  lemma ReduceOkFiles(job: Job, s: State, s2: State, t: nat)
    requires job.nReduce > 0 && Inv(job, s) && CallOk(job, s, s2, t) && s.phase == Reducing
    ensures FilesRight(job, s2)
  {
    GatherIsRead(job, s.files, |job.docs|, t);
  }

  lemma CallOkPaired(job: Job, s: State, s2: State, t: nat)
    requires job.nReduce > 0 && Paired(s) && CallOk(job, s, s2, t)
    ensures Paired(s2)
  {
  }

  lemma CallOkAccounted(job: Job, s: State, s2: State, t: nat)
    requires job.nReduce > 0 && Paired(s) && Accounted(job, s) && CallOk(job, s, s2, t)
    ensures Accounted(job, s2)
  {
    DoneCountUpdate(s.tasks, t, Done);
    LostCount(s.workers, s.tasks[t].w, Idle);
    BusyCount(s.workers, s.tasks[t].w, Idle);
  }

  lemma CallOkFiles(job: Job, s: State, s2: State, t: nat)
    requires job.nReduce > 0 && Inv(job, s) && CallOk(job, s, s2, t)
    ensures FilesRight(job, s2)
  {
    if s.phase == Mapping {
      MapOkFiles(job, s, s2, t);
    } else {
      ReduceOkFiles(job, s, s2, t);
    }
  }

  lemma CallOkInv(job: Job, s: State, s2: State, t: nat)
    requires job.nReduce > 0 && Inv(job, s) && CallOk(job, s, s2, t)
    ensures Inv(job, s2)
  {
    CallOkPaired(job, s, s2, t);
    CallOkFiles(job, s, s2, t);
    CallOkAccounted(job, s, s2, t);
  }

  lemma CallFailFiles(job: Job, s: State, s2: State, t: nat)
    requires job.nReduce > 0 && Inv(job, s) && CallFail(job, s, s2, t)
    ensures FilesRight(job, s2)
  {
    if s.phase == Mapping {
      forall m: nat | m < |job.docs| && s2.tasks[m].Done? ensures MapTaskRight(job, s2.files, m) {
        assert m != t && MapTaskRight(job, s.files, m);
        forall r: nat | r < job.nReduce ensures Inter(m, r) in s2.files && s2.files[Inter(m, r)] == MapFile(job, m, r) {
          assert !OwnOutput(job, Mapping, t, Inter(m, r));
        }
      }
    } else {
      forall m: nat, r: nat | m < |job.docs| && r < job.nReduce
        ensures Inter(m, r) in s2.files && s2.files[Inter(m, r)] == MapFile(job, m, r)
      {
        assert !OwnOutput(job, Reducing, t, Inter(m, r)) && Inter(m, r) in s.files;
      }
      forall r: nat | r < job.nReduce && s2.tasks[r].Done?
        ensures Res(r) in s2.files && s2.files[Res(r)] == ResFile(job, r)
      {
        assert !OwnOutput(job, Reducing, t, Res(r)) && Res(r) in s.files;
      }
    }
  }

  lemma CallFailInv(job: Job, s: State, s2: State, t: nat)
    requires job.nReduce > 0 && Inv(job, s) && CallFail(job, s, s2, t)
    ensures Inv(job, s2)
  {
    CallFailFiles(job, s, s2, t);
    DoneCountUpdate(s.tasks, t, Waiting);
    LostCount(s.workers, s.tasks[t].w, Lost);
    BusyCount(s.workers, s.tasks[t].w, Lost);
  }

  lemma AllDone(job: Job, s: State)
    requires job.nReduce > 0 && Inv(job, s) && s.phase in {Mapping, Reducing} && s.received == |s.tasks|
    ensures DoneCount(s.tasks) == |s.tasks| && (forall t :: 0 <= t < |s.tasks| ==> s.tasks[t].Done?)
    ensures BusySet(s.workers) == {}
  {
    DoneCountAll(s.tasks);
  }

  lemma StartReduceInv(job: Job, s: State, s2: State)
    requires job.nReduce > 0 && Inv(job, s) && StartReduce(job, s, s2)
    ensures Inv(job, s2) && Mapped(job, s2.files)
  {
    AllDone(job, s);
    DoneCountAll(s2.tasks);
    forall m: nat, r: nat | m < |job.docs| && r < job.nReduce
      ensures Inter(m, r) in s.files && s.files[Inter(m, r)] == MapFile(job, m, r)
    {
      assert MapTaskRight(job, s.files, m);
    }
  }

  lemma FinishFiles(job: Job, s: State, s2: State)
    requires job.nReduce > 0 && Finish(job, s, s2) && FilesRight(job, s) && AllReduced(job, s.files)
    requires job.nReduce <= |job.docs|
    ensures FilesRight(job, s2)
  {
    MergeIsActual(job, s.files);
  }

  lemma FinishInv(job: Job, s: State, s2: State)
    requires job.nReduce > 0 && Inv(job, s) && Finish(job, s, s2)
    ensures Inv(job, s2)
  {
    AllDone(job, s);
    assert s.tasks[job.nReduce - 1].Done?;
    FinishFiles(job, s, s2);
  }

  lemma NextInv(job: Job, s: State, s2: State)
    requires job.nReduce > 0 && Inv(job, s) && Next(job, s, s2)
    ensures Inv(job, s2)
  {
    if w: nat :| Register(s, s2, w) {
      RegisterInv(job, s, s2, w);
    } else if t: nat :| Begin(job, s, s2, t) {
      BeginInv(job, s, s2, t);
    } else if t: nat, w: nat :| Dispatch(s, s2, t, w) {
      DispatchInv(job, s, s2, t, w);
    } else if t: nat :| CallOk(job, s, s2, t) {
      CallOkInv(job, s, s2, t);
    } else if t: nat :| CallFail(job, s, s2, t) {
      CallFailInv(job, s, s2, t);
    } else if Receive(s, s2) {
    } else if StartReduce(job, s, s2) {
      StartReduceInv(job, s, s2);
    } else {
      FinishInv(job, s, s2);
    }
  }
}
