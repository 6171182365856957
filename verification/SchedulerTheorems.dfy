/** What the step system of Scheduler means for whole runs: they leave the files that
    Sequential leaves, and how they end. */
module SchedulerTheorems {
  import opened MapReduce
  import opened Scheduler

  // ---------- whole runs ----------

  ghost predicate StepAt(job: Job, run: seq<State>, i: nat)
    requires job.nReduce > 0 && i + 1 < |run|
  {
    Next(job, run[i], run[i + 1])
  }

  ghost predicate Run(job: Job, run: seq<State>)
    requires job.nReduce > 0
  {
    && run != [] && Init(job, run[0])
    && forall i: nat {:trigger StepAt(job, run, i)} :: i + 1 < |run| ==> StepAt(job, run, i)
  }

  lemma {:induction false} RunInv(job: Job, run: seq<State>, i: nat)
    requires job.nReduce > 0 && Run(job, run) && i < |run|
    ensures Inv(job, run[i])
  {
    if i == 0 {
      InitInv(job, run[0]);
    } else {
      RunInv(job, run, i - 1);
      assert StepAt(job, run, i - 1);
      NextInv(job, run[i - 1], run[i]);
    }
  }

  /** Every distributed run that completes, whatever the interleaving and the
      failures, leaves the files that Sequential leaves. */
  lemma DistributedIsSequential(job: Job, run: seq<State>, i: nat)
    requires job.nReduce > 0 && Run(job, run) && i < |run| && run[i].phase == Merged
    ensures Mapped(job, run[i].files) && AllReduced(job, run[i].files)
    ensures Out in run[i].files && run[i].files[Out] == ActualOutput(job)
  {
    RunInv(job, run, i);
  }

  /** With at least as many files as reduce tasks no run panics, ... */
  lemma NoPanic(job: Job, run: seq<State>, i: nat)
    requires job.nReduce > 0 && Run(job, run) && i < |run| && job.nReduce <= |job.docs|
    ensures run[i].phase != Panicked
  {
    RunInv(job, run, i);
  }

  /** ... with fewer no run completes, although some reduce tasks may, ... */
  lemma NeverMerged(job: Job, run: seq<State>, i: nat)
    requires job.nReduce > 0 && Run(job, run) && i < |run| && job.nReduce > |job.docs|
    ensures run[i].phase != Merged
  {
    RunInv(job, run, i);
  }

  /** ... and throughout the reduce phase the panic is one step away. */
  lemma PanicNext(job: Job, run: seq<State>) returns (s: State)
    requires job.nReduce > |job.docs| && Run(job, run) && run[|run| - 1].phase == Reducing
    ensures Run(job, run + [s]) && s == run[|run| - 1].(phase := Panicked)
  {
    var last := run[|run| - 1];
    RunInv(job, run, |run| - 1);
    s := last.(phase := Panicked);
    assert Begin(job, last, s, |job.docs|);
    Extend(job, run, s);
  }

  lemma Extend(job: Job, run: seq<State>, s: State)
    requires job.nReduce > 0 && Run(job, run) && Next(job, run[|run| - 1], s)
    ensures Run(job, run + [s])
  {
    var more := run + [s];
    forall i: nat | i + 1 < |more| ensures StepAt(job, more, i) {
      if i + 1 < |run| {
        assert StepAt(job, run, i);
      }
    }
  }

  /** No reduce task is dispatched before every map task has succeeded. */
  lemma ReduceAfterMap(job: Job, run: seq<State>, i: nat, t: nat, w: nat)
    requires job.nReduce > 0 && Run(job, run) && i < |run| - 1
    requires Dispatch(run[i], run[i + 1], t, w) && run[i].phase != Mapping
    ensures Mapped(job, run[i].files) && run[i].calls >= |job.docs| + |LostSet(run[i].workers)|
  {
    RunInv(job, run, i);
  }

  /** Each call finishes a task or loses a worker, so a run makes at most
      tasks + workers calls. */
  lemma CallBound(job: Job, run: seq<State>, i: nat)
    requires job.nReduce > 0 && Run(job, run) && i < |run|
    ensures run[i].calls <= |job.docs| + job.nReduce + |run[i].workers|
  {
    RunInv(job, run, i);
    var s := run[i];
    DoneCountAll(s.tasks);
    assert LostSet(s.workers) + BusySet(s.workers) <= s.workers.Keys;
    assert LostSet(s.workers) !! BusySet(s.workers);
    SubsetSize(LostSet(s.workers) + BusySet(s.workers), s.workers.Keys);
  }

  lemma SubsetSize<T>(a: set<T>, b: set<T>)
    requires a <= b
    ensures |a| <= |b|
  {
    assert |b| == |a| + |b - a|;
  }

  // ---------- termination ----------

  /** A running call can always succeed. */
  lemma CanSucceed(job: Job, s: State, t: nat)
    requires job.nReduce > 0 && Inv(job, s) && s.phase in {Mapping, Reducing}
    requires t < |s.tasks| && s.tasks[t].Running?
    ensures CanProgress(job, s)
  {
    var g: Files := s.files;
    if s.phase == Mapping {
      g := MapFilesWritten(job, t, s.files);
    } else {
      GatherIsRead(job, s.files, |job.docs|, t);
      g := s.files[Res(t) := Coded(Reduced(Gather(s.files, |job.docs|, t), job.reduceF), job.enc)];
    }
    var s2 := s.(tasks := s.tasks[t := Done], workers := s.workers[s.tasks[t].w := Idle],
                 files := g, signals := s.signals + 1);
    assert CallOk(job, s, s2, t);
    assert Progress(job, s, s2);
  }

  lemma MapFilesWritten(job: Job, m: nat, f: Files) returns (g: Files)
    requires job.nReduce > 0 && m < |job.docs|
    ensures MapDone(job, m, f, g)
  {
    var outs := set r: nat | 0 <= r < job.nReduce :: Inter(m, r);
    g := map x | x in f.Keys + outs :: if MapOutput(job, m, x) then MapFile(job, m, x.r) else f[x];
    assert forall r: nat :: r < job.nReduce ==> Inter(m, r) in outs;
  }

  lemma EndPhase(job: Job, s: State)
    requires job.nReduce > 0 && Inv(job, s) && s.phase in {Mapping, Reducing} && s.received == |s.tasks|
    ensures CanProgress(job, s)
  {
    AllDone(job, s);
    if s.phase == Mapping {
      var s2 := s.(phase := Reducing, tasks := seq(job.nReduce, _ => Spawned), signals := 0, received := 0);
      assert StartReduce(job, s, s2);
      assert Progress(job, s, s2);
    } else {
      assert HasRes(s.files, job.nReduce);
      var s2 := s.(phase := Merged, files := s.files[Out := MergeOf(s.files, job.nReduce)]);
      assert Finish(job, s, s2);
      assert Progress(job, s, s2);
    }
  }

  /** Nothing but a new worker can help: all workers are lost, every goroutine waits for
      one or is done, and the counting loop has nothing to receive. */
  ghost predicate Starved(s: State) {
    && s.phase in {Mapping, Reducing} && AliveSet(s.workers) == {} && s.signals == 0 && s.received < |s.tasks|
    && forall t: nat :: t < |s.tasks| ==> s.tasks[t] != Spawned
  }

  lemma CanBegin(job: Job, s: State, t: nat)
    requires job.nReduce > 0 && s.phase in {Mapping, Reducing} && t < |s.tasks| && s.tasks[t] == Spawned
    ensures CanProgress(job, s)
  {
    var s2 := if t < |job.docs| then s.(tasks := s.tasks[t := Waiting]) else s.(phase := Panicked);
    assert Begin(job, s, s2, t);
    assert Progress(job, s, s2);
  }

  lemma CanDispatch(job: Job, s: State, t: nat, w: nat)
    requires job.nReduce > 0 && s.phase in {Mapping, Reducing} && t < |s.tasks| && s.tasks[t] == Waiting
    requires w in s.workers && s.workers[w] == Idle
    ensures CanProgress(job, s)
  {
    var s2 := s.(tasks := s.tasks[t := Running(w)], workers := s.workers[w := Busy(t)], calls := s.calls + 1);
    assert Dispatch(s, s2, t, w);
    assert Progress(job, s, s2);
  }

  lemma CanReceive(job: Job, s: State)
    requires job.nReduce > 0 && s.phase in {Mapping, Reducing} && s.signals > 0
    ensures CanProgress(job, s)
  {
    var s2 := s.(signals := s.signals - 1, received := s.received + 1);
    assert Receive(s, s2);
    assert Progress(job, s, s2);
  }

  lemma NotStarvedGoesOn(job: Job, s: State)
    requires job.nReduce > 0 && Inv(job, s) && s.phase in {Mapping, Reducing} && !Starved(s)
    ensures CanProgress(job, s)
  {
    if s.signals > 0 {
      CanReceive(job, s);
    } else if s.received == |s.tasks| {
      EndPhase(job, s);
    } else if t: nat :| t < |s.tasks| && s.tasks[t] == Spawned {
      CanBegin(job, s, t);
    } else if t: nat :| t < |s.tasks| && s.tasks[t].Running? {
      CanSucceed(job, s, t);
    } else if t: nat :| t < |s.tasks| && s.tasks[t] == Waiting {
      DoneCountAll(s.tasks);
      var w :| w in AliveSet(s.workers);
      CanDispatch(job, s, t, w);
    } else {
      AllTasksDone(s.tasks);
      assert false;
    }
  }

  /** An unfinished phase cannot go on exactly when it is starved. */
  lemma NoDeadlock(job: Job, s: State)
    requires job.nReduce > 0 && Inv(job, s) && s.phase in {Mapping, Reducing}
    ensures CanProgress(job, s) <==> !Starved(s)
  {
    if Starved(s) {
      forall w | w in s.workers ensures s.workers[w] == Lost {
        assert w !in AliveSet(s.workers);
      }
    } else {
      NotStarvedGoesOn(job, s);
    }
  }

  lemma {:induction false} AllTasksDone(tasks: seq<Task>)
    requires forall t: nat :: t < |tasks| ==> tasks[t].Done?
    ensures DoneCount(tasks) == |tasks| && Work(tasks) == 0
  {
    if tasks != [] {
      AllTasksDone(tasks[..|tasks| - 1]);
    }
  }

  function Weight(t: Task): nat {
    match t
    case Spawned => 4
    case Waiting => 3
    case Running(_) => 2
    case Done => 0
  }

  ghost function Work(tasks: seq<Task>): nat {
    if tasks == [] then 0 else Work(tasks[..|tasks| - 1]) + Weight(tasks[|tasks| - 1])
  }

  lemma {:induction false} WorkUpdate(tasks: seq<Task>, t: nat, x: Task)
    requires t < |tasks|
    ensures Work(tasks[t := x]) == Work(tasks) - Weight(tasks[t]) + Weight(x)
  {
    var n := |tasks| - 1;
    if t < n {
      assert tasks[t := x][..n] == tasks[..n][t := x];
      WorkUpdate(tasks[..n], t, x);
    } else {
      assert tasks[t := x][..n] == tasks[..n];
    }
  }

  lemma {:induction false} WorkFresh(tasks: seq<Task>, n: nat)
    requires Fresh(tasks, n)
    ensures Work(tasks) == 4 * n
  {
    if n > 0 {
      WorkFresh(tasks[..n - 1], n - 1);
    }
  }

  /** How much is left to do. */
  ghost function Rank(job: Job, s: State): nat {
    Work(s.tasks) + s.signals + 2 * |AliveSet(s.workers)| +
    match s.phase
    case Mapping => 4 * job.nReduce + 2
    case Reducing => 1
    case Merged => 0
    case Panicked => 0
  }

  lemma RankTask(job: Job, s: State, s2: State, t: nat, x: Task, w: nat, y: Worker)
    requires t < |s.tasks| && w in s.workers && s2.phase == s.phase
    requires s2.tasks == s.tasks[t := x] && s2.workers == s.workers[w := y]
    ensures Rank(job, s2) - s2.signals == Rank(job, s) - s.signals - Weight(s.tasks[t]) + Weight(x)
      + 2 * ((if y != Lost then 1 else 0) - (if s.workers[w] != Lost then 1 else 0))
  {
    WorkUpdate(s.tasks, t, x);
    AliveCount(s.workers, w, y);
  }

  lemma WorkDone(job: Job, s: State)
    requires job.nReduce > 0 && Inv(job, s) && s.phase in {Mapping, Reducing} && s.received == |s.tasks|
    ensures Work(s.tasks) == 0
  {
    AllDone(job, s);
    AllTasksDone(s.tasks);
  }

  lemma RankPhase(job: Job, s: State, s2: State)
    requires StartReduce(job, s, s2) && Work(s.tasks) == 0
    ensures Rank(job, s2) < Rank(job, s)
  {
    WorkFresh(s2.tasks, job.nReduce);
  }

  lemma RankBegin(job: Job, s: State, s2: State, t: nat)
    requires job.nReduce > 0 && Inv(job, s) && Begin(job, s, s2, t)
    ensures Rank(job, s2) < Rank(job, s)
  {
    WorkUpdate(s.tasks, t, Waiting);
  }

  /** Every step but a registration brings the run closer to its end. */
  lemma RankDecreases(job: Job, s: State, s2: State)
    requires job.nReduce > 0 && Inv(job, s) && Progress(job, s, s2)
    ensures Rank(job, s2) < Rank(job, s)
  {
    if t: nat :| Begin(job, s, s2, t) {
      RankBegin(job, s, s2, t);
    } else if t: nat, w: nat :| Dispatch(s, s2, t, w) {
      RankTask(job, s, s2, t, Running(w), w, Busy(t));
    } else if t: nat :| CallOk(job, s, s2, t) {
      RankTask(job, s, s2, t, Done, s.tasks[t].w, Idle);
    } else if t: nat :| CallFail(job, s, s2, t) {
      RankTask(job, s, s2, t, Waiting, s.tasks[t].w, Lost);
    } else if StartReduce(job, s, s2) {
      WorkDone(job, s);
      RankPhase(job, s, s2);
    }
  }

  /** How many steps of the first k of a run are not registrations. */
  ghost function Steps(job: Job, run: seq<State>, k: nat): nat
    requires job.nReduce > 0 && k < |run|
  {
    if k == 0 then 0 else Steps(job, run, k - 1) + (if Progress(job, run[k - 1], run[k]) then 1 else 0)
  }

  lemma NewWorker(ws: map<nat, Worker>, w: nat)
    requires w !in ws
    ensures |AliveSet(ws[w := Idle])| == |AliveSet(ws)| + 1 && |ws[w := Idle]| == |ws| + 1
  {
    assert AliveSet(ws[w := Idle]) == AliveSet(ws) + {w};
    assert ws[w := Idle].Keys == ws.Keys + {w};
  }

  lemma RegisterRank(job: Job, s: State, s2: State, w: nat)
    requires Register(s, s2, w)
    ensures Rank(job, s2) == Rank(job, s) + 2 && |s2.workers| == |s.workers| + 1
  {
    NewWorker(s.workers, w);
  }

  lemma SameWorkers(ws: map<nat, Worker>, w: nat, x: Worker)
    requires w in ws
    ensures |ws[w := x]| == |ws|
  {
    assert ws[w := x].Keys == ws.Keys;
  }

  lemma ProgressWorkers(job: Job, s: State, s2: State)
    requires job.nReduce > 0 && Inv(job, s) && Progress(job, s, s2)
    ensures |s2.workers| == |s.workers|
  {
    if t: nat, w: nat :| Dispatch(s, s2, t, w) {
      SameWorkers(s.workers, w, Busy(t));
    } else if t: nat :| CallOk(job, s, s2, t) {
      SameWorkers(s.workers, s.tasks[t].w, Idle);
    } else if t: nat :| CallFail(job, s, s2, t) {
      SameWorkers(s.workers, s.tasks[t].w, Lost);
    }
  }

  lemma {:induction false} StepsRank(job: Job, run: seq<State>, k: nat)
    requires job.nReduce > 0 && Run(job, run) && k < |run|
    ensures Steps(job, run, k) + Rank(job, run[k]) <= Rank(job, run[0]) + 2 * |run[k].workers|
  {
    if k > 0 {
      StepsRank(job, run, k - 1);
      RunInv(job, run, k - 1);
      var s, s2 := run[k - 1], run[k];
      assert StepAt(job, run, k - 1);
      if Progress(job, s, s2) {
        RankDecreases(job, s, s2);
        ProgressWorkers(job, s, s2);
      } else {
        var w: nat :| Register(s, s2, w);
        RegisterRank(job, s, s2, w);
      }
    }
  }

  /** A run makes a bounded number of steps for each task and each worker. */
  lemma RunBound(job: Job, run: seq<State>, k: nat)
    requires job.nReduce > 0 && Run(job, run) && k < |run|
    ensures Steps(job, run, k) <= 4 * |job.docs| + 4 * job.nReduce + 2 + 2 * |run[k].workers|
  {
    StepsRank(job, run, k);
    WorkFresh(run[0].tasks, |job.docs|);
    assert AliveSet(run[0].workers) == {};
  }

  /** How a run that cannot be continued ends: it is complete and there are enough files,
      or it has panicked and there are not, or it has lost all its workers; with too few
      files the last can only happen before the reduce phase. */
  lemma RunEnds(job: Job, run: seq<State>)
    requires job.nReduce > 0 && Run(job, run) && !CanProgress(job, run[|run| - 1])
    ensures var s := run[|run| - 1];
      || (s.phase == Merged && job.nReduce <= |job.docs|)
      || (s.phase == Panicked && job.nReduce > |job.docs|)
      || (Starved(s) && (s.phase == Mapping || job.nReduce <= |job.docs|))
  {
    var s := run[|run| - 1];
    RunInv(job, run, |run| - 1);
    if s.phase in {Mapping, Reducing} {
      NoDeadlock(job, s);
    }
  }

  // ---------- one file and three reduce tasks ----------

  lemma OneFileMapped(job: Job) returns (run: seq<State>)
    requires |job.docs| == 1 && job.nReduce == 3
    ensures Run(job, run) && run[|run| - 1].phase == Reducing && run[|run| - 1].tasks == [Spawned, Spawned, Spawned]
    ensures run[|run| - 1].workers == map[0 := Idle]
  {
    var s0 := State(Mapping, [Spawned], map[], map[], 0, 0, 0);
    run := [s0];
    var s1 := s0.(workers := map[0 := Idle]);
    assert Register(s0, s1, 0);
    Extend(job, run, s1);
    var s2 := s1.(tasks := [Waiting]);
    assert Begin(job, s1, s2, 0);
    Extend(job, run + [s1], s2);
    run := run + [s1] + [s2];
    run := OneCall(job, run);
    var s4 := run[|run| - 1];
    var s5 := s4.(signals := 0, received := 1);
    assert Receive(s4, s5);
    Extend(job, run, s5);
    var s6 := s5.(phase := Reducing, tasks := [Spawned, Spawned, Spawned], signals := 0, received := 0);
    assert StartReduce(job, s5, s6);
    Extend(job, run + [s5], s6);
    run := run + [s5] + [s6];
  }

  /** Task 0 waits, worker 0 is idle: the task is dispatched and done. */
  lemma OneCall(job: Job, run: seq<State>) returns (more: seq<State>)
    requires |job.docs| == 1 && job.nReduce == 3 && Run(job, run)
    requires var s := run[|run| - 1];
      s.phase in {Mapping, Reducing} && s.tasks != [] && s.tasks[0] == Waiting && s.workers == map[0 := Idle]
    ensures Run(job, more)
    ensures var s, t := run[|run| - 1], more[|more| - 1];
      && t.phase == s.phase && t.tasks == s.tasks[0 := Done] && t.workers == map[0 := Idle]
      && t.signals == s.signals + 1 && t.received == s.received
  {
    var s := run[|run| - 1];
    var t := s.(tasks := s.tasks[0 := Running(0)], workers := map[0 := Busy(0)], calls := s.calls + 1);
    assert Dispatch(s, t, 0, 0);
    Extend(job, run, t);
    RunInv(job, run + [t], |run|);
    var g := t.files;
    if t.phase == Mapping {
      g := MapFilesWritten(job, 0, t.files);
    } else {
      GatherIsRead(job, t.files, |job.docs|, 0);
      g := t.files[Res(0) := Coded(Reduced(Gather(t.files, |job.docs|, 0), job.reduceF), job.enc)];
    }
    var u := t.(tasks := s.tasks[0 := Done], workers := map[0 := Idle], files := g, signals := t.signals + 1);
    assert t.tasks[0 := Done] == u.tasks && t.workers[0 := Idle] == u.workers;
    assert CallOk(job, t, u, 0);
    Extend(job, run + [t], u);
    more := run + [t] + [u];
  }

  /** The numbers of wc.go and ii.go: any job with one file and three reduce tasks can
      finish its first reduce task and then panic. */
  lemma OneFilePanics(job: Job) returns (run: seq<State>)
    requires |job.docs| == 1 && job.nReduce == 3
    ensures Run(job, run) && run[|run| - 1].phase == Panicked && run[|run| - 1].tasks == [Done, Spawned, Spawned]
  {
    run := OneFileMapped(job);
    var s := run[|run| - 1];
    var t := s.(tasks := [Waiting, Spawned, Spawned]);
    assert Begin(job, s, t, 0);
    Extend(job, run, t);
    run := OneCall(job, run + [t]);
    var last := PanicNext(job, run);
    run := run + [last];
  }
}
