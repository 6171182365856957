/** What the step system of Labrpc means for its users: every call is answered once, and
    what becomes of snapshots when a server crashes. */
module LabrpcTheorems {
  import opened Labrpc

  // ---------- every call is answered ----------

  /** What is left to do for a call. */
  function CallRank(c: Call): nat {
    (match c.reply case Pending => 2 case Decided(_) => 1 case Sent(_) => 0) +
    (match c.handler
     case NotStarted => if c.target.Unknown? then 3 else 2
     case Executing(_, _) => 1
     case Returned(_, _) => 0)
  }

  lemma AdvanceRank(s: State, c: Call, c2: Call)
    requires Advance(s, c, c2) && HandlerStored(s, c)
    ensures CallRank(c2) < CallRank(c)
  {
  }

  /** No step of the system sets a call back. */
  lemma StepRank(s: State, s2: State, id: nat)
    requires Inv(s) && Next(s, s2) && id in s.calls
    ensures id in s2.calls && CallRank(s2.calls[id]) <= CallRank(s.calls[id])
  {
    if j: nat :| CallStep(s, s2, j) {
      CallStepRank(s, s2, j, id);
    } else if i: nat, x: nat :| ConfigStep(s, s2, i, x) {
      ConfigStepCalls(s, s2, i, x);
    }
  }

  lemma CallStepRank(s: State, s2: State, j: nat, id: nat)
    requires Inv(s) && CallStep(s, s2, j) && id in s.calls
    ensures id in s2.calls && CallRank(s2.calls[id]) <= CallRank(s.calls[id])
  {
    if c2 :| OwnStep(s, s2, j, c2) {
      assert CallOk(s, s.calls[j]);
      AdvanceRank(s, s.calls[j], c2);
    } else if snapshot: bool :| HandlerSave(s, s2, j, snapshot) {
      SaveRank(s, s2, j, snapshot, id);
    }
  }

  lemma SaveRank(s: State, s2: State, j: nat, snapshot: bool, id: nat)
    requires HandlerSave(s, s2, j, snapshot) && id in s.calls
    ensures id in s2.calls && CallRank(s2.calls[id]) == CallRank(s.calls[id])
  {
  }

  /** The call `id` gets on in the step from s to s2. */
  ghost predicate GetsOn(s: State, s2: State, id: nat) { exists c2 :: OwnStep(s, s2, id, c2) }

  /** How often it does so between two states of a run. */
  ghost function OwnSteps(run: seq<State>, j: nat, k: nat, id: nat): nat
    requires j <= k < |run|
    decreases k - j
  {
    if j == k then 0 else OwnSteps(run, j, k - 1, id) + (if GetsOn(run[k - 1], run[k], id) then 1 else 0)
  }

  lemma OwnStepRank(s: State, s2: State, id: nat)
    requires Inv(s) && Next(s, s2) && id in s.calls
    ensures id in s2.calls && CallRank(s2.calls[id]) + (if GetsOn(s, s2, id) then 1 else 0) <= CallRank(s.calls[id])
  {
    StepRank(s, s2, id);
    if c2 :| OwnStep(s, s2, id, c2) {
      assert CallOk(s, s.calls[id]);
      AdvanceRank(s, s.calls[id], c2);
    }
  }

  lemma {:induction false} OwnStepsRank(run: seq<State>, j: nat, k: nat, id: nat)
    requires Run(run) && j <= k < |run| && id in run[j].calls
    ensures id in run[k].calls
    ensures OwnSteps(run, j, k, id) + CallRank(run[k].calls[id]) <= CallRank(run[j].calls[id])
    decreases k - j
  {
    if j < k {
      OwnStepsRank(run, j, k - 1, id);
      RunStep(run, k - 1);
      OwnStepRank(run[k - 1], run[k], id);
    }
  }

  /** A call makes at most five steps of its own. */
  lemma OwnStepsBound(run: seq<State>, j: nat, k: nat, id: nat)
    requires Run(run) && j <= k < |run| && id in run[j].calls
    ensures OwnSteps(run, j, k, id) <= 5
  {
    OwnStepsRank(run, j, k, id);
  }

  ghost predicate CanGetOn(s: State, id: nat) { exists s2 :: GetsOn(s, s2, id) }

  lemma GetOnBy(s: State, id: nat, c2: Call)
    requires id in s.calls && Advance(s, s.calls[id], c2)
    ensures CanGetOn(s, id)
  {
    var s2 := s.(calls := s.calls[id := c2]);
    assert OwnStep(s, s2, id, c2);
    assert GetsOn(s, s2, id);
  }

  /** A call that is not answered can always get on, even if nothing is ever dropped. */
  lemma UnansweredGetsOn(s: State, id: nat)
    requires Inv(s) && id in s.calls && !s.calls[id].reply.Sent?
    ensures CanGetOn(s, id)
  {
    var c := s.calls[id];
    assert CallOk(s, c);
    if c.reply.Decided? {
      GetOnBy(s, id, c.(reply := Sent(c.reply.ok), replies := c.replies + 1));
    } else if c.target.Unknown? {
      if Found(s, c) {
        GetOnBy(s, id, c.(target := Target(s.connections[c.end], s.servers[s.connections[c.end]])));
      } else {
        GetOnBy(s, id, c.(reply := Decided(false)));
      }
    } else if c.handler.NotStarted? {
      GetOnBy(s, id, c.(handler := Executing(0, 0), runs := c.runs + 1));
    } else if c.handler.Executing? {
      GetOnBy(s, id, c.(handler := Returned(c.handler.last, c.handler.snap)));
    } else {
      GetOnBy(s, id, c.(reply := Decided(false)));
    }
  }

  /** The next step of ProcessReq itself may decide the reply. */
  ghost predicate CanDecide(s: State, c: Call) { exists c2 :: Advance(s, c, c2) && c2.reply.Decided? }

  /** ProcessReq can decide the reply exactly when no server was found, the handler has not
      started (a dropped request), it has returned, or the server is dead; it has to wait
      exactly for a handler that is executing on a live server. */
  lemma DecidesExactly(s: State, c: Call)
    requires Inv(s) && CallOk(s, c) && c.reply == Pending
    ensures CanDecide(s, c) <==>
      if c.target.Unknown? then
        !(c.end in s.enabled && s.enabled[c.end] && c.end in s.connections && s.connections[c.end] in s.servers)
      else !c.handler.Executing? || !Reachable(s, c.end, c.target)
  {
    if c.target.Unknown? {
      assert !Found(s, c) ==> Advance(s, c, c.(reply := Decided(false)));
    } else {
      assert !c.handler.Executing? || IsServerDead(s, c) ==> Advance(s, c, c.(reply := Decided(false)));
    }
  }

  /** Each Call gets exactly one reply: at no time more than one, a reply never changes, true
      means that the handler was executed exactly once, and while there is none the call can
      get on, which by OwnStepsBound it does at most five times. */
  lemma ExactlyOnce(run: seq<State>, j: nat, k: nat, id: nat)
    requires Run(run) && j <= k < |run| && id in run[j].calls
    ensures id in run[k].calls
    ensures var c, d := run[j].calls[id], run[k].calls[id];
      && (d.replies == if d.reply.Sent? then 1 else 0)
      && (c.reply.Sent? ==> d.reply == c.reply)
      && (d.reply == Sent(true) ==> d.runs == 1)
      && (!d.reply.Sent? ==> CanGetOn(run[k], id))
  {
    RunInv(run, k);
    RunSettles(run, j, k, id);
    assert CallOk(run[k], run[k].calls[id]);
    if !run[k].calls[id].reply.Sent? {
      UnansweredGetsOn(run[k], id);
    }
  }

  // ---------- who serves a call ----------

  /** The instance is the one on the net under its name, and the end is enabled. */
  ghost predicate Reachable(s: State, end: nat, t: Target) {
    t.Target? && end in s.enabled && s.enabled[end] && t.name in s.servers && s.servers[t.name] == t.inst
  }

  /** It is also the one that the end is connected to. */
  ghost predicate Wired(s: State, end: nat, t: Target) {
    Reachable(s, end, t) && end in s.connections && s.connections[end] == t.name
  }

  /** The reply is true, sent or not. */
  ghost predicate Acked(c: Call) { c.reply == Decided(true) || c.reply == Sent(true) }

  /** A step from s leaves the target of a call and its reply alone, or had reason to set them. */
  ghost predicate Follows(s: State, c: Call, c2: Call) {
    && c2.end == c.end
    && (c2.target == c.target || (c.target.Unknown? && Wired(s, c.end, c2.target)))
    && (Acked(c2) && !Acked(c) ==>
          c.reply == Pending && c.handler.Returned? && c2 == c.(reply := Decided(true)) && Reachable(s, c.end, c2.target))
  }

  lemma AdvanceFollows(s: State, c: Call, c2: Call)
    requires Advance(s, c, c2)
    ensures Follows(s, c, c2)
  {
  }

  ghost predicate NewOrFollows(s: State, s2: State, id: nat)
    requires id in s2.calls
  {
    if id in s.calls then Follows(s, s.calls[id], s2.calls[id]) else s2.calls[id].target.Unknown? && !Acked(s2.calls[id])
  }

  lemma SaveFollows(s: State, s2: State, j: nat, snapshot: bool, id: nat)
    requires HandlerSave(s, s2, j, snapshot) && id in s2.calls
    ensures NewOrFollows(s, s2, id)
  {
  }

  lemma OwnStepFollows(s: State, s2: State, j: nat, c2: Call, id: nat)
    requires OwnStep(s, s2, j, c2) && id in s2.calls
    ensures NewOrFollows(s, s2, id)
  {
    AdvanceFollows(s, s.calls[j], c2);
  }

  lemma StartFollows(s: State, s2: State, j: nat, end: nat, id: nat)
    requires StartCall(s, s2, j, end) && id in s2.calls
    ensures NewOrFollows(s, s2, id)
  {
  }

  lemma StepFollows(s: State, s2: State, id: nat)
    requires Next(s, s2) && id in s2.calls
    ensures NewOrFollows(s, s2, id)
  {
    if j: nat :| CallStep(s, s2, j) {
      if end: nat :| StartCall(s, s2, j, end) {
        StartFollows(s, s2, j, end, id);
      } else if snapshot: bool :| HandlerSave(s, s2, j, snapshot) {
        SaveFollows(s, s2, j, snapshot, id);
      } else {
        var c2 :| OwnStep(s, s2, j, c2);
        OwnStepFollows(s, s2, j, c2, id);
      }
    } else if i: nat, x: nat :| ConfigStep(s, s2, i, x) {
      ConfigStepCalls(s, s2, i, x);
    }
  }

  /** The same along a run; the target of an answered call is known. */
  lemma RunFollows(run: seq<State>, k: nat, id: nat)
    requires Run(run) && k + 1 < |run| && id in run[k + 1].calls
    ensures NewOrFollows(run[k], run[k + 1], id)
    ensures id in run[k].calls && Acked(run[k].calls[id]) ==> run[k].calls[id].target.Target?
  {
    RunStep(run, k);
    StepFollows(run[k], run[k + 1], id);
    assert id in run[k].calls ==> CallOk(run[k], run[k].calls[id]);
  }

  /** In state j the call, then without a target, was on an enabled end that was connected to
      the server name of c, under which the instance of c was on the net. */
  ghost predicate DirectedAt(run: seq<State>, j: nat, id: nat, c: Call)
    requires j < |run|
  {
    id in run[j].calls && run[j].calls[id].end == c.end && run[j].calls[id].target.Unknown? && Wired(run[j], c.end, c.target)
  }

  /** In state j its handler had returned, the end was enabled and the instance on the net; the
      next step decided the reply. */
  ghost predicate ConfirmedAt(run: seq<State>, j: nat, id: nat, c: Call)
    requires j + 1 < |run|
  {
    && id in run[j].calls && run[j].calls[id].end == c.end && run[j].calls[id].target == c.target
    && run[j].calls[id].reply == Pending && run[j].calls[id].handler.Returned? && Reachable(run[j], c.end, c.target)
    && id in run[j + 1].calls && run[j + 1].calls[id].reply == Decided(true)
  }

  /** Every call goes to the instance that its end was connected to at some earlier time. */
  lemma {:induction false} DirectedByEnd(run: seq<State>, k: nat, id: nat)
    requires Run(run) && k < |run| && id in run[k].calls && run[k].calls[id].target.Target?
    ensures exists j: nat :: j < k && DirectedAt(run, j, id, run[k].calls[id])
  {
    if k > 0 {
      RunFollows(run, k - 1, id);
      if run[k - 1].calls[id].target == run[k].calls[id].target {
        DirectedByEnd(run, k - 1, id);
        var j: nat :| j < k - 1 && DirectedAt(run, j, id, run[k - 1].calls[id]);
        assert DirectedAt(run, j, id, run[k].calls[id]);
      } else {
        assert DirectedAt(run, k - 1, id, run[k].calls[id]);
      }
    }
  }

  /** A call answered with true had its end enabled and that instance on the net at the final check. */
  lemma {:induction false} ConfirmedAtEnd(run: seq<State>, k: nat, id: nat)
    requires Run(run) && k < |run| && id in run[k].calls && Acked(run[k].calls[id])
    ensures exists j: nat :: j + 1 <= k && ConfirmedAt(run, j, id, run[k].calls[id])
  {
    if k > 0 {
      RunFollows(run, k - 1, id);
      var c, c2 := run[k - 1].calls[id], run[k].calls[id];
      if Acked(c) {
        ConfirmedAtEnd(run, k - 1, id);
        var j: nat :| j + 1 <= k - 1 && ConfirmedAt(run, j, id, c);
        assert ConfirmedAt(run, j, id, c2);
      } else {
        assert ConfirmedAt(run, k - 1, id, c2);
      }
    }
  }

  // ---------- snapshots ----------

  /** What the current Persister of a server holds. */
  function ContentOf(s: State, i: nat): Stored {
    if i in s.saved && s.saved[i] in s.persisters then s.persisters[s.saved[i]] else Stored(0, 0)
  }

  /** The last step of crash1. */
  ghost predicate CrashEnds(s: State, s2: State, i: nat) { exists pid: nat :: ResaveRaft(s, s2, i, pid) }

  /** The snapshot in the current Persister of `i` is the same or one just saved. */
  ghost predicate SnapGoesOn(s: State, s2: State, i: nat) {
    ContentOf(s2, i).snap == ContentOf(s, i).snap || ContentOf(s2, i).snap == s2.clock > s.clock
  }

  lemma SaveGoesOn(s: State, s2: State, pid: nat, snapshot: bool, i: nat)
    requires Stamps(s) && pid in s.persisters && s2.saved == s.saved && s2.clock == s.clock + 1
    requires s2.persisters == s.persisters[pid := Save(s.persisters[pid], s.clock + 1, snapshot)]
    ensures SnapGoesOn(s, s2, i)
  {
  }

  lemma HandlerSaveGoesOn(s: State, s2: State, id: nat, snapshot: bool, i: nat)
    requires Stamps(s) && HandlerSave(s, s2, id, snapshot)
    ensures SnapGoesOn(s, s2, i) && s.clock <= s2.clock
  {
    SaveGoesOn(s, s2, s.instances[s.calls[id].target.inst].pid, snapshot, i);
  }

  lemma InstanceSaveGoesOn(s: State, s2: State, inst: nat, snapshot: bool, i: nat)
    requires Stamps(s) && InstanceSave(s, s2, inst, snapshot)
    ensures SnapGoesOn(s, s2, i) && s.clock <= s2.clock
  {
    SaveGoesOn(s, s2, s.instances[inst].pid, snapshot, i);
  }

  /** The step touches no Persister. */
  ghost predicate Quiet(s: State, s2: State) {
    s2.saved == s.saved && s2.persisters == s.persisters && s2.clock == s.clock
  }

  lemma QuietGoesOn(s: State, s2: State, i: nat)
    requires Quiet(s, s2)
    ensures SnapGoesOn(s, s2, i) && s.clock <= s2.clock
  {
  }

  lemma OwnStepQuiet(s: State, s2: State, id: nat, c2: Call)
    requires OwnStep(s, s2, id, c2)
    ensures Quiet(s, s2) && s2.control == s.control
  {
  }

  lemma StartQuiet(s: State, s2: State, id: nat, end: nat)
    requires StartCall(s, s2, id, end)
    ensures Quiet(s, s2) && s2.control == s.control
  {
  }

  /** A step of a call is a save or touches no Persister. */
  lemma CallStepQuiet(s: State, s2: State, id: nat)
    requires CallStep(s, s2, id)
    ensures HandlerSave(s, s2, id, true) || HandlerSave(s, s2, id, false) || (Quiet(s, s2) && s2.control == s.control)
  {
    if end: nat :| StartCall(s, s2, id, end) {
      StartQuiet(s, s2, id, end);
    } else if c2 :| OwnStep(s, s2, id, c2) {
      OwnStepQuiet(s, s2, id, c2);
    }
  }

  lemma SaveControl(s: State, s2: State, id: nat, snapshot: bool)
    requires HandlerSave(s, s2, id, snapshot)
    ensures s2.control == s.control
  {
  }

  lemma CallGoesOn(s: State, s2: State, id: nat, i: nat)
    requires Inv(s) && CallStep(s, s2, id)
    ensures SnapGoesOn(s, s2, i) && s.clock <= s2.clock
  {
    CallStepQuiet(s, s2, id);
    if snapshot: bool :| HandlerSave(s, s2, id, snapshot) {
      HandlerSaveGoesOn(s, s2, id, snapshot, i);
    } else {
      QuietGoesOn(s, s2, i);
    }
  }

  /** The Persister of `j` is superseded by a new one with the content x. */
  lemma SupersedeGoesOn(s: State, s2: State, j: nat, pid: nat, x: Stored, i: nat)
    requires Stamps(s) && pid !in s.persisters && s2.clock == s.clock && x.snap == ContentOf(s, j).snap
    requires s2.saved == s.saved[j := pid] && s2.persisters == s.persisters[pid := x]
    ensures SnapGoesOn(s, s2, i)
  {
  }

  /** A crash of another server does not matter. */
  lemma OtherCrashGoesOn(s: State, s2: State, j: nat, pid: nat, i: nat)
    requires Stamps(s) && ResaveRaft(s, s2, j, pid) && i != j
    ensures SnapGoesOn(s, s2, i) && s2.clock == s.clock
  {
  }

  lemma CopyGoesOn(s: State, s2: State, j: nat, x: nat, i: nat)
    requires Stamps(s) && CopySaved(s, s2, j, x)
    ensures SnapGoesOn(s, s2, i) && s.clock <= s2.clock
  {
    if j in s.saved {
      SupersedeGoesOn(s, s2, j, x, ContentOf(s, j), i);
    } else {
      QuietGoesOn(s, s2, i);
    }
  }

  lemma FreshGoesOn(s: State, s2: State, j: nat, x: nat, i: nat)
    requires Stamps(s) && FreshPersister(s, s2, j, x)
    ensures SnapGoesOn(s, s2, i) && s.clock <= s2.clock
  {
    SupersedeGoesOn(s, s2, j, x, ContentOf(s, j), i);
  }

  lemma ServerStepQuiet(s: State, s2: State, j: nat, x: nat)
    requires DeleteServer(s, s2, j, true) || DeleteServer(s, s2, j, false) || Make(s, s2, j, x) || AddServer(s, s2, j)
    ensures Quiet(s, s2)
  {
  }

  lemma ConfigGoesOn(s: State, s2: State, j: nat, x: nat, i: nat)
    requires Inv(s) && ConfigStep(s, s2, j, x) && !CrashEnds(s, s2, i)
    ensures SnapGoesOn(s, s2, i) && s.clock <= s2.clock
  {
    if CopySaved(s, s2, j, x) {
      CopyGoesOn(s, s2, j, x, i);
    } else if FreshPersister(s, s2, j, x) {
      FreshGoesOn(s, s2, j, x, i);
    } else if ResaveRaft(s, s2, j, x) {
      OtherCrashGoesOn(s, s2, j, x, i);
    } else {
      ServerStepQuiet(s, s2, j, x);
      QuietGoesOn(s, s2, i);
    }
  }

  lemma CrashClearsBy(s: State, s2: State, i: nat, pid: nat)
    requires Stamps(s) && ResaveRaft(s, s2, i, pid)
    ensures ContentOf(s2, i) == Stored(ContentOf(s, i).raft, 0) && s2.clock == s.clock
  {
  }

  lemma CrashClears(s: State, s2: State, i: nat)
    requires Stamps(s) && CrashEnds(s, s2, i)
    ensures ContentOf(s2, i) == Stored(ContentOf(s, i).raft, 0) && s2.clock == s.clock
  {
    var pid: nat :| ResaveRaft(s, s2, i, pid);
    CrashClearsBy(s, s2, i, pid);
  }

  /** The snapshot of a server goes on from step to step, until crash1 ends and there is none. */
  lemma SnapStep(s: State, s2: State, i: nat)
    requires Inv(s) && Next(s, s2)
    ensures s.clock <= s2.clock
    ensures if CrashEnds(s, s2, i) then ContentOf(s2, i).snap == 0 else SnapGoesOn(s, s2, i)
  {
    if CrashEnds(s, s2, i) {
      CrashClears(s, s2, i);
    } else if Rewire(s, s2) {
    } else if id: nat :| CallStep(s, s2, id) {
      CallGoesOn(s, s2, id, i);
    } else if inst: nat, snapshot: bool :| InstanceSave(s, s2, inst, snapshot) {
      InstanceSaveGoesOn(s, s2, inst, snapshot, i);
    } else {
      var j: nat, x: nat :| ConfigStep(s, s2, j, x);
      ConfigGoesOn(s, s2, j, x, i);
    }
  }

  /** crash1 of `i` ends in the step after state m. */
  ghost predicate CrashAt(run: seq<State>, m: nat, i: nat) {
    m + 1 < |run| && CrashEnds(run[m], run[m + 1], i)
  }

  /** crash1 of `i` ends somewhere between the states j and k. */
  ghost predicate Crashed(run: seq<State>, j: nat, k: nat, i: nat) {
    exists m: nat :: j <= m < k && CrashAt(run, m, i)
  }

  lemma {:induction false} ClockGrows(run: seq<State>, j: nat, k: nat)
    requires Run(run) && j <= k < |run|
    ensures run[j].clock <= run[k].clock
    decreases k - j
  {
    if j < k {
      ClockGrows(run, j, k - 1);
      RunStep(run, k - 1);
      SnapStep(run[k - 1], run[k], 0);
    }
  }

  /** Without the end of a crash a snapshot is only replaced by newer ones. */
  lemma {:induction false} SnapshotStays(run: seq<State>, j: nat, k: nat, i: nat)
    requires Run(run) && j <= k < |run| && !Crashed(run, j, k, i)
    ensures ContentOf(run[j], i).snap <= ContentOf(run[k], i).snap
    decreases k - j
  {
    if j < k {
      SnapshotStays(run, j, k - 1, i);
      RunStep(run, k - 1);
      SnapStep(run[k - 1], run[k], i);
      assert !CrashAt(run, k - 1, i);
    }
  }

  /** After it there is none, or one saved later. */
  lemma {:induction false} SnapshotGone(run: seq<State>, m: nat, k: nat, i: nat)
    requires Run(run) && m < k < |run| && CrashAt(run, m, i)
    ensures ContentOf(run[k], i).snap == 0 || ContentOf(run[k], i).snap > run[m].clock
    decreases k - m
  {
    RunStep(run, k - 1);
    SnapStep(run[k - 1], run[k], i);
    if m + 1 < k {
      SnapshotGone(run, m, k - 1, i);
      ClockGrows(run, m, k - 1);
    }
  }

  /** The call `id` is decided positively in the step after state j. */
  ghost predicate AckedAt(run: seq<State>, j: nat, id: nat) {
    && j + 1 < |run| && id in run[j].calls && id in run[j + 1].calls
    && FinalCheck(run[j], run[j].calls[id], run[j + 1].calls[id], true)
    && OwnStep(run[j], run[j + 1], id, run[j + 1].calls[id])
  }

  lemma AckedStored(run: seq<State>, j: nat, id: nat)
    requires Run(run) && AckedAt(run, j, id)
    ensures var c := run[j].calls[id];
      c.target.Target? && c.handler.Returned? && c.handler.snap <= ContentOf(run[j + 1], c.target.name).snap <= run[j].clock
  {
    var s, c := run[j], run[j].calls[id];
    RunStep(run, j);
    assert CallOk(s, c);
    FinalCheckOk(s, c, run[j + 1].calls[id], true);
  }

  /** An acknowledged snapshot stays, or is replaced by a newer one, exactly as long as no
      crash1 of its server has ended; after that there is none or one that was saved after
      the crash.  (The save of the Raft state has no such condition, see
      AcknowledgedIsDurable.) */
  lemma AcknowledgedSnapshot(run: seq<State>, j: nat, k: nat, id: nat)
    requires Run(run) && AckedAt(run, j, id) && j < k < |run|
    ensures var c := run[j].calls[id];
      && c.target.Target? && c.handler.Returned?
      && var now, i := ContentOf(run[k], c.target.name).snap, c.target.name;
      && (!Crashed(run, j + 1, k, i) ==> c.handler.snap <= now)
      && (Crashed(run, j + 1, k, i) ==> now == 0 || now > c.handler.snap)
      && (0 < c.handler.snap && now <= c.handler.snap ==> (now == c.handler.snap <==> !Crashed(run, j + 1, k, i)))
  {
    var c := run[j].calls[id];
    AckedStored(run, j, id);
    var i := c.target.name;
    if m: nat :| j + 1 <= m < k && CrashAt(run, m, i) {
      SnapshotGone(run, m, k, i);
      ClockGrows(run, j, m);
    } else {
      SnapshotStays(run, j + 1, k, i);
    }
  }

  // ---------- one crash ----------

  predicate InCrash(c: Control) { c.Deleted? || c.Copied? }

  lemma SaveElsewhere(s: State, s2: State, inst: nat, x: Stored, i: nat)
    requires Stamps(s) && Isolated(s) && i in s.saved && ControlOf(s, i).Copied? && inst in s.instances
    requires s2.saved == s.saved && s2.persisters == s.persisters[s.instances[inst].pid := x]
    ensures ContentOf(s2, i) == ContentOf(s, i)
  {
    assert Unused(s, i);
  }

  lemma ConfigElsewhere(s: State, s2: State, j: nat, x: nat, i: nat)
    requires Stamps(s) && ConfigStep(s, s2, j, x) && i in s.saved && i != j
    ensures ContentOf(s2, i) == ContentOf(s, i) && ControlOf(s2, i) == ControlOf(s, i) && i in s2.saved
  {
    if CopySaved(s, s2, j, x) || FreshPersister(s, s2, j, x) || ResaveRaft(s, s2, j, x) {
      PersisterElsewhere(s, s2, j, x, i);
    } else {
      ServerStepQuiet(s, s2, j, x);
      ServerElsewhere(s, s2, j, x, i);
    }
  }

  lemma PersisterElsewhere(s: State, s2: State, j: nat, x: nat, i: nat)
    requires CopySaved(s, s2, j, x) || FreshPersister(s, s2, j, x) || ResaveRaft(s, s2, j, x)
    requires Stamps(s) && i in s.saved && i != j
    ensures ContentOf(s2, i) == ContentOf(s, i) && ControlOf(s2, i) == ControlOf(s, i) && i in s2.saved
  {
    if CopySaved(s, s2, j, x) {
      CopyElsewhere(s, s2, j, x, i);
    } else if FreshPersister(s, s2, j, x) {
      FreshElsewhere(s, s2, j, x, i);
    } else {
      ResaveElsewhere(s, s2, j, x, i);
    }
  }

  lemma CopyElsewhere(s: State, s2: State, j: nat, x: nat, i: nat)
    requires CopySaved(s, s2, j, x) && Stamps(s) && i in s.saved && i != j
    ensures ContentOf(s2, i) == ContentOf(s, i) && ControlOf(s2, i) == ControlOf(s, i) && i in s2.saved
  {
  }

  lemma FreshElsewhere(s: State, s2: State, j: nat, x: nat, i: nat)
    requires FreshPersister(s, s2, j, x) && Stamps(s) && i in s.saved && i != j
    ensures ContentOf(s2, i) == ContentOf(s, i) && ControlOf(s2, i) == ControlOf(s, i) && i in s2.saved
  {
  }

  lemma ResaveElsewhere(s: State, s2: State, j: nat, x: nat, i: nat)
    requires ResaveRaft(s, s2, j, x) && Stamps(s) && i in s.saved && i != j
    ensures ContentOf(s2, i) == ContentOf(s, i) && ControlOf(s2, i) == ControlOf(s, i) && i in s2.saved
  {
  }

  lemma ServerElsewhere(s: State, s2: State, j: nat, x: nat, i: nat)
    requires DeleteServer(s, s2, j, true) || DeleteServer(s, s2, j, false) || Make(s, s2, j, x) || AddServer(s, s2, j)
    requires i != j
    ensures ControlOf(s2, i) == ControlOf(s, i)
  {
  }

  /** Between the copy and the end of crash1 nobody writes to the copy. */
  lemma CopyUntouched(s: State, s2: State, i: nat)
    requires Inv(s) && Next(s, s2) && i in s.saved && ControlOf(s, i).Copied? && ControlOf(s2, i).Copied?
    ensures ContentOf(s2, i) == ContentOf(s, i) && i in s2.saved
  {
    if i': nat, x: nat :| ConfigStep(s, s2, i', x) {
      if i' == i {
        CopiedStep(s, s2, i, x);
        ResaveControl(s, s2, i, x);
      } else {
        ConfigElsewhere(s, s2, i', x, i);
      }
    } else if inst: nat, snapshot: bool :| InstanceSave(s, s2, inst, snapshot) {
      SaveElsewhere(s, s2, inst, Save(s.persisters[s.instances[inst].pid], s.clock + 1, snapshot), i);
    } else if id: nat :| CallStep(s, s2, id) {
      CallUntouched(s, s2, id, i);
    }
  }

  lemma HandlerSaveUntouched(s: State, s2: State, id: nat, snapshot: bool, i: nat)
    requires Inv(s) && HandlerSave(s, s2, id, snapshot) && i in s.saved && ControlOf(s, i).Copied?
    ensures ContentOf(s2, i) == ContentOf(s, i) && i in s2.saved
  {
    var inst := s.calls[id].target.inst;
    SaveElsewhere(s, s2, inst, Save(s.persisters[s.instances[inst].pid], s.clock + 1, snapshot), i);
  }

  lemma CallUntouched(s: State, s2: State, id: nat, i: nat)
    requires Inv(s) && CallStep(s, s2, id) && i in s.saved && ControlOf(s, i).Copied?
    ensures ContentOf(s2, i) == ContentOf(s, i) && i in s2.saved
  {
    CallStepQuiet(s, s2, id);
    if snapshot: bool :| HandlerSave(s, s2, id, snapshot) {
      HandlerSaveUntouched(s, s2, id, snapshot, i);
    }
  }

  /** The steps of crash1 itself: after DeleteServer comes the copy, ... */
  lemma DeletedStep(s: State, s2: State, i: nat, x: nat)
    requires ConfigStep(s, s2, i, x) && ControlOf(s, i).Deleted?
    ensures CopySaved(s, s2, i, x)
  {
  }

  lemma CopyKeepsContent(s: State, s2: State, i: nat, x: nat)
    requires Stamps(s) && CopySaved(s, s2, i, x)
    ensures ControlOf(s2, i).Copied? && ContentOf(s2, i) == ContentOf(s, i)
  {
  }

  /** ... and after that the last step. */
  lemma CopiedStep(s: State, s2: State, i: nat, x: nat)
    requires ConfigStep(s, s2, i, x) && ControlOf(s, i).Copied?
    ensures ResaveRaft(s, s2, i, x)
  {
  }

  lemma ResaveControl(s: State, s2: State, i: nat, x: nat)
    requires ResaveRaft(s, s2, i, x)
    ensures !InCrash(ControlOf(s2, i))
  {
  }

  lemma CallControl(s: State, s2: State, id: nat)
    requires CallStep(s, s2, id)
    ensures s2.control == s.control
  {
    CallStepQuiet(s, s2, id);
    if snapshot: bool :| HandlerSave(s, s2, id, snapshot) {
      SaveControl(s, s2, id, snapshot);
    }
  }

  lemma ControlStays(s: State, s2: State, i: nat)
    requires Inv(s) && Next(s, s2) && i in s.saved && ControlOf(s2, i) != ControlOf(s, i)
    ensures exists x: nat :: ConfigStep(s, s2, i, x)
  {
    if id: nat :| CallStep(s, s2, id) {
      CallControl(s, s2, id);
    } else if i': nat, x: nat :| ConfigStep(s, s2, i', x) {
      if i' != i {
        ConfigElsewhere(s, s2, i', x, i);
      }
    }
  }

  lemma {:induction false} SavedStays(run: seq<State>, a: nat, b: nat, i: nat)
    requires Run(run) && a <= b < |run| && i in run[a].saved
    ensures i in run[b].saved && ContentOf(run[a], i).raft <= ContentOf(run[b], i).raft
    decreases b - a
  {
    RunInv(run, a);
    if a < b {
      SavedStays(run, a, b - 1, i);
      RunStep(run, b - 1);
      NextInv(run[b - 1], run[b]);
    }
  }

  ghost predicate Copies(s: State, s2: State, i: nat) { exists x: nat :: CopySaved(s, s2, i, x) }

  /** The copy of crash1 is made in the step after state c. */
  ghost predicate CopyAt(run: seq<State>, c: nat, i: nat) { c + 1 < |run| && Copies(run[c], run[c + 1], i) }

  lemma FromDeleted(s: State, s2: State, i: nat)
    requires Inv(s) && Next(s, s2) && i in s.saved && ControlOf(s, i).Deleted? && !ControlOf(s2, i).Deleted?
    ensures Copies(s, s2, i) && ContentOf(s2, i) == ContentOf(s, i)
  {
    ControlStays(s, s2, i);
    var x: nat :| ConfigStep(s, s2, i, x);
    DeletedStep(s, s2, i, x);
    CopyKeepsContent(s, s2, i, x);
  }

  lemma FromCopied(s: State, s2: State, i: nat)
    requires Inv(s) && Next(s, s2) && i in s.saved && ControlOf(s, i).Copied? && InCrash(ControlOf(s2, i))
    ensures ControlOf(s2, i).Copied? && ContentOf(s2, i) == ContentOf(s, i)
  {
    if ControlOf(s2, i).Deleted? {
      ControlStays(s, s2, i);
      var x: nat :| ConfigStep(s, s2, i, x);
      CopiedStep(s, s2, i, x);
      ResaveControl(s, s2, i, x);
    } else {
      CopyUntouched(s, s2, i);
    }
  }

  /** One step of a crash1 that started at a. */
  lemma CrashStep(run: seq<State>, a: nat, k: nat, i: nat)
    requires Run(run) && a <= k && k + 1 < |run| && i in run[a].saved
    requires InCrash(ControlOf(run[k], i)) && InCrash(ControlOf(run[k + 1], i))
    ensures ControlOf(run[k], i).Copied? ==> ControlOf(run[k + 1], i).Copied?
    ensures ControlOf(run[k + 1], i).Copied? ==> ContentOf(run[k + 1], i) == ContentOf(run[k], i)
    ensures ControlOf(run[k], i).Deleted? && ControlOf(run[k + 1], i).Copied? ==> CopyAt(run, k, i)
  {
    RunStep(run, k);
    SavedStays(run, a, k, i);
    if ControlOf(run[k], i).Copied? {
      FromCopied(run[k], run[k + 1], i);
    } else if ControlOf(run[k + 1], i).Copied? {
      FromDeleted(run[k], run[k + 1], i);
    }
  }

  ghost predicate Crashing(run: seq<State>, a: nat, b: nat, i: nat)
    requires b < |run|
  {
    forall m: nat :: a < m <= b ==> InCrash(ControlOf(run[m], i))
  }

  lemma {:induction false} CopyPoint(run: seq<State>, a: nat, b: nat, i: nat) returns (c: nat)
    requires Run(run) && a < b < |run| && i in run[a].saved && Crashing(run, a, b, i)
    requires ControlOf(run[a + 1], i).Deleted? && ControlOf(run[b], i).Copied?
    ensures a < c < b && ControlOf(run[c], i).Deleted? && CopyAt(run, c, i) && ContentOf(run[b], i) == ContentOf(run[c], i)
    decreases b
  {
    CrashStep(run, a, b - 1, i);
    if ControlOf(run[b - 1], i).Copied? {
      c := CopyPoint(run, a, b - 1, i);
    } else {
      c := b - 1;
    }
  }

  /** Before the copy the server is only deleted. */
  lemma {:induction false} StillDeleted(run: seq<State>, a: nat, c: nat, m: nat, i: nat)
    requires Run(run) && a < m <= c < |run| && i in run[a].saved && Crashing(run, a, c, i) && ControlOf(run[c], i).Deleted?
    ensures ControlOf(run[m], i).Deleted?
    decreases c
  {
    if m < c {
      CrashStep(run, a, c - 1, i);
      StillDeleted(run, a, c - 1, m, i);
    }
  }

  lemma CrashNeedsCopy(run: seq<State>, m: nat, i: nat)
    ensures CrashAt(run, m, i) ==> ControlOf(run[m], i).Copied?
  {
  }

  lemma NotCrashed(run: seq<State>, a: nat, c: nat, i: nat)
    requires Run(run) && a < c < |run| && i in run[a].saved && Crashing(run, a, c, i) && ControlOf(run[c], i).Deleted?
    requires !ControlOf(run[a], i).Copied?
    ensures !Crashed(run, a, c, i)
  {
    forall m: nat | a <= m < c ensures !CrashAt(run, m, i) {
      CrashNeedsCopy(run, m, i);
      if a < m {
        StillDeleted(run, a, c, m, i);
      }
    }
  }

  /** A whole crash1 of server `i`, from DeleteServer in the step after a to its last step
      after b, with anything in between: up to the copy, after c, nothing is lost; the Raft
      state of the copy is kept; and the copy is kept if and only if no snapshot had been saved. */
  lemma CrashKeepsExactly(run: seq<State>, a: nat, b: nat, i: nat, restart: bool) returns (c: nat)
    requires Run(run) && a < b && CrashAt(run, b, i) && i in run[a].saved && Crashing(run, a, b, i)
    requires DeleteServer(run[a], run[a + 1], i, restart)
    ensures a < c < b && CopyAt(run, c, i) && NotOlder(ContentOf(run[a], i), ContentOf(run[c], i))
    ensures ContentOf(run[b + 1], i).raft == ContentOf(run[c], i).raft
    ensures ContentOf(run[b + 1], i) == ContentOf(run[c], i) <==> ContentOf(run[c], i).snap == 0
  {
    CrashNeedsCopy(run, b, i);
    c := CopyPoint(run, a, b, i);
    SavedStays(run, a, c, i);
    NotCrashed(run, a, c, i);
    SnapshotStays(run, a, c, i);
    RunInv(run, b);
    CrashClears(run[b], run[b + 1], i);
  }

  // ---------- a run that loses an acknowledged snapshot ----------

  lemma Extend(run: seq<State>, s: State)
    requires Run(run) && Next(run[|run| - 1], s)
    ensures Run(run + [s])
  {
    var more := run + [s];
    forall i: nat | i + 1 < |more| ensures StepAt(more, i) {
      if i + 1 < |run| {
        assert StepAt(run, i);
      }
    }
  }

  lemma ExtendConfig(run: seq<State>, s: State, i: nat, x: nat)
    requires Run(run) && ConfigStep(run[|run| - 1], s, i, x)
    ensures Run(run + [s])
  {
    Extend(run, s);
  }

  lemma ExtendCall(run: seq<State>, id: nat, c2: Call) returns (s: State)
    requires Run(run) && id in run[|run| - 1].calls && Advance(run[|run| - 1], run[|run| - 1].calls[id], c2)
    ensures s == run[|run| - 1].(calls := run[|run| - 1].calls[id := c2]) && Run(run + [s])
  {
    s := run[|run| - 1].(calls := run[|run| - 1].calls[id := c2]);
    assert OwnStep(run[|run| - 1], s, id, c2);
    assert CallStep(run[|run| - 1], s, id);
    Extend(run, s);
  }

  /** One end, connected to server 0. */
  function Net(servers: map<nat, nat>, instances: map<nat, Instance>, persisters: map<nat, Stored>, saved: map<nat, nat>,
               control: Control, calls: map<nat, Call>, clock: nat): State
  {
    State(map[0 := true], map[0 := 0], servers, instances, persisters, saved, map[0 := control], calls, clock)
  }

  function Serving(persisters: map<nat, Stored>, calls: map<nat, Call>, clock: nat): State {
    Net(map[0 := 0], map[0 := Instance(0, 1)], persisters, map[0 := 1], Steady, calls, clock)
  }

  /** start1 from nothing: crash1 finds nothing to save. */
  lemma Started() returns (run: seq<State>)
    ensures Run(run) && run[|run| - 1] == Serving(map[1 := Stored(0, 0)], map[], 0)
  {
    var s0 := State(map[0 := true], map[0 := 0], map[], map[], map[], map[], map[], map[], 0);
    run := [s0];
    var s1 := Net(map[], map[], map[], map[], Deleted(true), map[], 0);
    assert DeleteServer(s0, s1, 0, true);
    ExtendConfig(run, s1, 0, 0);
    run := run + [s1];
    var s2 := Net(map[], map[], map[], map[], Copied(true), map[], 0);
    assert CopySaved(s1, s2, 0, 0);
    ExtendConfig(run, s2, 0, 0);
    run := run + [s2];
    var s3 := Net(map[], map[], map[], map[], Prepared, map[], 0);
    assert ResaveRaft(s2, s3, 0, 0);
    ExtendConfig(run, s3, 0, 0);
    run := run + [s3];
    run := Restarted(run);
  }

  lemma Restarted(run0: seq<State>) returns (run: seq<State>)
    requires Run(run0) && run0[|run0| - 1] == Net(map[], map[], map[], map[], Prepared, map[], 0)
    ensures Run(run) && run[|run| - 1] == Serving(map[1 := Stored(0, 0)], map[], 0)
  {
    run := run0;
    var s3 := run[|run| - 1];
    var s4 := Net(map[], map[], map[1 := Stored(0, 0)], map[0 := 1], Replaced, map[], 0);
    assert FreshPersister(s3, s4, 0, 1);
    ExtendConfig(run, s4, 0, 1);
    run := run + [s4];
    var s5 := Net(map[], map[0 := Instance(0, 1)], map[1 := Stored(0, 0)], map[0 := 1], Made(0), map[], 0);
    assert Make(s4, s5, 0, 0);
    ExtendConfig(run, s5, 0, 0);
    run := run + [s5];
    var s6 := Serving(map[1 := Stored(0, 0)], map[], 0);
    assert AddServer(s5, s6, 0);
    ExtendConfig(run, s6, 0, 0);
    run := run + [s6];
  }

  /** A call whose handler has begun. */
  lemma CallBegun(run0: seq<State>) returns (run: seq<State>)
    requires Run(run0) && run0[|run0| - 1] == Serving(map[1 := Stored(0, 0)], map[], 0)
    ensures Run(run)
    ensures run[|run| - 1] == Serving(map[1 := Stored(0, 0)], map[0 := Call(0, Target(0, 0), Executing(0, 0), 1, Pending, 0)], 0)
  {
    run := run0;
    var c := Call(0, Unknown, NotStarted, 0, Pending, 0);
    var s7 := Serving(map[1 := Stored(0, 0)], map[0 := c], 0);
    assert StartCall(run[|run| - 1], s7, 0, 0);
    assert CallStep(run[|run| - 1], s7, 0);
    Extend(run, s7);
    run := run + [s7];
    assert Find(s7, c, c.(target := Target(0, 0)));
    var s8 := ExtendCall(run, 0, c.(target := Target(0, 0)));
    run := run + [s8];
    c := c.(target := Target(0, 0));
    assert s8 == Serving(map[1 := Stored(0, 0)], map[0 := c], 0);
    var s9 := ExtendCall(run, 0, c.(handler := Executing(0, 0), runs := 1));
    run := run + [s9];
    assert s9 == Serving(map[1 := Stored(0, 0)], map[0 := c.(handler := Executing(0, 0), runs := 1)], 0);
  }

  /** ... saves a snapshot and returns, and which is acknowledged. */
  lemma CallSaved(run0: seq<State>) returns (run: seq<State>)
    requires Run(run0)
    requires run0[|run0| - 1] == Serving(map[1 := Stored(0, 0)], map[0 := Call(0, Target(0, 0), Executing(0, 0), 1, Pending, 0)], 0)
    ensures Run(run)
    ensures run[|run| - 1] == Serving(map[1 := Stored(0, 1)], map[0 := Call(0, Target(0, 0), Returned(0, 1), 1, Pending, 0)], 1)
  {
    run := run0;
    var c := Call(0, Target(0, 0), Executing(0, 1), 1, Pending, 0);
    var s10 := Serving(map[1 := Stored(0, 1)], map[0 := c], 1);
    assert HandlerSave(run[|run| - 1], s10, 0, true);
    assert CallStep(run[|run| - 1], s10, 0);
    Extend(run, s10);
    run := run + [s10];
    var s11 := ExtendCall(run, 0, c.(handler := Returned(0, 1)));
    c := c.(handler := Returned(0, 1));
    assert s11 == Serving(map[1 := Stored(0, 1)], map[0 := c], 1);
    run := run + [s11];
  }

  lemma CallAnswered(run0: seq<State>) returns (run: seq<State>)
    requires Run(run0)
    requires run0[|run0| - 1] == Serving(map[1 := Stored(0, 1)], map[0 := Call(0, Target(0, 0), Returned(0, 1), 1, Pending, 0)], 1)
    ensures Run(run)
    ensures run[|run| - 1] == Serving(map[1 := Stored(0, 1)], map[0 := Call(0, Target(0, 0), Returned(0, 1), 1, Sent(true), 1)], 1)
  {
    run := run0;
    var s11, c := run[|run| - 1], Call(0, Target(0, 0), Returned(0, 1), 1, Pending, 0);
    assert FinalCheck(s11, c, c.(reply := Decided(true)), true);
    var s12 := ExtendCall(run, 0, c.(reply := Decided(true)));
    c := c.(reply := Decided(true));
    assert s12 == Serving(map[1 := Stored(0, 1)], map[0 := c], 1);
    run := run + [s12];
    var s13 := ExtendCall(run, 0, c.(reply := Sent(true), replies := 1));
    assert s13 == Serving(map[1 := Stored(0, 1)], map[0 := c.(reply := Sent(true), replies := 1)], 1);
    run := run + [s13];
  }

  lemma CopiedAfter(run0: seq<State>, calls: map<nat, Call>) returns (run: seq<State>)
    requires Run(run0) && run0[|run0| - 1] == Serving(map[1 := Stored(0, 1)], calls, 1)
    ensures Run(run)
    ensures run[|run| - 1] == Net(map[], map[0 := Instance(0, 1)], map[1 := Stored(0, 1), 2 := Stored(0, 1)], map[0 := 2], Copied(false), calls, 1)
  {
    run := run0;
    var ins, kept := map[0 := Instance(0, 1)], map[1 := Stored(0, 1)];
    var s13 := run[|run| - 1];
    var s14 := Net(map[], ins, kept, map[0 := 1], Deleted(false), calls, 1);
    assert s13.servers - {0} == map[];
    assert DeleteServer(s13, s14, 0, false);
    ExtendConfig(run, s14, 0, 0);
    run := run + [s14];
    var s15 := Net(map[], ins, kept[2 := Stored(0, 1)], map[0 := 2], Copied(false), calls, 1);
    assert CopySaved(s14, s15, 0, 2);
    ExtendConfig(run, s15, 0, 2);
    run := run + [s15];
  }

  lemma CrashedAfter(run0: seq<State>, calls: map<nat, Call>) returns (run: seq<State>)
    requires Run(run0) && run0[|run0| - 1] == Serving(map[1 := Stored(0, 1)], calls, 1)
    ensures Run(run) && run[|run| - 1].calls == calls && ContentOf(run[|run| - 1], 0) == Stored(0, 0)
  {
    run := CopiedAfter(run0, calls);
    var s15 := run[|run| - 1];
    var s16 := s15.(persisters := s15.persisters[3 := Stored(0, 0)], saved := map[0 := 3], control := map[0 := Steady]);
    assert ResaveRaft(s15, s16, 0, 3);
    ExtendConfig(run, s16, 0, 3);
    run := run + [s16];
  }

  /** start1, a call whose handler saves a snapshot and which returns true, crash1: the
      acknowledged snapshot is gone. */
  lemma SnapshotLost() returns (run: seq<State>)
    ensures Run(run)
    ensures var s := run[|run| - 1];
      && 0 in s.calls && s.calls[0].reply == Sent(true) && s.calls[0].handler == Returned(0, 1)
      && s.calls[0].target == Target(0, 0) && ContentOf(s, 0).snap == 0
  {
    run := Started();
    run := CallBegun(run);
    run := CallSaved(run);
    run := CallAnswered(run);
    run := CrashedAfter(run, run[|run| - 1].calls);
  }
}
