/** The simulated network and the crash/restart protocol around it
    (mit_6.824/src/labrpc/labrpc.go, raft/persister.go, raft/config.go) as a step
    system.  A server instance cannot really be killed: its handlers go on
    running, and saving, after it was deleted and replaced. */
module Labrpc {

  /** What a Persister holds: the stamps of the saves its contents come from;
      0 is the empty initial state.  Stamps grow with time. */
  datatype Stored = Stored(raft: nat, snap: nat)

  /** A server object: which server it is an instance of, and its Persister. */
  datatype Instance = Instance(name: nat, pid: nat)

  /** The goroutine that executes the request, with the stamps of its last saves of
      the Raft state and of a snapshot; 0 if there was none. */
  datatype Handler = NotStarted | Executing(last: nat, snap: nat) | Returned(last: nat, snap: nat)

  datatype Reply = Pending | Decided(ok: bool) | Sent(ok: bool)

  datatype Target = Unknown | Target(name: nat, inst: nat)

  /** One ClientEnd.Call and the ProcessReq goroutine that serves it. */
  datatype Call = Call(end: nat, target: Target, handler: Handler, runs: nat, reply: Reply, replies: nat)

  /** Where crash1 or start1 is, for one server. */
  datatype Control =
    | Steady
    | Deleted(restart: bool)    // DeleteServer done
    | Copied(restart: bool)     // the first copy done
    | Prepared                  // start1: crash1 done
    | Replaced                  // start1: its own copy done
    | Made(inst: nat)           // start1: Make done, AddServer to come

  datatype State = State(
    enabled: map<nat, bool>,
    connections: map<nat, nat>,
    servers: map<nat, nat>,         // the instance of each server that is on the net
    instances: map<nat, Instance>,
    persisters: map<nat, Stored>,
    saved: map<nat, nat>,           // cfg.saved: the Persister of each server
    control: map<nat, Control>,
    calls: map<nat, Call>,
    clock: nat)

  ghost predicate Init(s: State) {
    s.servers == map[] && s.instances == map[] && s.persisters == map[] && s.saved == map[] && s.control == map[] && s.calls == map[]
  }

  // ---------- the network ----------

  ghost predicate IsServerDead(s: State, c: Call) {
    c.target.Unknown? || !(c.end in s.enabled && s.enabled[c.end]) ||
    !(c.target.name in s.servers && s.servers[c.target.name] == c.target.inst)
  }

  /** Enable and Connect, by any thread at any time. */
  ghost predicate Rewire(s: State, s2: State) {
    s2 == s.(enabled := s2.enabled, connections := s2.connections)
  }

  ghost predicate StartCall(s: State, s2: State, id: nat, end: nat) {
    id !in s.calls && s2 == s.(calls := s.calls[id := Call(end, Unknown, NotStarted, 0, Pending, 0)])
  }

  /** ReadEndnameInfo would find a server. */
  ghost predicate Found(s: State, c: Call) {
    c.end in s.enabled && s.enabled[c.end] && c.end in s.connections && s.connections[c.end] in s.servers
  }

  /** The steps by which a call `c` gets on, to `c2`.  ReadEndnameInfo finds a server, ... */
  ghost predicate Find(s: State, c: Call, c2: Call) {
    && c.target.Unknown? && c.reply == Pending && Found(s, c)
    && c2 == c.(target := Target(s.connections[c.end], s.servers[s.connections[c.end]]))
  }

  /** ... or does not, ... */
  ghost predicate NotFound(s: State, c: Call, c2: Call) {
    c.target.Unknown? && c.reply == Pending && !Found(s, c) && c2 == c.(reply := Decided(false))
  }

  /** ... or the request is dropped before it is executed. */
  ghost predicate Drop(c: Call, c2: Call) {
    c.target.Target? && c.reply == Pending && c.handler.NotStarted? && c2 == c.(reply := Decided(false))
  }

  /** server.dispatch begins. */
  ghost predicate Dispatch(c: Call, c2: Call) {
    && c.target.Target? && c.handler.NotStarted? && c.reply == Pending
    && c2 == c.(handler := Executing(0, 0), runs := c.runs + 1)
  }

  ghost predicate HandlerReturn(c: Call, c2: Call) {
    c.handler.Executing? && c2 == c.(handler := Returned(c.handler.last, c.handler.snap))
  }

  /** The waiting loop notices that the server is dead. */
  ghost predicate GiveUp(s: State, c: Call, c2: Call) {
    && c.reply == Pending && !c.handler.NotStarted? && IsServerDead(s, c)
    && c2 == c.(reply := Decided(false))
  }

  /** The handler has returned; the final IsServerDead test, then perhaps a
      dropped reply.  A positive decision may be delivered much later. */
  ghost predicate FinalCheck(s: State, c: Call, c2: Call, ok: bool) {
    && c.reply == Pending && c.handler.Returned? && (ok ==> !IsServerDead(s, c))
    && c2 == c.(reply := Decided(ok))
  }

  ghost predicate Deliver(c: Call, c2: Call) {
    c.reply.Decided? && c2 == c.(reply := Sent(c.reply.ok), replies := c.replies + 1)
  }

  ghost predicate Advance(s: State, c: Call, c2: Call) {
    || Find(s, c, c2) || NotFound(s, c, c2) || Drop(c, c2) || Dispatch(c, c2) || HandlerReturn(c, c2)
    || GiveUp(s, c, c2) || FinalCheck(s, c, c2, true) || FinalCheck(s, c, c2, false) || Deliver(c, c2)
  }

  ghost predicate OwnStep(s: State, s2: State, id: nat, c2: Call) {
    id in s.calls && Advance(s, s.calls[id], c2) && s2 == s.(calls := s.calls[id := c2])
  }

  /** A Persister after a save with the given stamp. */
  function Save(x: Stored, stamp: nat, snapshot: bool): Stored {
    if snapshot then x.(snap := stamp) else x.(raft := stamp)
  }

  /** A handler saves its state in the Persister of its own instance. */
  ghost predicate HandlerSave(s: State, s2: State, id: nat, snapshot: bool) {
    && id in s.calls && s.calls[id].target.Target? && s.calls[id].handler.Executing?
    && s.calls[id].target.inst in s.instances
    && var pid, h := s.instances[s.calls[id].target.inst].pid, s.calls[id].handler;
       && pid in s.persisters
       && s2 == s.(clock := s.clock + 1,
                   persisters := s.persisters[pid := Save(s.persisters[pid], s.clock + 1, snapshot)],
                   calls := s.calls[id := s.calls[id].(handler :=
                     if snapshot then Executing(h.last, s.clock + 1) else Executing(s.clock + 1, h.snap))])
  }

  // ---------- instances between requests ----------

  /** An instance, even a deleted one, saves its state on its own account. */
  ghost predicate InstanceSave(s: State, s2: State, inst: nat, snapshot: bool) {
    && inst in s.instances && s.instances[inst].pid in s.persisters
    && var pid := s.instances[inst].pid;
       s2 == s.(clock := s.clock + 1,
                persisters := s.persisters[pid := Save(s.persisters[pid], s.clock + 1, snapshot)])
  }

  // ---------- crash1 and start1 ----------

  function ControlOf(s: State, i: nat): Control {
    if i in s.control then s.control[i] else Steady
  }

  ghost predicate DeleteServer(s: State, s2: State, i: nat, restart: bool) {
    && ControlOf(s, i) == Steady
    && s2 == s.(servers := s.servers - {i}, control := s.control[i := Deleted(restart)])
  }

  /** saved[i] = saved[i].Copy(), if there is one. */
  ghost predicate CopySaved(s: State, s2: State, i: nat, pid: nat) {
    && ControlOf(s, i).Deleted? && pid !in s.persisters
    && var next := Copied(ControlOf(s, i).restart);
       if i in s.saved && s.saved[i] in s.persisters
       then s2 == s.(persisters := s.persisters[pid := s.persisters[s.saved[i]]],
                     saved := s.saved[i := pid], control := s.control[i := next])
       else s2 == s.(control := s.control[i := next])
  }

  /** After Kill: a new Persister that gets the Raft state, and only that. */
  ghost predicate ResaveRaft(s: State, s2: State, i: nat, pid: nat) {
    && ControlOf(s, i).Copied? && pid !in s.persisters
    && var next := if ControlOf(s, i).restart then Prepared else Steady;
       if i in s.saved && s.saved[i] in s.persisters
       then s2 == s.(persisters := s.persisters[pid := Stored(s.persisters[s.saved[i]].raft, 0)],
                     saved := s.saved[i := pid], control := s.control[i := next])
       else s2 == s.(control := s.control[i := next])
  }

  /** start1: saved[i] = saved[i].Copy(), or MakePersister(). */
  ghost predicate FreshPersister(s: State, s2: State, i: nat, pid: nat) {
    && ControlOf(s, i) == Prepared && pid !in s.persisters
    && s2 == s.(persisters := s.persisters[pid :=
                  if i in s.saved && s.saved[i] in s.persisters then s.persisters[s.saved[i]] else Stored(0, 0)],
                saved := s.saved[i := pid], control := s.control[i := Replaced])
  }

  /** Make(ends, i, saved[i], ...): the new instance may start saving at once. */
  ghost predicate Make(s: State, s2: State, i: nat, inst: nat) {
    && ControlOf(s, i) == Replaced && inst !in s.instances && i in s.saved
    && s2 == s.(instances := s.instances[inst := Instance(i, s.saved[i])], control := s.control[i := Made(inst)])
  }

  ghost predicate AddServer(s: State, s2: State, i: nat) {
    && ControlOf(s, i).Made?
    && s2 == s.(servers := s.servers[i := ControlOf(s, i).inst], control := s.control[i := Steady])
  }

  ghost predicate CallStep(s: State, s2: State, id: nat) {
    || (exists end: nat :: StartCall(s, s2, id, end))
    || HandlerSave(s, s2, id, true) || HandlerSave(s, s2, id, false)
    || (exists c2 :: OwnStep(s, s2, id, c2))
  }

  ghost predicate ConfigStep(s: State, s2: State, i: nat, x: nat) {
    || DeleteServer(s, s2, i, true) || DeleteServer(s, s2, i, false)
    || CopySaved(s, s2, i, x) || ResaveRaft(s, s2, i, x) || FreshPersister(s, s2, i, x)
    || Make(s, s2, i, x) || AddServer(s, s2, i)
  }

  ghost predicate Next(s: State, s2: State) {
    || Rewire(s, s2)
    || (exists id: nat :: CallStep(s, s2, id))
    || (exists inst: nat, snapshot: bool :: InstanceSave(s, s2, inst, snapshot))
    || (exists i: nat, x: nat :: ConfigStep(s, s2, i, x))
  }

  // ---------- invariants ----------

  ghost predicate Stamps(s: State) {
    && (forall p :: p in s.persisters ==> s.persisters[p].raft <= s.clock && s.persisters[p].snap <= s.clock)
    && (forall inst :: inst in s.instances ==> s.instances[inst].pid in s.persisters)
    && (forall i :: i in s.saved ==> s.saved[i] in s.persisters)
  }

  /** `inst` is an instance of `i` that uses the current Persister of `i`. */
  ghost predicate Current(s: State, i: nat, inst: nat) {
    && inst in s.instances && s.instances[inst].name == i
    && i in s.saved && s.instances[inst].pid == s.saved[i]
  }

  /** The Persister of a server is superseded only while the server is off the
      net: what is on the net always uses the current Persister. */
  ghost predicate OnNetIsCurrent(s: State) {
    && (forall i :: i in s.servers ==> ControlOf(s, i) == Steady && Current(s, i, s.servers[i]))
    && (forall i :: i in s.control && s.control[i].Made? ==> Current(s, i, s.control[i].inst))
  }

  /** Between crash1's first copy and Make no instance uses the current Persister. */
  ghost predicate Isolated(s: State) {
    && (forall i, j :: i in s.saved && j in s.saved && i != j ==> s.saved[i] != s.saved[j])
    && (forall i {:trigger Unused(s, i)} :: i in s.saved && InTransit(ControlOf(s, i)) ==> Unused(s, i))
  }

  ghost predicate Unused(s: State, i: nat)
    requires i in s.saved
  {
    forall inst :: inst in s.instances ==> s.instances[inst].pid != s.saved[i]
  }

  predicate InTransit(c: Control) { c.Copied? || c.Prepared? || c.Replaced? }

  /** The save of the handler is still in the Persister of its instance. */
  ghost predicate HandlerStored(s: State, c: Call) {
    && (c.target.Target? ==> c.target.inst in s.instances && s.instances[c.target.inst].name == c.target.name)
    && (!c.handler.NotStarted? ==>
          && c.target.Target? && s.instances[c.target.inst].pid in s.persisters
          && c.handler.last <= s.persisters[s.instances[c.target.inst].pid].raft
          && c.handler.snap <= s.persisters[s.instances[c.target.inst].pid].snap)
  }

  /** One reply at most; a positive one only after exactly one execution. */
  ghost predicate Counted(c: Call) {
    && c.runs == (if c.handler.NotStarted? then 0 else 1)
    && c.replies == (if c.reply.Sent? then 1 else 0)
    && (Acked(c) ==> c.handler.Returned?)
  }

  predicate Acked(c: Call) { !c.reply.Pending? && c.reply.ok }

  /** The current Persister of the server holds a state at least as new as the
      last save of the acknowledged handler. */
  ghost predicate Durable(s: State, c: Call) {
    Acked(c) ==>
      && c.target.Target? && c.handler.Returned? && c.target.name in s.saved && s.saved[c.target.name] in s.persisters
      && c.handler.last <= s.persisters[s.saved[c.target.name]].raft
  }

  ghost predicate CallOk(s: State, c: Call)
    requires Stamps(s)
  {
    HandlerStored(s, c) && Counted(c) && Durable(s, c)
  }

  ghost predicate Inv(s: State) {
    && Stamps(s) && OnNetIsCurrent(s) && Isolated(s)
    && forall id :: id in s.calls ==> CallOk(s, s.calls[id])
  }

  predicate NotOlder(x: Stored, y: Stored) { x.raft <= y.raft && x.snap <= y.snap }

  /** Nothing that a call relies on gets worse from `s` to `s2`. */
  ghost predicate NoLoss(s: State, s2: State) {
    && (forall p :: p in s.persisters ==> p in s2.persisters && NotOlder(s.persisters[p], s2.persisters[p]))
    && (forall inst :: inst in s.instances ==> inst in s2.instances && s2.instances[inst] == s.instances[inst])
    && (forall i :: i in s.saved && s.saved[i] in s.persisters ==>
          i in s2.saved && s2.saved[i] in s2.persisters && s.persisters[s.saved[i]].raft <= s2.persisters[s2.saved[i]].raft)
  }

  lemma NoLossCall(s: State, s2: State, c: Call)
    requires Stamps(s) && Stamps(s2) && NoLoss(s, s2) && CallOk(s, c)
    ensures CallOk(s2, c)
  {
  }

  /** What every step keeps, apart from the calls themselves. */
  ghost predicate Keeps(s: State, s2: State) {
    Stamps(s2) && OnNetIsCurrent(s2) && Isolated(s2) && NoLoss(s, s2)
  }

  lemma IsolatedStays(s: State, s2: State)
    requires Isolated(s) && s2.saved == s.saved && s2.instances == s.instances
    requires forall i :: i in s.saved && InTransit(ControlOf(s2, i)) ==> InTransit(ControlOf(s, i))
    ensures Isolated(s2)
  {
    forall i | i in s2.saved && InTransit(ControlOf(s2, i)) ensures Unused(s2, i) {
      assert Unused(s, i);
    }
  }

  /** Steps of a call that touch nothing but that call. */
  lemma CallsOnly(s: State, s2: State)
    requires Inv(s) && s2 == s.(calls := s2.calls, enabled := s2.enabled, connections := s2.connections)
    ensures Keeps(s, s2)
  {
    IsolatedStays(s, s2);
  }

  /** A save, through a handler or not. */
  lemma SaveKeeps(s: State, s2: State, pid: nat, x: Stored)
    requires Inv(s) && pid in s.persisters && s.persisters[pid].raft <= x.raft <= s.clock + 1
    requires s.persisters[pid].snap <= x.snap <= s.clock + 1
    requires s2 == s.(clock := s.clock + 1, persisters := s.persisters[pid := x], calls := s2.calls)
    ensures Keeps(s, s2)
  {
    IsolatedStays(s, s2);
  }

  lemma DeleteKeeps(s: State, s2: State, i: nat, restart: bool)
    requires Inv(s) && DeleteServer(s, s2, i, restart)
    ensures Keeps(s, s2)
  {
    IsolatedStays(s, s2);
  }

  lemma SupersedeNoLoss(s: State, s2: State, i: nat, pid: nat, x: Stored)
    requires Stamps(s) && pid !in s.persisters && x.raft <= s.clock && x.snap <= s.clock
    requires i in s.saved ==> x.raft == s.persisters[s.saved[i]].raft
    requires s2 == s.(persisters := s.persisters[pid := x], saved := s.saved[i := pid], control := s2.control)
    ensures Stamps(s2) && NoLoss(s, s2)
  {
  }

  lemma SupersedeOnNet(s: State, s2: State, i: nat, pid: nat, next: Control)
    requires OnNetIsCurrent(s) && !next.Made? && i !in s.servers && !ControlOf(s, i).Made?
    requires s2 == s.(persisters := s2.persisters, saved := s.saved[i := pid], control := s.control[i := next])
    ensures OnNetIsCurrent(s2)
  {
  }

  lemma SupersedeIsolated(s: State, s2: State, i: nat, pid: nat, next: Control)
    requires Stamps(s) && Isolated(s) && pid !in s.persisters
    requires s2 == s.(persisters := s2.persisters, saved := s.saved[i := pid], control := s.control[i := next])
    ensures Isolated(s2)
  {
    forall j | j in s2.saved && InTransit(ControlOf(s2, j)) ensures Unused(s2, j) {
      assert j != i ==> Unused(s, j);
    }
  }

  /** Superseding the Persister of a server that is off the net by a new one
      with the same Raft state. */
  lemma SupersedeKeeps(s: State, s2: State, i: nat, pid: nat, x: Stored, next: Control)
    requires Inv(s) && pid !in s.persisters && x.raft <= s.clock && x.snap <= s.clock && !next.Made? && i !in s.servers && !ControlOf(s, i).Made?
    requires i in s.saved ==> x.raft == s.persisters[s.saved[i]].raft
    requires s2 == s.(persisters := s.persisters[pid := x], saved := s.saved[i := pid], control := s.control[i := next])
    ensures Keeps(s, s2)
  {
    SupersedeNoLoss(s, s2, i, pid, x);
    SupersedeOnNet(s, s2, i, pid, next);
    SupersedeIsolated(s, s2, i, pid, next);
  }

  lemma ControlKeeps(s: State, s2: State, i: nat, next: Control)
    requires Inv(s) && !next.Made? && i !in s.servers && i !in s.saved
    requires s2 == s.(control := s.control[i := next])
    ensures Keeps(s, s2)
  {
    IsolatedStays(s, s2);
  }

  lemma MakeKeeps(s: State, s2: State, i: nat, inst: nat)
    requires Inv(s) && Make(s, s2, i, inst)
    ensures Keeps(s, s2)
  {
    forall j | j in s2.saved && InTransit(ControlOf(s2, j)) ensures Unused(s2, j) {
      assert Unused(s, j) && s.saved[j] != s.saved[i];
    }
  }

  lemma AddKeeps(s: State, s2: State, i: nat)
    requires Inv(s) && AddServer(s, s2, i)
    ensures Keeps(s, s2)
  {
    IsolatedStays(s, s2);
  }

  lemma OffNet(s: State, i: nat)
    requires Inv(s) && ControlOf(s, i) != Steady
    ensures i !in s.servers
  {
  }

  lemma CopyKeeps(s: State, s2: State, i: nat, x: nat)
    requires Inv(s) && CopySaved(s, s2, i, x)
    ensures Keeps(s, s2)
  {
    OffNet(s, i);
    var next := Copied(ControlOf(s, i).restart);
    if i in s.saved {
      SupersedeKeeps(s, s2, i, x, s.persisters[s.saved[i]], next);
    } else {
      ControlKeeps(s, s2, i, next);
    }
  }

  lemma ResaveKeeps(s: State, s2: State, i: nat, x: nat)
    requires Inv(s) && ResaveRaft(s, s2, i, x)
    ensures Keeps(s, s2)
  {
    OffNet(s, i);
    var next := if ControlOf(s, i).restart then Prepared else Steady;
    if i in s.saved {
      SupersedeKeeps(s, s2, i, x, Stored(s.persisters[s.saved[i]].raft, 0), next);
    } else {
      ControlKeeps(s, s2, i, next);
    }
  }

  lemma FreshKeeps(s: State, s2: State, i: nat, x: nat)
    requires Inv(s) && FreshPersister(s, s2, i, x)
    ensures Keeps(s, s2)
  {
    OffNet(s, i);
    SupersedeKeeps(s, s2, i, x, if i in s.saved then s.persisters[s.saved[i]] else Stored(0, 0), Replaced);
  }

  /** The calls that a step leaves alone are as good as before. */
  lemma OtherCalls(s: State, s2: State, id: nat)
    requires Inv(s) && Keeps(s, s2)
    requires forall j :: j in s2.calls && j != id ==> j in s.calls && s2.calls[j] == s.calls[j]
    requires id in s2.calls ==> CallOk(s2, s2.calls[id])
    ensures Inv(s2)
  {
    forall j | j in s2.calls ensures CallOk(s2, s2.calls[j]) {
      if j != id {
        NoLossCall(s, s2, s.calls[j]);
      }
    }
  }

  lemma AllCalls(s: State, s2: State)
    requires Inv(s) && Keeps(s, s2) && s2.calls == s.calls
    ensures Inv(s2)
  {
    forall j | j in s2.calls ensures CallOk(s2, s2.calls[j]) {
      NoLossCall(s, s2, s.calls[j]);
    }
  }

  /** A step that only turns the call `id` into `c`. */
  lemma QuietInv(s: State, s2: State, id: nat, c: Call)
    requires Inv(s) && s2 == s.(calls := s.calls[id := c]) && CallOk(s, c)
    ensures Inv(s2) && NoLoss(s, s2)
  {
    CallsOnly(s, s2);
    NoLossCall(s, s2, c);
    OtherCalls(s, s2, id);
  }

  lemma SaveStepInv(s: State, s2: State, id: nat, snapshot: bool)
    requires Inv(s) && HandlerSave(s, s2, id, snapshot)
    ensures Inv(s2) && NoLoss(s, s2)
  {
    var pid := s.instances[s.calls[id].target.inst].pid;
    SaveKeeps(s, s2, pid, Save(s.persisters[pid], s.clock + 1, snapshot));
    assert CallOk(s, s.calls[id]);
    OtherCalls(s, s2, id);
  }

  /** The heart of the protocol: the final check finds the instance on the net,
      so its Persister is the current one and holds the handler's saves. */
  lemma FinalCheckOk(s: State, c: Call, c2: Call, ok: bool)
    requires Inv(s) && CallOk(s, c) && FinalCheck(s, c, c2, ok)
    ensures CallOk(s, c2)
    ensures ok ==> Current(s, c.target.name, c.target.inst)
  {
  }

  lemma AdvanceOk(s: State, c: Call, c2: Call)
    requires Inv(s) && CallOk(s, c) && Advance(s, c, c2)
    ensures CallOk(s, c2)
  {
    if Find(s, c, c2) {
      assert Current(s, s.connections[c.end], s.servers[s.connections[c.end]]);
    } else if ok: bool :| FinalCheck(s, c, c2, ok) {
      FinalCheckOk(s, c, c2, ok);
    }
  }

  lemma OwnStepInv(s: State, s2: State, id: nat, c2: Call)
    requires Inv(s) && OwnStep(s, s2, id, c2)
    ensures Inv(s2) && NoLoss(s, s2)
  {
    AdvanceOk(s, s.calls[id], c2);
    QuietInv(s, s2, id, c2);
  }

  lemma StartCallInv(s: State, s2: State, id: nat, end: nat)
    requires Inv(s) && StartCall(s, s2, id, end)
    ensures Inv(s2) && NoLoss(s, s2)
  {
    QuietInv(s, s2, id, Call(end, Unknown, NotStarted, 0, Pending, 0));
  }

  lemma InstanceSaveInv(s: State, s2: State, inst: nat, snapshot: bool)
    requires Inv(s) && InstanceSave(s, s2, inst, snapshot)
    ensures Inv(s2) && NoLoss(s, s2)
  {
    var pid := s.instances[inst].pid;
    SaveKeeps(s, s2, pid, s2.persisters[pid]);
    AllCalls(s, s2);
  }

  lemma RewireInv(s: State, s2: State)
    requires Inv(s) && Rewire(s, s2)
    ensures Inv(s2) && NoLoss(s, s2)
  {
    CallsOnly(s, s2);
    AllCalls(s, s2);
  }

  lemma CallStepInv(s: State, s2: State, id: nat)
    requires Inv(s) && CallStep(s, s2, id)
    ensures Inv(s2) && NoLoss(s, s2)
  {
    if end: nat :| StartCall(s, s2, id, end) {
      StartCallInv(s, s2, id, end);
    } else if snapshot: bool :| HandlerSave(s, s2, id, snapshot) {
      SaveStepInv(s, s2, id, snapshot);
    } else {
      var c2 :| OwnStep(s, s2, id, c2);
      OwnStepInv(s, s2, id, c2);
    }
  }

  lemma ConfigStepKeeps(s: State, s2: State, i: nat, x: nat)
    requires Inv(s) && ConfigStep(s, s2, i, x)
    ensures Keeps(s, s2)
  {
    if restart: bool :| DeleteServer(s, s2, i, restart) {
      DeleteKeeps(s, s2, i, restart);
    } else if CopySaved(s, s2, i, x) {
      CopyKeeps(s, s2, i, x);
    } else if ResaveRaft(s, s2, i, x) {
      ResaveKeeps(s, s2, i, x);
    } else if FreshPersister(s, s2, i, x) {
      FreshKeeps(s, s2, i, x);
    } else if Make(s, s2, i, x) {
      MakeKeeps(s, s2, i, x);
    } else {
      AddKeeps(s, s2, i);
    }
  }

  lemma PersisterStepCalls(s: State, s2: State, i: nat, x: nat)
    requires CopySaved(s, s2, i, x) || ResaveRaft(s, s2, i, x) || FreshPersister(s, s2, i, x)
    ensures s2.calls == s.calls
  {
  }

  lemma ServerStepCalls(s: State, s2: State, i: nat, x: nat)
    requires DeleteServer(s, s2, i, true) || DeleteServer(s, s2, i, false) || Make(s, s2, i, x) || AddServer(s, s2, i)
    ensures s2.calls == s.calls
  {
  }

  lemma ConfigStepCalls(s: State, s2: State, i: nat, x: nat)
    requires ConfigStep(s, s2, i, x)
    ensures s2.calls == s.calls
  {
    if CopySaved(s, s2, i, x) || ResaveRaft(s, s2, i, x) || FreshPersister(s, s2, i, x) {
      PersisterStepCalls(s, s2, i, x);
    } else {
      ServerStepCalls(s, s2, i, x);
    }
  }

  lemma ConfigStepInv(s: State, s2: State, i: nat, x: nat)
    requires Inv(s) && ConfigStep(s, s2, i, x)
    ensures Inv(s2) && NoLoss(s, s2)
  {
    ConfigStepKeeps(s, s2, i, x);
    ConfigStepCalls(s, s2, i, x);
    AllCalls(s, s2);
  }

  lemma NextInv(s: State, s2: State)
    requires Inv(s) && Next(s, s2)
    ensures Inv(s2) && NoLoss(s, s2)
  {
    if Rewire(s, s2) {
      RewireInv(s, s2);
    } else if id: nat :| CallStep(s, s2, id) {
      CallStepInv(s, s2, id);
    } else if inst: nat, snapshot: bool :| InstanceSave(s, s2, inst, snapshot) {
      InstanceSaveInv(s, s2, inst, snapshot);
    } else {
      var i: nat, x: nat :| ConfigStep(s, s2, i, x);
      ConfigStepInv(s, s2, i, x);
    }
  }

  // ---------- whole runs ----------

  ghost predicate StepAt(run: seq<State>, i: nat)
    requires i + 1 < |run|
  {
    Next(run[i], run[i + 1])
  }

  ghost predicate Run(run: seq<State>) {
    run != [] && Init(run[0]) && forall i: nat {:trigger StepAt(run, i)} :: i + 1 < |run| ==> StepAt(run, i)
  }

  lemma {:induction false} RunInv(run: seq<State>, k: nat)
    requires Run(run) && k < |run|
    ensures Inv(run[k])
  {
    if k > 0 {
      RunInv(run, k - 1);
      assert StepAt(run, k - 1);
      NextInv(run[k - 1], run[k]);
    }
  }

  lemma RunStep(run: seq<State>, k: nat)
    requires Run(run) && k + 1 < |run|
    ensures Inv(run[k]) && Next(run[k], run[k + 1])
  {
    RunInv(run, k);
    assert StepAt(run, k);
  }

  /** A call only moves forward: a reply that was sent stays as it is, and a
      handler that has returned saves nothing more. */
  ghost predicate Settled(c: Call, c2: Call) {
    && (c.target.Target? ==> c2.target == c.target)
    && (c.handler.Returned? ==> c2.handler == c.handler && c2.runs == c.runs)
    && (c.reply.Sent? ==> c2.reply == c.reply && c2.replies == c.replies)
  }

  lemma StepSettles(s: State, s2: State, id: nat)
    requires Next(s, s2) && id in s.calls
    ensures id in s2.calls && Settled(s.calls[id], s2.calls[id])
  {
    if j: nat :| CallStep(s, s2, j) {
      CallStepSettles(s, s2, j, id);
    } else if i: nat, x: nat :| ConfigStep(s, s2, i, x) {
      ConfigStepCalls(s, s2, i, x);
    }
  }

  lemma UpdateSettles(calls: map<nat, Call>, j: nat, c2: Call, id: nat)
    requires j in calls && Settled(calls[j], c2) && id in calls
    ensures Settled(calls[id], calls[j := c2][id])
  {
  }

  lemma AdvanceSettles(s: State, c: Call, c2: Call)
    requires Advance(s, c, c2)
    ensures Settled(c, c2)
  {
  }

  lemma SaveSettles(s: State, s2: State, j: nat, snapshot: bool, id: nat)
    requires HandlerSave(s, s2, j, snapshot) && id in s.calls
    ensures id in s2.calls && Settled(s.calls[id], s2.calls[id])
  {
    UpdateSettles(s.calls, j, s2.calls[j], id);
  }

  lemma StartSettles(s: State, s2: State, j: nat, end: nat, id: nat)
    requires StartCall(s, s2, j, end) && id in s.calls
    ensures id in s2.calls && Settled(s.calls[id], s2.calls[id])
  {
  }

  lemma CallStepSettles(s: State, s2: State, j: nat, id: nat)
    requires CallStep(s, s2, j) && id in s.calls
    ensures id in s2.calls && Settled(s.calls[id], s2.calls[id])
  {
    if end: nat :| StartCall(s, s2, j, end) {
      StartSettles(s, s2, j, end, id);
    } else if snapshot: bool :| HandlerSave(s, s2, j, snapshot) {
      SaveSettles(s, s2, j, snapshot, id);
    } else {
      var c2 :| OwnStep(s, s2, j, c2);
      AdvanceSettles(s, s.calls[j], c2);
      UpdateSettles(s.calls, j, c2, id);
    }
  }

  lemma SettledTwice(a: Call, b: Call, c: Call)
    requires Settled(a, b) && Settled(b, c)
    ensures Settled(a, c)
  {
  }

  lemma {:induction false} RunSettles(run: seq<State>, j: nat, k: nat, id: nat)
    requires Run(run) && j <= k < |run| && id in run[j].calls
    ensures id in run[k].calls && Settled(run[j].calls[id], run[k].calls[id])
  {
    if j < k {
      RunSettles(run, j, k - 1, id);
      var s, s2 := run[k - 1], run[k];
      RunStep(run, k - 1);
      StepSettles(s, s2, id);
      SettledTwice(run[j].calls[id], s.calls[id], s2.calls[id]);
    }
  }

  /** An acknowledged RPC is durable: once a Call has returned true, in every
      later state, through any number of crashes and restarts, the current
      Persister of that server holds a state saved at or after the handler's
      last save. */
  lemma AcknowledgedIsDurable(run: seq<State>, j: nat, k: nat, id: nat)
    requires Run(run) && j <= k < |run| && id in run[j].calls && run[j].calls[id].reply == Sent(true)
    ensures var c := run[j].calls[id];
      && c.target.Target? && c.handler.Returned? && c.target.name in run[k].saved
      && run[k].saved[c.target.name] in run[k].persisters
      && c.handler.last <= run[k].persisters[run[k].saved[c.target.name]].raft
  {
    RunInv(run, j);
    RunInv(run, k);
    RunSettles(run, j, k, id);
    assert CallOk(run[j], run[j].calls[id]) && CallOk(run[k], run[k].calls[id]);
  }
}
