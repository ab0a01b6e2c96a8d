/** What the delivery checkpoint guarantees about a stored run, and exactly when: which run
    an executor is handed, who else executes it, whether a settled status stays, and
    whether the run id keeps its identity. */
module ComposioRuns {
  import opened Text
  import opened ComposioHost

  ghost predicate IsStored(s: State, id: RunId, status: Status) {
    id in s.store && s.store[id].status == status
  }

  predicate IsOutsideSave(e: Event, id: RunId) {
    e.Save? && e.id == id
  }

  // ----- What a delivery is answered -----

  ghost predicate IsFor(c: Checkpoint, r: Request) {
    c.workflowId == r.workflowId && c.payloadHash == Some(r.payloadHash)
  }

  /** The run is stored for this workflow and payload and has reached a durable status. */
  ghost predicate IsDone(store: map<RunId, Checkpoint>, r: Request) {
    r.runId in store && IsFor(store[r.runId], r)
    && (store[r.runId].status == Completed || store[r.runId].status == AwaitingInput)
  }

  /** Nothing is stored under the run id, or a run that is Running and of this very
      delivery. */
  ghost predicate IsOpen(store: map<RunId, Checkpoint>, r: Request) {
    r.runId in store ==>
      && IsFor(store[r.runId], r) && store[r.runId].workflowHash == Some(r.workflowHash)
      && store[r.runId].status == Running
  }

  /** A delivery is answered `Ok` at once exactly when its run is done; it goes on to the
      executor exactly when its run is open, and then the run is stored with its workflow
      and hashes as Running; it fails otherwise.  Nothing else is stored. */
  lemma DecisionIff(s: State, t: TaskId)
    requires Enabled(s, Decide(t))
    ensures var r, n := s.tasks[t].request, Next(s, Decide(t));
            && (n.tasks[t].pc == Returned(true) <==> IsDone(s.store, r))
            && (n.tasks[t].pc.Ready? <==> IsOpen(s.store, r))
            && (n.tasks[t].pc == Returned(false) <==> !IsDone(s.store, r) && !IsOpen(s.store, r))
            && n.store == if IsOpen(s.store, r)
                          then s.store[r.runId := Checkpoint(r.workflowId, Some(r.payloadHash), Some(r.workflowHash),
                                                             Running)]
                          else s.store
  {
  }

  /** A delivery that executed is answered `Ok` exactly when its executor left the run
      Completed or AwaitingInput; anything else the run may be is an error. */
  lemma OutcomeIff(s: State, t: TaskId)
    requires Enabled(s, Finish(t))
    ensures var run, pc := s.tasks[t].pc.run, Next(s, Finish(t)).tasks[t].pc;
            && (pc == Returned(true) <==> run.status == Completed || run.status == AwaitingInput)
            && (pc == Returned(false) <==> run.status == Running || run.status == Failed)
            && Next(s, Finish(t)).store == s.store
  {
  }

  // ----- The run that an executor is handed -----

  /** The run stored when `es` is over, if nobody but outsiders saves it meanwhile. */
  function LastSaved(es: seq<Event>, id: RunId, c: Checkpoint): Checkpoint {
    if es == [] then c else LastSaved(es[1..], id, if IsOutsideSave(es[0], id) then es[0].run else c)
  }

  /** The delivery has been let through and not yet started: it holds the guard. */
  ghost predicate IsReady(s: State, t: TaskId, r: Request, c: Checkpoint) {
    && Inv(s) && t in s.tasks && s.tasks[t].request == r && s.tasks[t].pc.Ready?
    && r.runId in s.store && s.store[r.runId] == c
  }

  lemma OthersLeaveTheRun(s: State, e: Event, t: TaskId, r: Request, c: Checkpoint)
    requires IsReady(s, t, r, c) && Enabled(s, e) && (e.Decide? || e.Persist?) && e.t != t
    ensures r.runId in Next(s, e).store && Next(s, e).store[r.runId] == c
  {
    if s.tasks[e.t].request.runId == r.runId { OneGuardPerRun(s, t, e.t); }
  }

  lemma ReadyStep(s: State, e: Event, t: TaskId, r: Request, c: Checkpoint)
    requires IsReady(s, t, r, c) && Enabled(s, e) && !e.Crash? && e != Start(t)
    ensures IsReady(Next(s, e), t, r, if IsOutsideSave(e, r.runId) then e.run else c)
  {
    StepKeepsInv(s, e);
    if e.Decide? || e.Persist? {
      OthersLeaveTheRun(s, e, t, r, c);
    } else if IsOutsiderEvent(e) {
      OutsiderFrame(s, e);
    }
  }

  lemma {:induction false} ReadyRun(s: State, es: seq<Event>, t: TaskId, r: Request, c: Checkpoint)
    requires IsReady(s, t, r, c) && Executes(s, es) && forall i :: 0 <= i < |es| ==> !es[i].Crash? && es[i] != Start(t)
    ensures IsReady(After(s, es), t, r, LastSaved(es, r.runId, c))
    decreases es
  {
    if es != [] {
      ReadyStep(s, es[0], t, r, c);
      ReadyRun(Next(s, es[0]), es[1..], t, r, if IsOutsideSave(es[0], r.runId) then es[0].run else c);
    }
  }

  /** The executor works for the delivery's workflow and hashes exactly when the stored run
      has them. */
  lemma StartLoads(s: State, t: TaskId)
    requires Enabled(s, Start(t)) && s.tasks[t].request.runId in s.store
    ensures var r := s.tasks[t].request;
            Identity(Next(s, Start(t)).tasks[t].pc.run) == Identity(NewCheckpoint(r)) <==>
            Identity(s.store[r.runId]) == Identity(NewCheckpoint(r))
  {
  }

  /** A delivery is let through only to a run stored as Running with its own workflow and
      hashes.  When it starts, that is still the stored run unless outsiders saved it since,
      and then it is what they saved last, whatever its status; the executor works for the
      delivery's workflow and hashes exactly when that run has them. */
  lemma HandedOver(s0: State, es: seq<Event>, t: TaskId, fs: seq<Event>)
    requires Init(s0) && Executes(s0, es) && Enabled(After(s0, es), Decide(t))
    requires Judge(After(s0, es).store, After(s0, es).tasks[t].request).Proceed?
    requires Executes(Next(After(s0, es), Decide(t)), fs)
    requires forall i :: 0 <= i < |fs| ==> !fs[i].Crash? && fs[i] != Start(t)
    ensures var r := After(s0, es).tasks[t].request;
            var accepted := Next(After(s0, es), Decide(t));
            var s := After(accepted, fs);
            && r.runId in accepted.store && accepted.store[r.runId] == NewCheckpoint(r)
            && Enabled(s, Start(t)) && r.runId in s.store
            && s.store[r.runId] == LastSaved(fs, r.runId, NewCheckpoint(r))
            && (Identity(Next(s, Start(t)).tasks[t].pc.run) == Identity(NewCheckpoint(r))
                <==> Identity(s.store[r.runId]) == Identity(NewCheckpoint(r)))
  {
    var s := After(s0, es);
    InitKeepsInv(s0);
    RunKeepsInv(s0, es);
    StepKeepsInv(s, Decide(t));
    ReadyRun(Next(s, Decide(t)), fs, t, s.tasks[t].request, NewCheckpoint(s.tasks[t].request));
    StartLoads(After(Next(s, Decide(t)), fs), t);
  }

  ghost predicate SavedOutside(es: seq<Event>, id: RunId) {
    exists i :: 0 <= i < |es| && IsOutsideSave(es[i], id)
  }

  /** The last outside save decides, and none leaves the run as it was. */
  lemma {:induction false} LastSavedMeans(es: seq<Event>, id: RunId, c: Checkpoint)
    ensures !SavedOutside(es, id) ==> LastSaved(es, id, c) == c
    ensures SavedOutside(es, id) ==>
              exists i :: 0 <= i < |es| && IsOutsideSave(es[i], id) && LastSaved(es, id, c) == es[i].run
                          && !SavedOutside(es[i + 1..], id)
  {
    if es != [] {
      var next := if IsOutsideSave(es[0], id) then es[0].run else c;
      LastSavedMeans(es[1..], id, next);
      if SavedOutside(es[1..], id) {
        var i :| 0 <= i < |es[1..]| && IsOutsideSave(es[1..][i], id) && LastSaved(es[1..], id, next) == es[1..][i].run
                 && !SavedOutside(es[1..][i + 1..], id);
        assert es[i + 1] == es[1..][i] && es[i + 2..] == es[1..][i + 1..];
      } else {
        assert forall i :: 0 < i < |es| ==> es[i] == es[1..][i - 1] && !IsOutsideSave(es[i], id);
      }
    }
  }

  // ----- Who else executes a run -----

  /** The outside executions of a run, read off the events alone: the executor was called,
      and has neither returned nor died. */
  function OpenExecutions(es: seq<Event>, id: RunId): set<OutsiderId> {
    if es == [] then {}
    else
      var before := OpenExecutions(es[..|es| - 1], id);
      match es[|es| - 1]
      case RunResumed(x, other) => if other == id then before + {x} else before - {x}
      case RunById(x, other, _) => if other == id then before + {x} else before - {x}
      case Leave(x) => before - {x}
      case Crash => {}
      case _ => before
  }

  function Workers(s: State, id: RunId): set<OutsiderId> {
    set x | x in s.outsiders && s.outsiders[x].runId == id && s.outsiders[x].pc.Working?
  }

  lemma WorkersCalled(s: State, e: Event, id: RunId)
    requires Enabled(s, e) && (e.RunResumed? || e.RunById?)
    ensures Workers(Next(s, e), id) == if e.id == id then Workers(s, id) + {e.x} else Workers(s, id) - {e.x}
  {
  }

  lemma WorkersElse(s: State, e: Event, id: RunId)
    requires Enabled(s, e) && !e.RunResumed? && !e.RunById?
    ensures Workers(Next(s, e), id)
         == match e
            case Leave(x) => Workers(s, id) - {x}
            case Crash => {}
            case _ => Workers(s, id)
  {
  }

  lemma {:induction false} OpenExecutionsWork(s0: State, es: seq<Event>, id: RunId)
    requires Init(s0) && Executes(s0, es)
    ensures Workers(After(s0, es), id) == OpenExecutions(es, id)
    decreases es
  {
    if es != [] {
      var n := |es| - 1;
      assert es == es[..n] + [es[n]];
      ExecutesSplit(s0, es[..n], [es[n]]);
      ExecutesOne(After(s0, es[..n]), es[n]);
      OpenExecutionsWork(s0, es[..n], id);
      if es[n].RunResumed? || es[n].RunById? {
        WorkersCalled(After(s0, es[..n]), es[n], id);
      } else {
        WorkersElse(After(s0, es[..n]), es[n], id);
      }
    }
  }

  /** A delivery's execution is the only one of its run, among deliveries always, and among
      resumes and runs by id too exactly when every call of the executor that they made for
      the run has returned or died since. */
  lemma OnlyExecutionIff(s0: State, es: seq<Event>, t: TaskId)
    requires Init(s0) && Executes(s0, es) && t in After(s0, es).tasks && After(s0, es).tasks[t].pc.Executing?
    ensures var s := After(s0, es);
            var id := s.tasks[t].request.runId;
            (forall u :: u in s.tasks && s.tasks[u].request.runId == id && s.tasks[u].pc.Executing? ==> u == t)
            && ((forall x :: x in s.outsiders && s.outsiders[x].runId == id ==> !s.outsiders[x].pc.Working?)
                <==> OpenExecutions(es, id) == {})
  {
    var s := After(s0, es);
    var id := s.tasks[t].request.runId;
    forall u | u in s.tasks && s.tasks[u].request.runId == id && s.tasks[u].pc.Executing? ensures u == t {
      MutualExclusion(s0, es, t, u);
    }
    OpenExecutionsWork(s0, es, id);
    assert Workers(s, id) == {} ==>
             forall x :: x in s.outsiders && s.outsiders[x].runId == id && s.outsiders[x].pc.Working? ==>
             x in Workers(s, id);
  }

  // ----- What is settled stays settled, unless an outsider saves or runs it -----

  predicate IsWriting(pc: Pc) {
    pc.Ready? || (pc.Executing? && pc.run.status == Running)
  }

  predicate IsWorking(pc: OutsiderPc) {
    pc.Resumed? || (pc.Working? && pc.run.status == Running)
  }

  /** Nobody is executing the run or about to. */
  ghost predicate Quiet(s: State, id: RunId) {
    (forall t :: t in s.tasks && s.tasks[t].request.runId == id ==> !IsWriting(s.tasks[t].pc))
    && forall x :: x in s.outsiders && s.outsiders[x].runId == id ==> !IsWorking(s.outsiders[x].pc)
  }

  ghost predicate IsSettledAs(s: State, id: RunId, status: Status) {
    IsStored(s, id, status) && Quiet(s, id)
  }

  /** A run by this id, or an outside save of another status: a resume, a rejection unless
      the run is Failed, an acknowledgement unless it is awaiting input. */
  predicate Disturbs(e: Event, id: RunId, status: Status) {
    (e.RunById? && e.id == id) || (IsOutsideSave(e, id) && e.run.status != status)
  }

  /** At every moment of a run the status is this one and nobody executes: in particular no
      `Start` for this run is ever enabled. */
  ghost predicate StaysSettled(s: State, fs: seq<Event>, id: RunId, status: Status)
    requires Executes(s, fs)
    decreases fs
  {
    IsSettledAs(s, id, status) && (fs == [] || StaysSettled(Next(s, fs[0]), fs[1..], id, status))
  }

  ghost predicate IsUndisturbed(fs: seq<Event>, id: RunId, status: Status) {
    forall i :: 0 <= i < |fs| ==> !Disturbs(fs[i], id, status)
  }

  lemma UndisturbedMove(s: State, e: Event, id: RunId, status: Status)
    requires Enabled(s, e) && IsTaskEvent(e) && !e.Decide? && !e.Persist? && IsSettledAs(s, id, status)
    ensures IsSettledAs(Next(s, e), id, status)
  {
  }

  lemma UndisturbedWork(s: State, e: Event, id: RunId, status: Status)
    requires Enabled(s, e) && (e.Decide? || e.Persist?) && IsSettled(status) && IsSettledAs(s, id, status)
    ensures IsSettledAs(Next(s, e), id, status)
  {
    var t := e.t;
    assert s.tasks[t].request.runId == id ==> !IsWriting(s.tasks[t].pc);
    assert s.tasks[t].request.runId == id ==> !IsWriting(Next(s, e).tasks[t].pc);
  }

  /** An outsider that moves as told keeps out of a quiet run. */
  lemma UndisturbedOutsider(s: State, e: Event, id: RunId, status: Status)
    requires Enabled(s, e) && IsOutsiderEvent(e) && !Disturbs(e, id, status)
    requires IsSettled(status) && IsSettledAs(s, id, status)
    ensures IsSettledAs(Next(s, e), id, status)
  {
    var n := Next(s, e);
    OutsiderFrame(s, e);
    forall x | x in n.outsiders && n.outsiders[x].runId == id ensures !IsWorking(n.outsiders[x].pc) {
      assert x in s.outsiders && s.outsiders[x].runId == id ==> !IsWorking(s.outsiders[x].pc);
    }
  }

  lemma UndisturbedStep(s: State, e: Event, id: RunId, status: Status)
    requires Enabled(s, e) && IsSettled(status) && IsSettledAs(s, id, status) && !Disturbs(e, id, status)
    ensures IsSettledAs(Next(s, e), id, status)
  {
    if e.Decide? || e.Persist? {
      UndisturbedWork(s, e, id, status);
    } else if IsTaskEvent(e) {
      UndisturbedMove(s, e, id, status);
    } else if IsOutsiderEvent(e) {
      UndisturbedOutsider(s, e, id, status);
    }
  }

  lemma DisturbedStep(s: State, e: Event, id: RunId, status: Status)
    requires Enabled(s, e) && IsSettled(status) && Disturbs(e, id, status)
    ensures !IsSettledAs(Next(s, e), id, status)
  {
    if e.RunById? {
      var n := Next(s, e);
      assert e.x in n.outsiders && n.outsiders[e.x].runId == id && IsWorking(n.outsiders[e.x].pc);
    }
  }

  lemma {:induction false} SettledStaysIff(s: State, fs: seq<Event>, id: RunId, status: Status)
    requires Executes(s, fs) && IsSettled(status) && IsSettledAs(s, id, status)
    ensures StaysSettled(s, fs, id, status) <==> IsUndisturbed(fs, id, status)
    decreases fs
  {
    if fs != [] {
      var n := Next(s, fs[0]);
      assert IsUndisturbed(fs, id, status) <==> !Disturbs(fs[0], id, status) && IsUndisturbed(fs[1..], id, status);
      if Disturbs(fs[0], id, status) {
        DisturbedStep(s, fs[0], id, status);
      } else {
        UndisturbedStep(s, fs[0], id, status);
        SettledStaysIff(n, fs[1..], id, status);
      }
    }
  }

  /** Nobody outside holds a copy of the run that it may save. */
  ghost predicate NoCopies(s: State, id: RunId) {
    forall x :: x in s.outsiders && s.outsiders[x].runId == id ==>
      !s.outsiders[x].pc.ResumeLoaded? && !s.outsiders[x].pc.RejectLoaded? && !s.outsiders[x].pc.AckLoaded?
  }

  ghost predicate NoRunById(es: seq<Event>, id: RunId) {
    forall i :: 0 <= i < |es| ==> !(es[i].RunById? && es[i].id == id)
  }

  lemma FinishedLoad(s: State, e: Event, id: RunId, status: Status)
    requires Enabled(s, e) && (e.ResumeLoad? || e.RejectLoad? || e.AckLoad?)
    requires status in {Completed, Failed} && IsSettledAs(s, id, status) && NoCopies(s, id)
    ensures NoCopies(Next(s, e), id)
  {
    assert e.id != id;
  }

  lemma FinishedElse(s: State, e: Event, id: RunId)
    requires Enabled(s, e) && !e.ResumeLoad? && !e.RejectLoad? && !e.AckLoad? && NoCopies(s, id)
    ensures NoCopies(Next(s, e), id)
  {
  }

  lemma FinishedSave(s: State, e: Event, id: RunId)
    requires Enabled(s, e) && Quiet(s, id) && NoCopies(s, id)
    ensures !IsOutsideSave(e, id)
  {
  }

  lemma FinishedStep(s: State, e: Event, id: RunId, status: Status)
    requires Enabled(s, e) && status in {Completed, Failed} && IsSettledAs(s, id, status) && NoCopies(s, id)
    ensures Disturbs(e, id, status) <==> e.RunById? && e.id == id
    ensures NoCopies(Next(s, e), id)
  {
    FinishedSave(s, e, id);
    if e.ResumeLoad? || e.RejectLoad? || e.AckLoad? {
      FinishedLoad(s, e, id, status);
    } else {
      FinishedElse(s, e, id);
    }
  }

  /** A run that is Completed or Failed, with nobody executing it and nobody outside holding
      an old copy, stays so and never reaches the executor, through resumes, rejections,
      acknowledgements, retries and crashes, exactly as long as nobody runs it by its id. */
  lemma {:induction false} FinishedIsFinalIff(s: State, fs: seq<Event>, id: RunId, status: Status)
    requires Executes(s, fs) && status in {Completed, Failed} && IsSettledAs(s, id, status) && NoCopies(s, id)
    ensures StaysSettled(s, fs, id, status) <==> NoRunById(fs, id)
    decreases fs
  {
    if fs != [] {
      FinishedStep(s, fs[0], id, status);
      assert NoRunById(fs, id) <==> !(fs[0].RunById? && fs[0].id == id) && NoRunById(fs[1..], id);
      if Disturbs(fs[0], id, status) {
        DisturbedStep(s, fs[0], id, status);
      } else {
        UndisturbedStep(s, fs[0], id, status);
        FinishedIsFinalIff(Next(s, fs[0]), fs[1..], id, status);
      }
    }
  }

  // ----- Runs that only deliveries have saved -----

  /** No outsider has saved the run or run it by its id. */
  ghost predicate NoOutside(es: seq<Event>, id: RunId) {
    forall i :: 0 <= i < |es| ==> !IsOutsideSave(es[i], id) && !(es[i].RunById? && es[i].id == id)
  }

  /** Then the store holds what the one delivery past the lock holds. */
  ghost predicate TaskInStep(s: State, t: TaskId, id: RunId)
    requires t in s.tasks
  {
    s.tasks[t].request.runId == id ==>
      && (s.tasks[t].pc.Ready? ==> IsStored(s, id, Running) && Matches(s.store[id], s.tasks[t].request))
      && (s.tasks[t].pc.Executing? ==>
            id in s.store && s.store[id] == s.tasks[t].pc.run && Matches(s.store[id], s.tasks[t].request))
  }

  ghost predicate InStep(s: State, id: RunId) {
    (forall t :: t in s.tasks ==> TaskInStep(s, t, id))
    && forall x :: x in s.outsiders && s.outsiders[x].runId == id ==>
         !s.outsiders[x].pc.Resumed? && !s.outsiders[x].pc.Working?
  }

  /** A delivery that saves a run or moves on: no other delivery of its run is past the
      lock. */
  lemma TaskKeepsInStep(s: State, n: State, t: TaskId, id: RunId)
    requires Inv(s) && InStep(s, id) && t in s.tasks && HoldsGuard(s.tasks[t].pc)
    requires n.outsiders == s.outsiders && t in n.tasks && n.tasks == s.tasks[t := n.tasks[t]]
    requires n.tasks[t].request == s.tasks[t].request
    requires s.tasks[t].request.runId != id && id in s.store ==> id in n.store && n.store[id] == s.store[id]
    requires TaskInStep(n, t, id)
    ensures InStep(n, id)
  {
    forall u | u in n.tasks ensures TaskInStep(n, u, id) {
      if u != t && s.tasks[u].request.runId == id == s.tasks[t].request.runId && HoldsGuard(s.tasks[u].pc) {
        OneGuardPerRun(s, t, u);
      }
      assert TaskInStep(s, u, id);
    }
  }

  lemma WaitingKeepsInStep(s: State, e: Event, id: RunId)
    requires InStep(s, id) && Enabled(s, e)
    requires e.Enter? || e.GetLock? || e.Acquire? || e.Refuse? || e.Abort? || e.Finish? || e.Crash?
    ensures InStep(Next(s, e), id)
  {
    var n := Next(s, e);
    forall u | u in n.tasks ensures TaskInStep(n, u, id) {
      assert u in s.tasks ==> TaskInStep(s, u, id);
    }
  }

  lemma WorkKeepsInStep(s: State, e: Event, id: RunId)
    requires Inv(s) && InStep(s, id) && Enabled(s, e) && (e.Decide? || e.Start? || e.Persist?)
    ensures InStep(Next(s, e), id)
  {
    assert TaskInStep(s, e.t, id);
    TaskKeepsInStep(s, Next(s, e), e.t, id);
  }

  lemma OutsiderKeepsInStep(s: State, e: Event, id: RunId)
    requires InStep(s, id) && Enabled(s, e) && IsOutsiderEvent(e)
    requires !IsOutsideSave(e, id) && !(e.RunById? && e.id == id)
    ensures InStep(Next(s, e), id)
  {
    var n := Next(s, e);
    OutsiderFrame(s, e);
    forall u | u in n.tasks ensures TaskInStep(n, u, id) { assert TaskInStep(s, u, id); }
  }

  lemma StepKeepsInStep(s: State, e: Event, id: RunId)
    requires Inv(s) && InStep(s, id) && Enabled(s, e) && !IsOutsideSave(e, id) && !(e.RunById? && e.id == id)
    ensures InStep(Next(s, e), id)
  {
    if IsOutsiderEvent(e) {
      OutsiderKeepsInStep(s, e, id);
    } else if e.Decide? || e.Start? || e.Persist? {
      WorkKeepsInStep(s, e, id);
    } else {
      WaitingKeepsInStep(s, e, id);
    }
  }

  lemma {:induction false} RunKeepsInStep(s: State, es: seq<Event>, id: RunId)
    requires Inv(s) && InStep(s, id) && Executes(s, es) && NoOutside(es, id)
    ensures InStep(After(s, es), id)
    decreases es
  {
    if es != [] {
      StepKeepsInv(s, es[0]);
      StepKeepsInStep(s, es[0], id);
      RunKeepsInStep(Next(s, es[0]), es[1..], id);
    }
  }

  lemma InStepIsQuiet(s: State, id: RunId, status: Status)
    requires InStep(s, id) && IsSettled(status) && IsStored(s, id, status)
    ensures IsSettledAs(s, id, status)
  {
    forall t | t in s.tasks && s.tasks[t].request.runId == id ensures !IsWriting(s.tasks[t].pc) {
      assert TaskInStep(s, t, id);
    }
  }

  /** A run that deliveries alone left as Completed, AwaitingInput or Failed keeps that
      status and is never handed to an executor again, through every retry and crash,
      exactly as long as no outsider saves another status or runs it by its id. */
  lemma SettledIsFinalIff(s0: State, es: seq<Event>, fs: seq<Event>, id: RunId, status: Status)
    requires Init(s0) && Executes(s0, es) && Executes(After(s0, es), fs) && NoOutside(es, id)
    requires IsSettled(status) && IsStored(After(s0, es), id, status)
    ensures StaysSettled(After(s0, es), fs, id, status) <==> IsUndisturbed(fs, id, status)
  {
    InitKeepsInv(s0);
    RunKeepsInStep(s0, es, id);
    InStepIsQuiet(After(s0, es), id, status);
    SettledStaysIff(After(s0, es), fs, id, status);
  }

  /** `Ok` is returned only for a run stored as Completed or AwaitingInput for the same
      workflow and payload, if deliveries alone have saved it; and it then stays true
      exactly as long as no outsider saves another status or runs it by its id. */
  lemma OkIsDurable(s0: State, es: seq<Event>, e: Event, fs: seq<Event>)
    requires Init(s0) && Executes(s0, es) && Enabled(After(s0, es), e) && (e.Decide? || e.Finish?)
    requires Next(After(s0, es), e).tasks[e.t].pc == Returned(true)
    requires NoOutside(es, After(s0, es).tasks[e.t].request.runId)
    requires Executes(Next(After(s0, es), e), fs)
    ensures var r := After(s0, es).tasks[e.t].request;
            var s := Next(After(s0, es), e);
            r.runId in s.store && IsDurable(s.store[r.runId].status) && SameDelivery(s.store[r.runId], r)
            && (StaysSettled(s, fs, r.runId, s.store[r.runId].status)
                <==> IsUndisturbed(fs, r.runId, s.store[r.runId].status))
  {
    var s := After(s0, es);
    var id := s.tasks[e.t].request.runId;
    InitKeepsInv(s0);
    RunKeepsInv(s0, es);
    RunKeepsInStep(s0, es, id);
    StepKeepsInStep(s, e, id);
    OkIsStored(s, e, id);
    InStepIsQuiet(Next(s, e), id, s.store[id].status);
    SettledStaysIff(Next(s, e), fs, id, s.store[id].status);
  }

  lemma OkIsStored(s: State, e: Event, id: RunId)
    requires Enabled(s, e) && (e.Decide? || e.Finish?) && s.tasks[e.t].request.runId == id && InStep(s, id)
    requires Next(s, e).tasks[e.t].pc == Returned(true)
    ensures Next(s, e).store == s.store && id in s.store
    ensures IsDurable(s.store[id].status) && SameDelivery(s.store[id], s.tasks[e.t].request)
  {
    assert TaskInStep(s, e.t, id);
  }

  // ----- Redelivery of a delivery that is done -----

  lemma {:induction false} UndisturbedIdentity(s: State, fs: seq<Event>, id: RunId)
    requires CopiesAgree(s, id, {}) && Executes(s, fs) && NoRunById(fs, id) && id in s.store
    ensures CopiesAgree(After(s, fs), id, {})
    ensures id in After(s, fs).store && Identity(After(s, fs).store[id]) == Identity(s.store[id])
    decreases fs
  {
    if fs != [] {
      if IsOutsiderEvent(fs[0]) {
        OutsiderKeepsAgreement(s, fs[0], id, {});
      } else {
        TaskKeepsAgreement(s, fs[0], id, {});
      }
      UndisturbedIdentity(Next(s, fs[0]), fs[1..], id);
    }
  }

  lemma {:induction false} SettledAtTheEnd(s: State, fs: seq<Event>, id: RunId, status: Status)
    requires Executes(s, fs) && StaysSettled(s, fs, id, status)
    ensures IsSettledAs(After(s, fs), id, status)
    decreases fs
  {
    if fs != [] { SettledAtTheEnd(Next(s, fs[0]), fs[1..], id, status); }
  }

  /** Once deliveries have left a run Completed or AwaitingInput, every redelivery of its
      workflow and payload, however many crashes later, is answered `Ok` without a change,
      and no delivery of the run is ever let through to the executor again, as long as no
      outsider saves another status or runs it by its id. */
  lemma RedeliveryIsAnswered(s0: State, es: seq<Event>, fs: seq<Event>, id: RunId, status: Status, t: TaskId)
    requires Init(s0) && Executes(s0, es) && NoOutside(es, id) && Executes(After(s0, es), fs)
    requires IsStored(After(s0, es), id, status) && (status == Completed || status == AwaitingInput)
    requires IsUndisturbed(fs, id, status) && Enabled(After(After(s0, es), fs), Decide(t))
    requires var r := After(After(s0, es), fs).tasks[t].request;
             r.runId == id && IsFor(After(s0, es).store[id], r)
    ensures var n := After(After(s0, es), fs);
            && Next(n, Decide(t)).tasks[t].pc == Returned(true) && Next(n, Decide(t)).store == n.store
            && forall u :: u in n.tasks && n.tasks[u].request.runId == id ==> !Enabled(n, Start(u))
    ensures StaysSettled(After(s0, es), fs, id, status)
  {
    var s := After(s0, es);
    var n := After(s, fs);
    SettledIsFinalIff(s0, es, fs, id, status);
    SettledAtTheEnd(s, fs, id, status);
    RunKeepsAgreement(s0, es, id);
    UndisturbedIdentity(s, fs, id);
    assert Identity(n.store[id]) == Identity(s.store[id]);
    DecisionIff(n, t);
  }

  // ----- Whether a run id keeps its identity -----

  /** The calls by this id for another workflow, so far: they start a run of their own. */
  function Foreigners(callers: set<OutsiderId>, e: Event, id: RunId, workflowId: string): set<OutsiderId> {
    match e
    case RunById(x, other, work) => if other == id && work.workflowId != workflowId then callers + {x} else callers
    case Crash => {}
    case _ => callers
  }

  /** None of them saves. */
  ghost predicate NoForeignSave(es: seq<Event>, id: RunId, workflowId: string, callers: set<OutsiderId>) {
    es == []
    || (!(IsOutsideSave(es[0], id) && es[0].x in callers)
        && NoForeignSave(es[1..], id, workflowId, Foreigners(callers, es[0], id, workflowId)))
  }

  predicate HasCopy(pc: OutsiderPc) {
    !pc.Left?
  }

  /** Every copy of the run in memory is of the stored identity, except those of foreign
      callers, which are of another workflow. */
  ghost predicate OutsiderAgrees(s: State, x: OutsiderId, id: RunId, callers: set<OutsiderId>)
    requires x in s.outsiders
  {
    s.outsiders[x].runId == id && HasCopy(s.outsiders[x].pc) ==>
      && id in s.store
      && (if x in callers
          then s.outsiders[x].pc.Working? && s.outsiders[x].pc.run.workflowId != s.store[id].workflowId
          else Identity(s.outsiders[x].pc.run) == Identity(s.store[id]))
  }

  ghost predicate TaskAgrees(s: State, t: TaskId, id: RunId)
    requires t in s.tasks
  {
    s.tasks[t].request.runId == id && (s.tasks[t].pc.Ready? || s.tasks[t].pc.Executing?) ==>
      && id in s.store && Matches(s.store[id], s.tasks[t].request)
      && (s.tasks[t].pc.Executing? ==> Identity(s.tasks[t].pc.run) == Identity(s.store[id]))
  }

  ghost predicate CopiesAgree(s: State, id: RunId, callers: set<OutsiderId>) {
    (forall t :: t in s.tasks ==> TaskAgrees(s, t, id))
    && (forall x :: x in s.outsiders ==> OutsiderAgrees(s, x, id, callers))
    && callers <= s.outsiders.Keys
  }

  ghost predicate SameIdentity(s: State, n: State, id: RunId) {
    id in s.store ==> id in n.store && Identity(n.store[id]) == Identity(s.store[id])
  }

  /** A delivery that has entered moves alone, and saves at most its own copy. */
  lemma TaskFrame(s: State, e: Event)
    requires Enabled(s, e) && IsTaskEvent(e)
    ensures var n := Next(s, e);
            && n.outsiders == s.outsiders && e.t in n.tasks && n.tasks == s.tasks[e.t := n.tasks[e.t]]
            && n.tasks[e.t].request == s.tasks[e.t].request
            && forall id :: id != s.tasks[e.t].request.runId ==>
                 (id in n.store <==> id in s.store) && (id in s.store ==> n.store[id] == s.store[id])
  {
  }

  lemma MoverAgrees(s: State, e: Event, id: RunId)
    requires Enabled(s, e) && IsTaskEvent(e) && TaskAgrees(s, e.t, id)
    ensures SameIdentity(s, Next(s, e), id) && TaskAgrees(Next(s, e), e.t, id)
  {
  }

  lemma AgreesAfter(s: State, n: State, id: RunId, t: TaskId)
    requires t in s.tasks && t in n.tasks && n.tasks[t] == s.tasks[t] && SameIdentity(s, n, id) && TaskAgrees(s, t, id)
    ensures TaskAgrees(n, t, id)
  {
  }

  lemma OutsiderAgreesAfter(s: State, n: State, id: RunId, x: OutsiderId, callers: set<OutsiderId>)
    requires x in s.outsiders && x in n.outsiders && n.outsiders[x] == s.outsiders[x] && SameIdentity(s, n, id)
    requires OutsiderAgrees(s, x, id, callers)
    ensures OutsiderAgrees(n, x, id, callers)
  {
  }

  lemma TaskKeepsAgreement(s: State, e: Event, id: RunId, callers: set<OutsiderId>)
    requires CopiesAgree(s, id, callers) && Enabled(s, e) && !IsOutsiderEvent(e)
    ensures SameIdentity(s, Next(s, e), id)
    ensures CopiesAgree(Next(s, e), id, if e.Crash? then {} else callers)
  {
    if IsTaskEvent(e) {
      var n := Next(s, e);
      TaskFrame(s, e);
      assert TaskAgrees(s, e.t, id);
      MoverAgrees(s, e, id);
      forall t | t in n.tasks ensures TaskAgrees(n, t, id) {
        assert TaskAgrees(s, t, id);
        if t != e.t { AgreesAfter(s, n, id, t); }
      }
      forall x | x in n.outsiders ensures OutsiderAgrees(n, x, id, callers) {
        assert OutsiderAgrees(s, x, id, callers);
        OutsiderAgreesAfter(s, n, id, x, callers);
      }
    } else if e.Enter? {
      EnterKeepsAgreement(s, e, id, callers);
    }
  }

  lemma EnterKeepsAgreement(s: State, e: Event, id: RunId, callers: set<OutsiderId>)
    requires CopiesAgree(s, id, callers) && Enabled(s, e) && e.Enter?
    ensures CopiesAgree(Next(s, e), id, callers)
  {
    var n := Next(s, e);
    forall t | t in n.tasks ensures TaskAgrees(n, t, id) {
      assert t in s.tasks ==> TaskAgrees(s, t, id);
    }
    forall x | x in n.outsiders ensures OutsiderAgrees(n, x, id, callers) {
      assert OutsiderAgrees(s, x, id, callers);
    }
  }

  /** Who counts as a foreign caller after this step. */
  function Callers(s: State, e: Event, id: RunId, callers: set<OutsiderId>): set<OutsiderId> {
    if id in s.store then Foreigners(callers, e, id, s.store[id].workflowId) else callers
  }

  /** An outsider moves alone. */
  lemma OutsiderMovesAlone(s: State, e: Event)
    requires Enabled(s, e) && IsOutsiderEvent(e)
    ensures var n := Next(s, e); e.x in n.outsiders && n.outsiders == s.outsiders[e.x := n.outsiders[e.x]]
  {
  }

  lemma LoaderAgrees(s: State, e: Event, id: RunId, callers: set<OutsiderId>)
    requires Enabled(s, e) && (e.ResumeLoad? || e.RejectLoad? || e.AckLoad? || e.Leave?) && callers <= s.outsiders.Keys
    ensures OutsiderAgrees(Next(s, e), e.x, id, callers)
  {
  }

  lemma CallerAgrees(s: State, e: Event, id: RunId, callers: set<OutsiderId>)
    requires Enabled(s, e) && (e.RunResumed? || e.RunById?) && callers <= s.outsiders.Keys
    requires e.RunResumed? ==> OutsiderAgrees(s, e.x, id, callers)
    requires e.RunById? && e.id == id ==> id in s.store
    ensures OutsiderAgrees(Next(s, e), e.x, id, Callers(s, e, id, callers))
  {
  }

  lemma SaverAgrees(s: State, e: Event, id: RunId, callers: set<OutsiderId>)
    requires Enabled(s, e) && e.Save? && OutsiderAgrees(s, e.x, id, callers)
    requires !(IsOutsideSave(e, id) && e.x in callers)
    ensures OutsiderAgrees(Next(s, e), e.x, id, callers) && SameIdentity(s, Next(s, e), id)
  {
  }

  lemma ActorAgrees(s: State, e: Event, id: RunId, callers: set<OutsiderId>)
    requires CopiesAgree(s, id, callers) && Enabled(s, e) && IsOutsiderEvent(e)
    requires !(IsOutsideSave(e, id) && e.x in callers)
    requires e.RunById? && e.id == id ==> id in s.store
    ensures OutsiderAgrees(Next(s, e), e.x, id, Callers(s, e, id, callers)) && SameIdentity(s, Next(s, e), id)
  {
    OutsiderFrame(s, e);
    assert e.x in s.outsiders ==> OutsiderAgrees(s, e.x, id, callers);
    if e.Save? {
      SaverAgrees(s, e, id, callers);
    } else if e.RunResumed? || e.RunById? {
      CallerAgrees(s, e, id, callers);
    } else {
      LoaderAgrees(s, e, id, callers);
    }
  }

  lemma OutsiderKeepsAgreement(s: State, e: Event, id: RunId, callers: set<OutsiderId>)
    requires CopiesAgree(s, id, callers) && Enabled(s, e) && IsOutsiderEvent(e)
    requires !(IsOutsideSave(e, id) && e.x in callers)
    requires e.RunById? && e.id == id ==> id in s.store
    ensures SameIdentity(s, Next(s, e), id)
    ensures CopiesAgree(Next(s, e), id, Callers(s, e, id, callers))
  {
    var n, after := Next(s, e), Callers(s, e, id, callers);
    OutsiderFrame(s, e);
    OutsiderMovesAlone(s, e);
    ActorAgrees(s, e, id, callers);
    assert after <= callers + {e.x};
    forall t | t in n.tasks ensures TaskAgrees(n, t, id) {
      assert TaskAgrees(s, t, id);
      AgreesAfter(s, n, id, t);
    }
    forall x | x in n.outsiders && x != e.x ensures OutsiderAgrees(n, x, id, after) {
      assert OutsiderAgrees(s, x, id, callers);
      OutsiderAgreesAfter(s, n, id, x, callers);
      assert x in after <==> x in callers;
    }
  }

  lemma ForeignSaveChanges(s: State, e: Event, id: RunId, callers: set<OutsiderId>)
    requires CopiesAgree(s, id, callers) && Enabled(s, e) && id in s.store && IsOutsideSave(e, id) && e.x in callers
    ensures !SameIdentity(s, Next(s, e), id)
  {
    assert OutsiderAgrees(s, e.x, id, callers);
  }

  ghost predicate KeepsIdentity(s: State, es: seq<Event>, id: RunId, identity: Work)
    requires Executes(s, es)
    decreases es
  {
    id in s.store && Identity(s.store[id]) == identity
    && (es == [] || KeepsIdentity(Next(s, es[0]), es[1..], id, identity))
  }

  lemma {:induction false} IdentityStaysFrom(s: State, es: seq<Event>, id: RunId, callers: set<OutsiderId>)
    requires CopiesAgree(s, id, callers) && Executes(s, es) && id in s.store
    ensures KeepsIdentity(s, es, id, Identity(s.store[id]))
       <==> NoForeignSave(es, id, s.store[id].workflowId, callers)
    decreases es
  {
    if es != [] {
      if IsOutsideSave(es[0], id) && es[0].x in callers {
        ForeignSaveChanges(s, es[0], id, callers);
      } else {
        if IsOutsiderEvent(es[0]) {
          OutsiderKeepsAgreement(s, es[0], id, callers);
        } else {
          TaskKeepsAgreement(s, es[0], id, callers);
        }
        IdentityStaysFrom(Next(s, es[0]), es[1..], id, Foreigners(callers, es[0], id, s.store[id].workflowId));
      }
    }
  }

  /** A stored run keeps its workflow and hashes, whoever saves it, exactly as long as no
      run by its id for another workflow saves. */
  lemma IdentityStaysIff(s0: State, es: seq<Event>, id: RunId)
    requires Init(s0) && Executes(s0, es) && id in s0.store
    ensures KeepsIdentity(s0, es, id, Identity(s0.store[id]))
       <==> NoForeignSave(es, id, s0.store[id].workflowId, {})
  {
    IdentityStaysFrom(s0, es, id, {});
  }

  lemma {:induction false} RunKeepsAgreement(s: State, es: seq<Event>, id: RunId)
    requires CopiesAgree(s, id, {}) && Executes(s, es) && NoRunById(es, id)
    ensures CopiesAgree(After(s, es), id, {})
    decreases es
  {
    if es != [] {
      if IsOutsiderEvent(es[0]) {
        OutsiderKeepsAgreement(s, es[0], id, {});
      } else {
        TaskKeepsAgreement(s, es[0], id, {});
      }
      RunKeepsAgreement(Next(s, es[0]), es[1..], id);
    }
  }

  lemma {:induction false} KeptIdentity(s: State, es: seq<Event>, id: RunId, identity: Work)
    requires Executes(s, es) && KeepsIdentity(s, es, id, identity)
    ensures id in After(s, es).store && Identity(After(s, es).store[id]) == identity
    decreases es
  {
    if es != [] { KeptIdentity(Next(s, es[0]), es[1..], id, identity); }
  }

  /** All deliveries of one run id that are let through, across retries and crashes, are of
      one workflow and one payload, if nobody ran the id before the first and no run by the
      id for another workflow saves between them. */
  lemma AllExecutionsAgree(s0: State, es: seq<Event>, t: TaskId, fs: seq<Event>, u: TaskId)
    requires Init(s0) && Executes(s0, es) && Enabled(After(s0, es), Decide(t))
    requires var r := After(s0, es).tasks[t].request;
             Judge(After(s0, es).store, r).Proceed? && NoRunById(es, r.runId)
             && NoForeignSave(fs, r.runId, r.workflowId, {})
    requires var s := Next(After(s0, es), Decide(t));
             Executes(s, fs) && Enabled(After(s, fs), Decide(u))
             && Judge(After(s, fs).store, After(s, fs).tasks[u].request).Proceed?
             && After(s, fs).tasks[u].request.runId == After(s0, es).tasks[t].request.runId
    ensures After(Next(After(s0, es), Decide(t)), fs).tasks[u].request == After(s0, es).tasks[t].request
  {
    var s := After(s0, es);
    var r := s.tasks[t].request;
    RunKeepsAgreement(s0, es, r.runId);
    TaskKeepsAgreement(s, Decide(t), r.runId, {});
    var n := Next(s, Decide(t));
    IdentityStaysFrom(n, fs, r.runId, {});
    KeptIdentity(n, fs, r.runId, Identity(n.store[r.runId]));
  }

  // ----- Runs in which the checkpoint does not protect -----

  /** Nobody uses a lock. */
  ghost predicate LocksAreFree(s: State) {
    forall u :: u in s.tasks ==> !UsesLock(s.tasks[u].pc)
  }

  lemma ReachesLock(s: State, t: TaskId, r: Request) returns (es: seq<Event>)
    requires t !in s.tasks && LocksAreFree(s)
    ensures Executes(s, es)
    ensures var n := After(s, es);
            n.store == s.store && n.outsiders == s.outsiders && t in n.tasks && n.tasks[t].request == r
            && n.tasks[t].pc.Locked?
            && n.tasks == s.tasks[t := n.tasks[t]]
  {
    var s1 := Next(s, Enter(t, r));
    var s2 := Next(s1, GetLock(t));
    assert !IsGuarded(s2, s2.tasks[t].pc.lock);
    es := [];
    RunExtends(s, es, Enter(t, r));
    es := es + [Enter(t, r)];
    RunExtends(s, es, GetLock(t));
    es := es + [GetLock(t)];
    RunExtends(s, es, Acquire(t));
    es := es + [Acquire(t)];
  }

  lemma LockedExecutes(s: State, t: TaskId) returns (es: seq<Event>)
    requires t in s.tasks && s.tasks[t].pc.Locked? && Judge(s.store, s.tasks[t].request).Proceed?
    ensures Executes(s, es)
    ensures var n := After(s, es);
            var r := s.tasks[t].request;
            n.store == Saved(s.store, r) && n.outsiders == s.outsiders
            && n.tasks == s.tasks[t := Task(r, Executing(s.tasks[t].pc.lock, NewCheckpoint(r)))]
  {
    ExecutesOne(s, Decide(t));
    es := [Decide(t)];
    RunExtends(s, es, Start(t));
    es := es + [Start(t)];
  }

  /** A delivery that the store lets through reaches the executor when no lock is in use. */
  lemma DeliveryExecutes(s: State, t: TaskId, r: Request) returns (es: seq<Event>)
    requires t !in s.tasks && LocksAreFree(s) && Judge(s.store, r).Proceed?
    ensures Executes(s, es)
    ensures var n := After(s, es);
            n.store == Saved(s.store, r) && n.outsiders == s.outsiders && t in n.tasks && n.tasks[t].request == r
            && n.tasks[t].pc.Executing? && n.tasks[t].pc.run == NewCheckpoint(r) && n.tasks == s.tasks[t := n.tasks[t]]
  {
    var first := ReachesLock(s, t, r);
    var second := LockedExecutes(After(s, first), t);
    ExecutesThen(s, first, second);
    es := first + second;
  }

  /** Deliver and settle: the run is saved with the status, and the delivery has returned. */
  lemma DeliverySettles(s: State, t: TaskId, r: Request, status: Status) returns (es: seq<Event>)
    requires t !in s.tasks && LocksAreFree(s) && Judge(s.store, r).Proceed?
    ensures Executes(s, es)
    ensures var n := After(s, es);
            n.store == s.store[r.runId := NewCheckpoint(r).(status := status)] && n.outsiders == s.outsiders
            && LocksAreFree(n)
            && n.tasks == s.tasks[t := Task(r, Returned(IsDurable(status)))]
  {
    es := DeliveryExecutes(s, t, r);
    RunExtends(s, es, Persist(t, status));
    es := es + [Persist(t, status)];
    RunExtends(s, es, Finish(t));
    es := es + [Finish(t)];
  }

  /** Deliver, suspend, resume, and a retry of the same delivery executes the run a second
      time at the same time. */
  lemma RetryDuringResume(s0: State, r: Request) returns (es: seq<Event>)
    requires Init(s0) && r.runId !in s0.store
    ensures Executes(s0, es)
    ensures var s := After(s0, es);
            1 in s.tasks && s.tasks[1].request == r && s.tasks[1].pc.Executing?
            && 0 in s.outsiders && s.outsiders[0] == Outsider(r.runId, Working(NewCheckpoint(r)))
  {
    es := DeliverySettles(s0, 0, r, AwaitingInput);
    es := ThenResume(s0, es, r);
    var more := DeliveryExecutes(After(s0, es), 1, r);
    ExecutesThen(s0, es, more);
    es := es + more;
  }

  /** Deliver, settle, crash, redeliver: the second delivery returns `Ok`, and nothing has
      changed in the store. */
  lemma RedeliveryAfterCrash(s0: State, r: Request, status: Status) returns (es: seq<Event>)
    requires Init(s0) && r.runId !in s0.store && (status == Completed || status == AwaitingInput)
    ensures Executes(s0, es)
    ensures var s := After(s0, es);
            s.tasks == map[1 := Task(r, Returned(true))]
            && s.store == s0.store[r.runId := Checkpoint(r.workflowId, Some(r.payloadHash), Some(r.workflowHash),
                                                         status)]
  {
    es := DeliverySettles(s0, 0, r, status);
    RunExtends(s0, es, Crash);
    es := es + [Crash];
    var more := ReachesLock(After(s0, es), 1, r);
    ExecutesThen(s0, es, more);
    es := es + more;
    DecisionIff(After(s0, es), 1);
    RunExtends(s0, es, Decide(1));
    es := es + [Decide(1)];
  }

  lemma ThenResume(s0: State, first: seq<Event>, r: Request) returns (es: seq<Event>)
    requires Executes(s0, first) && 0 !in After(s0, first).outsiders
    requires var s := After(s0, first);
             r.runId in s.store && s.store[r.runId] == NewCheckpoint(r).(status := AwaitingInput)
    ensures Executes(s0, es)
    ensures var n := After(s0, first);
            After(s0, es) ==
            Place(n.(store := n.store[r.runId := NewCheckpoint(r)]), 0, r.runId, Working(NewCheckpoint(r)))
  {
    es := ResumeSteps(After(s0, first), r);
    ExecutesThen(s0, first, es);
    es := first + es;
  }

  lemma ResumeSteps(s: State, r: Request) returns (es: seq<Event>)
    requires 0 !in s.outsiders
    requires r.runId in s.store && s.store[r.runId] == NewCheckpoint(r).(status := AwaitingInput)
    ensures Executes(s, es)
    ensures After(s, es)
         == Place(s.(store := s.store[r.runId := NewCheckpoint(r)]), 0, r.runId, Working(NewCheckpoint(r)))
  {
    ExecutesOne(s, ResumeLoad(0, r.runId));
    es := [ResumeLoad(0, r.runId)];
    RunExtends(s, es, Save(0, r.runId, NewCheckpoint(r)));
    es := es + [Save(0, r.runId, NewCheckpoint(r))];
    RunExtends(s, es, RunResumed(0, r.runId));
    es := es + [RunResumed(0, r.runId)];
  }

  /** A run by id executes a finished run again, and can change its status. */
  lemma FinishedRunsAgain(s: State, x: OutsiderId, id: RunId, status: Status)
    requires id in s.store && x !in s.outsiders
    ensures var es := [RunById(x, id, Identity(s.store[id])), Save(x, id, s.store[id].(status := status))];
            Executes(s, es) && After(s, es).store == s.store[id := s.store[id].(status := status)]
  {
    var run, save := RunById(x, id, Identity(s.store[id])), Save(x, id, s.store[id].(status := status));
    ExecutesOne(s, run);
    RunExtends(s, [run], save);
    assert [run] + [save] == [run, save];
  }

  /** A rejection between the decision and the start: the executor is handed a Failed run. */
  lemma RejectedRunStarts(s0: State, r: Request) returns (es: seq<Event>)
    requires Init(s0) && r.runId !in s0.store
    ensures Executes(s0, es) && Enabled(After(s0, es), Start(0))
    ensures After(s0, es).tasks[0].request == r && IsStored(After(s0, es), r.runId, Failed)
  {
    es := ReachesLock(s0, 0, r);
    RunExtends(s0, es, Decide(0));
    es := es + [Decide(0)];
    RunExtends(s0, es, RejectLoad(0, r.runId));
    es := es + [RejectLoad(0, r.runId)];
    RunExtends(s0, es, Save(0, r.runId, NewCheckpoint(r).(status := Failed)));
    es := es + [Save(0, r.runId, NewCheckpoint(r).(status := Failed))];
  }

  lemma RejectsBehindAck(s: State, id: RunId) returns (es: seq<Event>)
    requires IsStored(s, id, AwaitingInput) && 0 !in s.outsiders && 1 !in s.outsiders
    ensures Executes(s, es)
    ensures var n, c := After(s, es), s.store[id];
            && n.store == s.store[id := c.(status := Failed)]
            && 0 in n.outsiders && n.outsiders[0] == Outsider(id, AckLoaded(c))
  {
    var failed := s.store[id].(status := Failed);
    ExecutesOne(s, AckLoad(0, id));
    es := [AckLoad(0, id)];
    RunExtends(s, es, RejectLoad(1, id));
    es := es + [RejectLoad(1, id)];
    RunExtends(s, es, Save(1, id, failed));
    es := es + [Save(1, id, failed)];
  }

  /** An acknowledgement undoes a rejection made since it loaded the run. */
  lemma AckUndoesRejection(s: State, id: RunId) returns (es: seq<Event>, e: Event)
    requires IsStored(s, id, AwaitingInput) && 0 !in s.outsiders && 1 !in s.outsiders
    ensures Executes(s, es) && IsStored(After(s, es), id, Failed)
    ensures Enabled(After(s, es), e) && Next(After(s, es), e).store == s.store
  {
    es := RejectsBehindAck(s, id);
    e := Save(0, id, s.store[id]);
  }

  /** A run by id for another workflow takes the run id over: after one delivery was
      executed, a different one is, under the same run id. */
  lemma AnotherDeliveryTakesTheRun(s0: State, r: Request, q: Request) returns (es: seq<Event>)
    requires Init(s0) && r.runId !in s0.store && q.runId == r.runId && q.workflowId != r.workflowId
    ensures Executes(s0, es)
    ensures var s := After(s0, es);
            0 in s.tasks && s.tasks[0] == Task(r, Returned(true))
            && 1 in s.tasks && s.tasks[1].request == q && s.tasks[1].pc.Executing?
  {
    es := DeliverySettles(s0, 0, r, Completed);
    var work := Identity(NewCheckpoint(q));
    RunExtends(s0, es, RunById(0, r.runId, work));
    es := es + [RunById(0, r.runId, work)];
    RunExtends(s0, es, Save(0, r.runId, NewCheckpoint(q)));
    es := es + [Save(0, r.runId, NewCheckpoint(q))];
    var more := DeliveryExecutes(After(s0, es), 1, q);
    ExecutesThen(s0, es, more);
    es := es + more;
  }
}
