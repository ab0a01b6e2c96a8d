/** The Connect delivery checkpoint (apps/core/src/composio_host.rs): a crash-and-retry
    protocol over a table of weakly held locks and a durable run store, as interleaved
    atomic steps.  Resumes, rejections (apps/core/src/workflow/executor.rs),
    acknowledgements (apps/core/src/workflow/notify_user.rs) and runs by id
    (apps/core/src/server/mod.rs) take none of these locks; they are part of the protocol
    as outsiders.  The lock that acknowledgements take among themselves is left out, which
    only allows more interleavings. */
module ComposioHost {
  import opened Text

  type RunId = string
  type Hash = string
  type TaskId = nat
  type LockId = nat
  type OutsiderId = nat

  datatype Status = Running | Completed | AwaitingInput | Failed

  /** A stored run: what identifies the delivery, and how far it got. */
  datatype Checkpoint =
    Checkpoint(workflowId: string, payloadHash: Option<Hash>, workflowHash: Option<Hash>, status: Status)

  /** One delivery attempt, with its run id and hashes already computed. */
  datatype Request = Request(runId: RunId, workflowId: string, payloadHash: Hash, workflowHash: Hash)

  /** What a caller hands to the executor: the workflow, and the hashes its input holds. */
  datatype Work = Work(workflowId: string, payloadHash: Option<Hash>, workflowHash: Option<Hash>)

  /** `HasLock`: holds the `Arc`, waits for the mutex.  From `Locked` to the return the
      guard is held.  `Ready`: the checkpoint was accepted or saved.  An executing task
      carries the run its executor holds in memory, as last saved.  A returned task has
      dropped its guard and its `Arc`. */
  datatype Pc =
    | Entered
    | HasLock(lock: LockId)
    | Locked(lock: LockId)
    | Ready(lock: LockId)
    | Executing(lock: LockId, run: Checkpoint)
    | Returned(ok: bool)

  datatype Task = Task(request: Request, pc: Pc)

  /** A call that takes no lock of this protocol: `resume_run`, `fail_run` and `ack_gate`
      load the run and later save their copy over whatever is stored; `Resumed` has saved
      it and calls the executor; `Working` is inside the executor. */
  datatype OutsiderPc =
    | ResumeLoaded(run: Checkpoint)
    | Resumed(run: Checkpoint)
    | RejectLoaded(run: Checkpoint)
    | AckLoaded(run: Checkpoint)
    | Working(run: Checkpoint)
    | Left

  datatype Outsider = Outsider(runId: RunId, pc: OutsiderPc)

  datatype State = State(tasks: map<TaskId, Task>, locks: map<RunId, LockId>, nextLock: LockId,
                         store: map<RunId, Checkpoint>, outsiders: map<OutsiderId, Outsider>)

  datatype Event =
    | Enter(t: TaskId, request: Request)
    | GetLock(t: TaskId)                            // `connect_run_lock`
    | Acquire(t: TaskId)                            // `lock.lock().await`
    | Refuse(t: TaskId)                             // an error before the executor
    | Decide(t: TaskId)                             // the locked prefix up to the executor
    | Start(t: TaskId)                              // the executor loads the run
    | Persist(t: TaskId, status: Status)            // the executor saves the run
    | Finish(t: TaskId)                             // the last match
    | Abort(t: TaskId)                              // the task is dropped, or the executor fails
    | ResumeLoad(x: OutsiderId, id: RunId)          // `resume_run` loads
    | RunResumed(x: OutsiderId, id: RunId)          // its executor loads the run again
    | RejectLoad(x: OutsiderId, id: RunId)          // `fail_run` loads
    | AckLoad(x: OutsiderId, id: RunId)             // `ack_gate` loads
    | RunById(x: OutsiderId, id: RunId, work: Work) // any other call of the executor
    | Save(x: OutsiderId, id: RunId, run: Checkpoint) // an outsider saves
    | Leave(x: OutsiderId)                          // an outsider returns or is dropped
    | Crash                                         // the process dies; only the store survives

  predicate UsesLock(pc: Pc) {
    pc.HasLock? || pc.Locked? || pc.Ready? || pc.Executing?
  }

  predicate HoldsGuard(pc: Pc) {
    pc.Locked? || pc.Ready? || pc.Executing?
  }

  /** `strong_count() > 0`. */
  predicate IsLive(s: State, l: LockId) {
    exists t :: t in s.tasks && UsesLock(s.tasks[t].pc) && s.tasks[t].pc.lock == l
  }

  predicate IsGuarded(s: State, l: LockId) {
    exists t :: t in s.tasks && HoldsGuard(s.tasks[t].pc) && s.tasks[t].pc.lock == l
  }

  /** `locks.retain(strong_count > 0)`. */
  function Retained(s: State): map<RunId, LockId> {
    map id | id in s.locks && IsLive(s, s.locks[id]) :: s.locks[id]
  }

  predicate IsSettled(status: Status) {
    status != Running
  }

  predicate IsDurable(status: Status) {
    status == Completed || status == AwaitingInput
  }

  predicate SameDelivery(c: Checkpoint, r: Request) {
    c.workflowId == r.workflowId && c.payloadHash == Some(r.payloadHash)
  }

  predicate Matches(c: Checkpoint, r: Request) {
    SameDelivery(c, r) && c.workflowHash == Some(r.workflowHash)
  }

  /** What the locked part of `run_connect_target` decides from the stored run. */
  datatype Verdict = ReturnOk | ReturnErr | Proceed

  function Judge(store: map<RunId, Checkpoint>, r: Request): Verdict {
    if r.runId !in store then Proceed
    else
      var c := store[r.runId];
      if !SameDelivery(c, r) then ReturnErr
      else
        match c.status
        case Completed => ReturnOk
        case AwaitingInput => ReturnOk
        case Failed => ReturnErr
        case Running => if c.workflowHash != Some(r.workflowHash) then ReturnErr else Proceed
  }

  function NewCheckpoint(r: Request): Checkpoint {
    Checkpoint(r.workflowId, Some(r.payloadHash), Some(r.workflowHash), Running)
  }

  function Saved(store: map<RunId, Checkpoint>, r: Request): map<RunId, Checkpoint> {
    if r.runId in store then store else store[r.runId := NewCheckpoint(r)]
  }

  /** How the executor begins: with the stored run if it is of this workflow, and else with
      a new one; in either case it is Running, whatever was stored. */
  function Loaded(store: map<RunId, Checkpoint>, id: RunId, work: Work): Checkpoint {
    if id in store && store[id].workflowId == work.workflowId then store[id].(status := Running)
    else Checkpoint(work.workflowId, work.payloadHash, work.workflowHash, Running)
  }

  /** A delivery hands over its workflow and no input. */
  function WorkOf(r: Request): Work {
    Work(r.workflowId, None, None)
  }

  /** What identifies a run; a resume hands over this much of the copy it saved. */
  function Identity(c: Checkpoint): Work {
    Work(c.workflowId, c.payloadHash, c.workflowHash)
  }

  /** What an outsider at this place may save. */
  predicate Writes(pc: OutsiderPc, c: Checkpoint) {
    match pc
    case ResumeLoaded(run) => c == run.(status := Running)
    case RejectLoaded(run) => c == run.(status := Failed)
    case AckLoaded(run) => c == run
    case Working(run) => run.status == Running && c == run.(status := c.status)
    case _ => false
  }

  function AfterSave(pc: OutsiderPc, c: Checkpoint): OutsiderPc {
    match pc
    case ResumeLoaded(_) => Resumed(c)
    case Working(_) => Working(c)
    case _ => Left
  }

  /** The steps of a delivery that has entered. */
  predicate IsTaskEvent(e: Event) {
    e.GetLock? || e.Acquire? || e.Refuse? || e.Decide? || e.Start? || e.Persist? || e.Finish? || e.Abort?
  }

  /** The steps of those who take no lock of this protocol. */
  predicate IsOutsiderEvent(e: Event) {
    e.ResumeLoad? || e.RunResumed? || e.RejectLoad? || e.AckLoad? || e.RunById? || e.Save? || e.Leave?
  }

  predicate Enabled(s: State, e: Event) {
    match e
    case Enter(t, _) => t !in s.tasks
    case Crash => true
    case GetLock(t) => t in s.tasks && s.tasks[t].pc.Entered?
    case Acquire(t) => t in s.tasks && s.tasks[t].pc.HasLock? && !IsGuarded(s, s.tasks[t].pc.lock)
    case Refuse(t) => t in s.tasks && (s.tasks[t].pc.Entered? || s.tasks[t].pc.Locked?)
    case Decide(t) => t in s.tasks && s.tasks[t].pc.Locked?
    case Start(t) => t in s.tasks && s.tasks[t].pc.Ready?
    case Persist(t, _) => t in s.tasks && s.tasks[t].pc.Executing? && s.tasks[t].pc.run.status == Running
    case Finish(t) => t in s.tasks && s.tasks[t].pc.Executing?
    case Abort(t) => t in s.tasks && (s.tasks[t].pc.HasLock? || s.tasks[t].pc.Executing?)
    case ResumeLoad(x, id) => x !in s.outsiders && id in s.store && s.store[id].status == AwaitingInput
    case RejectLoad(x, id) => x !in s.outsiders && id in s.store && s.store[id].status in {Running, AwaitingInput}
    case AckLoad(x, id) => x !in s.outsiders && id in s.store && s.store[id].status == AwaitingInput
    case RunById(x, _, _) => x !in s.outsiders
    case RunResumed(x, id) => x in s.outsiders && s.outsiders[x].runId == id && s.outsiders[x].pc.Resumed?
    case Save(x, id, c) => x in s.outsiders && s.outsiders[x].runId == id && Writes(s.outsiders[x].pc, c)
    case Leave(x) => x in s.outsiders
  }

  function Move(s: State, t: TaskId, pc: Pc): State
    requires t in s.tasks
  {
    s.(tasks := s.tasks[t := s.tasks[t].(pc := pc)])
  }

  function Place(s: State, x: OutsiderId, id: RunId, pc: OutsiderPc): State {
    s.(outsiders := s.outsiders[x := Outsider(id, pc)])
  }

  function Next(s: State, e: Event): State
    requires Enabled(s, e)
  {
    match e
    case Enter(t, r) => s.(tasks := s.tasks[t := Task(r, Entered)])
    case Crash => s.(tasks := map[], locks := map[], outsiders := map[])
    case GetLock(t) =>
      var kept := Retained(s);
      var id := s.tasks[t].request.runId;
      if id in kept then Move(s, t, HasLock(kept[id])).(locks := kept)
      else Move(s, t, HasLock(s.nextLock)).(locks := kept[id := s.nextLock], nextLock := s.nextLock + 1)
    case Acquire(t) => Move(s, t, Locked(s.tasks[t].pc.lock))
    case Refuse(t) => Move(s, t, Returned(false))
    case Decide(t) =>
      var r := s.tasks[t].request;
      (match Judge(s.store, r)
       case ReturnOk => Move(s, t, Returned(true))
       case ReturnErr => Move(s, t, Returned(false))
       case Proceed => Move(s, t, Ready(s.tasks[t].pc.lock)).(store := Saved(s.store, r)))
    case Start(t) =>
      var r := s.tasks[t].request;
      Move(s, t, Executing(s.tasks[t].pc.lock, Loaded(s.store, r.runId, WorkOf(r))))
    case Persist(t, status) =>
      var c := s.tasks[t].pc.run.(status := status);
      Move(s, t, Executing(s.tasks[t].pc.lock, c)).(store := s.store[s.tasks[t].request.runId := c])
    case Finish(t) => Move(s, t, Returned(IsDurable(s.tasks[t].pc.run.status)))
    case Abort(t) => Move(s, t, Returned(false))
    case ResumeLoad(x, id) => Place(s, x, id, ResumeLoaded(s.store[id]))
    case RejectLoad(x, id) => Place(s, x, id, RejectLoaded(s.store[id]))
    case AckLoad(x, id) => Place(s, x, id, AckLoaded(s.store[id]))
    case RunById(x, id, work) => Place(s, x, id, Working(Loaded(s.store, id, work)))
    case RunResumed(x, id) => Place(s, x, id, Working(Loaded(s.store, id, Identity(s.outsiders[x].pc.run))))
    case Save(x, id, c) => Place(s, x, id, AfterSave(s.outsiders[x].pc, c)).(store := s.store[id := c])
    case Leave(x) => Place(s, x, s.outsiders[x].runId, Left)
  }

  ghost predicate Executes(s: State, es: seq<Event>)
    decreases es
  {
    es == [] || (Enabled(s, es[0]) && Executes(Next(s, es[0]), es[1..]))
  }

  function After(s: State, es: seq<Event>): State
    requires Executes(s, es)
    decreases es
  {
    if es == [] then s else After(Next(s, es[0]), es[1..])
  }

  /** A process start over an arbitrary run store. */
  predicate Init(s: State) {
    s.tasks == map[] && s.locks == map[] && s.outsiders == map[]
  }

  // ----- The invariant -----

  /** Every lock in use is the one its run id is filed under. */
  ghost predicate LocksAreFiled(s: State) {
    forall t :: t in s.tasks && UsesLock(s.tasks[t].pc) ==>
      s.tasks[t].request.runId in s.locks && s.locks[s.tasks[t].request.runId] == s.tasks[t].pc.lock
  }

  ghost predicate LocksAreOld(s: State) {
    forall id :: id in s.locks ==> s.locks[id] < s.nextLock
  }

  /** No two run ids share a lock. */
  ghost predicate LocksDiffer(s: State) {
    forall a, b :: a in s.locks && b in s.locks && a != b ==> s.locks[a] != s.locks[b]
  }

  ghost predicate GuardsAreExclusive(s: State) {
    forall t, u :: t in s.tasks && u in s.tasks && t != u && HoldsGuard(s.tasks[t].pc) && HoldsGuard(s.tasks[u].pc) ==>
      s.tasks[t].pc.lock != s.tasks[u].pc.lock
  }

  ghost predicate Inv(s: State) {
    LocksAreFiled(s) && LocksAreOld(s) && LocksDiffer(s) && GuardsAreExclusive(s)
  }

  /** No lock in use is dropped from the map. */
  lemma RetainedIsFiled(s: State)
    requires LocksAreFiled(s)
    ensures LocksAreFiled(s.(locks := Retained(s)))
  {
    forall u | u in s.tasks && UsesLock(s.tasks[u].pc) ensures s.tasks[u].request.runId in Retained(s) {
      assert IsLive(s, s.locks[s.tasks[u].request.runId]);
    }
  }

  lemma GetLockKeepsFiling(s: State, t: TaskId)
    requires Inv(s) && Enabled(s, GetLock(t))
    ensures LocksAreFiled(Next(s, GetLock(t)))
  {
    RetainedIsFiled(s);
  }

  /** No dead lock stays filed: after the call every filed lock is in use. */
  lemma GetLockDropsDeadLocks(s: State, t: TaskId, id: RunId)
    requires Inv(s) && Enabled(s, GetLock(t)) && id in Next(s, GetLock(t)).locks
    ensures IsLive(Next(s, GetLock(t)), Next(s, GetLock(t)).locks[id])
  {
    var n := Next(s, GetLock(t));
    if id == s.tasks[t].request.runId {
      assert t in n.tasks && n.tasks[t].pc == HasLock(n.locks[id]);
    } else {
      var u :| u in s.tasks && UsesLock(s.tasks[u].pc) && s.tasks[u].pc.lock == s.locks[id];
      assert u in n.tasks && n.tasks[u] == s.tasks[u];
    }
  }

  lemma GetLockKeepsLocks(s: State, t: TaskId)
    requires LocksAreOld(s) && LocksDiffer(s) && Enabled(s, GetLock(t))
    ensures LocksAreOld(Next(s, GetLock(t))) && LocksDiffer(Next(s, GetLock(t)))
  {
  }

  lemma GetLockKeepsGuards(s: State, t: TaskId)
    requires GuardsAreExclusive(s) && Enabled(s, GetLock(t))
    ensures GuardsAreExclusive(Next(s, GetLock(t)))
  {
  }

  lemma GetLockKeepsInv(s: State, t: TaskId)
    requires Inv(s) && Enabled(s, GetLock(t))
    ensures Inv(Next(s, GetLock(t)))
  {
    GetLockKeepsFiling(s, t);
    GetLockKeepsLocks(s, t);
    GetLockKeepsGuards(s, t);
  }

  /** Two guards for one run id cannot coexist. */
  lemma OneGuardPerRun(s: State, t: TaskId, u: TaskId)
    requires LocksAreFiled(s) && GuardsAreExclusive(s) && t in s.tasks && u in s.tasks
    requires HoldsGuard(s.tasks[t].pc) && HoldsGuard(s.tasks[u].pc)
    requires s.tasks[t].request.runId == s.tasks[u].request.runId
    ensures t == u
  {
  }

  /** A step that only moves one delivery, to a place that uses no lock it did not use and
      holds no guard it did not hold. */
  lemma MoveKeepsInv(s: State, t: TaskId, pc: Pc)
    requires Inv(s) && t in s.tasks
    requires UsesLock(pc) ==> UsesLock(s.tasks[t].pc) && pc.lock == s.tasks[t].pc.lock
    requires HoldsGuard(pc) ==> HoldsGuard(s.tasks[t].pc)
    ensures Inv(Move(s, t, pc))
  {
  }

  /** Locks do not depend on the store or the outsiders. */
  lemma SaveKeepsInv(s: State, n: State)
    requires Inv(s) && n.tasks == s.tasks && n.locks == s.locks && n.nextLock == s.nextLock
    ensures Inv(n)
  {
  }

  /** A delivery waits for deliveries of its own run id only, and for each of those that is
      past the lock. */
  lemma WaitsForItsOwnRun(s: State, t: TaskId)
    requires Inv(s) && t in s.tasks && s.tasks[t].pc.HasLock?
    ensures Enabled(s, Acquire(t)) <==>
            forall u :: u in s.tasks && s.tasks[u].request.runId == s.tasks[t].request.runId ==>
              !s.tasks[u].pc.Locked? && !s.tasks[u].pc.Ready? && !s.tasks[u].pc.Executing?
  {
  }

  /** Only the locked decision and the last match answer `Ok`. */
  lemma OkComesFrom(s: State, e: Event, t: TaskId)
    requires Enabled(s, e) && t in Next(s, e).tasks && Next(s, e).tasks[t].pc == Returned(true)
    ensures e == Decide(t) || e == Finish(t) || (t in s.tasks && s.tasks[t] == Next(s, e).tasks[t])
  {
  }

  lemma AcquireKeepsInv(s: State, t: TaskId)
    requires Inv(s) && Enabled(s, Acquire(t))
    ensures Inv(Next(s, Acquire(t)))
  {
    assert forall u :: u in s.tasks && HoldsGuard(s.tasks[u].pc) ==> s.tasks[u].pc.lock != s.tasks[t].pc.lock;
  }

  lemma DecideKeepsInv(s: State, t: TaskId)
    requires Inv(s) && Enabled(s, Decide(t))
    ensures Inv(Next(s, Decide(t)))
  {
    var n := Next(s, Decide(t));
    MoveKeepsInv(s, t, n.tasks[t].pc);
    SaveKeepsInv(Move(s, t, n.tasks[t].pc), n);
  }

  lemma EnterKeepsInv(s: State, t: TaskId, r: Request)
    requires Inv(s) && Enabled(s, Enter(t, r))
    ensures Inv(Next(s, Enter(t, r)))
  {
  }

  /** An outsider moves itself, and may save a run. */
  lemma OutsiderFrame(s: State, e: Event)
    requires Enabled(s, e) && IsOutsiderEvent(e)
    ensures var n := Next(s, e);
            n.tasks == s.tasks && n.locks == s.locks && n.nextLock == s.nextLock
            && n.store == if e.Save? then s.store[e.id := e.run] else s.store
  {
  }

  /** Every atomic step of every interleaving keeps the invariant, crashes and outsiders
      included. */
  lemma StepKeepsInv(s: State, e: Event)
    requires Inv(s) && Enabled(s, e)
    ensures Inv(Next(s, e))
  {
    if IsOutsiderEvent(e) {
      OutsiderFrame(s, e);
      SaveKeepsInv(s, Next(s, e));
    } else {
      match e
      case Enter(t, r) => EnterKeepsInv(s, t, r);
      case GetLock(t) => GetLockKeepsInv(s, t);
      case Acquire(t) => AcquireKeepsInv(s, t);
      case Decide(t) => DecideKeepsInv(s, t);
      case Start(t) => MoveKeepsInv(s, t, Next(s, e).tasks[t].pc);
      case Persist(t, _) =>
        MoveKeepsInv(s, t, Next(s, e).tasks[t].pc);
        SaveKeepsInv(Move(s, t, Next(s, e).tasks[t].pc), Next(s, e));
      case Refuse(t) => MoveKeepsInv(s, t, Returned(false));
      case Abort(t) => MoveKeepsInv(s, t, Returned(false));
      case Finish(t) => MoveKeepsInv(s, t, Next(s, e).tasks[t].pc);
      case Crash => InitKeepsInv(Next(s, Crash));
      case _ =>
    }
  }

  lemma {:induction false} RunKeepsInv(s: State, es: seq<Event>)
    requires Inv(s) && Executes(s, es)
    ensures Inv(After(s, es))
    decreases es
  {
    if es != [] {
      StepKeepsInv(s, es[0]);
      RunKeepsInv(Next(s, es[0]), es[1..]);
    }
  }

  lemma InitKeepsInv(s: State)
    requires Init(s)
    ensures Inv(s)
  {
  }

  lemma {:induction false} ExecutesSplit(s: State, es: seq<Event>, fs: seq<Event>)
    requires Executes(s, es + fs)
    ensures Executes(s, es) && Executes(After(s, es), fs) && After(s, es + fs) == After(After(s, es), fs)
    decreases es
  {
    if es == [] {
      NilPlus(fs);
    } else {
      TailOfConcat(es, fs);
      ExecutesSplit(Next(s, es[0]), es[1..], fs);
    }
  }

  lemma {:induction false} ExecutesThen(s: State, es: seq<Event>, fs: seq<Event>)
    requires Executes(s, es) && Executes(After(s, es), fs)
    ensures Executes(s, es + fs) && After(s, es + fs) == After(After(s, es), fs)
    decreases es
  {
    if es == [] {
      NilPlus(fs);
    } else {
      TailOfConcat(es, fs);
      ExecutesThen(Next(s, es[0]), es[1..], fs);
    }
  }

  lemma ExecutesOne(s: State, e: Event)
    requires Enabled(s, e)
    ensures Executes(s, [e]) && After(s, [e]) == Next(s, e)
  {
    var one := [e];
    assert one[1..] == [];
    assert Executes(s, one) && After(s, one) == After(Next(s, e), one[1..]);
  }

  lemma RunExtends(s: State, es: seq<Event>, e: Event)
    requires Executes(s, es) && Enabled(After(s, es), e)
    ensures Executes(s, es + [e]) && After(s, es + [e]) == Next(After(s, es), e)
  {
    ExecutesOne(After(s, es), e);
    ExecutesThen(s, es, [e]);
  }

  // ----- Deliveries exclude each other -----

  /** Live locks for one run id are the same mutex and its guard is held from the decision
      to the return: at most one delivery of a run id executes at any time, whatever the
      outsiders do. */
  lemma MutualExclusion(s0: State, es: seq<Event>, t: TaskId, u: TaskId)
    requires Init(s0) && Executes(s0, es)
    requires var s := After(s0, es);
             t in s.tasks && u in s.tasks && s.tasks[t].request.runId == s.tasks[u].request.runId
    ensures var s := After(s0, es);
            (UsesLock(s.tasks[t].pc) && UsesLock(s.tasks[u].pc) ==> s.tasks[t].pc.lock == s.tasks[u].pc.lock)
            && (s.tasks[t].pc.Executing? && s.tasks[u].pc.Executing? ==> t == u)
  {
    InitKeepsInv(s0);
    RunKeepsInv(s0, es);
    var s := After(s0, es);
    if s.tasks[t].pc.Executing? && s.tasks[u].pc.Executing? { OneGuardPerRun(s, t, u); }
  }

  // ----- The code that takes the steps -----

  /** The static lock map and the run store; `tasks` records where every delivery stands.
      The weak references' counts are what `tasks` says they are. */
  class Host {
    var locks: map<RunId, LockId>
    var nextLock: LockId
    var store: map<RunId, Checkpoint>
    ghost var tasks: map<TaskId, Task>
    ghost var outsiders: map<OutsiderId, Outsider>

    ghost function Snapshot(): State
      reads this
    {
      State(tasks, locks, nextLock, store, outsiders)
    }

    constructor (store: map<RunId, Checkpoint>)
      ensures Init(Snapshot()) && this.store == store
    {
      this.store := store;
      locks, nextLock, tasks, outsiders := map[], 0, map[], map[];
    }

    /** `connect_run_lock`; `live` is what the weak references report. */
    method ConnectRunLock(id: RunId, ghost t: TaskId, live: set<LockId>) returns (lock: LockId)
      requires Enabled(Snapshot(), GetLock(t)) && tasks[t].request.runId == id
      requires forall l :: l in locks.Values ==> (l in live <==> IsLive(Snapshot(), l))
      modifies this
      ensures Snapshot() == Next(old(Snapshot()), GetLock(t)) && tasks[t].pc == HasLock(lock)
    {
      ghost var s := Snapshot();
      locks := map k | k in locks && locks[k] in live :: locks[k];
      assert locks == Retained(s) by {
        assert forall k :: k in s.locks ==> s.locks[k] in s.locks.Values;
      }
      if id in locks {
        lock := locks[id];
      } else {
        lock := nextLock;
        nextLock := nextLock + 1;
        locks := locks[id := lock];
      }
      tasks := tasks[t := tasks[t].(pc := HasLock(lock))];
    }

    /** The locked prefix of `run_connect_target`: `None` means go on to execute. */
    method CheckCheckpoint(r: Request, ghost t: TaskId) returns (answer: Option<bool>)
      requires Enabled(Snapshot(), Decide(t)) && tasks[t].request == r
      modifies this
      ensures Snapshot() == Next(old(Snapshot()), Decide(t))
      ensures answer.Some? ==> tasks[t].pc == Returned(answer.value)
      ensures answer.None? ==> tasks[t].pc.Ready?
      ensures answer == Some(true) <==>
              r.runId in old(store) && old(store)[r.runId].workflowId == r.workflowId
              && old(store)[r.runId].payloadHash == Some(r.payloadHash)
              && (old(store)[r.runId].status == Completed || old(store)[r.runId].status == AwaitingInput)
    {
      ghost var lock := tasks[t].pc.lock;
      if r.runId in store {
        var existing := store[r.runId];
        if existing.workflowId != r.workflowId || existing.payloadHash != Some(r.payloadHash) {
          tasks := tasks[t := tasks[t].(pc := Returned(false))];
          return Some(false);
        }
        if existing.status == Completed || existing.status == AwaitingInput {
          tasks := tasks[t := tasks[t].(pc := Returned(true))];
          return Some(true);
        }
        if existing.status == Failed || existing.workflowHash != Some(r.workflowHash) {
          tasks := tasks[t := tasks[t].(pc := Returned(false))];
          return Some(false);
        }
      } else {
        store := store[r.runId := Checkpoint(r.workflowId, Some(r.payloadHash), Some(r.workflowHash), Running)];
      }
      tasks := tasks[t := tasks[t].(pc := Ready(lock))];
      answer := None;
    }

    /** The last match of `run_connect_target`, on the run the executor returned. */
    method JudgeOutcome(status: Status, ghost t: TaskId) returns (ok: bool)
      requires Enabled(Snapshot(), Finish(t)) && tasks[t].pc.run.status == status
      modifies this`tasks
      ensures Snapshot() == Next(old(Snapshot()), Finish(t)) && tasks[t].pc == Returned(ok)
    {
      ok := status == Completed || status == AwaitingInput;
      tasks := tasks[t := tasks[t].(pc := Returned(ok))];
    }
  }
}
