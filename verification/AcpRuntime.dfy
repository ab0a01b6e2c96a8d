/** The ACP admission gate (apps/core/src/acp_runtime.rs): a counting gate whose limit
    may change while tasks wait, as interleaved atomic steps. */
module AcpRuntime {
  import opened Text

  const MIN_PARALLEL_AGENTS: nat := 1
  const MAX_PARALLEL_AGENTS: nat := 32
  const AUTO_PARALLEL_CAP: nat := 8
  const ACP_RAM_PER_AGENT_BYTES: nat := 4 * 1024 * 1024 * 1024

  // ----- Limits -----

  function Clamp(n: nat, lo: nat, hi: nat): nat
    requires lo <= hi
  {
    if n < lo then lo else Min(n, hi)
  }

  function CalculateAutoMaxParallelAgents(cpuCores: nat, physicalCores: nat, totalRamBytes: nat): nat {
    var measured := if physicalCores == 0 then cpuCores else physicalCores;
    var cpuBudget := Clamp((if measured < 1 then 1 else measured) / 2, 1, AUTO_PARALLEL_CAP);
    var ramBudget := if totalRamBytes == 0 then 1
        else Clamp(totalRamBytes / ACP_RAM_PER_AGENT_BYTES, 1, AUTO_PARALLEL_CAP);
    Clamp(Min(cpuBudget, ramBudget), MIN_PARALLEL_AGENTS, AUTO_PARALLEL_CAP)
  }

  /** The automatic limit is the most agents, up to eight, for which half the cores and
      four GiB of RAM each suffice; one agent is always allowed. */
  lemma AutoLimitIsGreatestAffordable(cpuCores: nat, physicalCores: nat, totalRamBytes: nat, n: nat)
    requires 1 <= n <= 8
    ensures var cores := if physicalCores == 0 then cpuCores else physicalCores;
            n <= CalculateAutoMaxParallelAgents(cpuCores, physicalCores, totalRamBytes)
            <==> n == 1 || (2 * n <= cores && n * 4_294_967_296 <= totalRamBytes)
    ensures 1 <= CalculateAutoMaxParallelAgents(cpuCores, physicalCores, totalRamBytes) <= 8
  {
    var q := totalRamBytes / ACP_RAM_PER_AGENT_BYTES;
    assert n <= q <==> n * ACP_RAM_PER_AGENT_BYTES <= totalRamBytes;
  }

  datatype RuntimeConfig = RuntimeConfig(idleTimeoutMinutes: nat, maxParallelAgents: Option<nat>,
                                         keepComputerAwake: bool)

  const DEFAULT_CONFIG := RuntimeConfig(10, None, true)

  /** The fields of a settings object that are present with the right JSON type. */
  datatype Section = Section(idle: Option<nat>, agents: Option<nat>, awake: Option<bool>)

  function SanitizeConfig(section: Section): RuntimeConfig {
    RuntimeConfig(
      Clamp(if section.idle.Some? then section.idle.value else 10, 1, 24 * 60),
      if section.agents.Some? && MIN_PARALLEL_AGENTS <= section.agents.value <= MAX_PARALLEL_AGENTS
      then section.agents
      else None,
      section.awake.Some? ==> section.awake.value)
  }

  /** Settings are taken as given but for an idle time outside a minute and a day, which
      becomes the nearer of the two, and for a number of agents outside 1 to 32, which is as
      good as none; without an idle time it is ten minutes, and the computer is kept awake
      unless told otherwise.  The default is what empty settings give. */
  lemma SanitizedMeans(section: Section)
    ensures var c := SanitizeConfig(section);
            && 1 <= c.idleTimeoutMinutes <= 1440
            && (section.idle.None? ==> c.idleTimeoutMinutes == 10)
            && (section.idle.Some? && 1 <= section.idle.value <= 1440 ==> c.idleTimeoutMinutes == section.idle.value)
            && (section.idle.Some? && section.idle.value > 1440 ==> c.idleTimeoutMinutes == 1440)
            && (c.maxParallelAgents.Some? <==> section.agents.Some? && 1 <= section.agents.value <= 32)
            && (c.maxParallelAgents.Some? ==> c.maxParallelAgents == section.agents)
            && (!c.keepComputerAwake <==> section.awake == Some(false))
    ensures DEFAULT_CONFIG == SanitizeConfig(Section(None, None, None))
  {
  }

  /** `settings().effective_max_parallel_agents`. */
  function EffectiveLimit(config: RuntimeConfig, auto: nat): nat {
    Clamp(if config.maxParallelAgents.Some? then config.maxParallelAgents.value else auto,
          MIN_PARALLEL_AGENTS, MAX_PARALLEL_AGENTS)
  }

  // ----- The protocol -----

  type TaskId = nat

  /** Where a task stands.  `Armed`, `Read` and `Parked` own a live `Notified` future;
      `OwesNotify` has changed the gate and not yet called `notify_waiters`. */
  datatype Pc = Idle | Armed | Read(limit: nat) | Parked | Holding | OwesNotify

  /** `woken`: `notify_waiters` was called since the task's future was created. */
  datatype Task = Task(pc: Pc, woken: bool)

  datatype State = State(config: RuntimeConfig, auto: nat, active: nat, tasks: map<TaskId, Task>)

  datatype Event =
    | Call(t: TaskId)                       // acquire: create the future
    | ReadLimit(t: TaskId)                  // acquire: read the effective limit
    | TryAdmit(t: TaskId)                   // acquire: lock, compare, take a permit or go on to wait
    | Resume(t: TaskId)                     // acquire: the await returns, the loop creates a new future
    | Cancel(t: TaskId)                     // the waiting future is dropped
    | Release(t: TaskId)                    // AcpPermit::drop: decrement under the lock
    | Apply(t: TaskId, section: Section)    // apply_config: store the sanitised settings
    | Notify(t: TaskId)                     // AcpPermit::drop or apply_config: notify_waiters

  function Limit(s: State): nat { EffectiveLimit(s.config, s.auto) }

  predicate Enabled(s: State, e: Event) {
    e.t in s.tasks
    && var task := s.tasks[e.t];
    match e
    case Call(_) => task.pc == Idle
    case ReadLimit(_) => task.pc == Armed
    case TryAdmit(_) => task.pc.Read?
    case Resume(_) => task.pc == Parked && task.woken
    case Cancel(_) => task.pc == Parked
    case Release(_) => task.pc == Holding
    case Apply(_, _) => task.pc == Idle
    case Notify(_) => task.pc == OwesNotify
  }

  function WakeAll(tasks: map<TaskId, Task>): (r: map<TaskId, Task>)
    ensures r.Keys == tasks.Keys
  {
    map t | t in tasks :: tasks[t].(woken := true)
  }

  function Next(s: State, e: Event): State
    requires Enabled(s, e)
  {
    var task := s.tasks[e.t];
    match e
    case Call(t) => s.(tasks := s.tasks[t := Task(Armed, false)])
    case ReadLimit(t) => s.(tasks := s.tasks[t := task.(pc := Read(Limit(s)))])
    case TryAdmit(t) =>
      if s.active < task.pc.limit then s.(active := s.active + 1, tasks := s.tasks[t := task.(pc := Holding)])
      else s.(tasks := s.tasks[t := task.(pc := Parked)])
    case Resume(t) => s.(tasks := s.tasks[t := Task(Armed, false)])
    case Cancel(t) => s.(tasks := s.tasks[t := task.(pc := Idle)])
    case Release(t) => s.(active := if s.active == 0 then 0 else s.active - 1,
                         tasks := s.tasks[t := task.(pc := OwesNotify)])
    case Apply(t, section) => s.(config := SanitizeConfig(section), tasks := s.tasks[t := task.(pc := OwesNotify)])
    case Notify(t) => s.(tasks := WakeAll(s.tasks)[t := Task(Idle, true)])
  }

  predicate Init(s: State) {
    s.config == DEFAULT_CONFIG && 1 <= s.auto <= AUTO_PARALLEL_CAP && s.active == 0
    && forall t :: t in s.tasks ==> s.tasks[t].pc == Idle
  }

  ghost predicate Executes(s: State, es: seq<Event>)
    decreases es
  {
    es == [] || (Enabled(s, es[0]) && Executes(Next(s, es[0]), es[1..]))
  }

  function After(s: State, es: seq<Event>): State
    requires Executes(s, es)
    decreases es
  {
    if es == [] then s else After(Next(s, es[0]), es[1..])
  }

  function Holders(s: State): set<TaskId> {
    set t | t in s.tasks && s.tasks[t].pc == Holding
  }

  ghost predicate SomeoneOwes(s: State) {
    exists t :: t in s.tasks && s.tasks[t].pc == OwesNotify
  }

  /** A task that no notification has reached is waiting for a reason that still holds,
      or someone is about to notify it. */
  ghost predicate WaitJustified(s: State, task: Task) {
    task.woken
    || match task.pc
       case Read(l) => l == Limit(s) || SomeoneOwes(s)
       case Parked => s.active >= Limit(s) || SomeoneOwes(s)
       case _ => true
  }

  ghost predicate Inv(s: State) {
    && s.active == |Holders(s)|
    && s.active <= MAX_PARALLEL_AGENTS
    && (forall t :: t in s.tasks && s.tasks[t].pc.Read? ==>
        MIN_PARALLEL_AGENTS <= s.tasks[t].pc.limit <= MAX_PARALLEL_AGENTS)
    && (forall t :: t in s.tasks ==> WaitJustified(s, s.tasks[t]))
  }

  lemma InitKeepsInv(s: State)
    requires Init(s)
    ensures Inv(s)
  {
    assert Holders(s) == {};
  }

  /** How one task's move changes the set of permits. */
  lemma HoldersAfter(s: State, e: Event)
    requires Enabled(s, e)
    ensures var n := Next(s, e);
            Holders(n) == (if n.tasks[e.t].pc == Holding then Holders(s) + {e.t} else Holders(s) - {e.t})
  {
    var n := Next(s, e);
    assert forall t :: t in s.tasks && t != e.t ==> n.tasks[t].pc == s.tasks[t].pc;
  }

  lemma StepKeepsCount(s: State, e: Event)
    requires Enabled(s, e) && s.active == |Holders(s)|
    ensures Next(s, e).active == |Holders(Next(s, e))|
    ensures e.Release? ==> s.active >= 1
  {
    HoldersAfter(s, e);
    if s.tasks[e.t].pc == Holding {
      assert |Holders(s) - {e.t}| == |Holders(s)| - 1;
    } else {
      assert e.t !in Holders(s);
      assert Holders(s) - {e.t} == Holders(s);
    }
  }

  /** A debt is paid only by the debtor's own `Notify`. */
  lemma DebtStays(s: State, e: Event)
    requires Enabled(s, e) && !e.Notify? && SomeoneOwes(s)
    ensures SomeoneOwes(Next(s, e))
  {
    var u :| u in s.tasks && s.tasks[u].pc == OwesNotify;
    assert Next(s, e).tasks[u].pc == OwesNotify;
  }

  lemma StepKeepsWaits(s: State, e: Event)
    requires Enabled(s, e) && Inv(s)
    ensures forall t :: t in Next(s, e).tasks ==> WaitJustified(Next(s, e), Next(s, e).tasks[t])
  {
    var n := Next(s, e);
    if e.Notify? {
      assert forall t :: t in n.tasks ==> n.tasks[t].woken;
    } else {
      if SomeoneOwes(s) { DebtStays(s, e); }
      if e.Release? || e.Apply? {
        assert n.tasks[e.t].pc == OwesNotify;
      }
      forall t | t in n.tasks ensures WaitJustified(n, n.tasks[t]) {
        assert WaitJustified(s, s.tasks[t]);
      }
    }
  }

  /** The invariant survives every atomic step of every interleaving. */
  lemma StepKeepsInv(s: State, e: Event)
    requires Enabled(s, e) && Inv(s)
    ensures Inv(Next(s, e))
  {
    StepKeepsCount(s, e);
    StepKeepsWaits(s, e);
  }

  lemma {:induction false} RunKeepsInv(s: State, es: seq<Event>)
    requires Inv(s) && Executes(s, es)
    ensures Inv(After(s, es))
    decreases es
  {
    if es != [] {
      StepKeepsInv(s, es[0]);
      RunKeepsInv(Next(s, es[0]), es[1..]);
    }
  }

  /** No lost wakeup: in every reachable state a task parked without a notification sees
      a full gate, or someone still owes a `notify_waiters`; with no debt outstanding it
      waits only while the gate is full, and then a live permit exists to wake it. */
  lemma NoLostWakeup(s0: State, es: seq<Event>, t: TaskId)
    requires Init(s0) && Executes(s0, es)
    requires var s := After(s0, es); t in s.tasks && s.tasks[t] == Task(Parked, false)
    ensures var s := After(s0, es);
            SomeoneOwes(s) || (s.active >= Limit(s) >= 1 && exists h :: h in s.tasks && s.tasks[h].pc == Holding)
  {
    InitKeepsInv(s0);
    RunKeepsInv(s0, es);
    var s := After(s0, es);
    assert WaitJustified(s, s.tasks[t]);
    if !SomeoneOwes(s) {
      assert Holders(s) != {};
      var h :| h in Holders(s);
    }
  }

  /** `active` is the number of live permits in every reachable state, never above 32, so
      the saturating decrement never saturates; a grant leaves it within the limit the
      grantee read. */
  lemma ActiveCountsPermits(s0: State, es: seq<Event>, e: Event)
    requires Init(s0) && Executes(s0, es) && Enabled(After(s0, es), e)
    ensures var s := After(s0, es);
            s.active == |Holders(s)| <= MAX_PARALLEL_AGENTS
            && (e.Release? ==> s.active >= 1 && Next(s, e).active == s.active - 1)
            && (e.TryAdmit? && Next(s, e).active != s.active ==>
                Next(s, e).active == s.active + 1 <= s.tasks[e.t].pc.limit)
  {
    InitKeepsInv(s0);
    RunKeepsInv(s0, es);
    StepKeepsCount(After(s0, es), e);
  }

  // ----- No deadlock -----

  predicate IsProgress(e: Event) {
    e.Release? || e.Notify? || e.Resume? || e.ReadLimit? || e.TryAdmit?
  }

  lemma {:induction false} ExecutesThen(s: State, es: seq<Event>, fs: seq<Event>)
    requires Executes(s, es) && Executes(After(s, es), fs)
    ensures Executes(s, es + fs) && After(s, es + fs) == After(After(s, es), fs)
    decreases es
  {
    if es == [] {
      NilPlus(fs);
    } else {
      ExecutesThen(Next(s, es[0]), es[1..], fs);
      TailOfConcat(es, fs);
    }
  }

  lemma RunTwo(s: State, a: Event, b: Event)
    requires Enabled(s, a) && Enabled(Next(s, a), b)
    ensures Executes(s, [a, b]) && After(s, [a, b]) == Next(Next(s, a), b)
  {
    var both, last := [a, b], [b];
    assert both[1..] == last && last[1..] == [];
    var s1 := Next(s, a);
    assert Executes(s1, last) && After(s1, last) == After(Next(s1, b), last[1..]) == Next(s1, b);
    assert Executes(s, both) && After(s, both) == After(s1, both[1..]);
  }

  /** A waiter that has been woken gets in if there is room. */
  lemma WokenGetsIn(s: State, t: TaskId) returns (es: seq<Event>)
    requires Inv(s) && t in s.tasks && s.tasks[t] == Task(Parked, true) && s.active < Limit(s)
    ensures Executes(s, es) && t in After(s, es).tasks && After(s, es).tasks[t].pc == Holding
    ensures forall e :: e in es ==> IsProgress(e)
  {
    var s1 := Next(s, Resume(t));
    var s2 := Next(s1, ReadLimit(t));
    RunTwo(s1, ReadLimit(t), TryAdmit(t));
    es := [Resume(t), ReadLimit(t), TryAdmit(t)];
    assert es[1..] == [ReadLimit(t), TryAdmit(t)];
  }

  /** A parked task is woken, and its own state otherwise untouched, by any `Notify`. */
  lemma NotifyWakes(s: State, t: TaskId, u: TaskId)
    requires t in s.tasks && s.tasks[t].pc == Parked && Enabled(s, Notify(u))
    ensures Next(s, Notify(u)).tasks[t] == Task(Parked, true)
    ensures Next(s, Notify(u)).active == s.active && Limit(Next(s, Notify(u))) == Limit(s)
  {
  }

  /** No reachable deadlock: from every reachable state, permit drops and the
      notifications already owed suffice to admit any given waiting task. */
  lemma {:induction false} WaiterCanBeAdmitted(s: State, t: TaskId) returns (es: seq<Event>)
    requires Inv(s) && t in s.tasks && s.tasks[t].pc == Parked
    ensures Executes(s, es) && t in After(s, es).tasks && After(s, es).tasks[t].pc == Holding
    ensures forall e :: e in es ==> IsProgress(e)
    decreases s.active, !s.tasks[t].woken
  {
    if s.active >= Limit(s) {
      assert Holders(s) != {};
      var h :| h in Holders(s);
      var s1 := Next(s, Release(h));
      var s2 := Next(s1, Notify(h));
      StepKeepsCount(s, Release(h));
      StepKeepsInv(s, Release(h));
      StepKeepsInv(s1, Notify(h));
      NotifyWakes(s1, t, h);
      RunTwo(s, Release(h), Notify(h));
      var rest := WaiterCanBeAdmitted(s2, t);
      es := [Release(h), Notify(h)] + rest;
      ExecutesThen(s, [Release(h), Notify(h)], rest);
    } else if s.tasks[t].woken {
      es := WokenGetsIn(s, t);
    } else {
      assert WaitJustified(s, s.tasks[t]);
      var u :| u in s.tasks && s.tasks[u].pc == OwesNotify;
      var s1 := Next(s, Notify(u));
      StepKeepsInv(s, Notify(u));
      NotifyWakes(s, t, u);
      var rest := WaiterCanBeAdmitted(s1, t);
      es := [Notify(u)] + rest;
      assert es[1..] == rest;
    }
  }

  /** A waiting task is woken by a notification and by nothing else, not even by one that
      came before its present future. */
  lemma OnlyANotificationWakes(s: State, e: Event, t: TaskId)
    requires Enabled(s, e) && t in s.tasks && OwnsFuture(Next(s, e).tasks[t].pc) && Next(s, e).tasks[t].woken
    ensures e.Notify? || (OwnsFuture(s.tasks[t].pc) && s.tasks[t].woken && !(e.t == t && e.Resume?))
  {
  }

  predicate OwnsFuture(pc: Pc) {
    pc.Armed? || pc.Read? || pc.Parked?
  }

  // ----- The code that takes the steps -----

  /** The process-global runtime state.  The mutex-protected fields are `config` and
      `active`; `tasks` records, for the proofs, where every task stands and which
      futures a `notify_waiters` has reached.  Each method is one critical section. */
  class Runtime {
    var config: RuntimeConfig
    const auto: nat
    var active: nat
    ghost var tasks: map<TaskId, Task>

    ghost function Snapshot(): State
      reads this
    {
      State(config, auto, active, tasks)
    }

    constructor (auto: nat, ghost ids: set<TaskId>)
      requires 1 <= auto <= AUTO_PARALLEL_CAP
      ensures Init(Snapshot()) && tasks.Keys == ids
    {
      this.auto := auto;
      config, active := DEFAULT_CONFIG, 0;
      tasks := map t | t in ids :: Task(Idle, false);
    }

    /** The head of the `acquire` loop: `notify.notified()`, first time or again. */
    ghost method CreateFuture(t: TaskId)
      requires Enabled(Snapshot(), Call(t)) || Enabled(Snapshot(), Resume(t))
      modifies this`tasks
      ensures old(tasks)[t].pc == Idle ==> Snapshot() == Next(old(Snapshot()), Call(t))
      ensures old(tasks)[t].pc == Parked ==> Snapshot() == Next(old(Snapshot()), Resume(t))
    {
      tasks := tasks[t := Task(Armed, false)];
    }

    /** `settings()`, for the limit. */
    method ReadEffectiveLimit(ghost t: TaskId) returns (limit: nat)
      requires Enabled(Snapshot(), ReadLimit(t))
      modifies this`tasks
      ensures Snapshot() == Next(old(Snapshot()), ReadLimit(t)) && tasks[t].pc == Read(limit)
    {
      limit := Clamp(if config.maxParallelAgents.Some? then config.maxParallelAgents.value else auto,
                     MIN_PARALLEL_AGENTS, MAX_PARALLEL_AGENTS);
      tasks := tasks[t := tasks[t].(pc := Read(limit))];
    }

    /** The locked comparison in `acquire`. */
    method TakePermit(ghost t: TaskId, limit: nat) returns (granted: bool)
      requires Enabled(Snapshot(), TryAdmit(t)) && tasks[t].pc == Read(limit)
      modifies this`active, this`tasks
      ensures Snapshot() == Next(old(Snapshot()), TryAdmit(t))
      ensures granted <==> tasks[t].pc == Holding
      ensures granted ==> active <= limit
    {
      granted := active < limit;
      if granted {
        active := active + 1;
      }
      tasks := tasks[t := tasks[t].(pc := if granted then Holding else Parked)];
    }

    /** The locked decrement of `AcpPermit::drop`. */
    method DropPermit(ghost t: TaskId)
      requires Enabled(Snapshot(), Release(t))
      modifies this`active, this`tasks
      ensures Snapshot() == Next(old(Snapshot()), Release(t))
    {
      active := if active == 0 then 0 else active - 1;
      tasks := tasks[t := tasks[t].(pc := OwesNotify)];
    }

    /** The locked store of `apply_config`. */
    method ApplyConfig(ghost t: TaskId, section: Section)
      requires Enabled(Snapshot(), Apply(t, section))
      modifies this`config, this`tasks
      ensures Snapshot() == Next(old(Snapshot()), Apply(t, section))
    {
      config := SanitizeConfig(section);
      tasks := tasks[t := tasks[t].(pc := OwesNotify)];
    }

    /** One round of the `acquire` loop in which no other task steps in: it admits exactly
        when there is room, and else waits. */
    method AcquireRound(ghost t: TaskId) returns (granted: bool)
      requires Enabled(Snapshot(), Call(t)) || Enabled(Snapshot(), Resume(t))
      modifies this`active, this`tasks
      ensures granted <==> old(active) < Limit(old(Snapshot()))
      ensures active == old(active) + if granted then 1 else 0
      ensures tasks == old(tasks)[t := Task(if granted then Holding else Parked, false)]
    {
      CreateFuture(t);
      var limit := ReadEffectiveLimit(t);
      granted := TakePermit(t, limit);
    }

    /** `AcpPermit::drop`, likewise: one permit less, and every waiting task is woken. */
    method Drop(ghost t: TaskId)
      requires Enabled(Snapshot(), Release(t))
      modifies this`active, this`tasks
      ensures active == if old(active) == 0 then 0 else old(active) - 1
      ensures tasks == WakeAll(old(tasks))[t := Task(Idle, true)]
    {
      DropPermit(t);
      NotifyWaiters(t);
    }

    /** `notify_waiters`: reaches every future that exists. */
    ghost method NotifyWaiters(t: TaskId)
      requires Enabled(Snapshot(), Notify(t))
      modifies this`tasks
      ensures Snapshot() == Next(old(Snapshot()), Notify(t))
    {
      tasks := WakeAll(tasks)[t := Task(Idle, true)];
    }
  }

  /** Settings can move the limit anywhere between 1 and 32 and nowhere else, and an
      unusable request falls back to the automatic limit. */
  lemma AppliedLimit(section: Section, auto: nat)
    requires 1 <= auto <= AUTO_PARALLEL_CAP
    ensures var l := EffectiveLimit(SanitizeConfig(section), auto);
            1 <= l <= 32
            && l == (if section.agents.Some? && 1 <= section.agents.value <= 32 then section.agents.value else auto)
  {
  }
}
