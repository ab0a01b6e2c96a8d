/** The monitor reconcile (apps/core/src/monitors_client.rs over
    apps/core/src/scheduler/store.rs): one pass drives the scheduler's job store toward
    the monitor list.  The store is the job directory as a map from file stem to job; the
    sidecar's answer, the clock and the duration parser are parameters. */
module MonitorsClient {
  import opened Text

  datatype Target = Monitor(monitorId: string) | Other(kind: string)

  datatype Schedule = Every(interval: string) | Cron(expr: string, tz: Option<string>)

  datatype Outcome = Success | Failure

  datatype ExecRecord = ExecRecord(startedAt: string, finishedAt: string, outcome: Outcome)

  datatype Job = Job(
    id: string,
    name: string,
    schedule: Schedule,
    target: Target,
    enabled: bool,
    requireApproval: bool,
    ownerApp: Option<string>,
    ownerUserId: Option<string>,
    orgId: Option<string>,
    createdAt: string,
    updatedAt: string,
    lastRunAt: Option<string>,
    lastOutcome: Option<Outcome>,
    history: seq<ExecRecord>)

  /** One row of the monitor list: the fields that are present with the right JSON type. */
  datatype Row = Row(id: Option<string>, name: Option<string>, interval: Option<string>, enabled: Option<bool>)

  type Store = map<string, Job>

  const MONITOR_PREFIX := "monitor-"

  function JobIdFor(monitorId: string): string {
    MONITOR_PREFIX + monitorId
  }

  lemma JobIdIsInjective(a: string, b: string)
    requires JobIdFor(a) == JobIdFor(b)
    ensures a == b
  {
    assert JobIdFor(a)[|MONITOR_PREFIX|..] == a && JobIdFor(b)[|MONITOR_PREFIX|..] == b;
  }

  function IntervalOf(row: Row): string {
    if row.interval.Some? && Trim(row.interval.value) != [] then row.interval.value else "5m"
  }

  function NameOf(row: Row): string {
    if row.name.Some? then row.name.value else ""
  }

  function EnabledOf(row: Row): bool {
    row.enabled.Some? ==> row.enabled.value
  }

  function ScheduleFromInterval(interval: string, isDuration: string -> bool): Schedule {
    if isDuration(interval) then Every(interval) else Cron(interval, None)
  }

  function Lookup(store: Store, id: string): Option<Job> {
    if id in store then Some(store[id]) else None
  }

  /** The job a monitor gets: its own configuration, the existing job's past. */
  function BackingJob(existing: Option<Job>, monitorId: string, row: Row, created: string, updated: string,
                      isDuration: string -> bool): Job
  {
    Job(JobIdFor(monitorId), "monitor: " + NameOf(row), ScheduleFromInterval(IntervalOf(row), isDuration),
        Monitor(monitorId), EnabledOf(row), false, None, None, None,
        if existing.Some? then existing.value.createdAt else created,
        updated,
        if existing.Some? then existing.value.lastRunAt else None,
        if existing.Some? then existing.value.lastOutcome else None,
        if existing.Some? then existing.value.history else [])
  }

  function SyncRow(store: Store, row: Row, now: string, isDuration: string -> bool): Store {
    if row.id.None? then store
    else
      var key := JobIdFor(row.id.value);
      store[key := BackingJob(Lookup(store, key), row.id.value, row, now, now, isDuration)]
  }

  /** The store after the first `n` rows have been synced; row `i` reads `clock(i)`. */
  function Synced(store: Store, rows: seq<Row>, n: nat, clock: nat -> string, isDuration: string -> bool): Store
    requires n <= |rows|
    decreases n
  {
    if n == 0 then store
    else SyncRow(Synced(store, rows, n - 1, clock, isDuration), rows[n - 1], clock(n - 1), isDuration)
  }

  lemma SyncedNext(store: Store, rows: seq<Row>, n: nat, clock: nat -> string, isDuration: string -> bool)
    requires n < |rows|
    ensures var before := Synced(store, rows, n, clock, isDuration);
            Synced(store, rows, n + 1, clock, isDuration) ==
            if rows[n].id.Some? then SyncRow(before, rows[n], clock(n), isDuration) else before
  {
  }

  function SeenAmong(rows: seq<Row>, n: nat): set<string>
    requires n <= |rows|
  {
    set i | 0 <= i < n && rows[i].id.Some? :: JobIdFor(rows[i].id.value)
  }

  function Seen(rows: seq<Row>): set<string> {
    SeenAmong(rows, |rows|)
  }

  lemma SeenGrows(rows: seq<Row>, n: nat)
    requires n < |rows|
    ensures SeenAmong(rows, n + 1)
         == if rows[n].id.Some? then SeenAmong(rows, n) + {JobIdFor(rows[n].id.value)} else SeenAmong(rows, n)
  {
  }

  predicate IsOrphan(job: Job, seen: set<string>) {
    job.target.Monitor? && JobIdFor(job.target.monitorId) !in seen
  }

  function Swept(store: Store, seen: set<string>): Store {
    map k | k in store && !IsOrphan(store[k], seen) :: store[k]
  }

  function Reconciled(store: Store, rows: seq<Row>, clock: nat -> string, isDuration: string -> bool): Store {
    Swept(Synced(store, rows, |rows|, clock, isDuration), Seen(rows))
  }

  // ----- What a pass leaves in the store -----

  ghost predicate Lists(rows: seq<Row>, id: string) {
    exists i :: 0 <= i < |rows| && rows[i].id == Some(id)
  }

  ghost predicate IsFirst(rows: seq<Row>, n: nat, id: string, i: nat) {
    i < n <= |rows| && rows[i].id == Some(id) && forall k :: 0 <= k < i ==> rows[k].id != Some(id)
  }

  ghost predicate IsLast(rows: seq<Row>, n: nat, id: string, i: nat) {
    i < n <= |rows| && rows[i].id == Some(id) && forall k :: i < k < n ==> rows[k].id != Some(id)
  }

  lemma {:induction false} LastExists(rows: seq<Row>, n: nat, id: string, i: nat) returns (last: nat)
    requires i < n <= |rows| && rows[i].id == Some(id)
    ensures IsLast(rows, n, id, last) && i <= last
    decreases n
  {
    if rows[n - 1].id == Some(id) { last := n - 1; } else { last := LastExists(rows, n - 1, id, i); }
  }

  lemma {:induction false} FirstExists(rows: seq<Row>, n: nat, id: string, i: nat) returns (first: nat)
    requires i < n <= |rows| && rows[i].id == Some(id)
    ensures IsFirst(rows, n, id, first) && first <= i
    decreases i
  {
    if k :| 0 <= k < i && rows[k].id == Some(id) { first := FirstExists(rows, n, id, k); } else { first := i; }
  }

  /** Syncing rows that do not list a job's id leaves that job alone. */
  lemma {:induction false} SyncedElsewhere(store: Store, rows: seq<Row>, m: nat, n: nat, clock: nat -> string,
                                           isDuration: string -> bool, key: string)
    requires m <= n <= |rows| && forall i :: m <= i < n && rows[i].id.Some? ==> JobIdFor(rows[i].id.value) != key
    ensures Lookup(Synced(store, rows, n, clock, isDuration), key)
            == Lookup(Synced(store, rows, m, clock, isDuration), key)
    decreases n
  {
    if m < n { SyncedElsewhere(store, rows, m, n - 1, clock, isDuration, key); }
  }

  lemma SyncedUnlisted(store: Store, rows: seq<Row>, m: nat, n: nat, clock: nat -> string,
                       isDuration: string -> bool, id: string)
    requires m <= n <= |rows| && forall i :: m <= i < n ==> rows[i].id != Some(id)
    ensures Lookup(Synced(store, rows, n, clock, isDuration), JobIdFor(id))
         == Lookup(Synced(store, rows, m, clock, isDuration), JobIdFor(id))
  {
    forall i | m <= i < n && rows[i].id.Some? ensures JobIdFor(rows[i].id.value) != JobIdFor(id) {
      if JobIdFor(rows[i].id.value) == JobIdFor(id) { JobIdIsInjective(rows[i].id.value, id); }
    }
    SyncedElsewhere(store, rows, m, n, clock, isDuration, JobIdFor(id));
  }

  /** Syncing a monitor twice keeps only the later configuration, and the first creation. */
  lemma BackingJobTwice(existing: Option<Job>, id: string, row1: Row, row2: Row, t1: string, u1: string, t2: string,
                        isDuration: string -> bool)
    ensures BackingJob(Some(BackingJob(existing, id, row1, t1, u1, isDuration)), id, row2, t2, t2, isDuration)
         == BackingJob(existing, id, row2, t1, t2, isDuration)
  {
  }

  lemma SyncRowHere(store: Store, row: Row, now: string, isDuration: string -> bool, id: string)
    requires row.id == Some(id)
    ensures Lookup(SyncRow(store, row, now, isDuration), JobIdFor(id))
         == Some(BackingJob(Lookup(store, JobIdFor(id)), id, row, now, now, isDuration))
  {
  }

  /** A listed monitor's job after the sync: configured by the last row that lists it,
      created when the first one was synced unless it existed, its past untouched. */
  lemma {:induction false} SyncedJob(store: Store, rows: seq<Row>, n: nat, clock: nat -> string,
                                     isDuration: string -> bool, id: string, first: nat, last: nat)
    requires IsFirst(rows, n, id, first) && IsLast(rows, n, id, last)
    ensures Lookup(Synced(store, rows, n, clock, isDuration), JobIdFor(id))
         == Some(BackingJob(Lookup(store, JobIdFor(id)), id, rows[last], clock(first), clock(last), isDuration))
    decreases n
  {
    if first < last {
      var previous := LastExists(rows, last, id, first);
      SyncedJob(store, rows, last, clock, isDuration, id, first, previous);
      BackingJobTwice(Lookup(store, JobIdFor(id)), id, rows[previous], rows[last],
                      clock(first), clock(previous), clock(last), isDuration);
    } else {
      SyncedUnlisted(store, rows, 0, last, clock, isDuration, id);
    }
    SyncRowHere(Synced(store, rows, last, clock, isDuration), rows[last], clock(last), isDuration, id);
    SyncedUnlisted(store, rows, last + 1, n, clock, isDuration, id);
  }

  lemma SeenIsListed(rows: seq<Row>, id: string)
    ensures JobIdFor(id) in Seen(rows) <==> Lists(rows, id)
  {
    if JobIdFor(id) in Seen(rows) {
      var i :| 0 <= i < |rows| && rows[i].id.Some? && JobIdFor(rows[i].id.value) == JobIdFor(id);
      JobIdIsInjective(rows[i].id.value, id);
      assert rows[i].id == Some(id);
    }
    if Lists(rows, id) {
      var i :| 0 <= i < |rows| && rows[i].id == Some(id);
      assert rows[i].id.Some?;
    }
  }

  /** After a pass every listed monitor has its job under its own id. */
  lemma ListedMonitorHasItsJob(store: Store, rows: seq<Row>, clock: nat -> string, isDuration: string -> bool,
                               id: string, first: nat, last: nat)
    requires IsFirst(rows, |rows|, id, first) && IsLast(rows, |rows|, id, last)
    ensures Lookup(Reconciled(store, rows, clock, isDuration), JobIdFor(id))
         == Some(BackingJob(Lookup(store, JobIdFor(id)), id, rows[last], clock(first), clock(last), isDuration))
  {
    SyncedJob(store, rows, |rows|, clock, isDuration, id, first, last);
    assert Lists(rows, id);
    SeenIsListed(rows, id);
  }

  /** Field by field: the last row that lists the monitor configures its job, and a job
      that existed keeps when it was created and everything that happened to it. */
  lemma ConfigurationAndPast(store: Store, rows: seq<Row>, clock: nat -> string, isDuration: string -> bool,
                             id: string, first: nat, last: nat)
    requires IsFirst(rows, |rows|, id, first) && IsLast(rows, |rows|, id, last)
    ensures var key := JobIdFor(id);
            var after := Reconciled(store, rows, clock, isDuration);
            key in after && after[key].id == key && after[key].target == Monitor(id)
            && after[key].enabled == (rows[last].enabled != Some(false))
            && (rows[last].name.Some? ==> after[key].name == "monitor: " + rows[last].name.value)
            && (rows[last].name.None? ==> after[key].name == "monitor: ")
            && RunsEvery(after[key].schedule, if SaysInterval(rows[last]) then rows[last].interval.value else "5m",
                         isDuration)
            && !after[key].requireApproval && after[key].ownerApp.None? && after[key].ownerUserId.None?
            && after[key].orgId.None?
            && after[key].updatedAt == clock(last)
            && (key in store ==>
                  after[key].createdAt == store[key].createdAt && after[key].lastRunAt == store[key].lastRunAt
                  && after[key].lastOutcome == store[key].lastOutcome && after[key].history == store[key].history)
            && (key !in store ==>
                  after[key].createdAt == clock(first) && after[key].lastRunAt.None? && after[key].lastOutcome.None?
                  && after[key].history == [])
  {
    ListedMonitorHasItsJob(store, rows, clock, isDuration, id, first, last);
    if rows[last].interval.Some? { TrimmedAwayIff(rows[last].interval.value); }
    NilPlus("monitor: ");
  }

  /** The row has an interval that is not just white space. */
  ghost predicate SaysInterval(row: Row) {
    row.interval.Some? && exists c :: c in row.interval.value && !IsWhitespace(c)
  }

  /** A duration becomes a period, and anything else a cron expression without a zone. */
  ghost predicate RunsEvery(schedule: Schedule, interval: string, isDuration: string -> bool) {
    && (isDuration(interval) ==> schedule == Every(interval))
    && (!isDuration(interval) ==> schedule == Cron(interval, None))
  }

  /** A job under any other id survives unchanged, unless it belongs to a monitor that is
      no longer listed; such a job is removed. */
  lemma OtherJobs(store: Store, rows: seq<Row>, clock: nat -> string, isDuration: string -> bool, key: string)
    requires key !in Seen(rows)
    ensures Lookup(Reconciled(store, rows, clock, isDuration), key)
         == if key in store && !(store[key].target.Monitor? && !Lists(rows, store[key].target.monitorId))
            then Some(store[key]) else None
  {
    forall i | 0 <= i < |rows| && rows[i].id.Some? ensures JobIdFor(rows[i].id.value) != key {
      assert JobIdFor(rows[i].id.value) in Seen(rows);
    }
    SyncedElsewhere(store, rows, 0, |rows|, clock, isDuration, key);
    if key in store && store[key].target.Monitor? { SeenIsListed(rows, store[key].target.monitorId); }
  }

  ghost predicate IsJobOf(store: Store, key: string, id: string) {
    key in store && store[key].target == Monitor(id)
  }

  /** Every monitor job carries the id derived from its monitor. */
  ghost predicate Canonical(store: Store) {
    forall key :: key in store && store[key].target.Monitor? ==> key == JobIdFor(store[key].target.monitorId)
  }

  /** The jobs of one monitor after a pass, from any store at all: the canonical one
      exactly when it is listed, and any other only if it was already there. */
  lemma JobsOfAMonitor(store: Store, rows: seq<Row>, clock: nat -> string, isDuration: string -> bool,
                       id: string, key: string)
    ensures IsJobOf(Reconciled(store, rows, clock, isDuration), key, id) <==>
            Lists(rows, id) && (key == JobIdFor(id) || (key !in Seen(rows) && IsJobOf(store, key, id)))
  {
    SeenIsListed(rows, id);
    if key in Seen(rows) {
      var i :| 0 <= i < |rows| && rows[i].id.Some? && JobIdFor(rows[i].id.value) == key;
      var owner := rows[i].id.value;
      assert rows[i].id == Some(owner);
      var first := FirstExists(rows, |rows|, owner, i);
      var last := LastExists(rows, |rows|, owner, i);
      ListedMonitorHasItsJob(store, rows, clock, isDuration, owner, first, last);
      if key == JobIdFor(id) { JobIdIsInjective(owner, id); }
    } else {
      OtherJobs(store, rows, clock, isDuration, key);
    }
  }

  /** The pass converges to one job per listed monitor and none for any other exactly when
      no listed monitor had a second job under an id no row owns. */
  lemma ReconcileConverges(store: Store, rows: seq<Row>, clock: nat -> string, isDuration: string -> bool)
    ensures var after := Reconciled(store, rows, clock, isDuration);
            (forall id, key :: IsJobOf(after, key, id) <==> Lists(rows, id) && key == JobIdFor(id))
            <==> (forall id, key :: IsJobOf(store, key, id) && Lists(rows, id) ==> key in Seen(rows))
  {
    forall id, key
      ensures IsJobOf(Reconciled(store, rows, clock, isDuration), key, id) <==>
              Lists(rows, id) && (key == JobIdFor(id) || (key !in Seen(rows) && IsJobOf(store, key, id)))
    {
      JobsOfAMonitor(store, rows, clock, isDuration, id, key);
      SeenIsListed(rows, id);
    }
    forall id ensures Lists(rows, id) ==> JobIdFor(id) in Seen(rows) { SeenIsListed(rows, id); }
  }

  /** A monitor job that was created by hand, under an id of its own, stays beside the one
      the pass makes: two jobs for one listed monitor. */
  lemma SecondJobStays(store: Store, row: Row, clock: nat -> string, isDuration: string -> bool, key: string)
    requires row.id.Some? && IsJobOf(store, key, row.id.value) && key != JobIdFor(row.id.value)
    ensures var after := Reconciled(store, [row], clock, isDuration);
            IsJobOf(after, key, row.id.value) && IsJobOf(after, JobIdFor(row.id.value), row.id.value)
  {
    var rows := [row];
    assert rows[0].id == Some(row.id.value);
    assert forall i :: 0 <= i < |rows| ==> rows[i] == row;
    JobsOfAMonitor(store, rows, clock, isDuration, row.id.value, key);
    JobsOfAMonitor(store, rows, clock, isDuration, row.id.value, JobIdFor(row.id.value));
  }

  /** In particular from every store whose monitor jobs carry their canonical id, and that
      stays so. */
  lemma CanonicalConverges(store: Store, rows: seq<Row>, clock: nat -> string, isDuration: string -> bool)
    requires Canonical(store)
    ensures var after := Reconciled(store, rows, clock, isDuration);
            Canonical(after) && forall id, key :: IsJobOf(after, key, id) <==> Lists(rows, id) && key == JobIdFor(id)
  {
    var after := Reconciled(store, rows, clock, isDuration);
    forall id ensures Lists(rows, id) ==> JobIdFor(id) in Seen(rows) { SeenIsListed(rows, id); }
    ReconcileConverges(store, rows, clock, isDuration);
    forall key | key in after && after[key].target.Monitor? ensures key == JobIdFor(after[key].target.monitorId) {
      assert IsJobOf(after, key, after[key].target.monitorId);
    }
  }

  /** Equal jobs but for the time of the last update. */
  ghost predicate SameButUpdated(a: Option<Job>, b: Option<Job>) {
    a.Some? == b.Some? && (a.Some? ==> a.value.(updatedAt := b.value.updatedAt) == b.value)
  }

  lemma SecondPassOnSeen(store: Store, rows: seq<Row>, clock1: nat -> string, clock2: nat -> string,
                         isDuration: string -> bool, i: nat)
    requires i < |rows| && rows[i].id.Some?
    ensures var once := Reconciled(store, rows, clock1, isDuration);
            var key := JobIdFor(rows[i].id.value);
            SameButUpdated(Lookup(once, key), Lookup(Reconciled(once, rows, clock2, isDuration), key))
  {
    var id := rows[i].id.value;
    var first := FirstExists(rows, |rows|, id, i);
    var last := LastExists(rows, |rows|, id, i);
    ListedMonitorHasItsJob(store, rows, clock1, isDuration, id, first, last);
    ListedMonitorHasItsJob(Reconciled(store, rows, clock1, isDuration), rows, clock2, isDuration, id, first, last);
  }

  /** A second pass over the same list, at any later times, changes no job but for the
      time of its update: from any store, whether or not it was canonical. */
  lemma ReconcileIsIdempotent(store: Store, rows: seq<Row>, clock1: nat -> string, clock2: nat -> string,
                              isDuration: string -> bool, key: string)
    ensures var once := Reconciled(store, rows, clock1, isDuration);
            SameButUpdated(Lookup(once, key), Lookup(Reconciled(once, rows, clock2, isDuration), key))
  {
    if key in Seen(rows) {
      var i :| 0 <= i < |rows| && rows[i].id.Some? && JobIdFor(rows[i].id.value) == key;
      SecondPassOnSeen(store, rows, clock1, clock2, isDuration, i);
    } else {
      OtherJobs(store, rows, clock1, isDuration, key);
      OtherJobs(Reconciled(store, rows, clock1, isDuration), rows, clock2, isDuration, key);
    }
  }

  // ----- The code that does it -----

  /** The job directory. */
  class JobStore {
    var jobs: Store

    /** Every file is named after the job in it. */
    ghost predicate Valid()
      reads this
    {
      forall key :: key in jobs ==> jobs[key].id == key
    }

    method SaveJob(job: Job)
      requires Valid()
      modifies this
      ensures Valid() && jobs == old(jobs)[job.id := job]
    {
      jobs := jobs[job.id := job];
    }

    method LoadJob(id: string) returns (job: Option<Job>)
      ensures job == Lookup(jobs, id)
    {
      job := if id in jobs then Some(jobs[id]) else None;
    }

    method DeleteJob(id: string) returns (removed: bool)
      requires Valid()
      modifies this
      ensures Valid() && removed == (id in old(jobs)) && jobs == old(jobs) - {id}
    {
      removed := id in jobs;
      jobs := jobs - {id};
    }

    /** Every job once. */
    method ListJobs() returns (listed: seq<Job>)
      requires Valid()
      ensures forall job :: job in listed <==> job.id in jobs && jobs[job.id] == job
    {
      listed := [];
      var left := jobs.Keys;
      while left != {}
        invariant left <= jobs.Keys
        invariant forall job :: job in listed <==> job.id in jobs && job.id !in left && jobs[job.id] == job
        decreases left
      {
        var key :| key in left;
        left := left - {key};
        listed := listed + [jobs[key]];
      }
    }

    method SyncBackingJob(row: Row, now: string, isDuration: string -> bool)
      requires Valid() && row.id.Some?
      modifies this
      ensures Valid()
      ensures jobs == SyncRow(old(jobs), row, now, isDuration)
    {
      var id := JobIdFor(row.id.value);
      var existing := LoadJob(id);
      var created, lastRunAt, lastOutcome, history := now, None, None, [];
      if existing.Some? {
        created := existing.value.createdAt;
        lastRunAt := existing.value.lastRunAt;
        lastOutcome := existing.value.lastOutcome;
        history := existing.value.history;
      }
      SaveJob(Job(id, "monitor: " + NameOf(row), ScheduleFromInterval(IntervalOf(row), isDuration),
                  Monitor(row.id.value), EnabledOf(row), false, None, None, None, created, now,
                  lastRunAt, lastOutcome, history));
    }

    method SyncRows(rows: seq<Row>, clock: nat -> string, isDuration: string -> bool) returns (seen: set<string>)
      requires Valid()
      modifies this
      ensures Valid() && jobs == Synced(old(jobs), rows, |rows|, clock, isDuration)
      ensures seen == Seen(rows)
    {
      seen := {};
      for i := 0 to |rows|
        invariant Valid() && jobs == Synced(old(jobs), rows, i, clock, isDuration)
        invariant seen == SeenAmong(rows, i)
      {
        var row := rows[i];
        SeenGrows(rows, i);
        SyncedNext(old(jobs), rows, i, clock, isDuration);
        if row.id.Some? {
          seen := seen + {JobIdFor(row.id.value)};
          SyncBackingJob(row, clock(i), isDuration);
        }
      }
    }

    method SweepOrphans(seen: set<string>)
      requires Valid()
      modifies this
      ensures Valid() && jobs == Swept(old(jobs), seen)
    {
      var listed := ListJobs();
      for i := 0 to |listed|
        invariant Valid()
        invariant forall key :: key in jobs <==>
                  key in old(jobs) && !(IsOrphan(old(jobs)[key], seen) && old(jobs)[key] in listed[..i])
        invariant forall key :: key in jobs ==> jobs[key] == old(jobs)[key]
      {
        var job := listed[i];
        assert job in listed;
        assert listed[..i + 1] == listed[..i] + [job];
        if job.target.Monitor? && JobIdFor(job.target.monitorId) !in seen {
          var _ := DeleteJob(job.id);
        }
      }
      assert listed[..|listed|] == listed;
    }

    /** `Err` is an unreachable sidecar, and then nothing at all changes; a reachable empty
        list does sweep. */
    method ReconcileJobs(list: Result<seq<Row>, string>, clock: nat -> string, isDuration: string -> bool)
      requires Valid()
      modifies this
      ensures Valid()
      ensures jobs == if list.Ok? then Reconciled(old(jobs), list.value, clock, isDuration) else old(jobs)
    {
      if list.Err? { return; }
      var seen := SyncRows(list.value, clock, isDuration);
      SweepOrphans(seen);
    }
  }
}
