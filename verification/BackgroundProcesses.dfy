/** The background-process registry (apps/core/src/background_processes.rs). */
module BackgroundProcesses {
  import opened Text
  import Utf8
  import opened Order

  type Millis = nat

  const FINISHED_RETENTION: Millis := 300_000
  const RUNNING_RETENTION: Millis := 30_000
  const MAX_RECORDS: nat := 512
  const MAX_RECORDS_PER_OWNER: nat := 128
  const MAX_TEXT_LENGTH: nat := 16 * 1024

  datatype Process = Process(
    processId: string, shellId: Option<string>, producer: string, kind: string,
    displayLabel: Option<string>, description: Option<string>, command: string, cwd: string,
    pid: Option<nat>, startedAt: int, elapsedMs: nat, running: bool,
    exitCode: Option<int>, exitSignal: Option<string>)

  datatype Entry = Entry(owner: string, process: Process, updatedAt: Millis, stopReason: Option<string>)

  type Entries = map<string, Entry>

  // ----- Validation and the running clock -----

  predicate TextIsValid(value: string, required: bool) {
    (required ==> Trim(value) != []) && |Utf8.Encode(value)| <= MAX_TEXT_LENGTH
  }

  predicate OptionalIsValid(value: Option<string>) {
    value.Some? ==> TextIsValid(value.value, false)
  }

  predicate IsValid(owner: string, p: Process) {
    TextIsValid(owner, true)
    && TextIsValid(p.processId, true) && TextIsValid(p.producer, true) && TextIsValid(p.kind, true)
    && TextIsValid(p.command, true) && TextIsValid(p.cwd, true)
    && OptionalIsValid(p.displayLabel) && OptionalIsValid(p.description)
    && OptionalIsValid(p.shellId) && OptionalIsValid(p.exitSignal)
  }

  function RefreshElapsed(p: Process, wall: int): Process {
    if !p.running || p.startedAt <= 0 then p
    else p.(elapsedMs := if wall >= p.startedAt then wall - p.startedAt else 0)
  }

  // ----- Eviction -----

  predicate IsFresh(e: Entry, now: Millis) {
    var age := if now >= e.updatedAt then now - e.updatedAt else 0;
    age <= if e.process.running then RUNNING_RETENTION else FINISHED_RETENTION
  }

  function Aged(m: Entries, now: Millis): Entries {
    map id | id in m && IsFresh(m[id], now) :: m[id]
  }

  function Finished(m: Entries): set<string> {
    set id | id in m && !m[id].process.running
  }

  function Owned(m: Entries, owner: string): set<string> {
    set id | id in m && m[id].owner == owner
  }

  function Excess(n: nat, cap: nat): nat {
    if n > cap then n - cap else 0
  }

  /** `after` is `m` without `n` of the candidates (all, if there are fewer), none of
      them newer than a candidate that stays. */
  ghost predicate EvictsOldest(m: Entries, candidates: set<string>, n: nat, after: Entries) {
    exists gone: set<string> :: EvictsExactly(m, candidates, n, gone) && after == m - gone
  }

  ghost predicate EvictsExactly(m: Entries, candidates: set<string>, n: nat, gone: set<string>) {
    && candidates <= m.Keys
    && gone <= candidates
    && |gone| == Min(n, |candidates|)
    && forall g, k :: g in gone && k in candidates - gone ==> m[g].updatedAt <= m[k].updatedAt
  }

  /** What `prune_locked` may leave behind: hash order breaks ties between equal ages. */
  ghost predicate Pruned(m: Entries, now: Millis, after: Entries) {
    var a := Aged(m, now);
    EvictsOldest(a, Finished(a), Excess(|a|, MAX_RECORDS), after)
  }

  /** What `trim_owner_to_limit` may leave behind. */
  ghost predicate Trimmed(m: Entries, owner: string, after: Entries) {
    EvictsOldest(m, Finished(m) * Owned(m, owner), Excess(|Owned(m, owner)|, MAX_RECORDS_PER_OWNER), after)
  }

  // ----- The calls, as relations between the map before and after -----

  datatype StopRequest = StopRequest(processId: string, reason: string)

  datatype Call =
    | Upsert(owner: string, process: Process, wall: int, stamp: Millis, pruneAt: Millis)
    | Release(owner: string, processId: string)
    | List(owner: string, runningOnly: bool, producer: Option<string>, wall: int, pruneAt: Millis)
    | RequestStop(owner: string, processId: string)
    | TakeStopRequests(owner: string, processIds: seq<string>)

  datatype Reply =
    | Upserted(result: Option<Process>)
    | Released(removed: bool)
    | Listed(processes: seq<Process>)
    | StopRequested(ok: bool)
    | Stops(stops: seq<StopRequest>)

  function Inserted(m: Entries, owner: string, p: Process, stamp: Millis): Entries {
    var reason := if p.processId in m then m[p.processId].stopReason else None;
    m[p.processId := Entry(owner, p, stamp, reason)]
  }

  /** The locked part of `upsert`, once the record may be written. */
  ghost predicate UpsertCore(m: Entries, owner: string, p: Process, stamp: Millis, pruneAt: Millis,
                             result: Option<Process>, after: Entries) {
    exists trimmed :: UpsertVia(m, owner, p, stamp, pruneAt, result, after, trimmed)
  }

  ghost predicate UpsertVia(m: Entries, owner: string, p: Process, stamp: Millis, pruneAt: Millis,
                            result: Option<Process>, after: Entries, trimmed: Entries) {
    Trimmed(Inserted(m, owner, p, stamp), owner, trimmed)
    && if |Owned(trimmed, owner)| > MAX_RECORDS_PER_OWNER then result == None && after == trimmed - {p.processId}
       else result == Some(p) && Pruned(trimmed, pruneAt, after)
  }

  ghost predicate UpsertStep(m: Entries, c: Call, result: Option<Process>, after: Entries)
    requires c.Upsert?
  {
    var p := RefreshElapsed(c.process, c.wall);
    if !IsValid(c.owner, c.process) || (p.processId in m && m[p.processId].owner != c.owner)
    then result == None && after == m
    else UpsertCore(m, c.owner, p, c.stamp, c.pruneAt, result, after)
  }

  function Refreshed(m: Entries, owner: string, wall: int): Entries {
    map id | id in m :: if m[id].owner == owner then m[id].(process := RefreshElapsed(m[id].process, wall)) else m[id]
  }

  predicate IsListed(e: Entry, owner: string, runningOnly: bool, producer: Option<string>) {
    e.owner == owner && (producer.Some? ==> e.process.producer == producer.value) && (runningOnly ==> e.process.running)
  }

  predicate ListedBefore(a: Process, b: Process) {
    a.startedAt < b.startedAt || (a.startedAt == b.startedAt && Less(a.processId, b.processId))
  }

  function ListedIds(m: Entries, c: Call): set<string>
    requires c.List?
  {
    set id | id in m && IsListed(m[id], c.owner, c.runningOnly, c.producer)
  }

  ghost predicate ListStep(m: Entries, c: Call, processes: seq<Process>, after: Entries)
    requires c.List?
  {
    exists kept ::
      Pruned(m, c.pruneAt, kept) && after == Refreshed(kept, c.owner, c.wall)
      && (forall p :: p in processes <==> exists id :: id in ListedIds(after, c) && p == after[id].process)
      && (forall i, j :: 0 <= i < j < |processes| ==> ListedBefore(processes[i], processes[j]))
  }

  function StopTarget(m: Entries, owner: string, processId: string): bool {
    var id := Trim(processId);
    id != [] && id in m && m[id].owner == owner && m[id].process.running
  }

  function Stopping(m: Entries, processId: string): Entries
    requires Trim(processId) in m
  {
    var id := Trim(processId);
    m[id := m[id].(stopReason := Some("stopped from Ryu"))]
  }

  predicate IsPending(m: Entries, id: string) {
    id in m && m[id].stopReason.Some?
  }

  /** One id of `take_stop_requests`. */
  function TakeOne(m: Entries, owner: string, id: string): (Entries, seq<StopRequest>) {
    if IsPending(m, id) && m[id].owner == owner then
      (m[id := m[id].(stopReason := None)], [StopRequest(id, m[id].stopReason.value)])
    else (m, [])
  }

  function Taken(m: Entries, owner: string, ids: seq<string>): (Entries, seq<StopRequest>) {
    if ids == [] then (m, [])
    else
      var (m1, front) := Taken(m, owner, ids[..|ids| - 1]);
      var (m2, last) := TakeOne(m1, owner, ids[|ids| - 1]);
      (m2, front + last)
  }

  ghost predicate Step(m: Entries, c: Call, r: Reply, after: Entries) {
    match c
    case Upsert(_, _, _, _, _) => r.Upserted? && UpsertStep(m, c, r.result, after)
    case Release(owner, id) =>
      r.Released? && r.removed == (id in m && m[id].owner == owner) && after == if r.removed then m - {id} else m
    case List(_, _, _, _, _) => r.Listed? && ListStep(m, c, r.processes, after)
    case RequestStop(owner, id) =>
      r.StopRequested? && r.ok == StopTarget(m, owner, id) && after == if r.ok then Stopping(m, id) else m
    case TakeStopRequests(owner, ids) => r.Stops? && (after, r.stops) == Taken(m, owner, ids)
  }

  // ----- What the registry promises -----

  /** Every owner is within its cap, and every record is filed under its own id. */
  ghost predicate Inv(m: Entries) {
    (forall owner: string :: |Owned(m, owner)| <= MAX_RECORDS_PER_OWNER)
    && forall id :: id in m ==> m[id].process.processId == id
  }

  lemma SubsetCard<T>(a: set<T>, b: set<T>)
    requires a <= b
    ensures |a| <= |b|
  {
    assert b == a + (b - a);
  }

  ghost predicate IsPart(after: Entries, m: Entries) {
    after.Keys <= m.Keys && forall id :: id in after ==> after[id] == m[id]
  }

  lemma PartKeepsInv(m: Entries, after: Entries)
    requires Inv(m) && IsPart(after, m)
    ensures Inv(after)
  {
    forall owner: string ensures |Owned(after, owner)| <= MAX_RECORDS_PER_OWNER {
      assert Owned(after, owner) <= Owned(m, owner);
      SubsetCard(Owned(after, owner), Owned(m, owner));
    }
  }

  lemma PrunedIsPart(m: Entries, now: Millis, after: Entries)
    requires Pruned(m, now, after)
    ensures IsPart(after, Aged(m, now)) && IsPart(after, m)
  {
  }

  /** After pruning the registry is within its cap, or only running records are left. */
  lemma PrunedIsBounded(m: Entries, now: Millis, after: Entries)
    requires Pruned(m, now, after)
    ensures |after| <= MAX_RECORDS || forall id :: id in after ==> after[id].process.running
  {
    var a := Aged(m, now);
    var n := Excess(|a|, MAX_RECORDS);
    var gone :| EvictsExactly(a, Finished(a), n, gone) && after == a - gone;
    if |gone| == n {
      assert after.Keys == a.Keys - gone;
      assert |a.Keys - gone| == |a.Keys| - |gone|;
      assert |after| == |after.Keys| && |a| == |a.Keys|;
    } else {
      FullSubset(gone, Finished(a));
    }
  }

  lemma FullSubset<T>(a: set<T>, b: set<T>)
    requires a <= b && |a| == |b|
    ensures a == b
  {
    assert |b - a| == 0;
  }

  lemma DifferenceCard<T>(a: set<T>, b: set<T>)
    requires b <= a
    ensures |a - b| == |a| - |b|
  {
    assert a == b + (a - b);
  }

  lemma OwnedAfterInsert(m: Entries, owner: string, p: Process, stamp: Millis, other: string)
    requires p.processId in m ==> m[p.processId].owner == owner
    ensures Owned(Inserted(m, owner, p, stamp), other) ==
            if other == owner then Owned(m, owner) + {p.processId} else Owned(m, other)
  {
  }

  lemma OwnedAfterRemoval(m: Entries, owner: string, gone: set<string>)
    requires gone <= Owned(m, owner)
    ensures |Owned(m - gone, owner)| == |Owned(m, owner)| - |gone|
  {
    assert Owned(m - gone, owner) == Owned(m, owner) - gone;
    DifferenceCard(Owned(m, owner), gone);
  }

  /** What trimming removes: finished records of one owner, and how many. */
  lemma TrimmedGone(m: Entries, owner: string, after: Entries) returns (gone: set<string>)
    requires Trimmed(m, owner, after)
    ensures gone <= Finished(m) * Owned(m, owner) && after == m - gone
    ensures |gone| == Min(Excess(|Owned(m, owner)|, MAX_RECORDS_PER_OWNER), |Finished(m) * Owned(m, owner)|)
    ensures |Owned(after, owner)| == |Owned(m, owner)| - |gone|
    ensures IsPart(after, m)
    ensures forall id :: id in m && (m[id].process.running || m[id].owner != owner) ==> id in after
  {
    var c := Finished(m) * Owned(m, owner);
    gone :| EvictsExactly(m, c, Excess(|Owned(m, owner)|, MAX_RECORDS_PER_OWNER), gone) && after == m - gone;
    OwnedAfterRemoval(m, owner, gone);
  }

  /** Trimming finds nothing to do in a registry that is within its caps. */
  lemma TrimmedWithinCap(m: Entries, owner: string, after: Entries)
    requires Trimmed(m, owner, after) && |Owned(m, owner)| <= MAX_RECORDS_PER_OWNER
    ensures after == m
  {
    var gone := TrimmedGone(m, owner, after);
    assert gone == {};
  }

  lemma NoneGone(m: Entries, gone: set<string>, after: Entries)
    requires |gone| == 0 && after == m - gone
    ensures after == m
  {
    assert gone == {};
  }

  lemma NewRecordIsUndone(m: Entries, owner: string, p: Process, stamp: Millis, trimmed: Entries)
    requires p.processId !in m && |Owned(m, owner)| <= MAX_RECORDS_PER_OWNER
    requires Trimmed(Inserted(m, owner, p, stamp), owner, trimmed)
    requires |Owned(trimmed, owner)| > MAX_RECORDS_PER_OWNER
    ensures trimmed - {p.processId} == m
  {
    var ins := Inserted(m, owner, p, stamp);
    OwnedAfterInsert(m, owner, p, stamp, owner);
    assert |Owned(ins, owner)| <= |Owned(m, owner)| + 1;
    var gone := TrimmedGone(ins, owner, trimmed);
    assert |gone| == 0;
    NoneGone(ins, gone, trimmed);
    assert ins - {p.processId} == m;
  }

  /** An upsert over the cap evicts one finished record, or is undone exactly. */
  lemma UpsertOverCap(m: Entries, owner: string, p: Process, stamp: Millis, trimmed: Entries)
    requires Inv(m) && (p.processId in m ==> m[p.processId].owner == owner)
    requires Trimmed(Inserted(m, owner, p, stamp), owner, trimmed)
    ensures |Owned(trimmed, owner)| > MAX_RECORDS_PER_OWNER ==> trimmed - {p.processId} == m
  {
    if p.processId in m {
      OwnedAfterInsert(m, owner, p, stamp, owner);
      assert Owned(Inserted(m, owner, p, stamp), owner) == Owned(m, owner);
      TrimmedWithinCap(Inserted(m, owner, p, stamp), owner, trimmed);
    } else if |Owned(trimmed, owner)| > MAX_RECORDS_PER_OWNER {
      NewRecordIsUndone(m, owner, p, stamp, trimmed);
    }
  }

  lemma InsertedKeepsOtherCaps(m: Entries, owner: string, p: Process, stamp: Millis, trimmed: Entries)
    requires Inv(m) && (p.processId in m ==> m[p.processId].owner == owner)
    requires IsPart(trimmed, Inserted(m, owner, p, stamp)) && |Owned(trimmed, owner)| <= MAX_RECORDS_PER_OWNER
    ensures Inv(trimmed)
  {
    var ins := Inserted(m, owner, p, stamp);
    forall other: string ensures |Owned(trimmed, other)| <= MAX_RECORDS_PER_OWNER {
      OwnedAfterInsert(m, owner, p, stamp, other);
      assert Owned(trimmed, other) <= Owned(ins, other);
      SubsetCard(Owned(trimmed, other), Owned(ins, other));
    }
  }

  lemma CoreKeepsInv(m: Entries, owner: string, p: Process, stamp: Millis, pruneAt: Millis,
                     result: Option<Process>, after: Entries)
    requires Inv(m) && (p.processId in m ==> m[p.processId].owner == owner)
    requires UpsertCore(m, owner, p, stamp, pruneAt, result, after)
    ensures result.None? ==> after == m
    ensures Inv(after)
  {
    var trimmed :| UpsertVia(m, owner, p, stamp, pruneAt, result, after, trimmed);
    UpsertOverCap(m, owner, p, stamp, trimmed);
    if |Owned(trimmed, owner)| <= MAX_RECORDS_PER_OWNER {
      var gone := TrimmedGone(Inserted(m, owner, p, stamp), owner, trimmed);
      InsertedKeepsOtherCaps(m, owner, p, stamp, trimmed);
      PrunedIsPart(trimmed, pruneAt, after);
      PartKeepsInv(trimmed, after);
    }
  }

  /** A rejected upsert leaves the map exactly as it was, and an accepted one keeps every
      owner within its cap. */
  lemma UpsertKeepsInv(m: Entries, c: Call, result: Option<Process>, after: Entries)
    requires Inv(m) && c.Upsert? && UpsertStep(m, c, result, after)
    ensures result.None? ==> after == m
    ensures Inv(after)
  {
    var p := RefreshElapsed(c.process, c.wall);
    if UpsertCore(m, c.owner, p, c.stamp, c.pruneAt, result, after)
        && (p.processId in m ==> m[p.processId].owner == c.owner) {
      CoreKeepsInv(m, c.owner, p, c.stamp, c.pruneAt, result, after);
    }
  }

  lemma CoreStoresRunning(m: Entries, owner: string, p: Process, stamp: Millis, pruneAt: Millis, after: Entries)
    requires p.running && stamp <= pruneAt && UpsertCore(m, owner, p, stamp, pruneAt, Some(p), after)
    ensures p.processId in after <==> pruneAt - stamp <= RUNNING_RETENTION
    ensures p.processId in after ==>
              after[p.processId].owner == owner && after[p.processId].process == p
              && after[p.processId].updatedAt == stamp
  {
    var ins := Inserted(m, owner, p, stamp);
    var trimmed :| UpsertVia(m, owner, p, stamp, pruneAt, Some(p), after, trimmed);
    var gone := TrimmedGone(ins, owner, trimmed);
    assert trimmed[p.processId] == ins[p.processId];
    var a := Aged(trimmed, pruneAt);
    assert p.processId in a <==> pruneAt - stamp <= RUNNING_RETENTION;
    assert p.processId !in Finished(a);
    PrunedIsPart(trimmed, pruneAt, after);
  }

  /** A successful upsert of a running process is present afterwards exactly when the
      two clock readings of the call are within the retention of a running record. */
  lemma RunningUpsertIsPresent(m: Entries, c: Call, p: Process, after: Entries)
    requires c.Upsert? && c.process.running && c.stamp <= c.pruneAt && UpsertStep(m, c, Some(p), after)
    ensures p == RefreshElapsed(c.process, c.wall)
    ensures p.processId in after <==> c.pruneAt - c.stamp <= RUNNING_RETENTION
    ensures p.processId in after ==>
              after[p.processId].owner == c.owner && after[p.processId].process == p
              && after[p.processId].updatedAt == c.stamp
  {
    CoreStoresRunning(m, c.owner, p, c.stamp, c.pruneAt, after);
  }

  /** When the clock moves on by more than that between the two readings, the new record is
      gone although the call succeeds. */
  lemma SlowUpsertVanishes(owner: string, p: Process, stamp: Millis)
    requires p.running
    ensures UpsertCore(map[], owner, p, stamp, stamp + RUNNING_RETENTION + 1, Some(p), map[])
  {
    var empty: Entries := map[];
    var ins := Inserted(empty, owner, p, stamp);
    var late := stamp + RUNNING_RETENTION + 1;
    assert Owned(ins, owner) == {p.processId};
    assert EvictsExactly(ins, Finished(ins) * Owned(ins, owner), 0, {}) && ins - {} == ins;
    assert Aged(ins, late) == empty;
    assert EvictsExactly(empty, Finished(empty), 0, {}) && empty - {} == empty;
    assert UpsertVia(empty, owner, p, stamp, late, Some(p), empty, ins);
  }

  /** The newest candidate is evicted only when all candidates are. */
  lemma NewestIsEvictedLast(m: Entries, candidates: set<string>, n: nat, gone: set<string>, x: string)
    requires EvictsExactly(m, candidates, n, gone) && x in candidates
    requires forall k :: k in candidates && k != x ==> m[k].updatedAt < m[x].updatedAt
    ensures x in gone <==> n >= |candidates|
  {
    if n >= |candidates| {
      FullSubset(gone, candidates);
    } else {
      DifferenceCard(candidates, gone);
      var k :| k in candidates - gone;
    }
  }

  /** The owner's cap is filled by other records, all of which run. */
  predicate OwnerIsFull(m: Entries, owner: string, id: string) {
    id !in m && |Owned(m, owner)| == MAX_RECORDS_PER_OWNER && Finished(m) * Owned(m, owner) == {}
  }

  /** The other records that run and are still fresh. */
  function OthersRunning(m: Entries, id: string, now: Millis): set<string> {
    set k | k in m && k != id && m[k].process.running && IsFresh(m[k], now)
  }

  ghost predicate OthersAreOlder(m: Entries, id: string, stamp: Millis) {
    forall k :: k in m && k != id ==> m[k].updatedAt < stamp
  }

  /** Trimming takes the new finished record exactly when its owner is full. */
  lemma TrimTakesNewestIff(m: Entries, owner: string, p: Process, stamp: Millis, trimmed: Entries)
    requires !p.running && (p.processId in m ==> m[p.processId].owner == owner)
    requires |Owned(m, owner)| <= MAX_RECORDS_PER_OWNER && OthersAreOlder(m, p.processId, stamp)
    requires Trimmed(Inserted(m, owner, p, stamp), owner, trimmed)
    ensures p.processId !in trimmed <==> OwnerIsFull(m, owner, p.processId)
  {
    var ins := Inserted(m, owner, p, stamp);
    OwnedAfterInsert(m, owner, p, stamp, owner);
    if |Owned(ins, owner)| <= MAX_RECORDS_PER_OWNER {
      TrimmedWithinCap(ins, owner, trimmed);
      assert p.processId !in m ==> |Owned(ins, owner)| == |Owned(m, owner)| + 1;
    } else {
      assert p.processId in m ==> Owned(ins, owner) == Owned(m, owner);
      var candidates := Finished(ins) * Owned(ins, owner);
      var gone :| EvictsExactly(ins, candidates, 1, gone) && trimmed == ins - gone;
      NewestIsEvictedLast(ins, candidates, 1, gone, p.processId);
      CandidatesBesideNew(m, owner, p, stamp);
    }
  }

  lemma AddOne<T>(a: set<T>, x: T)
    requires x !in a
    ensures |a + {x}| == |a| + 1 && (|a| == 0 <==> a == {})
  {
  }

  lemma CandidatesBesideNew(m: Entries, owner: string, p: Process, stamp: Millis)
    requires !p.running && p.processId !in m
    ensures var ins := Inserted(m, owner, p, stamp);
            Finished(ins) * Owned(ins, owner) == Finished(m) * Owned(m, owner) + {p.processId}
            && |Finished(ins) * Owned(ins, owner)| == |Finished(m) * Owned(m, owner)| + 1
            && (|Finished(m) * Owned(m, owner)| == 0 <==> Finished(m) * Owned(m, owner) == {})
  {
    OwnedAfterInsert(m, owner, p, stamp, owner);
    FinishedAfterInsert(m, owner, p, stamp);
    AddOne(Finished(m) * Owned(m, owner), p.processId);
    assert (Finished(m) + {p.processId}) * (Owned(m, owner) + {p.processId})
        == Finished(m) * Owned(m, owner) + {p.processId};
  }

  lemma FinishedAfterInsert(m: Entries, owner: string, p: Process, stamp: Millis)
    requires !p.running && p.processId !in m
    ensures Finished(Inserted(m, owner, p, stamp)) == Finished(m) + {p.processId}
  {
  }

  lemma FinishedAndRunning(a: Entries)
    ensures |a| == |Finished(a)| + |a.Keys - Finished(a)|
  {
    DifferenceCard(a.Keys, Finished(a));
  }

  /** Pruning takes the newest finished record exactly when the running ones alone fill the
      registry. */
  lemma PruneTakesNewestIff(m: Entries, now: Millis, after: Entries, x: string)
    requires Pruned(m, now, after) && x in m && !m[x].process.running && IsFresh(m[x], now)
    requires forall k :: k in m && k != x ==> m[k].updatedAt < m[x].updatedAt
    ensures x !in after <==> |OthersRunning(m, x, now)| >= MAX_RECORDS
  {
    var a := Aged(m, now);
    var n := Excess(|a|, MAX_RECORDS);
    var gone :| EvictsExactly(a, Finished(a), n, gone) && after == a - gone;
    NewestIsEvictedLast(a, Finished(a), n, gone, x);
    FinishedAndRunning(a);
    assert a.Keys - Finished(a) == OthersRunning(m, x, now);
    assert x in Finished(a);
  }

  lemma TrimKeepsRunning(m: Entries, owner: string, p: Process, stamp: Millis, trimmed: Entries, now: Millis)
    requires !p.running && Trimmed(Inserted(m, owner, p, stamp), owner, trimmed)
    ensures OthersRunning(trimmed, p.processId, now) == OthersRunning(m, p.processId, now)
    ensures IsPart(trimmed, Inserted(m, owner, p, stamp))
  {
    var ins := Inserted(m, owner, p, stamp);
    var gone := TrimmedGone(ins, owner, trimmed);
    SameOthers(m, ins, p.processId, now);
    assert forall id :: id in ins && ins[id].process.running ==> id in trimmed;
    assert OthersRunning(trimmed, p.processId, now) == OthersRunning(ins, p.processId, now);
  }

  lemma SameOthers(m: Entries, n: Entries, id: string, now: Millis)
    requires forall k :: k != id ==> (k in m <==> k in n) && (k in m && k in n ==> m[k] == n[k])
    ensures OthersRunning(m, id, now) == OthersRunning(n, id, now)
  {
  }

  lemma NewestAfterTrim(m: Entries, owner: string, p: Process, stamp: Millis, trimmed: Entries, now: Millis)
    requires !p.running && OthersAreOlder(m, p.processId, stamp) && stamp <= now <= stamp + FINISHED_RETENTION
    requires Trimmed(Inserted(m, owner, p, stamp), owner, trimmed) && p.processId in trimmed
    ensures !trimmed[p.processId].process.running && IsFresh(trimmed[p.processId], now)
    ensures forall k :: k in trimmed && k != p.processId ==> trimmed[k].updatedAt < trimmed[p.processId].updatedAt
  {
    TrimKeepsRunning(m, owner, p, stamp, trimmed, now);
  }

  lemma CoreAbsentIff(m: Entries, owner: string, p: Process, stamp: Millis, pruneAt: Millis, after: Entries)
    requires !p.running && (p.processId in m ==> m[p.processId].owner == owner)
    requires |Owned(m, owner)| <= MAX_RECORDS_PER_OWNER && OthersAreOlder(m, p.processId, stamp)
    requires stamp <= pruneAt <= stamp + FINISHED_RETENTION
    requires UpsertCore(m, owner, p, stamp, pruneAt, Some(p), after)
    ensures p.processId !in after <==>
            OwnerIsFull(m, owner, p.processId) || |OthersRunning(m, p.processId, pruneAt)| >= MAX_RECORDS
  {
    var trimmed: Entries :| UpsertVia(m, owner, p, stamp, pruneAt, Some(p), after, trimmed);
    TrimTakesNewestIff(m, owner, p, stamp, trimmed);
    TrimKeepsRunning(m, owner, p, stamp, trimmed, pruneAt);
    if p.processId in trimmed {
      NewestAfterTrim(m, owner, p, stamp, trimmed, pruneAt);
      PruneTakesNewestIff(trimmed, pruneAt, after, p.processId);
    } else {
      PrunedIsPart(trimmed, pruneAt, after);
    }
  }

  /** A successful upsert of a finished process is absent afterwards exactly when its id is
      new and its owner's cap is filled by running records, or the other running records
      alone fill the registry. */
  lemma FinishedUpsertIsAbsentIff(m: Entries, c: Call, p: Process, after: Entries)
    requires Inv(m) && c.Upsert? && !c.process.running && UpsertStep(m, c, Some(p), after)
    requires OthersAreOlder(m, p.processId, c.stamp) && c.stamp <= c.pruneAt <= c.stamp + FINISHED_RETENTION
    ensures p.processId !in after <==>
            OwnerIsFull(m, c.owner, p.processId) || |OthersRunning(m, p.processId, c.pruneAt)| >= MAX_RECORDS
  {
    ResultIsTheRecord(m, c, p, after);
    CoreAbsentIff(m, c.owner, p, c.stamp, c.pruneAt, after);
  }

  /** One running record under each of these ids. */
  function AllRunning(ids: set<string>, owner: string, p: Process, stamp: Millis): Entries {
    map id | id in ids :: Entry(owner, p.(processId := id, running := true), stamp, None)
  }

  lemma AllRunningAreTheOwners(ids: set<string>, owner: string, p: Process, since: Millis)
    ensures Owned(AllRunning(ids, owner, p, since), owner) == ids == AllRunning(ids, owner, p, since).Keys
    ensures Finished(AllRunning(ids, owner, p, since)) == {}
  {
  }

  lemma OnlyTheNewIsEvicted(m: Entries, owner: string, p: Process, stamp: Millis)
    requires p.processId !in m && !p.running && Finished(m) == {}
    requires |Owned(m, owner)| == MAX_RECORDS_PER_OWNER
    ensures Trimmed(Inserted(m, owner, p, stamp), owner, m)
  {
    var ins := Inserted(m, owner, p, stamp);
    assert Owned(ins, owner) == Owned(m, owner) + {p.processId};
    assert Finished(ins) == {p.processId};
    assert Finished(ins) * Owned(ins, owner) == {p.processId};
    assert EvictsExactly(ins, {p.processId}, 1, {p.processId}) && ins - {p.processId} == m;
  }

  lemma NothingIsPruned(m: Entries, now: Millis)
    requires |m| <= MAX_RECORDS && forall id :: id in m ==> IsFresh(m[id], now)
    ensures Pruned(m, now, m)
  {
    assert Aged(m, now) == m && m - {} == m;
    assert EvictsExactly(m, Finished(m), 0, {});
  }

  /** An owner with 128 running records: a new finished process is accepted, the call
      succeeds, and the registry is what it was. */
  lemma FullOwnerLosesFinished(ids: set<string>, c: Call, since: Millis)
    requires c.Upsert? && IsValid(c.owner, c.process) && !c.process.running
    requires |ids| == MAX_RECORDS_PER_OWNER && c.process.processId !in ids
    requires since <= c.pruneAt <= since + RUNNING_RETENTION
    ensures var m := AllRunning(ids, c.owner, c.process, since);
            c.process.processId !in m && UpsertStep(m, c, Some(c.process), m)
  {
    var p := c.process;
    var m := AllRunning(ids, c.owner, p, since);
    AllRunningAreTheOwners(ids, c.owner, p, since);
    OnlyTheNewIsEvicted(m, c.owner, p, c.stamp);
    assert |m| == |m.Keys|;
    NothingIsPruned(m, c.pruneAt);
    assert UpsertVia(m, c.owner, p, c.stamp, c.pruneAt, Some(p), m, m);
  }

  lemma ResultIsTheRecord(m: Entries, c: Call, p: Process, after: Entries)
    requires c.Upsert? && UpsertStep(m, c, Some(p), after)
    ensures p == RefreshElapsed(c.process, c.wall)
    ensures (p.processId in m ==> m[p.processId].owner == c.owner)
            && UpsertCore(m, c.owner, p, c.stamp, c.pruneAt, Some(p), after)
  {
  }

  lemma {:induction false} TakenKeepsRecords(m: Entries, owner: string, ids: seq<string>)
    ensures var after := Taken(m, owner, ids).0;
            after.Keys == m.Keys
            && forall id :: id in m ==>
                 after[id] == if m[id].owner == owner && id in ids then m[id].(stopReason := None) else m[id]
  {
    if ids != [] {
      var front, last := ids[..|ids| - 1], ids[|ids| - 1];
      TakenKeepsRecords(m, owner, front);
      assert ids == front + [last];
      assert forall id :: id in ids <==> id in front || id == last;
    }
  }

  lemma StepKeepsInv(m: Entries, c: Call, r: Reply, after: Entries)
    requires Inv(m) && Step(m, c, r, after)
    ensures Inv(after)
  {
    match c
    case Upsert(_, _, _, _, _) => UpsertKeepsInv(m, c, r.result, after);
    case Release(_, _) => PartKeepsInv(m, after);
    case List(owner, _, _, wall, pruneAt) => ListKeepsInv(m, owner, wall, pruneAt, after);
    case RequestStop(_, _) => SameOwnersKeepInv(m, after);
    case TakeStopRequests(owner, ids) =>
      TakenKeepsRecords(m, owner, ids);
      SameOwnersKeepInv(m, after);
  }

  lemma ListKeepsInv(m: Entries, owner: string, wall: int, pruneAt: Millis, after: Entries)
    requires Inv(m) && exists kept :: Pruned(m, pruneAt, kept) && after == Refreshed(kept, owner, wall)
    ensures Inv(after)
  {
    var kept :| Pruned(m, pruneAt, kept) && after == Refreshed(kept, owner, wall);
    PrunedIsPart(m, pruneAt, kept);
    PartKeepsInv(m, kept);
    SameOwnersKeepInv(kept, after);
  }

  lemma SameOwnersKeepInv(m: Entries, after: Entries)
    requires Inv(m) && m.Keys == after.Keys
    requires forall id :: id in m ==>
             after[id].owner == m[id].owner && after[id].process.processId == m[id].process.processId
    ensures Inv(after)
  {
    forall owner: string ensures |Owned(after, owner)| <= MAX_RECORDS_PER_OWNER {
      assert Owned(after, owner) == Owned(m, owner);
    }
  }

  // ----- Isolation and persistence of stop requests -----

  lemma CoreTouchesOnlyItsRecord(m: Entries, owner: string, p: Process, stamp: Millis, pruneAt: Millis,
                                 result: Option<Process>, after: Entries, id: string)
    requires UpsertCore(m, owner, p, stamp, pruneAt, result, after) && id in after
    ensures id in Inserted(m, owner, p, stamp) && after[id] == Inserted(m, owner, p, stamp)[id]
  {
    var trimmed :| UpsertVia(m, owner, p, stamp, pruneAt, result, after, trimmed);
    var gone := TrimmedGone(Inserted(m, owner, p, stamp), owner, trimmed);
    if |Owned(trimmed, owner)| <= MAX_RECORDS_PER_OWNER { PrunedIsPart(trimmed, pruneAt, after); }
  }

  /** What an upsert does to every record it leaves in place. */
  lemma UpsertTouchesOnlyItsRecord(m: Entries, c: Call, result: Option<Process>, after: Entries, id: string)
    requires c.Upsert? && UpsertStep(m, c, result, after) && id in after
    ensures id in m || id == c.process.processId
    ensures id in m && (id != c.process.processId || m[id].owner != c.owner) ==> after[id] == m[id]
    ensures after[id].stopReason == if id in m then m[id].stopReason else None
  {
    var p := RefreshElapsed(c.process, c.wall);
    if UpsertCore(m, c.owner, p, c.stamp, c.pruneAt, result, after)
        && (p.processId in m ==> m[p.processId].owner == c.owner) {
      CoreTouchesOnlyItsRecord(m, c.owner, p, c.stamp, c.pruneAt, result, after, id);
    }
  }

  /** No call of another owner changes a record it leaves in place, in any field. */
  lemma OtherOwnersCannotTouch(m: Entries, c: Call, r: Reply, after: Entries, id: string)
    requires Step(m, c, r, after) && id in m && id in after && m[id].owner != c.owner
    ensures after[id] == m[id]
  {
    match c
    case Upsert(_, _, _, _, _) => UpsertTouchesOnlyItsRecord(m, c, r.result, after, id);
    case Release(_, _) =>
    case List(_, _, _, _, _) =>
      var kept :| Pruned(m, c.pruneAt, kept) && after == Refreshed(kept, c.owner, c.wall);
      PrunedIsPart(m, c.pruneAt, kept);
    case RequestStop(_, _) =>
    case TakeStopRequests(owner, ids) => TakenKeepsRecords(m, owner, ids);
  }

  /** A pending request survives every call until it is taken or its record is removed. */
  lemma PendingSurvives(m: Entries, c: Call, r: Reply, after: Entries, id: string)
    requires Step(m, c, r, after) && IsPending(m, id)
    ensures IsPending(after, id) || id !in after
            || (c.TakeStopRequests? && id in c.processIds && m[id].owner == c.owner)
  {
    match c
    case Upsert(_, _, _, _, _) => if id in after { UpsertTouchesOnlyItsRecord(m, c, r.result, after, id); }
    case Release(_, _) =>
    case List(_, _, _, _, _) =>
      var kept :| Pruned(m, c.pruneAt, kept) && after == Refreshed(kept, c.owner, c.wall);
      PrunedIsPart(m, c.pruneAt, kept);
    case RequestStop(_, _) =>
    case TakeStopRequests(owner, ids) => TakenKeepsRecords(m, owner, ids);
  }

  // ----- Whole runs -----

  datatype Turn = Turn(call: Call, reply: Reply, after: Entries)

  ghost predicate Runs(m: Entries, turns: seq<Turn>)
    decreases turns
  {
    turns == [] || (Step(m, turns[0].call, turns[0].reply, turns[0].after) && Runs(turns[0].after, turns[1..]))
  }

  function Final(m: Entries, turns: seq<Turn>): Entries {
    if turns == [] then m else turns[|turns| - 1].after
  }

  function CountStops(stops: seq<StopRequest>, id: string): nat {
    if stops == [] then 0
    else CountStops(stops[..|stops| - 1], id) + if stops[|stops| - 1].processId == id then 1 else 0
  }

  /** Deliveries of stop requests for `id`, over a run. */
  function Delivered(turns: seq<Turn>, id: string): nat
    decreases turns
  {
    if turns == [] then 0
    else (if turns[0].reply.Stops? then CountStops(turns[0].reply.stops, id) else 0) + Delivered(turns[1..], id)
  }

  /** Successful requests to stop `id`, over a run. */
  function Requested(turns: seq<Turn>, id: string): nat
    decreases turns
  {
    if turns == [] then 0
    else
      var t := turns[0];
      (if t.call.RequestStop? && t.reply.StopRequested? && t.reply.ok && Trim(t.call.processId) == id then 1 else 0)
      + Requested(turns[1..], id)
  }

  function PendingCount(m: Entries, id: string): nat {
    if IsPending(m, id) then 1 else 0
  }

  /** A take delivers a pending request once, however often its id is repeated. */
  lemma {:induction false} TakeConserves(m: Entries, owner: string, ids: seq<string>, id: string)
    ensures var (after, stops) := Taken(m, owner, ids);
            CountStops(stops, id) + PendingCount(after, id) == PendingCount(m, id)
  {
    if ids != [] {
      var front, last := ids[..|ids| - 1], ids[|ids| - 1];
      TakeConserves(m, owner, front, id);
      var (m1, stops1) := Taken(m, owner, front);
      var (m2, stops2) := TakeOne(m1, owner, last);
      if stops2 != [] {
        assert (stops1 + stops2)[..|stops1|] == stops1;
      } else {
        NilPlus(stops1);
      }
    }
  }

  lemma StepConserves(m: Entries, c: Call, r: Reply, after: Entries, id: string)
    requires Step(m, c, r, after)
    ensures (if r.Stops? then CountStops(r.stops, id) else 0) + PendingCount(after, id)
            <= PendingCount(m, id)
               + if c.RequestStop? && r.StopRequested? && r.ok && Trim(c.processId) == id then 1 else 0
  {
    match c
    case Upsert(_, _, _, _, _) => if id in after { UpsertTouchesOnlyItsRecord(m, c, r.result, after, id); }
    case Release(_, _) =>
    case List(_, _, _, _, _) =>
      var kept :| Pruned(m, c.pruneAt, kept) && after == Refreshed(kept, c.owner, c.wall);
      PrunedIsPart(m, c.pruneAt, kept);
    case RequestStop(_, _) =>
    case TakeStopRequests(owner, ids) => TakeConserves(m, owner, ids, id);
  }

  lemma {:induction false} RunConserves(m: Entries, turns: seq<Turn>, id: string)
    requires Runs(m, turns)
    ensures Delivered(turns, id) + PendingCount(Final(m, turns), id) <= Requested(turns, id) + PendingCount(m, id)
    decreases turns
  {
    if turns != [] {
      var t := turns[0];
      StepConserves(m, t.call, t.reply, t.after, id);
      RunConserves(t.after, turns[1..], id);
      assert Final(m, turns) == Final(t.after, turns[1..]);
    }
  }

  lemma {:induction false} RunKeepsInv(m: Entries, turns: seq<Turn>)
    requires Inv(m) && Runs(m, turns)
    ensures Inv(Final(m, turns))
    decreases turns
  {
    if turns != [] {
      var t := turns[0];
      StepKeepsInv(m, t.call, t.reply, t.after);
      RunKeepsInv(t.after, turns[1..]);
      assert Final(m, turns) == Final(t.after, turns[1..]);
    }
  }

  /** The calls that prune, when they succeed. */
  predicate Prunes(c: Call, r: Reply) {
    c.List? || (c.Upsert? && r.Upserted? && r.result.Some?)
  }

  predicate IsBounded(m: Entries) {
    |m| <= MAX_RECORDS || forall id :: id in m ==> m[id].process.running
  }

  lemma ListPrunes(m: Entries, c: Call, processes: seq<Process>, after: Entries) returns (kept: Entries)
    requires c.List? && ListStep(m, c, processes, after)
    ensures Pruned(m, c.pruneAt, kept) && after == Refreshed(kept, c.owner, c.wall)
  {
    kept :| Pruned(m, c.pruneAt, kept) && after == Refreshed(kept, c.owner, c.wall);
  }

  lemma RefreshKeepsTheBound(m: Entries, owner: string, wall: int)
    requires IsBounded(m)
    ensures IsBounded(Refreshed(m, owner, wall))
  {
    var after := Refreshed(m, owner, wall);
    assert after.Keys == m.Keys;
    assert |after| == |after.Keys| && |m| == |m.Keys|;
  }

  lemma ListBoundsTheTotal(m: Entries, c: Call, processes: seq<Process>, after: Entries)
    requires c.List? && ListStep(m, c, processes, after)
    ensures IsBounded(after)
  {
    var kept := ListPrunes(m, c, processes, after);
    PrunedIsBounded(m, c.pruneAt, kept);
    RefreshKeepsTheBound(kept, c.owner, c.wall);
  }

  lemma UpsertBoundsTheTotal(m: Entries, c: Call, p: Process, after: Entries)
    requires c.Upsert? && UpsertStep(m, c, Some(p), after)
    ensures IsBounded(after)
  {
    ResultIsTheRecord(m, c, p, after);
    var trimmed :| UpsertVia(m, c.owner, p, c.stamp, c.pruneAt, Some(p), after, trimmed);
    PrunedIsBounded(trimmed, c.pruneAt, after);
  }

  /** Every successful upsert and every list leaves at most 512 records, or running ones
      only. */
  lemma PruningCallsBoundTheTotal(m: Entries, c: Call, r: Reply, after: Entries)
    requires Step(m, c, r, after) && Prunes(c, r)
    ensures IsBounded(after)
  {
    if c.List? {
      ListBoundsTheTotal(m, c, r.processes, after);
    } else {
      UpsertBoundsTheTotal(m, c, r.result.value, after);
    }
  }

  lemma {:induction false} LastTurn(m: Entries, turns: seq<Turn>)
    requires Runs(m, turns) && turns != []
    ensures var t := turns[|turns| - 1];
            Final(m, turns) == t.after && Step(Final(m, turns[..|turns| - 1]), t.call, t.reply, t.after)
    decreases turns
  {
    if |turns| > 1 {
      LastTurn(turns[0].after, turns[1..]);
      assert turns[1..][..|turns| - 2] == turns[..|turns| - 1][1..];
    }
  }

  /** Over every run from the empty registry, by any callers: each owner has at most 128
      records, no id is ever told to stop more often than someone asked, and after every
      successful upsert and every list at most 512 records are left, or running ones only. */
  lemma ReachableRegistry(turns: seq<Turn>, owner: string, id: string)
    requires Runs(map[], turns)
    ensures |Owned(Final(map[], turns), owner)| <= MAX_RECORDS_PER_OWNER
    ensures Delivered(turns, id) <= Requested(turns, id)
    ensures turns != [] && Prunes(turns[|turns| - 1].call, turns[|turns| - 1].reply) ==> IsBounded(Final(map[], turns))
  {
    if turns != [] && Prunes(turns[|turns| - 1].call, turns[|turns| - 1].reply) {
      var t := turns[|turns| - 1];
      LastTurn(map[], turns);
      PruningCallsBoundTheTotal(Final(map[], turns[..|turns| - 1]), t.call, t.reply, t.after);
    }
    var empty: Entries := map[];
    assert forall o: string :: Owned(empty, o) == {};
    RunKeepsInv(empty, turns);
    RunConserves(empty, turns, id);
  }
}
