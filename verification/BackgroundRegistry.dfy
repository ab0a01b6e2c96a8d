/** The registry itself (apps/core/src/background_processes.rs): one map behind a mutex,
    changed in place by every call, each proved to take a step of `BackgroundProcesses`. */
module BackgroundRegistry {
  import opened Text
  import opened BackgroundProcesses
  import opened Order

  ghost predicate OldestFirst(m: Entries, order: seq<string>) {
    && (forall i :: 0 <= i < |order| ==> order[i] in m)
    && (forall i, j :: 0 <= i < j < |order| ==> order[i] != order[j] && m[order[i]].updatedAt <= m[order[j]].updatedAt)
  }

  function Members(order: seq<string>): (r: set<string>)
    ensures forall x :: x in r <==> x in order
  {
    set x | x in order
  }

  lemma {:induction false} MembersCard(order: seq<string>)
    requires forall i, j :: 0 <= i < j < |order| ==> order[i] != order[j]
    ensures |Members(order)| == |order|
  {
    if order != [] {
      var front, last := order[..|order| - 1], order[|order| - 1];
      MembersCard(front);
      assert order == front + [last];
      assert Members(order) == Members(front) + {last};
      assert last !in front;
    }
  }

  /** The first `k` of an oldest-first order are what an eviction of `k` removes. */
  lemma FirstAreOldest(m: Entries, order: seq<string>, n: nat, k: nat)
    requires OldestFirst(m, order) && k == Min(n, |order|)
    ensures EvictsOldest(m, Members(order), n, m - Members(order[..k]))
  {
    var gone := Members(order[..k]);
    MembersCard(order);
    MembersCard(order[..k]);
    assert forall t :: 0 <= t < k ==> order[t] == order[..k][t];
    forall g, x | g in gone && x in Members(order) - gone ensures m[g].updatedAt <= m[x].updatedAt {
      var i :| 0 <= i < k && order[i] == g;
      var j :| 0 <= j < |order| && order[j] == x;
    }
    assert EvictsExactly(m, Members(order), n, gone);
  }

  lemma NothingToEvict(m: Entries, candidates: set<string>)
    requires candidates <= m.Keys
    ensures EvictsOldest(m, candidates, 0, m)
  {
    assert m - {} == m;
    assert EvictsExactly(m, candidates, 0, {});
  }

  lemma {:induction false} OldestExists(m: Entries, ids: set<string>) returns (x: string)
    requires ids != {} && ids <= m.Keys
    ensures x in ids && forall y :: y in ids ==> m[x].updatedAt <= m[y].updatedAt
    decreases ids
  {
    x :| x in ids;
    var rest := ids - {x};
    assert forall z :: z in ids && z != x ==> z in rest;
    if rest != {} {
      var y := OldestExists(m, rest);
      if m[y].updatedAt < m[x].updatedAt { x := y; }
    }
  }

  /** `collect` and `sort_by_key(updated_at)`: hash order decides between equal ages. */
  method SortByAge(m: Entries, ids: set<string>) returns (order: seq<string>)
    requires ids <= m.Keys
    ensures OldestFirst(m, order) && Members(order) == ids
  {
    order := [];
    var rest := ids;
    while rest != {}
      invariant rest <= ids && Members(order) == ids - rest
      invariant OldestFirst(m, order)
      invariant forall x, y :: x in order && y in rest ==> m[x].updatedAt <= m[y].updatedAt
      decreases rest
    {
      ghost var w := OldestExists(m, rest);
      var x :| x in rest && forall y :: y in rest ==> m[x].updatedAt <= m[y].updatedAt;
      order := order + [x];
      rest := rest - {x};
    }
  }

  /** `finished.into_iter().take(n)`, each removed. */
  method RemoveFirst(m: Entries, order: seq<string>, n: nat) returns (after: Entries)
    ensures after == m - Members(order[..Min(n, |order|)])
  {
    after := m;
    var k := 0;
    while k < n && k < |order|
      invariant k <= n && k <= |order|
      invariant after == m - Members(order[..k])
    {
      assert order[..k + 1] == order[..k] + [order[k]];
      after := after - {order[k]};
      k := k + 1;
    }
  }

  /** Sort the candidates by age and remove the first `n`. */
  method RemoveOldest(m: Entries, candidates: set<string>, n: nat) returns (after: Entries)
    requires candidates <= m.Keys
    ensures EvictsOldest(m, candidates, n, after)
  {
    var order := SortByAge(m, candidates);
    FirstAreOldest(m, order, n, Min(n, |order|));
    after := RemoveFirst(m, order, n);
  }

  class Registry {
    var entries: Entries

    constructor ()
      ensures entries == map[]
    {
      entries := map[];
    }

    method PruneLocked(now: Millis)
      modifies this
      ensures Pruned(old(entries), now, entries)
    {
      entries := Aged(entries, now);
      if |entries| <= MAX_RECORDS {
        NothingToEvict(entries, Finished(entries));
      } else {
        entries := RemoveOldest(entries, Finished(entries), |entries| - MAX_RECORDS);
      }
    }

    method TrimOwnerToLimit(owner: string)
      modifies this
      ensures Trimmed(old(entries), owner, entries)
    {
      ghost var m := entries;
      ghost var n := Excess(|Owned(m, owner)|, MAX_RECORDS_PER_OWNER);
      var finished := SortByAge(entries, Finished(entries) * Owned(entries, owner));
      ghost var order := finished;
      ghost var k := 0;
      while |Owned(entries, owner)| > MAX_RECORDS_PER_OWNER
        invariant k <= |order| && finished == order[k..] && k <= n
        invariant entries == m - Members(order[..k])
        invariant |Owned(entries, owner)| == |Owned(m, owner)| - k
        decreases |finished|
      {
        if finished == [] { break; }
        var id := finished[0];
        RemovingOne(m, order, k, owner);
        finished := finished[1..];
        entries := entries - {id};
        k := k + 1;
      }
      FirstAreOldest(m, order, n, k);
    }

    method Upsert(owner: string, process: Process, wall: int, stamp: Millis, pruneAt: Millis)
      returns (result: Option<Process>)
      modifies this
      ensures Step(old(entries), Call.Upsert(owner, process, wall, stamp, pruneAt), Upserted(result), entries)
    {
      if !IsValid(owner, process) { return None; }
      var p := RefreshElapsed(process, wall);
      if p.processId in entries && entries[p.processId].owner != owner { return None; }
      ghost var m := entries;
      entries := Inserted(entries, owner, p, stamp);
      TrimOwnerToLimit(owner);
      ghost var trimmed := entries;
      if |Owned(entries, owner)| > MAX_RECORDS_PER_OWNER {
        entries := entries - {p.processId};
        result := None;
      } else {
        PruneLocked(pruneAt);
        result := Some(p);
      }
      assert UpsertVia(m, owner, p, stamp, pruneAt, result, entries, trimmed);
    }

    method Release(owner: string, processId: string) returns (removed: bool)
      modifies this
      ensures Step(old(entries), Call.Release(owner, processId), Released(removed), entries)
    {
      removed := processId in entries && entries[processId].owner == owner;
      if removed { entries := entries - {processId}; }
    }

    method List(owner: string, runningOnly: bool, producer: Option<string>, wall: int, pruneAt: Millis)
      returns (processes: seq<Process>)
      requires forall id :: id in entries ==> entries[id].process.processId == id
      modifies this
      ensures Step(old(entries), Call.List(owner, runningOnly, producer, wall, pruneAt), Listed(processes), entries)
    {
      ghost var m := entries;
      PruneLocked(pruneAt);
      ghost var kept := entries;
      PrunedIsPart(m, pruneAt, kept);
      entries := Refreshed(entries, owner, wall);
      var c := Call.List(owner, runningOnly, producer, wall, pruneAt);
      processes := SortForDisplay(entries, ListedIds(entries, c));
      assert ListStep(m, c, processes, entries);
    }

    method RequestStop(owner: string, processId: string) returns (ok: bool)
      modifies this
      ensures Step(old(entries), Call.RequestStop(owner, processId), StopRequested(ok), entries)
    {
      var id := Trim(processId);
      if id == [] { return false; }
      if !(id in entries && entries[id].owner == owner) { return false; }
      if !entries[id].process.running { return false; }
      entries := entries[id := entries[id].(stopReason := Some("stopped from Ryu"))];
      ok := true;
    }

    method TakeStopRequests(owner: string, processIds: seq<string>) returns (stops: seq<StopRequest>)
      modifies this
      ensures Step(old(entries), Call.TakeStopRequests(owner, processIds), Stops(stops), entries)
    {
      stops := [];
      for i := 0 to |processIds|
        invariant (entries, stops) == Taken(old(entries), owner, processIds[..i])
      {
        assert processIds[..i + 1][..i] == processIds[..i];
        var id := processIds[i];
        if id in entries && entries[id].owner == owner {
          var reason := entries[id].stopReason;
          ghost var before := entries;
          entries := entries[id := entries[id].(stopReason := None)];
          if reason.Some? {
            stops := stops + [StopRequest(id, reason.value)];
          } else {
            assert entries == before;
            NilPlus(stops);
          }
        } else {
          NilPlus(stops);
        }
      }
      assert processIds[..|processIds|] == processIds;
    }
  }

  lemma RemovingOne(m: Entries, order: seq<string>, k: nat, owner: string)
    requires OldestFirst(m, order) && Members(order) <= Owned(m, owner) && k < |order|
    ensures m - Members(order[..k]) - {order[k]} == m - Members(order[..k + 1])
    ensures |Owned(m - Members(order[..k + 1]), owner)| == |Owned(m - Members(order[..k]), owner)| - 1
  {
    assert order[..k + 1] == order[..k] + [order[k]];
    assert order[k] !in order[..k];
    var before := Owned(m - Members(order[..k]), owner);
    assert order[k] in Members(order);
    assert Owned(m - Members(order[..k + 1]), owner) == before - {order[k]};
  }

  lemma {:induction false} FirstForDisplay(m: Entries, ids: set<string>) returns (x: string)
    requires ids != {} && ids <= m.Keys && forall id :: id in m ==> m[id].process.processId == id
    ensures x in ids && forall y :: y in ids && y != x ==> ListedBefore(m[x].process, m[y].process)
    decreases ids
  {
    x :| x in ids;
    var rest := ids - {x};
    assert forall z :: z in ids && z != x ==> z in rest;
    if rest != {} {
      var y := FirstForDisplay(m, rest);
      LessTotal(x, y);
      if ListedBefore(m[x].process, m[y].process) {
        forall z | z in ids && z != x ensures ListedBefore(m[x].process, m[z].process) {
          if z != y && m[x].process.startedAt == m[y].process.startedAt == m[z].process.startedAt {
            LessTransitive(x, y, z);
          }
        }
      } else {
        x := y;
      }
    }
  }

  /** `sort_by(started_at, then process_id)` of the listed records. */
  method SortForDisplay(m: Entries, ids: set<string>) returns (processes: seq<Process>)
    requires ids <= m.Keys && forall id :: id in m ==> m[id].process.processId == id
    ensures forall p :: p in processes <==> exists id :: id in ids && p == m[id].process
    ensures forall i, j :: 0 <= i < j < |processes| ==> ListedBefore(processes[i], processes[j])
  {
    processes := [];
    var rest := ids;
    while rest != {}
      invariant rest <= ids
      invariant forall p :: p in processes <==> exists id :: id in ids - rest && p == m[id].process
      invariant forall i, j :: 0 <= i < j < |processes| ==> ListedBefore(processes[i], processes[j])
      invariant forall i, id :: 0 <= i < |processes| && id in rest ==> ListedBefore(processes[i], m[id].process)
      decreases rest
    {
      ghost var w := FirstForDisplay(m, rest);
      var x :| x in rest && forall y :: y in rest && y != x ==> ListedBefore(m[x].process, m[y].process);
      processes := processes + [m[x].process];
      rest := rest - {x};
    }
  }
}
