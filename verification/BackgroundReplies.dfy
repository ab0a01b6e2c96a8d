/** What the calls of the process registry answer and leave behind
    (apps/core/src/background_processes.rs), in the records' own fields. */
module BackgroundReplies {
  import opened Text
  import Utf8
  import opened Order
  import opened BackgroundProcesses

  // ----- Ageing and the running clock -----

  /** How long ago the record was written; a clock that stands behind it reads 0. */
  function Age(e: Entry, now: Millis): Millis {
    if now > e.updatedAt then now - e.updatedAt else 0
  }

  /** Older than 30 seconds if it runs, than 5 minutes if it has finished. */
  predicate IsStale(e: Entry, now: Millis) {
    Age(e, now) > (if e.process.running then 30_000 else 300_000)
  }

  /** The elapsed time follows the wall clock for a running process with a start time; no
      other field ever does. */
  ghost predicate IsRefreshOf(p: Process, was: Process, wall: int) {
    && p == was.(elapsedMs := p.elapsedMs)
    && (was.running && was.startedAt > 0 ==>
          p.elapsedMs as int == if wall > was.startedAt then wall - was.startedAt else 0)
    && (!was.running || was.startedAt <= 0 ==> p == was)
  }

  lemma RefreshMeans(was: Process, wall: int)
    ensures IsRefreshOf(RefreshElapsed(was, wall), was, wall)
  {
  }

  /** What pruning forgets, and what it may not: a record goes exactly when it is stale, or
      when it has finished and is among the oldest of those over the total cap. */
  lemma PruningForgets(m: Entries, now: Millis, after: Entries, id: string)
    requires Pruned(m, now, after) && id in m
    ensures id in after ==> !IsStale(m[id], now) && after[id] == m[id]
    ensures id !in after ==> IsStale(m[id], now) || !m[id].process.running
    ensures id !in after && !IsStale(m[id], now) ==>
              |Aged(m, now)| > 512 && forall k :: k in after && !after[k].process.running ==>
                                             m[id].updatedAt <= after[k].updatedAt
  {
    var a := Aged(m, now);
    assert id in a <==> !IsStale(m[id], now);
    var gone :| EvictsExactly(a, Finished(a), Excess(|a|, MAX_RECORDS), gone) && after == a - gone;
    if id in a && id !in after {
      assert id in gone;
      assert |gone| > 0;
      assert forall k :: k in after && !after[k].process.running ==> k in Finished(a) - gone;
    }
  }

  // ----- Listing -----

  /** The record a caller asked for. */
  ghost predicate IsAskedFor(e: Entry, c: Call)
    requires c.List?
  {
    && e.owner == c.owner
    && (c.producer.Some? ==> e.process.producer == c.producer.value)
    && (c.runningOnly ==> e.process.running)
  }

  /** A list holds exactly the caller's own records, of the producer and running as asked,
      as they stand afterwards, by start time and then by id. */
  lemma ListAnswers(m: Entries, c: Call, processes: seq<Process>, after: Entries)
    requires c.List? && Step(m, c, Listed(processes), after)
    ensures forall p :: p in processes <==>
            exists id :: id in after && after[id].process == p && IsAskedFor(after[id], c)
    ensures forall i, j :: 0 <= i < j < |processes| ==>
              processes[i].startedAt < processes[j].startedAt
              || (processes[i].startedAt == processes[j].startedAt
                  && Precedes(processes[i].processId, processes[j].processId))
  {
    forall p
      ensures p in processes <==> exists id :: id in after && after[id].process == p && IsAskedFor(after[id], c)
    {
      assert p in processes <==> exists id :: id in ListedIds(after, c) && p == after[id].process;
    }
    forall i, j | 0 <= i < j < |processes|
      ensures processes[i].startedAt < processes[j].startedAt
              || (processes[i].startedAt == processes[j].startedAt
                  && Precedes(processes[i].processId, processes[j].processId))
    {
      assert ListedBefore(processes[i], processes[j]);
      LessIsPrecedes(processes[i].processId, processes[j].processId);
    }
  }

  /** A list changes nothing but the elapsed time of the caller's running records, and
      forgets only what pruning forgets. */
  lemma ListLeaves(m: Entries, c: Call, processes: seq<Process>, after: Entries, id: string)
    requires c.List? && Step(m, c, Listed(processes), after)
    ensures id in after ==>
              && id in m && !IsStale(m[id], c.pruneAt)
              && after[id] == m[id].(process := after[id].process)
              && if m[id].owner == c.owner then IsRefreshOf(after[id].process, m[id].process, c.wall)
                 else after[id].process == m[id].process
    ensures id in m && id !in after ==> IsStale(m[id], c.pruneAt) || (!m[id].process.running && |m| > 512)
  {
    var kept := ListPrunes(m, c, processes, after);
    PrunedIsPart(m, c.pruneAt, kept);
    if id in m {
      PruningForgets(m, c.pruneAt, kept, id);
      RefreshMeans(m[id].process, c.wall);
    }
    assert Aged(m, c.pruneAt).Keys <= m.Keys;
    SubsetCard(Aged(m, c.pruneAt).Keys, m.Keys);
  }

  // ----- Release and stop requests -----

  /** A release succeeds exactly on the caller's own record, and removes only that. */
  lemma ReleaseAnswers(m: Entries, c: Call, removed: bool, after: Entries, id: string)
    requires c.Release? && Step(m, c, Released(removed), after)
    ensures removed <==> c.processId in m && m[c.processId].owner == c.owner
    ensures id in after <==> id in m && !(id == c.processId && m[id].owner == c.owner)
    ensures id in after ==> after[id] == m[id]
  {
  }

  /** A stop request succeeds exactly for a running process of the caller whose id is the
      text without the white space around it; it marks that record, in no other field. */
  lemma StopAnswers(m: Entries, c: Call, ok: bool, after: Entries, i: nat, j: nat, id: string)
    requires c.RequestStop? && Step(m, c, StopRequested(ok), after)
    requires i <= j <= |c.processId|
             && (forall k :: 0 <= k < i || j <= k < |c.processId| ==> IsWhitespace(c.processId[k]))
    requires i < j ==> !IsWhitespace(c.processId[i]) && !IsWhitespace(c.processId[j - 1])
    ensures var named := c.processId[i..j];
            && (ok <==> named != [] && named in m && m[named].owner == c.owner && m[named].process.running)
            && (id in after <==> id in m)
            && (id in m ==>
                  after[id] == if ok && id == named then m[id].(stopReason := Some("stopped from Ryu")) else m[id])
  {
    var i', j' := TrimMeans(c.processId);
    SameTrim(c.processId, i, j, i', j');
  }

  /** Position `k` of the request names a pending record of the caller for the first time. */
  ghost predicate Asks(m: Entries, owner: string, ids: seq<string>, k: nat) {
    k < |ids| && ids[k] in m && m[ids[k]].owner == owner && m[ids[k]].stopReason.Some? && ids[k] !in ids[..k]
  }

  /** The stops handed out are those positions, in order, each with its record's reason. */
  ghost predicate HandsOut(m: Entries, owner: string, ids: seq<string>, stops: seq<StopRequest>, at: seq<nat>) {
    && |at| == |stops|
    && (forall k, l :: 0 <= k < l < |at| ==> at[k] < at[l])
    && (forall k :: 0 <= k < |at| ==>
          Asks(m, owner, ids, at[k]) && stops[k] == StopRequest(ids[at[k]], m[ids[at[k]]].stopReason.value))
    && (forall i: nat :: Asks(m, owner, ids, i) ==> i in at)
  }

  lemma AsksBefore(m: Entries, owner: string, ids: seq<string>, k: nat)
    requires ids != [] && k < |ids| - 1
    ensures Asks(m, owner, ids, k) <==> Asks(m, owner, ids[..|ids| - 1], k)
  {
    assert ids[..|ids| - 1][..k] == ids[..k];
  }

  /** The stops of all but the last id, with the last one's if it asks. */
  function AtNext(m: Entries, owner: string, ids: seq<string>, at: seq<nat>): seq<nat>
    requires ids != []
  {
    if ids[|ids| - 1] in m && m[ids[|ids| - 1]].owner == owner && m[ids[|ids| - 1]].stopReason.Some?
       && ids[|ids| - 1] !in ids[..|ids| - 1]
    then at + [|ids| - 1] else at
  }

  function StopOf(m: Entries, id: string): StopRequest
    requires id in m && m[id].stopReason.Some?
  {
    StopRequest(id, m[id].stopReason.value)
  }

  lemma LastIsTaken(m: Entries, owner: string, ids: seq<string>)
    requires ids != []
    ensures var last := |ids| - 1;
            Taken(m, owner, ids).1 == Taken(m, owner, ids[..last]).1
                                      + if Asks(m, owner, ids, last) then [StopOf(m, ids[last])] else []
  {
    TakenKeepsRecords(m, owner, ids[..|ids| - 1]);
  }

  /** Longer ids ask where the shorter ones do, and perhaps at the last. */
  ghost predicate Extends(m: Entries, owner: string, front: seq<string>, ids: seq<string>) {
    && (forall k :: 0 <= k < |front| && k < |ids| ==> ids[k] == front[k])
    && forall k: nat :: k < |front| ==> (Asks(m, owner, ids, k) <==> Asks(m, owner, front, k))
  }

  lemma FrontExtends(m: Entries, owner: string, ids: seq<string>)
    requires ids != []
    ensures Extends(m, owner, ids[..|ids| - 1], ids)
  {
    forall k: nat | k < |ids| - 1 ensures Asks(m, owner, ids, k) <==> Asks(m, owner, ids[..|ids| - 1], k) {
      AsksBefore(m, owner, ids, k);
    }
  }

  lemma HandsOutMore(m: Entries, owner: string, front: seq<string>, ids: seq<string>, stops: seq<StopRequest>,
                     at: seq<nat>)
    requires HandsOut(m, owner, front, stops, at) && |ids| == |front| + 1 && Extends(m, owner, front, ids)
    requires Asks(m, owner, ids, |front|)
    ensures HandsOut(m, owner, ids, stops + [StopOf(m, ids[|front|])], at + [|front|])
  {
    var n := |front|;
    forall i: nat | Asks(m, owner, ids, i) ensures i in at + [n] {
      assert i < n ==> i in at;
      assert (at + [n])[|at|] == n;
    }
  }

  lemma HandsOutNoMore(m: Entries, owner: string, front: seq<string>, ids: seq<string>, stops: seq<StopRequest>,
                       at: seq<nat>)
    requires HandsOut(m, owner, front, stops, at) && |ids| == |front| + 1 && Extends(m, owner, front, ids)
    requires !Asks(m, owner, ids, |front|)
    ensures HandsOut(m, owner, ids, stops, at)
  {
  }

  lemma HandsOutNext(m: Entries, owner: string, ids: seq<string>, stops: seq<StopRequest>, at: seq<nat>)
    requires ids != [] && HandsOut(m, owner, ids[..|ids| - 1], stops, at)
    ensures var n := |ids| - 1;
            HandsOut(m, owner, ids, stops + (if Asks(m, owner, ids, n) then [StopOf(m, ids[n])] else []),
                     AtNext(m, owner, ids, at))
  {
    var n := |ids| - 1;
    FrontExtends(m, owner, ids);
    if Asks(m, owner, ids, n) {
      HandsOutMore(m, owner, ids[..n], ids, stops, at);
    } else {
      HandsOutNoMore(m, owner, ids[..n], ids, stops, at);
      NilPlus(stops);
    }
  }

  /** A take hands out the caller's pending requests among the ids, each once, in the order
      in which the ids name them first, with their reasons; and it clears exactly those. */
  lemma {:induction false} TakeAnswers(m: Entries, owner: string, ids: seq<string>) returns (at: seq<nat>)
    ensures HandsOut(m, owner, ids, Taken(m, owner, ids).1, at)
    ensures var after := Taken(m, owner, ids).0;
            forall id :: (id in after <==> id in m)
                         && (id in m ==> after[id] == if id in ids && m[id].owner == owner
                                                      then m[id].(stopReason := None) else m[id])
  {
    TakenKeepsRecords(m, owner, ids);
    at := [];
    if ids != [] {
      at := TakeAnswers(m, owner, ids[..|ids| - 1]);
      LastIsTaken(m, owner, ids);
      HandsOutNext(m, owner, ids, Taken(m, owner, ids[..|ids| - 1]).1, at);
      at := AtNext(m, owner, ids, at);
    }
  }

  // ----- Upserts -----

  /** A text that must say something: not only white space, and at most 16 KiB. */
  ghost predicate SaysSomething(text: string) {
    (exists c :: c in text && !IsWhitespace(c)) && |Utf8.Encode(text)| <= 16384
  }

  ghost predicate IsShort(text: Option<string>) {
    text.Some? ==> |Utf8.Encode(text.value)| <= 16384
  }

  ghost predicate IsWellFormed(owner: string, p: Process) {
    && SaysSomething(owner) && SaysSomething(p.processId) && SaysSomething(p.producer) && SaysSomething(p.kind)
    && SaysSomething(p.command) && SaysSomething(p.cwd)
    && IsShort(p.displayLabel) && IsShort(p.description) && IsShort(p.shellId) && IsShort(p.exitSignal)
  }

  lemma ValidMeans(owner: string, p: Process)
    ensures IsValid(owner, p) <==> IsWellFormed(owner, p)
  {
    RequiredMeans(owner);
    RequiredMeans(p.processId);
    RequiredMeans(p.producer);
    RequiredMeans(p.kind);
    RequiredMeans(p.command);
    RequiredMeans(p.cwd);
  }

  lemma RequiredMeans(text: string)
    ensures TextIsValid(text, true) <==> SaysSomething(text)
  {
    TrimmedAwayIff(text);
  }

  /** The owner has 128 records, and every one of them runs. */
  ghost predicate IsFullOfRunning(m: Entries, owner: string) {
    |set id | id in m && m[id].owner == owner| == 128
    && forall id :: id in m && m[id].owner == owner ==> m[id].process.running
  }

  lemma OverCapIff(m: Entries, owner: string, p: Process, stamp: Millis, trimmed: Entries)
    requires Inv(m) && (p.processId in m ==> m[p.processId].owner == owner)
    requires Trimmed(Inserted(m, owner, p, stamp), owner, trimmed)
    ensures |Owned(trimmed, owner)| > MAX_RECORDS_PER_OWNER <==>
            p.processId !in m && p.running && IsFullOfRunning(m, owner)
  {
    var ins := Inserted(m, owner, p, stamp);
    var gone := TrimmedGone(ins, owner, trimmed);
    OwnedByOneMore(m, owner, p, stamp);
    NoFinishedIff(m, owner, p, stamp);
  }

  lemma OwnedByOneMore(m: Entries, owner: string, p: Process, stamp: Millis)
    requires Inv(m) && (p.processId in m ==> m[p.processId].owner == owner)
    ensures |Owned(Inserted(m, owner, p, stamp), owner)| == |Owned(m, owner)| + if p.processId in m then 0 else 1
    ensures |Owned(m, owner)| == |set id | id in m && m[id].owner == owner| <= MAX_RECORDS_PER_OWNER
  {
    assert Owned(Inserted(m, owner, p, stamp), owner) == Owned(m, owner) + {p.processId};
  }

  lemma NoFinishedIff(m: Entries, owner: string, p: Process, stamp: Millis)
    ensures p.processId !in m ==>
            (|Finished(Inserted(m, owner, p, stamp)) * Owned(Inserted(m, owner, p, stamp), owner)| == 0 <==>
             p.running && forall id :: id in m && m[id].owner == owner ==> m[id].process.running)
  {
    if p.processId in m { return; }
    var ins := Inserted(m, owner, p, stamp);
    var c := Finished(ins) * Owned(ins, owner);
    assert p.processId in c <==> !p.running;
    assert forall id :: id in m ==> (id in c <==> m[id].owner == owner && !m[id].process.running);
    assert c == {} <==> forall id :: id in ins ==> id !in c;
  }

  /** An upsert is refused exactly when a text is malformed, the id is another owner's, or
      it is a new running process of an owner whose 128 records all run; it answers with the
      process as given but for the refreshed elapsed time. */
  lemma UpsertAnswers(m: Entries, c: Call, result: Option<Process>, after: Entries)
    requires Inv(m) && c.Upsert? && Step(m, c, Upserted(result), after)
    ensures result.None? <==>
            || !IsWellFormed(c.owner, c.process)
            || (c.process.processId in m && m[c.process.processId].owner != c.owner)
            || (c.process.processId !in m && c.process.running && IsFullOfRunning(m, c.owner))
    ensures result.Some? ==> IsRefreshOf(result.value, c.process, c.wall)
  {
    var p := RefreshElapsed(c.process, c.wall);
    ValidMeans(c.owner, c.process);
    RefreshMeans(c.process, c.wall);
    if IsValid(c.owner, c.process) && (p.processId in m ==> m[p.processId].owner == c.owner) {
      var trimmed :| UpsertVia(m, c.owner, p, c.stamp, c.pruneAt, result, after, trimmed);
      OverCapIff(m, c.owner, p, c.stamp, trimmed);
    }
  }

  /** A record that another call wrote stays through an upsert unless it is stale, or has
      finished and its owner has its 128 records or the registry its 512. */
  lemma UpsertLeaves(m: Entries, c: Call, result: Option<Process>, after: Entries, id: string)
    requires Inv(m) && c.Upsert? && Step(m, c, Upserted(result), after)
    requires id in m && id != c.process.processId && id !in after
    ensures IsStale(m[id], c.pruneAt) || !m[id].process.running
    ensures !IsStale(m[id], c.pruneAt) ==> |m| >= 512 || (m[id].owner == c.owner && |Owned(m, c.owner)| == 128)
  {
    var p := RefreshElapsed(c.process, c.wall);
    UpsertKeepsInv(m, c, result, after);
    var trimmed :| UpsertVia(m, c.owner, p, c.stamp, c.pruneAt, result, after, trimmed);
    if id in trimmed {
      TrimmedThenPruned(m, c.owner, p, c.stamp, trimmed, c.pruneAt, after, id);
    } else {
      TrimForgets(m, c.owner, p, c.stamp, trimmed, id);
    }
  }

  lemma TrimForgets(m: Entries, owner: string, p: Process, stamp: Millis, trimmed: Entries, id: string)
    requires Inv(m) && Trimmed(Inserted(m, owner, p, stamp), owner, trimmed)
    requires (p.processId in m ==> m[p.processId].owner == owner) && id in m && id != p.processId && id !in trimmed
    ensures !m[id].process.running && m[id].owner == owner && |Owned(m, owner)| == 128
  {
    var ins := Inserted(m, owner, p, stamp);
    var gone := TrimmedGone(ins, owner, trimmed);
    OwnedAfterInsert(m, owner, p, stamp, owner);
    assert |Owned(m, owner)| <= MAX_RECORDS_PER_OWNER;
    assert id in gone;
    assert |gone| > 0;
  }

  lemma TrimmedThenPruned(m: Entries, owner: string, p: Process, stamp: Millis, trimmed: Entries, now: Millis,
                          after: Entries, id: string)
    requires Trimmed(Inserted(m, owner, p, stamp), owner, trimmed) && Pruned(trimmed, now, after)
    requires id in m && id != p.processId && id in trimmed && id !in after
    ensures IsStale(m[id], now) || !m[id].process.running
    ensures !IsStale(m[id], now) ==> |m| >= 512
  {
    var gone := TrimmedGone(Inserted(m, owner, p, stamp), owner, trimmed);
    PruningForgets(trimmed, now, after, id);
    var kept, all := Aged(trimmed, now).Keys, m.Keys + {p.processId};
    assert kept <= all;
    SubsetCard(kept, all);
    assert |all| <= |m.Keys| + 1;
    assert |Aged(trimmed, now)| == |kept| && |m| == |m.Keys|;
  }
}
