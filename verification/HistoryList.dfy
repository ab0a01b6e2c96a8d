/** Listing an engine's threads (`materialize`, `list_codex`, `list_threads`,
    apps/core/src/native_history.rs): a window of the newest candidates is parsed, and the
    newest threads of it are returned. */
module HistoryList {
  import opened Text

  /** `source` locates the file; `mtime` is its modification time in milliseconds. */
  datatype Candidate = Candidate(source: string, id: string, mtime: int)

  /** What parsing a transcript yields. */
  datatype Transcript = Transcript(messageCount: nat, title: string, cwd: Option<string>, gitBranch: Option<string>,
                                   sessionId: Option<string>)

  datatype Thread = Thread(id: string, title: string, cwd: Option<string>, gitBranch: Option<string>,
                           nativeSessionId: Option<string>, messageCount: nat, updatedAt: int)

  const MAX_THREADS: nat := 200
  const SCAN_LIMIT: nat := 400

  // ----- The stable sort, newest first -----

  /** Before the first element that is no newer. */
  function Insert<T>(x: T, ys: seq<T>, time: T -> int): seq<T> {
    if ys == [] || time(ys[0]) <= time(x) then [x] + ys else [ys[0]] + Insert(x, ys[1..], time)
  }

  /** `sort_by(|a, b| b.time.cmp(&a.time))`. */
  function NewestFirst<T>(xs: seq<T>, time: T -> int): seq<T> {
    if xs == [] then [] else Insert(xs[0], NewestFirst(xs[1..], time), time)
  }

  ghost predicate Descending<T>(xs: seq<T>, time: T -> int) {
    forall i, j :: 0 <= i < j < |xs| ==> time(xs[i]) >= time(xs[j])
  }

  lemma {:induction false} InsertAdds<T>(x: T, ys: seq<T>, time: T -> int)
    ensures multiset(Insert(x, ys, time)) == multiset{x} + multiset(ys)
  {
    if ys == [] || time(ys[0]) <= time(x) {
    } else {
      InsertAdds(x, ys[1..], time);
      assert ys == [ys[0]] + ys[1..];
    }
  }

  lemma {:induction false} InsertDescends<T>(x: T, ys: seq<T>, time: T -> int)
    requires Descending(ys, time)
    ensures Descending(Insert(x, ys, time), time)
    ensures Insert(x, ys, time) != []
         && time(Insert(x, ys, time)[0]) == if ys != [] && time(ys[0]) > time(x) then time(ys[0]) else time(x)
  {
    if ys != [] && time(ys[0]) > time(x) {
      InsertDescends(x, ys[1..], time);
      var rest := Insert(x, ys[1..], time);
      assert |ys| > 1 ==> time(ys[0]) >= time(ys[1]);
      assert forall j :: 0 < j < |rest| ==> time(rest[0]) >= time(rest[j]);
    }
  }

  lemma {:induction false} NewestFirstSorts<T>(xs: seq<T>, time: T -> int)
    ensures multiset(NewestFirst(xs, time)) == multiset(xs) && Descending(NewestFirst(xs, time), time)
  {
    if xs != [] {
      NewestFirstSorts(xs[1..], time);
      InsertAdds(xs[0], NewestFirst(xs[1..], time), time);
      InsertDescends(xs[0], NewestFirst(xs[1..], time), time);
      assert xs == [xs[0]] + xs[1..];
    }
  }

  lemma {:induction false} SortedIsFixed<T>(xs: seq<T>, time: T -> int)
    requires Descending(xs, time)
    ensures NewestFirst(xs, time) == xs
  {
    if xs != [] {
      SortedIsFixed(xs[1..], time);
      assert |xs| > 1 ==> time(xs[0]) >= time(xs[1]);
      assert [xs[0]] + xs[1..] == xs;
    }
  }

  // ----- The code -----

  function Take<T>(xs: seq<T>, n: nat): seq<T> {
    if |xs| <= n then xs else xs[..n]
  }

  /** `rsplit('/').next()`. */
  function LastSegment(id: string): string {
    var parts := Split(id, "/");
    parts[|parts| - 1]
  }

  /** The thread of a candidate, unless it does not parse or holds no message. */
  function ThreadOf(c: Candidate, parse: string -> Option<Transcript>): Option<Thread> {
    match parse(c.source)
    case None => None
    case Some(t) =>
      if t.messageCount == 0 then None
      else
        Some(Thread(c.id, t.title, t.cwd, t.gitBranch,
                    if t.sessionId.Some? then t.sessionId else Some(LastSegment(c.id)), t.messageCount, c.mtime))
  }

  predicate Wanted(t: Thread, cwd: Option<string>) {
    cwd.None? || t.cwd == cwd
  }

  /** What a listing makes of a candidate. */
  type Maker = Candidate -> Option<Thread>

  function Parsed(parse: string -> Option<Transcript>): Maker {
    c => ThreadOf(c, parse)
  }

  function Eligible(parse: string -> Option<Transcript>, cwd: Option<string>): Maker {
    c => var t := ThreadOf(c, parse); if t.Some? && Wanted(t.value, cwd) then t else None
  }

  function MtimeOf(c: Candidate): int {
    c.mtime
  }

  function UpdatedOf(t: Thread): int {
    t.updatedAt
  }

  function One(t: Option<Thread>): seq<Thread> {
    if t.Some? then [t.value] else []
  }

  /** The threads of some candidates, in the candidates' order. */
  function Threads(cs: seq<Candidate>, make: Maker): seq<Thread> {
    if cs == [] then [] else One(make(cs[0])) + Threads(cs[1..], make)
  }

  function Window(cs: seq<Candidate>): seq<Candidate> {
    Take(NewestFirst(cs, MtimeOf), SCAN_LIMIT)
  }

  lemma {:induction false} ThreadsConcat(a: seq<Candidate>, b: seq<Candidate>, make: Maker)
    ensures Threads(a + b, make) == Threads(a, make) + Threads(b, make)
    decreases a
  {
    if a == [] {
      NilPlus(b);
      NilPlus(Threads(b, make));
    } else {
      TailOfConcat(a, b);
      ThreadsConcat(a[1..], b, make);
      Assoc(One(make(a[0])), Threads(a[1..], make), Threads(b, make));
    }
  }

  /** `materialize`. */
  method Materialize(candidates: seq<Candidate>, parse: string -> Option<Transcript>) returns (out: seq<Thread>)
    ensures out == Threads(Window(candidates), Parsed(parse))
  {
    var window := Take(NewestFirst(candidates, MtimeOf), SCAN_LIMIT);
    out := [];
    for i := 0 to |window|
      invariant out == Threads(window[..i], Parsed(parse))
    {
      var cand := window[i];
      ThreadsConcat(window[..i], [cand], Parsed(parse));
      assert window[..i + 1] == window[..i] + [cand];
      var parsed := parse(cand.source);
      if parsed.None? || parsed.value.messageCount == 0 { continue; }
      var meta := parsed.value;
      var session := if meta.sessionId.Some? then meta.sessionId else Some(LastSegment(cand.id));
      out := out + [Thread(cand.id, meta.title, meta.cwd, meta.gitBranch, session, meta.messageCount, cand.mtime)];
    }
    assert window[..|window|] == window;
  }

  function Retained(ts: seq<Thread>, cwd: Option<string>): seq<Thread> {
    if ts == [] then [] else (if Wanted(ts[0], cwd) then [ts[0]] else []) + Retained(ts[1..], cwd)
  }

  lemma RetainedCons(t: Option<Thread>, ts: seq<Thread>, cwd: Option<string>)
    ensures Retained(One(t) + ts, cwd) == One(if t.Some? && Wanted(t.value, cwd) then t else None) + Retained(ts, cwd)
  {
    if t.Some? {
      TailOfConcat(One(t), ts);
    } else {
      NilPlus(ts);
      NilPlus(Retained(ts, cwd));
    }
  }

  lemma {:induction false} RetainedThreads(cs: seq<Candidate>, parse: string -> Option<Transcript>, cwd: Option<string>)
    ensures Retained(Threads(cs, Parsed(parse)), cwd) == Threads(cs, Eligible(parse, cwd))
    ensures cwd.None? ==> Threads(cs, Parsed(parse)) == Threads(cs, Eligible(parse, cwd))
  {
    if cs != [] {
      RetainedThreads(cs[1..], parse, cwd);
      RetainedCons(ThreadOf(cs[0], parse), Threads(cs[1..], Parsed(parse)), cwd);
    }
  }

  /** The listing a maker gives: the newest of the window. */
  function Listed(cs: seq<Candidate>, make: Maker): seq<Thread> {
    Take(NewestFirst(Threads(Window(cs), make), UpdatedOf), MAX_THREADS)
  }

  /** `list_threads` over `list_codex`: the working-directory filter comes after the
      window. */
  method ListThreads(candidates: seq<Candidate>, parse: string -> Option<Transcript>, cwd: Option<string>)
    returns (threads: seq<Thread>)
    ensures threads == Listed(candidates, Eligible(parse, cwd))
  {
    threads := Materialize(candidates, parse);
    RetainedThreads(Window(candidates), parse, cwd);
    if cwd.Some? { threads := Retained(threads, cwd); }
    threads := Take(NewestFirst(threads, UpdatedOf), MAX_THREADS);
  }

  // ----- What is listed -----

  /** A thread carries its file's modification time. */
  ghost predicate Stamps(make: Maker) {
    forall c :: make(c).Some? ==> make(c).value.updatedAt == c.mtime
  }

  /** What follows the last slash, or all of the text. */
  ghost predicate IsStem(stem: string, id: string) {
    |stem| <= |id| && id[|id| - |stem|..] == stem && '/' !in stem && (|stem| < |id| ==> id[|id| - |stem| - 1] == '/')
  }

  /** A text is its only piece exactly when it has no slash. */
  lemma {:induction false} OnePieceIff(s: string)
    ensures |Split(s, "/")| == 1 <==> '/' !in s
    ensures |Split(s, "/")| == 1 ==> Split(s, "/")[0] == s
  {
    if s != [] {
      OnePieceIff(s[1..]);
      SplitFirst(s);
      assert '/' in s <==> s[0] == '/' || '/' in s[1..];
    }
  }

  lemma SplitFirst(s: string)
    requires s != []
    ensures var rest := Split(s[1..], "/");
            Split(s, "/") == if s[0] == '/' then [[]] + rest else [[s[0]] + rest[0]] + rest[1..]
  {
    var sep := "/";
    assert sep <= s <==> s[0] == '/';
  }

  lemma StemOfTail(stem: string, id: string)
    requires id != [] && IsStem(stem, id[1..]) && (|stem| < |id| - 1 || id[0] == '/')
    ensures IsStem(stem, id)
  {
    assert id[1..][|id| - 1 - |stem|..] == id[|id| - |stem|..];
  }

  lemma SegmentOfTail(id: string)
    requires id != [] && (id[0] == '/' || '/' in id[1..])
    ensures LastSegment(id) == LastSegment(id[1..])
  {
    SplitFirst(id);
    OnePieceIff(id[1..]);
  }

  lemma WholeStem(stem: string, s: string)
    requires IsStem(stem, s)
    ensures |stem| == |s| ==> '/' !in s
  {
    assert |stem| == |s| ==> s[0..] == s;
  }

  lemma {:induction false} LastPiece(id: string)
    ensures IsStem(LastSegment(id), id)
  {
    if id != [] && (id[0] == '/' || '/' in id[1..]) {
      LastPiece(id[1..]);
      SegmentOfTail(id);
      WholeStem(LastSegment(id[1..]), id[1..]);
      StemOfTail(LastSegment(id[1..]), id);
    } else {
      OnePieceIff(id);
    }
  }

  /** The thread says what the transcript says, under the candidate's id and time, and can
      be resumed by the recorded session id or, without one, by the file's stem. */
  ghost predicate Tells(t: Thread, of: Transcript, c: Candidate) {
    && t.id == c.id && t.updatedAt == c.mtime
    && t.title == of.title && t.cwd == of.cwd && t.gitBranch == of.gitBranch && t.messageCount == of.messageCount
    && (of.sessionId.Some? ==> t.nativeSessionId == of.sessionId)
    && (of.sessionId.None? ==> exists stem :: IsStem(stem, c.id) && t.nativeSessionId == Some(stem))
  }

  lemma ThreadTells(c: Candidate, parse: string -> Option<Transcript>, t: Thread, of: Transcript)
    requires ThreadOf(c, parse) == Some(t) && parse(c.source) == Some(of)
    ensures Tells(t, of, c)
  {
    if of.sessionId.None? {
      var stem := LastSegment(c.id);
      LastPiece(c.id);
      assert t.nativeSessionId == Some(stem);
    }
  }

  /** A candidate is eligible exactly when its file parses, holds a message and was recorded
      in the directory asked for; its thread then tells the transcript. */
  lemma EligibleIff(parse: string -> Option<Transcript>, cwd: Option<string>, c: Candidate)
    ensures var t, of := Eligible(parse, cwd)(c), parse(c.source);
            && (t.Some? <==> of.Some? && of.value.messageCount > 0 && (cwd.Some? ==> of.value.cwd == cwd))
            && (t.Some? ==> Tells(t.value, of.value, c))
  {
    if Eligible(parse, cwd)(c).Some? { ThreadTells(c, parse, ThreadOf(c, parse).value, parse(c.source).value); }
  }

  /** An eligible candidate's thread keeps its id and time, holds messages, passes the
      filter and can be resumed: without a recorded session id the file's stem stands in. */
  lemma EligibleStamps(parse: string -> Option<Transcript>, cwd: Option<string>)
    ensures Stamps(Eligible(parse, cwd))
    ensures forall c :: Eligible(parse, cwd)(c).Some? ==>
              var t := Eligible(parse, cwd)(c).value;
              t.id == c.id && t.messageCount > 0 && (cwd.Some? ==> t.cwd == cwd) && t.nativeSessionId.Some?
              && (parse(c.source).value.sessionId.None? ==> t.nativeSessionId == Some(LastSegment(c.id)))
  {
  }

  lemma {:induction false} ThreadsMeans(cs: seq<Candidate>, make: Maker, t: Thread)
    ensures t in Threads(cs, make) <==> exists c :: c in cs && make(c) == Some(t)
  {
    if cs != [] {
      ThreadsMeans(cs[1..], make, t);
      assert forall c :: c in cs <==> c == cs[0] || c in cs[1..];
      assert t in Threads(cs, make) <==> make(cs[0]) == Some(t) || t in Threads(cs[1..], make);
    }
  }

  lemma MemberIsNoNewer(cs: seq<Candidate>, c: Candidate)
    requires Descending(cs, MtimeOf) && c in cs
    ensures cs[0].mtime >= c.mtime
  {
    var i :| 0 <= i < |cs| && cs[i] == c;
    assert i > 0 ==> MtimeOf(cs[0]) >= MtimeOf(cs[i]);
  }

  lemma ThreadIsNoNewer(cs: seq<Candidate>, make: Maker, t: Thread)
    requires Descending(cs, MtimeOf) && Stamps(make) && t in Threads(cs, make)
    ensures cs != [] && cs[0].mtime >= t.updatedAt
  {
    ThreadsMeans(cs, make, t);
    var c :| c in cs && make(c) == Some(t);
    MemberIsNoNewer(cs, c);
  }

  lemma {:induction false} ThreadsDescend(cs: seq<Candidate>, make: Maker)
    requires Descending(cs, MtimeOf) && Stamps(make)
    ensures Descending(Threads(cs, make), UpdatedOf)
  {
    if cs != [] {
      ThreadsDescend(cs[1..], make);
      if make(cs[0]).Some? {
        var rest := Threads(cs[1..], make);
        forall t | t in rest ensures cs[0].mtime >= t.updatedAt {
          ThreadIsNoNewer(cs[1..], make, t);
          MemberIsNoNewer(cs, cs[1]);
        }
        assert forall j :: 0 <= j < |rest| ==> rest[j] in rest;
      }
    }
  }

  /** The window is sorted, so the final sort changes nothing. */
  lemma ListedIsWindow(cs: seq<Candidate>, make: Maker)
    requires Stamps(make)
    ensures Listed(cs, make) == Take(Threads(Window(cs), make), MAX_THREADS)
    ensures Descending(Window(cs), MtimeOf) && Descending(Threads(Window(cs), make), UpdatedOf)
  {
    NewestFirstSorts(cs, MtimeOf);
    ThreadsDescend(Window(cs), make);
    SortedIsFixed(Threads(Window(cs), make), UpdatedOf);
  }

  lemma SortedMembers(cs: seq<Candidate>, c: Candidate)
    ensures c in NewestFirst(cs, MtimeOf) <==> c in cs
  {
    NewestFirstSorts(cs, MtimeOf);
    assert c in multiset(cs) <==> c in cs;
    assert c in multiset(NewestFirst(cs, MtimeOf)) <==> c in NewestFirst(cs, MtimeOf);
  }

  /** The list is newest first, at most 200 long, and every thread in it is that of an
      eligible candidate among the newest 400. */
  lemma ListedIsSound(cs: seq<Candidate>, make: Maker)
    requires Stamps(make)
    ensures |Listed(cs, make)| <= 200 && Descending(Listed(cs, make), UpdatedOf) && |Window(cs)| <= 400
    ensures forall t :: t in Listed(cs, make) ==> exists c :: c in cs && c in Window(cs) && make(c) == Some(t)
  {
    ListedIsWindow(cs, make);
    forall t | t in Listed(cs, make) ensures exists c :: c in cs && c in Window(cs) && make(c) == Some(t) {
      ThreadsMeans(Window(cs), make, t);
      var c :| c in Window(cs) && make(c) == Some(t);
      SortedMembers(cs, c);
    }
  }

  /** What taking leaves out comes after everything it takes. */
  lemma LeftOut<T>(xs: seq<T>, n: nat, x: T, time: T -> int)
    requires Descending(xs, time) && x in xs && x !in Take(xs, n)
    ensures forall y :: y in Take(xs, n) ==> time(y) >= time(x)
  {
    var k :| 0 <= k < |xs| && xs[k] == x;
    assert forall i :: 0 <= i < |Take(xs, n)| ==> xs[i] == Take(xs, n)[i] && xs[i] in Take(xs, n);
    forall y | y in Take(xs, n) ensures time(y) >= time(x) {
      var i :| 0 <= i < |Take(xs, n)| && Take(xs, n)[i] == y;
      assert time(xs[i]) >= time(xs[k]);
    }
  }

  /** Every eligible candidate whose thread is missing, in the window or outside it and
      with a filter or without, is no newer than any thread that is listed. */
  lemma OmittedIsNoNewer(cs: seq<Candidate>, make: Maker, c: Candidate)
    requires Stamps(make) && c in cs && make(c).Some? && make(c).value !in Listed(cs, make)
    ensures forall s :: s in Listed(cs, make) ==> s.updatedAt >= c.mtime
  {
    var t := make(c).value;
    ListedIsWindow(cs, make);
    ThreadsMeans(Window(cs), make, t);
    if c in Window(cs) {
      LeftOut(Threads(Window(cs), make), MAX_THREADS, t, UpdatedOf);
    } else {
      NewestFirstSorts(cs, MtimeOf);
      SortedMembers(cs, c);
      LeftOut(NewestFirst(cs, MtimeOf), SCAN_LIMIT, c, MtimeOf);
      ListedIsSound(cs, make);
    }
  }

  // ----- When the window costs nothing -----

  /** The newest 200 of all eligible threads: what a listing without a window would be. */
  function Unbounded(cs: seq<Candidate>, make: Maker): seq<Thread> {
    Take(NewestFirst(Threads(cs, make), UpdatedOf), MAX_THREADS)
  }

  lemma InsertBefore(t: Thread, ts: seq<Thread>)
    requires ts != [] ==> ts[0].updatedAt <= t.updatedAt
    ensures Insert(t, ts, UpdatedOf) == [t] + ts
  {
  }

  lemma InsertAfter(t: Thread, newer: Option<Thread>, ts: seq<Thread>)
    requires newer.Some? ==> newer.value.updatedAt > t.updatedAt
    ensures Insert(t, One(newer) + ts, UpdatedOf) == One(newer) + Insert(t, ts, UpdatedOf)
  {
    if newer.Some? {
      TailOfConcat(One(newer), ts);
    } else {
      NilPlus(ts);
      NilPlus(Insert(t, ts, UpdatedOf));
    }
  }

  lemma ThreadsCons(c: Candidate, cs: seq<Candidate>, make: Maker)
    ensures Threads([c] + cs, make) == One(make(c)) + Threads(cs, make)
  {
    TailOfConcat([c], cs);
  }

  lemma {:induction false} ThreadsOfInsert(c: Candidate, ys: seq<Candidate>, make: Maker)
    requires Descending(ys, MtimeOf) && Stamps(make)
    ensures Threads(Insert(c, ys, MtimeOf), make)
         == if make(c).Some? then Insert(make(c).value, Threads(ys, make), UpdatedOf) else Threads(ys, make)
  {
    var ts := Threads(ys, make);
    if ys == [] || ys[0].mtime <= c.mtime {
      ThreadsCons(c, ys, make);
      NilPlus(ts);
      if ts != [] { ThreadIsNoNewer(ys, make, ts[0]); }
      if make(c).Some? { InsertBefore(make(c).value, ts); }
    } else {
      ThreadsCons(ys[0], Insert(c, ys[1..], MtimeOf), make);
      ThreadsOfInsert(c, ys[1..], make);
      if make(c).Some? { InsertAfter(make(c).value, make(ys[0]), Threads(ys[1..], make)); }
    }
  }

  lemma SortCons(t: Option<Thread>, ts: seq<Thread>)
    ensures NewestFirst(One(t) + ts, UpdatedOf)
         == if t.Some? then Insert(t.value, NewestFirst(ts, UpdatedOf), UpdatedOf) else NewestFirst(ts, UpdatedOf)
  {
    if t.Some? { TailOfConcat(One(t), ts); } else { NilPlus(ts); }
  }

  /** Parsing and filtering commute with the stable sort. */
  lemma {:induction false} SortThenParse(cs: seq<Candidate>, make: Maker)
    requires Stamps(make)
    ensures Threads(NewestFirst(cs, MtimeOf), make) == NewestFirst(Threads(cs, make), UpdatedOf)
  {
    if cs != [] {
      SortThenParse(cs[1..], make);
      NewestFirstSorts(cs[1..], MtimeOf);
      ThreadsOfInsert(cs[0], NewestFirst(cs[1..], MtimeOf), make);
      SortCons(make(cs[0]), Threads(cs[1..], make));
    }
  }

  lemma SortedLength<T>(xs: seq<T>, time: T -> int)
    ensures |NewestFirst(xs, time)| == |xs|
  {
    NewestFirstSorts(xs, time);
    assert |multiset(NewestFirst(xs, time))| == |multiset(xs)|;
  }

  lemma FirstOfBoth(a: seq<Thread>, b: seq<Thread>)
    ensures Take(a, MAX_THREADS) == Take(a + b, MAX_THREADS) <==> |a| >= MAX_THREADS || |a| == |a + b|
  {
    if |a| >= MAX_THREADS {
      assert Take(a, MAX_THREADS) == Take(a + b, MAX_THREADS);
    } else if b == [] {
      NilPlus(a);
    } else {
      assert |Take(a, MAX_THREADS)| < |Take(a + b, MAX_THREADS)|;
    }
  }

  /** The window costs nothing exactly when it already holds 200 eligible candidates or all
      of them: otherwise the list is short although eligible threads exist. */
  lemma WindowIsEnoughIff(cs: seq<Candidate>, make: Maker)
    requires Stamps(make)
    ensures Listed(cs, make) == Unbounded(cs, make) <==>
            |Threads(Window(cs), make)| >= 200 || |Threads(Window(cs), make)| == |Threads(cs, make)|
    ensures |cs| <= 400 ==> Listed(cs, make) == Unbounded(cs, make)
  {
    var sorted := NewestFirst(cs, MtimeOf);
    var rest := sorted[|Window(cs)|..];
    assert sorted == Window(cs) + rest;
    ListedIsWindow(cs, make);
    SortThenParse(cs, make);
    ThreadsConcat(Window(cs), rest, make);
    SortedLength(cs, MtimeOf);
    SortedLength(Threads(cs, make), UpdatedOf);
    FirstOfBoth(Threads(Window(cs), make), Threads(rest, make));
  }

  lemma OldestIsLast(cs: seq<Candidate>, c: Candidate)
    requires forall d :: d in cs ==> d.mtime > c.mtime
    ensures var sorted := NewestFirst(cs + [c], MtimeOf);
            |sorted| == |cs| + 1 && forall k :: 0 <= k < |cs| ==> sorted[k] in cs
  {
    var all := cs + [c];
    var sorted := NewestFirst(all, MtimeOf);
    NewestFirstSorts(all, MtimeOf);
    assert |multiset(sorted)| == |multiset(all)|;
    var last := sorted[|cs|];
    SortedMembers(all, last);
    forall k | 0 <= k < |cs| ensures sorted[k] in cs {
      SortedMembers(all, sorted[k]);
      assert MtimeOf(sorted[k]) >= MtimeOf(last);
      assert multiset(all)[c] == 1 by { assert c !in cs; }
      AtMostOnce(sorted, c, k, |cs|);
    }
  }

  lemma AtMostOnce(xs: seq<Candidate>, c: Candidate, i: nat, j: nat)
    requires i < j < |xs| && multiset(xs)[c] == 1
    ensures xs[i] != c || xs[j] != c
  {
    if xs[i] == xs[j] { TwiceIsTwo(xs, i, j); }
  }

  lemma TwiceIsTwo(xs: seq<Candidate>, i: nat, j: nat)
    requires i < j < |xs| && xs[i] == xs[j]
    ensures multiset(xs)[xs[i]] >= 2
  {
    assert xs == xs[..j] + xs[j..];
    assert xs[..j][i] == xs[i] && xs[i] in xs[..j] && xs[j..][0] == xs[j] && xs[j] in xs[j..];
  }

  lemma HasFirst(ts: seq<Thread>)
    ensures ts != [] ==> ts[0] in ts
  {
  }

  /** The window can starve the list: 400 newer files that are not eligible hide the one
      thread that is. */
  lemma WindowHidesAThread(cs: seq<Candidate>, c: Candidate, make: Maker)
    requires |cs| >= SCAN_LIMIT && (forall d :: d in cs ==> d.mtime > c.mtime && make(d).None?) && make(c).Some?
    ensures Listed(cs + [c], make) == [] && make(c).value in Threads(cs + [c], make)
  {
    var window := Window(cs + [c]);
    OldestIsLast(cs, c);
    forall t ensures t !in Threads(window, make) {
      ThreadsMeans(window, make, t);
      forall d | d in window ensures d in cs {
        var k :| 0 <= k < |window| && window[k] == d;
      }
    }
    HasFirst(Threads(window, make));
    assert c in cs + [c] by { assert (cs + [c])[|cs|] == c; }
    ThreadsMeans(cs + [c], make, make(c).value);
  }
}
