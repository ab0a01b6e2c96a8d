/** The Codex session walk (`codex_rollout_files`, apps/core/src/native_history.rs): an
    explicit stack, a depth cap and no descent through links, over any directory graph,
    cyclic ones included. */
module HistoryWalk {
  import opened Text

  type DirId = nat
  type Path = seq<string>

  /** `Link` also stands for an entry that cannot be inspected; `Other` is anything that is
      neither link nor directory. */
  datatype Kind = Link | Directory(id: DirId) | Other

  datatype Entry = Entry(name: string, kind: Kind)

  /** Each directory's sorted entries.  A directory that is not there reads as empty. */
  type Graph = map<DirId, seq<Entry>>

  const MAX_DEPTH: nat := 8

  function Entries(g: Graph, id: DirId): seq<Entry> {
    if id in g then g[id] else []
  }

  const PREFIX := "rollout-"
  const SUFFIX := ".jsonl"

  predicate IsRollout(name: string) {
    PREFIX <= name && |name| >= |SUFFIX| && name[|name| - |SUFFIX|..] == SUFFIX
  }

  /** `rollout-*.jsonl`. */
  lemma RolloutNames(name: string)
    ensures IsRollout(name) <==> exists middle :: name == "rollout-" + (middle + ".jsonl")
  {
    var p, s := PREFIX, SUFFIX;
    if IsRollout(name) {
      assert name[|name| - 1] == s[5] == 'l' && name[|name| - 6] == s[0] == '.';
      assert forall k :: 0 <= k < 8 ==> name[k] == p[k] && p[k] != '.';
      assert |name| >= 14;
      var middle := name[8..|name| - 6];
      assert name == p + (middle + s);
    }
    if middle :| name == "rollout-" + (middle + ".jsonl") {
      assert name == p + (middle + s);
    }
  }

  // ----- What the walk is -----

  function FilesIn(dir: Path, es: seq<Entry>): seq<Path> {
    if es == [] then []
    else (if es[0].kind.Other? && IsRollout(es[0].name) then [dir + [es[0].name]] else []) + FilesIn(dir, es[1..])
  }

  /** A directory's own files, then its subdirectories from last to first. */
  function Walk(g: Graph, dir: Path, id: DirId, depth: nat): seq<Path>
    requires depth <= MAX_DEPTH
    decreases MAX_DEPTH - depth, 0, 0
  {
    var es := Entries(g, id);
    FilesIn(dir, es) + (if depth < MAX_DEPTH then WalkBack(g, dir, es, depth) else [])
  }

  function WalkBack(g: Graph, dir: Path, es: seq<Entry>, depth: nat): seq<Path>
    requires depth < MAX_DEPTH
    decreases MAX_DEPTH - depth - 1, 1, |es|
  {
    if es == [] then []
    else
      var last := es[|es| - 1];
      (if last.kind.Directory? then Walk(g, dir + [last.name], last.kind.id, depth + 1) else [])
      + WalkBack(g, dir, es[..|es| - 1], depth)
  }

  // ----- The stack refines it -----

  datatype Frame = Frame(dir: Path, id: DirId, depth: nat)

  ghost predicate Shallow(stack: seq<Frame>) {
    forall f :: f in stack ==> f.depth <= MAX_DEPTH
  }

  /** The frames that scanning a directory pushes, in order. */
  function Pushed(dir: Path, es: seq<Entry>, depth: nat): seq<Frame> {
    if es == [] || depth >= MAX_DEPTH then []
    else
      var last := es[|es| - 1];
      Pushed(dir, es[..|es| - 1], depth)
          + (if last.kind.Directory? then [Frame(dir + [last.name], last.kind.id, depth + 1)] else [])
  }

  function WalkStack(g: Graph, stack: seq<Frame>): seq<Path>
    requires Shallow(stack)
    decreases stack
  {
    if stack == [] then []
    else
      var top := stack[|stack| - 1];
      assert top in stack && forall f :: f in stack[..|stack| - 1] ==> f in stack;
      Walk(g, top.dir, top.id, top.depth) + WalkStack(g, stack[..|stack| - 1])
  }

  /** How many directories a frame still stands for: the measure that the loop decreases. */
  function Weight(g: Graph, id: DirId, depth: nat): nat
    requires depth <= MAX_DEPTH
    decreases MAX_DEPTH - depth, 0, 0
  {
    1 + if depth < MAX_DEPTH then WeightOf(g, Entries(g, id), depth) else 0
  }

  function WeightOf(g: Graph, es: seq<Entry>, depth: nat): nat
    requires depth < MAX_DEPTH
    decreases MAX_DEPTH - depth - 1, 1, |es|
  {
    if es == [] then 0
    else
      var last := es[|es| - 1];
      WeightOf(g, es[..|es| - 1], depth) + if last.kind.Directory? then Weight(g, last.kind.id, depth + 1) else 0
  }

  function Work(g: Graph, stack: seq<Frame>): nat
    requires Shallow(stack)
    decreases stack
  {
    if stack == [] then 0
    else
      var top := stack[|stack| - 1];
      assert top in stack && forall f :: f in stack[..|stack| - 1] ==> f in stack;
      Weight(g, top.id, top.depth) + Work(g, stack[..|stack| - 1])
  }

  lemma PushOne(g: Graph, stack: seq<Frame>, f: Frame)
    requires Shallow(stack) && f.depth <= MAX_DEPTH
    ensures Shallow(stack + [f])
    ensures WalkStack(g, stack + [f]) == Walk(g, f.dir, f.id, f.depth) + WalkStack(g, stack)
    ensures Work(g, stack + [f]) == Weight(g, f.id, f.depth) + Work(g, stack)
  {
    assert (stack + [f])[..|stack|] == stack;
  }

  lemma {:induction false} PushAll(g: Graph, stack: seq<Frame>, dir: Path, es: seq<Entry>, depth: nat)
    requires Shallow(stack) && depth < MAX_DEPTH
    ensures Shallow(stack + Pushed(dir, es, depth))
    ensures WalkStack(g, stack + Pushed(dir, es, depth)) == WalkBack(g, dir, es, depth) + WalkStack(g, stack)
    ensures Work(g, stack + Pushed(dir, es, depth)) == WeightOf(g, es, depth) + Work(g, stack)
    decreases |es|
  {
    if es == [] {
      NilPlus(stack);
      NilPlus(WalkStack(g, stack));
    } else {
      var last := es[|es| - 1];
      var fewer := Pushed(dir, es[..|es| - 1], depth);
      PushAll(g, stack, dir, es[..|es| - 1], depth);
      if last.kind.Directory? {
        var f := Frame(dir + [last.name], last.kind.id, depth + 1);
        Assoc(stack, fewer, [f]);
        PushOne(g, stack + fewer, f);
        Assoc(Walk(g, f.dir, f.id, f.depth), WalkBack(g, dir, es[..|es| - 1], depth), WalkStack(g, stack));
      } else {
        NilPlus(fewer);
        NilPlus(WalkBack(g, dir, es[..|es| - 1], depth));
      }
    }
  }

  /** Scanning the popped directory trades its walk for its files and what it pushed. */
  lemma ScanStep(g: Graph, stack: seq<Frame>, out: seq<Path>)
    requires stack != [] && Shallow(stack)
    ensures var f := stack[|stack| - 1];
            var next := stack[..|stack| - 1] + Pushed(f.dir, Entries(g, f.id), f.depth);
            Shallow(next)
            && out + FilesIn(f.dir, Entries(g, f.id)) + WalkStack(g, next) == out + WalkStack(g, stack)
            && Work(g, next) < Work(g, stack)
  {
    var f, rest := stack[|stack| - 1], stack[..|stack| - 1];
    assert f in stack && forall x :: x in rest ==> x in stack;
    var es := Entries(g, f.id);
    var files := FilesIn(f.dir, es);
    if f.depth < MAX_DEPTH {
      PushAll(g, rest, f.dir, es, f.depth);
      Assoc(files, WalkBack(g, f.dir, es, f.depth), WalkStack(g, rest));
    } else {
      NilPlus(rest);
      NilPlus(files);
    }
    Assoc(out, files, WalkStack(g, rest + Pushed(f.dir, es, f.depth)));
  }

  lemma {:induction false} FilesInSnoc(dir: Path, es: seq<Entry>, e: Entry)
    ensures FilesIn(dir, es + [e])
         == FilesIn(dir, es) + (if e.kind.Other? && IsRollout(e.name) then [dir + [e.name]] else [])
  {
    if es == [] {
    } else {
      TailOfConcat(es, [e]);
      FilesInSnoc(dir, es[1..], e);
    }
  }

  /** The inner loop: `read_dir_sorted(&dir)`. */
  method Scan(g: Graph, f: Frame, stack: seq<Frame>, out: seq<Path>) returns (stack': seq<Frame>, out': seq<Path>)
    ensures stack' == stack + Pushed(f.dir, Entries(g, f.id), f.depth)
    ensures out' == out + FilesIn(f.dir, Entries(g, f.id))
  {
    var es := Entries(g, f.id);
    stack', out' := stack, out;
    for i := 0 to |es|
      invariant stack' == stack + Pushed(f.dir, es[..i], f.depth)
      invariant out' == out + FilesIn(f.dir, es[..i])
    {
      var entry := es[i];
      assert es[..i + 1] == es[..i] + [entry];
      FilesInSnoc(f.dir, es[..i], entry);
      if entry.kind.Link? { continue; }
      if entry.kind.Directory? {
        if f.depth < MAX_DEPTH {
          stack' := stack' + [Frame(f.dir + [entry.name], entry.kind.id, f.depth + 1)];
        }
      } else if IsRollout(entry.name) {
        out' := out' + [f.dir + [entry.name]];
      }
    }
    assert es[..|es|] == es;
  }

  /** `codex_rollout_files`: terminates on every graph, and yields the walk. */
  method CodexRolloutFiles(g: Graph, root: DirId) returns (out: seq<Path>)
    ensures out == Walk(g, [], root, 0)
  {
    out := [];
    var stack := [Frame([], root, 0)];
    PushOne(g, [], Frame([], root, 0));
    NilPlus(Walk(g, [], root, 0));
    while stack != []
      invariant Shallow(stack)
      invariant out + WalkStack(g, stack) == Walk(g, [], root, 0)
      decreases Work(g, stack)
    {
      ScanStep(g, stack, out);
      stack, out := Scan(g, stack[|stack| - 1], stack[..|stack| - 1], out);
    }
    NilPlus(out);
  }

  // ----- What the walk finds -----

  /** A rollout file at a path below a directory, through real directories only. */
  ghost predicate IsRolloutAt(g: Graph, id: DirId, q: Path)
    decreases |q|, 1
  {
    q != [] && exists i :: 0 <= i < |Entries(g, id)| && Leads(g, Entries(g, id)[i], q)
  }

  ghost predicate Leads(g: Graph, e: Entry, q: Path)
    requires q != []
    decreases |q|, 0
  {
    e.name == q[0]
    && if |q| == 1 then e.kind.Other? && IsRollout(e.name) else e.kind.Directory? && IsRolloutAt(g, e.kind.id, q[1..])
  }

  lemma {:induction false} FilesInMeans(dir: Path, es: seq<Entry>, p: Path)
    ensures p in FilesIn(dir, es) <==>
            exists i :: 0 <= i < |es| && p == dir + [es[i].name] && es[i].kind.Other? && IsRollout(es[i].name)
  {
    if es != [] {
      FilesInMeans(dir, es[1..], p);
      if i :| 0 <= i < |es| && p == dir + [es[i].name] && es[i].kind.Other? && IsRollout(es[i].name) {
        if i > 0 { assert es[1..][i - 1] == es[i]; }
      }
    }
  }

  /** The walk below a directory, entry by entry. */
  ghost predicate Descends(g: Graph, dir: Path, e: Entry, depth: nat, p: Path)
    requires depth < MAX_DEPTH
  {
    e.kind.Directory? && p in Walk(g, dir + [e.name], e.kind.id, depth + 1)
  }

  lemma {:induction false} WalkBackMeans(g: Graph, dir: Path, es: seq<Entry>, depth: nat, p: Path)
    requires depth < MAX_DEPTH
    ensures p in WalkBack(g, dir, es, depth) <==> exists i :: 0 <= i < |es| && Descends(g, dir, es[i], depth, p)
    decreases |es|
  {
    if es != [] {
      var n := |es| - 1;
      WalkBackMeans(g, dir, es[..n], depth, p);
      assert forall i :: 0 <= i < n ==> es[..n][i] == es[i];
      assert p in WalkBack(g, dir, es, depth) <==>
          Descends(g, dir, es[n], depth, p) || p in WalkBack(g, dir, es[..n], depth);
    }
  }

  lemma {:induction false} WalkIsBelow(g: Graph, dir: Path, id: DirId, depth: nat, p: Path)
    requires depth <= MAX_DEPTH && p in Walk(g, dir, id, depth)
    ensures dir < p
    decreases MAX_DEPTH - depth
  {
    var es := Entries(g, id);
    FilesInMeans(dir, es, p);
    if p !in FilesIn(dir, es) {
      WalkBackMeans(g, dir, es, depth, p);
      var i :| 0 <= i < |es| && Descends(g, dir, es[i], depth, p);
      WalkIsBelow(g, dir + [es[i].name], es[i].kind.id, depth + 1, p);
      assert p[..|dir|] == p[..|dir| + 1][..|dir|];
    }
  }

  /** The walk finds a file exactly when it is a `rollout-*.jsonl` that at most the
      remaining number of directory descents, none through a link, lead to. */
  lemma {:induction false} WalkMeans(g: Graph, dir: Path, id: DirId, depth: nat, q: Path)
    requires depth <= MAX_DEPTH
    ensures dir + q in Walk(g, dir, id, depth) <==> IsRolloutAt(g, id, q) && |q| - 1 <= MAX_DEPTH - depth
    decreases MAX_DEPTH - depth
  {
    var es := Entries(g, id);
    var p := dir + q;
    if p in Walk(g, dir, id, depth) { WalkIsBelow(g, dir, id, depth, p); }
    if q != [] {
      FilesInMeans(dir, es, p);
      if depth < MAX_DEPTH { WalkBackMeans(g, dir, es, depth, p); }
      forall i | 0 <= i < |es|
        ensures |q| == 1 ==> (p == dir + [es[i].name] <==> es[i].name == q[0])
        ensures |q| > 1 ==> p != dir + [es[i].name]
        ensures depth < MAX_DEPTH ==> (Descends(g, dir, es[i], depth, p) <==>
                  |q| > 1 && |q| - 1 <= MAX_DEPTH - depth && Leads(g, es[i], q))
      {
        assert p[|dir|] == q[0];
        assert (dir + [es[i].name])[|dir|] == es[i].name;
        if depth < MAX_DEPTH { DescendMeans(g, dir, es[i], depth, q); }
        assert |q| == 1 ==> q == [q[0]];
      }
      WalkCases(g, dir, id, depth, q);
    }
  }

  lemma DescendMeans(g: Graph, dir: Path, e: Entry, depth: nat, q: Path)
    requires depth < MAX_DEPTH && q != []
    ensures Descends(g, dir, e, depth, dir + q) <==> |q| > 1 && |q| - 1 <= MAX_DEPTH - depth && Leads(g, e, q)
    decreases MAX_DEPTH - depth, 0
  {
    var sub := dir + [e.name];
    if Descends(g, dir, e, depth, dir + q) {
      WalkIsBelow(g, sub, e.kind.id, depth + 1, dir + q);
      assert (dir + q)[..|sub|][|dir|] == q[0];
      assert sub[|dir|] == e.name;
    }
    if e.name == q[0] && e.kind.Directory? {
      assert dir + q == sub + q[1..];
      WalkMeans(g, sub, e.kind.id, depth + 1, q[1..]);
    }
  }

  lemma WalkCases(g: Graph, dir: Path, id: DirId, depth: nat, q: Path)
    requires depth <= MAX_DEPTH && q != []
    requires forall i :: 0 <= i < |Entries(g, id)| ==>
               (|q| == 1 ==> (dir + q == dir + [Entries(g, id)[i].name] <==> Entries(g, id)[i].name == q[0]))
               && (|q| > 1 ==> dir + q != dir + [Entries(g, id)[i].name])
               && (depth < MAX_DEPTH ==> (Descends(g, dir, Entries(g, id)[i], depth, dir + q) <==>
                     |q| > 1 && |q| - 1 <= MAX_DEPTH - depth && Leads(g, Entries(g, id)[i], q)))
    ensures dir + q in Walk(g, dir, id, depth) <==> IsRolloutAt(g, id, q) && |q| - 1 <= MAX_DEPTH - depth
  {
    var es := Entries(g, id);
    FilesInMeans(dir, es, dir + q);
    if depth < MAX_DEPTH { WalkBackMeans(g, dir, es, depth, dir + q); }
    assert dir + q in Walk(g, dir, id, depth) <==>
           dir + q in FilesIn(dir, es) || (depth < MAX_DEPTH && dir + q in WalkBack(g, dir, es, depth));
  }

  /** At the root: every rollout file that at most eight descents lead to, and no other. */
  lemma RolloutFilesAreExact(g: Graph, root: DirId, q: Path)
    ensures q in Walk(g, [], root, 0) <==> IsRolloutAt(g, root, q) && |q| - 1 <= 8
  {
    NilPlus(q);
    WalkMeans(g, [], root, 0, q);
  }

  // ----- Each once -----

  ghost predicate Distinct<T>(xs: seq<T>) {
    forall i, j :: 0 <= i < j < |xs| ==> xs[i] != xs[j]
  }

  ghost predicate DistinctNames(es: seq<Entry>) {
    forall i, j :: 0 <= i < j < |es| ==> es[i].name != es[j].name
  }

  ghost predicate NamesAreDistinct(g: Graph) {
    forall id :: id in g ==> DistinctNames(g[id])
  }

  lemma DistinctConcat<T>(a: seq<T>, b: seq<T>)
    requires Distinct(a) && Distinct(b) && forall x :: x in a ==> x !in b
    ensures Distinct(a + b)
  {
    forall i, j | 0 <= i < |a| && 0 <= j < |b| ensures a[i] != b[j] { assert a[i] in a && b[j] in b; }
  }

  lemma {:induction false} FilesAreDistinct(dir: Path, es: seq<Entry>)
    requires DistinctNames(es)
    ensures Distinct(FilesIn(dir, es))
  {
    if es != [] {
      FilesAreDistinct(dir, es[1..]);
      var here := if es[0].kind.Other? && IsRollout(es[0].name) then [dir + [es[0].name]] else [];
      forall p | p in here ensures p !in FilesIn(dir, es[1..]) {
        FilesInMeans(dir, es[1..], p);
        forall i | 0 <= i < |es[1..]| ensures p != dir + [es[1..][i].name] {
          assert es[1..][i] == es[i + 1];
          assert p[|dir|] == es[0].name && (dir + [es[i + 1].name])[|dir|] == es[i + 1].name;
        }
      }
      DistinctConcat(here, FilesIn(dir, es[1..]));
    }
  }

  lemma NameOfDescent(g: Graph, dir: Path, e: Entry, depth: nat, p: Path)
    requires depth < MAX_DEPTH && Descends(g, dir, e, depth, p)
    ensures |p| > |dir| + 1 && p[|dir|] == e.name
  {
    WalkIsBelow(g, dir + [e.name], e.kind.id, depth + 1, p);
    assert p[..|dir| + 1][|dir|] == e.name;
  }

  lemma LastIsApart(g: Graph, dir: Path, es: seq<Entry>, depth: nat, p: Path)
    requires depth < MAX_DEPTH && DistinctNames(es) && es != [] && Descends(g, dir, es[|es| - 1], depth, p)
    ensures p !in WalkBack(g, dir, es[..|es| - 1], depth)
  {
    var n := |es| - 1;
    NameOfDescent(g, dir, es[n], depth, p);
    WalkBackMeans(g, dir, es[..n], depth, p);
    forall i | 0 <= i < n ensures !Descends(g, dir, es[..n][i], depth, p) {
      if Descends(g, dir, es[i], depth, p) { NameOfDescent(g, dir, es[i], depth, p); }
    }
  }

  lemma {:induction false} WalkBackIsDistinct(g: Graph, dir: Path, es: seq<Entry>, depth: nat)
    requires depth < MAX_DEPTH && NamesAreDistinct(g) && DistinctNames(es)
    ensures Distinct(WalkBack(g, dir, es, depth))
    decreases MAX_DEPTH - depth - 1, 1, |es|
  {
    if es != [] {
      var n := |es| - 1;
      var last, rest := es[n], WalkBack(g, dir, es[..n], depth);
      WalkBackIsDistinct(g, dir, es[..n], depth);
      if last.kind.Directory? {
        var here := Walk(g, dir + [last.name], last.kind.id, depth + 1);
        WalkIsDistinct(g, dir + [last.name], last.kind.id, depth + 1);
        forall p | p in here ensures p !in rest { LastIsApart(g, dir, es, depth, p); }
        DistinctConcat(here, rest);
      } else {
        NilPlus(rest);
      }
    }
  }

  /** When no directory lists a name twice, the walk yields no file twice. */
  lemma {:induction false} WalkIsDistinct(g: Graph, dir: Path, id: DirId, depth: nat)
    requires depth <= MAX_DEPTH && NamesAreDistinct(g)
    ensures Distinct(Walk(g, dir, id, depth))
    decreases MAX_DEPTH - depth, 0, 0
  {
    var es := Entries(g, id);
    FilesAreDistinct(dir, es);
    if depth < MAX_DEPTH {
      WalkBackIsDistinct(g, dir, es, depth);
      forall p | p in FilesIn(dir, es) ensures p !in WalkBack(g, dir, es, depth) {
        FilesInMeans(dir, es, p);
        WalkBackMeans(g, dir, es, depth, p);
        forall i | 0 <= i < |es| ensures !Descends(g, dir, es[i], depth, p) {
          if Descends(g, dir, es[i], depth, p) { NameOfDescent(g, dir, es[i], depth, p); }
        }
      }
      DistinctConcat(FilesIn(dir, es), WalkBack(g, dir, es, depth));
    } else {
      NilPlus(FilesIn(dir, es));
    }
  }
}
