/** A data folder as a finite tree, and the files that a walk under a denylist visits. */
module DataTree {
  import opened Text
  import opened ArchivePaths
  import Utf8

  /** `Special` is a link, a socket or any other entry that is neither file nor folder. */
  datatype Node = File(content: seq<Utf8.byte>) | Folder(entries: Listing) | Special

  /** What reading a directory yields, in the order it yields it. */
  datatype Listing = End | Entry(name: string, node: Node, rest: Listing)

  function Names(l: Listing): set<string> {
    if l.End? then {} else {l.name} + Names(l.rest)
  }

  /** No two entries of a folder share a name, at any depth. */
  predicate WellFormed(l: Listing) {
    l.Entry? ==>
      ValidName(l.name) && l.name !in Names(l.rest) && WellFormed(l.rest)
      && (l.node.Folder? ==> WellFormed(l.node.entries))
  }

  /** What is at a path below a folder. */
  function Lookup(l: Listing, path: Path): Option<Node>
    decreases l
  {
    if path == [] || l.End? then None
    else if l.name != path[0] then Lookup(l.rest, path)
    else if |path| == 1 then Some(l.node)
    else if l.node.Folder? then Lookup(l.node.entries, path[1..])
    else None
  }

  datatype Saved = Saved(path: Path, content: seq<Utf8.byte>)

  /** The regular files of a walk that leaves out every skipped name at every depth. */
  function FilesUnder(dir: Path, l: Listing, skip: string -> bool): seq<Saved>
    decreases l, 0
  {
    if l.End? then []
    else FilesOf(dir + [l.name], l.name, l.node, skip) + FilesUnder(dir, l.rest, skip)
  }

  function FilesOf(path: Path, name: string, node: Node, skip: string -> bool): seq<Saved>
    decreases node, 1
  {
    if skip(name) then []
    else
      match node
      case File(content) => [Saved(path, content)]
      case Folder(entries) => FilesUnder(path, entries, skip)
      case Special => []
  }

  function TotalSize(files: seq<Saved>): nat {
    if files == [] then 0 else |files[0].content| + TotalSize(files[1..])
  }

  lemma {:induction false} TotalSizeConcat(a: seq<Saved>, b: seq<Saved>)
    ensures TotalSize(a + b) == TotalSize(a) + TotalSize(b)
  {
    if a == [] {
      NilPlus(b);
    } else {
      TailOfConcat(a, b);
      TotalSizeConcat(a[1..], b);
    }
  }

  // ----- The walk finds exactly the files of the tree -----

  ghost predicate IsPrefix(p: Path, q: Path) {
    |p| <= |q| && q[..|p|] == p
  }

  lemma {:induction false} FilesAreBelow(dir: Path, l: Listing, skip: string -> bool, s: Saved)
    requires s in FilesUnder(dir, l, skip)
    ensures |s.path| > |dir| && s.path[..|dir|] == dir && s.path[|dir|] in Names(l)
    decreases l
  {
    var path := dir + [l.name];
    if s in FilesOf(path, l.name, l.node, skip) {
      FilesOfAreBelow(path, l.name, l.node, skip, s);
      assert s.path[..|dir|] == s.path[..|path|][..|dir|];
      assert s.path[|dir|] == s.path[..|path|][|dir|];
    } else {
      FilesAreBelow(dir, l.rest, skip, s);
    }
  }

  lemma FilesOfAreBelow(path: Path, name: string, node: Node, skip: string -> bool, s: Saved)
    requires s in FilesOf(path, name, node, skip)
    ensures IsPrefix(path, s.path)
    decreases node
  {
    if node.Folder? { FilesAreBelow(path, node.entries, skip, s); }
  }

  predicate Clear(path: Path, skip: string -> bool) {
    forall name :: name in path ==> !skip(name)
  }

  /** The walk saves a file exactly when the tree has it and no name on its path is
      skipped, and saves it byte for byte. */
  lemma {:induction false} FilesAreLookups(dir: Path, l: Listing, skip: string -> bool, q: Path,
                                             content: seq<Utf8.byte>)
    requires WellFormed(l)
    ensures Saved(dir + q, content) in FilesUnder(dir, l, skip) <==>
            Lookup(l, q) == Some(File(content)) && Clear(q, skip)
    decreases l
  {
    var s := Saved(dir + q, content);
    if s in FilesUnder(dir, l, skip) { FilesAreBelow(dir, l, skip, s); }
    if q != [] && l.Entry? {
      assert s.path[|dir|] == q[0];
      var path := dir + [l.name];
      if s in FilesOf(path, l.name, l.node, skip) {
        FilesOfAreBelow(path, l.name, l.node, skip, s);
        assert s.path[|dir|] == s.path[..|path|][|dir|];
      }
      if s in FilesUnder(dir, l.rest, skip) { FilesAreBelow(dir, l.rest, skip, s); }
      if q[0] == l.name {
        FilesOfIsLookup(dir, l, skip, q, content);
      } else {
        FilesAreLookups(dir, l.rest, skip, q, content);
      }
    }
  }

  lemma ClearSplits(q: Path, skip: string -> bool)
    requires q != []
    ensures Clear(q, skip) <==> !skip(q[0]) && Clear(q[1..], skip)
  {
    assert q[0] in q;
    assert forall name :: name in q <==> name == q[0] || name in q[1..];
  }

  lemma FilesOfIsLookup(dir: Path, l: Listing, skip: string -> bool, q: Path, content: seq<Utf8.byte>)
    requires WellFormed(l) && l.Entry? && q != [] && q[0] == l.name
    ensures Saved(dir + q, content) in FilesOf(dir + [l.name], l.name, l.node, skip)
        <==> Lookup(l, q) == Some(File(content)) && Clear(q, skip)
    decreases l, 0
  {
    ClearSplits(q, skip);
    var path := dir + [l.name];
    assert dir + q == path + q[1..];
    if l.node.Folder? { FilesAreLookups(path, l.node.entries, skip, q[1..], content); }
    if l.node.File? { assert |q| == 1 ==> dir + q == path && q[1..] == []; }
  }

  // ----- The paths of the walk -----

  ghost predicate DistinctPaths(files: seq<Saved>) {
    forall i, j :: 0 <= i < j < |files| ==> files[i].path != files[j].path
  }

  lemma {:induction false} PathsAreDistinct(dir: Path, l: Listing, skip: string -> bool)
    requires WellFormed(l)
    ensures DistinctPaths(FilesUnder(dir, l, skip))
    decreases l
  {
    if l.Entry? {
      var path := dir + [l.name];
      var here := FilesOf(path, l.name, l.node, skip);
      var rest := FilesUnder(dir, l.rest, skip);
      PathsAreDistinct(dir, l.rest, skip);
      if l.node.Folder? { PathsAreDistinct(path, l.node.entries, skip); }
      assert DistinctPaths(here);
      forall s, t | s in here && t in rest ensures s.path != t.path {
        FilesOfAreBelow(path, l.name, l.node, skip, s);
        FilesAreBelow(dir, l.rest, skip, t);
        assert s.path[|dir|] == s.path[..|path|][|dir|];
      }
      forall i, j | 0 <= i < |here| && 0 <= j < |rest| ensures here[i].path != rest[j].path {
        assert here[i] in here && rest[j] in rest;
      }
    }
  }

  lemma {:induction false} LookupIsValid(l: Listing, q: Path)
    requires WellFormed(l) && Lookup(l, q).Some?
    ensures ValidPath(q)
    decreases l
  {
    if l.name != q[0] {
      LookupIsValid(l.rest, q);
    } else {
      if |q| > 1 { LookupIsValid(l.node.entries, q[1..]); }
      assert forall name :: name in q <==> name == q[0] || name in q[1..];
    }
  }

  /** Nothing is below a file. */
  lemma {:induction false} NothingBelowAFile(l: Listing, p: Path, q: Path)
    requires Lookup(l, p).Some? && Lookup(l, p).value.File? && IsPrefix(p, q) && p != q
    ensures Lookup(l, q).None?
    decreases l
  {
    assert p[0] == q[..|p|][0] == q[0];
    if l.name != p[0] {
      NothingBelowAFile(l.rest, p, q);
    } else if |p| > 1 {
      assert q[1..][..|p[1..]|] == q[..|p|][1..];
      NothingBelowAFile(l.node.entries, p[1..], q[1..]);
    }
  }

  ghost predicate Antichain(files: seq<Saved>) {
    forall s, t :: s in files && t in files && s.path != t.path ==> !IsPrefix(s.path, t.path)
  }

  lemma SavedIsLookup(l: Listing, skip: string -> bool, s: Saved)
    requires WellFormed(l) && s in FilesUnder([], l, skip)
    ensures Lookup(l, s.path) == Some(File(s.content)) && Clear(s.path, skip) && ValidPath(s.path)
  {
    NilPlus(s.path);
    FilesAreLookups([], l, skip, s.path, s.content);
    LookupIsValid(l, s.path);
  }

  lemma PathsAreAntichain(l: Listing, skip: string -> bool)
    requires WellFormed(l)
    ensures Antichain(FilesUnder([], l, skip))
  {
    var files := FilesUnder([], l, skip);
    forall s, t | s in files && t in files && s.path != t.path ensures !IsPrefix(s.path, t.path) {
      SavedIsLookup(l, skip, s);
      SavedIsLookup(l, skip, t);
      if IsPrefix(s.path, t.path) { NothingBelowAFile(l, s.path, t.path); }
    }
  }
}
