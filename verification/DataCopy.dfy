/** Copying a data folder (`copy_tree`, `copy_tree_filtered`, apps/core/src/data_path.rs):
    the denylist of a profile copy holds at the top level only, unlike the backup's. */
module DataCopy {
  import opened Text
  import opened ArchivePaths
  import opened DataTree
  import opened DataImport
  import Utf8

  /** `PROFILE_COPY_EXCLUDE`. */
  predicate IsProfileCopyExcluded(name: string) {
    name in { ".reset-pending", "auth.json", "bin", "cache", "core.token", "node-auth.token", "nodes.json",
              "ryu-core.pid", "tmp" }
  }

  /** `create_dir_all` where the parent is there and nothing else is in the way. */
  function MakeDir(fs: Fs, path: Path): Fs {
    if path in fs then fs else fs[path := FsDir]
  }

  function CopyEntries(fs: Fs, to: Path, l: Listing, skip: string -> bool): Fs
    decreases l, 0
  {
    if l.End? then fs
    else CopyEntries(if skip(l.name) then fs else CopyEntry(fs, to + [l.name], l.node), to, l.rest, skip)
  }

  function CopyEntry(fs: Fs, path: Path, node: Node): Fs
    decreases node, 1
  {
    match node
    case File(content) => fs[path := FsFile(content)]
    case Folder(entries) => CopyEntries(MakeDir(fs, path), path, entries, name => false)
    case Special => fs
  }

  /** The bytes of a copy that leaves out some top-level entries. */
  function CopiedSize(to: Path, l: Listing, skip: string -> bool): nat
    decreases l
  {
    if l.End? then 0
    else
      (if skip(l.name) then 0 else TotalSize(FilesOf(to + [l.name], l.name, l.node, name => false)))
          + CopiedSize(to, l.rest, skip)
  }

  class Copier {
    var fs: Fs
    var copied: nat

    method CopyTree(from: Listing, to: Path)
      modifies this
      ensures fs == CopyEntries(MakeDir(old(fs), to), to, from, name => false)
      ensures copied == old(copied) + TotalSize(FilesUnder(to, from, name => false))
      decreases from, 1
    {
      fs := MakeDir(fs, to);
      ghost var start := fs;
      var left := from;
      while left.Entry?
        invariant left == from || left < from
        invariant CopyEntries(fs, to, left, name => false) == CopyEntries(start, to, from, name => false)
        invariant copied + TotalSize(FilesUnder(to, left, name => false))
               == old(copied) + TotalSize(FilesUnder(to, from, name => false))
        decreases left
      {
        ghost var here := FilesOf(to + [left.name], left.name, left.node, name => false);
        TotalSizeConcat(here, FilesUnder(to, left.rest, name => false));
        CopyOne(to + [left.name], left.name, left.node);
        left := left.rest;
      }
    }

    /** The loop body that both copies share. */
    method CopyOne(path: Path, ghost name: string, node: Node)
      modifies this
      ensures fs == CopyEntry(old(fs), path, node)
      ensures copied == old(copied) + TotalSize(FilesOf(path, name, node, name => false))
      decreases node, 2
    {
      if node.Folder? {
        CopyTree(node.entries, path);
      } else if node.File? {
        fs := fs[path := FsFile(node.content)];
        copied := copied + |node.content|;
      }
    }

    method CopyTreeFiltered(from: Listing, to: Path)
      modifies this
      ensures fs == CopyEntries(MakeDir(old(fs), to), to, from, IsProfileCopyExcluded)
      ensures copied == old(copied) + CopiedSize(to, from, IsProfileCopyExcluded)
    {
      fs := MakeDir(fs, to);
      ghost var start := fs;
      var left := from;
      while left.Entry?
        invariant CopyEntries(fs, to, left, IsProfileCopyExcluded)
                  == CopyEntries(start, to, from, IsProfileCopyExcluded)
        invariant copied + CopiedSize(to, left, IsProfileCopyExcluded)
                  == old(copied) + CopiedSize(to, from, IsProfileCopyExcluded)
        decreases left
      {
        if !IsProfileCopyExcluded(left.name) {
          CopyOne(to + [left.name], left.name, left.node);
        }
        left := left.rest;
      }
    }
  }

  /** The files under the top-level entries that are kept. */
  function KeptFiles(to: Path, files: seq<Saved>, skip: string -> bool): seq<Saved>
    requires forall s :: s in files ==> |s.path| > |to|
  {
    if files == [] then []
    else
      assert files[0] in files;
      assert forall s :: s in files[1..] ==> s in files;
      (if skip(files[0].path[|to|]) then [] else [files[0]]) + KeptFiles(to, files[1..], skip)
  }

  lemma {:induction false} KeptConcat(to: Path, a: seq<Saved>, b: seq<Saved>, skip: string -> bool)
    requires (forall s :: s in a ==> |s.path| > |to|) && forall s :: s in b ==> |s.path| > |to|
    ensures forall s :: s in a + b ==> |s.path| > |to|
    ensures KeptFiles(to, a + b, skip) == KeptFiles(to, a, skip) + KeptFiles(to, b, skip)
    decreases a
  {
    if a == [] {
      NilPlus(b);
      NilPlus(KeptFiles(to, b, skip));
    } else {
      TailOfConcat(a, b);
      assert a[0] in a && forall s :: s in a[1..] ==> s in a;
      KeptConcat(to, a[1..], b, skip);
      Assoc(if skip(a[0].path[|to|]) then [] else [a[0]], KeptFiles(to, a[1..], skip), KeptFiles(to, b, skip));
    }
  }

  lemma {:induction false} KeptOfOneEntry(to: Path, name: string, files: seq<Saved>, skip: string -> bool)
    requires forall s :: s in files ==> |s.path| > |to| && s.path[|to|] == name
    ensures KeptFiles(to, files, skip) == if skip(name) then [] else files
  {
    if files != [] {
      assert files[0] in files && forall s :: s in files[1..] ==> s in files;
      KeptOfOneEntry(to, name, files[1..], skip);
    }
  }

  lemma FilesBelow(dir: Path, name: string, node: Node)
    ensures forall s :: s in FilesOf(dir + [name], name, node, n => false) ==> |s.path| > |dir| && s.path[|dir|] == name
  {
    forall s | s in FilesOf(dir + [name], name, node, n => false) ensures |s.path| > |dir| && s.path[|dir|] == name {
      FilesOfAreBelow(dir + [name], name, node, n => false, s);
      assert s.path[..|dir| + 1] == dir + [name];
    }
  }

  /** The bytes counted are those of exactly the files that do not lie under an excluded
      top-level entry. */
  lemma {:induction false} CopiedSizeMeans(to: Path, l: Listing, skip: string -> bool)
    ensures forall s :: s in FilesUnder(to, l, n => false) ==> |s.path| > |to|
    ensures CopiedSize(to, l, skip) == TotalSize(KeptFiles(to, FilesUnder(to, l, n => false), skip))
    decreases l
  {
    if l.Entry? {
      var here, rest := FilesOf(to + [l.name], l.name, l.node, n => false), FilesUnder(to, l.rest, n => false);
      FilesBelow(to, l.name, l.node);
      CopiedSizeMeans(to, l.rest, skip);
      KeptOfOneEntry(to, l.name, here, skip);
      KeptConcat(to, here, rest, skip);
      TotalSizeConcat(KeptFiles(to, here, skip), KeptFiles(to, rest, skip));
    }
  }

  /** What identifies a node or its user stays behind, and what is not listed travels. */
  lemma CredentialsStayBehind()
    ensures IsProfileCopyExcluded("auth.json") && IsProfileCopyExcluded("core.token")
    ensures IsProfileCopyExcluded("node-auth.token") && IsProfileCopyExcluded("nodes.json")
    ensures !IsProfileCopyExcluded("agents.db")
  {
    var agents := "agents.db";
    assert agents[0] == 'a' && agents[1] == 'g';
  }

  // ----- What a copy is -----

  /** A node of the tree, as a copy holds it. */
  function AsCopied(node: Option<Node>): Option<FsNode> {
    if node.None? || node.value.Special? then None
    else Some(if node.value.File? then FsFile(node.value.content) else FsDir)
  }

  /** Nothing is in the way of these entries. */
  ghost predicate Vacant(fs: Fs, to: Path, l: Listing) {
    forall p :: p in fs && IsPrefix(to, p) && |p| > |to| ==> p[|to|] !in Names(l)
  }

  lemma StepDown(path: Path, p: Path)
    requires |p| > |path|
    ensures IsPrefix(path + [p[|path|]], p) <==> IsPrefix(path, p)
    ensures forall name :: IsPrefix(path + [name], p) ==> IsPrefix(path, p) && p[|path|] == name
  {
    assert p[..|path| + 1] == p[..|path|] + [p[|path|]];
    forall name | IsPrefix(path + [name], p) ensures IsPrefix(path, p) && p[|path|] == name {
      assert (path + [name])[..|path|] == path;
      assert (path + [name])[|path|] == name;
    }
  }

  lemma {:induction false} LookupIsNamed(l: Listing, q: Path)
    requires Lookup(l, q).Some?
    ensures q[0] in Names(l)
    decreases l
  {
    if l.name != q[0] { LookupIsNamed(l.rest, q); }
  }

  lemma {:induction false} CopyEntriesMeans(fs: Fs, to: Path, l: Listing, skip: string -> bool, p: Path)
    requires WellFormed(l) && Vacant(fs, to, l)
    ensures At(CopyEntries(fs, to, l, skip), p)
         == if IsPrefix(to, p) && |p| > |to| && !skip(p[|to|]) && AsCopied(Lookup(l, p[|to|..])).Some?
            then AsCopied(Lookup(l, p[|to|..])) else At(fs, p)
    decreases l, 0
  {
    if l.Entry? {
      var path := to + [l.name];
      var next := if skip(l.name) then fs else CopyEntry(fs, path, l.node);
      forall q | q in next ensures IsPrefix(to, q) && |q| > |to| ==> q[|to|] !in Names(l.rest) {
        if !skip(l.name) { CopyEntryMeans(fs, to, l, q); }
      }
      CopyEntriesMeans(next, to, l.rest, skip, p);
      if !skip(l.name) { CopyEntryMeans(fs, to, l, p); }
      if |p| > |to| && Lookup(l.rest, p[|to|..]).Some? { LookupIsNamed(l.rest, p[|to|..]); }
    }
  }

  lemma CopyEntryMeans(fs: Fs, to: Path, l: Listing, p: Path)
    requires l.Entry? && WellFormed(l) && Vacant(fs, to, l)
    ensures At(CopyEntry(fs, to + [l.name], l.node), p)
         == if IsPrefix(to, p) && |p| > |to| && p[|to|] == l.name then AsCopied(Lookup(l, p[|to|..])) else At(fs, p)
    decreases l.node, 1
  {
    var path := to + [l.name];
    if |p| > |to| { StepDown(to, p); }
    if l.node.Folder? {
      forall q | IsPrefix(path, q) ensures q !in fs { StepDown(to, q); }
      CopyEntriesMeans(MakeDir(fs, path), path, l.node.entries, name => false, p);
      if IsPrefix(path, p) {
        assert p[|to|..][1..] == p[|path|..];
        assert |p| == |path| ==> p[..|path|] == p;
      }
    } else if IsPrefix(path, p) {
      assert |p| == |path| ==> p[..|path|] == p;
    }
  }

  /** A profile copy into an empty folder holds exactly the files and folders of the
      source, byte for byte, but for the top-level entries on the denylist: the same names
      further down travel, and so do empty folders. */
  lemma ProfileCopyIsExact(tree: Listing, fs: Fs, p: Path)
    requires WellFormed(tree) && (fs == map[] || fs == map[[] := FsDir])
    ensures At(CopyEntries(MakeDir(fs, []), [], tree, IsProfileCopyExcluded), p)
         == if p == [] then Some(FsDir)
            else if IsProfileCopyExcluded(p[0]) then None
            else AsCopied(Lookup(tree, p))
  {
    CopyEntriesMeans(MakeDir(fs, []), [], tree, IsProfileCopyExcluded, p);
  }
}
