/** Export then import: when the restore succeeds and exactly what it leaves behind
    (apps/core/src/data_path.rs). */
module DataRoundTrip {
  import opened Text
  import opened ArchivePaths
  import opened DataTree
  import opened DataExport
  import opened DataImport
  import Utf8

  /** A file can be put here: folders above it, and no folder or link in its place. */
  ghost predicate FitsAt(fs: Fs, path: Path) {
    forall k :: 0 <= k <= |path| && path[..k] in fs ==>
      if k < |path| then fs[path[..k]].FsDir? else fs[path[..k]].FsFile?
  }

  ghost predicate Unblocked(fs: Fs, path: Path) {
    forall k :: 0 <= k <= |path| && path[..k] in fs ==> fs[path[..k]].FsDir? || (fs[path[..k]].FsFile? && k == |path|)
  }

  lemma PrefixResolves(path: Path, k: nat)
    requires ValidPath(path) && k <= |path|
    ensures Resolve(path[..k]) == path[..k]
  {
    assert forall name :: name in path[..k] ==> name in path;
    ValidResolves(path[..k]);
  }

  lemma BlockedMeans(fs: Fs, path: Path)
    requires ValidPath(path)
    ensures Blocked(fs, path) <==> !Unblocked(fs, path)
  {
    forall k | 0 <= k <= |path|
      ensures BlockedAt(fs, path, k) <==>
              !(path[..k] in fs ==> fs[path[..k]].FsDir? || (fs[path[..k]].FsFile? && k == |path|))
    {
      PrefixResolves(path, k);
    }
  }

  lemma FitsMeans(fs: Fs, path: Path)
    ensures FitsAt(fs, path) <==> Unblocked(fs, path) && !(path in fs && fs[path].FsDir?)
  {
    assert path[..|path|] == path;
  }

  // ----- The first pass over an exported archive -----

  ghost predicate ValidFiles(files: seq<Saved>) {
    forall s :: s in files ==> ValidPath(s.path) && !IsBackupExcluded(s.path)
  }

  /** A member name that the import reads as a file at `path`. */
  ghost predicate NamesFile(name: string, path: Path) {
    EnclosedName(name) == Some(path) && Replace(name, BACKSLASH, SLASH) == name && !IsDirName(name)
  }

  lemma MemberNameIsNoFolder(path: Path)
    requires ValidPath(path)
    ensures !IsDirName(MemberName(path))
  {
    MemberNameIsJoin(path);
    JoinStart(path);
  }

  lemma MemberNamesFile(path: Path)
    requires ValidPath(path)
    ensures NamesFile(MemberName(path), path)
  {
    MemberNameRoundTrip(path);
    MemberNameIsNoFolder(path);
  }

  ghost function CheckSaved(s: Saved, name: string, fs: Fs): Check {
    if !Unblocked(fs, s.path) then Reject(LinkInDestination)
    else if |s.content| > MAX_FILE_BYTES then Reject(OversizedFile)
    else Admit(name, |s.content|)
  }

  lemma CheckNamed(m: Member, path: Path, fs: Fs, seen: set<string>)
    requires NamesFile(m.name, path) && ValidPath(path) && !IsBackupExcluded(path) && m.name !in seen
    ensures CheckAgainst(fs)(m, seen) == CheckSaved(Saved(path, m.content), m.name, fs)
  {
    BlockedMeans(fs, path);
  }

  /** The members of an archive are read as these files. */
  ghost predicate Represents(archive: seq<Member>, files: seq<Saved>) {
    |archive| == |files|
    && forall i :: 0 <= i < |files| ==>
         archive[i].content == files[i].content && NamesFile(archive[i].name, files[i].path)
  }

  ghost predicate DistinctNames(archive: seq<Member>) {
    forall i, j :: 0 <= i < j < |archive| ==> archive[i].name != archive[j].name
  }

  lemma ArchiveRepresents(files: seq<Saved>)
    requires ValidFiles(files) && DistinctPaths(files)
    ensures Represents(Archive(files), files) && DistinctNames(Archive(files))
  {
    forall i | 0 <= i < |files|
      ensures ValidPath(files[i].path) && NamesFile(MemberName(files[i].path), files[i].path) {
      assert files[i] in files;
      MemberNamesFile(files[i].path);
    }
    forall i, j | 0 <= i < j < |files| ensures Archive(files)[i].name != Archive(files)[j].name {
      if MemberName(files[i].path) == MemberName(files[j].path) {
        MemberNamesAreDistinct(files[i].path, files[j].path);
      }
    }
  }

  lemma ValidTail(files: seq<Saved>)
    requires files != [] && ValidFiles(files)
    ensures files[0] in files && ValidFiles(files[1..])
  {
    assert forall s :: s in files[1..] ==> s in files;
  }

  ghost predicate Acceptable(fs: Fs, files: seq<Saved>) {
    forall s :: s in files ==> Unblocked(fs, s.path) && |s.content| <= MAX_FILE_BYTES
  }

  lemma AcceptableTail(fs: Fs, files: seq<Saved>)
    requires files != []
    ensures Acceptable(fs, files) <==>
            Unblocked(fs, files[0].path) && |files[0].content| <= MAX_FILE_BYTES && Acceptable(fs, files[1..])
  {
    assert forall s :: s in files <==> s == files[0] || s in files[1..];
  }

  /** The first pass, read off the saved files. */
  ghost function PlanSaved(files: seq<Saved>, fs: Fs, planned: nat): Option<nat> {
    if files == [] then Some(planned)
    else
      var check := CheckSaved(files[0], "", fs);
      if check.Admit? && planned + check.size <= U64_MAX then PlanSaved(files[1..], fs, planned + check.size) else None
  }

  function Planned(r: Result<nat, Error>): Option<nat> {
    if r.Ok? then Some(r.value) else None
  }

  /** The check judges every member of the archive as the file it stands for. */
  ghost predicate ChecksAs(check: (Member, set<string>) -> Check, archive: seq<Member>, files: seq<Saved>, fs: Fs) {
    |archive| == |files|
    && forall i, seen: set<string> :: 0 <= i < |files| && archive[i].name !in seen ==>
      check(archive[i], seen) == CheckSaved(files[i], archive[i].name, fs)
  }

  lemma {:induction false} PlanIsPlanSaved(archive: seq<Member>, files: seq<Saved>,
                                           check: (Member, set<string>) -> Check, fs: Fs, plan: Plan)
    requires ChecksAs(check, archive, files, fs) && DistinctNames(archive)
    requires forall i :: 0 <= i < |archive| ==> archive[i].name !in plan.seen
    ensures Planned(PlanRest(archive, check, plan)) == PlanSaved(files, fs, plan.size)
    decreases files
  {
    if files != [] {
      assert check(archive[0], plan.seen) == CheckSaved(files[0], archive[0].name, fs);
      var next := Plan(plan.seen + {archive[0].name}, plan.size + |files[0].content|);
      PlanIsPlanSaved(archive[1..], files[1..], check, fs, next);
    }
  }

  lemma {:induction false} PlanSavedMeans(files: seq<Saved>, fs: Fs, planned: nat)
    requires planned <= U64_MAX
    ensures PlanSaved(files, fs, planned)
         == if Acceptable(fs, files) && planned + TotalSize(files) <= U64_MAX
            then Some(planned + TotalSize(files)) else None
    decreases files
  {
    if files != [] {
      AcceptableTail(fs, files);
      if planned + |files[0].content| <= U64_MAX { PlanSavedMeans(files[1..], fs, planned + |files[0].content|); }
    }
  }

  // ----- The second pass -----

  function Prefixes(path: Path): set<Path> {
    set k | 0 <= k <= |path| :: path[..k]
  }

  function PutFile(fs: Fs, s: Saved): Fs {
    map p | p in fs.Keys + Prefixes(s.path) ::
      if p == s.path then FsFile(s.content) else if p in fs then fs[p] else FsDir
  }

  function PutAll(fs: Fs, files: seq<Saved>): Fs
    decreases files
  {
    if files == [] then fs else PutAll(PutFile(fs, files[0]), files[1..])
  }

  lemma PrefixIsTake(p: Path, q: Path)
    ensures p in Prefixes(q) <==> IsPrefix(p, q)
  {
    if IsPrefix(p, q) { assert q[..|p|] == p; }
  }

  lemma StepsOfParent(path: Path)
    requires ValidPath(path)
    ensures Steps(path[..|path| - 1]) == Prefixes(path) - {path}
  {
    var parent := path[..|path| - 1];
    forall k | 0 <= k < |path| ensures Resolve(parent[..k]) == path[..k] {
      assert parent[..k] == path[..k];
      PrefixResolves(path, k);
    }
    assert path[..|path|] == path;
  }

  lemma PutIsMakeThenWrite(fs: Fs, path: Path, content: seq<Utf8.byte>)
    requires ValidPath(path)
    ensures MakeDirs(fs, path[..|path| - 1])[path := FsFile(content)] == PutFile(fs, Saved(path, content))
    ensures path in MakeDirs(fs, path[..|path| - 1]) <==> path in fs
  {
    StepsOfParent(path);
    PrefixIsTake(path, path);
  }

  lemma ExtractNamed(m: Member, path: Path, fs: Fs)
    requires NamesFile(m.name, path) && ValidPath(path) && !IsBackupExcluded(path) && Resolve(path) == path
    ensures var r := ExtractMember(m, fs);
            (r.error.None? <==> FitsAt(fs, path)) && (r.error.None? ==> r.fs == PutFile(fs, Saved(path, m.content)))
  {
    BlockedMeans(fs, path);
    FitsMeans(fs, path);
    PutIsMakeThenWrite(fs, path, m.content);
    assert path[|path| - 1] in path;
  }

  /** Writing one file makes no room and takes none from a file that is neither above nor
      below it. */
  lemma FitsElsewhere(fs: Fs, s: Saved, path: Path)
    requires !IsPrefix(s.path, path) && !IsPrefix(path, s.path)
    ensures FitsAt(PutFile(fs, s), path) <==> FitsAt(fs, path)
  {
    var put := PutFile(fs, s);
    forall k | 0 <= k <= |path|
      ensures path[..k] != s.path && (path[..k] in fs ==> path[..k] in put && put[path[..k]] == fs[path[..k]])
      ensures path[..k] in put && path[..k] !in fs ==> k < |path| && put[path[..k]].FsDir?
    {
      PrefixIsTake(path[..k], s.path);
      assert path[..|path|] == path;
    }
  }

  lemma AntichainTail(files: seq<Saved>)
    requires files != [] && DistinctPaths(files) && Antichain(files)
    ensures DistinctPaths(files[1..]) && Antichain(files[1..])
    ensures forall s :: s in files[1..] ==> !IsPrefix(files[0].path, s.path) && !IsPrefix(s.path, files[0].path)
  {
    forall s | s in files[1..] ensures s in files && s.path != files[0].path {
      var i :| 0 <= i < |files[1..]| && files[1..][i] == s;
      assert files[i + 1] == s;
    }
    assert files[0] in files;
  }

  lemma {:induction false} ExtractBackup(archive: seq<Member>, files: seq<Saved>, fs: Fs)
    requires Represents(archive, files) && ValidFiles(files) && DistinctPaths(files) && Antichain(files)
    ensures var r := ExtractRest(archive, fs);
            (r.error.None? <==> forall s :: s in files ==> FitsAt(fs, s.path))
            && (r.error.None? ==> r.fs == PutAll(fs, files))
    decreases files
  {
    if files != [] {
      ValidTail(files);
      AntichainTail(files);
      var s := files[0];
      ValidResolves(s.path);
      ExtractNamed(archive[0], s.path, fs);
      if FitsAt(fs, s.path) {
        ExtractBackup(archive[1..], files[1..], PutFile(fs, s));
        forall t | t in files[1..] ensures FitsAt(PutFile(fs, s), t.path) <==> FitsAt(fs, t.path) {
          FitsElsewhere(fs, s, t.path);
        }
        assert forall t :: t in files <==> t == s || t in files[1..];
      }
    }
  }

  ghost predicate HasFileAt(files: seq<Saved>, p: Path) {
    exists s :: s in files && s.path == p
  }

  ghost predicate HasFileBelow(files: seq<Saved>, p: Path) {
    exists s :: s in files && IsPrefix(p, s.path)
  }

  /** What is at a path once all the files have been put. */
  ghost predicate PutAt(fs: Fs, files: seq<Saved>, p: Path, node: Option<FsNode>) {
    (forall s :: s in files && s.path == p ==> node == Some(FsFile(s.content)))
    && (!HasFileAt(files, p) ==>
          node == if p in fs then Some(fs[p]) else if HasFileBelow(files, p) then Some(FsDir) else None)
  }

  lemma {:induction false} PutAllMeans(fs: Fs, files: seq<Saved>, p: Path)
    requires DistinctPaths(files) && Antichain(files)
    ensures PutAt(fs, files, p, At(PutAll(fs, files), p))
    decreases files
  {
    if files != [] {
      var s := files[0];
      AntichainTail(files);
      PutAllMeans(PutFile(fs, s), files[1..], p);
      PrefixIsTake(p, s.path);
      assert s in files;
      assert forall t :: t in files <==> t == s || t in files[1..];
      assert HasFileAt(files, p) <==> s.path == p || HasFileAt(files[1..], p);
      assert HasFileBelow(files, p) <==> IsPrefix(p, s.path) || HasFileBelow(files[1..], p);
    }
  }

  // ----- Export then import -----

  /** The import's own limits. */
  ghost predicate WithinLimits(files: seq<Saved>, available: nat) {
    |files| <= MAX_ENTRIES
    && (forall s :: s in files ==> |s.content| <= MAX_FILE_BYTES)
    && TotalSize(files) <= U64_MAX
    && (available > 0 ==> TotalSize(files) <= available)
  }

  /** The destination has no file or link where the backup needs a folder, and no folder
      or link where it has a file. */
  ghost predicate Compatible(fs: Fs, files: seq<Saved>) {
    ([] in fs ==> fs[[]].FsDir?) && forall s :: s in files ==> FitsAt(fs, s.path)
  }

  lemma RootIsFolder(fs: Fs, path: Path)
    requires path != [] && ([] in fs ==> fs[[]].FsDir?)
    ensures FitsAt(fs[[] := FsDir], path) <==> FitsAt(fs, path)
  {
    forall k | 0 <= k <= |path| ensures path[..k] == [] <==> k == 0 {}
  }

  lemma RefusalOfBackup(files: seq<Saved>, fs: Fs, available: nat)
    requires ValidFiles(files) && DistinctPaths(files)
    ensures Refusal(Archive(files), fs, available).None? <==>
            WithinLimits(files, available) && ([] in fs ==> fs[[]].FsDir?)
            && forall s :: s in files ==> Unblocked(fs, s.path)
  {
    var archive := Archive(files);
    ArchiveRepresents(files);
    forall i, seen: set<string> | 0 <= i < |files| && archive[i].name !in seen
      ensures CheckAgainst(fs)(archive[i], seen) == CheckSaved(files[i], archive[i].name, fs)
    {
      assert files[i] in files;
      CheckNamed(archive[i], files[i].path, fs, seen);
    }
    PlanIsPlanSaved(archive, files, CheckAgainst(fs), fs, Plan({}, 0));
    PlanSavedMeans(files, fs, 0);
  }

  /** Restoring a backup succeeds exactly when it is within the limits and the destination
      has room for every path; nothing else, and no other file of the backup, can make it
      fail. */
  lemma RestoreSucceeds(tree: Listing, fs: Fs, available: nat)
    requires WellFormed(tree)
    ensures ValidFiles(Backup(tree))
    ensures var files := Backup(tree);
            var r := Import(Archive(files), fs, available);
            (r.error.None? <==> WithinLimits(files, available) && Compatible(fs, files))
            && (r.error.None? ==> r.fs == PutAll(fs[[] := FsDir], files))
  {
    var files := Backup(tree);
    forall s | s in files ensures ValidPath(s.path) && !IsBackupExcluded(s.path) { BackupIsValid(tree, s); }
    PathsAreDistinct([], tree, IsExcludedName);
    PathsAreAntichain(tree, IsExcludedName);
    RefusalOfBackup(files, fs, available);
    ArchiveRepresents(files);
    ExtractBackup(Archive(files), files, fs[[] := FsDir]);
    forall s | s in files
      ensures FitsAt(fs, s.path) ==> Unblocked(fs, s.path)
      ensures ([] in fs ==> fs[[]].FsDir?) ==> (FitsAt(fs[[] := FsDir], s.path) <==> FitsAt(fs, s.path))
    {
      FitsMeans(fs, s.path);
      if [] in fs ==> fs[[]].FsDir? { RootIsFolder(fs, s.path); }
    }
  }

  /** A file of the tree that export keeps. */
  ghost predicate IsKept(tree: Listing, path: Path) {
    Lookup(tree, path).Some? && Lookup(tree, path).value.File? && Clear(path, IsExcludedName)
  }

  ghost predicate HasKeptBelow(tree: Listing, p: Path) {
    exists path :: IsKept(tree, path) && IsPrefix(p, path)
  }

  lemma KeptIsBackedUp(tree: Listing, p: Path)
    requires WellFormed(tree)
    ensures HasFileAt(Backup(tree), p) <==> IsKept(tree, p)
    ensures forall s :: s in Backup(tree) && s.path == p ==> Lookup(tree, p) == Some(File(s.content))
    ensures HasFileBelow(Backup(tree), p) <==> HasKeptBelow(tree, p)
  {
    forall path: Path, content: seq<Utf8.byte>
      ensures Saved(path, content) in Backup(tree) <==>
              Lookup(tree, path) == Some(File(content)) && Clear(path, IsExcludedName)
    {
      BackupIsExact(tree, path, content);
    }
    forall s | s in Backup(tree) ensures s == Saved(s.path, s.content) && IsKept(tree, s.path) {}
    forall path | IsKept(tree, path) ensures HasFileAt(Backup(tree), path) {
      assert Saved(path, Lookup(tree, path).value.content) in Backup(tree);
    }
  }

  /** After a successful restore every kept file of the exported tree is back, byte for
      byte; whatever else was in the destination is untouched; and apart from the folders
      the kept files need, nothing is added. */
  lemma ExportThenImport(tree: Listing, fs: Fs, available: nat, p: Path)
    requires WellFormed(tree) && WithinLimits(Backup(tree), available) && Compatible(fs, Backup(tree))
    ensures ValidFiles(Backup(tree))
    ensures var r := Import(Archive(Backup(tree)), fs, available);
            r.error.None?
            && At(r.fs, p) == if IsKept(tree, p) then Some(FsFile(Lookup(tree, p).value.content))
                              else if p in fs then Some(fs[p])
                              else if p == [] || HasKeptBelow(tree, p) then Some(FsDir)
                              else None
  {
    var files := Backup(tree);
    RestoreSucceeds(tree, fs, available);
    PathsAreDistinct([], tree, IsExcludedName);
    PathsAreAntichain(tree, IsExcludedName);
    PutAllMeans(fs[[] := FsDir], files, p);
    KeptIsBackedUp(tree, p);
  }

  /** Into an empty destination the restored regular files are exactly those of the tree
      with no excluded name on their path; folders that held none of them are not restored. */
  lemma RestoreIntoEmpty(tree: Listing, fs: Fs, available: nat, p: Path, content: seq<Utf8.byte>)
    requires WellFormed(tree) && WithinLimits(Backup(tree), available) && (fs == map[] || fs == map[[] := FsDir])
    ensures ValidFiles(Backup(tree))
    ensures var r := Import(Archive(Backup(tree)), fs, available);
            r.error.None?
            && (At(r.fs, p) == Some(FsFile(content)) <==>
                Lookup(tree, p) == Some(File(content)) && Clear(p, IsExcludedName))
            && (At(r.fs, p) == Some(FsDir) <==> !IsKept(tree, p) && (p == [] || HasKeptBelow(tree, p)))
            && At(r.fs, p) != Some(FsLink)
  {
    forall s | s in Backup(tree) ensures FitsAt(fs, s.path) {
      BackupIsValid(tree, s);
      forall k | 0 <= k <= |s.path| ensures s.path[..k] == [] <==> k == 0 {}
    }
    ExportThenImport(tree, fs, available, p);
  }

  // ----- Any archive at all -----

  ghost predicate IsNewFile(before: Fs, after: Fs, p: Path) {
    p in after && after[p].FsFile? && At(before, p) != At(after, p)
  }

  lemma ExtractWritesNoExcludedName(m: Member, fs: Fs, p: Path)
    requires IsNewFile(fs, ExtractMember(m, fs).fs, p)
    ensures p != [] && !IsExcludedName(p[|p| - 1])
  {
  }

  /** Whatever the archive, an import never creates or changes a file with an excluded
      name. */
  lemma {:induction false} ImportWritesNoExcludedName(archive: seq<Member>, fs: Fs, p: Path)
    requires IsNewFile(fs, ExtractRest(archive, fs).fs, p)
    ensures p != [] && !IsExcludedName(p[|p| - 1])
    decreases archive
  {
    if archive != [] {
      var first := ExtractMember(archive[0], fs);
      if IsNewFile(fs, first.fs, p) {
        ExtractWritesNoExcludedName(archive[0], fs, p);
      } else if first.error.None? {
        ImportWritesNoExcludedName(archive[1..], first.fs, p);
      }
    }
  }
}
