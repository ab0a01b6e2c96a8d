/** Restoring a backup archive (`import_zip`, apps/core/src/data_path.rs): a first pass
    that only checks, a second that writes, and what an export followed by an import
    leaves in the destination. */
module DataImport {
  import opened Text
  import opened ArchivePaths
  import opened DataTree
  import opened DataExport
  import Utf8

  /** What the destination holds, by path below its root; the root itself is at `[]`. */
  datatype FsNode = FsFile(content: seq<Utf8.byte>) | FsDir | FsLink

  type Fs = map<Path, FsNode>

  function At(fs: Fs, p: Path): Option<FsNode> {
    if p in fs then Some(fs[p]) else None
  }

  datatype Error =
    | TooManyEntries | UnsafePath | DuplicatePaths | LinkInDestination | OversizedFile | SizeOverflow | NoSpace
    | DestinationIsNotADirectory
    | LinkWhileExtracting | CannotWrite

  const MAX_ENTRIES := 100_000
  const MAX_FILE_BYTES := 4 * 1024 * 1024 * 1024
  const U64_MAX := 0xFFFF_FFFF_FFFF_FFFF

  /** `symlink_metadata`: an entry below a file or a link is an error other than not found. */
  datatype Stat = Found(node: FsNode) | NotFound | Failed

  function StatAt(fs: Fs, comps: Path): Stat {
    if exists k :: 0 <= k < |comps| && Resolve(comps[..k]) in fs && !fs[Resolve(comps[..k])].FsDir? then Failed
    else if Resolve(comps) in fs then Found(fs[Resolve(comps)])
    else NotFound
  }

  predicate BlockedAt(fs: Fs, comps: Path, k: nat)
    requires k <= |comps|
  {
    var p := Resolve(comps[..k]);
    p in fs && (fs[p].FsLink? || (fs[p].FsFile? && k < |comps|))
  }

  /** A link on the way, or a file where a folder is needed. */
  predicate Blocked(fs: Fs, comps: Path) {
    exists k :: 0 <= k <= |comps| && BlockedAt(fs, comps, k)
  }

  /** `path_contains_symlink`. */
  method PathContainsSymlink(fs: Fs, comps: Path) returns (r: bool)
    ensures r == Blocked(fs, comps)
  {
    if [] in fs && fs[[]].FsLink? {
      assert BlockedAt(fs, comps, 0);
      return true;
    }
    for k := 0 to |comps|
      invariant forall j :: 0 <= j <= k ==> !(Resolve(comps[..j]) in fs && fs[Resolve(comps[..j])].FsLink?)
      invariant forall j :: 0 <= j < k ==> !BlockedAt(fs, comps, j)
    {
      var current := comps[..k + 1];
      assert forall j :: 0 <= j <= k ==> current[..j] == comps[..j];
      var stat := StatAt(fs, current);
      if stat.Failed? {
        ghost var j: nat :| j <= k && Resolve(current[..j]) in fs && !fs[Resolve(current[..j])].FsDir?;
        assert BlockedAt(fs, comps, j);
        return true;
      }
      if stat.Found? && stat.node.FsLink? {
        assert BlockedAt(fs, comps, k + 1);
        return true;
      }
      assert !BlockedAt(fs, comps, k);
    }
    assert comps[..|comps|] == comps;
    return false;
  }

  // ----- First pass -----

  /** `ZipFile::is_dir`. */
  predicate IsDirName(name: string) {
    name != [] && (name[|name| - 1] == '/' || name[|name| - 1] == '\\')
  }

  /** A name that ends in a slash, of either kind, names a folder. */
  lemma FolderNames(name: string)
    ensures IsDirName(name) <==> exists front: string :: name == front + ['/'] || name == front + ['\\']
  {
    if IsDirName(name) {
      var front := name[..|name| - 1];
      assert name == front + [name[|name| - 1]];
    }
  }

  /** What the first pass does with one member: the error, or the name it records and the
      bytes it adds. */
  datatype Check = Reject(error: Error) | Skip | Admit(name: string, size: nat)

  function CheckMember(m: Member, fs: Fs, seen: set<string>): Check {
    match EnclosedName(m.name)
    case None => Reject(UnsafePath)
    case Some(rel) =>
      var normalized := Replace(m.name, BACKSLASH, SLASH);
      if IsBackupExcluded(rel) then Skip
      else if normalized in seen then Reject(DuplicatePaths)
      else if Blocked(fs, rel) then Reject(LinkInDestination)
      else if IsDirName(m.name) then Admit(normalized, 0)
      else if |m.content| > MAX_FILE_BYTES then Reject(OversizedFile)
      else Admit(normalized, |m.content|)
  }

  function CheckAgainst(fs: Fs): (Member, set<string>) -> Check {
    (m, seen) => CheckMember(m, fs, seen)
  }

  /** The names recorded and the bytes planned so far. */
  datatype Plan = Plan(seen: set<string>, size: nat)

  function Advance(plan: Plan, check: Check): Result<Plan, Error> {
    match check
    case Reject(error) => Err(error)
    case Skip => Ok(plan)
    case Admit(name, size) =>
      if plan.size + size > U64_MAX then Err(SizeOverflow) else Ok(Plan(plan.seen + {name}, plan.size + size))
  }

  /** The planned size, or the first error. */
  function PlanRest(archive: seq<Member>, check: (Member, set<string>) -> Check, plan: Plan): Result<nat, Error> {
    if archive == [] then Ok(plan.size)
    else
      match Advance(plan, check(archive[0], plan.seen))
      case Err(error) => Err(error)
      case Ok(next) => PlanRest(archive[1..], check, next)
  }

  lemma PlanNext(archive: seq<Member>, i: nat, check: (Member, set<string>) -> Check, plan: Plan, verdict: Check)
    requires i < |archive| && verdict == check(archive[i], plan.seen)
    ensures PlanRest(archive[i..], check, plan)
         == match Advance(plan, verdict)
            case Err(error) => Err(error)
            case Ok(next) => PlanRest(archive[i + 1..], check, next)
  {
    assert archive[i..][1..] == archive[i + 1..];
  }

  /** Everything `import_zip` checks before it changes anything.  `available` is 0 when the
      free space is not known. */
  function Refusal(archive: seq<Member>, fs: Fs, available: nat): Option<Error> {
    if |archive| > MAX_ENTRIES then Some(TooManyEntries)
    else
      match PlanRest(archive, CheckAgainst(fs), Plan({}, 0))
      case Err(error) => Some(error)
      case Ok(planned) =>
        if available > 0 && planned > available then Some(NoSpace)
        else if [] in fs && !fs[[]].FsDir? then Some(DestinationIsNotADirectory)
        else None
  }

  // ----- Second pass -----

  function Steps(comps: Path): set<Path> {
    set k | 0 <= k <= |comps| :: Resolve(comps[..k])
  }

  /** `create_dir_all`, when no file or link is in the way. */
  function MakeDirs(fs: Fs, comps: Path): Fs {
    map p | p in fs.Keys + Steps(comps) :: if p in fs then fs[p] else FsDir
  }

  datatype Extraction = Extraction(fs: Fs, error: Option<Error>)

  function ExtractMember(m: Member, fs: Fs): Extraction {
    match EnclosedName(m.name)
    case None => Extraction(fs, None)
    case Some(rel) =>
      if IsBackupExcluded(rel) then Extraction(fs, None)
      else if Blocked(fs, rel) then Extraction(fs, Some(LinkWhileExtracting))
      else if IsDirName(m.name) then
        if Resolve(rel) in fs && fs[Resolve(rel)].FsFile? then Extraction(fs, Some(CannotWrite))
        else Extraction(MakeDirs(fs, rel), None)
      else if rel == [] then Extraction(fs, Some(CannotWrite))
      else
        var made := MakeDirs(fs, rel[..|rel| - 1]);
        var out := Resolve(rel);
        if rel[|rel| - 1] == PARENT || (out in made && made[out].FsDir?) then Extraction(made, Some(CannotWrite))
        else Extraction(made[out := FsFile(m.content)], None)
  }

  function ExtractRest(archive: seq<Member>, fs: Fs): Extraction {
    if archive == [] then Extraction(fs, None)
    else
      var first := ExtractMember(archive[0], fs);
      if first.error.Some? then first else ExtractRest(archive[1..], first.fs)
  }

  function Import(archive: seq<Member>, fs: Fs, available: nat): Extraction {
    var refusal := Refusal(archive, fs, available);
    if refusal.Some? then Extraction(fs, refusal) else ExtractRest(archive, fs[[] := FsDir])
  }

  // ----- The code -----

  /** The destination directory. */
  class Destination {
    var fs: Fs

    /** The body of the first loop, up to the running total. */
    method CheckEntry(m: Member, seen: set<string>) returns (r: Check)
      ensures r == CheckAgainst(fs)(m, seen)
    {
      var rel := EnclosedName(m.name);
      if rel.None? { return Reject(UnsafePath); }
      if IsBackupExcluded(rel.value) { return Skip; }
      var normalized := Replace(m.name, BACKSLASH, SLASH);
      if normalized in seen { return Reject(DuplicatePaths); }
      var blocked := PathContainsSymlink(fs, rel.value);
      if blocked { return Reject(LinkInDestination); }
      if IsDirName(m.name) { return Admit(normalized, 0); }
      if |m.content| > MAX_FILE_BYTES { return Reject(OversizedFile); }
      return Admit(normalized, |m.content|);
    }

    method FirstPass(archive: seq<Member>) returns (r: Result<nat, Error>)
      ensures r == PlanRest(archive, CheckAgainst(fs), Plan({}, 0))
    {
      ghost var against := CheckAgainst(fs);
      var plan := Plan({}, 0);
      for i := 0 to |archive|
        invariant PlanRest(archive[i..], against, plan) == PlanRest(archive, against, Plan({}, 0))
      {
        var check := CheckEntry(archive[i], plan.seen);
        PlanNext(archive, i, against, plan, check);
        var next := Advance(plan, check);
        if next.Err? { return Err(next.error); }
        plan := next.value;
      }
      r := Ok(plan.size);
    }

    /** The body of the second loop. */
    method Extract(m: Member) returns (error: Option<Error>)
      modifies this
      ensures Extraction(fs, error) == ExtractMember(m, old(fs))
    {
      var rel := EnclosedName(m.name);
      if rel.None? { return None; }
      if IsBackupExcluded(rel.value) { return None; }
      var blocked := PathContainsSymlink(fs, rel.value);
      if blocked { return Some(LinkWhileExtracting); }
      var out := Resolve(rel.value);
      if IsDirName(m.name) {
        if out in fs && fs[out].FsFile? { return Some(CannotWrite); }
        fs := MakeDirs(fs, rel.value);
        return None;
      }
      if rel.value == [] { return Some(CannotWrite); }
      fs := MakeDirs(fs, rel.value[..|rel.value| - 1]);
      if rel.value[|rel.value| - 1] == PARENT || (out in fs && fs[out].FsDir?) { return Some(CannotWrite); }
      fs := fs[out := FsFile(m.content)];
      return None;
    }

    method SecondPass(archive: seq<Member>) returns (error: Option<Error>)
      modifies this
      ensures Extraction(fs, error) == ExtractRest(archive, old(fs))
    {
      for i := 0 to |archive|
        invariant ExtractRest(archive[i..], fs) == ExtractRest(archive, old(fs))
      {
        error := Extract(archive[i]);
        assert archive[i..][1..] == archive[i + 1..];
        if error.Some? { return; }
      }
      error := None;
    }

    method ImportZip(archive: seq<Member>, available: nat) returns (error: Option<Error>)
      modifies this
      ensures Extraction(fs, error) == Import(archive, old(fs), available)
      ensures Refusal(archive, old(fs), available).Some? ==> error.Some? && fs == old(fs)
    {
      if |archive| > MAX_ENTRIES { return Some(TooManyEntries); }
      var plan := FirstPass(archive);
      if plan.Err? { return Some(plan.error); }
      if available > 0 && plan.value > available { return Some(NoSpace); }
      if [] in fs {
        if !fs[[]].FsDir? { return Some(DestinationIsNotADirectory); }
      } else {
        fs := fs[[] := FsDir];
      }
      assert fs == old(fs)[[] := FsDir];
      error := SecondPass(archive);
    }
  }
}
