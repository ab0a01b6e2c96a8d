/** Which archives the first pass of `import_zip` accepts (apps/core/src/data_path.rs), any
    archive at all, and what its duplicate check does and does not rule out. */
module DataAcceptance {
  import opened Text
  import opened ArchivePaths
  import opened DataTree
  import opened DataExport
  import opened DataImport
  import opened DataRoundTrip
  import Utf8

  // ----- What one member contributes -----

  /** `Unsafe`: no enclosed name.  `Ignored`: excluded by basename.  `Unfit`: blocked in the
      destination, or too large.  Otherwise the name it records and the bytes it plans. */
  datatype Reading = Unsafe | Ignored | Unfit | Fit(name: string, size: nat)

  function RecordedName(m: Member): string {
    Replace(m.name, BACKSLASH, SLASH)
  }

  function PlannedSize(m: Member): nat {
    if IsDirName(m.name) then 0 else |m.content|
  }

  predicate IsCounted(m: Member) {
    EnclosedName(m.name).Some? && !IsBackupExcluded(EnclosedName(m.name).value)
  }

  predicate IsFit(m: Member, fs: Fs)
    requires IsCounted(m)
  {
    !Blocked(fs, EnclosedName(m.name).value) && (IsDirName(m.name) || |m.content| <= 4_294_967_296)
  }

  function ReadingOf(fs: Fs): Member -> Reading {
    (m: Member) =>
      if EnclosedName(m.name).None? then Unsafe
      else if !IsCounted(m) then Ignored
      else if !IsFit(m, fs) then Unfit
      else Fit(RecordedName(m), PlannedSize(m))
  }

  /** A check that decides by the reading and the names seen so far. */
  ghost predicate Follows(check: (Member, set<string>) -> Check, read: Member -> Reading) {
    forall m, seen: set<string> {:trigger check(m, seen)} ::
      match read(m)
      case Unsafe => check(m, seen).Reject?
      case Ignored => check(m, seen).Skip?
      case Unfit => check(m, seen).Reject?
      case Fit(name, size) => if name in seen then check(m, seen).Reject? else check(m, seen) == Admit(name, size)
  }

  lemma CheckFollows(fs: Fs)
    ensures Follows(CheckAgainst(fs), ReadingOf(fs))
  {
  }

  // ----- What a whole archive needs -----

  ghost predicate AllReadable(archive: seq<Member>, read: Member -> Reading) {
    forall m :: m in archive ==> read(m).Ignored? || read(m).Fit?
  }

  ghost predicate NamesDiffer(archive: seq<Member>, read: Member -> Reading) {
    forall i, j :: 0 <= i < j < |archive| && read(archive[i]).Fit? && read(archive[j]).Fit? ==>
      read(archive[i]).name != read(archive[j]).name
  }

  ghost predicate NoneSeen(archive: seq<Member>, read: Member -> Reading, seen: set<string>) {
    forall i :: 0 <= i < |archive| && read(archive[i]).Fit? ==> read(archive[i]).name !in seen
  }

  function ReadSize(archive: seq<Member>, read: Member -> Reading): nat {
    if archive == [] then 0
    else (if read(archive[0]).Fit? then read(archive[0]).size else 0) + ReadSize(archive[1..], read)
  }

  lemma ReadableTail(archive: seq<Member>, read: Member -> Reading)
    requires archive != []
    ensures AllReadable(archive, read) <==>
            (read(archive[0]).Ignored? || read(archive[0]).Fit?) && AllReadable(archive[1..], read)
  {
    assert forall m :: m in archive <==> m == archive[0] || m in archive[1..];
  }

  lemma NamesTail(archive: seq<Member>, read: Member -> Reading, seen: set<string>)
    requires archive != [] && read(archive[0]).Fit?
    ensures NamesDiffer(archive, read) && NoneSeen(archive, read, seen) <==>
            read(archive[0]).name !in seen && NamesDiffer(archive[1..], read)
            && NoneSeen(archive[1..], read, seen + {read(archive[0]).name})
  {
    var name := read(archive[0]).name;
    if NamesDiffer(archive, read) && NoneSeen(archive, read, seen) {
      forall i | 0 <= i < |archive[1..]| && read(archive[1..][i]).Fit?
        ensures read(archive[1..][i]).name !in seen + {name} {
        assert archive[1..][i] == archive[i + 1];
      }
    }
    if name !in seen && NamesDiffer(archive[1..], read) && NoneSeen(archive[1..], read, seen + {name}) {
      forall i, j | 0 <= i < j < |archive| && read(archive[i]).Fit? && read(archive[j]).Fit?
        ensures read(archive[i]).name != read(archive[j]).name
      {
        assert archive[j] == archive[1..][j - 1];
        if i > 0 { assert archive[i] == archive[1..][i - 1]; }
      }
      forall i | 0 <= i < |archive| && read(archive[i]).Fit? ensures read(archive[i]).name !in seen {
        if i > 0 { assert archive[i] == archive[1..][i - 1]; }
      }
    }
  }

  lemma IgnoredTail(archive: seq<Member>, read: Member -> Reading, seen: set<string>)
    requires archive != [] && !read(archive[0]).Fit?
    ensures NamesDiffer(archive, read) && NoneSeen(archive, read, seen) <==>
            NamesDiffer(archive[1..], read) && NoneSeen(archive[1..], read, seen)
  {
    if NamesDiffer(archive[1..], read) && NoneSeen(archive[1..], read, seen) {
      forall i, j | 0 <= i < j < |archive| && read(archive[i]).Fit? && read(archive[j]).Fit?
        ensures read(archive[i]).name != read(archive[j]).name
      {
        assert archive[i] == archive[1..][i - 1] && archive[j] == archive[1..][j - 1];
      }
      forall i | 0 <= i < |archive| && read(archive[i]).Fit? ensures read(archive[i]).name !in seen {
        assert archive[i] == archive[1..][i - 1];
      }
    }
  }

  /** Every member is readable, the names are new and differ, and the sizes fit. */
  ghost predicate Plannable(archive: seq<Member>, read: Member -> Reading, plan: Plan) {
    AllReadable(archive, read) && NamesDiffer(archive, read) && NoneSeen(archive, read, plan.seen)
    && plan.size + ReadSize(archive, read) <= U64_MAX
  }

  lemma {:induction false} PlanIff(archive: seq<Member>, check: (Member, set<string>) -> Check,
                                   read: Member -> Reading, plan: Plan)
    requires Follows(check, read) && plan.size <= U64_MAX
    ensures var r := PlanRest(archive, check, plan);
            (r.Ok? <==> Plannable(archive, read, plan)) && (r.Ok? ==> r.value == plan.size + ReadSize(archive, read))
    decreases archive
  {
    if archive != [] {
      var m := archive[0];
      var verdict := check(m, plan.seen);
      ReadableTail(archive, read);
      if read(m).Fit? {
        NamesTail(archive, read, plan.seen);
        if read(m).name !in plan.seen && plan.size + read(m).size <= U64_MAX {
          PlanIff(archive[1..], check, read, Plan(plan.seen + {read(m).name}, plan.size + read(m).size));
        }
      } else if read(m).Ignored? {
        IgnoredTail(archive, read, plan.seen);
        PlanIff(archive[1..], check, read, plan);
      }
    }
  }

  // ----- The acceptance condition -----

  ghost predicate AllEnclosed(archive: seq<Member>) {
    forall m :: m in archive ==> EnclosedName(m.name).Some?
  }

  ghost predicate AllFit(archive: seq<Member>, fs: Fs) {
    forall m :: m in archive && IsCounted(m) ==> IsFit(m, fs)
  }

  ghost predicate RecordedNamesDiffer(archive: seq<Member>) {
    forall i, j :: 0 <= i < j < |archive| && IsCounted(archive[i]) && IsCounted(archive[j]) ==>
      RecordedName(archive[i]) != RecordedName(archive[j])
  }

  function TotalPlanned(archive: seq<Member>): nat {
    if archive == [] then 0
    else (if IsCounted(archive[0]) then PlannedSize(archive[0]) else 0) + TotalPlanned(archive[1..])
  }

  lemma ReadableMeans(archive: seq<Member>, fs: Fs)
    ensures AllReadable(archive, ReadingOf(fs)) <==> AllEnclosed(archive) && AllFit(archive, fs)
  {
    var read := ReadingOf(fs);
    forall m
      ensures read(m).Ignored? || read(m).Fit? <==> EnclosedName(m.name).Some? && (IsCounted(m) ==> IsFit(m, fs)) {}
  }

  lemma {:induction false} SizeMeans(archive: seq<Member>, fs: Fs)
    requires AllFit(archive, fs)
    ensures ReadSize(archive, ReadingOf(fs)) == TotalPlanned(archive)
  {
    if archive != [] {
      assert archive[0] in archive;
      assert forall m :: m in archive[1..] ==> m in archive;
      SizeMeans(archive[1..], fs);
    }
  }

  lemma NamesMean(archive: seq<Member>, fs: Fs)
    requires AllFit(archive, fs)
    ensures NamesDiffer(archive, ReadingOf(fs)) <==> RecordedNamesDiffer(archive)
  {
    var read := ReadingOf(fs);
    forall i | 0 <= i < |archive|
      ensures read(archive[i]).Fit? <==> IsCounted(archive[i])
      ensures read(archive[i]).Fit? ==> read(archive[i]).name == RecordedName(archive[i])
    {
      assert archive[i] in archive;
    }
  }

  /** The first pass accepts an archive exactly when every name is enclosed, and of the
      members that are not excluded none is blocked, each is a folder or at most 4 GiB, the
      recorded names differ, and the sizes total at most 2^64 - 1; the plan is that total. */
  lemma FirstPassAcceptsIff(archive: seq<Member>, fs: Fs)
    ensures var r := PlanRest(archive, CheckAgainst(fs), Plan({}, 0));
            (r.Ok? <==> AllEnclosed(archive) && AllFit(archive, fs) && RecordedNamesDiffer(archive)
                        && TotalPlanned(archive) <= 18_446_744_073_709_551_615)
            && (r.Ok? ==> r.value == TotalPlanned(archive))
  {
    CheckFollows(fs);
    PlanIff(archive, CheckAgainst(fs), ReadingOf(fs), Plan({}, 0));
    ReadableMeans(archive, fs);
    if AllFit(archive, fs) {
      SizeMeans(archive, fs);
      NamesMean(archive, fs);
    }
  }

  // ----- The duplicate check is by spelling -----

  lemma {:induction false} ReplaceKeepsLength(s: string)
    ensures |Replace(s, BACKSLASH, SLASH)| == |s|
  {
    if s != [] { ReplaceKeepsLength(s[1..]); }
  }

  lemma DotIsDropped(parts: seq<string>)
    ensures DropEmpty(["."] + parts) == DropEmpty(parts)
  {
    TailOfConcat(["."], parts);
    NilPlus(DropEmpty(parts));
  }

  /** Every enclosed name can be spelled differently for the same path. */
  lemma EveryNameHasAnAlias(name: string)
    requires EnclosedName(name).Some?
    ensures EnclosedName("./" + name) == EnclosedName(name)
    ensures Replace("./" + name, BACKSLASH, SLASH) != Replace(name, BACKSLASH, SLASH)
  {
    var alias := "./" + name;
    assert alias == "." + SLASH + name;
    SplitPiece(".", name);
    DotIsDropped(Split(name, SLASH));
    assert '\0' !in alias by { assert forall i :: 2 <= i < |alias| ==> alias[i] == name[i - 2] && name[i - 2] in name; }
    ReplaceKeepsLength(alias);
    ReplaceKeepsLength(name);
  }

  lemma AliasOfPlainName(name: string, path: Path)
    requires NamesFile(name, path) && name != [] && '\\' !in name
    ensures NamesFile("./" + name, path)
  {
    var alias := "./" + name;
    EveryNameHasAnAlias(name);
    assert alias[|alias| - 1] == name[|name| - 1];
    assert '\\' !in alias by { assert forall i :: 2 <= i < |alias| ==> alias[i] == name[i - 2] && name[i - 2] in name; }
    ContainsOneChar(alias, '\\');
    ReplaceWithoutOccurrence(alias, BACKSLASH, SLASH);
  }

  lemma AliasNamesFile(path: Path)
    requires ValidPath(path)
    ensures NamesFile("./" + MemberName(path), path)
  {
    MemberNamesFile(path);
    MemberNameIsJoin(path);
    JoinStart(path);
    JoinLacks(path, '\\');
    AliasOfPlainName(MemberName(path), path);
  }

  /** A member under its plain name and one under an alias of it, as `a` and `./a`. */
  function Spelled(path: Path, x: seq<Utf8.byte>, y: seq<Utf8.byte>): seq<Member>
    requires path != []
  {
    [Member(MemberName(path), x), Member("./" + MemberName(path), y)]
  }

  lemma TotalOfTwo(archive: seq<Member>)
    requires |archive| == 2 && IsCounted(archive[0]) && IsCounted(archive[1])
    ensures TotalPlanned(archive) == PlannedSize(archive[0]) + PlannedSize(archive[1])
  {
    assert archive[1..] == [archive[1]];
    assert [archive[1]][1..] == [];
  }

  lemma SpelledIsPlanned(fs: Fs, path: Path, x: seq<Utf8.byte>, y: seq<Utf8.byte>)
    requires ValidPath(path) && !IsBackupExcluded(path) && Unblocked(fs, path)
    requires |x| <= MAX_FILE_BYTES && |y| <= MAX_FILE_BYTES
    ensures PlanRest(Spelled(path, x, y), CheckAgainst(fs), Plan({}, 0)).Ok?
  {
    var archive := Spelled(path, x, y);
    MemberNamesFile(path);
    AliasNamesFile(path);
    BlockedMeans(fs, path);
    EveryNameHasAnAlias(MemberName(path));
    assert archive == [archive[0], archive[1]];
    TwoAreAcceptedIff(archive[0], archive[1], fs);
  }

  lemma FitsAgain(fs: Fs, path: Path, x: seq<Utf8.byte>)
    requires FitsAt(fs, path)
    ensures FitsAt(PutFile(fs, Saved(path, x)), path)
  {
    var once := PutFile(fs, Saved(path, x));
    forall k | 0 <= k <= |path| && path[..k] in once
      ensures if k < |path| then once[path[..k]].FsDir? else once[path[..k]].FsFile?
    {
      assert k == |path| ==> path[..k] == path;
    }
  }

  lemma ExtractTwo(a: Member, b: Member, fs: Fs)
    requires ExtractMember(a, fs).error.None? && ExtractMember(b, ExtractMember(a, fs).fs).error.None?
    ensures ExtractRest([a, b], fs) == ExtractMember(b, ExtractMember(a, fs).fs)
  {
    var both, last := [a, b], [b];
    assert both[1..] == last && last[1..] == [];
    assert ExtractRest(last, ExtractMember(a, fs).fs) == ExtractMember(b, ExtractMember(a, fs).fs);
  }

  lemma SpelledIsExtracted(fs: Fs, path: Path, x: seq<Utf8.byte>, y: seq<Utf8.byte>)
    requires ValidPath(path) && !IsBackupExcluded(path) && FitsAt(fs, path)
    ensures var r := ExtractRest(Spelled(path, x, y), fs);
            r.error.None? && r.fs == PutFile(PutFile(fs, Saved(path, x)), Saved(path, y))
  {
    var a, b := Member(MemberName(path), x), Member("./" + MemberName(path), y);
    ValidResolves(path);
    MemberNamesFile(path);
    AliasNamesFile(path);
    FitsAgain(fs, path, x);
    NamedTwice(a, b, path, fs);
  }

  lemma NamedTwice(a: Member, b: Member, path: Path, fs: Fs)
    requires NamesFile(a.name, path) && NamesFile(b.name, path)
    requires ValidPath(path) && !IsBackupExcluded(path) && Resolve(path) == path
    requires FitsAt(fs, path) && FitsAt(PutFile(fs, Saved(path, a.content)), path)
    ensures var r := ExtractRest([a, b], fs);
            r.error.None? && r.fs == PutFile(PutFile(fs, Saved(path, a.content)), Saved(path, b.content))
  {
    ExtractNamed(a, path, fs);
    ExtractNamed(b, path, PutFile(fs, Saved(path, a.content)));
    ExtractTwo(a, b, fs);
  }

  /** So two members can be accepted for one file, and the later one wins: the duplicate
      check compares spellings, not destinations. */
  lemma AliasOverwrites(fs: Fs, path: Path, x: seq<Utf8.byte>, y: seq<Utf8.byte>)
    requires ValidPath(path) && !IsBackupExcluded(path) && FitsAt(fs, path) && ([] in fs ==> fs[[]].FsDir?)
    requires |x| <= MAX_FILE_BYTES && |y| <= MAX_FILE_BYTES
    ensures var r := Import(Spelled(path, x, y), fs, 0);
            r.error.None? && At(r.fs, path) == Some(FsFile(y))
  {
    FitsMeans(fs, path);
    SpelledIsPlanned(fs, path, x, y);
    RootIsFolder(fs, path);
    SpelledIsExtracted(fs[[] := FsDir], path, x, y);
    PrefixIsTake(path, path);
  }

  lemma TheAliasOfA(x: seq<Utf8.byte>, y: seq<Utf8.byte>)
    ensures Spelled(["a"], x, y) == [Member("a", x), Member("./a", y)]
  {
    var path: Path := ["a"];
    MemberNameOfA(path);
    assert "./" + "a" == "./a";
  }

  lemma MemberNameOfA(path: Path)
    requires path == ["a"]
    ensures MemberName(path) == "a"
  {
    var name := "a";
    assert Join(path, SLASH) == name && name[1..] == [];
    assert Replace(name, BACKSLASH, SLASH) == [name[0]] + Replace(name[1..], BACKSLASH, SLASH);
  }

  // ----- When destinations are distinct -----

  /** A name that is spelled as its path is. */
  predicate IsNormal(name: string) {
    EnclosedName(name).Some?
    && var path := EnclosedName(name).value; path != [] && PARENT !in path && name == Join(path, SLASH)
  }

  lemma {:induction false} PlainPathResolves(path: Path)
    requires PARENT !in path
    ensures Resolve(path) == path
  {
    if path != [] {
      var n := |path| - 1;
      assert PARENT !in path[..n] by { assert forall name :: name in path[..n] ==> name in path; }
      PlainPathResolves(path[..n]);
      assert path[n] in path;
      assert path == path[..n] + [path[n]];
    }
  }

  /** An accepted archive whose counted members are spelled normally has no two of them for
      one destination. */
  lemma NormalNamesAreDistinct(archive: seq<Member>, fs: Fs, i: nat, j: nat)
    requires PlanRest(archive, CheckAgainst(fs), Plan({}, 0)).Ok? && i < j < |archive|
    requires IsCounted(archive[i]) && IsCounted(archive[j]) && IsNormal(archive[i].name) && IsNormal(archive[j].name)
    ensures Resolve(EnclosedName(archive[i].name).value) != Resolve(EnclosedName(archive[j].name).value)
  {
    FirstPassAcceptsIff(archive, fs);
    assert RecordedName(archive[i]) != RecordedName(archive[j]);
    PlainPathResolves(EnclosedName(archive[i].name).value);
    PlainPathResolves(EnclosedName(archive[j].name).value);
  }

  /** The one spelling of where a name leads: no empty part, no `.` and no `..`. */
  function NormalSpelling(name: string): string
    requires EnclosedName(name).Some?
  {
    Spelling(Resolve(EnclosedName(name).value))
  }

  function Spelling(path: Path): string {
    if path == [] then [] else Join(path, SLASH)
  }

  ghost predicate IsClean(path: Path) {
    forall part :: part in path ==> part != [] && '/' !in part
  }

  lemma {:induction false} SplitLacksSlash(s: string)
    ensures forall part :: part in Split(s, SLASH) ==> '/' !in part
  {
    if s != [] {
      SplitLacksSlash(s[1..]);
      var rest := Split(s[1..], SLASH);
      assert rest[0] in rest && forall part :: part in rest[1..] ==> part in rest;
    }
  }

  lemma {:induction false} DropEmptyIsClean(parts: seq<string>)
    requires forall part :: part in parts ==> '/' !in part
    ensures IsClean(DropEmpty(parts))
  {
    if parts != [] {
      assert parts[0] in parts && forall part :: part in parts[1..] ==> part in parts;
      DropEmptyIsClean(parts[1..]);
    }
  }

  lemma {:induction false} ResolveIsClean(path: Path)
    requires IsClean(path)
    ensures IsClean(Resolve(path))
  {
    if path != [] {
      var n := |path| - 1;
      assert path[n] in path && forall part :: part in path[..n] ==> part in path;
      ResolveIsClean(path[..n]);
    }
  }

  lemma SpellingIsInjective(p: Path, q: Path)
    requires IsClean(p) && IsClean(q) && Spelling(p) == Spelling(q)
    ensures p == q
  {
    SpellingIsNotEmpty(p);
    SpellingIsNotEmpty(q);
    if p != [] && q != [] {
      SplitJoin(p);
      SplitJoin(q);
    }
  }

  lemma SpellingIsNotEmpty(p: Path)
    requires IsClean(p)
    ensures Spelling(p) == [] <==> p == []
  {
    if p != [] { assert p[0] in p; }
  }

  lemma DestinationIsClean(name: string)
    requires EnclosedName(name).Some?
    ensures IsClean(Resolve(EnclosedName(name).value))
  {
    SplitLacksSlash(name);
    DropEmptyIsClean(Split(name, SLASH));
    ResolveIsClean(EnclosedName(name).value);
  }

  ghost predicate DestinationsDiffer(archive: seq<Member>) {
    forall i, j :: 0 <= i < j < |archive| && IsCounted(archive[i]) && IsCounted(archive[j]) ==>
      Resolve(EnclosedName(archive[i].name).value) != Resolve(EnclosedName(archive[j].name).value)
  }

  ghost predicate NormalSpellingsDiffer(archive: seq<Member>) {
    forall i, j :: 0 <= i < j < |archive| && IsCounted(archive[i]) && IsCounted(archive[j]) ==>
      NormalSpelling(archive[i].name) != NormalSpelling(archive[j].name)
  }

  lemma SameDestination(a: string, b: string)
    requires EnclosedName(a).Some? && EnclosedName(b).Some?
    ensures Resolve(EnclosedName(a).value) == Resolve(EnclosedName(b).value) <==> NormalSpelling(a) == NormalSpelling(b)
  {
    DestinationIsClean(a);
    DestinationIsClean(b);
    if NormalSpelling(a) == NormalSpelling(b) {
      SpellingIsInjective(Resolve(EnclosedName(a).value), Resolve(EnclosedName(b).value));
    }
  }

  /** No file is written by two counted members exactly when their normal spellings differ;
      the first pass compares recorded names instead. */
  lemma DestinationsDifferIff(archive: seq<Member>)
    ensures DestinationsDiffer(archive) <==> NormalSpellingsDiffer(archive)
  {
    forall i, j | 0 <= i < j < |archive| && IsCounted(archive[i]) && IsCounted(archive[j])
      ensures Resolve(EnclosedName(archive[i].name).value) == Resolve(EnclosedName(archive[j].name).value)
         <==> NormalSpelling(archive[i].name) == NormalSpelling(archive[j].name)
    {
      SameDestination(archive[i].name, archive[j].name);
    }
  }

  // ----- What an import leaves at each destination -----

  /** A member that is extracted as a file. */
  predicate IsExtracted(m: Member) {
    IsCounted(m) && !IsDirName(m.name)
  }

  function DestinationOf(m: Member): Path
    requires IsCounted(m)
  {
    Resolve(EnclosedName(m.name).value)
  }

  /** The content of the last file for this path. */
  function LastFor(archive: seq<Member>, p: Path): Option<seq<Utf8.byte>> {
    if archive == [] then None
    else
      var later := LastFor(archive[1..], p);
      if later.Some? then later
      else if IsExtracted(archive[0]) && DestinationOf(archive[0]) == p then Some(archive[0].content)
      else None
  }

  /** Extracting one member writes its own file and leaves what is elsewhere. */
  lemma ExtractOne(m: Member, fs: Fs, p: Path)
    requires ExtractMember(m, fs).error.None?
    ensures var after := ExtractMember(m, fs).fs;
            if IsExtracted(m) && DestinationOf(m) == p then At(after, p) == Some(FsFile(m.content))
            else p in fs ==> At(after, p) == At(fs, p)
  {
  }

  lemma {:induction false} ExtractedIsLast(archive: seq<Member>, fs: Fs, p: Path)
    requires ExtractRest(archive, fs).error.None?
    ensures var after := ExtractRest(archive, fs).fs;
            var last := LastFor(archive, p);
            if last.Some? then At(after, p) == Some(FsFile(last.value)) else p in fs ==> At(after, p) == At(fs, p)
    decreases archive
  {
    if archive != [] {
      ExtractOne(archive[0], fs, p);
      ExtractedIsLast(archive[1..], ExtractMember(archive[0], fs).fs, p);
    }
  }

  lemma {:induction false} LastForMeans(archive: seq<Member>, p: Path)
    ensures LastFor(archive, p).Some? ==>
              exists i :: 0 <= i < |archive| && IsExtracted(archive[i]) && DestinationOf(archive[i]) == p
                          && LastFor(archive, p).value == archive[i].content
    ensures LastFor(archive, p).None? ==>
              forall i :: 0 <= i < |archive| && IsExtracted(archive[i]) ==> DestinationOf(archive[i]) != p
  {
    if archive != [] {
      LastForMeans(archive[1..], p);
      if LastFor(archive[1..], p).Some? {
        var i :| 0 <= i < |archive[1..]| && IsExtracted(archive[1..][i]) && DestinationOf(archive[1..][i]) == p
                 && LastFor(archive[1..], p).value == archive[1..][i].content;
        assert archive[1..][i] == archive[i + 1];
      } else {
        assert forall i :: 0 < i < |archive| ==> archive[i] == archive[1..][i - 1];
      }
    }
  }

  lemma {:induction false} LastForTail(archive: seq<Member>, i: nat, p: Path)
    requires i < |archive| && IsExtracted(archive[i]) && DestinationOf(archive[i]) == p
    ensures var later := LastFor(archive[i + 1..], p);
            LastFor(archive, p) == if later.Some? then later else Some(archive[i].content)
  {
    if i > 0 {
      assert archive[1..][i - 1] == archive[i] && archive[1..][i..] == archive[i + 1..];
      LastForTail(archive[1..], i - 1, p);
    }
  }

  /** The member is a folder there or needs one there to be extracted. */
  ghost predicate NeedsFolder(m: Member, p: Path) {
    IsCounted(m)
    && var comps := EnclosedName(m.name).value;
       exists k :: 0 <= k <= (if IsDirName(m.name) then |comps| else |comps| - 1) && Resolve(comps[..k]) == p
  }

  lemma ExtractOneExactly(m: Member, fs: Fs, p: Path)
    requires ExtractMember(m, fs).error.None?
    ensures At(ExtractMember(m, fs).fs, p)
         == if IsExtracted(m) && DestinationOf(m) == p then Some(FsFile(m.content))
            else if p in fs then At(fs, p)
            else if NeedsFolder(m, p) then Some(FsDir) else None
  {
    ExtractOne(m, fs, p);
    if IsExtracted(m) {
      var comps := EnclosedName(m.name).value;
      StepsAreNeeded(m, comps, p);
      if DestinationOf(m) != p && p !in fs { FileExactly(m, fs, comps, p); }
    } else if IsCounted(m) {
      assert p in Steps(EnclosedName(m.name).value) <==> NeedsFolder(m, p);
    }
  }

  lemma FileExactly(m: Member, fs: Fs, comps: Path, p: Path)
    requires ExtractMember(m, fs).error.None? && IsExtracted(m) && comps == EnclosedName(m.name).value && comps != []
    requires DestinationOf(m) != p && p !in fs
    ensures p in ExtractMember(m, fs).fs <==> p in Steps(comps[..|comps| - 1])
    ensures p in ExtractMember(m, fs).fs ==> ExtractMember(m, fs).fs[p] == FsDir
  {
  }

  lemma StepsAreNeeded(m: Member, comps: Path, p: Path)
    requires IsExtracted(m) && comps == EnclosedName(m.name).value && comps != []
    ensures p in Steps(comps[..|comps| - 1]) <==> NeedsFolder(m, p)
  {
    var init := comps[..|comps| - 1];
    assert forall k :: 0 <= k <= |init| ==> init[..k] == comps[..k];
    if p in Steps(init) {
      var k :| 0 <= k <= |init| && Resolve(init[..k]) == p;
      assert Resolve(comps[..k]) == p;
    }
    if NeedsFolder(m, p) {
      var k :| 0 <= k <= |init| && Resolve(comps[..k]) == p;
      assert Resolve(init[..k]) == p;
    }
  }

  /** What is at every path after any archive has been extracted: the last file for it, else
      what was there before, else a folder if some member needs one there, else nothing. */
  lemma {:induction false} AfterExtraction(archive: seq<Member>, fs: Fs, p: Path)
    requires ExtractRest(archive, fs).error.None?
    ensures At(ExtractRest(archive, fs).fs, p)
         == if LastFor(archive, p).Some? then Some(FsFile(LastFor(archive, p).value))
            else if p in fs then At(fs, p)
            else if SomeNeedsFolder(archive, p) then Some(FsDir) else None
    decreases archive
  {
    if archive != [] {
      ExtractOneExactly(archive[0], fs, p);
      AfterExtraction(archive[1..], ExtractMember(archive[0], fs).fs, p);
      NeedsTail(archive, p);
    }
  }

  ghost predicate SomeNeedsFolder(archive: seq<Member>, p: Path) {
    exists m :: m in archive && NeedsFolder(m, p)
  }

  lemma NeedsTail(archive: seq<Member>, p: Path)
    requires archive != []
    ensures SomeNeedsFolder(archive, p) <==> NeedsFolder(archive[0], p) || SomeNeedsFolder(archive[1..], p)
  {
    assert archive[0] in archive;
    assert forall m :: m in archive <==> m == archive[0] || m in archive[1..];
  }

  ghost predicate IsRestored(after: Fs, m: Member)
    requires IsCounted(m)
  {
    At(after, DestinationOf(m)) == Some(FsFile(m.content))
  }

  /** After a successful import of any archive a file's content is at its destination
      exactly when no later file resolves there, or the last that does has that content. */
  lemma RestoredIff(archive: seq<Member>, fs: Fs, available: nat, i: nat)
    requires Import(archive, fs, available).error.None? && i < |archive| && IsExtracted(archive[i])
    ensures var later := LastFor(archive[i + 1..], DestinationOf(archive[i]));
            IsRestored(Import(archive, fs, available).fs, archive[i]) <==>
            later.None? || later.value == archive[i].content
  {
    var p := DestinationOf(archive[i]);
    ExtractedIsLast(archive, fs[[] := FsDir], p);
    LastForTail(archive, i, p);
  }

  ghost predicate SameSpellingSameContent(archive: seq<Member>) {
    forall i, j :: 0 <= i < j < |archive| && IsExtracted(archive[i]) && IsExtracted(archive[j])
                   && NormalSpelling(archive[i].name) == NormalSpelling(archive[j].name) ==>
      archive[i].content == archive[j].content
  }

  /** A successful import restores every file of the archive exactly when files whose names
      have one normal spelling have one content: the duplicate check lets other archives
      through and loses files of theirs. */
  lemma AllRestoredIff(archive: seq<Member>, fs: Fs, available: nat)
    requires Import(archive, fs, available).error.None?
    ensures (forall m :: m in archive && IsExtracted(m) ==> IsRestored(Import(archive, fs, available).fs, m))
       <==> SameSpellingSameContent(archive)
  {
    var after := Import(archive, fs, available).fs;
    if forall m :: m in archive && IsExtracted(m) ==> IsRestored(after, m) {
      forall i, j | 0 <= i < j < |archive| && IsExtracted(archive[i]) && IsExtracted(archive[j])
                    && NormalSpelling(archive[i].name) == NormalSpelling(archive[j].name)
        ensures archive[i].content == archive[j].content
      {
        SameDestination(archive[i].name, archive[j].name);
        assert archive[i] in archive && archive[j] in archive;
      }
    }
    if SameSpellingSameContent(archive) {
      forall m | m in archive && IsExtracted(m) ensures IsRestored(after, m) {
        var i :| 0 <= i < |archive| && archive[i] == m;
        OwnContentIsLast(archive, i);
        RestoredIff(archive, fs, available, i);
      }
    }
  }

  lemma OwnContentIsLast(archive: seq<Member>, i: nat)
    requires SameSpellingSameContent(archive) && i < |archive| && IsExtracted(archive[i])
    ensures var later := LastFor(archive[i + 1..], DestinationOf(archive[i]));
            later.Some? ==> later.value == archive[i].content
  {
    var p, rest := DestinationOf(archive[i]), archive[i + 1..];
    LastForMeans(rest, p);
    if LastFor(rest, p).Some? {
      var j :| 0 <= j < |rest| && IsExtracted(rest[j]) && DestinationOf(rest[j]) == p
               && LastFor(rest, p).value == rest[j].content;
      assert rest[j] == archive[i + 1 + j];
      SameDestination(archive[i].name, archive[i + 1 + j].name);
    }
  }

  /** Two members that the first pass would accept one by one are accepted together, for one
      destination, exactly when their recorded names differ and their normal spellings do
      not. */
  lemma DuplicateIsMissedIff(a: Member, b: Member, fs: Fs)
    requires IsCounted(a) && IsCounted(b) && IsFit(a, fs) && IsFit(b, fs)
    ensures PlanRest([a, b], CheckAgainst(fs), Plan({}, 0)).Ok?
            && Resolve(EnclosedName(a.name).value) == Resolve(EnclosedName(b.name).value)
       <==> RecordedName(a) != RecordedName(b) && NormalSpelling(a.name) == NormalSpelling(b.name)
  {
    TwoAreAcceptedIff(a, b, fs);
    SameDestination(a.name, b.name);
  }

  lemma TwoAreAcceptedIff(a: Member, b: Member, fs: Fs)
    requires IsCounted(a) && IsCounted(b) && IsFit(a, fs) && IsFit(b, fs)
    ensures PlanRest([a, b], CheckAgainst(fs), Plan({}, 0)).Ok? <==> RecordedName(a) != RecordedName(b)
  {
    var archive := [a, b];
    PairOfMembers(archive, fs);
    PairOfNames(archive);
    FirstPassAcceptsIff(archive, fs);
    TotalOfTwo(archive);
  }

  lemma PairOfMembers(archive: seq<Member>, fs: Fs)
    requires |archive| == 2 && IsCounted(archive[0]) && IsCounted(archive[1])
    requires IsFit(archive[0], fs) && IsFit(archive[1], fs)
    ensures AllEnclosed(archive) && AllFit(archive, fs)
  {
    assert forall m :: m in archive ==> m == archive[0] || m == archive[1];
  }

  lemma PairOfNames(archive: seq<Member>)
    requires |archive| == 2 && IsCounted(archive[0]) && IsCounted(archive[1])
    ensures RecordedNamesDiffer(archive) <==> RecordedName(archive[0]) != RecordedName(archive[1])
  {
  }
}
