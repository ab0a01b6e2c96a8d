/** Relative paths and the archive member names made from them: what `Path::components`
    and the zip reader's `enclosed_name` give for a name (apps/core/src/data_path.rs:638,
    apps/core/src/data_path.rs:704-718). */
module ArchivePaths {
  import opened Text

  /** The components of a relative path. */
  type Path = seq<string>

  const SLASH := "/"
  const BACKSLASH := "\\"
  const PARENT := ".."

  /** A directory entry's name: what a POSIX file system allows, less the backslash. */
  predicate ValidName(name: string) {
    name != [] && name != "." && name != PARENT && '/' !in name && '\\' !in name && '\0' !in name
  }

  predicate ValidPath(path: Path) {
    path != [] && forall name :: name in path ==> ValidName(name)
  }

  /** `rel.to_string_lossy().replace('\\', "/")`. */
  function MemberName(path: Path): string
    requires path != []
  {
    Replace(Join(path, SLASH), BACKSLASH, SLASH)
  }

  /** Empty and `.` components are not components. */
  function DropEmpty(parts: seq<string>): Path {
    if parts == [] then []
    else (if parts[0] == "" || parts[0] == "." then [] else [parts[0]]) + DropEmpty(parts[1..])
  }

  predicate StaysInside(comps: Path, depth: nat) {
    comps == []
    || (if comps[0] == PARENT then depth > 0 && StaysInside(comps[1..], depth - 1)
        else StaysInside(comps[1..], depth + 1))
  }

  /** `ZipFile::enclosed_name`: `None` for a name that is absolute, contains a NUL or
      climbs out of the destination. */
  function EnclosedName(name: string): Option<Path> {
    if '\0' in name || (name != [] && name[0] == '/') then None
    else
      var comps := DropEmpty(Split(name, SLASH));
      if StaysInside(comps, 0) then Some(comps) else None
  }

  /** Where a path leads when no link is on it. */
  function Resolve(comps: Path): Path {
    if comps == [] then []
    else
      var init := Resolve(comps[..|comps| - 1]);
      var last := comps[|comps| - 1];
      if last != PARENT then init + [last] else if init == [] then [] else init[..|init| - 1]
  }

  /** How many of the components go up. */
  function Ups(comps: Path): nat {
    if comps == [] then 0 else (if comps[0] == PARENT then 1 else 0) + Ups(comps[1..])
  }

  /** No first part of the path goes up more often than it goes down. */
  ghost predicate NeverClimbsOut(comps: Path, depth: nat) {
    forall k :: 0 <= k <= |comps| ==> Ups(comps[..k]) <= depth + (k - Ups(comps[..k]))
  }

  lemma {:induction false} UpsAtMost(comps: Path)
    ensures Ups(comps) <= |comps|
  {
    if comps != [] { UpsAtMost(comps[1..]); }
  }

  lemma UpsOfMore(comps: Path, k: nat)
    requires comps != [] && k <= |comps| - 1
    ensures Ups(comps[..k + 1]) == (if comps[0] == PARENT then 1 else 0) + Ups(comps[1..][..k])
  {
    assert comps[..k + 1][1..] == comps[1..][..k];
  }

  lemma {:induction false} StaysInsideIff(comps: Path, depth: nat)
    ensures StaysInside(comps, depth) <==> NeverClimbsOut(comps, depth)
    decreases comps
  {
    if comps != [] {
      var up := comps[0] == PARENT;
      forall k | 0 <= k <= |comps| - 1
        ensures Ups(comps[..k + 1]) == (if up then 1 else 0) + Ups(comps[1..][..k])
      {
        UpsOfMore(comps, k);
      }
      if up && depth == 0 {
        assert Ups(comps[..1]) == 1 + Ups(comps[1..][..0]);
      } else {
        var next := if up then depth - 1 else depth + 1;
        StaysInsideIff(comps[1..], next);
        ClimbTail(comps, depth, next);
      }
    }
  }

  lemma ClimbTail(comps: Path, depth: nat, next: nat)
    requires comps != [] && next == (if comps[0] == PARENT then depth - 1 else depth + 1)
    ensures NeverClimbsOut(comps, depth) <==> NeverClimbsOut(comps[1..], next)
  {
    if NeverClimbsOut(comps, depth) {
      forall k | 0 <= k <= |comps[1..]| ensures Ups(comps[1..][..k]) <= next + (k - Ups(comps[1..][..k])) {
        UpsOfMore(comps, k);
        assert Ups(comps[..k + 1]) <= depth + (k + 1 - Ups(comps[..k + 1]));
      }
    }
    if NeverClimbsOut(comps[1..], next) {
      forall k | 0 <= k <= |comps| ensures Ups(comps[..k]) <= depth + (k - Ups(comps[..k])) {
        if k > 0 {
          UpsOfMore(comps, k - 1);
          assert Ups(comps[1..][..k - 1]) <= next + (k - 1 - Ups(comps[1..][..k - 1]));
        }
      }
    }
  }

  /** A name is enclosed exactly when it has no NUL, is not absolute and never climbs above
      where it starts, not even to come back; its path is its pieces between the slashes but
      for the empty ones and the dots. */
  lemma EnclosedIff(name: string)
    ensures var parts := DropEmpty(Split(name, SLASH));
            && (EnclosedName(name).Some? <==>
                  '\0' !in name && (name == [] || name[0] != '/') && NeverClimbsOut(parts, 0))
            && (EnclosedName(name).Some? ==> EnclosedName(name).value == parts)
  {
    StaysInsideIff(DropEmpty(Split(name, SLASH)), 0);
  }

  /** Going down and up again leads nowhere, and above the start there is nothing. */
  lemma DownAndUp(comps: Path, name: string)
    requires name != PARENT
    ensures Resolve(comps + [name]) == Resolve(comps) + [name]
    ensures Resolve(comps + [name] + [PARENT]) == Resolve(comps)
    ensures Resolve(comps) == [] ==> Resolve(comps + [PARENT]) == []
  {
    var down := comps + [name];
    var up := down + [PARENT];
    assert down[..|down| - 1] == comps && up[..|up| - 1] == down;
    assert (comps + [PARENT])[..|comps|] == comps;
    assert (Resolve(comps) + [name])[..|Resolve(comps)|] == Resolve(comps);
  }

  // ----- Names made from valid paths are read back as those paths -----

  lemma {:induction false} SplitPiece(a: string, rest: string)
    requires '/' !in a
    ensures Split(a, SLASH) == [a]
    ensures Split(a + SLASH + rest, SLASH) == [a] + Split(rest, SLASH)
  {
    var whole := a + SLASH + rest;
    if a == [] {
      assert whole[1..] == rest;
    } else {
      SplitPiece(a[1..], rest);
      assert a[0] in a;
      assert whole[1..] == a[1..] + SLASH + rest;
      assert [a[0]] + a[1..] == a;
    }
  }

  lemma {:induction false} SplitJoin(path: Path)
    requires path != [] && forall name :: name in path ==> '/' !in name
    ensures Split(Join(path, SLASH), SLASH) == path
  {
    assert path[0] in path;
    if |path| == 1 {
      SplitPiece(path[0], "");
    } else {
      assert forall name :: name in path[1..] ==> name in path;
      SplitJoin(path[1..]);
      SplitPiece(path[0], Join(path[1..], SLASH));
    }
  }

  lemma {:induction false} JoinLacks(path: Path, c: char)
    requires path != [] && c != '/' && forall name :: name in path ==> c !in name
    ensures c !in Join(path, SLASH)
  {
    assert path[0] in path;
    if |path| > 1 {
      assert forall name :: name in path[1..] ==> name in path;
      JoinLacks(path[1..], c);
    }
  }

  lemma ContainsOneChar(s: string, c: char)
    requires c !in s
    ensures !Contains(s, [c])
  {
    forall i: nat ensures !OccursAt(s, [c], i) {
      if i < |s| { assert s[i..i + 1][0] == s[i]; }
    }
  }

  lemma MemberNameIsJoin(path: Path)
    requires ValidPath(path)
    ensures MemberName(path) == Join(path, SLASH)
  {
    JoinLacks(path, '\\');
    ContainsOneChar(Join(path, SLASH), '\\');
    ReplaceWithoutOccurrence(Join(path, SLASH), BACKSLASH, SLASH);
  }

  lemma {:induction false} ValidIsClean(path: Path, depth: nat)
    requires forall name :: name in path ==> ValidName(name)
    ensures DropEmpty(path) == path && StaysInside(path, depth)
  {
    if path != [] {
      assert path[0] in path;
      assert forall name :: name in path[1..] ==> name in path;
      ValidIsClean(path[1..], depth + 1);
    }
  }

  lemma {:induction false} ValidResolves(path: Path)
    requires forall name :: name in path ==> ValidName(name)
    ensures Resolve(path) == path
  {
    if path != [] {
      var n := |path| - 1;
      assert path[n] in path;
      assert forall name :: name in path[..n] ==> name in path;
      ValidResolves(path[..n]);
      assert path == path[..n] + [path[n]];
    }
  }

  lemma JoinStart(path: Path)
    requires ValidPath(path)
    ensures Join(path, SLASH) != [] && Join(path, SLASH)[0] != '/' && Join(path, SLASH)[|Join(path, SLASH)| - 1] != '/'
    ensures Join(path, SLASH)[|Join(path, SLASH)| - 1] != '\\'
    decreases path
  {
    assert path[0] in path;
    if |path| > 1 {
      assert forall name :: name in path[1..] ==> name in path;
      JoinStart(path[1..]);
    }
  }

  /** A valid path's member name is read back as that path, and nothing is lost: it names
      a file, and reading it back resolves to the path itself. */
  lemma MemberNameRoundTrip(path: Path)
    requires ValidPath(path)
    ensures EnclosedName(MemberName(path)) == Some(path) && Resolve(path) == path
    ensures Replace(MemberName(path), BACKSLASH, SLASH) == MemberName(path)
  {
    MemberNameIsJoin(path);
    JoinStart(path);
    JoinLacks(path, '\0');
    SplitJoin(path);
    ValidIsClean(path, 0);
    ValidResolves(path);
  }

  lemma MemberNamesAreDistinct(a: Path, b: Path)
    requires ValidPath(a) && ValidPath(b) && MemberName(a) == MemberName(b)
    ensures a == b
  {
    MemberNameRoundTrip(a);
    MemberNameRoundTrip(b);
  }
}
