/** Export of the data folder (apps/core/src/data_path.rs): the denylist and the archive
    writer.  The zip library is a sequence of members. */
module DataExport {
  import opened Text
  import opened ArchivePaths
  import opened DataTree
  import Utf8

  /** `BACKUP_EXCLUDE_NAMES`. */
  predicate IsExcludedName(name: string) {
    name in {
      "accounts.json", ".reset-pending", "auth.json", "bootstrap-ack.token", "core.token", "delegation-ed25519.pub",
      "fleet-artifacts", "fleet-desired.json", "fleet-enforcement.json", "fleet-enrolled-node.json",
      "fleet-enrollment-pending.json", "fleet-identity.json", "fleet-instance-id.json", "fleet-skill-blocks.json",
      "fleet-status.json", "gateway-admin.key", "gateway-durable.token", "gateway-relay.token", "mcp.json",
      "models.json", "node-auth.token", "node-control.token", "nodes.json", "paired-clients.json",
      "pi-accounts.db", "plugin-credentials", "plugin-secrets.db", "org-project-mappings.json", "ryu-core.pid"
    }
  }

  /** `is_backup_excluded`: by basename only.  A path ending in `..` has no basename. */
  predicate IsBackupExcluded(path: Path) {
    path != [] && path[|path| - 1] != PARENT && IsExcludedName(path[|path| - 1])
  }

  /** Credentials, keys and provider accounts stay behind, and what is not listed travels. */
  lemma CredentialsStayBehind()
    ensures IsExcludedName("accounts.json") && IsExcludedName("auth.json") && IsExcludedName("core.token")
    ensures IsExcludedName("gateway-admin.key") && IsExcludedName("plugin-credentials")
    ensures IsExcludedName("plugin-secrets.db") && !IsExcludedName("agents.db")
  {
    var agents := "agents.db";
    assert agents[0] == 'a' && agents[1] == 'g';
  }

  datatype Member = Member(name: string, content: seq<Utf8.byte>)

  /** The walk of `export_zip`: every regular file outside the denylist. */
  function Backup(tree: Listing): seq<Saved> {
    FilesUnder([], tree, IsExcludedName)
  }

  function Archive(files: seq<Saved>): (archive: seq<Member>)
    requires forall s :: s in files ==> s.path != []
    ensures |archive| == |files|
    ensures forall i :: 0 <= i < |files| ==> archive[i] == Member(MemberName(files[i].path), files[i].content)
  {
    seq(|files|, i requires 0 <= i < |files| => Member(MemberName(files[i].path), files[i].content))
  }

  class ZipWriter {
    var members: seq<Member>
    var written: nat

    constructor ()
      ensures members == [] && written == 0
    {
      members, written := [], 0;
    }
  }

  ghost predicate Appended(before: seq<Member>, n: nat, files: seq<Saved>, after: seq<Member>, m: nat) {
    (forall s :: s in files ==> s.path != []) && after == before + Archive(files) && m == n + TotalSize(files)
  }

  lemma AppendedNothing(before: seq<Member>, n: nat)
    ensures Appended(before, n, [], before, n)
  {
  }

  lemma AppendedTwice(before: seq<Member>, n: nat, a: seq<Saved>, mid: seq<Member>, k: nat, b: seq<Saved>,
                      after: seq<Member>, m: nat)
    requires Appended(before, n, a, mid, k) && Appended(mid, k, b, after, m)
    ensures Appended(before, n, a + b, after, m)
  {
    TotalSizeConcat(a, b);
    assert Archive(a + b) == Archive(a) + Archive(b);
    Assoc(before, Archive(a), Archive(b));
  }

  /** `zip_dir`: appends the files below `dir` to the archive, and counts their bytes. */
  method ZipDir(dir: Path, entries: Listing, zip: ZipWriter)
    modifies zip
    ensures Appended(old(zip.members), old(zip.written), FilesUnder(dir, entries, IsExcludedName),
                     zip.members, zip.written)
    decreases entries, 1
  {
    var left := entries;
    ghost var done: seq<Saved> := [];
    AppendedNothing(zip.members, zip.written);
    while left.Entry?
      invariant left == entries || left < entries
      invariant Appended(old(zip.members), old(zip.written), done, zip.members, zip.written)
      invariant done + FilesUnder(dir, left, IsExcludedName) == FilesUnder(dir, entries, IsExcludedName)
      decreases left
    {
      ghost var members, written := zip.members, zip.written;
      ghost var here := FilesOf(dir + [left.name], left.name, left.node, IsExcludedName);
      ZipEntry(dir, left.name, left.node, zip);
      AppendedTwice(old(zip.members), old(zip.written), done, members, written, here, zip.members, zip.written);
      Assoc(done, here, FilesUnder(dir, left.rest, IsExcludedName));
      done := done + here;
      left := left.rest;
    }
    assert done + [] == done;
  }

  /** The loop body of `zip_dir`. */
  method ZipEntry(dir: Path, name: string, node: Node, zip: ZipWriter)
    modifies zip
    ensures Appended(old(zip.members), old(zip.written), FilesOf(dir + [name], name, node, IsExcludedName),
                     zip.members, zip.written)
    decreases node, 2
  {
    var rel := dir + [name];
    if IsExcludedName(name) { return; }
    if node.Folder? {
      ZipDir(rel, node.entries, zip);
    } else if node.File? {
      zip.members := zip.members + [Member(MemberName(rel), node.content)];
      zip.written := zip.written + |node.content|;
    }
  }

  /** `export_zip` once the destination has been accepted. */
  method ExportZip(tree: Listing) returns (archive: seq<Member>, written: nat)
    ensures Appended([], 0, Backup(tree), archive, written)
  {
    var zip := new ZipWriter();
    ZipDir([], tree, zip);
    archive, written := zip.members, zip.written;
  }

  /** What `export_zip` archives: a member for every regular file with no excluded name
      anywhere on its path, each once, and `written` is their total size. */
  lemma BackupIsExact(tree: Listing, path: Path, content: seq<Utf8.byte>)
    requires WellFormed(tree)
    ensures Saved(path, content) in Backup(tree) <==>
            Lookup(tree, path) == Some(File(content)) && Clear(path, IsExcludedName)
    ensures DistinctPaths(Backup(tree)) && Antichain(Backup(tree))
  {
    NilPlus(path);
    FilesAreLookups([], tree, IsExcludedName, path, content);
    PathsAreDistinct([], tree, IsExcludedName);
    PathsAreAntichain(tree, IsExcludedName);
  }

  lemma BackupIsValid(tree: Listing, s: Saved)
    requires WellFormed(tree) && s in Backup(tree)
    ensures ValidPath(s.path) && !IsBackupExcluded(s.path)
  {
    SavedIsLookup(tree, IsExcludedName, s);
    assert s.path[|s.path| - 1] in s.path;
  }
}
