/** The wire document of the arbitrated servers (`to_wire_document`, apps/core/src/lsp.rs)
    and the plugin ids that make its keys (`validate_plugin_id`,
    crates/core/kernel-contracts/src/manifest.rs). */
module LspDocument {
  import opened Text
  import opened Lsp
  import opened LspArbitration

  // ----- The document -----

  function ServerKey(s: Server): string {
    Key(s.pluginId, s.serverName)
  }

  /** Inserting in order: a later server with the same key replaces an earlier one. */
  function Wire(servers: seq<Server>): map<string, Decl> {
    if servers == [] then map[]
    else
      var last := servers[|servers| - 1];
      Wire(servers[..|servers| - 1])[ServerKey(last) := last.config]
  }

  /** `to_wire_document`. */
  method ToWireDocument(servers: seq<Server>) returns (document: map<string, Decl>)
    ensures document == Wire(servers)
  {
    document := map[];
    for i := 0 to |servers|
      invariant document == Wire(servers[..i])
    {
      assert servers[..i + 1][..i] == servers[..i];
      document := document[Key(servers[i].pluginId, servers[i].serverName) := servers[i].config];
    }
    assert servers[..|servers|] == servers;
  }

  ghost predicate DistinctKeys(servers: seq<Server>) {
    forall i, j :: 0 <= i < j < |servers| ==> ServerKey(servers[i]) != ServerKey(servers[j])
  }

  lemma {:induction false} WireKeepsEach(servers: seq<Server>, i: nat)
    requires DistinctKeys(servers) && i < |servers|
    ensures ServerKey(servers[i]) in Wire(servers) && Wire(servers)[ServerKey(servers[i])] == servers[i].config
    decreases servers
  {
    var n := |servers| - 1;
    if i < n { WireKeepsEach(servers[..n], i); }
  }

  lemma {:induction false} WireHasOnly(servers: seq<Server>, key: string)
    requires key in Wire(servers)
    ensures exists s :: s in servers && ServerKey(s) == key
    decreases servers
  {
    var n := |servers| - 1;
    if ServerKey(servers[n]) == key {
      assert servers[n] in servers;
    } else {
      WireHasOnly(servers[..n], key);
      var s :| s in servers[..n] && ServerKey(s) == key;
      assert s in servers;
    }
  }

  // ----- Plugin ids -----

  const MAX_PLUGIN_ID_LEN: nat := 128

  predicate IsIdChar(c: char) {
    IsAlphanumeric(c) || c == '.' || c == '-' || c == '_'
  }

  /** `validate_flat_plugin_id`. */
  ghost predicate IsFlatId(id: string) {
    0 < |id| <= MAX_PLUGIN_ID_LEN
    && (forall c :: c in id ==> IsIdChar(c))
    && !Contains(id, "..")
    && id[0] != '.' && id[|id| - 1] != '.' && id[0] != '-'
  }

  /** `@scope/name`, with both halves flat ids. */
  ghost predicate IsScopedId(id: string, scope: string, name: string) {
    |id| <= MAX_PLUGIN_ID_LEN && id == ['@'] + Key(scope, name) && IsFlatId(scope) && IsFlatId(name)
  }

  /** `validate_plugin_id`: a flat id, or a scoped one with exactly one slash. */
  ghost predicate IsPluginId(id: string) {
    IsFlatId(id) || exists scope, name :: IsScopedId(id, scope, name)
  }

  lemma FlatIdsAreClean(id: string)
    requires IsFlatId(id)
    ensures '/' !in id && '@' !in id && id[0] != '@'
  {
    assert id[0] in id;
  }

  lemma FirstSlash(a: string, x: string)
    requires '/' !in a
    ensures Key(a, x)[|a|] == '/' && forall i :: 0 <= i < |a| ==> Key(a, x)[i] != '/'
    ensures Key(a, x)[..|a|] == a && Key(a, x)[|a| + 1..] == x
  {
  }

  lemma SlashFreeKeys(a: string, x: string, b: string, y: string)
    requires '/' !in a && '/' !in b && Key(a, x) == Key(b, y)
    ensures a == b && x == y
  {
    FirstSlash(a, x);
    FirstSlash(b, y);
  }

  /** A scoped id's key, past the `@`: its two slashes end the scope and the name. */
  lemma ScopedKey(id: string, scope: string, name: string, x: string)
    requires IsScopedId(id, scope, name)
    ensures Key(id, x) == ['@'] + Key(scope, Key(name, x))
  {
  }

  lemma ScopedKeysAreInjective(a: string, s1: string, n1: string, x: string,
                               b: string, s2: string, n2: string, y: string)
    requires IsScopedId(a, s1, n1) && IsScopedId(b, s2, n2) && Key(a, x) == Key(b, y)
    ensures a == b && x == y
  {
    ScopedKey(a, s1, n1, x);
    ScopedKey(b, s2, n2, y);
    assert Key(a, x)[1..] == Key(s1, Key(n1, x)) && Key(b, y)[1..] == Key(s2, Key(n2, y));
    FlatIdsAreClean(s1);
    FlatIdsAreClean(n1);
    FlatIdsAreClean(s2);
    FlatIdsAreClean(n2);
    SlashFreeKeys(s1, Key(n1, x), s2, Key(n2, y));
    SlashFreeKeys(n1, x, n2, y);
  }

  lemma FlatIsNotScoped(a: string, x: string, b: string, scope: string, name: string, y: string)
    requires IsFlatId(a) && IsScopedId(b, scope, name)
    ensures Key(a, x) != Key(b, y)
  {
    FlatIdsAreClean(a);
    assert Key(a, x)[0] == a[0] && Key(b, y)[0] == '@';
  }

  /** `<plugin id>/<server name>` determines both, for every two validated plugin ids: a
      slash in a scoped id causes no collision. */
  lemma KeysAreInjective(a: string, x: string, b: string, y: string)
    requires IsPluginId(a) && IsPluginId(b) && Key(a, x) == Key(b, y)
    ensures a == b && x == y
  {
    if IsFlatId(a) && IsFlatId(b) {
      FlatIdsAreClean(a);
      FlatIdsAreClean(b);
      SlashFreeKeys(a, x, b, y);
    } else if IsFlatId(a) {
      var scope, name :| IsScopedId(b, scope, name);
      FlatIsNotScoped(a, x, b, scope, name, y);
    } else {
      var s1, n1 :| IsScopedId(a, s1, n1);
      if IsFlatId(b) {
        FlatIsNotScoped(b, y, a, s1, n1, x);
      } else {
        var s2, n2 :| IsScopedId(b, s2, n2);
        ScopedKeysAreInjective(a, s1, n1, x, b, s2, n2, y);
      }
    }
  }

  // ----- Every server is in the document -----

  lemma ServersHaveDistinctKeys(ms: seq<Manifest>, enabled: Enabled)
    requires DistinctIds(ms) && forall m :: m in ms ==> IsPluginId(m.id)
    ensures DistinctKeys(Resolve(ms, enabled).servers)
  {
    var servers := Resolve(ms, enabled).servers;
    forall s | s in servers ensures IsPluginId(s.pluginId) {
      ServedAsDeclared(ms, enabled, s);
    }
    ServersAreDistinct(ms, enabled);
    forall i, j | 0 <= i < j < |servers| ensures ServerKey(servers[i]) != ServerKey(servers[j]) {
      assert servers[i] in servers && servers[j] in servers;
      if ServerKey(servers[i]) == ServerKey(servers[j]) {
        KeysAreInjective(servers[i].pluginId, servers[i].serverName, servers[j].pluginId, servers[j].serverName);
      }
    }
  }

  /** For every list of validated manifests the document holds every served server under
      its own key, and nothing else. */
  lemma DocumentKeepsEveryServer(ms: seq<Manifest>, enabled: Enabled)
    requires DistinctIds(ms) && forall m :: m in ms ==> IsPluginId(m.id)
    ensures var r := Resolve(ms, enabled);
            (forall s :: s in r.servers ==>
                ServerKey(s) in Wire(r.servers) && Wire(r.servers)[ServerKey(s)] == s.config)
            && (forall key :: key in Wire(r.servers) ==> exists s :: s in r.servers && ServerKey(s) == key)
  {
    var servers := Resolve(ms, enabled).servers;
    ServersHaveDistinctKeys(ms, enabled);
    forall s | s in servers ensures ServerKey(s) in Wire(servers) && Wire(servers)[ServerKey(s)] == s.config {
      var i: nat :| i < |servers| && servers[i] == s;
      WireKeepsEach(servers, i);
    }
    forall key | key in Wire(servers) ensures exists s :: s in servers && ServerKey(s) == key {
      WireHasOnly(servers, key);
    }
  }
}
