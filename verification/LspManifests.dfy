/** What the arbitration of language servers means in the manifests' own fields
    (`resolve_lsp_servers`, apps/core/src/lsp.rs). */
module LspManifests {
  import opened Text
  import opened Order
  import opened Lsp
  import opened LspArbitration

  /** The plugin is enabled, and of the core tier or granted the right to ship servers. */
  ghost predicate IsPermitted(m: Manifest, enabled: Enabled) {
    m.id in enabled && (m.tier.Core? || "pi:extension" in enabled[m.id])
  }

  /** A command that is more than white space, and at least one extension as authored. */
  ghost predicate IsComplete(d: Decl) {
    (exists c :: c in d.command && !IsWhitespace(c)) && d.declared > 0
  }

  /** Some manifest of that id declares the server, may ship it, and the server is complete,
      speaks over stdio and lists the extension. */
  ghost predicate MayOwn(ms: seq<Manifest>, enabled: Enabled, id: string, name: string, ext: string) {
    exists m :: m in ms && MayOwnBy(m, enabled, id, name, ext)
  }

  ghost predicate MayOwnBy(m: Manifest, enabled: Enabled, id: string, name: string, ext: string) {
    && m.id == id && IsPermitted(m, enabled) && name in m.servers
    && IsComplete(m.servers[name]) && m.servers[name].transport.Stdio? && ext in m.servers[name].normalized
  }

  /** The server is started for the extension. */
  ghost predicate IsServedFor(r: Resolution, id: string, name: string, ext: string) {
    exists s :: s in r.servers && s.pluginId == id && s.serverName == name && ext in s.config.normalized
  }

  lemma ValidatesMeans(d: Decl)
    ensures Validates(d) <==> IsComplete(d)
  {
    TrimmedAwayIff(d.command);
  }

  lemma MayOwnMeans(m: Manifest, enabled: Enabled, i: Item, ext: string)
    requires IsItemOf(m, enabled, i)
    ensures Claims(i, ext) <==> MayOwnBy(m, enabled, i.pluginId, i.serverName, ext)
  {
    ValidatesMeans(i.decl);
  }

  lemma MayOwnIsClaimed(ms: seq<Manifest>, enabled: Enabled, id: string, name: string, ext: string)
    ensures MayOwn(ms, enabled, id, name, ext) <==>
            exists i :: Declares(ms, enabled, i) && Claims(i, ext) && i.pluginId == id && i.serverName == name
  {
    if m :| m in ms && MayOwnBy(m, enabled, id, name, ext) {
      var i := ItemFor(m, enabled, name);
      assert IsItemOf(m, enabled, i);
      MayOwnMeans(m, enabled, i, ext);
    }
    if i :| Declares(ms, enabled, i) && Claims(i, ext) && i.pluginId == id && i.serverName == name {
      var m :| m in ms && IsItemOf(m, enabled, i);
      MayOwnMeans(m, enabled, i, ext);
    }
  }

  /** A declaration is named by its plugin and its server. */
  lemma OneDeclaration(ms: seq<Manifest>, enabled: Enabled, i: Item, j: Item)
    requires DistinctIds(ms) && Declares(ms, enabled, i) && Declares(ms, enabled, j)
    requires i.pluginId == j.pluginId && i.serverName == j.serverName
    ensures i == j
  {
    var m :| m in ms && IsItemOf(m, enabled, i);
    var n :| n in ms && IsItemOf(n, enabled, j);
    var k :| 0 <= k < |ms| && ms[k] == m;
    var l :| 0 <= l < |ms| && ms[l] == n;
    assert k == l;
  }

  ghost predicate ComesFirst(id: string, name: string, id2: string, name2: string) {
    Precedes(id, id2) || (id == id2 && Precedes(name, name2))
  }

  /** No other server that may own the extension comes first. */
  ghost predicate NoneComesFirst(ms: seq<Manifest>, enabled: Enabled, id: string, name: string, ext: string) {
    forall id2, name2 :: MayOwn(ms, enabled, id2, name2, ext) && !(id2 == id && name2 == name) ==>
      ComesFirst(id, name, id2, name2)
  }

  lemma FirstAmongItems(ms: seq<Manifest>, enabled: Enabled, i: Item, ext: string)
    requires DistinctIds(ms) && Declares(ms, enabled, i)
    ensures NoneComesFirst(ms, enabled, i.pluginId, i.serverName, ext) <==>
            forall x :: Declares(ms, enabled, x) && Claims(x, ext) && x != i ==>
              ComesFirst(i.pluginId, i.serverName, x.pluginId, x.serverName)
  {
    if NoneComesFirst(ms, enabled, i.pluginId, i.serverName, ext) {
      forall x | Declares(ms, enabled, x) && Claims(x, ext) && x != i
        ensures ComesFirst(i.pluginId, i.serverName, x.pluginId, x.serverName)
      {
        MayOwnIsClaimed(ms, enabled, x.pluginId, x.serverName, ext);
        if x.pluginId == i.pluginId && x.serverName == i.serverName { OneDeclaration(ms, enabled, x, i); }
      }
    }
    forall id, name | MayOwn(ms, enabled, id, name, ext)
      ensures exists x :: Declares(ms, enabled, x) && Claims(x, ext) && x.pluginId == id && x.serverName == name
    {
      MayOwnIsClaimed(ms, enabled, id, name, ext);
    }
  }

  /** A server is started for an extension exactly when it may own it and comes first, by
      plugin id and then by server name, among all that may. */
  lemma OwnerInTheManifests(ms: seq<Manifest>, enabled: Enabled, id: string, name: string, ext: string)
    requires DistinctIds(ms)
    ensures IsServedFor(Resolve(ms, enabled), id, name, ext) <==>
            MayOwn(ms, enabled, id, name, ext) && NoneComesFirst(ms, enabled, id, name, ext)
  {
    MayOwnIsClaimed(ms, enabled, id, name, ext);
    var r := Resolve(ms, enabled);
    if i :| Declares(ms, enabled, i) && i.pluginId == id && i.serverName == name {
      OwnerIsLeast(ms, enabled, i, ext);
      FirstAmongItems(ms, enabled, i, ext);
      assert Owns(r, i, ext) <==> IsServedFor(r, id, name, ext);
      if x :| Declares(ms, enabled, x) && Claims(x, ext) && x.pluginId == id && x.serverName == name {
        OneDeclaration(ms, enabled, x, i);
      }
    }
    if s :| s in r.servers && s.pluginId == id && s.serverName == name && ext in s.config.normalized {
      ServedAsDeclared(ms, enabled, s);
    }
  }

  /** A declaration that may own nothing is skipped under `<plugin id>/<server name>`, for the
      first of these reasons: its plugin may not ship servers, it is not complete, it does
      not speak over stdio. */
  lemma SkippedWithReason(ms: seq<Manifest>, enabled: Enabled, m: Manifest, name: string)
    requires m in ms && m.id in enabled && name in m.servers
    ensures var key, d, skipped := m.id + "/" + name, m.servers[name], Resolve(ms, enabled).skipped;
            && (!IsPermitted(m, enabled) ==> Skip(key, NotPermitted) in skipped)
            && (IsPermitted(m, enabled) && !IsComplete(d) ==> Skip(key, Invalid) in skipped)
            && (IsPermitted(m, enabled) && IsComplete(d) && !d.transport.Stdio? ==>
                  Skip(key, TransportNotSupported) in skipped)
  {
    var i := ItemFor(m, enabled, name);
    assert IsItemOf(m, enabled, i);
    ValidatesMeans(i.decl);
    DeclarationIsAccountedFor(ms, enabled, i);
  }
}
