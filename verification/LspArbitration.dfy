/** What the arbitration of `Lsp` decides: who owns an extension, what the decision
    depends on, and that nothing is dropped in silence (apps/core/src/lsp.rs). */
module LspArbitration {
  import opened Text
  import opened Order
  import opened Lsp

  // ----- The order of registration -----

  predicate Before(a: Item, b: Item) {
    Less(a.pluginId, b.pluginId) || (a.pluginId == b.pluginId && Less(a.serverName, b.serverName))
  }

  lemma BeforeIsStrict(a: Item, b: Item)
    ensures !Before(a, a)
    ensures Before(a, b) ==> !Before(b, a)
  {
    LessIrreflexive(a.pluginId);
    LessIrreflexive(a.serverName);
    if Before(a, b) && Before(b, a) {
      if Less(a.pluginId, b.pluginId) {
        LessAsymmetric(a.pluginId, b.pluginId);
      } else {
        LessAsymmetric(a.serverName, b.serverName);
      }
    }
  }

  ghost predicate InOrder(items: seq<Item>) {
    forall i, j :: 0 <= i < j < |items| ==> Before(items[i], items[j])
  }

  ghost predicate SameMembers(a: seq<Item>, b: seq<Item>) {
    forall x :: x in a <==> x in b
  }

  lemma HeadsAgree(a: seq<Item>, b: seq<Item>)
    requires InOrder(a) && InOrder(b) && SameMembers(a, b) && a != []
    ensures b != [] && a[0] == b[0]
  {
    assert a[0] in b;
    var i :| 0 <= i < |b| && b[i] == a[0];
    assert b[0] in a;
    var j :| 0 <= j < |a| && a[j] == b[0];
    if i > 0 && j > 0 { BeforeIsStrict(a[0], b[0]); }
  }

  lemma InOrderTail(a: seq<Item>)
    requires InOrder(a) && a != []
    ensures InOrder(a[1..]) && a[0] !in a[1..]
  {
    BeforeIsStrict(a[0], a[0]);
  }

  /** Only one list in registration order has given members. */
  lemma {:induction false} InOrderIsUnique(a: seq<Item>, b: seq<Item>)
    requires InOrder(a) && InOrder(b) && SameMembers(a, b)
    ensures a == b
  {
    if a == [] {
      assert forall i :: 0 <= i < |b| ==> b[i] in b;
    } else {
      HeadsAgree(a, b);
      InOrderTail(a);
      InOrderTail(b);
      forall x ensures x in a[1..] <==> x in b[1..] {
        assert x in a <==> x == a[0] || x in a[1..];
        assert x in b <==> x == b[0] || x in b[1..];
      }
      InOrderIsUnique(a[1..], b[1..]);
      assert a == [a[0]] + a[1..] && b == [b[0]] + b[1..];
    }
  }

  // ----- The declarations are in that order -----

  ghost predicate DistinctIds(ms: seq<Manifest>) {
    forall i, j :: 0 <= i < j < |ms| ==> ms[i].id != ms[j].id
  }

  ghost predicate AscendingIds(ms: seq<Manifest>) {
    forall i, j :: 0 <= i < j < |ms| ==> Less(ms[i].id, ms[j].id)
  }

  lemma {:induction false} InsertKeepsIds(m: Manifest, ms: seq<Manifest>)
    requires AscendingIds(ms) && forall x :: x in ms ==> x.id != m.id
    ensures AscendingIds(InsertById(m, ms))
  {
    if ms != [] {
      assert ms[0] in ms;
      if Less(ms[0].id, m.id) {
        InsertKeepsIds(m, ms[1..]);
        var rest := InsertById(m, ms[1..]);
        forall j | 0 <= j < |rest| ensures Less(ms[0].id, rest[j].id) {
          InsertByIdMembers(m, ms[1..], rest[j]);
          if rest[j] != m {
            assert rest[j] in rest && rest[j] in ms[1..];
            var k :| 0 <= k < |ms[1..]| && ms[1..][k] == rest[j];
            assert ms[k + 1] == rest[j];
          }
        }
      } else {
        LessTotal(ms[0].id, m.id);
        forall j | 0 < j < |ms| ensures Less(m.id, ms[j].id) { LessTransitive(m.id, ms[0].id, ms[j].id); }
      }
    }
  }

  lemma {:induction false} CandidatesAscend(ms: seq<Manifest>, enabled: Enabled)
    requires DistinctIds(ms)
    ensures AscendingIds(Candidates(ms, enabled))
  {
    if ms != [] {
      CandidatesAscend(ms[1..], enabled);
      forall x | x in Candidates(ms[1..], enabled) ensures x.id != ms[0].id {
        CandidateMembers(ms[1..], enabled, x);
        var k :| 0 <= k < |ms[1..]| && ms[1..][k] == x;
        assert ms[k + 1] == x;
      }
      InsertKeepsIds(ms[0], Candidates(ms[1..], enabled));
    }
  }

  lemma {:induction false} NamedMembers(m: Manifest, enabled: Enabled, names: seq<string>, i: Item)
    requires m.id in enabled && forall n :: n in names ==> n in m.servers
    ensures i in ItemsNamed(m, enabled, names) <==> i.serverName in names && i == ItemFor(m, enabled, i.serverName)
  {
    if names != [] {
      NamedMembers(m, enabled, names[1..], i);
      assert names[0] in names;
      assert i.serverName in names <==> i.serverName == names[0] || i.serverName in names[1..];
    }
  }

  lemma {:induction false} NamedInOrder(m: Manifest, enabled: Enabled, names: seq<string>)
    requires m.id in enabled && (forall n :: n in names ==> n in m.servers) && Ascending(names)
    ensures InOrder(ItemsNamed(m, enabled, names))
  {
    if names != [] {
      NamedInOrder(m, enabled, names[1..]);
      var rest := ItemsNamed(m, enabled, names[1..]);
      forall j | 0 <= j < |rest| ensures Before(ItemFor(m, enabled, names[0]), rest[j]) {
        assert rest[j] in rest;
        NamedMembers(m, enabled, names[1..], rest[j]);
        var k :| 0 <= k < |names[1..]| && names[1..][k] == rest[j].serverName;
        assert names[k + 1] == rest[j].serverName;
      }
    }
  }

  ghost predicate IsItemOf(m: Manifest, enabled: Enabled, i: Item) {
    m.id in enabled && i.serverName in m.servers && i == ItemFor(m, enabled, i.serverName)
  }

  lemma {:induction false} ItemHasManifest(ms: seq<Manifest>, enabled: Enabled, i: Item) returns (m: Manifest)
    requires (forall m :: m in ms ==> m.id in enabled) && i in AllItems(ms, enabled)
    ensures m in ms && IsItemOf(m, enabled, i)
  {
    if i in ItemsOf(ms[0], enabled) {
      m := ms[0];
      NamedMembers(m, enabled, Sorted(m.servers.Keys), i);
    } else {
      m := ItemHasManifest(ms[1..], enabled, i);
    }
  }

  lemma {:induction false} ManifestHasItem(ms: seq<Manifest>, enabled: Enabled, m: Manifest, i: Item)
    requires (forall m :: m in ms ==> m.id in enabled) && m in ms && IsItemOf(m, enabled, i)
    ensures i in AllItems(ms, enabled)
  {
    if m == ms[0] {
      NamedMembers(m, enabled, Sorted(m.servers.Keys), i);
    } else {
      assert m in ms[1..];
      ManifestHasItem(ms[1..], enabled, m, i);
    }
  }

  lemma AllMembers(ms: seq<Manifest>, enabled: Enabled, i: Item)
    requires forall m :: m in ms ==> m.id in enabled
    ensures i in AllItems(ms, enabled) <==> exists m :: m in ms && IsItemOf(m, enabled, i)
  {
    if i in AllItems(ms, enabled) {
      var m := ItemHasManifest(ms, enabled, i);
      assert m in ms && IsItemOf(m, enabled, i);
    }
    if m :| m in ms && IsItemOf(m, enabled, i) { ManifestHasItem(ms, enabled, m, i); }
  }

  lemma ConcatInOrder(a: seq<Item>, b: seq<Item>)
    requires InOrder(a) && InOrder(b) && forall x, y :: x in a && y in b ==> Before(x, y)
    ensures InOrder(a + b)
  {
    forall i, j | 0 <= i < |a| && 0 <= j < |b| ensures Before(a[i], b[j]) { assert a[i] in a && b[j] in b; }
  }

  lemma {:induction false} AllInOrder(ms: seq<Manifest>, enabled: Enabled)
    requires (forall m :: m in ms ==> m.id in enabled) && AscendingIds(ms)
    ensures InOrder(AllItems(ms, enabled))
  {
    if ms != [] {
      assert ms[0] in ms;
      AllInOrder(ms[1..], enabled);
      NamedInOrder(ms[0], enabled, Sorted(ms[0].servers.Keys));
      forall x, y | x in ItemsOf(ms[0], enabled) && y in AllItems(ms[1..], enabled) ensures Before(x, y) {
        NamedMembers(ms[0], enabled, Sorted(ms[0].servers.Keys), x);
        AllMembers(ms[1..], enabled, y);
        var m :| m in ms[1..] && IsItemOf(m, enabled, y);
        var k :| 0 <= k < |ms[1..]| && ms[1..][k] == m;
        assert ms[k + 1] == m;
      }
      ConcatInOrder(ItemsOf(ms[0], enabled), AllItems(ms[1..], enabled));
    }
  }

  /** A declaration of an enabled plugin. */
  ghost predicate Declares(ms: seq<Manifest>, enabled: Enabled, i: Item) {
    exists m :: m in ms && IsItemOf(m, enabled, i)
  }

  lemma ItemsInOrder(ms: seq<Manifest>, enabled: Enabled)
    requires DistinctIds(ms)
    ensures InOrder(Items(ms, enabled))
  {
    var cs := Candidates(ms, enabled);
    forall m | m in cs ensures m.id in enabled { CandidateMembers(ms, enabled, m); }
    CandidatesAscend(ms, enabled);
    AllInOrder(cs, enabled);
  }

  /** The declarations that are arbitrated are those of the enabled plugins. */
  lemma ItemsAreDeclarations(ms: seq<Manifest>, enabled: Enabled, i: Item)
    ensures i in Items(ms, enabled) <==> Declares(ms, enabled, i)
  {
    var cs := Candidates(ms, enabled);
    forall m ensures m in cs <==> m in ms && m.id in enabled && m.servers != map[] { CandidateMembers(ms, enabled, m); }
    AllMembers(cs, enabled, i);
  }

  // ----- What the fold decides -----

  ghost predicate Claims(i: Item, e: string) {
    Eligible(i) && e in i.decl.normalized
  }

  ghost predicate ClaimedBefore(items: seq<Item>, n: nat, e: string)
    requires n <= |items|
  {
    exists j :: 0 <= j < n && Claims(items[j], e)
  }

  ghost predicate FirstClaimant(items: seq<Item>, n: nat, e: string, j: nat)
    requires n <= |items|
  {
    j < n && Claims(items[j], e) && !ClaimedBefore(items, j, e)
  }

  /** An extension is owned once it has been claimed, by whoever claimed it first. */
  ghost predicate OwnerAt(items: seq<Item>, n: nat, owners: map<string, string>, e: string)
    requires n <= |items|
  {
    (e in owners <==> ClaimedBefore(items, n, e))
    && forall j: nat :: FirstClaimant(items, n, e, j) ==> e in owners && owners[e] == KeyOf(items[j])
  }

  lemma FoldStep(items: seq<Item>, n: nat)
    requires n < |items|
    ensures Fold(START, items[..n + 1]) == Step(Fold(START, items[..n]), items[n])
  {
    assert items[..n + 1] == items[..n] + [items[n]];
    FoldConcat(START, items[..n], [items[n]]);
  }

  lemma StepOwner(s: State, i: Item, e: string)
    ensures e in Step(s, i).owners <==> e in s.owners || Claims(i, e)
    ensures e in s.owners ==> Step(s, i).owners[e] == s.owners[e]
    ensures e !in s.owners && Claims(i, e) ==> Step(s, i).owners[e] == KeyOf(i)
  {
    assert Claims(i, e) && e !in s.owners ==> e in Unowned(s.owners, i.decl);
  }

  lemma OwnerNext(items: seq<Item>, n: nat, e: string, before: map<string, string>, after: map<string, string>)
    requires n < |items| && OwnerAt(items, n, before, e)
    requires e in after <==> e in before || Claims(items[n], e)
    requires e in before ==> after[e] == before[e]
    requires e !in before && Claims(items[n], e) ==> after[e] == KeyOf(items[n])
    ensures OwnerAt(items, n + 1, after, e)
  {
    assert ClaimedBefore(items, n + 1, e) <==> ClaimedBefore(items, n, e) || Claims(items[n], e);
    forall j: nat | FirstClaimant(items, n + 1, e, j) ensures e in after && after[e] == KeyOf(items[j]) {
      assert j < n ==> FirstClaimant(items, n, e, j);
    }
  }

  lemma {:induction false} FoldOwner(items: seq<Item>, n: nat, e: string)
    requires n <= |items|
    ensures OwnerAt(items, n, Fold(START, items[..n]).owners, e)
    decreases n
  {
    if n > 0 {
      var s := Fold(START, items[..n - 1]);
      FoldOwner(items, n - 1, e);
      FoldStep(items, n - 1);
      StepOwner(s, items[n - 1], e);
      OwnerNext(items, n - 1, e, s.owners, Step(s, items[n - 1]).owners);
    }
  }

  /** What an item owns: the extensions that nobody claimed before it. */
  ghost function FirstClaims(items: seq<Item>, i: nat): map<string, string>
    requires i < |items|
  {
    map e | e in items[i].decl.normalized && !ClaimedBefore(items, i, e) :: items[i].decl.normalized[e]
  }

  lemma UnownedIsFirst(items: seq<Item>, n: nat)
    requires n < |items|
    ensures Unowned(Fold(START, items[..n]).owners, items[n].decl) == FirstClaims(items, n)
  {
    forall e ensures e in Fold(START, items[..n]).owners <==> ClaimedBefore(items, n, e) { FoldOwner(items, n, e); }
  }

  function Narrowed(i: Item, owned: map<string, string>): Server {
    Server(i.pluginId, i.serverName, i.decl.(normalized := owned))
  }

  lemma StepServers(s: State, i: Item)
    ensures var owned := Unowned(s.owners, i.decl);
            Step(s, i).servers == s.servers + (if Eligible(i) && owned != map[] then [Narrowed(i, owned)] else [])
  {
    NilPlus(s.servers);
  }

  /** The server that an item becomes. */
  ghost predicate Becomes(items: seq<Item>, i: nat, s: Server)
    requires i < |items|
  {
    Eligible(items[i]) && FirstClaims(items, i) != map[] && s == Narrowed(items[i], FirstClaims(items, i))
  }

  lemma ServersStep(items: seq<Item>, n: nat)
    requires n < |items|
    ensures Fold(START, items[..n + 1]).servers
         == Fold(START, items[..n]).servers
            + (if Eligible(items[n]) && FirstClaims(items, n) != map[]
                then [Narrowed(items[n], FirstClaims(items, n))] else [])
  {
    FoldStep(items, n);
    UnownedIsFirst(items, n);
    StepServers(Fold(START, items[..n]), items[n]);
  }

  lemma InServersStep(items: seq<Item>, n: nat, s: Server)
    requires n < |items|
    ensures s in Fold(START, items[..n + 1]).servers <==> s in Fold(START, items[..n]).servers || Becomes(items, n, s)
  {
    ServersStep(items, n);
  }

  lemma {:induction false} FoldServers(items: seq<Item>, n: nat, s: Server)
    requires n <= |items|
    ensures s in Fold(START, items[..n]).servers <==> exists i :: 0 <= i < n && Becomes(items, i, s)
    decreases n
  {
    if n > 0 {
      FoldServers(items, n - 1, s);
      InServersStep(items, n - 1, s);
    }
  }

  // ----- Who owns an extension -----

  ghost predicate OwnsIn(servers: seq<Server>, i: Item, e: string) {
    exists s :: s in servers && s.pluginId == i.pluginId && s.serverName == i.serverName && e in s.config.normalized
  }

  ghost predicate Owns(r: Resolution, i: Item, e: string) {
    OwnsIn(r.servers, i, e)
  }

  lemma OrderedKeys(items: seq<Item>, i: nat, j: nat)
    requires InOrder(items) && i < |items| && j < |items|
    requires items[i].pluginId == items[j].pluginId && items[i].serverName == items[j].serverName
    ensures i == j
  {
    LessIrreflexive(items[i].pluginId);
    LessIrreflexive(items[i].serverName);
  }

  lemma FirstIsLeast(items: seq<Item>, i: nat, e: string)
    requires InOrder(items) && i < |items|
    ensures !ClaimedBefore(items, i, e) <==>
            forall x :: x in items && Claims(x, e) && x != items[i] ==> Before(items[i], x)
  {
    if !ClaimedBefore(items, i, e) {
      forall x | x in items && Claims(x, e) && x != items[i] ensures Before(items[i], x) {
        var k :| 0 <= k < |items| && items[k] == x;
      }
    } else {
      var j :| 0 <= j < i && Claims(items[j], e);
      BeforeIsStrict(items[j], items[i]);
      BeforeIsStrict(items[i], items[i]);
      assert items[j] in items;
    }
  }

  lemma FirstClaimantIsServed(items: seq<Item>, k: nat, e: string)
    requires k < |items| && Claims(items[k], e) && !ClaimedBefore(items, k, e)
    ensures OwnsIn(Fold(START, items).servers, items[k], e)
  {
    assert items[..|items|] == items;
    var s := Narrowed(items[k], FirstClaims(items, k));
    assert e in FirstClaims(items, k);
    FoldServers(items, |items|, s);
    assert Becomes(items, k, s);
    assert s in Fold(START, items).servers;
    assert s.pluginId == items[k].pluginId && e in s.config.normalized;
  }

  lemma ServedIsFirstClaimant(items: seq<Item>, k: nat, e: string)
    requires InOrder(items) && k < |items| && OwnsIn(Fold(START, items).servers, items[k], e)
    ensures Claims(items[k], e) && !ClaimedBefore(items, k, e)
  {
    assert items[..|items|] == items;
    var s :| s in Fold(START, items).servers && s.pluginId == items[k].pluginId && s.serverName == items[k].serverName
             && e in s.config.normalized;
    FoldServers(items, |items|, s);
    var j: nat :| j < |items| && Becomes(items, j, s);
    OrderedKeys(items, j, k);
  }

  /** Each extension is owned by the least (plugin id, server name), in code point order,
      among the enabled, permitted, valid, stdio declarations that claim it, whatever order
      the manifests came in. */
  lemma OwnerIsLeast(ms: seq<Manifest>, enabled: Enabled, i: Item, e: string)
    requires DistinctIds(ms) && Declares(ms, enabled, i)
    ensures Owns(Resolve(ms, enabled), i, e) <==>
            Claims(i, e)
            && forall x :: Declares(ms, enabled, x) && Claims(x, e) && x != i ==>
                 Precedes(i.pluginId, x.pluginId)
                 || (i.pluginId == x.pluginId && Precedes(i.serverName, x.serverName))
  {
    forall x: Item
      ensures Before(i, x) <==> Precedes(i.pluginId, x.pluginId)
                                || (i.pluginId == x.pluginId && Precedes(i.serverName, x.serverName))
    {
      LessIsPrecedes(i.pluginId, x.pluginId);
      LessIsPrecedes(i.serverName, x.serverName);
    }
    OwnerIsFirst(ms, enabled, i, e);
  }

  lemma OwnerIsFirst(ms: seq<Manifest>, enabled: Enabled, i: Item, e: string)
    requires DistinctIds(ms) && Declares(ms, enabled, i)
    ensures Owns(Resolve(ms, enabled), i, e) <==>
            Claims(i, e) && forall x :: Declares(ms, enabled, x) && Claims(x, e) && x != i ==> Before(i, x)
  {
    var items := Items(ms, enabled);
    forall x ensures x in items <==> Declares(ms, enabled, x) { ItemsAreDeclarations(ms, enabled, x); }
    ItemsInOrder(ms, enabled);
    var k: nat :| k < |items| && items[k] == i;
    FirstIsLeast(items, k, e);
    if Claims(i, e) && !ClaimedBefore(items, k, e) { FirstClaimantIsServed(items, k, e); }
    if Owns(Resolve(ms, enabled), i, e) { ServedIsFirstClaimant(items, k, e); }
  }

  /** What is served is a declaration, narrowed to the extensions it owns. */
  lemma ServedAsDeclared(ms: seq<Manifest>, enabled: Enabled, s: Server)
    requires s in Resolve(ms, enabled).servers
    ensures s.config.normalized != map[]
    ensures exists i :: Declares(ms, enabled, i) && Eligible(i) && s == Narrowed(i, s.config.normalized)
                        && forall e :: e in s.config.normalized ==>
                            e in i.decl.normalized && s.config.normalized[e] == i.decl.normalized[e]
  {
    var items := Items(ms, enabled);
    assert items[..|items|] == items;
    FoldServers(items, |items|, s);
    var j: nat :| j < |items| && Becomes(items, j, s);
    assert items[j] in items;
    ItemsAreDeclarations(ms, enabled, items[j]);
  }

  // ----- What the decision depends on -----

  ghost function EligibleOnly(items: seq<Item>): seq<Item> {
    if items == [] then [] else (if Eligible(items[0]) then [items[0]] else []) + EligibleOnly(items[1..])
  }

  lemma {:induction false} EligibleMembers(items: seq<Item>, i: Item)
    ensures i in EligibleOnly(items) <==> i in items && Eligible(i)
  {
    if items != [] {
      EligibleMembers(items[1..], i);
      assert i in items <==> i == items[0] || i in items[1..];
    }
  }

  lemma {:induction false} EligibleInOrder(items: seq<Item>)
    requires InOrder(items)
    ensures InOrder(EligibleOnly(items))
  {
    if items != [] {
      EligibleInOrder(items[1..]);
      var rest := EligibleOnly(items[1..]);
      forall x | x in rest ensures Before(items[0], x) {
        EligibleMembers(items[1..], x);
        var k :| 0 <= k < |items[1..]| && items[1..][k] == x;
        assert items[k + 1] == x;
      }
      if Eligible(items[0]) { ConcatInOrder([items[0]], rest); } else { NilPlus(rest); }
    }
  }

  lemma {:induction false} IneligibleIsInert(s: State, t: State, items: seq<Item>)
    requires s.owners == t.owners && s.servers == t.servers
    ensures Fold(s, items).servers == Fold(t, EligibleOnly(items)).servers
    decreases items
  {
    if items != [] {
      var i := items[0];
      if Eligible(i) {
        TailOfConcat([i], EligibleOnly(items[1..]));
        IneligibleIsInert(Step(s, i), Step(t, i), items[1..]);
      } else {
        NilPlus(EligibleOnly(items[1..]));
        IneligibleIsInert(Step(s, i), t, items[1..]);
      }
    }
  }

  /** The servers depend on the set of eligible declarations and on nothing else: not on
      the order of the manifests, not on unpermitted, invalid or socket declarations. */
  lemma ServersDependOnEligible(ms: seq<Manifest>, enabled: Enabled, ns: seq<Manifest>, enabled': Enabled)
    requires DistinctIds(ms) && DistinctIds(ns)
    requires forall i :: Eligible(i) ==> (Declares(ms, enabled, i) <==> Declares(ns, enabled', i))
    ensures Resolve(ms, enabled).servers == Resolve(ns, enabled').servers
  {
    var a, b := Items(ms, enabled), Items(ns, enabled');
    forall i ensures i in EligibleOnly(a) <==> i in EligibleOnly(b) {
      EligibleMembers(a, i);
      EligibleMembers(b, i);
      ItemsAreDeclarations(ms, enabled, i);
      ItemsAreDeclarations(ns, enabled', i);
    }
    ItemsInOrder(ms, enabled);
    ItemsInOrder(ns, enabled');
    EligibleInOrder(a);
    EligibleInOrder(b);
    InOrderIsUnique(EligibleOnly(a), EligibleOnly(b));
    IneligibleIsInert(START, START, a);
    IneligibleIsInert(START, START, b);
  }

  /** The whole result, skips included, is the same for every permutation of manifests
      with distinct ids. */
  lemma PermutationInvariance(ms: seq<Manifest>, ns: seq<Manifest>, enabled: Enabled)
    requires DistinctIds(ms) && DistinctIds(ns) && multiset(ms) == multiset(ns)
    ensures Resolve(ms, enabled) == Resolve(ns, enabled)
  {
    forall m ensures m in ms <==> m in ns {
      assert m in ms <==> m in multiset(ms);
      assert m in ns <==> m in multiset(ns);
    }
    var a, b := Items(ms, enabled), Items(ns, enabled);
    forall i ensures i in a <==> i in b {
      ItemsAreDeclarations(ms, enabled, i);
      ItemsAreDeclarations(ns, enabled, i);
    }
    ItemsInOrder(ms, enabled);
    ItemsInOrder(ns, enabled);
    InOrderIsUnique(a, b);
  }

  lemma PermutationKeepsIds(ms: seq<Manifest>, k: nat, m: Manifest)
    requires DistinctIds(ms) && k < |ms| && m.id == ms[k].id
    ensures DistinctIds(ms[k := m])
  {
  }

  /** Deleting a declaration that is not eligible leaves the servers unchanged. */
  lemma DeletingIneligible(ms: seq<Manifest>, enabled: Enabled, k: nat, name: string)
    requires DistinctIds(ms) && k < |ms|
    requires ms[k].id in enabled && name in ms[k].servers ==> !Eligible(ItemFor(ms[k], enabled, name))
    ensures Resolve(ms[k := ms[k].(servers := ms[k].servers - {name})], enabled).servers == Resolve(ms, enabled).servers
  {
    var m := ms[k].(servers := ms[k].servers - {name});
    var ns := ms[k := m];
    PermutationKeepsIds(ms, k, m);
    forall i | Eligible(i) ensures Declares(ms, enabled, i) <==> Declares(ns, enabled, i) {
      assert IsItemOf(ms[k], enabled, i) <==> IsItemOf(m, enabled, i);
      if Declares(ms, enabled, i) {
        var x :| x in ms && IsItemOf(x, enabled, i);
        var j :| 0 <= j < |ms| && ms[j] == x;
        assert ns[j] in ns && IsItemOf(ns[j], enabled, i);
      }
      if Declares(ns, enabled, i) {
        var x :| x in ns && IsItemOf(x, enabled, i);
        var j :| 0 <= j < |ns| && ns[j] == x;
        assert ms[j] in ms && IsItemOf(ms[j], enabled, i);
      }
    }
    ServersDependOnEligible(ms, enabled, ns, enabled);
  }

  // ----- Nothing is dropped in silence -----

  lemma {:induction false} ShadowHas(owners: map<string, string>, key: string, exts: seq<string>, e: string)
    requires e in exts && e in owners
    ensures Skip(key, Shadowed(e, owners[e])) in ShadowSkips(owners, key, exts)
  {
    if e != exts[0] { ShadowHas(owners, key, exts[1..], e); }
  }

  ghost predicate IsServed(s: State, i: Item) {
    exists x :: x in s.servers && x.pluginId == i.pluginId && x.serverName == i.serverName
  }

  ghost predicate HasSkip(s: State, i: Item) {
    exists x :: x in s.skipped && x.key == KeyOf(i)
  }

  lemma StepKeeps(s: State, i: Item, x: Skip)
    ensures x in s.skipped ==> x in Step(s, i).skipped
  {
  }

  lemma {:induction false} FoldKeepsSkip(s: State, items: seq<Item>, x: Skip)
    requires x in s.skipped
    ensures x in Fold(s, items).skipped
    decreases items
  {
    if items != [] {
      StepKeeps(s, items[0], x);
      FoldKeepsSkip(Step(s, items[0]), items[1..], x);
    }
  }

  lemma {:induction false} FoldKeepsServer(s: State, items: seq<Item>, x: Server)
    requires x in s.servers
    ensures x in Fold(s, items).servers
    decreases items
  {
    if items != [] {
      StepServers(s, items[0]);
      FoldKeepsServer(Step(s, items[0]), items[1..], x);
    }
  }

  /** Why a declaration that may not claim anything is skipped. */
  function ReasonFor(i: Item): Reason
    requires !Eligible(i)
  {
    if !i.permitted then NotPermitted else if !Validates(i.decl) then Invalid else TransportNotSupported
  }

  lemma StepAccounts(s: State, i: Item)
    ensures !Eligible(i) ==> Skip(KeyOf(i), ReasonFor(i)) in Step(s, i).skipped
    ensures IsServed(Step(s, i), i) || HasSkip(Step(s, i), i)
    ensures Eligible(i) ==> forall e :: e in i.decl.normalized && e in s.owners ==>
              Skip(KeyOf(i), Shadowed(e, s.owners[e])) in Step(s, i).skipped
  {
    var n := Step(s, i);
    if Eligible(i) {
      forall e | e in i.decl.normalized && e in s.owners ensures Skip(KeyOf(i), Shadowed(e, s.owners[e])) in n.skipped {
        ShadowHas(s.owners, KeyOf(i), Sorted(i.decl.normalized.Keys), e);
      }
      if Unowned(s.owners, i.decl) == map[] {
        assert n.skipped[|n.skipped| - 1].key == KeyOf(i) && n.skipped[|n.skipped| - 1] in n.skipped;
      } else {
        var x := n.servers[|n.servers| - 1];
        assert x in n.servers && x.pluginId == i.pluginId && x.serverName == i.serverName;
      }
    } else {
      assert n.skipped[|n.skipped| - 1].key == KeyOf(i) && n.skipped[|n.skipped| - 1] in n.skipped;
    }
  }

  lemma FoldThrough(items: seq<Item>, k: nat)
    requires k < |items|
    ensures Fold(START, items) == Fold(Step(Fold(START, items[..k]), items[k]), items[k + 1..])
  {
    assert items == items[..k + 1] + items[k + 1..];
    FoldConcat(START, items[..k + 1], items[k + 1..]);
    FoldStep(items, k);
  }

  lemma ItemIsAccountedFor(items: seq<Item>, k: nat)
    requires k < |items|
    ensures !Eligible(items[k]) ==> Skip(KeyOf(items[k]), ReasonFor(items[k])) in Fold(START, items).skipped
    ensures IsServed(Fold(START, items), items[k]) || HasSkip(Fold(START, items), items[k])
  {
    var i, rest := items[k], items[k + 1..];
    var s := Fold(START, items[..k]);
    FoldThrough(items, k);
    StepAccounts(s, i);
    if !Eligible(i) { FoldKeepsSkip(Step(s, i), rest, Skip(KeyOf(i), ReasonFor(i))); }
    if IsServed(Step(s, i), i) {
      var x :| x in Step(s, i).servers && x.pluginId == i.pluginId && x.serverName == i.serverName;
      FoldKeepsServer(Step(s, i), rest, x);
    } else {
      var x :| x in Step(s, i).skipped && x.key == KeyOf(i);
      FoldKeepsSkip(Step(s, i), rest, x);
    }
  }

  /** Every declaration of an enabled plugin is served or has a skip under its key, which
      says why when it may not claim anything. */
  lemma DeclarationIsAccountedFor(ms: seq<Manifest>, enabled: Enabled, i: Item)
    requires Declares(ms, enabled, i)
    ensures !Eligible(i) ==> Skip(KeyOf(i), ReasonFor(i)) in Resolve(ms, enabled).skipped
    ensures var r := Resolve(ms, enabled);
            (exists x :: x in r.servers && x.pluginId == i.pluginId && x.serverName == i.serverName)
            || (exists x :: x in r.skipped && x.key == KeyOf(i))
  {
    ItemsAreDeclarations(ms, enabled, i);
    var k: nat :| k < |Items(ms, enabled)| && Items(ms, enabled)[k] == i;
    ItemIsAccountedFor(Items(ms, enabled), k);
  }

  lemma {:induction false} FirstClaimantExists(items: seq<Item>, n: nat, e: string) returns (j: nat)
    requires n <= |items| && ClaimedBefore(items, n, e)
    ensures FirstClaimant(items, n, e, j)
    decreases n
  {
    if ClaimedBefore(items, n - 1, e) { j := FirstClaimantExists(items, n - 1, e); } else { j := n - 1; }
  }

  lemma LostToTheFirst(items: seq<Item>, k: nat, e: string) returns (j: nat)
    requires k < |items| && Claims(items[k], e) && ClaimedBefore(items, k, e)
    ensures FirstClaimant(items, k, e, j)
    ensures Skip(KeyOf(items[k]), Shadowed(e, KeyOf(items[j]))) in Fold(START, items).skipped
  {
    j := FirstClaimantExists(items, k, e);
    var s := Fold(START, items[..k]);
    FoldOwner(items, k, e);
    StepAccounts(s, items[k]);
    FoldThrough(items, k);
    FoldKeepsSkip(Step(s, items[k]), items[k + 1..], Skip(KeyOf(items[k]), Shadowed(e, KeyOf(items[j]))));
  }

  /** Every extension that an eligible declaration claims and does not get has a skip that
      names the server that owns it. */
  lemma LostExtensionIsAccountedFor(ms: seq<Manifest>, enabled: Enabled, i: Item, e: string)
    requires DistinctIds(ms) && Declares(ms, enabled, i) && Claims(i, e) && !Owns(Resolve(ms, enabled), i, e)
    ensures exists w :: Declares(ms, enabled, w) && Owns(Resolve(ms, enabled), w, e)
                        && Skip(KeyOf(i), Shadowed(e, KeyOf(w))) in Resolve(ms, enabled).skipped
  {
    var items := Items(ms, enabled);
    ItemsAreDeclarations(ms, enabled, i);
    var k: nat :| k < |items| && items[k] == i;
    if !ClaimedBefore(items, k, e) { FirstClaimantIsServed(items, k, e); }
    var j := LostToTheFirst(items, k, e);
    FirstClaimantIsServed(items, j, e);
    assert items[j] in items;
    ItemsAreDeclarations(ms, enabled, items[j]);
  }

  // ----- The order of the result -----

  predicate ServerBefore(a: Server, b: Server) {
    Less(a.pluginId, b.pluginId) || (a.pluginId == b.pluginId && Less(a.serverName, b.serverName))
  }

  ghost predicate ServersInOrder(servers: seq<Server>) {
    forall i, j :: 0 <= i < j < |servers| ==> ServerBefore(servers[i], servers[j])
  }

  lemma {:induction false} FoldServersInOrder(items: seq<Item>, n: nat)
    requires InOrder(items) && n <= |items|
    ensures ServersInOrder(Fold(START, items[..n]).servers)
    decreases n
  {
    if n > 0 {
      FoldServersInOrder(items, n - 1);
      ServersStep(items, n - 1);
      var before := Fold(START, items[..n - 1]).servers;
      var last := Narrowed(items[n - 1], FirstClaims(items, n - 1));
      forall k | 0 <= k < |before| ensures ServerBefore(before[k], last) {
        FoldServers(items, n - 1, before[k]);
        var i: nat :| i < n - 1 && Becomes(items, i, before[k]);
        assert Before(items[i], items[n - 1]);
      }
    }
  }

  /** The servers come in (plugin id, server name) order, by code points, no two the
      same. */
  lemma ServersAreDistinct(ms: seq<Manifest>, enabled: Enabled)
    requires DistinctIds(ms)
    ensures ServersInOrder(Resolve(ms, enabled).servers)
    ensures var servers := Resolve(ms, enabled).servers;
            forall i, j :: 0 <= i < j < |servers| ==>
              Precedes(servers[i].pluginId, servers[j].pluginId)
              || (servers[i].pluginId == servers[j].pluginId && Precedes(servers[i].serverName, servers[j].serverName))
    ensures var servers := Resolve(ms, enabled).servers;
            forall i, j :: 0 <= i < j < |servers| ==>
              servers[i].pluginId != servers[j].pluginId || servers[i].serverName != servers[j].serverName
  {
    var items := Items(ms, enabled);
    var servers := Resolve(ms, enabled).servers;
    ItemsInOrder(ms, enabled);
    assert items[..|items|] == items;
    FoldServersInOrder(items, |items|);
    forall i, j | 0 <= i < j < |servers|
      ensures servers[i].pluginId != servers[j].pluginId || servers[i].serverName != servers[j].serverName
      ensures Precedes(servers[i].pluginId, servers[j].pluginId)
              || (servers[i].pluginId == servers[j].pluginId && Precedes(servers[i].serverName, servers[j].serverName))
    {
      LessIsPrecedes(servers[i].pluginId, servers[j].pluginId);
      LessIsPrecedes(servers[i].serverName, servers[j].serverName);
      LessIrreflexive(servers[i].pluginId);
      LessIrreflexive(servers[i].serverName);
    }
  }
}
