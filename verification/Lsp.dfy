/** Language-server arbitration (apps/core/src/lsp.rs): the first registration in the
    order of plugin id and server name owns an extension. */
module Lsp {
  import opened Text
  import opened Order

  datatype Tier = Core | Community

  datatype Transport = Stdio | Socket | Unsupported

  /** A server declaration.  `normalized` is what `normalized_extensions` gives for it,
      `declared` the number of extensions as authored, `rest` every other field. */
  datatype Decl = Decl(command: string, declared: nat, transport: Transport, normalized: map<string, string>,
                       rest: string)

  datatype Manifest = Manifest(id: string, tier: Tier, servers: map<string, Decl>)

  datatype Server = Server(pluginId: string, serverName: string, config: Decl)

  datatype Reason =
    | NotPermitted
    | Invalid
    | TransportNotSupported
    | Shadowed(ext: string, owner: string)
    | NoExtensionOfItsOwn

  datatype Skip = Skip(key: string, reason: Reason)

  datatype Resolution = Resolution(servers: seq<Server>, skipped: seq<Skip>)

  const GRANT_PI_EXTENSION := "pi:extension"

  function Key(pluginId: string, serverName: string): string {
    pluginId + "/" + serverName
  }

  /** `may_ship_pi_extensions`. */
  predicate MayShip(tier: Tier, grants: seq<string>) {
    tier.Core? || GRANT_PI_EXTENSION in grants
  }

  predicate Validates(d: Decl) {
    Trim(d.command) != [] && d.declared > 0
  }

  // ----- One declaration at a time -----

  /** A declaration of an enabled plugin, with the plugin's permission. */
  datatype Item = Item(pluginId: string, serverName: string, permitted: bool, decl: Decl)

  predicate Eligible(i: Item) {
    i.permitted && Validates(i.decl) && i.decl.transport.Stdio?
  }

  function KeyOf(i: Item): string {
    Key(i.pluginId, i.serverName)
  }

  datatype State = State(owners: map<string, string>, servers: seq<Server>, skipped: seq<Skip>)

  function Unowned(owners: map<string, string>, d: Decl): map<string, string> {
    map e | e in d.normalized && e !in owners :: d.normalized[e]
  }

  function ShadowSkips(owners: map<string, string>, key: string, exts: seq<string>): seq<Skip> {
    if exts == [] then []
    else
      (if exts[0] in owners then [Skip(key, Shadowed(exts[0], owners[exts[0]]))] else [])
          + ShadowSkips(owners, key, exts[1..])
  }

  function Claimed(owners: map<string, string>, key: string, owned: map<string, string>): map<string, string> {
    map e | e in owners.Keys + owned.Keys :: if e in owners then owners[e] else key
  }

  function Register(s: State, i: Item): State
    requires Eligible(i)
  {
    var owned := Unowned(s.owners, i.decl);
    var skips := ShadowSkips(s.owners, KeyOf(i), Sorted(i.decl.normalized.Keys));
    if owned == map[] then s.(skipped := s.skipped + skips + [Skip(KeyOf(i), NoExtensionOfItsOwn)])
    else
      State(Claimed(s.owners, KeyOf(i), owned),
            s.servers + [Server(i.pluginId, i.serverName, i.decl.(normalized := owned))],
            s.skipped + skips)
  }

  function Step(s: State, i: Item): State {
    if !i.permitted then s.(skipped := s.skipped + [Skip(KeyOf(i), NotPermitted)])
    else if !Validates(i.decl) then s.(skipped := s.skipped + [Skip(KeyOf(i), Invalid)])
    else if !i.decl.transport.Stdio? then s.(skipped := s.skipped + [Skip(KeyOf(i), TransportNotSupported)])
    else Register(s, i)
  }

  function Fold(s: State, items: seq<Item>): State
    decreases items
  {
    if items == [] then s else Fold(Step(s, items[0]), items[1..])
  }

  const START := State(map[], [], [])

  // ----- The declarations, in order -----

  type Enabled = map<string, seq<string>>

  function ItemFor(m: Manifest, enabled: Enabled, name: string): Item
    requires m.id in enabled && name in m.servers
  {
    Item(m.id, name, MayShip(m.tier, enabled[m.id]), m.servers[name])
  }

  function ItemsNamed(m: Manifest, enabled: Enabled, names: seq<string>): seq<Item>
    requires m.id in enabled && forall n :: n in names ==> n in m.servers
  {
    if names == [] then [] else
      assert names[0] in names;
      [ItemFor(m, enabled, names[0])] + ItemsNamed(m, enabled, names[1..])
  }

  function ItemsOf(m: Manifest, enabled: Enabled): seq<Item>
    requires m.id in enabled
  {
    ItemsNamed(m, enabled, Sorted(m.servers.Keys))
  }

  function AllItems(ms: seq<Manifest>, enabled: Enabled): seq<Item>
    requires forall m :: m in ms ==> m.id in enabled
  {
    if ms == [] then [] else
      assert ms[0] in ms;
      ItemsOf(ms[0], enabled) + AllItems(ms[1..], enabled)
  }

  /** Stable insertion by plugin id. */
  function InsertById(m: Manifest, ms: seq<Manifest>): seq<Manifest> {
    if ms == [] || !Less(ms[0].id, m.id) then [m] + ms else [ms[0]] + InsertById(m, ms[1..])
  }

  /** The enabled plugins that contribute servers, sorted by id. */
  function Candidates(ms: seq<Manifest>, enabled: Enabled): seq<Manifest> {
    if ms == [] then []
    else
      var rest := Candidates(ms[1..], enabled);
      if ms[0].id in enabled && ms[0].servers != map[] then InsertById(ms[0], rest) else rest
  }

  lemma {:induction false} InsertByIdMembers(m: Manifest, ms: seq<Manifest>, x: Manifest)
    ensures x in InsertById(m, ms) <==> x == m || x in ms
  {
    if ms != [] && Less(ms[0].id, m.id) {
      InsertByIdMembers(m, ms[1..], x);
      assert x in ms <==> x == ms[0] || x in ms[1..];
    }
  }

  lemma {:induction false} CandidateMembers(ms: seq<Manifest>, enabled: Enabled, x: Manifest)
    ensures x in Candidates(ms, enabled) <==> x in ms && x.id in enabled && x.servers != map[]
  {
    if ms != [] {
      CandidateMembers(ms[1..], enabled, x);
      InsertByIdMembers(ms[0], Candidates(ms[1..], enabled), x);
      assert x in ms <==> x == ms[0] || x in ms[1..];
    }
  }

  function Items(ms: seq<Manifest>, enabled: Enabled): seq<Item> {
    assert forall m :: m in Candidates(ms, enabled) ==> m.id in enabled by {
      forall m | m in Candidates(ms, enabled) ensures m.id in enabled { CandidateMembers(ms, enabled, m); }
    }
    AllItems(Candidates(ms, enabled), enabled)
  }

  function Resolve(ms: seq<Manifest>, enabled: Enabled): Resolution {
    var s := Fold(START, Items(ms, enabled));
    Resolution(s.servers, s.skipped)
  }

  lemma {:induction false} FoldConcat(s: State, a: seq<Item>, b: seq<Item>)
    ensures Fold(s, a + b) == Fold(Fold(s, a), b)
    decreases a
  {
    if a == [] {
      NilPlus(b);
    } else {
      TailOfConcat(a, b);
      FoldConcat(Step(s, a[0]), a[1..], b);
    }
  }

  // ----- The code -----

  /** What is owned once the extensions in `done` have been looked at. */
  function OwnedAmong(owners: map<string, string>, d: Decl, done: set<string>): map<string, string> {
    map e | e in done && e in d.normalized && e !in owners :: d.normalized[e]
  }

  lemma ClaimOne(owners: map<string, string>, key: string, d: Decl, done: set<string>, ext: string)
    requires ext in d.normalized && ext !in done
    ensures var before, after := OwnedAmong(owners, d, done), OwnedAmong(owners, d, done + {ext});
            (ext in Claimed(owners, key, before) <==> ext in owners)
            && (ext in owners ==> Claimed(owners, key, before)[ext] == owners[ext] && after == before)
            && (ext !in owners ==>
                  after == before[ext := d.normalized[ext]]
                  && Claimed(owners, key, after) == Claimed(owners, key, before)[ext := key])
  {
  }

  function FirstOf(exts: seq<string>, n: nat): set<string>
    requires n <= |exts|
  {
    set k | 0 <= k < n :: exts[k]
  }

  /** A declaration's extensions, each once. */
  ghost predicate Enumerates(exts: seq<string>, d: Decl) {
    (forall i, j :: 0 <= i < j < |exts| ==> exts[i] != exts[j]) && forall e :: e in exts <==> e in d.normalized
  }

  lemma FirstOfGrows(exts: seq<string>, d: Decl, i: nat)
    requires Enumerates(exts, d) && i < |exts|
    ensures exts[i] in d.normalized && exts[i] !in FirstOf(exts, i)
            && FirstOf(exts, i + 1) == FirstOf(exts, i) + {exts[i]}
  {
    assert exts[i] in exts;
  }

  lemma FirstOfAll(owners: map<string, string>, d: Decl, exts: seq<string>)
    requires Enumerates(exts, d)
    ensures OwnedAmong(owners, d, FirstOf(exts, |exts|)) == Unowned(owners, d)
  {
    forall e | e in d.normalized ensures e in FirstOf(exts, |exts|) { assert e in exts; }
  }

  lemma ShadowNext(owners: map<string, string>, key: string, exts: seq<string>, i: nat)
    requires i < |exts|
    ensures ShadowSkips(owners, key, exts[i..])
         == (if exts[i] in owners then [Skip(key, Shadowed(exts[i], owners[exts[i]]))] else [])
             + ShadowSkips(owners, key, exts[i + 1..])
  {
    assert exts[i..][1..] == exts[i + 1..];
  }

  /** The body of the innermost loop. */
  method ClaimExtension(ghost owners: map<string, string>, key: string, d: Decl, ext: string, ghost done: set<string>,
                        owners0: map<string, string>, owned0: map<string, string>, skips0: seq<Skip>)
    returns (owners1: map<string, string>, owned1: map<string, string>, skips1: seq<Skip>)
    requires ext in d.normalized && ext !in done
    requires owned0 == OwnedAmong(owners, d, done) && owners0 == Claimed(owners, key, owned0)
    ensures owned1 == OwnedAmong(owners, d, done + {ext}) && owners1 == Claimed(owners, key, owned1)
    ensures skips1 == skips0 + (if ext in owners then [Skip(key, Shadowed(ext, owners[ext]))] else [])
  {
    ClaimOne(owners, key, d, done, ext);
    owners1, owned1, skips1 := owners0, owned0, skips0;
    if ext in owners1 {
      skips1 := skips1 + [Skip(key, Shadowed(ext, owners1[ext]))];
    } else {
      owners1 := owners1[ext := key];
      owned1 := owned1[ext := d.normalized[ext]];
    }
  }

  /** The innermost loop: claim what nobody owns yet. */
  method ClaimEach(owners: map<string, string>, key: string, d: Decl, exts: seq<string>)
    returns (owners': map<string, string>, owned: map<string, string>, skips: seq<Skip>)
    requires Enumerates(exts, d)
    ensures owned == Unowned(owners, d) && owners' == Claimed(owners, key, owned)
    ensures skips == ShadowSkips(owners, key, exts)
  {
    owners', owned, skips := owners, map[], [];
    assert FirstOf(exts, 0) == {};
    for i := 0 to |exts|
      invariant owned == OwnedAmong(owners, d, FirstOf(exts, i))
      invariant owners' == Claimed(owners, key, owned)
      invariant skips + ShadowSkips(owners, key, exts[i..]) == ShadowSkips(owners, key, exts)
    {
      var ext := exts[i];
      FirstOfGrows(exts, d, i);
      ShadowNext(owners, key, exts, i);
      ghost var before := skips;
      owners', owned, skips := ClaimExtension(owners, key, d, ext, FirstOf(exts, i), owners', owned, skips);
      Assoc(before, if ext in owners then [Skip(key, Shadowed(ext, owners[ext]))] else [],
            ShadowSkips(owners, key, exts[i + 1..]));
    }
    FirstOfAll(owners, d, exts);
    NilPlus(skips);
  }

  method ClaimExtensions(owners: map<string, string>, key: string, d: Decl)
    returns (owners': map<string, string>, owned: map<string, string>, skips: seq<Skip>)
    ensures owned == Unowned(owners, d) && owners' == Claimed(owners, key, owned)
    ensures skips == ShadowSkips(owners, key, Sorted(d.normalized.Keys))
  {
    AscendingIsInjective(Sorted(d.normalized.Keys));
    owners', owned, skips := ClaimEach(owners, key, d, Sorted(d.normalized.Keys));
  }

  /** The body of the loop over one manifest's servers. */
  method Consider(s: State, i: Item) returns (r: State)
    requires i.permitted
    ensures r == Step(s, i)
  {
    var key := Key(i.pluginId, i.serverName);
    if !Validates(i.decl) { return s.(skipped := s.skipped + [Skip(key, Invalid)]); }
    if i.decl.transport != Stdio { return s.(skipped := s.skipped + [Skip(key, TransportNotSupported)]); }
    var owners, owned, skips := ClaimExtensions(s.owners, key, i.decl);
    if owned == map[] {
      assert owners == s.owners;
      return s.(skipped := s.skipped + skips + [Skip(key, NoExtensionOfItsOwn)]);
    }
    return State(owners, s.servers + [Server(i.pluginId, i.serverName, i.decl.(normalized := owned))],
                 s.skipped + skips);
  }

  /** The loop over one manifest's servers, in key order. */
  method ConsiderManifest(s: State, m: Manifest, enabled: Enabled) returns (r: State)
    requires m.id in enabled
    ensures r == Fold(s, ItemsOf(m, enabled))
  {
    r := s;
    var names := Sorted(m.servers.Keys);
    for k := 0 to |names|
      invariant Fold(r, ItemsNamed(m, enabled, names[k..])) == Fold(s, ItemsOf(m, enabled))
    {
      assert names[k] in names && names[k..][0] == names[k] && names[k..][1..] == names[k + 1..];
      var item := ItemFor(m, enabled, names[k]);
      TailOfConcat([item], ItemsNamed(m, enabled, names[k + 1..]));
      if !item.permitted {
        r := r.(skipped := r.skipped + [Skip(Key(m.id, names[k]), NotPermitted)]);
      } else {
        r := Consider(r, item);
      }
    }
  }

  /** `resolve_lsp_servers`. */
  method ResolveLspServers(ms: seq<Manifest>, enabled: Enabled) returns (r: Resolution)
    ensures r == Resolve(ms, enabled)
  {
    var candidates := Candidates(ms, enabled);
    var s := START;
    forall m | m in candidates ensures m.id in enabled { CandidateMembers(ms, enabled, m); }
    for k := 0 to |candidates|
      invariant Fold(s, AllItems(candidates[k..], enabled)) == Fold(START, AllItems(candidates, enabled))
    {
      assert candidates[k] in candidates;
      assert candidates[k..][0] == candidates[k] && candidates[k..][1..] == candidates[k + 1..];
      FoldConcat(s, ItemsOf(candidates[k], enabled), AllItems(candidates[k + 1..], enabled));
      s := ConsiderManifest(s, candidates[k], enabled);
    }
    r := Resolution(s.servers, s.skipped);
  }
}
