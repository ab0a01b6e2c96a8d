/** Two classifiers over tool names that must agree: the effect that gates agents
    (apps/core/src/agent_execution.rs) and the action that connection ceilings admit
    (apps/core/src/connection_policy.rs).  The theorems hold for every vocabulary. */
module ToolPolicy {
  import opened Text

  datatype Effect = Read | Preview | Mutate | External | Unknown

  predicate IsReadOnly(e: Effect) {
    e.Read? || e.Preview?
  }

  /** The word lists.  `delete` belongs to the connection policy, the others to the agent
      gate. */
  datatype Vocabulary = Vocabulary(preview: string -> bool, mutation: string -> bool, external: string -> bool,
                                   read: string -> bool, delete: string -> bool)

  predicate IsPreviewWord(t: string) {
    t in { "preview", "dryrun", "dry", "plan", "validate", "check" }
  }

  predicate IsMutationWord(t: string) {
    t in { "create", "update", "delete", "remove", "destroy", "write", "send", "post", "put", "patch", "execute",
           "exec", "run", "apply", "merge", "deploy", "publish", "transfer", "pay", "email", "message", "upload",
           "attach", "set", "enable", "disable", "configure", "approve", "delegate", "react", "resume" }
  }

  predicate IsExternalWord(t: string) {
    t in { "send", "post", "put", "patch", "execute", "exec", "run", "deploy", "publish", "transfer", "pay", "email",
           "message", "upload", "attach" }
  }

  predicate IsReadWord(t: string) {
    t in { "get", "list", "read", "search", "find", "fetch", "describe", "lookup", "query", "inspect", "status",
           "history", "discover", "enumerate", "metadata", "view", "contents", "retrieve", "whoami" }
  }

  predicate IsDeleteWord(t: string) {
    t in { "delete", "remove", "destroy", "erase", "purge", "clear", "drop", "revoke", "uninstall" }
  }

  /** The shipped word lists. */
  function Shipped(): Vocabulary {
    Vocabulary(IsPreviewWord, IsMutationWord, IsExternalWord, IsReadWord, IsDeleteWord)
  }

  const SET_ACTIVE_TARGET_TOOL_ID := "agent_control.set_active_target"

  // ----- Tokens -----

  /** `split(|c| !c.is_ascii_alphanumeric())`. */
  function Pieces(s: string): (r: seq<string>)
    ensures r != []
  {
    if s == [] then [[]]
    else
      var rest := Pieces(s[1..]);
      if IsAlphanumeric(s[0]) then [[s[0]] + rest[0]] + rest[1..] else [[]] + rest
  }

  function NonEmpty(pieces: seq<string>): seq<string> {
    if pieces == [] then [] else (if pieces[0] == [] then [] else [pieces[0]]) + NonEmpty(pieces[1..])
  }

  function Tokens(s: string): seq<string> {
    NonEmpty(Pieces(s))
  }

  lemma {:induction false} PiecesOfLower(s: string)
    ensures Pieces(Lower(s)) == LowerAll(Pieces(s))
  {
    if s != [] {
      PiecesOfLower(s[1..]);
      assert Lower(s)[1..] == Lower(s[1..]);
      assert IsAlphanumeric(LowerChar(s[0])) <==> IsAlphanumeric(s[0]);
      assert Lower([s[0]] + Pieces(s[1..])[0]) == [LowerChar(s[0])] + Lower(Pieces(s[1..])[0]);
    }
  }

  lemma {:induction false} NonEmptyOfLower(pieces: seq<string>)
    ensures NonEmpty(LowerAll(pieces)) == LowerAll(NonEmpty(pieces))
  {
    if pieces != [] {
      NonEmptyOfLower(pieces[1..]);
      assert LowerAll(pieces)[1..] == LowerAll(pieces[1..]);
      assert Lower(pieces[0]) == [] <==> pieces[0] == [];
    }
  }

  /** Tokenising commutes with lowering the case. */
  lemma TokensOfLower(s: string)
    ensures Tokens(Lower(s)) == LowerAll(Tokens(s))
  {
    PiecesOfLower(s);
    NonEmptyOfLower(Pieces(s));
  }

  lemma {:induction false} TokenIsPiece(pieces: seq<string>, t: string)
    ensures t in NonEmpty(pieces) <==> t in pieces && t != []
  {
    if pieces != [] {
      TokenIsPiece(pieces[1..], t);
      assert t in pieces <==> t == pieces[0] || t in pieces[1..];
    }
  }

  // ----- The effect of a tool -----

  function FirstIndex(ts: seq<string>, words: string -> bool): Option<nat> {
    if ts == [] then None
    else if words(ts[0]) then Some(0)
    else
      match FirstIndex(ts[1..], words)
      case None => None
      case Some(i) => Some(i + 1)
  }

  function Indices(ts: seq<string>, words: string -> bool): seq<nat> {
    if ts == [] then []
    else
      var n := |ts| - 1;
      Indices(ts[..n], words) + (if words(ts[n]) then [n] else [])
  }

  predicate AnyIn(ts: seq<string>, words: string -> bool) {
    exists t :: t in ts && words(t)
  }

  function Distance(a: nat, b: nat): nat {
    if a < b then b - a else a - b
  }

  function ClassifyTokens(v: Vocabulary, ts: seq<string>): Effect {
    if ts == [] then Unknown
    else
      var preview := FirstIndex(ts, v.preview);
      var mutations := Indices(ts, v.mutation);
      if preview.Some? && |mutations| <= 1 && (mutations == [] || Distance(mutations[0], preview.value) == 1)
          then Preview
      else if mutations != [] then if AnyIn(ts, v.external) then External else Mutate
      else if AnyIn(ts, v.read) then Read
      else Unknown
  }

  /** `classify_tool`. */
  function ClassifyTool(v: Vocabulary, toolId: string): Effect {
    if toolId == SET_ACTIVE_TARGET_TOOL_ID then Mutate else ClassifyTokens(v, Tokens(Lower(toolId)))
  }

  datatype Annotations = Annotations(destructiveHint: Option<bool>, readOnlyHint: Option<bool>)

  function Upper(s: string): string {
    seq(|s|, i requires 0 <= i < |s| => if 'a' <= s[i] <= 'z' then (s[i] as int - 32) as char else s[i])
  }

  function Method(httpMethod: string): string {
    Upper(Trim(httpMethod))
  }

  /** `classify_tool_with_metadata`: a declared method, then a hint, then the name. */
  function ClassifyToolWithMetadata(v: Vocabulary, toolId: string, annotations: Option<Annotations>,
                                    httpMethod: Option<string>): Effect
  {
    if httpMethod.Some? then
      var m := Method(httpMethod.value);
      if m == "GET" || m == "HEAD" || m == "OPTIONS" || m == "TRACE" then Read
      else if m == "POST" then External
      else if m == "PUT" || m == "PATCH" || m == "DELETE" then Mutate
      else Unknown
    else if annotations.Some? && annotations.value.destructiveHint == Some(true) then Mutate
    else if annotations.Some? && annotations.value.readOnlyHint == Some(true) then Read
    else ClassifyTool(v, toolId)
  }

  // ----- The action of a tool -----

  datatype Action = ReadAction | WriteAction | DeleteAction | UnknownAction

  /** `has_delete_token`: lowers each piece rather than the whole name. */
  predicate HasDeleteToken(v: Vocabulary, toolId: string) {
    exists piece :: piece in Pieces(toolId) && v.delete(Lower(piece))
  }

  /** `action_for_tool`. */
  function ActionForTool(v: Vocabulary, toolId: string, annotations: Option<Annotations>,
                         httpMethod: Option<string>): Action
  {
    if httpMethod.Some? then
      var m := Method(httpMethod.value);
      if m == "GET" || m == "HEAD" || m == "OPTIONS" || m == "TRACE" then ReadAction
      else if m == "DELETE" then DeleteAction
      else if m == "POST" || m == "PUT" || m == "PATCH" then
        if HasDeleteToken(v, toolId) then DeleteAction else WriteAction
      else UnknownAction
    else if annotations.Some? && annotations.value.destructiveHint == Some(true) then DeleteAction
    else if annotations.Some? && annotations.value.readOnlyHint == Some(true) then ReadAction
    else
      match ClassifyToolWithMetadata(v, toolId, annotations, httpMethod)
      case Read => ReadAction
      case Preview => ReadAction
      case Mutate => if HasDeleteToken(v, toolId) then DeleteAction else WriteAction
      case External => if HasDeleteToken(v, toolId) then DeleteAction else WriteAction
      case Unknown => UnknownAction
  }

  // ----- The gates -----

  datatype Lifecycle = Draft | Trial | Active

  datatype Safety = ReadOnly | ApprovalRequired | VerifiedPlanOnly | Autonomous

  datatype Denial = InDraft | EffectUnknown | BlockedReadOnly

  /** `ensure_tool_allowed_for_record_with_metadata`. */
  function EnsureToolAllowed(v: Vocabulary, lifecycle: Lifecycle, safety: Safety, toolId: string,
                             annotations: Option<Annotations>, httpMethod: Option<string>): Result<Effect, Denial>
  {
    var effect := ClassifyToolWithMetadata(v, toolId, annotations, httpMethod);
    if lifecycle.Draft? then Err(InDraft)
    else if effect.Unknown? then Err(EffectUnknown)
    else if (lifecycle.Trial? || safety.ReadOnly?) && !IsReadOnly(effect) then Err(BlockedReadOnly)
    else Ok(effect)
  }

  datatype Ceiling = RiskBasedCeiling | ReadOnlyCeiling | WriteCeiling | FullCeiling

  /** `ConnectionAccessLevel::allows_with_approval` (crates/core/vault/src/lib.rs). */
  predicate Admits(ceiling: Ceiling, action: Action, approved: bool) {
    match ceiling
    case RiskBasedCeiling => action.ReadAction? || (approved && !action.UnknownAction?)
    case ReadOnlyCeiling => action.ReadAction?
    case WriteCeiling => action.ReadAction? || action.WriteAction?
    case FullCeiling => !action.UnknownAction?
  }

  // ----- The classifiers agree -----

  /** On every tool name, annotation and method the action is a read exactly when the
      effect is read-only, and unknown exactly when the effect is. */
  lemma ClassifiersCohere(v: Vocabulary, toolId: string, annotations: Option<Annotations>, httpMethod: Option<string>)
    ensures var effect := ClassifyToolWithMetadata(v, toolId, annotations, httpMethod);
            var action := ActionForTool(v, toolId, annotations, httpMethod);
            (action.ReadAction? <==> IsReadOnly(effect)) && (action.UnknownAction? <==> effect.Unknown?)
  {
  }

  /** A trial or read-only agent that is not a draft may run exactly the tools that a
      read-only connection admits, and every ceiling admits those without approval; any
      other agent may run exactly the tools that a full connection admits. */
  lemma GatesCohere(v: Vocabulary, lifecycle: Lifecycle, safety: Safety, toolId: string,
                    annotations: Option<Annotations>, httpMethod: Option<string>, ceiling: Ceiling)
    requires !lifecycle.Draft?
    ensures var allowed := EnsureToolAllowed(v, lifecycle, safety, toolId, annotations, httpMethod).Ok?;
            var action := ActionForTool(v, toolId, annotations, httpMethod);
            if lifecycle.Trial? || safety.ReadOnly?
            then (allowed <==> Admits(ReadOnlyCeiling, action, false)) && (allowed ==> Admits(ceiling, action, false))
            else allowed <==> Admits(FullCeiling, action, false)
  {
    ClassifiersCohere(v, toolId, annotations, httpMethod);
  }

  /** A name with a delete word in any case. */
  ghost predicate NamesADeletion(v: Vocabulary, toolId: string) {
    exists piece :: piece in Pieces(toolId) && v.delete(Lower(piece))
  }

  /** A declared method, in any case and with white space around it, decides alone what the
      effect is, and with the name's delete words what the action is; hints and the rest of
      the name say nothing. */
  lemma DeclaredMethodIff(v: Vocabulary, toolId: string, annotations: Option<Annotations>, httpMethod: string)
    ensures var w := Upper(Trim(httpMethod));
            var action := ActionForTool(v, toolId, annotations, Some(httpMethod));
            && (action.DeleteAction? <==>
                  w == "DELETE" || ((w == "POST" || w == "PUT" || w == "PATCH") && NamesADeletion(v, toolId)))
            && (action.WriteAction? <==> (w == "POST" || w == "PUT" || w == "PATCH") && !NamesADeletion(v, toolId))
            && (action.ReadAction? <==> w == "GET" || w == "HEAD" || w == "OPTIONS" || w == "TRACE")
    ensures var w := Upper(Trim(httpMethod));
            var effect := ClassifyToolWithMetadata(v, toolId, annotations, Some(httpMethod));
            && (effect.External? <==> w == "POST")
            && (effect.Mutate? <==> w == "PUT" || w == "PATCH" || w == "DELETE")
            && (effect.Read? <==> w == "GET" || w == "HEAD" || w == "OPTIONS" || w == "TRACE")
            && !effect.Preview?
  {
  }

  /** So a connection with read-only or write access never runs a declared DELETE, approved
      or not, and one that decides by risk only when it is approved. */
  lemma DeclaredDeleteIsRefused(v: Vocabulary, toolId: string, annotations: Option<Annotations>, httpMethod: string,
                                ceiling: Ceiling, approved: bool)
    requires Upper(Trim(httpMethod)) == "DELETE"
    ensures Admits(ceiling, ActionForTool(v, toolId, annotations, Some(httpMethod)), approved) <==>
            ceiling.FullCeiling? || (ceiling.RiskBasedCeiling? && approved)
  {
    DeclaredMethodIff(v, toolId, annotations, httpMethod);
  }

  /** Each level of access admits more than the one before, by exactly the writes and then
      exactly the deletes; deciding by risk is read-only access until the call is approved,
      and full access then; no level admits what is unknown. */
  lemma CeilingsAreNested(action: Action, approved: bool)
    ensures Admits(ReadOnlyCeiling, action, approved) <==> action.ReadAction?
    ensures Admits(WriteCeiling, action, approved) <==> Admits(ReadOnlyCeiling, action, approved) || action.WriteAction?
    ensures Admits(FullCeiling, action, approved) <==> Admits(WriteCeiling, action, approved) || action.DeleteAction?
    ensures Admits(RiskBasedCeiling, action, approved) <==>
            Admits(if approved then FullCeiling else ReadOnlyCeiling, action, approved)
  {
  }

  /** Why an agent is refused: a draft always, then a tool whose action is unknown, then a
      trial or read-only agent any action but a read. */
  lemma DenialIff(v: Vocabulary, lifecycle: Lifecycle, safety: Safety, toolId: string,
                  annotations: Option<Annotations>, httpMethod: Option<string>)
    ensures var r := EnsureToolAllowed(v, lifecycle, safety, toolId, annotations, httpMethod);
            var action := ActionForTool(v, toolId, annotations, httpMethod);
            && (r == Err(InDraft) <==> lifecycle.Draft?)
            && (r == Err(EffectUnknown) <==> !lifecycle.Draft? && action.UnknownAction?)
            && (r == Err(BlockedReadOnly) <==>
                  (lifecycle.Trial? || (lifecycle.Active? && safety.ReadOnly?))
                  && (action.WriteAction? || action.DeleteAction?))
            && (r.Ok? ==> r.value == ClassifyToolWithMetadata(v, toolId, annotations, httpMethod))
  {
    ClassifiersCohere(v, toolId, annotations, httpMethod);
  }

  /** Changing the active target is a change whatever words its name holds. */
  lemma SettingTheTargetIsAChange(v: Vocabulary)
    ensures ClassifyTool(v, SET_ACTIVE_TARGET_TOOL_ID) == Mutate
    ensures !Admits(ReadOnlyCeiling, ActionForTool(v, SET_ACTIVE_TARGET_TOOL_ID, None, None), false)
    ensures Admits(FullCeiling, ActionForTool(v, SET_ACTIVE_TARGET_TOOL_ID, None, None), false)
  {
  }

  // ----- Names -----

  ghost predicate WordAt(ts: seq<string>, words: string -> bool, i: nat) {
    i < |ts| && words(ts[i])
  }

  lemma {:induction false} FirstIndexMeans(ts: seq<string>, words: string -> bool)
    ensures var r := FirstIndex(ts, words);
            (r.Some? ==> WordAt(ts, words, r.value) && forall j: nat :: j < r.value ==> !WordAt(ts, words, j))
            && (r.None? ==> forall j: nat :: !WordAt(ts, words, j))
  {
    if ts != [] {
      FirstIndexMeans(ts[1..], words);
      forall j: nat | 0 < j < |ts| ensures WordAt(ts, words, j) <==> WordAt(ts[1..], words, j - 1) {}
    }
  }

  lemma {:induction false} IndicesMeans(ts: seq<string>, words: string -> bool)
    ensures forall i: nat :: WordAt(ts, words, i) <==> i in Indices(ts, words)
    ensures forall k, l :: 0 <= k < l < |Indices(ts, words)| ==> Indices(ts, words)[k] < Indices(ts, words)[l]
  {
    if ts != [] {
      var n := |ts| - 1;
      var before := Indices(ts[..n], words);
      IndicesMeans(ts[..n], words);
      forall i: nat ensures WordAt(ts, words, i) <==> i in Indices(ts, words) {
        assert i < n ==> (WordAt(ts, words, i) <==> WordAt(ts[..n], words, i));
      }
      forall k | 0 <= k < |before| ensures before[k] < n {
        assert before[k] in before;
        assert WordAt(ts[..n], words, before[k]);
      }
    }
  }

  lemma TwoMembers(xs: seq<nat>, i: nat, j: nat)
    requires i in xs && j in xs && i != j
    ensures |xs| >= 2
  {
    var p :| 0 <= p < |xs| && xs[p] == i;
    var q :| 0 <= q < |xs| && xs[q] == j;
  }

  lemma IndexIsWord(ts: seq<string>, words: string -> bool, k: nat)
    requires k < |Indices(ts, words)|
    ensures WordAt(ts, words, Indices(ts, words)[k])
  {
    IndicesMeans(ts, words);
    assert Indices(ts, words)[k] in Indices(ts, words);
  }

  lemma NoIndices(ts: seq<string>, words: string -> bool)
    ensures Indices(ts, words) == [] <==> forall i: nat :: !WordAt(ts, words, i)
  {
    IndicesMeans(ts, words);
    if Indices(ts, words) != [] { IndexIsWord(ts, words, 0); }
  }

  lemma TwoMutationTokens(v: Vocabulary, ts: seq<string>, i: nat, j: nat)
    requires i < j && WordAt(ts, v.mutation, i) && WordAt(ts, v.mutation, j)
    ensures ClassifyTokens(v, ts).Mutate? || ClassifyTokens(v, ts).External?
  {
    IndicesMeans(ts, v.mutation);
    TwoMembers(Indices(ts, v.mutation), i, j);
  }

  /** A name with two mutation words, in any case, is never read-only and never unknown
      by name. */
  lemma TwoMutationsAreNeverReadOnly(v: Vocabulary, toolId: string, i: nat, j: nat)
    requires i < j < |Tokens(toolId)| && v.mutation(Lower(Tokens(toolId)[i])) && v.mutation(Lower(Tokens(toolId)[j]))
    ensures ClassifyTool(v, toolId).Mutate? || ClassifyTool(v, toolId).External?
  {
    TokensOfLower(toolId);
    TwoMutationTokens(v, LowerAll(Tokens(toolId)), i, j);
  }

  /** So neither a trial agent nor a read-only one can run it. */
  lemma TwoMutationsAreBlocked(v: Vocabulary, toolId: string, i: nat, j: nat, lifecycle: Lifecycle, safety: Safety)
    requires i < j < |Tokens(toolId)| && v.mutation(Lower(Tokens(toolId)[i])) && v.mutation(Lower(Tokens(toolId)[j]))
    requires lifecycle.Trial? || safety.ReadOnly?
    ensures EnsureToolAllowed(v, lifecycle, safety, toolId, None, None).Err?
  {
    TwoMutationsAreNeverReadOnly(v, toolId, i, j);
  }

  ghost predicate OnlyMutationNextTo(v: Vocabulary, ts: seq<string>, p: nat) {
    (forall m: nat :: WordAt(ts, v.mutation, m) ==> Distance(m, p) == 1)
    && forall m: nat, k: nat :: WordAt(ts, v.mutation, m) && WordAt(ts, v.mutation, k) ==> m == k
  }

  lemma OnlyMutationMeans(v: Vocabulary, ts: seq<string>, p: nat)
    ensures var mutations := Indices(ts, v.mutation);
            OnlyMutationNextTo(v, ts, p) <==> |mutations| <= 1 && (mutations == [] || Distance(mutations[0], p) == 1)
  {
    var mutations := Indices(ts, v.mutation);
    IndicesMeans(ts, v.mutation);
    if mutations != [] { IndexIsWord(ts, v.mutation, 0); }
    if |mutations| > 1 { IndexIsWord(ts, v.mutation, 1); }
    if |mutations| == 1 {
      assert forall m: nat :: m in mutations ==> m == mutations[0];
    }
  }

  /** A name is a preview exactly when its mutation words, if any, are a single one next to
      the first preview word. */
  lemma PreviewIff(v: Vocabulary, ts: seq<string>)
    ensures ClassifyTokens(v, ts).Preview? <==>
            exists p: nat :: WordAt(ts, v.preview, p) && (forall j: nat :: j < p ==> !WordAt(ts, v.preview, j))
                             && OnlyMutationNextTo(v, ts, p)
  {
    var preview := FirstIndex(ts, v.preview);
    FirstIndexMeans(ts, v.preview);
    if preview.Some? { OnlyMutationMeans(v, ts, preview.value); }
    forall p: nat | WordAt(ts, v.preview, p) && (forall j: nat :: j < p ==> !WordAt(ts, v.preview, j))
      ensures preview == Some(p)
    {
      assert preview.Some?;
      assert !(preview.value < p);
    }
  }

  ghost predicate HasWord(ts: seq<string>, words: string -> bool) {
    exists i: nat :: WordAt(ts, words, i)
  }

  lemma AnyInMeans(ts: seq<string>, words: string -> bool)
    ensures AnyIn(ts, words) <==> HasWord(ts, words)
  {
    if AnyIn(ts, words) {
      var t :| t in ts && words(t);
      var i: nat :| i < |ts| && ts[i] == t;
      assert WordAt(ts, words, i);
    }
    if i: nat :| WordAt(ts, words, i) { assert ts[i] in ts; }
  }

  /** What the other effects mean: a mutation word always counts, and is external with a
      word of the external list anywhere in the name; without one a read word decides. */
  lemma EffectIff(v: Vocabulary, ts: seq<string>)
    requires !ClassifyTokens(v, ts).Preview?
    ensures ClassifyTokens(v, ts).External? <==> HasWord(ts, v.mutation) && HasWord(ts, v.external)
    ensures ClassifyTokens(v, ts).Mutate? <==> HasWord(ts, v.mutation) && !HasWord(ts, v.external)
    ensures ClassifyTokens(v, ts).Read? <==> !HasWord(ts, v.mutation) && HasWord(ts, v.read)
    ensures ClassifyTokens(v, ts).Unknown? <==> !HasWord(ts, v.mutation) && !HasWord(ts, v.read)
  {
    NoIndices(ts, v.mutation);
    AnyInMeans(ts, v.external);
    AnyInMeans(ts, v.read);
  }

  /** A destructive hint lets an agent or a connection do what it may not do without the
      hint exactly when no method is declared, no read-only hint is given and the name says
      nothing, so that the hint alone turns an unknown tool into a known one; it never does
      so for an agent that is a draft, a trial or read-only, nor for a connection below full
      access, approved calls of a risk-based one apart. */
  lemma DestructiveHintAdmitsIff(v: Vocabulary, toolId: string, readOnlyHint: Option<bool>, httpMethod: Option<string>,
                                 lifecycle: Lifecycle, safety: Safety, ceiling: Ceiling, approved: bool)
    ensures var hinted, plain := Some(Annotations(Some(true), readOnlyHint)), Some(Annotations(None, readOnlyHint));
            var silent := httpMethod.None? && readOnlyHint != Some(true) && ClassifyTool(v, toolId).Unknown?;
            && (EnsureToolAllowed(v, lifecycle, safety, toolId, hinted, httpMethod).Ok?
                && EnsureToolAllowed(v, lifecycle, safety, toolId, plain, httpMethod).Err?
                <==> silent && lifecycle.Active? && !safety.ReadOnly?)
            && (Admits(ceiling, ActionForTool(v, toolId, hinted, httpMethod), approved)
                && !Admits(ceiling, ActionForTool(v, toolId, plain, httpMethod), approved)
                <==> silent && (ceiling.FullCeiling? || (ceiling.RiskBasedCeiling? && approved)))
  {
    ClassifiersCohere(v, toolId, Some(Annotations(None, readOnlyHint)), httpMethod);
  }

  lemma MutationIsNoRead(v: Vocabulary, ts: seq<string>, i: nat)
    requires WordAt(ts, v.mutation, i)
    ensures ClassifyTokens(v, ts).Preview? || ClassifyTokens(v, ts).Mutate? || ClassifyTokens(v, ts).External?
  {
    NoIndices(ts, v.mutation);
  }

  lemma TokenHasDelete(v: Vocabulary, toolId: string, i: nat)
    requires i < |Tokens(toolId)| && v.delete(Lower(Tokens(toolId)[i]))
    ensures HasDeleteToken(v, toolId)
  {
    assert Tokens(toolId)[i] in Tokens(toolId);
    TokenIsPiece(Pieces(toolId), Tokens(toolId)[i]);
  }

  lemma TokenIsMutation(v: Vocabulary, toolId: string, i: nat)
    requires i < |Tokens(toolId)| && v.mutation(Lower(Tokens(toolId)[i]))
    ensures var e := ClassifyTool(v, toolId); e.Preview? || e.Mutate? || e.External?
  {
    TokensOfLower(toolId);
    MutationIsNoRead(v, LowerAll(Tokens(toolId)), i);
  }

  lemma MutatingIsDelete(v: Vocabulary, toolId: string)
    requires ClassifyTool(v, toolId).Mutate? || ClassifyTool(v, toolId).External?
    requires HasDeleteToken(v, toolId)
    ensures ActionForTool(v, toolId, None, None).DeleteAction?
  {
  }

  /** A word on both the mutation and the delete list, in any case, makes a tool that is
      classified by its name a delete, unless the name is a preview; a write connection
      then refuses it. */
  lemma SharedDeleteWordDeletes(v: Vocabulary, toolId: string, i: nat)
    requires i < |Tokens(toolId)| && v.mutation(Lower(Tokens(toolId)[i])) && v.delete(Lower(Tokens(toolId)[i]))
    requires !ClassifyTool(v, toolId).Preview?
    ensures ActionForTool(v, toolId, None, None).DeleteAction?
    ensures !Admits(WriteCeiling, ActionForTool(v, toolId, None, None), true)
  {
    TokenIsMutation(v, toolId, i);
    TokenHasDelete(v, toolId, i);
    MutatingIsDelete(v, toolId);
  }

  /** Exactly when a name is classed as a delete: with a delete word, in any case, and a
      mutation word, and without being a preview. */
  lemma DeleteByNameIff(v: Vocabulary, toolId: string)
    requires toolId != SET_ACTIVE_TARGET_TOOL_ID
    ensures var ts := Tokens(Lower(toolId));
            ActionForTool(v, toolId, None, None).DeleteAction? <==>
            HasDeleteToken(v, toolId) && HasWord(ts, v.mutation) && !ClassifyTokens(v, ts).Preview?
  {
    var ts := Tokens(Lower(toolId));
    if !ClassifyTokens(v, ts).Preview? { EffectIff(v, ts); }
  }

  /** Exactly when a name is classed as a read, delete words or not: as a preview, or with a
      read word and no mutation word. */
  lemma ReadByNameIff(v: Vocabulary, toolId: string)
    requires toolId != SET_ACTIVE_TARGET_TOOL_ID
    ensures var ts := Tokens(Lower(toolId));
            ActionForTool(v, toolId, None, None).ReadAction? <==>
            ClassifyTokens(v, ts).Preview? || (!HasWord(ts, v.mutation) && HasWord(ts, v.read))
  {
    var ts := Tokens(Lower(toolId));
    if !ClassifyTokens(v, ts).Preview? { EffectIff(v, ts); }
  }

  // ----- The shipped word lists -----

  /** Every external word is a mutation word, so an external word alone makes a name that is
      no preview external. */
  lemma ShippedExternalIff(ts: seq<string>)
    requires !ClassifyTokens(Shipped(), ts).Preview?
    ensures ClassifyTokens(Shipped(), ts).External? <==> HasWord(ts, IsExternalWord)
  {
    EffectIff(Shipped(), ts);
    if i: nat :| WordAt(ts, IsExternalWord, i) { assert WordAt(ts, IsMutationWord, i); }
  }

  predicate IsLowerWord(a: string) {
    a != [] && forall c :: c in a ==> 'a' <= c <= 'z'
  }

  lemma {:induction false} PieceThen(a: string, sep: char, rest: string)
    requires (forall c :: c in a ==> IsAlphanumeric(c)) && !IsAlphanumeric(sep)
    ensures Pieces(a + ([sep] + rest)) == [a] + Pieces(rest)
    ensures Pieces(a) == [a]
  {
    var whole := a + ([sep] + rest);
    if a == [] {
      assert whole[1..] == rest;
    } else {
      assert a[0] in a;
      PieceThen(a[1..], sep, rest);
      assert whole[1..] == a[1..] + ([sep] + rest);
      assert [a[0]] + a[1..] == a;
    }
  }

  lemma LowerWordIsLower(a: string)
    requires forall c :: c in a ==> c == '_' || 'a' <= c <= 'z'
    ensures Lower(a) == a
  {
    assert forall i :: 0 <= i < |a| ==> a[i] in a;
  }

  lemma TwoWords(id: string, a: string, b: string)
    requires IsLowerWord(a) && IsLowerWord(b) && id == a + ("_" + b)
    ensures Pieces(id) == [a, b] && Tokens(id) == [a, b] && Lower(id) == id
  {
    PieceThen(a, '_', b);
    PieceThen(b, '_', "");
    var pieces, last := [a, b], [b];
    assert pieces[1..] == last && last[1..] == [];
    assert NonEmpty(last) == last;
    LowerWordIsLower(id);
  }

  /** A delete word and a read word, neither of them a mutation word. */
  lemma DeleteAndReadWord(v: Vocabulary, id: string, a: string, b: string)
    requires IsLowerWord(a) && IsLowerWord(b) && id == a + ("_" + b) && id != SET_ACTIVE_TARGET_TOOL_ID
    requires v.delete(a) && v.read(b) && !v.mutation(a) && !v.mutation(b)
    ensures HasDeleteToken(v, id) && ActionForTool(v, id, None, None).ReadAction?
  {
    TwoWords(id, a, b);
    var ts := [a, b];
    LowerWordIsLower(a);
    assert a in Pieces(id);
    assert WordAt(ts, v.read, 1);
    assert forall i: nat :: WordAt(ts, v.mutation, i) ==> i == 0 || i == 1;
    ReadByNameIff(v, id);
  }

  lemma ClearIsNoMutation()
    ensures !IsMutationWord("clear") && !IsMutationWord("history")
  {
    var clear, history := "clear", "history";
    assert clear[0] == 'c' && clear[1] == 'l' && history[0] == 'h';
  }

  lemma ClearAndHistoryAreWords()
    ensures IsLowerWord("clear") && IsLowerWord("history")
  {
    var clear, history := "clear", "history";
    assert forall i :: 0 <= i < |clear| ==> 'a' <= clear[i] <= 'z';
    assert forall i :: 0 <= i < |history| ==> 'a' <= history[i] <= 'z';
  }

  /** With the shipped lists `clear_history` holds the delete word `clear`, is classed as a
      read, and passes even a read-only connection. */
  lemma ClearHistoryIsARead(id: string)
    requires id == "clear_history"
    ensures HasDeleteToken(Shipped(), id)
    ensures ActionForTool(Shipped(), id, None, None).ReadAction?
    ensures Admits(ReadOnlyCeiling, ActionForTool(Shipped(), id, None, None), false)
  {
    ClearIsNoMutation();
    ClearAndHistoryAreWords();
    assert id == "clear" + ("_" + "history");
    assert |id| == 13 && |SET_ACTIVE_TARGET_TOOL_ID| == 31;
    DeleteAndReadWord(Shipped(), id, "clear", "history");
  }
}
