/** Tool aliases for the on-device selector (apps/core/src/needle2.rs): generating a
    function name per candidate, and reading the model's calls back. */
module Needle2 {
  import opened Text
  import Utf8

  // ----- Decimal numbers -----

  function Digit(d: nat): char
    requires d < 10
  {
    ('0' as int + d) as char
  }

  /** `index.to_string()`. */
  function Decimal(n: nat): (s: string)
    ensures s != [] && forall c :: c in s ==> '0' <= c <= '9'
  {
    if n < 10 then [Digit(n)] else Decimal(n / 10) + [Digit(n % 10)]
  }

  function ValueOf(s: string): int {
    if s == [] then 0 else ValueOf(s[..|s| - 1]) * 10 + (s[|s| - 1] as int - '0' as int)
  }

  lemma {:induction false} DecimalRoundTrip(n: nat)
    ensures ValueOf(Decimal(n)) == n
  {
    if n < 10 {
      assert ValueOf([]) == 0;
    } else {
      DecimalRoundTrip(n / 10);
      assert Decimal(n)[..|Decimal(n)| - 1] == Decimal(n / 10);
    }
  }

  // ----- The name of a candidate -----

  predicate IsNameChar(c: char) {
    'a' <= c <= 'z' || '0' <= c <= '9' || c == '_'
  }

  predicate IsName(s: string) {
    forall c :: c in s ==> IsNameChar(c)
  }

  predicate EndsWithUnderscore(s: string) {
    s != [] && s[|s| - 1] == '_'
  }

  /** Letters and digits in lower case, every other run of bytes as one underscore. */
  function Normalized(bytes: seq<Utf8.byte>): string {
    if bytes == [] then []
    else
      var before := Normalized(bytes[..|bytes| - 1]);
      var b := bytes[|bytes| - 1];
      if IsAlphanumeric(b as char) then before + [LowerChar(b as char)]
      else if EndsWithUnderscore(before) then before
      else before + ['_']
  }

  function TrimLeft(s: string): string {
    if s != [] && s[0] == '_' then TrimLeft(s[1..]) else s
  }

  function TrimRight(s: string): string {
    if s != [] && s[|s| - 1] == '_' then TrimRight(s[..|s| - 1]) else s
  }

  const MAX_NAME := 48

  /** The length left for the stem of a name with this index. */
  function StemLength(index: nat): nat {
    var overhead := |Decimal(index)| + 6;
    if MAX_NAME > overhead then MAX_NAME - overhead else 1
  }

  function Stem(id: string, index: nat): string {
    var trimmed := TrimRight(TrimLeft(Normalized(Utf8.Encode(id))));
    var name := if trimmed == [] then "candidate" else trimmed;
    if |name| <= StemLength(index) then name else name[..StemLength(index)]
  }

  function NameOf(id: string, index: nat): string {
    "ryu_" + Stem(id, index) + "_" + Decimal(index)
  }

  /** `function_name`. */
  method FunctionName(id: string, index: nat) returns (name: string)
    ensures name == NameOf(id, index)
  {
    var bytes := Utf8.Encode(id);
    var normalized: string := [];
    for i := 0 to |bytes|
      invariant normalized == Normalized(bytes[..i])
    {
      assert bytes[..i + 1][..i] == bytes[..i];
      if IsAlphanumeric(bytes[i] as char) {
        normalized := normalized + [LowerChar(bytes[i] as char)];
      } else if !EndsWithUnderscore(normalized) {
        normalized := normalized + ['_'];
      }
    }
    assert bytes[..|bytes|] == bytes;
    normalized := TrimRight(TrimLeft(normalized));
    if normalized == [] { normalized := "candidate"; }
    var stem := if |normalized| <= StemLength(index) then normalized else normalized[..StemLength(index)];
    name := "ryu_" + stem + "_" + Decimal(index);
  }

  // ----- Names are well formed -----

  lemma {:induction false} NormalizedIsName(bytes: seq<Utf8.byte>)
    ensures IsName(Normalized(bytes))
    ensures forall i :: 0 < i < |Normalized(bytes)| ==>
            !(Normalized(bytes)[i - 1] == '_' && Normalized(bytes)[i] == '_')
  {
    if bytes != [] { NormalizedIsName(bytes[..|bytes| - 1]); }
  }

  lemma {:induction false} TrimmedIsName(s: string)
    requires IsName(s)
    ensures IsName(TrimLeft(s)) && IsName(TrimRight(s))
    decreases |s|
  {
    if s != [] && s[0] == '_' { TrimmedIsName(s[1..]); }
    if s != [] && s[|s| - 1] == '_' { TrimmedIsName(s[..|s| - 1]); }
  }

  lemma StemIsName(id: string, index: nat)
    ensures IsName(Stem(id, index)) && 0 < |Stem(id, index)| <= StemLength(index)
  {
    var normalized := Normalized(Utf8.Encode(id));
    NormalizedIsName(Utf8.Encode(id));
    TrimmedIsName(normalized);
    TrimmedIsName(TrimLeft(normalized));
  }

  /** A name is lower-case letters, digits and underscores, and at most 47 characters long
      exactly when its index has at most 41 digits. */
  lemma NamesAreWellFormed(id: string, index: nat)
    ensures IsName(NameOf(id, index))
    ensures |NameOf(id, index)| <= 47 <==> |Decimal(index)| <= 41
  {
    StemIsName(id, index);
    assert forall c :: c in Decimal(index) ==> IsNameChar(c);
  }

  /** The letters and digits of a name, in order. */
  function Letters(s: string): string {
    if s == [] then [] else Letters(s[..|s| - 1]) + (if s[|s| - 1] == '_' then [] else [s[|s| - 1]])
  }

  /** The letters and digits of an id, in order and in lower case. */
  function LettersOf(bytes: seq<Utf8.byte>): string {
    if bytes == [] then []
    else
      var b := bytes[|bytes| - 1];
      LettersOf(bytes[..|bytes| - 1]) + (if IsAlphanumeric(b as char) then [LowerChar(b as char)] else [])
  }

  lemma LettersSnoc(s: string, c: char)
    ensures Letters(s + [c]) == Letters(s) + (if c == '_' then [] else [c])
  {
    assert (s + [c])[..|s|] == s;
  }

  /** Normalising loses no letter and no digit of the id and reorders none. */
  lemma {:induction false} NormalizedKeepsLetters(bytes: seq<Utf8.byte>)
    ensures Letters(Normalized(bytes)) == LettersOf(bytes)
  {
    if bytes != [] {
      var before := Normalized(bytes[..|bytes| - 1]);
      var b := bytes[|bytes| - 1];
      NormalizedKeepsLetters(bytes[..|bytes| - 1]);
      if IsAlphanumeric(b as char) { LettersSnoc(before, LowerChar(b as char)); } else { LettersSnoc(before, '_'); }
    }
  }

  lemma {:induction false} LettersCons(s: string)
    requires s != [] && s[0] == '_'
    ensures Letters(s[1..]) == Letters(s)
  {
    if |s| > 1 {
      var n := |s| - 1;
      LettersCons(s[..n]);
      assert s[..n][1..] == s[1..][..n - 1];
    } else {
      assert Letters(s[..0]) == [] && Letters(s[1..]) == [];
    }
  }

  lemma {:induction false} TrimKeepsLetters(s: string)
    ensures Letters(TrimLeft(s)) == Letters(s) && Letters(TrimRight(s)) == Letters(s)
    decreases |s|
  {
    if s != [] && s[0] == '_' {
      TrimKeepsLetters(s[1..]);
      LettersCons(s);
    }
    if s != [] && s[|s| - 1] == '_' { TrimKeepsLetters(s[..|s| - 1]); }
  }

  /** A name carries as much of its id as fits: its stem starts a text whose letters and
      digits are those of the id, and is all of it when there is room. */
  lemma StemCarriesTheId(id: string, index: nat) returns (full: string)
    ensures Letters(full) == LettersOf(Utf8.Encode(id))
    ensures full != [] ==> Stem(id, index) <= full && (|full| <= StemLength(index) ==> Stem(id, index) == full)
    ensures full == [] ==> Stem(id, index) <= "candidate"
  {
    var bytes := Utf8.Encode(id);
    full := TrimRight(TrimLeft(Normalized(bytes)));
    NormalizedKeepsLetters(bytes);
    TrimKeepsLetters(Normalized(bytes));
    TrimKeepsLetters(TrimLeft(Normalized(bytes)));
  }

  /** A separator byte right after another one. */
  predicate RepeatsSeparator(bytes: seq<Utf8.byte>, i: nat) {
    0 < i < |bytes| && !IsAlphanumeric(bytes[i] as char) && !IsAlphanumeric(bytes[i - 1] as char)
  }

  /** What a byte becomes in a name. */
  function NameChar(b: Utf8.byte): char {
    if IsAlphanumeric(b as char) then LowerChar(b as char) else '_'
  }

  /** The text holds what exactly the bytes that repeat no separator become, in order; `at`
      says where they stood. */
  ghost predicate SpelledAt(s: string, at: seq<nat>, bytes: seq<Utf8.byte>) {
    && |at| == |s|
    && (forall k, l :: 0 <= k < l < |at| ==> at[k] < at[l])
    && (forall k :: 0 <= k < |at| ==> at[k] < |bytes| && s[k] == NameChar(bytes[at[k]]))
    && (forall i :: 0 <= i < |bytes| ==> (i in at <==> !RepeatsSeparator(bytes, i)))
  }

  lemma FrontRepeats(bytes: seq<Utf8.byte>, i: nat)
    requires i < |bytes| - 1
    ensures RepeatsSeparator(bytes, i) <==> RepeatsSeparator(bytes[..|bytes| - 1], i)
  {
  }

  lemma SpelledMore(s: string, at: seq<nat>, bytes: seq<Utf8.byte>)
    requires bytes != [] && SpelledAt(s, at, bytes[..|bytes| - 1]) && !RepeatsSeparator(bytes, |bytes| - 1)
    ensures SpelledAt(s + [NameChar(bytes[|bytes| - 1])], at + [|bytes| - 1], bytes)
  {
    var n := |bytes| - 1;
    forall i | 0 <= i < |bytes| ensures i in at + [n] <==> !RepeatsSeparator(bytes, i) {
      assert i in at + [n] <==> i in at || i == n;
      if i < n { FrontRepeats(bytes, i); }
    }
  }

  lemma SpelledSame(s: string, at: seq<nat>, bytes: seq<Utf8.byte>)
    requires bytes != [] && SpelledAt(s, at, bytes[..|bytes| - 1]) && RepeatsSeparator(bytes, |bytes| - 1)
    ensures SpelledAt(s, at, bytes)
  {
    var n := |bytes| - 1;
    assert forall k :: 0 <= k < |at| ==> at[k] in at;
    forall i | 0 <= i < |bytes| ensures i in at <==> !RepeatsSeparator(bytes, i) {
      if i < n { FrontRepeats(bytes, i); }
    }
  }

  lemma {:induction false} LastOfNormalized(bytes: seq<Utf8.byte>)
    requires bytes != []
    ensures EndsWithUnderscore(Normalized(bytes)) <==> !IsAlphanumeric(bytes[|bytes| - 1] as char)
  {
  }

  /** Normalising keeps every letter and digit, in lower case, and puts one underscore for
      every run of other bytes, all in their order. */
  lemma {:induction false} NormalizedMeans(bytes: seq<Utf8.byte>) returns (at: seq<nat>)
    ensures SpelledAt(Normalized(bytes), at, bytes)
  {
    at := [];
    if bytes != [] {
      var n := |bytes| - 1;
      var front := bytes[..n];
      at := NormalizedMeans(front);
      if front != [] { LastOfNormalized(front); }
      if RepeatsSeparator(bytes, n) {
        SpelledSame(Normalized(front), at, bytes);
      } else {
        SpelledMore(Normalized(front), at, bytes);
        at := at + [n];
      }
    }
  }

  /** The text between the underscores at its ends. */
  lemma {:induction false} TrimmedOfUnderscores(s: string) returns (i: nat, j: nat)
    ensures i <= j <= |s| && TrimRight(TrimLeft(s)) == s[i..j]
    ensures forall k :: 0 <= k < i || j <= k < |s| ==> s[k] == '_'
    ensures i < j ==> s[i] != '_' && s[j - 1] != '_'
  {
    if s != [] && s[0] == '_' {
      i, j := TrimmedOfUnderscores(s[1..]);
      i, j := i + 1, j + 1;
      assert forall k :: 0 < k < |s| ==> s[k] == s[1..][k - 1];
    } else {
      i := 0;
      j := TrimRightMeans(s);
    }
  }

  lemma {:induction false} TrimRightMeans(s: string) returns (j: nat)
    ensures j <= |s| && TrimRight(s) == s[..j] && forall k :: j <= k < |s| ==> s[k] == '_'
    ensures j > 0 ==> s[j - 1] != '_'
  {
    j := |s|;
    if s != [] && s[|s| - 1] == '_' { j := TrimRightMeans(s[..|s| - 1]); }
  }

  /** A name is cut exactly when it would be longer than 47, and then it is 47 long, or its
      stem is a single character when the index leaves no more room. */
  lemma NameIsCutIff(id: string, index: nat) returns (whole: string)
    ensures var trimmed := TrimRight(TrimLeft(Normalized(Utf8.Encode(id))));
            whole == (if trimmed == [] then "candidate" else trimmed)
    ensures var free := |whole| + |Decimal(index)| + 5;
            && (free <= 47 ==> NameOf(id, index) == "ryu_" + whole + "_" + Decimal(index))
            && (free > 47 ==>
                  exists k: nat :: k <= |whole| && NameOf(id, index) == "ryu_" + whole[..k] + "_" + Decimal(index)
                                   && (|NameOf(id, index)| == 47 || (k == 1 && |Decimal(index)| > 41)))
  {
    var trimmed := TrimRight(TrimLeft(Normalized(Utf8.Encode(id))));
    whole := if trimmed == [] then "candidate" else trimmed;
    if |whole| + |Decimal(index)| + 5 > 47 {
      var k: nat := if |whole| <= StemLength(index) then |whole| else StemLength(index);
      assert whole[..|whole|] == whole;
      assert Stem(id, index) == whole[..k];
    }
  }

  // ----- Names are distinct -----

  lemma AfterLastUnderscore(a: string, x: string, b: string, y: string)
    requires '_' !in x && '_' !in y && a + "_" + x == b + "_" + y
    ensures x == y
  {
    UnderscoreAt(a, x);
    UnderscoreAt(b, y);
  }

  lemma UnderscoreAt(a: string, x: string)
    requires '_' !in x
    ensures (a + "_" + x)[|a|] == '_' && (forall i :: |a| < i < |a + "_" + x| ==> (a + "_" + x)[i] != '_')
    ensures (a + "_" + x)[|a| + 1..] == x
  {
  }

  /** Two candidates never share a name, whatever their ids: not even equal ones. */
  lemma NamesAreDistinct(id1: string, index1: nat, id2: string, index2: nat)
    requires NameOf(id1, index1) == NameOf(id2, index2)
    ensures index1 == index2
  {
    var x, y := Decimal(index1), Decimal(index2);
    assert '_' !in x && '_' !in y;
    AfterLastUnderscore("ryu_" + Stem(id1, index1), x, "ryu_" + Stem(id2, index2), y);
    DecimalRoundTrip(index1);
    DecimalRoundTrip(index2);
  }

  // ----- The alias map -----

  /** What a schema says for the alias map: its name and the canonical id. */
  datatype Schema = Schema(name: string, ryuId: string)

  /** The names and ids of `schemas_for`. */
  function Schemas(ids: seq<string>): (schemas: seq<Schema>)
    ensures |schemas| == |ids|
  {
    seq(|ids|, i requires 0 <= i < |ids| => Schema(NameOf(ids[i], i), ids[i]))
  }

  /** Collecting into a map: a later entry replaces an earlier one. */
  function Collected(schemas: seq<Schema>): map<string, string> {
    if schemas == [] then map[]
    else
      var last := schemas[|schemas| - 1];
      Collected(schemas[..|schemas| - 1])[last.name := last.ryuId]
  }

  lemma {:induction false} CollectedMeans(schemas: seq<Schema>, k: nat)
    requires k < |schemas| && forall j :: k < j < |schemas| ==> schemas[j].name != schemas[k].name
    ensures schemas[k].name in Collected(schemas) && Collected(schemas)[schemas[k].name] == schemas[k].ryuId
    decreases schemas
  {
    var n := |schemas| - 1;
    if k < n { CollectedMeans(schemas[..n], k); }
  }

  lemma {:induction false} CollectedNames(schemas: seq<Schema>, name: string)
    requires name in Collected(schemas)
    ensures exists k :: 0 <= k < |schemas| && schemas[k] == Schema(name, Collected(schemas)[name])
    decreases schemas
  {
    var n := |schemas| - 1;
    if schemas[n].name == name {
      assert schemas[n] == Schema(name, Collected(schemas)[name]);
    } else {
      CollectedNames(schemas[..n], name);
      var k :| 0 <= k < n && schemas[..n][k] == Schema(name, Collected(schemas[..n])[name]);
      assert schemas[k] == Schema(name, Collected(schemas)[name]);
    }
  }

  function Aliases(ids: seq<string>): map<string, string> {
    Collected(Schemas(ids))
  }

  /** The alias map decodes every candidate's name to that candidate, and no other name. */
  lemma AliasesDecode(ids: seq<string>, k: nat)
    requires k < |ids|
    ensures NameOf(ids[k], k) in Aliases(ids) && Aliases(ids)[NameOf(ids[k], k)] == ids[k]
  {
    var schemas := Schemas(ids);
    forall j | k < j < |schemas| ensures schemas[j].name != schemas[k].name {
      if schemas[j].name == schemas[k].name { NamesAreDistinct(ids[j], j, ids[k], k); }
    }
    CollectedMeans(schemas, k);
  }

  lemma OnlyNamesDecode(ids: seq<string>, name: string)
    requires name in Aliases(ids)
    ensures exists k :: 0 <= k < |ids| && name == NameOf(ids[k], k) && Aliases(ids)[name] == ids[k]
  {
    CollectedNames(Schemas(ids), name);
    var k :| 0 <= k < |ids| && Schemas(ids)[k] == Schema(name, Aliases(ids)[name]);
    assert name == NameOf(ids[k], k);
  }

  // ----- The selection -----

  /** The model's answer: the name of each call, where it has one; no calls at all when
      the field is missing. */
  type Response = Option<seq<Option<string>>>

  /** The names called, in order. */
  function NameIn(call: Option<string>): seq<string> {
    if call.Some? then [call.value] else []
  }

  function NamesCalled(calls: seq<Option<string>>): seq<string> {
    if calls == [] then [] else NameIn(calls[0]) + NamesCalled(calls[1..])
  }

  /** The first occurrences, in order. */
  function Firsts(xs: seq<string>): seq<string> {
    if xs == [] then []
    else
      var n := |xs| - 1;
      if xs[n] in xs[..n] then Firsts(xs[..n]) else Firsts(xs[..n]) + [xs[n]]
  }

  function Decoded(names: seq<string>, aliases: map<string, string>): (ids: seq<string>)
    requires forall name :: name in names ==> name in aliases
    ensures |ids| == |names| && forall k :: 0 <= k < |names| ==> ids[k] == aliases[names[k]]
  {
    seq(|names|, k requires 0 <= k < |names| => assert names[k] in names; aliases[names[k]])
  }

  lemma {:induction false} FirstsMembers(xs: seq<string>, x: string)
    ensures x in Firsts(xs) <==> x in xs
  {
    if xs != [] {
      var n := |xs| - 1;
      FirstsMembers(xs[..n], x);
      assert x in xs <==> x == xs[n] || x in xs[..n];
    }
  }

  lemma {:induction false} NamesCalledSnoc(calls: seq<Option<string>>, c: Option<string>)
    ensures NamesCalled(calls + [c]) == NamesCalled(calls) + NameIn(c)
  {
    if calls == [] {
      NilPlus([c]);
    } else {
      TailOfConcat(calls, [c]);
      NamesCalledSnoc(calls[1..], c);
      Assoc(NameIn(calls[0]), NamesCalled(calls[1..]), NameIn(c));
    }
  }

  lemma DecodedSnoc(names: seq<string>, name: string, aliases: map<string, string>)
    requires name in aliases && forall x :: x in names ==> x in aliases
    ensures forall x :: x in names + [name] ==> x in aliases
    ensures Decoded(names + [name], aliases) == Decoded(names, aliases) + [aliases[name]]
  {
  }

  lemma FirstsSnoc(xs: seq<string>, x: string)
    ensures Firsts(xs + [x]) == if x in Firsts(xs) then Firsts(xs) else Firsts(xs) + [x]
  {
    FirstsMembers(xs, x);
    assert (xs + [x])[..|xs|] == xs;
  }

  lemma SelectionStep(names: seq<string>, name: string, aliases: map<string, string>)
    requires name in aliases && forall x :: x in names ==> x in aliases
    ensures forall x :: x in names + [name] ==> x in aliases
    ensures var selected := Firsts(Decoded(names, aliases));
            Firsts(Decoded(names + [name], aliases)) ==
            if aliases[name] in selected then selected else selected + [aliases[name]]
  {
    DecodedSnoc(names, name, aliases);
    FirstsSnoc(Decoded(names, aliases), aliases[name]);
  }

  ghost predicate AllKnown(calls: seq<Option<string>>, aliases: map<string, string>) {
    forall name :: name in NamesCalled(calls) ==> name in aliases
  }

  ghost function Selection(calls: seq<Option<string>>, aliases: map<string, string>): seq<string>
    requires AllKnown(calls, aliases)
  {
    Firsts(Decoded(NamesCalled(calls), aliases))
  }

  /** What one more call does to the selection. */
  lemma CallStep(calls: seq<Option<string>>, i: nat, aliases: map<string, string>)
    requires i < |calls| && AllKnown(calls[..i], aliases)
    requires calls[i].Some? ==> calls[i].value in aliases
    ensures AllKnown(calls[..i + 1], aliases)
    ensures var before := Selection(calls[..i], aliases);
            Selection(calls[..i + 1], aliases) ==
            if calls[i].None? || aliases[calls[i].value] in before then before else before + [aliases[calls[i].value]]
  {
    assert calls[..i + 1] == calls[..i] + [calls[i]];
    NamesCalledSnoc(calls[..i], calls[i]);
    var names := NamesCalled(calls[..i]);
    if calls[i].None? {
      NilPlus(names);
    } else {
      SelectionStep(names, calls[i].value, aliases);
    }
  }

  /** `selected_ids`: an error exactly when some call names no candidate; otherwise the
      ids called, each once, in the order of their first call. */
  method SelectedIds(response: Response, aliases: map<string, string>) returns (r: Result<seq<string>, string>)
    ensures response.None? ==> r == Ok([])
    ensures response.Some? ==> (r.Ok? <==> AllKnown(response.value, aliases))
    ensures response.Some? && r.Ok? ==> r.value == Firsts(Decoded(NamesCalled(response.value), aliases))
    ensures r.Err? ==> response.Some? && r.error in NamesCalled(response.value) && r.error !in aliases
  {
    if response.None? { return Ok([]); }
    var calls := response.value;
    var selected: seq<string> := [];
    for i := 0 to |calls|
      invariant AllKnown(calls[..i], aliases)
      invariant selected == Selection(calls[..i], aliases)
    {
      if calls[i].None? {
        CallStep(calls, i, aliases);
        continue;
      }
      var name := calls[i].value;
      if name !in aliases {
        UnknownStays(calls, i, aliases);
        return Err(name);
      }
      CallStep(calls, i, aliases);
      if aliases[name] !in selected {
        selected := selected + [aliases[name]];
      }
    }
    assert calls[..|calls|] == calls;
    r := Ok(selected);
  }

  lemma {:induction false} NamesCalledMembers(calls: seq<Option<string>>, i: nat)
    requires i < |calls| && calls[i].Some?
    ensures calls[i].value in NamesCalled(calls)
  {
    if i > 0 { NamesCalledMembers(calls[1..], i - 1); }
  }

  lemma UnknownStays(calls: seq<Option<string>>, i: nat, aliases: map<string, string>)
    requires i < |calls| && calls[i].Some? && calls[i].value !in aliases
    ensures calls[i].value in NamesCalled(calls) && !AllKnown(calls, aliases)
  {
    NamesCalledMembers(calls, i);
  }

  /** `d` at position `i` was first called before `d` at any later position. */
  ghost predicate FirstAt(xs: seq<string>, k: nat, x: string) {
    k < |xs| && xs[k] == x && x !in xs[..k]
  }

  /** The selection has no duplicates and follows the order of first calls. */
  lemma {:induction false} FirstsInOrder(xs: seq<string>, i: nat, j: nat)
    requires i < j < |Firsts(xs)|
    ensures Firsts(xs)[i] != Firsts(xs)[j]
    ensures exists p: nat, q: nat :: p < q && FirstAt(xs, p, Firsts(xs)[i]) && FirstAt(xs, q, Firsts(xs)[j])
    decreases xs
  {
    var n := |xs| - 1;
    var before := Firsts(xs[..n]);
    if j < |before| {
      FirstsInOrder(xs[..n], i, j);
      var p: nat, q: nat :| p < q && FirstAt(xs[..n], p, before[i]) && FirstAt(xs[..n], q, before[j]);
      assert xs[..n][..p] == xs[..p] && xs[..n][..q] == xs[..q];
      assert FirstAt(xs, p, Firsts(xs)[i]) && FirstAt(xs, q, Firsts(xs)[j]);
    } else {
      FirstsMembers(xs[..n], before[i]);
      var p := FirstExists(xs[..n], before[i]);
      assert xs[..n][..p] == xs[..p];
      assert FirstAt(xs, p, Firsts(xs)[i]) && FirstAt(xs, n, Firsts(xs)[j]);
    }
  }

  lemma {:induction false} FirstExists(xs: seq<string>, x: string) returns (p: nat)
    requires x in xs
    ensures FirstAt(xs, p, x)
  {
    var n := |xs| - 1;
    if x in xs[..n] {
      p := FirstExists(xs[..n], x);
      assert xs[..n][..p] == xs[..p];
    } else {
      assert forall k :: 0 <= k < n ==> xs[k] in xs[..n];
      p := n;
    }
  }

  function NamesGiven(ids: seq<string>, ks: seq<nat>): (names: seq<string>)
    requires forall k :: k in ks ==> k < |ids|
    ensures |names| == |ks| && forall i :: 0 <= i < |ks| ==> ks[i] in ks && names[i] == NameOf(ids[ks[i]], ks[i])
  {
    seq(|ks|, i requires 0 <= i < |ks| => assert ks[i] in ks; NameOf(ids[ks[i]], ks[i]))
  }

  function IdsOf(ids: seq<string>, ks: seq<nat>): (called: seq<string>)
    requires forall k :: k in ks ==> k < |ids|
    ensures |called| == |ks| && forall i :: 0 <= i < |ks| ==> ks[i] in ks && called[i] == ids[ks[i]]
  {
    seq(|ks|, i requires 0 <= i < |ks| => assert ks[i] in ks; ids[ks[i]])
  }

  /** End to end: when the model calls candidates by the names they were given, every name
      is known and decodes to the candidate it was given to. */
  lemma CallsSelectCandidates(ids: seq<string>, ks: seq<nat>)
    requires forall k :: k in ks ==> k < |ids|
    ensures forall name :: name in NamesGiven(ids, ks) ==> name in Aliases(ids)
    ensures Decoded(NamesGiven(ids, ks), Aliases(ids)) == IdsOf(ids, ks)
  {
    var names := NamesGiven(ids, ks);
    forall i | 0 <= i < |ks| ensures names[i] in Aliases(ids) && Aliases(ids)[names[i]] == IdsOf(ids, ks)[i] {
      AliasesDecode(ids, ks[i]);
    }
  }
}
