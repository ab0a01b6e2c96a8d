/** Entity decoding of the HTML reduction (apps/core/src/document_parse.rs). */
module Entities {
  import opened Text

  datatype Entity = Entity(name: string, plain: char)

  const NBSP := Entity("&nbsp;", ' ')
  const APOS := Entity("&#39;", '\'')
  const QUOT := Entity("&quot;", '"')
  const LT := Entity("&lt;", '<')
  const GT := Entity("&gt;", '>')
  const AMP := Entity("&amp;", '&')

  /** The order the replacements run in; `&amp;` is last. */
  const SEQUENCE: seq<Entity> := [NBSP, APOS, QUOT, LT, GT, AMP]

  predicate WellFormed(e: Entity) {
    |e.name| > 2 && e.name[0] == '&' && e.name[|e.name| - 1] == ';'
    && forall i :: 1 <= i < |e.name| - 1 ==> IsNameChar(e.name[i])
  }

  predicate IsNameChar(c: char) {
    'a' <= c <= 'z' || '0' <= c <= '9' || c == '#'
  }

  /** `replace(name, char)`, one entity after another. */
  function DecodeInTurn(s: string, es: seq<Entity>): string
    requires forall e :: e in es ==> WellFormed(e)
  {
    if es == [] then s
    else
      var e := es[|es| - 1];
      assert WellFormed(e);
      Replace(DecodeInTurn(s, es[..|es| - 1]), e.name, [e.plain])
  }

  function Matching(s: string, es: seq<Entity>): (r: Option<Entity>)
    ensures r.Some? ==> r.value in es && r.value.name <= s
    ensures r.None? ==> forall e :: e in es ==> !(e.name <= s)
  {
    if es == [] then None
    else if es[0].name <= s then Some(es[0])
    else Matching(s, es[1..])
  }

  /** The reference decoder: one left-to-right pass over all entities at once. */
  function DecodeOnce(s: string, es: seq<Entity>): string
    requires forall e :: e in es ==> WellFormed(e)
  {
    if s == [] then []
    else
      match Matching(s, es)
      case Some(e) => [e.plain] + DecodeOnce(s[|e.name|..], es)
      case None => [s[0]] + DecodeOnce(s[1..], es)
  }

  /** Well-formed names are prefix-free. */
  lemma SameName(a: Entity, b: Entity, s: string)
    requires WellFormed(a) && WellFormed(b) && a.name <= s && b.name <= s
    ensures a.name == b.name
  {
    var i, j := |a.name| - 1, |b.name| - 1;
    assert s[i] == ';' && s[j] == ';';
    assert forall k :: 1 <= k < i ==> IsNameChar(s[k]);
    assert forall k :: 1 <= k < j ==> IsNameChar(s[k]);
  }

  /** A name with no decoded character in it that starts the output started the input. */
  lemma {:induction false} CopiedPrefix(s: string, es: seq<Entity>, w: string)
    requires forall e :: e in es ==> WellFormed(e) && e.plain !in w
    requires w <= DecodeOnce(s, es)
    ensures w <= s
  {
    if w != [] {
      assert w[0] == DecodeOnce(s, es)[0];
      assert Matching(s, es).None?;
      assert DecodeOnce(s, es)[1..] == DecodeOnce(s[1..], es);
      CopiedPrefix(s[1..], es, w[1..]);
      assert s == [s[0]] + s[1..] && w == [w[0]] + w[1..];
    }
  }

  lemma NoMatchWithoutAmpersand(s: string, es: seq<Entity>)
    requires s != [] && s[0] != '&' && forall e :: e in es ==> WellFormed(e)
    ensures Matching(s, es).None?
  {
    forall e | e in es ensures !(e.name <= s) {
      assert e.name[0] == '&';
    }
  }

  /** Text holding no `&` passes through. */
  lemma {:induction false} PassThrough(a: string, b: string, es: seq<Entity>)
    requires '&' !in a && forall e :: e in es ==> WellFormed(e)
    ensures DecodeOnce(a + b, es) == a + DecodeOnce(b, es)
  {
    if a == [] {
      assert a + b == b;
    } else {
      TailOfConcat(a, b);
      NoMatchWithoutAmpersand(a + b, es);
      PassThrough(a[1..], b, es);
      Assoc([a[0]], a[1..], DecodeOnce(b, es));
      assert [a[0]] + a[1..] == a;
    }
  }

  /** Another entity's name survives the pass intact. */
  lemma NamePassesThrough(e: Entity, b: string, es: seq<Entity>)
    requires WellFormed(e) && forall f :: f in es ==> WellFormed(f) && f.name != e.name
    ensures DecodeOnce(e.name + b, es) == e.name + DecodeOnce(b, es)
  {
    var s := e.name + b;
    assert e.name <= s;
    forall f | f in es ensures !(f.name <= s) {
      if f.name <= s { SameName(f, e, s); }
    }
    TailOfConcat(e.name, b);
    PassThrough(e.name[1..], b, es);
    Assoc([e.name[0]], e.name[1..], DecodeOnce(b, es));
    assert [e.name[0]] + e.name[1..] == e.name;
  }

  lemma {:induction false} MatchingSnoc(s: string, es: seq<Entity>, e: Entity)
    ensures Matching(s, es + [e])
         == if Matching(s, es).Some? then Matching(s, es) else if e.name <= s then Some(e) else None
  {
    if es == [] {
      assert es + [e] == [e] && [e][1..] == [];
    } else {
      TailOfConcat(es, [e]);
      MatchingSnoc(s, es[1..], e);
    }
  }

  lemma StartsElsewhere(out: string, name: string, c: char)
    requires out != [] && out[0] == c && name != [] && c !in name
    ensures !(name <= out)
  {
    assert name[0] in name;
  }

  /** Replacing one more entity afterwards is decoding it in the same pass. */
  lemma {:induction false} OneMoreEntity(s: string, es: seq<Entity>, e: Entity)
    requires WellFormed(e)
    requires forall f :: f in es ==> WellFormed(f) && f.name != e.name && f.plain !in e.name
    ensures Replace(DecodeOnce(s, es), e.name, [e.plain]) == DecodeOnce(s, es + [e])
    decreases |s|
  {
    if s != [] {
      MatchingSnoc(s, es, e);
      var out := DecodeOnce(s, es);
      match Matching(s, es)
      case Some(f) =>
        StartsElsewhere(out, e.name, f.plain);
        assert out[1..] == DecodeOnce(s[|f.name|..], es);
        OneMoreEntity(s[|f.name|..], es, e);
      case None =>
        if e.name <= s {
          var b := s[|e.name|..];
          assert s == e.name + b;
          NamePassesThrough(e, b, es);
          assert out[|e.name|..] == DecodeOnce(b, es);
          OneMoreEntity(b, es, e);
        } else {
          if e.name <= out { CopiedPrefix(s, es, e.name); }
          assert out[1..] == DecodeOnce(s[1..], es);
          OneMoreEntity(s[1..], es, e);
        }
    }
  }

  predicate MayOccurInName(c: char) {
    IsNameChar(c) || c == '&' || c == ';'
  }

  /** Names told apart by their second character; only the last entity may decode to a
      character that names are made of. */
  ghost predicate Decodable(es: seq<Entity>) {
    (forall e :: e in es ==> WellFormed(e))
    && (forall i, j :: 0 <= i < j < |es| ==> |es[i].name| > 1 && |es[j].name| > 1 && es[i].name[1] != es[j].name[1])
    && forall i :: 0 <= i < |es| - 1 ==> !MayOccurInName(es[i].plain)
  }

  lemma NotInName(c: char, e: Entity)
    requires WellFormed(e) && !MayOccurInName(c)
    ensures c !in e.name
  {
    assert forall i :: 0 <= i < |e.name| ==> i == 0 || i == |e.name| - 1 || IsNameChar(e.name[i]);
  }

  lemma {:induction false} DecodeNothing(s: string)
    ensures DecodeOnce(s, []) == s
  {
    if s != [] { DecodeNothing(s[1..]); }
  }

  /** In any order in which no decoded character occurs in a later name, replacing in
      turn is decoding once. */
  lemma {:induction false} InTurnIsOnce(s: string, es: seq<Entity>)
    requires Decodable(es)
    ensures DecodeInTurn(s, es) == DecodeOnce(s, es)
  {
    if es == [] {
      DecodeNothing(s);
    } else {
      var front, e := es[..|es| - 1], es[|es| - 1];
      assert es == front + [e];
      InTurnIsOnce(s, front);
      forall f | f in front ensures f.name != e.name && f.plain !in e.name {
        var i :| 0 <= i < |front| && front[i] == f;
        assert f == es[i];
        NotInName(f.plain, e);
      }
      OneMoreEntity(s, front, e);
    }
  }

  /** The six replacements of `strip_html` decode every string in one pass. */
  lemma EntitiesDecodeOnce(s: string)
    ensures forall e :: e in SEQUENCE ==> WellFormed(e)
    ensures DecodeInTurn(s, SEQUENCE) == DecodeOnce(s, SEQUENCE)
  {
    SequenceIsDecodable();
    InTurnIsOnce(s, SEQUENCE);
  }

  lemma NamesAreWellFormed()
    ensures forall e :: e in SEQUENCE ==> WellFormed(e)
  {
    assert WellFormed(NBSP) && WellFormed(APOS) && WellFormed(QUOT) && WellFormed(LT) && WellFormed(GT)
        && WellFormed(AMP);
  }

  lemma SequenceIsDecodable()
    ensures Decodable(SEQUENCE)
  {
    NamesAreWellFormed();
    assert NBSP.name[1] == 'n' && APOS.name[1] == '#' && QUOT.name[1] == 'q' && LT.name[1] == 'l' && GT.name[1] == 'g'
           && AMP.name[1] == 'a';
  }

  lemma DecodesFirst(e: Entity, s: string)
    requires e in SEQUENCE && forall f :: f in SEQUENCE ==> WellFormed(f)
    ensures DecodeOnce(e.name + s, SEQUENCE) == [e.plain] + DecodeOnce(s, SEQUENCE)
  {
    var text := e.name + s;
    var hit := Matching(text, SEQUENCE).value;
    assert e.name <= text;
    SameName(hit, e, text);
    SameEntity(hit, e);
    assert text[|e.name|..] == s;
  }

  lemma SameEntity(a: Entity, b: Entity)
    requires a in SEQUENCE && b in SEQUENCE && a.name == b.name
    ensures a == b
  {
    EntityNames();
  }

  lemma EntityNames()
    ensures NBSP.name == "&nbsp;" && APOS.name == "&#39;" && QUOT.name == "&quot;"
    ensures LT.name == "&lt;" && GT.name == "&gt;" && AMP.name == "&amp;"
  {
  }

  /** The six entities, and what each stands for. */
  lemma EachEntity(s: string)
    ensures forall e :: e in SEQUENCE ==> WellFormed(e)
    ensures DecodeOnce("&nbsp;" + s, SEQUENCE) == " " + DecodeOnce(s, SEQUENCE)
    ensures DecodeOnce("&#39;" + s, SEQUENCE) == "'" + DecodeOnce(s, SEQUENCE)
    ensures DecodeOnce("&quot;" + s, SEQUENCE) == "\"" + DecodeOnce(s, SEQUENCE)
    ensures DecodeOnce("&lt;" + s, SEQUENCE) == "<" + DecodeOnce(s, SEQUENCE)
    ensures DecodeOnce("&gt;" + s, SEQUENCE) == ">" + DecodeOnce(s, SEQUENCE)
    ensures DecodeOnce("&amp;" + s, SEQUENCE) == "&" + DecodeOnce(s, SEQUENCE)
  {
    EntitiesDecodeOnce(s);
    EntityNames();
    DecodesFirst(NBSP, s);
    DecodesFirst(APOS, s);
    DecodesFirst(QUOT, s);
    DecodesFirst(LT, s);
    DecodesFirst(GT, s);
    DecodesFirst(AMP, s);
  }

  /** Running `&amp;` first would not: it decodes `&amp;lt;` twice. */
  lemma AmpersandMustBeLast()
    ensures WellFormed(AMP) && WellFormed(LT)
    ensures DecodeInTurn("&amp;lt;", [AMP, LT]) == "<" && DecodeOnce("&amp;lt;", [AMP, LT]) == "&lt;"
  {
    var s, t, es := "&amp;lt;", "&lt;", [AMP, LT];
    var none: seq<Entity> := [];
    assert es[..1] == [AMP] && es[..1][..0] == none;
    assert AMP.name <= s && s[5..] == "lt;";
    ReplaceWithoutOccurrence("lt;", AMP.name, "&");
    assert Replace(s, AMP.name, "&") == "&" + Replace(s[5..], AMP.name, "&") == t;
    assert DecodeInTurn(s, none) == s;
    assert DecodeInTurn(s, es[..1]) == t;
    assert LT.name <= t && t[4..] == "";
    assert Replace(t, LT.name, "<") == "<" + Replace(t[4..], LT.name, "<") == "<";
    PassThrough("lt;", "", es);
    assert "lt;" + "" == "lt;";
    assert DecodeOnce("", es) == "";
    assert Matching(s, es) == Some(AMP);
    assert DecodeOnce(s, es) == "&" + DecodeOnce(s[5..], es);
  }
}
