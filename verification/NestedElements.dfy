/** What element dropping leaves behind (apps/core/src/document_parse.rs): the kept segments
    are clean, but put together they can spell a new opening tag. */
module NestedElements {
  import opened Text
  import opened Elements
  import opened Entities
  import opened DocumentParse

  // ----- When segments make a pattern -----

  /** Segment `i` ends in the first `m` symbols of the pattern, and the later segments,
      put together, go on with the others. */
  predicate Bridges<T(==)>(segments: seq<seq<T>>, p: seq<T>, i: nat, m: nat) {
    i < |segments| && 0 < m < |p| && m <= |segments[i]|
    && segments[i][|segments[i]| - m..] == p[..m] && p[m..] <= Concat(segments[i + 1..])
  }

  ghost predicate IsBridged<T>(segments: seq<seq<T>>, p: seq<T>) {
    exists i: nat, m: nat :: Bridges(segments, p, i, m)
  }

  lemma BridgeOccurs<T>(head: seq<T>, rest: seq<T>, p: seq<T>, m: nat)
    requires 0 < m < |p| && m <= |head| && head[|head| - m..] == p[..m] && p[m..] <= rest
    ensures OccursAt(head + rest, p, |head| - m)
  {
    var j := |head| - m;
    assert (head + rest)[j..j + |p|] == head[j..] + rest[..|p| - m];
    assert p == p[..m] + p[m..];
  }

  lemma OccurrenceBridges<T>(head: seq<T>, rest: seq<T>, p: seq<T>, j: nat)
    requires OccursAt(head + rest, p, j) && j < |head| < j + |p|
    ensures var m := |head| - j; head[j..] == p[..m] && p[m..] <= rest
  {
    var m := |head| - j;
    var whole := head + rest;
    assert whole[j..j + |p|][..m] == head[j..];
    assert whole[j..j + |p|][m..] == rest[..|p| - m];
  }

  lemma LaterBridge<T>(segments: seq<seq<T>>, p: seq<T>)
    requires segments != [] && IsBridged(segments[1..], p)
    ensures IsBridged(segments, p)
  {
    var i: nat, m: nat :| Bridges(segments[1..], p, i, m);
    assert segments[1..][i + 1..] == segments[i + 2..];
    assert Bridges(segments, p, i + 1, m);
  }

  ghost predicate AnyContains<T>(segments: seq<seq<T>>, p: seq<T>) {
    exists s :: s in segments && Contains(s, p)
  }

  lemma {:induction false} ContainedIsBridged<T>(segments: seq<seq<T>>, p: seq<T>)
    requires p != [] && !AnyContains(segments, p) && Contains(Concat(segments), p)
    ensures IsBridged(segments, p)
  {
    var j: nat :| OccursAt(Concat(segments), p, j);
    var head, rest := segments[0], Concat(segments[1..]);
    assert head in segments;
    if j >= |head| {
      OccursShift(head, rest, p, j - |head|);
      assert forall s :: s in segments[1..] ==> s in segments;
      ContainedIsBridged(segments[1..], p);
      LaterBridge(segments, p);
    } else if |head| < j + |p| {
      OccurrenceBridges(head, rest, p, j);
      assert Bridges(segments, p, 0, |head| - j);
    } else {
      assert (head + rest)[j..j + |p|] == head[j..j + |p|];
      assert OccursAt(head, p, j);
    }
  }

  lemma {:induction false} BridgedIsContained<T>(segments: seq<seq<T>>, p: seq<T>, i: nat, m: nat)
    requires Bridges(segments, p, i, m)
    ensures Contains(Concat(segments), p)
  {
    var head, rest := segments[0], Concat(segments[1..]);
    if i == 0 {
      BridgeOccurs(head, rest, p, m);
    } else {
      assert segments[1..][i..] == segments[i + 1..];
      BridgedIsContained(segments[1..], p, i - 1, m);
      var j: nat :| OccursAt(rest, p, j);
      OccursShift(head, rest, p, j);
    }
  }

  lemma {:induction false} PartIsContained<T>(segments: seq<seq<T>>, p: seq<T>, s: seq<T>)
    requires s in segments && Contains(s, p)
    ensures Contains(Concat(segments), p)
  {
    var head, rest := segments[0], Concat(segments[1..]);
    if head == s {
      var j: nat :| OccursAt(head, p, j);
      assert (head + rest)[j..j + |p|] == head[j..j + |p|];
      assert OccursAt(head + rest, p, j);
    } else {
      PartIsContained(segments[1..], p, s);
      var j: nat :| OccursAt(rest, p, j);
      OccursShift(head, rest, p, j);
    }
  }

  /** Segments put together hold a pattern exactly when one of them does, or one of them
      ends in a proper prefix of it that the later ones complete. */
  lemma ContainedIff<T>(segments: seq<seq<T>>, p: seq<T>)
    requires p != []
    ensures Contains(Concat(segments), p) <==> AnyContains(segments, p) || IsBridged(segments, p)
  {
    if Contains(Concat(segments), p) && !AnyContains(segments, p) { ContainedIsBridged(segments, p); }
    if i: nat, m: nat :| Bridges(segments, p, i, m) { BridgedIsContained(segments, p, i, m); }
    if s :| s in segments && Contains(s, p) { PartIsContained(segments, p, s); }
  }

  lemma LowerConcat(a: string, b: string)
    ensures Lower(a + b) == Lower(a) + Lower(b)
  {
  }

  lemma {:induction false} LowerOfConcat(segments: seq<string>)
    ensures Lower(Concat(segments)) == Concat(LowerAll(segments))
  {
    if segments != [] {
      LowerOfConcat(segments[1..]);
      LowerConcat(segments[0], Concat(segments[1..]));
      assert LowerAll(segments)[1..] == LowerAll(segments[1..]);
    }
  }

  /** What is left after dropping an element holds any opening tag, its own or another,
      exactly when some kept segment holds it or ends, in lower case, in a proper part of it
      that the segments after it complete. */
  lemma DroppedHoldsIff(s: string, tag: string, other: string)
    ensures var kept := LowerAll(KeptSegments(s, tag));
            Contains(Lower(Dropped(s, tag)), "<" + other) <==>
            AnyContains(kept, "<" + other) || IsBridged(kept, "<" + other)
  {
    KeptSegmentsHaveNoTag(s, tag);
    LowerOfConcat(KeptSegments(s, tag));
    ContainedIff(LowerAll(KeptSegments(s, tag)), "<" + other);
  }

  /** Its own opening tag no kept segment holds. */
  lemma DroppedHasTagIff(s: string, tag: string)
    ensures Contains(Lower(Dropped(s, tag)), "<" + tag) <==> IsBridged(LowerAll(KeptSegments(s, tag)), "<" + tag)
  {
    var kept := KeptSegments(s, tag);
    KeptSegmentsHaveNoTag(s, tag);
    DroppedHoldsIff(s, tag, tag);
    forall k | k in LowerAll(kept) ensures !Contains(k, "<" + tag) {
      var i :| 0 <= i < |kept| && LowerAll(kept)[i] == k;
      assert kept[i] in kept;
    }
  }

  /** When `strip_html` leaves an opening `script` or `style` tag before it strips the tags:
      scripts are dropped first and styles after them, so a script can be put together by
      either drop and a style by the second only. */
  lemma ReducedHasTagIff(html: string)
    ensures var unscripted := Dropped(html, "script");
            var kept := LowerAll(KeptSegments(unscripted, "style"));
            && (Contains(Lower(Dropped(unscripted, "style")), "<" + "script")
                <==> AnyContains(kept, "<" + "script") || IsBridged(kept, "<" + "script"))
            && (Contains(Lower(Dropped(unscripted, "style")), "<" + "style") <==> IsBridged(kept, "<" + "style"))
  {
    DroppedHoldsIff(Dropped(html, "script"), "style", "script");
    DroppedHasTagIff(Dropped(html, "script"), "style");
  }

  // ----- An element inside an opening tag -----

  predicate IsTagName(tag: string) {
    tag != [] && forall c :: c in tag ==> 'a' <= c <= 'z'
  }

  function Open(tag: string): string {
    "<" + tag
  }

  function Close(tag: string): string {
    "</" + tag
  }

  /** `<script>body</script>` and its like. */
  function Element(tag: string, body: string): string {
    Open(tag) + AfterOpen(tag, body)
  }

  function AfterOpen(tag: string, body: string): string {
    ">" + (body + (Close(tag) + ">"))
  }

  /** The same with an empty `inner` element put inside its opening tag, after `m` symbols,
      as in `<scr<script></script>ipt>body</script>`. */
  function Nested(tag: string, inner: string, m: nat, body: string): string
    requires m <= |Open(tag)|
  {
    Open(tag)[..m] + (Open(inner) + (">" + (Close(inner) + (">" + Remainder(tag, m, body)))))
  }

  function Remainder(tag: string, m: nat, body: string): string
    requires m <= |Open(tag)|
  {
    Open(tag)[m..] + AfterOpen(tag, body)
  }

  lemma NestedIsAnElementInside(tag: string, inner: string, m: nat, body: string)
    requires m <= |Open(tag)|
    ensures Nested(tag, inner, m, body) == Open(tag)[..m] + (Element(inner, []) + Remainder(tag, m, body))
  {
    var rest := Remainder(tag, m, body);
    NilPlus(Close(inner) + ">");
    Assoc(Close(inner), ">", rest);
    Assoc(">", Close(inner) + ">", rest);
    Assoc(Open(inner), AfterOpen(inner, []), rest);
  }

  lemma NestedScript(tag: string, inner: string)
    requires tag == "script" && (inner == "script" || inner == "style")
    ensures Nested(tag, inner, 4, "x")
         == "<scr" + ((if inner == "script" then "<script></script>" else "<style></style>") + "ipt>x</script>")
  {
    NestedIsAnElementInside(tag, inner, 4, "x");
    ScriptHead(tag);
    if inner == "script" { ScriptElement(inner); } else { StyleElement(inner); }
    RestOfScript(tag);
  }

  lemma ScriptHead(tag: string)
    requires tag == "script"
    ensures Open(tag)[..4] == "<scr"
  {
  }

  lemma ScriptElement(tag: string)
    requires tag == "script"
    ensures Element(tag, []) == "<script></script>"
  {
  }

  lemma StyleElement(tag: string)
    requires tag == "style"
    ensures Element(tag, []) == "<style></style>"
  {
  }

  lemma RestOfScript(tag: string)
    requires tag == "script"
    ensures Remainder(tag, 4, "x") == "ipt>x</script>"
  {
    assert Open(tag)[4..] == "ipt";
  }

  lemma FindIs(s: string, p: string, i: nat)
    requires OccursAt(s, p, i) && forall j: nat :: j < i ==> !OccursAt(s, p, j)
    ensures Find(s, p) == Some(i)
  {
  }

  lemma Mismatch(s: string, p: string, j: nat, k: nat)
    requires k < |p| && j + k < |s| && s[j + k] != p[k]
    ensures !OccursAt(s, p, j)
  {
    if j + |p| <= |s| { assert s[j..j + |p|][k] == s[j + k]; }
  }

  lemma OpenIsLower(tag: string)
    requires IsTagName(tag)
    ensures forall i :: 0 < i < |Open(tag)| ==> 'a' <= Open(tag)[i] <= 'z'
    ensures forall i :: 1 < i < |Close(tag)| ==> 'a' <= Close(tag)[i] <= 'z'
    ensures Lower(Open(tag)) == Open(tag) && Lower(Close(tag)) == Close(tag)
  {
    forall i | 0 < i < |Open(tag)| ensures 'a' <= Open(tag)[i] <= 'z' {
      assert Open(tag)[i] == tag[i - 1] && tag[i - 1] in tag;
    }
    forall i | 1 < i < |Close(tag)| ensures 'a' <= Close(tag)[i] <= 'z' {
      assert Close(tag)[i] == tag[i - 2] && tag[i - 2] in tag;
    }
  }

  /** The two names are told apart by their second letter. */
  predicate Differ(a: string, b: string) {
    |a| > 1 && |b| > 1 && a[1] != b[1]
  }

  lemma NotAtStart(tag: string, inner: string, m: nat, s: string)
    requires IsTagName(tag) && IsTagName(inner) && (inner == tag || Differ(tag, inner)) && 0 < m < |Open(tag)|
    requires Open(tag)[..m] + "<" <= s
    ensures !OccursAt(s, Open(inner), 0)
  {
    OpenIsLower(inner);
    var head := Open(tag)[..m] + "<";
    assert s[m] == head[m] == '<';
    if m < |Open(inner)| {
      Mismatch(s, Open(inner), 0, m);
    } else {
      assert s[2] == head[2] == tag[1] && Open(inner)[2] == inner[1];
      Mismatch(s, Open(inner), 0, 2);
    }
  }

  /** The inner element is the first one found. */
  lemma InnerIsFirst(tag: string, inner: string, m: nat, rest: string)
    requires IsTagName(tag) && IsTagName(inner) && (inner == tag || Differ(tag, inner)) && 0 < m < |Open(tag)|
    ensures Find(Lower(Open(tag)[..m] + (Open(inner) + rest)), Open(inner)) == Some(m)
  {
    var head, open := Open(tag)[..m], Open(inner);
    var s := head + (open + rest);
    OpenIsLower(tag);
    OpenIsLower(inner);
    LowerConcat(head, open + rest);
    LowerConcat(open, rest);
    assert Lower(head) == head;
    assert Lower(s)[m..m + |open|] == open;
    forall j: nat | j < m ensures !OccursAt(Lower(s), open, j) {
      if j == 0 {
        assert head + "<" <= Lower(s);
        NotAtStart(tag, inner, m, Lower(s));
      } else {
        assert Lower(s)[j] == head[j];
        Mismatch(Lower(s), open, j, 0);
      }
    }
    FindIs(Lower(s), open, m);
  }

  lemma NoCloseInOpen(tag: string, s: string, j: nat)
    requires IsTagName(tag) && Open(tag) + ">" <= s && j <= |Open(tag)|
    ensures !OccursAt(s, Close(tag), j)
  {
    var open := Open(tag);
    OpenIsLower(tag);
    assert s[j] == (open + ">")[j] && s[1] == (open + ">")[1];
    if j == 0 { Mismatch(s, Close(tag), 0, 1); } else { Mismatch(s, Close(tag), j, 0); }
  }

  lemma CloseIsFound(tag: string, rest: string)
    requires IsTagName(tag)
    ensures Find(Lower(Open(tag) + (">" + (Close(tag) + rest))), Close(tag)) == Some(|Open(tag)| + 1)
  {
    var open, close := Open(tag), Close(tag);
    var s := open + (">" + (close + rest));
    var e := |open| + 1;
    OpenIsLower(tag);
    LowerConcat(open, ">" + (close + rest));
    LowerConcat(">", close + rest);
    LowerConcat(close, rest);
    assert Lower(s) == open + (">" + (close + Lower(rest)));
    assert Lower(s)[e..e + |close|] == close;
    forall j: nat | j < e ensures !OccursAt(Lower(s), close, j) { NoCloseInOpen(tag, Lower(s), j); }
    FindIs(Lower(s), close, e);
  }

  /** An empty element ends at its own close. */
  lemma EmptyElementEnds(tag: string, rest: string)
    requires IsTagName(tag)
    ensures AfterElement(Open(tag) + (">" + (Close(tag) + (">" + rest))), tag) == rest
  {
    var s := Open(tag) + (">" + (Close(tag) + (">" + rest)));
    var e := |Open(tag)| + 1;
    CloseIsFound(tag, ">" + rest);
    CloseEnds(tag, rest);
    assert s[e..] == Close(tag) + (">" + rest);
    assert s[e + |Close(tag)| + 1..] == rest;
    EndsAtClose(s, tag, e, |Close(tag)|);
  }

  lemma EndsAtClose(s: string, tag: string, e: nat, k: nat)
    requires e <= |s| && Find(Lower(s), Close(tag)) == Some(e) && Find(s[e..], ">") == Some(k)
    ensures e + k < |s| && AfterElement(s, tag) == s[e + k + 1..]
  {
    assert s[e..][k + 1..] == s[e + k + 1..];
  }

  lemma CloseEnds(tag: string, rest: string)
    requires IsTagName(tag)
    ensures Find(Close(tag) + (">" + rest), ">") == Some(|Close(tag)|)
  {
    var close := Close(tag);
    var s := close + (">" + rest);
    OpenIsLower(tag);
    assert s[|close|..|close| + 1] == ">";
    forall j: nat | j < |close| ensures !OccursAt(s, ">", j) {
      assert s[j] == close[j];
      Mismatch(s, ">", j, 0);
    }
    FindIs(s, ">", |close|);
  }

  /** Text in which every `<` is followed by a slash holds no opening tag. */
  lemma NoOpenTag(s: string, tag: string)
    requires IsTagName(tag) && forall j :: 0 <= j < |s| && s[j] == '<' ==> j + 1 < |s| && s[j + 1] == '/'
    ensures Dropped(s, tag) == s
  {
    OpenIsLower(tag);
    forall j: nat | j + |Open(tag)| <= |s| ensures !OccursAt(Lower(s), Open(tag), j) {
      if s[j] == '<' { Mismatch(Lower(s), Open(tag), j, 1); } else { Mismatch(Lower(s), Open(tag), j, 0); }
    }
  }

  lemma OnlyTheCloseOpens(tag: string, before: string, body: string, j: nat)
    requires IsTagName(tag) && '<' !in before && '<' !in body
    requires var s := before + AfterOpen(tag, body); j < |s| && s[j] == '<'
    ensures var s := before + AfterOpen(tag, body); j + 1 < |s| && s[j + 1] == '/'
  {
    var s := before + AfterOpen(tag, body);
    var front := before + ">" + body;
    OpenIsLower(tag);
    assert s == front + (Close(tag) + ">");
    forall k | 0 <= k < |front| ensures s[k] != '<' {
      assert s[k] == front[k] && front[k] in front;
    }
    assert s[j] == (Close(tag) + ">")[j - |front|];
  }

  lemma RemainderHasOnlyTheClose(tag: string, m: nat, body: string)
    requires IsTagName(tag) && 0 < m < |Open(tag)| && '<' !in body
    ensures var rest := Remainder(tag, m, body);
            forall j :: 0 <= j < |rest| && rest[j] == '<' ==> j + 1 < |rest| && rest[j + 1] == '/'
  {
    var front, rest := Open(tag)[m..], Remainder(tag, m, body);
    OpenIsLower(tag);
    assert '<' !in front by { assert forall i :: m <= i < |Open(tag)| ==> Open(tag)[i] != '<'; }
    forall j | 0 <= j < |rest| && rest[j] == '<' ensures j + 1 < |rest| && rest[j + 1] == '/' {
      OnlyTheCloseOpens(tag, front, body, j);
    }
  }

  lemma RemainderIsKept(tag: string, inner: string, m: nat, body: string)
    requires IsTagName(tag) && IsTagName(inner) && 0 < m < |Open(tag)| && '<' !in body
    ensures Dropped(Remainder(tag, m, body), inner) == Remainder(tag, m, body)
  {
    RemainderHasOnlyTheClose(tag, m, body);
    NoOpenTag(Remainder(tag, m, body), inner);
  }

  lemma ElementOpens(tag: string, body: string)
    requires IsTagName(tag)
    ensures Contains(Lower(Element(tag, body)), Open(tag))
  {
    OpenIsLower(tag);
    LowerConcat(Open(tag), AfterOpen(tag, body));
    assert OccursAt(Lower(Element(tag, body)), Open(tag), 0);
  }

  /** Dropping the inner elements puts the outer one together, whatever its body: dropping
      `script` or `style` elements leaves a `script` element. */
  lemma NestedElementSurvives(tag: string, inner: string, m: nat, body: string)
    requires IsTagName(tag) && IsTagName(inner) && (inner == tag || Differ(tag, inner))
    requires 0 < m < |Open(tag)| && '<' !in body
    ensures Dropped(Nested(tag, inner, m, body), inner) == Element(tag, body)
    ensures Contains(Lower(Dropped(Nested(tag, inner, m, body), inner)), Open(tag))
  {
    var rest := Remainder(tag, m, body);
    var element := Open(inner) + (">" + (Close(inner) + (">" + rest)));
    var s := Nested(tag, inner, m, body);
    InnerIsFirst(tag, inner, m, ">" + (Close(inner) + (">" + rest)));
    assert s[..m] == Open(tag)[..m] && s[m..] == element;
    EmptyElementEnds(inner, rest);
    RemainderIsKept(tag, inner, m, body);
    assert Dropped(s, inner) == s[..m] + Dropped(AfterElement(s[m..], inner), inner);
    HeadMeetsRemainder(tag, m, body);
    ElementOpens(tag, body);
  }

  lemma HeadMeetsRemainder(tag: string, m: nat, body: string)
    requires m <= |Open(tag)|
    ensures Open(tag)[..m] + Remainder(tag, m, body) == Element(tag, body)
  {
    var open := Open(tag);
    assert open[..m] + open[m..] == open;
    Assoc(open[..m], open[m..], AfterOpen(tag, body));
  }

  // ----- Through to the output of `strip_html` -----

  lemma ScriptIsTagName()
    ensures IsTagName("script") && IsTagName("style")
  {
    var script, style := "script", "style";
    assert forall i :: 0 <= i < |script| ==> 'a' <= script[i] <= 'z';
    assert forall i :: 0 <= i < |style| ==> 'a' <= style[i] <= 'z';
  }

  /** A script element holds no opening `style` tag. */
  lemma ScriptIsNotStyle(body: string)
    requires '<' !in body
    ensures Dropped(Element("script", body), "style") == Element("script", body)
  {
    var s, open := Element("script", body), Open("style");
    ScriptIsTagName();
    OpenIsLower("script");
    forall j: nat | j + |open| <= |s| ensures !OccursAt(Lower(s), open, j) {
      if s[j] != '<' {
        Mismatch(Lower(s), open, j, 0);
      } else if j == 0 {
        assert s[2] == Open("script")[2] == 'c' && open[2] == 't';
        Mismatch(Lower(s), open, 0, 2);
      } else {
        SecondLessIsClose(body, j);
        Mismatch(Lower(s), open, j, 1);
      }
    }
  }

  /** Every `<` after the inner element's own is followed by a slash. */
  lemma AfterInnerOnlyCloses(tag: string, inner: string, m: nat, body: string, j: nat)
    requires IsTagName(tag) && IsTagName(inner) && 0 < m < |Open(tag)| && '<' !in body
    requires var s := Element(inner, []) + Remainder(tag, m, body); 0 < j < |s| && s[j] == '<'
    ensures var s := Element(inner, []) + Remainder(tag, m, body); j + 1 < |s| && s[j + 1] == '/'
  {
    var e, rest := Element(inner, []), Remainder(tag, m, body);
    if j < |e| {
      SecondLessOf(inner, [], j);
    } else {
      RemainderHasOnlyTheClose(tag, m, body);
      assert rest[j - |e|] == '<';
    }
  }

  /** With an element of another kind inside, the outer opening tag is not there yet. */
  lemma NestedHidesTheTag(tag: string, inner: string, m: nat, body: string)
    requires IsTagName(tag) && IsTagName(inner) && Differ(tag, inner) && 0 < m < |Open(tag)| && '<' !in body
    ensures !Contains(Lower(Nested(tag, inner, m, body)), Open(tag))
    ensures Dropped(Nested(tag, inner, m, body), tag) == Nested(tag, inner, m, body)
  {
    var head, tail := Open(tag)[..m], Element(inner, []) + Remainder(tag, m, body);
    var s, low := Nested(tag, inner, m, body), Lower(Nested(tag, inner, m, body));
    NestedIsAnElementInside(tag, inner, m, body);
    OpenIsLower(tag);
    OpenIsLower(inner);
    assert forall i :: 0 < i < m ==> s[i] == Open(tag)[i];
    forall j: nat | j + |Open(tag)| <= |s| ensures !OccursAt(low, Open(tag), j) {
      if s[j] != '<' {
        Mismatch(low, Open(tag), j, 0);
      } else if j == 0 {
        assert s[m] == tail[0] == '<';
        Mismatch(low, Open(tag), 0, m);
      } else if j == m {
        assert s[m + 2] == tail[2] == inner[1] && Open(tag)[2] == tag[1];
        assert inner[1] in inner;
        Mismatch(low, Open(tag), m, 2);
      } else {
        AfterInnerOnlyCloses(tag, inner, m, body, j - m);
        assert s[j + 1] == tail[j - m + 1] == '/';
        Mismatch(low, Open(tag), j, 1);
      }
    }
  }

  lemma SecondLessIsClose(body: string, j: nat)
    requires '<' !in body && 0 < j < |Element("script", body)| && Element("script", body)[j] == '<'
    ensures j + 1 < |Element("script", body)| && Element("script", body)[j + 1] == '/'
  {
    ScriptIsTagName();
    SecondLessOf("script", body, j);
  }

  lemma SecondLessOf(tag: string, body: string, j: nat)
    requires IsTagName(tag) && '<' !in body && 0 < j < |Element(tag, body)| && Element(tag, body)[j] == '<'
    ensures j + 1 < |Element(tag, body)| && Element(tag, body)[j + 1] == '/'
  {
    var open := Open(tag);
    var tail := open[1..] + AfterOpen(tag, body);
    OpenIsLower(tag);
    assert Element(tag, body)[1..] == tail;
    assert tail[j - 1] == Element(tag, body)[j];
    assert '<' !in open[1..] by { assert forall i :: 1 <= i < |open| ==> open[i] != '<'; }
    OnlyTheCloseOpens(tag, open[1..], body, j - 1);
    assert tail[j] == Element(tag, body)[j + 1];
  }

  lemma StrippedElement(body: string)
    requires '<' !in body
    ensures Stripped(Element("script", body), false) == "\n" + (body + "\n")
  {
    var close := "<" + ("/script" + (">" + ""));
    assert Close("script") + ">" == close;
    assert Element("script", body) == [] + ("<" + ("script" + (">" + (body + close))));
    StrippedTag([], "script", body + close);
    StrippedTag(body, "/script", "");
    NilPlus("\n");
    NilPlus("\n" + (body + "\n"));
  }

  lemma NestedIsReduced(inner: string, m: nat, body: string)
    requires inner == "script" || inner == "style"
    requires 0 < m < |Open("script")| && '<' !in body
    ensures Dropped(Dropped(Nested("script", inner, m, body), "script"), "style") == Element("script", body)
  {
    ScriptIsTagName();
    NestedElementSurvives("script", inner, m, body);
    if inner == "script" {
      ScriptIsNotStyle(body);
    } else {
      NestedHidesTheTag("script", inner, m, body);
    }
  }

  lemma SurvivorText(inner: string, m: nat, body: string)
    requires inner == "script" || inner == "style"
    requires 0 < m < |Open("script")| && '<' !in body && '&' !in body
    ensures FloorText(Nested("script", inner, m, body)) == "\n" + (body + "\n")
  {
    NestedIsReduced(inner, m, body);
    StrippedElement(body);
    FloorOf(Nested("script", inner, m, body), Element("script", body), "\n" + (body + "\n"));
  }

  lemma FloorOf(html: string, kept: string, text: string)
    requires Dropped(Dropped(html, "script"), "style") == kept
    requires Stripped(kept, false) == text && '&' !in text
    ensures FloorText(html) == text
  {
    NoEntities(text);
  }

  lemma NoEntities(text: string)
    requires '&' !in text
    ensures DecodeOnce(text, SEQUENCE) == text
  {
    EntitiesWellFormed();
    PassThrough(text, [], SEQUENCE);
    NilPlus(text);
  }

  lemma {:induction false} SplitLine(a: string, rest: string)
    requires '\n' !in a
    ensures Split(a, "\n") == [a]
    ensures Split(a + ("\n" + rest), "\n") == [a] + Split(rest, "\n")
  {
    var whole := a + ("\n" + rest);
    if a == [] {
      assert whole[1..] == rest;
    } else {
      SplitLine(a[1..], rest);
      assert a[0] in a;
      assert whole[1..] == a[1..] + ("\n" + rest);
      assert [a[0]] + a[1..] == a;
    }
  }

  lemma SurvivorPieces(body: string)
    requires '\n' !in body
    ensures Split("\n" + (body + "\n"), "\n") == ["", body, ""]
  {
    var empty: string := [];
    SplitLine(empty, body + "\n");
    NilPlus("\n" + (body + "\n"));
    NilPlus("\n");
    SplitLine(body, empty);
  }

  lemma SurvivorLines(body: string)
    requires body != [] && '\n' !in body && '\r' !in body && Trim(body) == body
    ensures NonBlank(TrimAll(Lines("\n" + (body + "\n")))) == [body]
  {
    var pieces: seq<string> := ["", body, ""];
    var lines: seq<string> := ["", body];
    SurvivorPieces(body);
    assert pieces[..2] == lines;
    assert body[|body| - 1] in body;
    assert Lines("\n" + (body + "\n")) == lines;
    assert TrimAll(lines) == lines;
    BlankThenLine(body);
  }

  lemma BlankThenLine(x: string)
    requires x != []
    ensures NonBlank(["", x]) == [x]
  {
    var lines: seq<string> := ["", x];
    var one: seq<string> := [x];
    assert one[1..] == [];
    assert NonBlank(one) == [x] + NonBlank(one[1..]) == [x];
    assert lines[1..] == one && lines[0] == [];
    NilPlus(one);
  }

  lemma TrimmedEnds(x: string)
    requires x != [] && Trim(x) == x
    ensures !IsWhitespace(x[0]) && !IsWhitespace(x[|x| - 1])
  {
    if IsWhitespace(x[0]) {
      var i, j := TrimIsSlice(x[1..]);
    }
    if !IsWhitespace(x[0]) && IsWhitespace(x[|x| - 1]) {
      var j := TrimEndIsPrefix(x[..|x| - 1]);
    }
  }

  function EndOfLine(there: bool): string {
    if there then "\n" else ""
  }

  lemma TrimLine(x: string, after: bool)
    requires x != [] && Trim(x) == x
    ensures Trim(x + EndOfLine(after)) == x && Trim("\n" + (x + EndOfLine(after))) == x
  {
    var y := x + EndOfLine(after);
    TrimmedEnds(x);
    NilPlus(x);
    assert ("\n" + y)[1..] == y;
    assert TrimStart(y) == y && TrimStart("\n" + y) == y;
    assert after ==> y[..|y| - 1] == x;
  }

  lemma {:induction false} AllBlank(lines: seq<string>, i: nat)
    requires NonBlank(lines) == [] && i < |lines|
    ensures lines[i] == []
  {
    if i > 0 { AllBlank(lines[1..], i - 1); }
  }

  lemma FirstNonBlank(lines: seq<string>, x: string)
    requires lines != [] && lines[0] != [] && NonBlank(lines) == [x]
    ensures lines[0] == x && NonBlank(lines[1..]) == []
  {
    var all := [lines[0]] + NonBlank(lines[1..]);
    assert all[0] == lines[0] && |all| == 1 + |NonBlank(lines[1..])|;
  }

  /** From a line on, at most one blank follows. */
  lemma OneLineThenBlank(lines: seq<string>, x: string)
    requires lines != [] && lines[0] != [] && NonBlank(lines) == [x] && NoBlankPair(lines)
    ensures lines[0] == x && |lines| <= 2 && (|lines| == 2 ==> lines[1] == [])
  {
    FirstNonBlank(lines, x);
    forall i | 1 <= i < |lines| ensures lines[i] == [] { AllBlank(lines[1..], i - 1); }
  }

  /** However blank lines surround it, a single line is what is left of the text. */
  lemma OneLine(lines: seq<string>, x: string)
    requires NonBlank(lines) == [x] && NoBlankPair(lines) && Trim(x) == x && x != []
    ensures lines != [] && Trim(Join(lines, "\n")) == x
  {
    var before := lines[0] == [];
    var rest := if before then lines[1..] else lines;
    assert NonBlank(rest) == [x];
    OneLineThenBlank(rest, x);
    JoinOneLine(rest, x);
    TrimLine(x, |rest| == 2);
    if before {
      NilPlus("\n");
      assert Join(lines, "\n") == [] + "\n" + Join(rest, "\n");
    }
  }

  lemma JoinOneLine(lines: seq<string>, x: string)
    requires 1 <= |lines| <= 2 && lines[0] == x && (|lines| == 2 ==> lines[1] == [])
    ensures Join(lines, "\n") == x + EndOfLine(|lines| == 2)
  {
    if |lines| == 2 {
      assert Join(lines[1..], "\n") == "";
      NilPlus(x + "\n");
    } else {
      NilPlus(x);
    }
  }

  /** So the body of such a script is the output of `strip_html`, for every body that is one
      trimmed line without markup: `<scr<script></script>ipt>x</script>` gives `x`, and so
      does `<scr<style></style>ipt>x</script>`, from which the first drop removes nothing. */
  method ScriptBodyIsOutput(inner: string, m: nat, body: string) returns (markdown: string)
    requires inner == "script" || inner == "style"
    requires 0 < m < |Open("script")|
    requires body != [] && Trim(body) == body
    requires '<' !in body && '&' !in body && '\n' !in body && '\r' !in body
    ensures markdown == body
  {
    ghost var lines, at;
    markdown, lines, at := StripHtml(Nested("script", inner, m, body));
    SurvivorText(inner, m, body);
    SurvivorLines(body);
    OneLine(lines, body);
  }
}
