/** Element dropping and tag stripping of the HTML reduction
    (apps/core/src/document_parse.rs). */
module Elements {
  import opened Text
  import opened Utf8

  // ----- Dropping script and style elements -----

  /** The text left after removing, again and again, from the first `<tag` through the
      first `>` after the next `</tag`; without a close the rest goes. */
  function Dropped(s: string, tag: string): string
    decreases |s|
  {
    match Find(Lower(s), "<" + tag)
    case None => s
    case Some(i) => s[..i] + Dropped(AfterElement(s[i..], tag), tag)
  }

  /** What follows the element that starts `s`. */
  function AfterElement(s: string, tag: string): (rest: string)
    ensures s != [] ==> |rest| < |s|
  {
    match Find(Lower(s), "</" + tag)
    case None => []
    case Some(e) =>
      match Find(s[e..], ">")
      case None => []
      case Some(g) => s[e + g + 1..]
  }

  /** The pieces of the source that survive, in order. */
  function KeptSegments(s: string, tag: string): seq<string>
    decreases |s|
  {
    match Find(Lower(s), "<" + tag)
    case None => [s]
    case Some(i) => [s[..i]] + KeptSegments(AfterElement(s[i..], tag), tag)
  }

  lemma BeforeFirstIsClean(s: string, open: string, i: nat)
    requires open != [] && i <= |s| && forall j: nat :: j < i ==> !OccursAt(Lower(s), open, j)
    ensures !Contains(Lower(s[..i]), open)
  {
    forall j: nat ensures !OccursAt(Lower(s[..i]), open, j) {
      if j + |open| <= i {
        assert Lower(s[..i])[j..j + |open|] == Lower(s)[j..j + |open|];
        assert !OccursAt(Lower(s), open, j);
      }
    }
  }

  /** No surviving piece holds an opening tag in any letter case. */
  lemma {:induction false} KeptSegmentsHaveNoTag(s: string, tag: string)
    ensures Concat(KeptSegments(s, tag)) == Dropped(s, tag)
    ensures forall k :: k in KeptSegments(s, tag) ==> !Contains(Lower(k), "<" + tag)
    decreases |s|
  {
    var open := "<" + tag;
    match Find(Lower(s), open)
    case None =>
      var all: seq<string> := [s];
      assert all[1..] == [];
    case Some(i) =>
      var rest := KeptSegments(AfterElement(s[i..], tag), tag);
      KeptSegmentsHaveNoTag(AfterElement(s[i..], tag), tag);
      assert ([s[..i]] + rest)[1..] == rest;
      BeforeFirstIsClean(s, open, i);
  }

  // ----- Bytes in lower case -----

  function LowerByte(b: byte): byte {
    if 65 <= b <= 90 then b + 32 else b
  }

  /** `to_ascii_lowercase` on bytes. */
  function LowerBytes(b: seq<byte>): (r: seq<byte>)
    ensures |r| == |b| && forall i :: 0 <= i < |b| ==> r[i] == LowerByte(b[i])
  {
    seq(|b|, i requires 0 <= i < |b| => LowerByte(b[i]))
  }

  lemma LowerBytesConcat(a: seq<byte>, b: seq<byte>)
    ensures LowerBytes(a + b) == LowerBytes(a) + LowerBytes(b)
  {
  }

  lemma LowerEncodedChar(c: char)
    ensures EncodeChar(LowerChar(c)) == LowerBytes(EncodeChar(c))
  {
  }

  lemma {:induction false} LowerEncoded(s: string)
    ensures Encode(Lower(s)) == LowerBytes(Encode(s))
  {
    if s != [] {
      LowerEncoded(s[1..]);
      LowerEncodedChar(s[0]);
      assert Lower(s)[1..] == Lower(s[1..]);
      LowerBytesConcat(EncodeChar(s[0]), Encode(s[1..]));
    }
  }

  /** A Rust string slice: panics unless both ends are character boundaries. */
  function Slice(b: seq<byte>, i: nat, j: nat): seq<byte>
    requires i <= j <= |b| && IsBoundary(b, i) && IsBoundary(b, j)
  {
    b[i..j]
  }

  /** A byte cursor that stands at a character boundary, with `rest` still to read. */
  ghost predicate At(src: seq<byte>, cursor: nat, rest: string) {
    cursor <= |src| && IsBoundary(src, cursor) && src[cursor..] == Encode(rest)
  }

  /** Reading the first `k` characters of what is left. */
  lemma CursorMoves(src: seq<byte>, cursor: nat, rest: string, k: nat)
    requires At(src, cursor, rest) && k <= |rest|
    ensures var next := cursor + |Encode(rest[..k])|;
            At(src, next, rest[k..]) && src[cursor..next] == Encode(rest[..k])
  {
    PrefixIsBoundary(rest, k);
    SliceOfTail(src, cursor, |Encode(rest[..k])|);
    if k < |rest| {
      assert src[cursor + |Encode(rest[..k])|..][0] == EncodeChar(rest[k])[0];
    } else {
      assert rest[k..] == [];
    }
  }

  lemma SliceOfTail(src: seq<byte>, i: nat, n: nat)
    requires i <= |src| && n <= |src[i..]|
    ensures src[i + n..] == src[i..][n..] && src[i..i + n] == src[i..][..n]
  {
  }

  lemma LowerCursor(src: seq<byte>, cursor: nat, rest: string, p: string)
    requires At(src, cursor, rest) && p != []
    ensures var f := Find(Lower(rest), p);
            Find(LowerBytes(src)[cursor..], Encode(p)) == (if f.Some? then Some(|Encode(rest[..f.value])|) else None)
  {
    LowerEncoded(rest);
    assert LowerBytes(src)[cursor..] == LowerBytes(src[cursor..]);
    FindInBytes(Lower(rest), p);
    var f := Find(Lower(rest), p);
    if f.Some? {
      LowerEncoded(rest[..f.value]);
      assert Lower(rest)[..f.value] == Lower(rest[..f.value]);
    }
  }

  /** `pos` is where the cursor stands after the first `k` characters of what is left. */
  ghost predicate Passes(src: seq<byte>, cursor: nat, rest: string, k: nat, pos: nat) {
    && k <= |rest| && cursor <= pos && At(src, pos, rest[k..])
    && src[cursor..pos] == Encode(rest[..k])
  }

  lemma CursorPasses(src: seq<byte>, cursor: nat, rest: string, k: nat, pos: nat)
    requires At(src, cursor, rest) && k <= |rest| && pos == cursor + |Encode(rest[..k])|
    ensures Passes(src, cursor, rest, k, pos)
  {
    CursorMoves(src, cursor, rest, k);
  }

  /** Lowering moves no character boundary. */
  lemma LowerBoundary(b: seq<byte>, i: nat)
    ensures IsBoundary(LowerBytes(b), i) <==> IsBoundary(b, i)
  {
  }

  /** `lower[cursor..].find(p)`, as an absolute position. */
  method Seek(src: seq<byte>, lower: seq<byte>, cursor: nat, p: string, ghost rest: string) returns (pos: Option<nat>)
    requires At(src, cursor, rest) && lower == LowerBytes(src) && p != []
    ensures pos.Some? <==> Find(Lower(rest), p).Some?
    ensures pos.Some? ==> Passes(src, cursor, rest, Find(Lower(rest), p).value, pos.value)
  {
    LowerCursor(src, cursor, rest, p);
    LowerBoundary(src, cursor);
    var hit := Find(Slice(lower, cursor, |lower|), Encode(p));
    assert Slice(lower, cursor, |lower|) == lower[cursor..];
    if hit.None? { return None; }
    pos := Some(cursor + hit.value);
    CursorPasses(src, cursor, rest, Find(Lower(rest), p).value, pos.value);
  }

  /** `src[cursor..].find('>')`, as the absolute position past it. */
  method PastGreater(src: seq<byte>, cursor: nat, ghost rest: string) returns (pos: Option<nat>)
    requires At(src, cursor, rest)
    ensures pos.Some? <==> Find(rest, ">").Some?
    ensures pos.Some? ==> At(src, pos.value, rest[Find(rest, ">").value + 1..])
  {
    FindGreater(rest);
    var gt := Find(Slice(src, cursor, |src|), [62]);
    assert Slice(src, cursor, |src|) == src[cursor..];
    if gt.None? { return None; }
    pos := Some(cursor + gt.value + 1);
    CursorPasses(src, cursor, rest, Find(rest, ">").value + 1, pos.value);
  }

  lemma FindGreater(s: string)
    ensures var f, g := Find(s, ">"), Find(Encode(s), [62]);
            (f.Some? <==> g.Some?) && (f.Some? ==> |Encode(s[..f.value + 1])| == g.value + 1)
  {
    EncodeAscii('>');
    FindInBytes(s, ">");
    var f := Find(s, ">");
    if f.Some? {
      assert s[f.value] == '>';
      EncodedUpTo(s, f.value);
    }
  }

  lemma EncodedUpTo(s: string, k: nat)
    requires k < |s| && s[k] < '\U{80}'
    ensures |Encode(s[..k + 1])| == |Encode(s[..k])| + 1
  {
    assert s[..k + 1] == s[..k] + [s[k]];
    EncodeConcat(s[..k], [s[k]]);
    EncodeAscii(s[k]);
  }

  lemma AfterElementUnfolds(s: string, tag: string)
    ensures var f := Find(Lower(s), "</" + tag);
            AfterElement(s, tag) ==
            if f.None? then []
            else if Find(s[f.value..], ">").None? then []
            else s[f.value..][Find(s[f.value..], ">").value + 1..]
  {
  }

  /** The close of an element: the end of its `</tag … >`, or of the text. */
  method ElementEnd(src: seq<byte>, lower: seq<byte>, start: nat, tag: string, ghost elem: string) returns (cursor: nat)
    requires At(src, start, elem) && lower == LowerBytes(src)
    ensures At(src, cursor, AfterElement(elem, tag))
  {
    AfterElementUnfolds(elem, tag);
    var after := Seek(src, lower, start, "</" + tag, elem);
    if after.None? { return |src|; }
    var past := PastGreater(src, after.value, elem[Find(Lower(elem), "</" + tag).value..]);
    cursor := if past.None? then |src| else past.value;
  }

  lemma DroppedUnfolds(s: string, tag: string)
    requires Find(Lower(s), "<" + tag).Some?
    ensures var i := Find(Lower(s), "<" + tag).value;
            Encode(Dropped(s, tag)) == Encode(s[..i]) + Encode(Dropped(AfterElement(s[i..], tag), tag))
            && |AfterElement(s[i..], tag)| < |s|
  {
    var i := Find(Lower(s), "<" + tag).value;
    EncodeConcat(s[..i], Dropped(AfterElement(s[i..], tag), tag));
  }

  /** One round of the loop: what to keep, and where the next round starts. */
  method NextPiece(src: seq<byte>, lower: seq<byte>, cursor: nat, tag: string, ghost rest: string, ghost out: seq<byte>)
    returns (piece: seq<byte>, next: Option<nat>, ghost left: string)
    requires At(src, cursor, rest) && lower == LowerBytes(src)
    ensures next.None? ==> out + Encode(Dropped(rest, tag)) == out + piece
    ensures next.Some? ==>
              out + Encode(Dropped(rest, tag)) == out + piece + Encode(Dropped(left, tag))
              && At(src, next.value, left) && |left| < |rest|
  {
    var start := Seek(src, lower, cursor, "<" + tag, rest);
    if start.None? {
      return Slice(src, cursor, |src|), None, [];
    }
    ghost var elem := rest[Find(Lower(rest), "<" + tag).value..];
    DroppedUnfolds(rest, tag);
    piece := Slice(src, cursor, start.value);
    var end := ElementEnd(src, lower, start.value, tag, elem);
    next, left := Some(end), AfterElement(elem, tag);
    Assoc(out, piece, Encode(Dropped(left, tag)));
  }

  /** `drop_element`, on the bytes of a string.  Every slice it takes is taken through
      `Slice`, so none of them can fall inside a character. */
  method DropElement(src: seq<byte>, tag: string, ghost text: string) returns (out: seq<byte>)
    requires src == Encode(text)
    ensures out == Encode(Dropped(text, tag))
  {
    var lower := LowerBytes(src);
    var cursor := Some(0);
    ghost var rest := text;
    out := [];
    NilPlus(Encode(Dropped(text, tag)));
    while cursor.Some?
      invariant cursor.Some? ==> At(src, cursor.value, rest)
      invariant cursor.Some? ==> out + Encode(Dropped(rest, tag)) == Encode(Dropped(text, tag))
      invariant cursor.None? ==> out == Encode(Dropped(text, tag))
      decreases if cursor.Some? then |rest| + 1 else 0
    {
      var piece;
      piece, cursor, rest := NextPiece(src, lower, cursor.value, tag, rest, out);
      out := out + piece;
    }
  }

  lemma EncodeAscii(c: char)
    requires c < '\U{80}'
    ensures Encode([c]) == [c as int as byte]
  {
    assert [c][1..] == [];
  }

  // ----- Stripping tags -----

  /** The loop state of the tag stripper, read as a function of what is left. */
  function Stripped(s: string, inTag: bool): string {
    if s == [] then []
    else if s[0] == '<' then Stripped(s[1..], true)
    else if s[0] == '>' && inTag then "\n" + Stripped(s[1..], false)
    else if inTag then Stripped(s[1..], true)
    else [s[0]] + Stripped(s[1..], false)
  }

  /** The character loop of `strip_html`. */
  method StripTags(rest: string) returns (out: string)
    ensures out == Stripped(rest, false)
  {
    out := [];
    var inTag := false;
    for i := 0 to |rest|
      invariant out + Stripped(rest[i..], inTag) == Stripped(rest, false)
    {
      ghost var tail := Stripped(rest[i..], inTag);
      assert rest[i..][1..] == rest[i + 1..];
      var ch := rest[i];
      if ch == '<' {
        inTag := true;
      } else if ch == '>' && inTag {
        inTag := false;
        Assoc(out, "\n", Stripped(rest[i + 1..], false));
        out := out + "\n";
      } else if inTag {
      } else {
        Assoc(out, [ch], Stripped(rest[i + 1..], false));
        out := out + [ch];
      }
    }
    assert rest[|rest|..] == [];
  }

  /** No `<` is left for the entity decoder to confuse with one it decoded. */
  lemma {:induction false} StrippedHasNoLess(s: string, inTag: bool)
    ensures '<' !in Stripped(s, inTag)
  {
    if s != [] {
      StrippedHasNoLess(s[1..], true);
      StrippedHasNoLess(s[1..], false);
    }
  }

  lemma {:induction false} StrippedPlain(a: string, b: string)
    requires '<' !in a
    ensures Stripped(a + b, false) == a + Stripped(b, false)
  {
    if a == [] {
      assert a + b == b;
    } else {
      TailOfConcat(a, b);
      StrippedPlain(a[1..], b);
    }
  }

  lemma {:induction false} StrippedInTag(t: string, b: string)
    requires '>' !in t
    ensures Stripped(t + b, true) == Stripped(b, true)
  {
    if t == [] {
      assert t + b == b;
    } else {
      TailOfConcat(t, b);
      StrippedInTag(t[1..], b);
    }
  }

  /** A tag becomes one line break whatever it holds; text around it is untouched; an
      unclosed tag swallows the rest. */
  lemma StrippedTag(a: string, t: string, b: string)
    requires '<' !in a && '>' !in t
    ensures Stripped(a + ("<" + (t + (">" + b))), false) == a + ("\n" + Stripped(b, false))
    ensures Stripped(a + ("<" + t), false) == a
  {
    StrippedPlain(a, "<" + (t + (">" + b)));
    assert ("<" + (t + (">" + b)))[1..] == t + (">" + b);
    StrippedInTag(t, ">" + b);
    assert (">" + b)[1..] == b;
    StrippedPlain(a, "<" + t);
    assert ("<" + t)[1..] == t;
    StrippedInTag(t, []);
    assert t + [] == t && a + [] == a;
  }
}
