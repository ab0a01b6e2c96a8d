/** The builtin floor of the document parser (apps/core/src/document_parse.rs):
    decoding bytes to text, reducing HTML, and clamping the result. */
module DocumentParse {
  import opened Text
  import opened Utf8
  import opened Elements
  import opened Entities

  // ----- Collapsing blank lines -----

  /** `str::lines`: newline-terminated pieces without their line ending; a final empty
      piece does not count as a line. */
  function Lines(s: string): seq<string> {
    var pieces := Split(s, "\n");
    var counted := if pieces[|pieces| - 1] == [] then pieces[..|pieces| - 1] else pieces;
    seq(|counted|, i requires 0 <= i < |counted| =>
      if i < |pieces| - 1 && counted[i] != [] && counted[i][|counted[i]| - 1] == '\r'
      then counted[i][..|counted[i]| - 1]
      else counted[i])
  }

  function NonBlank(lines: seq<string>): seq<string> {
    if lines == [] then []
    else (if lines[0] == [] then [] else [lines[0]]) + NonBlank(lines[1..])
  }

  function TrimAll(lines: seq<string>): (r: seq<string>)
    ensures |r| == |lines| && forall i :: 0 <= i < |lines| ==> r[i] == Trim(lines[i])
  {
    seq(|lines|, i requires 0 <= i < |lines| => Trim(lines[i]))
  }

  ghost predicate NoBlankPair(lines: seq<string>) {
    forall i :: 0 <= i < |lines| - 1 ==> !(lines[i] == [] && lines[i + 1] == [])
  }

  lemma {:induction false} NonBlankSnoc(a: seq<string>, x: string)
    ensures NonBlank(a + [x]) == if x == [] then NonBlank(a) else NonBlank(a) + [x]
  {
    if a == [] {
      var one: seq<string> := [x];
      assert a + [x] == one && one[1..] == [];
    } else {
      TailOfConcat(a, [x]);
      NonBlankSnoc(a[1..], x);
    }
  }

  lemma TrimAllSnoc(input: seq<string>, i: nat)
    requires i < |input|
    ensures var before := NonBlank(TrimAll(input)[..i]);
            NonBlank(TrimAll(input)[..i + 1]) == if Trim(input[i]) == [] then before else before + [Trim(input[i])]
  {
    assert TrimAll(input)[..i + 1] == TrimAll(input)[..i] + [Trim(input[i])];
    NonBlankSnoc(TrimAll(input)[..i], Trim(input[i]));
  }

  lemma NoBlankPairSnoc(lines: seq<string>, x: string)
    requires NoBlankPair(lines) && (x == [] && lines != [] ==> lines[|lines| - 1] != [])
    ensures NoBlankPair(lines + [x])
  {
  }

  ghost predicate ComeFrom(lines: seq<string>, input: seq<string>, n: nat)
    requires n <= |input|
  {
    forall l :: l in lines ==> exists k :: 0 <= k < n && l == Trim(input[k])
  }

  lemma ComeFromSnoc(lines: seq<string>, input: seq<string>, n: nat)
    requires n < |input| && ComeFrom(lines, input, n)
    ensures ComeFrom(lines, input, n + 1) && ComeFrom(lines + [Trim(input[n])], input, n + 1)
  {
  }

  /** A line that only repeats the blank one before it. */
  predicate RepeatsBlank(input: seq<string>, i: nat) {
    0 < i < |input| && Trim(input[i]) == [] && Trim(input[i - 1]) == []
  }

  /** Of the first `n` lines exactly those that repeat no blank are there, trimmed and in
      order; `at` says where they stood. */
  ghost predicate KeptAt(lines: seq<string>, at: seq<nat>, input: seq<string>, n: nat)
    requires n <= |input|
  {
    && |at| == |lines|
    && (forall k, l :: 0 <= k < l < |at| ==> at[k] < at[l])
    && (forall k :: 0 <= k < |at| ==> at[k] < n && lines[k] == Trim(input[at[k]]))
    && (forall i :: 0 <= i < n ==> (i in at <==> !RepeatsBlank(input, i)))
  }

  lemma LastIsKept(lines: seq<string>, at: seq<nat>, input: seq<string>, n: nat)
    requires 0 < n <= |input| && KeptAt(lines, at, input, n)
    ensures lines != [] && (lines[|lines| - 1] == [] <==> Trim(input[n - 1]) == [])
    decreases n
  {
    if RepeatsBlank(input, n - 1) {
      assert n - 1 !in at;
      assert forall k :: 0 <= k < |at| ==> at[k] in at;
      LastIsKept(lines, at, input, n - 1);
    } else {
      var k :| 0 <= k < |at| && at[k] == n - 1;
    }
  }

  lemma KeepLine(lines: seq<string>, at: seq<nat>, input: seq<string>, n: nat)
    requires n < |input| && KeptAt(lines, at, input, n) && !RepeatsBlank(input, n)
    ensures KeptAt(lines + [Trim(input[n])], at + [n], input, n + 1)
  {
    forall i | 0 <= i < n + 1 ensures i in at + [n] <==> !RepeatsBlank(input, i) {
      assert i in at + [n] <==> i in at || i == n;
    }
  }

  lemma SkipLine(lines: seq<string>, at: seq<nat>, input: seq<string>, n: nat)
    requires n < |input| && KeptAt(lines, at, input, n) && RepeatsBlank(input, n)
    ensures KeptAt(lines, at, input, n + 1)
  {
    assert forall k :: 0 <= k < |at| ==> at[k] in at;
  }

  /** What the line loop has done after `n` lines. */
  ghost predicate CollapsedUpTo(lines: seq<string>, at: seq<nat>, input: seq<string>, n: nat)
    requires n <= |input|
  {
    && KeptAt(lines, at, input, n) && NoBlankPair(lines) && ComeFrom(lines, input, n)
    && |lines| <= n && (lines == [] <==> n == 0)
    && NonBlank(lines) == NonBlank(TrimAll(input)[..n])
  }

  lemma CollapseKeeps(lines: seq<string>, at: seq<nat>, input: seq<string>, n: nat)
    requires n < |input| && CollapsedUpTo(lines, at, input, n)
    requires !(Trim(input[n]) == [] && lines != [] && lines[|lines| - 1] == [])
    ensures CollapsedUpTo(lines + [Trim(input[n])], at + [n], input, n + 1)
  {
    if n > 0 { LastIsKept(lines, at, input, n); }
    KeepLine(lines, at, input, n);
    TrimAllSnoc(input, n);
    ComeFromSnoc(lines, input, n);
    NonBlankSnoc(lines, Trim(input[n]));
    NoBlankPairSnoc(lines, Trim(input[n]));
  }

  lemma CollapseSkips(lines: seq<string>, at: seq<nat>, input: seq<string>, n: nat)
    requires n < |input| && CollapsedUpTo(lines, at, input, n)
    requires Trim(input[n]) == [] && lines != [] && lines[|lines| - 1] == []
    ensures CollapsedUpTo(lines, at, input, n + 1)
  {
    LastIsKept(lines, at, input, n);
    SkipLine(lines, at, input, n);
    TrimAllSnoc(input, n);
    ComeFromSnoc(lines, input, n);
  }

  lemma NoneCollapsed(input: seq<string>)
    ensures CollapsedUpTo([], [], input, 0)
  {
  }

  lemma AllCollapsed(lines: seq<string>, at: seq<nat>, input: seq<string>)
    requires CollapsedUpTo(lines, at, input, |input|)
    ensures KeptAt(lines, at, input, |input|) && NoBlankPair(lines) && ComeFrom(lines, input, |input|)
    ensures NonBlank(lines) == NonBlank(TrimAll(input))
    ensures |lines| <= |input| && (lines == [] <==> input == [])
  {
    assert TrimAll(input)[..|input|] == TrimAll(input);
  }

  /** The line loop of `strip_html`: trims every line and drops exactly those that repeat
      a blank; what is left has no two blank lines in a row. */
  method CollapseBlankLines(input: seq<string>) returns (lines: seq<string>, ghost at: seq<nat>)
    ensures KeptAt(lines, at, input, |input|)
    ensures NoBlankPair(lines)
    ensures NonBlank(lines) == NonBlank(TrimAll(input))
    ensures ComeFrom(lines, input, |input|)
    ensures |lines| <= |input| && (lines == [] <==> input == [])
  {
    lines, at := [], [];
    NoneCollapsed(input);
    for i := 0 to |input|
      invariant CollapsedUpTo(lines, at, input, i)
    {
      var trimmed := Trim(input[i]);
      if trimmed == [] && lines != [] && lines[|lines| - 1] == [] {
        CollapseSkips(lines, at, input, i);
        continue;
      }
      CollapseKeeps(lines, at, input, i);
      lines, at := lines + [trimmed], at + [i];
    }
    AllCollapsed(lines, at, input);
  }

  predicate BlankRunAt(t: string, i: nat) {
    i + 2 < |t| && t[i] == '\n' && t[i + 1] == '\n' && t[i + 2] == '\n'
  }

  lemma JoinStart(lines: seq<string>)
    requires lines != [] && forall l :: l in lines ==> '\n' !in l
    ensures var t := Join(lines, "\n");
            |t| > 0 && t[0] == '\n' ==> |lines| > 1 && lines[0] == [] && t[1..] == Join(lines[1..], "\n")
  {
    var t := Join(lines, "\n");
    if lines[0] != [] {
      assert t[0] == lines[0][0];
      assert lines[0][0] in lines[0];
    } else if |lines| > 1 {
      assert t == [] + "\n" + Join(lines[1..], "\n");
    }
  }

  lemma {:induction false} NoBlankRun(lines: seq<string>, i: nat)
    requires lines != [] && NoBlankPair(lines) && forall l :: l in lines ==> '\n' !in l
    ensures !BlankRunAt(Join(lines, "\n"), i)
  {
    var t := Join(lines, "\n");
    if |lines| == 1 {
      assert i < |t| ==> t[i] in lines[0];
    } else {
      var head, tail := lines[0], lines[1..];
      var rest := Join(tail, "\n");
      assert t == head + "\n" + rest;
      if i < |head| {
        assert t[i] == head[i] && head[i] in head;
      } else if i == |head| {
        JoinStart(tail);
        assert rest == t[i + 1..];
        if |tail| > 1 {
          JoinStart(tail[1..]);
          assert tail[0] == lines[1] && tail[1] == lines[2];
        }
      } else {
        NoBlankRun(tail, i - |head| - 1);
      }
    }
  }

  // ----- The HTML reduction -----

  /** The text `strip_html` hands to its line loop. */
  function FloorText(html: string): string {
    EntitiesWellFormed();
    DecodeOnce(Stripped(Dropped(Dropped(html, "script"), "style"), false), SEQUENCE)
  }

  lemma EntitiesWellFormed()
    ensures forall e :: e in SEQUENCE ==> WellFormed(e)
  {
    EntitiesDecodeOnce("");
  }

  lemma NoBlankRunInTrimmed(t: string)
    requires forall i: nat :: !BlankRunAt(t, i)
    ensures !Contains(Trim(t), "\n\n\n")
  {
    var i, j := TrimIsSlice(t);
    var u := Trim(t);
    forall k: nat ensures !OccursAt(u, "\n\n\n", k) {
      assert !BlankRunAt(t, i + k);
      if k + 3 <= |u| {
        assert u[k] == t[i + k] && u[k + 1] == t[i + k + 1] && u[k + 2] == t[i + k + 2];
        var w := u[k..k + 3];
        assert w[0] == u[k] && w[1] == u[k + 1] && w[2] == u[k + 2];
      }
    }
  }

  lemma LineHasNoNewline(s: string, k: nat)
    requires k < |Lines(s)|
    ensures '\n' !in Trim(Lines(s)[k])
  {
    PiecesLackSeparator(s, '\n');
    assert Split(s, "\n")[k] in Split(s, "\n");
    var i, j := TrimIsSlice(Lines(s)[k]);
  }

  /** `strip_html`: the trimmed lines of the reduced text, in order, but for those that
      repeat a blank line. */
  method StripHtml(html: string) returns (markdown: string, ghost lines: seq<string>, ghost at: seq<nat>)
    ensures KeptAt(lines, at, Lines(FloorText(html)), |Lines(FloorText(html))|)
    ensures NonBlank(lines) == NonBlank(TrimAll(Lines(FloorText(html)))) && NoBlankPair(lines)
    ensures markdown == if lines == [] then [] else Trim(Join(lines, "\n"))
    ensures !Contains(markdown, "\n\n\n")
  {
    var rest := DropElement(Encode(html), "script", html);
    ghost var noScript := Dropped(html, "script");
    rest := DropElement(rest, "style", noScript);
    DecodeEncode(Dropped(noScript, "style"));
    var out := StripTags(Lossy(rest));
    EntitiesDecodeOnce(out);
    var decoded := DecodeInTurn(out, SEQUENCE);
    var kept;
    kept, at := CollapseBlankLines(Lines(decoded));
    lines := kept;
    markdown := if kept == [] then [] else Trim(Join(kept, "\n"));
    if kept != [] {
      forall l | l in kept ensures '\n' !in l {
        var k :| 0 <= k < |Lines(decoded)| && l == Trim(Lines(decoded)[k]);
        LineHasNoNewline(decoded, k);
      }
      forall i: nat ensures !BlankRunAt(Join(kept, "\n"), i) { NoBlankRun(kept, i); }
      NoBlankRunInTrimmed(Join(kept, "\n"));
    }
  }

  // ----- Clamping -----

  /** `truncate_markdown`: the longest prefix of whole characters that fits the cap; a
      cut wastes at most three bytes of it. */
  method TruncateMarkdown(text: string, cap: nat) returns (out: seq<byte>, cut: bool, ghost kept: nat)
    ensures kept <= |text| && out == Encode(text[..kept]) && |out| <= cap
    ensures cut == (|Encode(text)| > cap)
    ensures !cut ==> kept == |text|
    ensures cut ==> cap < |out| + 4
    ensures cut ==> forall k :: kept < k <= |text| ==> |Encode(text[..k])| > cap
  {
    var bytes := Encode(text);
    if |bytes| <= cap {
      assert text[..|text|] == text;
      return bytes, false, |text|;
    }
    var near := BoundaryNearby(text, cap);
    var end := cap;
    while end > 0 && !IsBoundary(bytes, end)
      invariant end <= cap && near <= end
      invariant forall j :: end < j <= cap ==> !IsBoundary(bytes, j)
    {
      end := end - 1;
    }
    out, cut := Slice(bytes, 0, end), true;
    kept := BoundaryIsPrefix(text, end);
    forall k | kept < k <= |text| ensures |Encode(text[..k])| > cap {
      PrefixIsBoundary(text, k);
      EncodedLengthMonotone(text, kept, k);
    }
  }

  // ----- Decoding -----

  newtype unit = x: int | 0 <= x < 0x1_0000

  function EncodeUnits(c: char): seq<unit> {
    var n := c as int;
    if n < 0x1_0000 then [n as unit]
    else [(0xD800 + (n - 0x1_0000) / 1024) as unit, (0xDC00 + (n - 0x1_0000) % 1024) as unit]
  }

  function EncodeUtf16(s: string): seq<unit> {
    if s == [] then [] else EncodeUnits(s[0]) + EncodeUtf16(s[1..])
  }

  /** `String::from_utf16_lossy`. */
  function LossyUtf16(u: seq<unit>): string {
    if u == [] then []
    else if !(0xD800 <= u[0] <= 0xDFFF) then [u[0] as int as char] + LossyUtf16(u[1..])
    else if u[0] < 0xDC00 && |u| > 1 && 0xDC00 <= u[1] <= 0xDFFF then
      [(0x1_0000 + (u[0] as int - 0xD800) * 1024 + (u[1] as int - 0xDC00)) as char] + LossyUtf16(u[2..])
    else [REPLACEMENT] + LossyUtf16(u[1..])
  }

  function UnitBytes(u: unit, bigEndian: bool): seq<byte> {
    var hi, lo := (u as int / 256) as byte, (u as int % 256) as byte;
    if bigEndian then [hi, lo] else [lo, hi]
  }

  function ToBytes(u: seq<unit>, bigEndian: bool): seq<byte> {
    if u == [] then [] else UnitBytes(u[0], bigEndian) + ToBytes(u[1..], bigEndian)
  }

  /** `chunks_exact(2)` read as 16-bit units. */
  function ToUnits(b: seq<byte>, bigEndian: bool): seq<unit> {
    if |b| < 2 then []
    else
      var hi, lo := if bigEndian then b[0] else b[1], if bigEndian then b[1] else b[0];
      [(hi as int * 256 + lo as int) as unit] + ToUnits(b[2..], bigEndian)
  }

  function DecodeUtf16Bom(b: seq<byte>): Option<string> {
    if |b| < 2 || |b| % 2 != 0 then None
    else if b[0] == 0xFF && b[1] == 0xFE then Some(LossyUtf16(ToUnits(b[2..], false)))
    else if b[0] == 0xFE && b[1] == 0xFF then Some(LossyUtf16(ToUnits(b[2..], true)))
    else None
  }

  lemma {:induction false} UnitsRoundTrip(u: seq<unit>, bigEndian: bool)
    ensures |ToBytes(u, bigEndian)| % 2 == 0 && ToUnits(ToBytes(u, bigEndian), bigEndian) == u
  {
    if u != [] {
      UnitsRoundTrip(u[1..], bigEndian);
      var b := ToBytes(u, bigEndian);
      assert b[2..] == ToBytes(u[1..], bigEndian);
      assert u[0] as int == (u[0] as int / 256) * 256 + u[0] as int % 256;
    }
  }

  lemma LossyUtf16Step(c: char, rest: seq<unit>)
    ensures LossyUtf16(EncodeUnits(c) + rest) == [c] + LossyUtf16(rest)
  {
    var n := c as int;
    var u := EncodeUnits(c) + rest;
    if n < 0x1_0000 {
      assert u[1..] == rest;
    } else {
      assert u[2..] == rest;
      var m := n - 0x1_0000;
      assert m == m / 1024 * 1024 + m % 1024;
      assert u[0] as int - 0xD800 == m / 1024 && u[1] as int - 0xDC00 == m % 1024;
    }
  }

  lemma {:induction false} Utf16RoundTrip(s: string)
    ensures LossyUtf16(EncodeUtf16(s)) == s
  {
    if s != [] {
      Utf16RoundTrip(s[1..]);
      LossyUtf16Step(s[0], EncodeUtf16(s[1..]));
    }
  }

  datatype Note = WasUtf16 | WasLossy

  const BINARY_SNIFF_BYTES: nat := 8 * 1024

  predicate HasEarlyNul(b: seq<byte>) {
    exists i :: 0 <= i < |b| && i < BINARY_SNIFF_BYTES && b[i] == 0
  }

  function CountReplacements(s: string): nat {
    if s == [] then 0 else (if s[|s| - 1] == REPLACEMENT then 1 else 0) + CountReplacements(s[..|s| - 1])
  }

  /** The counting loop of `replacement_ratio`. */
  method ReplacementRatio(text: string) returns (replacements: nat, total: nat)
    ensures total == |text| && replacements == CountReplacements(text) && replacements <= total
  {
    replacements, total := 0, 0;
    while total < |text|
      invariant total <= |text| && replacements == CountReplacements(text[..total]) && replacements <= total
    {
      assert text[..total + 1][..total] == text[..total];
      if text[total] == REPLACEMENT { replacements := replacements + 1; }
      total := total + 1;
    }
    assert text[..|text|] == text;
  }

  /** `decode_text`; `None` is the refusal `NotText`. */
  function DecodeText(b: seq<byte>): Option<(string, seq<Note>)> {
    match DecodeUtf16Bom(b)
    case Some(text) => Some((text, [WasUtf16]))
    case None =>
      if HasEarlyNul(b) then None
      else if Valid(b) then Some((Lossy(b), []))
      else if 10 * CountReplacements(Lossy(b)) > |Lossy(b)| then None
      else Some((Lossy(b), [WasLossy]))
  }

  lemma BomIsRead(b: seq<byte>, bigEndian: bool)
    requires |b| % 2 == 0
    ensures DecodeUtf16Bom((if bigEndian then [0xFE, 0xFF] else [0xFF, 0xFE]) + b)
         == Some(LossyUtf16(ToUnits(b, bigEndian)))
  {
    var bom: seq<byte> := if bigEndian then [0xFE, 0xFF] else [0xFF, 0xFE];
    assert (bom + b)[2..] == b;
    assert (bom + b)[0] == bom[0] && (bom + b)[1] == bom[1];
  }

  /** Text written as BOM-prefixed UTF-16, in either byte order, reads back exactly. */
  lemma Utf16TextDecodes(s: string, bigEndian: bool)
    ensures var bom: seq<byte> := if bigEndian then [0xFE, 0xFF] else [0xFF, 0xFE];
            DecodeText(bom + ToBytes(EncodeUtf16(s), bigEndian)) == Some((s, [WasUtf16]))
  {
    var bom: seq<byte> := if bigEndian then [0xFE, 0xFF] else [0xFF, 0xFE];
    var u := EncodeUtf16(s);
    UnitsRoundTrip(u, bigEndian);
    Utf16RoundTrip(s);
    BomIsRead(ToBytes(u, bigEndian), bigEndian);
  }

  /** UTF-8 text is read exactly and without a note, precisely when the sniff window
      holds no NUL; otherwise it is refused. */
  lemma Utf8TextDecodes(s: string)
    ensures DecodeText(Encode(s)) == if HasEarlyNul(Encode(s)) then None else Some((s, []))
  {
    DecodeEncode(s);
    if s != [] {
      assert Encode(s)[0] == EncodeChar(s[0])[0] <= 0xF4;
    }
  }
}
