/** What reading a document as text means (`decode_text`, apps/core/src/document_parse.rs),
    and what its lines are. */
module DocumentText {
  import opened Text
  import opened Utf8
  import opened DocumentParse

  // ----- Lines -----

  lemma {:induction false} JoinOfSplit(s: string)
    ensures Join(Split(s, "\n"), "\n") == s
  {
    if s != [] {
      var rest := Split(s[1..], "\n");
      JoinOfSplit(s[1..]);
      assert "\n" <= s <==> s[0] == '\n';
      if s[0] == '\n' {
        JoinEmptyHead(rest, "\n");
        assert s == "\n" + s[1..];
      } else {
        JoinExtendsHead(s[0], rest, "\n");
      }
    }
  }

  /** The piece without a carriage return at its end, and what ended it. */
  function LineOf(piece: string): string {
    if piece != [] && piece[|piece| - 1] == '\r' then piece[..|piece| - 1] else piece
  }

  function EndOf(piece: string): string {
    if piece != [] && piece[|piece| - 1] == '\r' then "\r\n" else "\n"
  }

  lemma LineAndEnd(piece: string)
    ensures LineOf(piece) + EndOf(piece) == piece + "\n"
    ensures EndOf(piece) == "\n" ==> LineOf(piece) == [] || LineOf(piece)[|LineOf(piece)| - 1] != '\r'
  {
    if piece != [] && piece[|piece| - 1] == '\r' {
      assert piece == piece[..|piece| - 1] + "\r";
      assert "\r" + "\n" == "\r\n";
    }
  }

  /** Every line with its end. */
  function Spelled(lines: seq<string>, ends: seq<string>): string
    requires |lines| == |ends|
  {
    if lines == [] then [] else lines[0] + ends[0] + Spelled(lines[1..], ends[1..])
  }

  function Lined(pieces: seq<string>): seq<string> {
    seq(|pieces|, i requires 0 <= i < |pieces| => LineOf(pieces[i]))
  }

  function Ends(pieces: seq<string>): seq<string> {
    seq(|pieces|, i requires 0 <= i < |pieces| => EndOf(pieces[i]))
  }

  lemma {:induction false} SpelledPieces(pieces: seq<string>, last: string)
    ensures Join(pieces + [last], "\n") == Spelled(Lined(pieces), Ends(pieces)) + last
  {
    if pieces == [] {
      NilPlus(last);
      assert pieces + [last] == [last];
    } else {
      SpelledPieces(pieces[1..], last);
      LineAndEnd(pieces[0]);
      TailOfConcat(pieces, [last]);
      assert Lined(pieces)[1..] == Lined(pieces[1..]) && Ends(pieces)[1..] == Ends(pieces[1..]);
      Assoc(LineOf(pieces[0]) + EndOf(pieces[0]), Spelled(Lined(pieces[1..]), Ends(pieces[1..])), last);
    }
  }

  lemma {:induction false} SpelledSnoc(lines: seq<string>, ends: seq<string>, line: string, end: string)
    requires |lines| == |ends|
    ensures Spelled(lines + [line], ends + [end]) == Spelled(lines, ends) + line + end
  {
    if lines == [] {
      assert lines + [line] == [line] && ends + [end] == [end];
      assert [line][1..] == [] && [end][1..] == [];
      NilPlus(line + end);
      NilPlus(line);
    } else {
      TailOfConcat(lines, [line]);
      TailOfConcat(ends, [end]);
      SpelledSnoc(lines[1..], ends[1..], line, end);
      Assoc(lines[0] + ends[0], Spelled(lines[1..], ends[1..]), line);
      Assoc(lines[0] + ends[0], Spelled(lines[1..], ends[1..]) + line, end);
    }
  }

  /** How a line ends: with a newline, before which a carriage return belongs to the end
      and not to the line; only the last line may have no end, and then it is not empty. */
  ghost predicate EndsWell(lines: seq<string>, ends: seq<string>, i: nat)
    requires |lines| == |ends| && i < |lines|
  {
    && (ends[i] == "\r\n" || ends[i] == "\n" || (ends[i] == "" && i == |lines| - 1 && lines[i] != []))
    && (ends[i] == "\n" ==> lines[i] == [] || lines[i][|lines[i]| - 1] != '\r')
  }

  lemma FrontEndsWell(front: seq<string>)
    requires forall piece :: piece in front ==> '\n' !in piece
    ensures forall i :: 0 <= i < |front| ==>
              EndsWell(Lined(front), Ends(front), i) && Ends(front)[i] != "" && '\n' !in Lined(front)[i]
  {
    forall i | 0 <= i < |front|
      ensures EndsWell(Lined(front), Ends(front), i) && Ends(front)[i] != "" && '\n' !in Lined(front)[i]
    {
      LineAndEnd(front[i]);
      assert front[i] in front;
    }
  }

  lemma WithLast(lines: seq<string>, ends: seq<string>, last: string)
    requires |lines| == |ends| && last != [] && '\n' !in last
    requires forall i :: 0 <= i < |lines| ==> EndsWell(lines, ends, i) && ends[i] != "" && '\n' !in lines[i]
    ensures Spelled(lines + [last], ends + [""]) == Spelled(lines, ends) + last
    ensures forall i :: 0 <= i < |lines| + 1 ==>
              EndsWell(lines + [last], ends + [""], i) && '\n' !in (lines + [last])[i]
  {
    SpelledSnoc(lines, ends, last, "");
    NilPlus(Spelled(lines, ends) + last);
  }

  /** The lines of a text, each with its end, are the text; no line holds a newline. */
  lemma LinesSpellTheText(s: string) returns (ends: seq<string>)
    ensures |ends| == |Lines(s)| && Spelled(Lines(s), ends) == s
    ensures forall i :: 0 <= i < |ends| ==> EndsWell(Lines(s), ends, i) && '\n' !in Lines(s)[i]
  {
    var front, last := SplitLast(s);
    LinesAre(s, front, last);
    FrontEndsWell(front);
    ends := Ends(front);
    if last == [] {
      NilPlus(Spelled(Lined(front), ends));
    } else {
      WithLast(Lined(front), ends, last);
      ends := ends + [""];
    }
  }

  lemma SplitLast(s: string) returns (front: seq<string>, last: string)
    ensures Split(s, "\n") == front + [last]
    ensures s == Spelled(Lined(front), Ends(front)) + last
    ensures (forall piece :: piece in front ==> '\n' !in piece) && '\n' !in last
  {
    var pieces := Split(s, "\n");
    front, last := pieces[..|pieces| - 1], pieces[|pieces| - 1];
    JoinOfSplit(s);
    PiecesLackSeparator(s, '\n');
    assert pieces == front + [last];
    SpelledPieces(front, last);
    assert last in pieces;
  }

  lemma LinesAre(s: string, front: seq<string>, last: string)
    requires Split(s, "\n") == front + [last]
    ensures Lines(s) == if last == [] then Lined(front) else Lined(front) + [last]
  {
    var pieces := Split(s, "\n");
    assert pieces[|pieces| - 1] == last && pieces[..|pieces| - 1] == front;
    assert forall i :: 0 <= i < |front| ==> pieces[i] == front[i];
  }

  // ----- Decoding -----

  /** The places of the replacement character. */
  function Replaced(s: string): set<nat> {
    set i: nat | i < |s| && s[i] == REPLACEMENT
  }

  lemma {:induction false} CountIsReplaced(s: string)
    ensures CountReplacements(s) == |Replaced(s)|
  {
    if s != [] {
      var n := |s| - 1;
      CountIsReplaced(s[..n]);
      assert Replaced(s) == Replaced(s[..n]) + if s[n] == REPLACEMENT then {n} else {};
    }
  }

  /** An even number of bytes that starts with one of the two byte order marks. */
  predicate StartsWithBom(b: seq<byte>) {
    |b| >= 2 && |b| % 2 == 0 && ((b[0] == 0xFF && b[1] == 0xFE) || (b[0] == 0xFE && b[1] == 0xFF))
  }

  /** A zero byte among the first 8192. */
  ghost predicate LooksBinary(b: seq<byte>) {
    exists i: nat :: i < |b| && i < 8192 && b[i] == 0
  }

  /** A file is refused as not text exactly when it has no byte order mark and either looks
      binary or, not being UTF-8, loses more than a tenth of its characters; otherwise it is
      read as UTF-16 with a mark and as UTF-8 without one, with a note exactly when that is
      not what it was. */
  lemma DecodeTextIff(b: seq<byte>)
    ensures var r := DecodeText(b);
            && (r.None? <==> !StartsWithBom(b)
                             && (LooksBinary(b) || (!Valid(b) && 10 * |Replaced(Lossy(b))| > |Lossy(b)|)))
            && (r.Some? && StartsWithBom(b) ==>
                  r.value == (LossyUtf16(ToUnits(b[2..], b[0] == 0xFE)), [WasUtf16]))
            && (r.Some? && !StartsWithBom(b) ==> r.value == (Lossy(b), if Valid(b) then [] else [WasLossy]))
  {
    CountIsReplaced(Lossy(b));
    assert HasEarlyNul(b) <==> LooksBinary(b);
  }
}
