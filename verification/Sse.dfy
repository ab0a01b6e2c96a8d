/** The chunked SSE readers: `stream_activity` (apps/core/src/meetings_client.rs) and
    `stream_changes` (apps/core/src/dashboards_client.rs). */
module Sse {
  import opened Text
  import opened Utf8

  const NEWLINE := "\n"

  // ----- What a stream means, with no chunks in sight -----

  /** The lines of `text` that a newline has closed. */
  function CompleteLines(text: string): seq<string> {
    var pieces := Split(text, NEWLINE);
    pieces[..|pieces| - 1]
  }

  /** The text after the last newline. */
  function Unfinished(text: string): string {
    var pieces := Split(text, NEWLINE);
    pieces[|pieces| - 1]
  }

  function TrimEndCr(s: string): string {
    if s != [] && s[|s| - 1] == '\r' then TrimEndCr(s[..|s| - 1]) else s
  }

  /** The payload of a `data:` line, unless it is blank. */
  function PayloadOf(line: string): Option<string> {
    var l := TrimEndCr(line);
    if "data:" <= l && Trim(l[5..]) != [] then Some(Trim(l[5..])) else None
  }

  ghost predicate IsBlank(s: string) {
    forall c :: c in s ==> IsWhitespace(c)
  }

  ghost predicate Carries(line: string, p: string, before: string, after: string) {
    && line == "data:" + (before + (p + after)) && IsBlank(before) && IsBlank(after)
    && p != [] && !IsWhitespace(p[0]) && !IsWhitespace(p[|p| - 1])
  }

  lemma {:induction false} TrimEndCrMeans(line: string)
    ensures TrimEndCr(line) <= line
    ensures forall k :: |TrimEndCr(line)| <= k < |line| ==> line[k] == '\r'
    ensures TrimEndCr(line) != [] ==> TrimEndCr(line)[|TrimEndCr(line)| - 1] != '\r'
  {
    if line != [] && line[|line| - 1] == '\r' { TrimEndCrMeans(line[..|line| - 1]); }
  }

  lemma TrimOf(before: string, p: string, after: string)
    requires IsBlank(before) && IsBlank(after) && p != [] && !IsWhitespace(p[0]) && !IsWhitespace(p[|p| - 1])
    ensures Trim(before + (p + after)) == p
  {
    var s := before + (p + after);
    var i, j := TrimMeans(s);
    var a, b := |before|, |before| + |p|;
    assert s[a..b] == p;
    assert forall k :: 0 <= k < a ==> s[k] == before[k] && before[k] in before;
    assert forall k :: b <= k < |s| ==> s[k] == after[k - b] && after[k - b] in after;
    assert s[a] == p[0] && s[b - 1] == p[|p| - 1];
    SameTrim(s, i, j, a, b);
  }

  lemma CarriedIsPayload(line: string, p: string, before: string, after: string)
    requires Carries(line, p, before, after)
    ensures PayloadOf(line) == Some(p)
  {
    var l, data := TrimEndCr(line), "data:";
    var n := 5 + |before| + |p|;
    TrimEndCrMeans(line);
    assert line[n - 1] == p[|p| - 1];
    assert |l| >= n;
    var less := after[..|l| - n];
    assert l == line[..|l|] == data + (before + (p + less));
    assert IsBlank(less) by { assert forall k :: 0 <= k < |less| ==> less[k] == after[k] && after[k] in after; }
    assert l[5..] == before + (p + less);
    TrimOf(before, p, less);
  }

  lemma InThree(s: string, i: nat, j: nat)
    requires i <= j <= |s|
    ensures s == s[..i] + (s[i..j] + s[j..])
  {
  }

  lemma Regroup(data: string, before: string, p: string, after: string, crs: string)
    ensures data + (before + (p + after)) + crs == data + (before + (p + (after + crs)))
  {
    Assoc(data, before + (p + after), crs);
    Assoc(before, p + after, crs);
    Assoc(p, after, crs);
  }

  lemma BlankParts(rest: string, i: nat, j: nat, crs: string)
    requires i <= j <= |rest| && (forall k :: 0 <= k < i || j <= k < |rest| ==> IsWhitespace(rest[k]))
    requires forall k :: 0 <= k < |crs| ==> crs[k] == '\r'
    ensures IsBlank(rest[..i]) && IsBlank(rest[j..] + crs)
  {
  }

  lemma PayloadRest(line: string) returns (rest: string, crs: string)
    requires PayloadOf(line).Some?
    ensures line == "data:" + rest + crs && forall k :: 0 <= k < |crs| ==> crs[k] == '\r'
    ensures PayloadOf(line) == Some(Trim(rest)) && Trim(rest) != []
  {
    var l := TrimEndCr(line);
    TrimEndCrMeans(line);
    rest, crs := l[5..], line[|l|..];
    assert l == "data:" + rest;
    assert line == l + crs;
  }

  lemma TrimmedIsCarried(data: string, rest: string, crs: string) returns (before: string, after: string)
    requires Trim(rest) != [] && forall k :: 0 <= k < |crs| ==> crs[k] == '\r'
    ensures data + rest + crs == data + (before + (Trim(rest) + after)) && IsBlank(before) && IsBlank(after)
    ensures !IsWhitespace(Trim(rest)[0]) && !IsWhitespace(Trim(rest)[|Trim(rest)| - 1])
  {
    var i, j := TrimMeans(rest);
    before, after := rest[..i], rest[j..] + crs;
    InThree(rest, i, j);
    Regroup(data, before, rest[i..j], rest[j..], crs);
    BlankParts(rest, i, j, crs);
  }

  lemma PayloadIsCarried(line: string) returns (before: string, after: string)
    requires PayloadOf(line).Some?
    ensures Carries(line, PayloadOf(line).value, before, after)
  {
    var rest, crs := PayloadRest(line);
    before, after := TrimmedIsCarried("data:", rest, crs);
  }

  /** A line carries a payload exactly when it is `data:` and more than white space, and the
      payload is that without the white space around it. */
  lemma PayloadIff(line: string, p: string)
    ensures PayloadOf(line) == Some(p) <==> exists before, after :: Carries(line, p, before, after)
  {
    if PayloadOf(line) == Some(p) { var before, after := PayloadIsCarried(line); }
    if before, after :| Carries(line, p, before, after) { CarriedIsPayload(line, p, before, after); }
  }

  /** What a reader forwards for one line: its payload, if that parses. */
  function ItemOf<T>(line: string, parse: string -> Option<T>): seq<T> {
    var payload := PayloadOf(line);
    var item := if payload.Some? then parse(payload.value) else None;
    if item.Some? then [item.value] else []
  }

  /** What a reader forwards for a stream of lines, in order. */
  function Items<T>(lines: seq<string>, parse: string -> Option<T>): seq<T> {
    if lines == [] then [] else ItemOf(lines[0], parse) + Items(lines[1..], parse)
  }

  /** What a reader forwards for a text. */
  function Feed<T>(text: string, parse: string -> Option<T>): seq<T> {
    Items(CompleteLines(text), parse)
  }

  lemma {:induction false} ItemsConcat<T>(a: seq<string>, b: seq<string>, parse: string -> Option<T>)
    ensures Items(a + b, parse) == Items(a, parse) + Items(b, parse)
  {
    if a == [] {
      assert a + b == b;
    } else {
      ItemsConcat(a[1..], b, parse);
      TailOfConcat(a, b);
      Assoc(ItemOf(a[0], parse), Items(a[1..], parse), Items(b, parse));
    }
  }

  /** Pieces carry no newline, and joining them with newlines gives the text back. */
  lemma {:induction false} LinesOfText(text: string)
    ensures text == Join(CompleteLines(text) + [Unfinished(text)], NEWLINE)
    ensures forall l :: l in CompleteLines(text) + [Unfinished(text)] ==> '\n' !in l
  {
    ReplaceSwapsSeparators(text, NEWLINE, NEWLINE);
    PiecesLackSeparator(text, '\n');
    assert CompleteLines(text) + [Unfinished(text)] == Split(text, NEWLINE);
  }

  lemma SplitStep(text: string)
    requires text != []
    ensures text[0] == '\n' ==> Split(text, NEWLINE) == [[]] + Split(text[1..], NEWLINE)
    ensures text[0] != '\n' ==>
              Split(text, NEWLINE) == [[text[0]] + Split(text[1..], NEWLINE)[0]] + Split(text[1..], NEWLINE)[1..]
  {
    assert NEWLINE <= text <==> text[0] == '\n';
  }

  lemma LinesStep(text: string)
    requires text != []
    ensures text[0] == '\n' ==>
              CompleteLines(text) == [[]] + CompleteLines(text[1..]) && Unfinished(text) == Unfinished(text[1..])
    ensures text[0] != '\n' && CompleteLines(text[1..]) == [] ==>
              CompleteLines(text) == [] && Unfinished(text) == [text[0]] + Unfinished(text[1..])
    ensures text[0] != '\n' && CompleteLines(text[1..]) != [] ==>
              CompleteLines(text) == [[text[0]] + CompleteLines(text[1..])[0]] + CompleteLines(text[1..])[1..]
              && Unfinished(text) == Unfinished(text[1..])
  {
    SplitStep(text);
  }

  /** Splitting can be resumed from the unfinished line. */
  lemma {:induction false} LinesResume(a: string, b: string)
    ensures CompleteLines(a + b) == CompleteLines(a) + CompleteLines(Unfinished(a) + b)
    ensures Unfinished(a + b) == Unfinished(Unfinished(a) + b)
  {
    if a == [] {
      assert a + b == b == Unfinished(a) + b;
    } else {
      var t := a[1..];
      var more := CompleteLines(Unfinished(t) + b);
      LinesResume(t, b);
      TailOfConcat(a, b);
      LinesStep(a);
      LinesStep(a + b);
      if a[0] == '\n' {
        Assoc([[]], CompleteLines(t), more);
      } else if CompleteLines(t) == [] {
        LinesStep(Unfinished(a) + b);
        TailOfConcat(Unfinished(a), b);
        assert [] + more == more;
        assert [] + CompleteLines(Unfinished(a) + b) == CompleteLines(Unfinished(a) + b);
      } else {
        TailOfConcat(CompleteLines(t), more);
        Assoc([[a[0]] + CompleteLines(t)[0]], CompleteLines(t)[1..], more);
      }
    }
  }

  lemma {:induction false} FirstLine(buf: string, pos: nat)
    requires OccursAt(buf, NEWLINE, pos) && forall j: nat :: j < pos ==> !OccursAt(buf, NEWLINE, j)
    ensures CompleteLines(buf) == [buf[..pos]] + CompleteLines(buf[pos + 1..])
    ensures Unfinished(buf) == Unfinished(buf[pos + 1..])
    decreases pos
  {
    assert buf[pos] == '\n';
    LinesStep(buf);
    if pos > 0 {
      OccurrencesOfTail(buf, NEWLINE);
      assert !OccursAt(buf, NEWLINE, 0);
      FirstLine(buf[1..], pos - 1);
      assert buf[..pos] == [buf[0]] + buf[1..][..pos - 1];
      assert buf[1..][pos..] == buf[pos + 1..];
    }
  }

  lemma {:induction false} NoLine(buf: string)
    requires forall j: nat :: !OccursAt(buf, NEWLINE, j)
    ensures CompleteLines(buf) == [] && Unfinished(buf) == buf
  {
    if buf != [] {
      OccurrencesOfTail(buf, NEWLINE);
      assert !OccursAt(buf, NEWLINE, 0);
      LinesStep(buf);
      NoLine(buf[1..]);
    }
  }

  // ----- The readers -----

  lemma {:induction false} LossyChunksSnoc(chunks: seq<seq<byte>>, i: nat)
    requires i < |chunks|
    ensures LossyChunks(chunks[..i + 1]) == LossyChunks(chunks[..i]) + Lossy(chunks[i])
  {
    if i == 0 {
      assert chunks[..1] == [chunks[0]];
    } else {
      LossyChunksSnoc(chunks[1..], i - 1);
      assert chunks[..i + 1][1..] == chunks[1..][..i];
      assert chunks[..i][1..] == chunks[1..][..i - 1];
    }
  }

  /** One drained line is the first line of the buffered text. */
  lemma DrainStep<T>(out: seq<T>, buf: string, pos: nat, parse: string -> Option<T>)
    requires Find(buf, NEWLINE) == Some(pos)
    ensures out + Feed(buf, parse) == out + ItemOf(buf[..pos], parse) + Feed(buf[pos + 1..], parse)
    ensures Unfinished(buf) == Unfinished(buf[pos + 1..])
  {
    FirstLine(buf, pos);
    assert CompleteLines(buf)[1..] == CompleteLines(buf[pos + 1..]);
    Assoc(out, ItemOf(buf[..pos], parse), Feed(buf[pos + 1..], parse));
  }

  lemma Drained<T>(buf: string, parse: string -> Option<T>)
    requires Find(buf, NEWLINE) == None
    ensures Feed(buf, parse) == [] && Unfinished(buf) == buf
  {
    NoLine(buf);
  }

  /** Pushing chunk `i` onto what the first `i` chunks left behind. */
  lemma PushStep<T>(chunks: seq<seq<byte>>, i: nat, parse: string -> Option<T>)
    requires i < |chunks|
    ensures var seen, next := LossyChunks(chunks[..i]), LossyChunks(chunks[..i + 1]);
            var pushed := Unfinished(seen) + Lossy(chunks[i]);
            Feed(next, parse) == Feed(seen, parse) + Feed(pushed, parse) && Unfinished(next) == Unfinished(pushed)
  {
    var seen := LossyChunks(chunks[..i]);
    LossyChunksSnoc(chunks, i);
    LinesResume(seen, Lossy(chunks[i]));
    ItemsConcat(CompleteLines(seen), CompleteLines(Unfinished(seen) + Lossy(chunks[i])), parse);
  }

  /** The per-line tests both readers make, in the order they make them. */
  method ReadLine<T>(raw: string, parse: string -> Option<T>) returns (item: Option<T>)
    ensures ItemOf(raw, parse) == if item.Some? then [item.value] else []
  {
    var line := TrimEndCr(raw);
    if !("data:" <= line) { return None; }
    var payload := Trim(line[5..]);
    if payload == [] { return None; }
    item := parse(payload);
  }

  /** The inner loop of `stream_activity`: record what the buffer's complete lines carry. */
  method DrainRecording<T>(pushed: string, parse: string -> Option<T>) returns (recorded: seq<T>, buf: string)
    ensures recorded == Feed(pushed, parse) && buf == Unfinished(pushed)
  {
    recorded, buf := [], pushed;
    while Find(buf, NEWLINE).Some?
      invariant recorded + Feed(buf, parse) == Feed(pushed, parse)
      invariant Unfinished(buf) == Unfinished(pushed)
      decreases |buf|
    {
      var pos := Find(buf, NEWLINE).value;
      DrainStep(recorded, buf, pos, parse);
      var item := ReadLine(buf[..pos], parse);
      buf := buf[pos + 1..];
      recorded := recorded + if item.Some? then [item.value] else [];
    }
    Drained(buf, parse);
  }

  /** `stream_activity`: push each chunk, drain every complete line, record what parses. */
  method StreamActivity<T>(chunks: seq<seq<byte>>, parse: string -> Option<T>) returns (recorded: seq<T>, buf: string)
    ensures recorded == Feed(LossyChunks(chunks), parse)
    ensures buf == Unfinished(LossyChunks(chunks))
  {
    recorded, buf := [], [];
    for i := 0 to |chunks|
      invariant recorded == Feed(LossyChunks(chunks[..i]), parse)
      invariant buf == Unfinished(LossyChunks(chunks[..i]))
    {
      PushStep(chunks, i, parse);
      buf := buf + Lossy(chunks[i]);
      var more;
      more, buf := DrainRecording(buf, parse);
      recorded := recorded + more;
    }
    assert chunks[..|chunks|] == chunks;
  }

  /** The inner loop of `stream_changes`: send what the complete lines carry to a
      receiver with `room` left, and stop at the first send it refuses. */
  method DrainSending<T>(pushed: string, parse: string -> Option<T>, room: nat)
    returns (sent: seq<T>, buf: string, dropped: bool)
    ensures var all := Feed(pushed, parse);
            dropped == (|all| > room) && sent == if dropped then all[..room] else all
    ensures !dropped ==> buf == Unfinished(pushed)
  {
    sent, buf := [], pushed;
    while Find(buf, NEWLINE).Some?
      invariant sent + Feed(buf, parse) == Feed(pushed, parse) && |sent| <= room
      invariant Unfinished(buf) == Unfinished(pushed)
      decreases |buf|
    {
      var pos := Find(buf, NEWLINE).value;
      DrainStep(sent, buf, pos, parse);
      var item := ReadLine(buf[..pos], parse);
      buf := buf[pos + 1..];
      if item.Some? && |sent| == room {
        return sent, buf, true;
      }
      sent := sent + if item.Some? then [item.value] else [];
    }
    Drained(buf, parse);
    dropped := false;
  }

  /** Where the receiver's room ends among what one more chunk adds. */
  lemma CutAtRoom<T>(sent: seq<T>, more: seq<T>, all: seq<T>, room: nat)
    requires sent + more <= all && |sent| <= room < |sent + more|
    ensures sent + more[..room - |sent|] == all[..room] && |all| > room
  {
    assert all[..room] == (sent + more)[..room];
  }

  /** `stream_changes`: the same reader, but each item is sent to a receiver that takes
      `room` items and is then gone, which ends the connection. */
  method StreamChanges<T>(chunks: seq<seq<byte>>, parse: string -> Option<T>, room: nat)
    returns (sent: seq<T>, dropped: bool)
    ensures var all := Feed(LossyChunks(chunks), parse);
            dropped == (|all| > room) && sent == if dropped then all[..room] else all
  {
    sent, dropped := [], false;
    var buf: string := [];
    for i := 0 to |chunks|
      invariant sent == Feed(LossyChunks(chunks[..i]), parse) && |sent| <= room
      invariant buf == Unfinished(LossyChunks(chunks[..i])) && !dropped
    {
      PushStep(chunks, i, parse);
      FeedGrows(chunks, i + 1, parse);
      buf := buf + Lossy(chunks[i]);
      ghost var before, feed := sent, Feed(buf, parse);
      var more;
      more, buf, dropped := DrainSending(buf, parse, room - |sent|);
      sent := sent + more;
      if dropped {
        CutAtRoom(before, feed, Feed(LossyChunks(chunks), parse), room);
        return;
      }
    }
    assert chunks[..|chunks|] == chunks;
  }

  lemma {:induction false} FeedGrows<T>(chunks: seq<seq<byte>>, i: nat, parse: string -> Option<T>)
    requires i <= |chunks|
    ensures Feed(LossyChunks(chunks[..i]), parse) <= Feed(LossyChunks(chunks), parse)
    decreases |chunks| - i
  {
    if i == |chunks| {
      assert chunks[..i] == chunks;
    } else {
      PushStep(chunks, i, parse);
      FeedGrows(chunks, i + 1, parse);
    }
  }

  // ----- Chunking does not matter, exactly when no character is cut -----

  /** Two ways of cutting one stream at character boundaries read the same. */
  lemma ChunkingIndependence<T>(a: seq<seq<byte>>, b: seq<seq<byte>>, parse: string -> Option<T>)
    requires Concat(a) == Concat(b)
    requires forall i :: 0 <= i < |a| ==> Valid(a[i])
    requires forall i :: 0 <= i < |b| ==> Valid(b[i])
    ensures Feed(LossyChunks(a), parse) == Feed(Lossy(Concat(b)), parse)
    ensures LossyChunks(a) == LossyChunks(b) == Lossy(Concat(a))
  {
    LossyChunksOfValid(a);
    LossyChunksOfValid(b);
  }

  /** Bytes that can start a character. */
  function Leads(b: seq<byte>): nat {
    if b == [] then 0 else (if IsContinuation(b[0]) then 0 else 1) + Leads(b[1..])
  }

  lemma {:induction false} LeadsConcat(a: seq<byte>, b: seq<byte>)
    ensures Leads(a + b) == Leads(a) + Leads(b)
  {
    if a == [] {
      assert a + b == b;
    } else {
      LeadsConcat(a[1..], b);
      assert (a + b)[1..] == a[1..] + b;
    }
  }

  lemma {:induction false} NoLeads(b: seq<byte>)
    requires forall i :: 0 <= i < |b| ==> IsContinuation(b[i])
    ensures Leads(b) == 0
  {
    if b != [] { NoLeads(b[1..]); }
  }

  /** Lossy decoding never merges two characters, and a stray continuation byte costs
      a replacement character of its own. */
  lemma {:induction false} LossyLength(b: seq<byte>)
    ensures |Lossy(b)| >= Leads(b)
    ensures b != [] && IsContinuation(b[0]) ==> |Lossy(b)| > Leads(b)
  {
    if b != [] {
      var n := Step(b).len;
      LossyLength(b[n..]);
      assert b == b[..n] + b[n..];
      LeadsConcat(b[..n], b[n..]);
      NoLeads(b[..n][1..]);
    }
  }

  lemma {:induction false} LeadsOfEncoded(s: string)
    ensures Leads(Encode(s)) == |s|
  {
    if s != [] {
      LeadsOfEncoded(s[1..]);
      LeadsConcat(EncodeChar(s[0]), Encode(s[1..]));
      NoLeads(EncodeChar(s[0])[1..]);
    }
  }

  predicate StartsInsideChar(b: seq<byte>) {
    b != [] && IsContinuation(b[0])
  }

  lemma {:induction false} ChunkedLength(chunks: seq<seq<byte>>)
    ensures |LossyChunks(chunks)| >= Leads(Concat(chunks))
    ensures (exists i :: 0 <= i < |chunks| && StartsInsideChar(chunks[i])) ==>
              |LossyChunks(chunks)| > Leads(Concat(chunks))
  {
    if chunks != [] {
      ChunkedLength(chunks[1..]);
      LossyLength(chunks[0]);
      LeadsConcat(chunks[0], Concat(chunks[1..]));
      if i :| 0 <= i < |chunks| && StartsInsideChar(chunks[i]) {
        assert i > 0 ==> chunks[i] == chunks[1..][i - 1];
      }
    }
  }

  lemma {:induction false} ConcatStart(chunks: seq<seq<byte>>)
    requires forall i :: 0 <= i < |chunks| ==> !StartsInsideChar(chunks[i])
    ensures !StartsInsideChar(Concat(chunks))
  {
    if chunks != [] { ConcatStart(chunks[1..]); }
  }

  lemma {:induction false} UncutChunksAreValid(chunks: seq<seq<byte>>)
    requires Valid(Concat(chunks))
    requires forall i :: 0 <= i < |chunks| ==> !StartsInsideChar(chunks[i])
    ensures forall i :: 0 <= i < |chunks| ==> Valid(chunks[i])
  {
    if chunks != [] {
      var c, rest := chunks[0], Concat(chunks[1..]);
      ConcatStart(chunks[1..]);
      EncodeDecode(c + rest);
      var s := Lossy(c + rest);
      assert rest != [] ==> (c + rest)[|c|] == rest[0];
      var k := BoundaryIsPrefix(s, |c|);
      assert c == (c + rest)[..|c|];
      DecodeEncode(s[..k]);
      PrefixIsBoundary(s, k);
      assert rest == (c + rest)[|c|..];
      DecodeEncode(s[k..]);
      UncutChunksAreValid(chunks[1..]);
    }
  }

  /** For a stream of valid UTF-8, chunkwise decoding yields the stream's text exactly
      when every chunk is itself valid, that is, when no cut falls inside a character. */
  lemma ChunkedTextIsExactIff(chunks: seq<seq<byte>>)
    requires Valid(Concat(chunks))
    ensures LossyChunks(chunks) == Lossy(Concat(chunks)) <==> forall i :: 0 <= i < |chunks| ==> Valid(chunks[i])
  {
    if forall i :: 0 <= i < |chunks| ==> Valid(chunks[i]) {
      LossyChunksOfValid(chunks);
    } else {
      if forall i :: 0 <= i < |chunks| ==> !StartsInsideChar(chunks[i]) {
        UncutChunksAreValid(chunks);
      }
      ChunkedLength(chunks);
      EncodeDecode(Concat(chunks));
      LeadsOfEncoded(Lossy(Concat(chunks)));
    }
  }

  /** The failing family is not empty: an `e` acute cut in two becomes two
      replacement characters in the delivered payload. */
  lemma CutCharacterIsLost()
    ensures var whole := Encode("data:" + "\U{E9}" + "\n");
            Valid(whole) && Feed(Lossy(whole), p => Some(p)) == ["\U{E9}"]
    ensures var cut := [Encode("data:") + [0xC3], [0xA9, 10]];
            Concat(cut) == Encode("data:" + "\U{E9}" + "\n")
            && Feed(LossyChunks(cut), p => Some(p)) == ["\U{FFFD}\U{FFFD}"]
  {
    DecodeEncode("data:" + "\U{E9}" + "\n");
    OneDataLine("\U{E9}");
    CutBytes();
    CutText();
    OneDataLine("\U{FFFD}\U{FFFD}");
  }

  lemma TwoChunks(a: seq<byte>, b: seq<byte>)
    ensures Concat([a, b]) == a + b && LossyChunks([a, b]) == Lossy(a) + Lossy(b)
  {
    var both: seq<seq<byte>> := [a, b];
    var last: seq<seq<byte>> := [b];
    assert both[1..] == last && last[1..] == [];
    assert Concat(last) == b && LossyChunks(last) == Lossy(b);
  }

  lemma CutBytes()
    ensures Concat([Encode("data:") + [0xC3], [0xA9, 10]]) == Encode("data:" + "\U{E9}" + "\n")
  {
    EncodeThree("data:", "\U{E9}", "\n");
    EncodeOne('\U{E9}');
    EncodeOne('\n');
    TwoChunks(Encode("data:") + [0xC3], [0xA9, 10]);
  }

  lemma EncodeOne(c: char)
    ensures Encode([c]) == EncodeChar(c)
  {
    assert [c][1..] == [];
  }

  lemma CutText()
    ensures LossyChunks([Encode("data:") + [0xC3], [0xA9, 10]]) == "data:" + "\U{FFFD}\U{FFFD}" + "\n"
  {
    var a, b, c: seq<byte> := [0xC3], [0xA9, 10], [10];
    LossyOfEncoded("data:", a);
    assert Lossy(a) == [REPLACEMENT] + Lossy(a[1..]) == "\U{FFFD}";
    assert Lossy(c) == ['\n'] + Lossy(c[1..]) == "\n";
    assert b[1..] == c;
    assert Lossy(b) == [REPLACEMENT] + Lossy(c) == "\U{FFFD}\n";
    TwoChunks(Encode("data:") + a, b);
    assert Lossy(Encode("data:") + a) == "data:" + "\U{FFFD}";
    assert LossyChunks([Encode("data:") + a, b]) == "data:" + "\U{FFFD}" + "\U{FFFD}\n";
    assert [Encode("data:") + a, b] == [Encode("data:") + [0xC3], [0xA9, 10]];
    assert "data:" + "\U{FFFD}" + "\U{FFFD}\n" == "data:" + "\U{FFFD}\U{FFFD}" + "\n";
  }

  lemma NoNewlineAt(text: string, j: nat)
    requires j < |text| && text[j] != '\n'
    ensures !OccursAt(text, NEWLINE, j)
  {
    assert text[j..j + 1][0] == text[j];
  }

  lemma OneDataLine(p: string)
    requires p != [] && forall i :: 0 <= i < |p| ==> !IsWhitespace(p[i])
    ensures Feed("data:" + p + "\n", (q: string) => Some(q)) == [p]
  {
    var line := "data:" + p;
    var text := line + "\n";
    forall j: nat | j < |line| ensures !OccursAt(text, NEWLINE, j) {
      assert text[j] == line[j] != '\n';
      NoNewlineAt(text, j);
    }
    assert OccursAt(text, NEWLINE, |line|);
    FirstLine(text, |line|);
    assert text[..|line|] == line && text[|line| + 1..] == [];
    assert CompleteLines(text) == [line];
    assert line[|line| - 1] == p[|p| - 1] != '\r';
    assert line[5..] == p;
    assert Trim(p) == p;
    assert PayloadOf(line) == Some(p);
    var keep := (q: string) => Some(q);
    assert ItemOf(line, keep) == [p];
    var lines: seq<string> := [line];
    assert lines[1..] == [] && Items(lines[1..], keep) == [];
    assert Items(lines, keep) == [p] + [];
  }
}
