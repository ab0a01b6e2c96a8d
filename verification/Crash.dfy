/** Home-directory scrubbing of crash reports (apps/core/src/crash.rs). */
module Crash {
  import opened Text
  import opened Utf8

  function ScrubHome(home: Option<string>, s: string): string {
    match home
    case Some(h) => if h != [] && Find(s, h).Some? then Replace(s, h, "~") else s
    case None => s
  }

  /** With a non-empty home the guard on `contains` changes nothing. */
  lemma ScrubIsReplace(h: string, s: string)
    requires h != []
    ensures ScrubHome(Some(h), s) == Replace(s, h, "~")
  {
    if Find(s, h).None? {
      ReplaceWithoutOccurrence(s, h, "~");
    }
  }

  /** The home string survives nowhere, not even across two substituted spots. */
  lemma ScrubRemovesHome(h: string, s: string)
    requires h != [] && '~' !in h
    ensures !Contains(ScrubHome(Some(h), s), h)
  {
    ScrubIsReplace(h, s);
    forall i: nat ensures !OccursAt(Replace(s, h, "~"), h, i) {
      ReplacedPatternIsGone(s, h, '~', i);
    }
  }

  function BeforeTilde(h: string): (u: string)
    requires '~' in h
    ensures |u| < |h| && h[|u|] == '~' && u == h[..|u|] && '~' !in u
  {
    if h[0] == '~' then [] else [h[0]] + BeforeTilde(h[1..])
  }

  /** A text whose scrubbing puts the home string back together. */
  function Reassembled(h: string): string
    requires '~' in h
  {
    BeforeTilde(h) + h + h[|BeforeTilde(h)| + 1..]
  }

  lemma NoEarlierHome(h: string, j: nat)
    requires '~' in h && j < |BeforeTilde(h)|
    ensures !OccursAt(Reassembled(h), h, j)
  {
    var u, s := BeforeTilde(h), Reassembled(h);
    assert s[|u| + j] == h[j] == u[j] != '~';
    if j + |h| <= |s| {
      assert s[j..j + |h|][|u|] == s[|u| + j];
    }
  }

  lemma ReassembledScrubsToHome(h: string)
    requires '~' in h
    ensures ScrubHome(Some(h), Reassembled(h)) == h
  {
    var u := BeforeTilde(h);
    var v := h[|u| + 1..];
    assert u + "~" + v == h;
    assert |v| < |h|;
    ScrubIsReplace(h, Reassembled(h));
    forall j: nat | j < |u| ensures !OccursAt(u + h + v, h, j) { NoEarlierHome(h, j); }
    ReplaceAtFirst(u, h, v, "~");
    ReplaceWithoutOccurrence(v, h, "~");
  }

  /** Exactly which homes can be scrubbed out of every text. */
  lemma ScrubGuarantee(h: string)
    requires h != []
    ensures (forall s :: !Contains(ScrubHome(Some(h), s), h)) <==> '~' !in h
  {
    if '~' in h {
      ReassembledScrubsToHome(h);
      assert OccursAt(h, h, 0);
    } else {
      forall s ensures !Contains(ScrubHome(Some(h), s), h) { ScrubRemovesHome(h, s); }
    }
  }

  lemma {:induction false} ReplaceByItself(s: string, h: string)
    requires h != []
    ensures Replace(s, h, h) == s
  {
    ReplaceSwapsSeparators(s, h, h);
  }

  /** Exactly which homes scrub idempotently. */
  lemma ScrubIdempotence(h: string)
    requires h != []
    ensures (forall s :: var t := ScrubHome(Some(h), s); ScrubHome(Some(h), t) == t) <==> ('~' !in h || h == "~")
  {
    if '~' !in h {
      forall s ensures var t := ScrubHome(Some(h), s); ScrubHome(Some(h), t) == t {
        ScrubRemovesHome(h, s);
      }
    } else if h == "~" {
      forall s ensures var t := ScrubHome(Some(h), s); ScrubHome(Some(h), t) == t {
        ScrubIsReplace(h, s);
        ReplaceByItself(s, h);
      }
    } else {
      var s := Reassembled(h);
      ReassembledScrubsToHome(h);
      var t := ScrubHome(Some(h), s);
      assert t == h && h[|h|..] == [];
      ScrubIsReplace(h, h);
      assert Replace(h, h, "~") == "~" + Replace(h[|h|..], h, "~") == "~";
    }
  }

  /** Nothing but the home string is lost: the text is the same pieces, joined by `~`
      instead of by home. */
  lemma ScrubKeepsTheRest(h: string, s: string)
    requires h != []
    ensures s == Join(Split(s, h), h) && ScrubHome(Some(h), s) == Join(Split(s, h), "~")
  {
    ScrubIsReplace(h, s);
    ReplaceSwapsSeparators(s, h, "~");
  }

  /** Rust replaces bytes; the bytes produced are those of the scrubbed characters. */
  lemma ScrubOnBytes(h: string, s: string)
    requires h != []
    ensures Encode(h) != [] && Replace(Encode(s), Encode(h), Encode("~")) == Encode(ScrubHome(Some(h), s))
  {
    ScrubIsReplace(h, s);
    ReplaceInBytes(s, h, "~");
  }

  // ----- Events -----

  /** `texts` are the texts of the fields that scrubbing leaves alone: of a frame its
      function, symbol, module and source lines, of an exception its type, module and raw
      trace. */
  datatype Frame = Frame(absPath: Option<string>, filename: Option<string>, texts: seq<string>, line: Option<nat>)

  datatype Exception = Exception(value: Option<string>, stacktrace: Option<seq<Frame>>, texts: seq<string>)

  function ScrubField(home: Option<string>, field: Option<string>): Option<string> {
    if field.Some? then Some(ScrubHome(home, field.value)) else None
  }

  function ScrubFrame(home: Option<string>, f: Frame): Frame {
    f.(absPath := ScrubField(home, f.absPath), filename := ScrubField(home, f.filename))
  }

  function ScrubFrames(home: Option<string>, fs: seq<Frame>): (r: seq<Frame>)
    ensures |r| == |fs| && forall i :: 0 <= i < |fs| ==> r[i] == ScrubFrame(home, fs[i])
  {
    seq(|fs|, i requires 0 <= i < |fs| => ScrubFrame(home, fs[i]))
  }

  function ScrubException(home: Option<string>, e: Exception): Exception {
    e.(value := ScrubField(home, e.value),
       stacktrace := if e.stacktrace.Some? then Some(ScrubFrames(home, e.stacktrace.value)) else None)
  }

  /** Besides the exceptions and the message an event holds the texts of its tags, its
      breadcrumbs, its user and the like. */
  class Event {
    var exceptions: seq<Exception>
    var message: Option<string>
    var texts: seq<string>

    constructor (exceptions: seq<Exception>, message: Option<string>, texts: seq<string>)
      ensures this.exceptions == exceptions && this.message == message && this.texts == texts
    {
      this.exceptions := exceptions;
      this.message := message;
      this.texts := texts;
    }

    /** `scrub_event`: rewrite every exception value and every frame path in place. */
    method ScrubEvent(home: Option<string>)
      modifies this`exceptions
      ensures |exceptions| == |old(exceptions)|
      ensures forall i :: 0 <= i < |exceptions| ==> exceptions[i] == ScrubException(home, old(exceptions)[i])
      ensures message == old(message) && texts == old(texts)
    {
      var i := 0;
      while i < |exceptions|
        invariant 0 <= i <= |exceptions| == |old(exceptions)|
        invariant forall k :: 0 <= k < i ==> exceptions[k] == ScrubException(home, old(exceptions)[k])
        invariant forall k :: i <= k < |exceptions| ==> exceptions[k] == old(exceptions)[k]
      {
        var value := exceptions[i].value;
        if value.Some? {
          exceptions := exceptions[i := exceptions[i].(value := Some(ScrubHome(home, value.value)))];
        }
        if exceptions[i].stacktrace.Some? {
          var frames := exceptions[i].stacktrace.value;
          var j := 0;
          while j < |frames|
            invariant 0 <= j <= |frames| == |old(exceptions)[i].stacktrace.value|
            invariant forall k :: 0 <= k < j ==> frames[k] == ScrubFrame(home, old(exceptions)[i].stacktrace.value[k])
            invariant forall k :: j <= k < |frames| ==> frames[k] == old(exceptions)[i].stacktrace.value[k]
          {
            var abs := frames[j].absPath;
            if abs.Some? {
              frames := frames[j := frames[j].(absPath := Some(ScrubHome(home, abs.value)))];
            }
            var file := frames[j].filename;
            if file.Some? {
              frames := frames[j := frames[j].(filename := Some(ScrubHome(home, file.value)))];
            }
            j := j + 1;
          }
          assert frames == ScrubFrames(home, old(exceptions)[i].stacktrace.value);
          exceptions := exceptions[i := exceptions[i].(stacktrace := Some(frames))];
        }
        i := i + 1;
      }
    }
  }

  ghost predicate FieldIsClean(h: string, field: Option<string>) {
    field.Some? ==> !Contains(field.value, h)
  }

  ghost predicate ExceptionIsClean(h: string, e: Exception) {
    FieldIsClean(h, e.value)
    && (e.stacktrace.Some? ==>
      forall f :: f in e.stacktrace.value ==> FieldIsClean(h, f.absPath) && FieldIsClean(h, f.filename))
  }

  /** After `ScrubEvent` no exception value and no frame path mentions home. */
  lemma ScrubbedExceptionIsClean(h: string, e: Exception)
    requires h != [] && '~' !in h
    ensures ExceptionIsClean(h, ScrubException(Some(h), e))
  {
    if e.value.Some? { ScrubRemovesHome(h, e.value.value); }
    if e.stacktrace.Some? {
      forall f | f in ScrubFrames(Some(h), e.stacktrace.value)
        ensures FieldIsClean(h, f.absPath) && FieldIsClean(h, f.filename)
      {
        var k :| 0 <= k < |e.stacktrace.value| && f == ScrubFrame(Some(h), e.stacktrace.value[k]);
        var was := e.stacktrace.value[k];
        if was.absPath.Some? { ScrubRemovesHome(h, was.absPath.value); }
        if was.filename.Some? { ScrubRemovesHome(h, was.filename.value); }
      }
    }
  }

  /** Without a home directory, or with an empty one, nothing is scrubbed. */
  lemma WithoutHomeUnchanged(home: Option<string>, e: Exception)
    requires home == None || home == Some([])
    ensures ScrubException(home, e) == e
  {
    if e.stacktrace.Some? {
      assert forall f: Frame :: ScrubFrame(home, f) == f;
      assert ScrubFrames(home, e.stacktrace.value) == e.stacktrace.value;
    }
  }

  ghost predicate AreClean(h: string, texts: seq<string>) {
    forall text :: text in texts ==> !Contains(text, h)
  }

  /** What scrubbing leaves alone in an exception. */
  ghost predicate UntouchedIsClean(h: string, e: Exception) {
    AreClean(h, e.texts) && (e.stacktrace.Some? ==> forall f :: f in e.stacktrace.value ==> AreClean(h, f.texts))
  }

  /** No text anywhere in the event mentions home. */
  ghost predicate EventIsClean(h: string, exceptions: seq<Exception>, message: Option<string>, texts: seq<string>) {
    && (forall i :: 0 <= i < |exceptions| ==> ExceptionIsClean(h, exceptions[i]) && UntouchedIsClean(h, exceptions[i]))
    && FieldIsClean(h, message) && AreClean(h, texts)
  }

  lemma ScrubbingLeavesTheRest(h: string, e: Exception)
    ensures UntouchedIsClean(h, ScrubException(Some(h), e)) <==> UntouchedIsClean(h, e)
  {
    if e.stacktrace.Some? {
      var frames, scrubbed := e.stacktrace.value, ScrubFrames(Some(h), e.stacktrace.value);
      assert forall i :: 0 <= i < |frames| ==>
        scrubbed[i] in scrubbed && frames[i] in frames && scrubbed[i].texts == frames[i].texts;
    }
  }

  /** A scrubbed event mentions home nowhere exactly when what scrubbing leaves alone never
      did: the message, the other texts of the event, and all but the value of its
      exceptions and the two paths of their frames. */
  lemma ScrubbedEventIsCleanIff(h: string, before: seq<Exception>, after: seq<Exception>, message: Option<string>,
                                texts: seq<string>)
    requires h != [] && '~' !in h && |after| == |before|
    requires forall i :: 0 <= i < |after| ==> after[i] == ScrubException(Some(h), before[i])
    ensures EventIsClean(h, after, message, texts) <==>
            FieldIsClean(h, message) && AreClean(h, texts) && forall e :: e in before ==> UntouchedIsClean(h, e)
  {
    forall i | 0 <= i < |after|
      ensures ExceptionIsClean(h, after[i]) && (UntouchedIsClean(h, after[i]) <==> UntouchedIsClean(h, before[i]))
    {
      ScrubbedExceptionIsClean(h, before[i]);
      ScrubbingLeavesTheRest(h, before[i]);
    }
    assert forall i :: 0 <= i < |before| ==> before[i] in before;
  }
}
