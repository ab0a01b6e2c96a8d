/** Leftmost search and leftmost non-overlapping replacement over sequences.

    These are the two standard-library string operations every text kernel of the
    node relies on.  They are generic, so the same definition serves strings
    (sequences of Unicode scalar values) and their UTF-8 byte sequences; module
    `Utf8` proves that the two levels agree. */
module Text {

  datatype Option<+T> = None | Some(value: T)

  datatype Result<+T, +E> = Ok(value: T) | Err(error: E)

  function Min(a: nat, b: nat): nat {
    if a < b then a else b
  }

  predicate OccursAt<T(==)>(s: seq<T>, p: seq<T>, i: nat) {
    i + |p| <= |s| && s[i..i + |p|] == p
  }

  ghost predicate Contains<T>(s: seq<T>, p: seq<T>) {
    exists i: nat :: OccursAt(s, p, i)
  }

  lemma TailSlice<T>(s: seq<T>, j: nat, n: nat)
    requires s != []
    ensures j + 1 + n <= |s| ==> s[1..][j..j + n] == s[j + 1..j + 1 + n]
  {
  }

  /** Occurrences past the first position are the occurrences in the tail. */
  lemma OccurrencesOfTail<T>(s: seq<T>, p: seq<T>)
    requires s != []
    ensures OccursAt(s, p, 0) <==> p <= s
    ensures forall j: nat :: j > 0 ==> (OccursAt(s, p, j) <==> OccursAt(s[1..], p, j - 1))
    ensures forall j: nat :: OccursAt(s[1..], p, j) <==> OccursAt(s, p, j + 1)
  {
    forall j: nat | j > 0
      ensures OccursAt(s, p, j) <==> OccursAt(s[1..], p, j - 1)
    {
      TailSlice(s, j - 1, |p|);
    }
    forall j: nat
      ensures OccursAt(s[1..], p, j) <==> OccursAt(s, p, j + 1)
    {
      TailSlice(s, j, |p|);
    }
  }

  /** `str::find`: the least position at which `p` occurs. */
  function Find<T(==)>(s: seq<T>, p: seq<T>): (r: Option<nat>)
    ensures r.Some? ==> OccursAt(s, p, r.value) && forall j: nat :: j < r.value ==> !OccursAt(s, p, j)
    ensures r.None? ==> forall j: nat :: !OccursAt(s, p, j)
  {
    if p <= s then
      assert OccursAt(s, p, 0);
      Some(0)
    else if s == [] then None
    else
      var rest := Find(s[1..], p);
      OccurrencesOfTail(s, p);
      match rest
      case None => None
      case Some(i) => Some(i + 1)
  }

  /** `str::replace` for a non-empty pattern: scan left to right, never rescanning
      what was substituted. */
  function Replace<T(==)>(s: seq<T>, p: seq<T>, r: seq<T>): seq<T>
    requires p != []
  {
    if s == [] then []
    else if p <= s then r + Replace(s[|p|..], p, r)
    else [s[0]] + Replace(s[1..], p, r)
  }

  /** The pieces of `s` between its leftmost non-overlapping occurrences of `p`. */
  function Split<T(==)>(s: seq<T>, p: seq<T>): (pieces: seq<seq<T>>)
    requires p != []
    ensures pieces != []
  {
    if s == [] then [[]]
    else if p <= s then [[]] + Split(s[|p|..], p)
    else
      var rest := Split(s[1..], p);
      [[s[0]] + rest[0]] + rest[1..]
  }

  function Join<T>(pieces: seq<seq<T>>, sep: seq<T>): seq<T>
    requires pieces != []
  {
    if |pieces| == 1 then pieces[0] else pieces[0] + sep + Join(pieces[1..], sep)
  }

  lemma {:induction false} JoinExtendsHead<T>(x: T, pieces: seq<seq<T>>, sep: seq<T>)
    requires pieces != []
    ensures Join([[x] + pieces[0]] + pieces[1..], sep) == [x] + Join(pieces, sep)
  {
    var longer := [[x] + pieces[0]] + pieces[1..];
    if |pieces| > 1 {
      assert longer[1..] == pieces[1..];
    }
  }

  lemma JoinEmptyHead<T>(pieces: seq<seq<T>>, sep: seq<T>)
    requires pieces != []
    ensures Join([[]] + pieces, sep) == sep + Join(pieces, sep)
  {
    assert ([[]] + pieces)[1..] == pieces;
  }

  /** Replacement only swaps separators: the text between occurrences is untouched. */
  lemma {:induction false} ReplaceSwapsSeparators<T>(s: seq<T>, p: seq<T>, r: seq<T>)
    requires p != []
    ensures s == Join(Split(s, p), p)
    ensures Replace(s, p, r) == Join(Split(s, p), r)
  {
    if s == [] {
    } else if p <= s {
      ReplaceSwapsSeparators(s[|p|..], p, r);
      JoinEmptyHead(Split(s[|p|..], p), p);
      JoinEmptyHead(Split(s[|p|..], p), r);
    } else {
      ReplaceSwapsSeparators(s[1..], p, r);
      JoinExtendsHead(s[0], Split(s[1..], p), p);
      JoinExtendsHead(s[0], Split(s[1..], p), r);
    }
  }

  /** No piece holds the separator character. */
  lemma {:induction false} PiecesLackSeparator<T>(s: seq<T>, c: T)
    ensures forall piece :: piece in Split(s, [c]) ==> c !in piece
  {
    if s != [] {
      PiecesLackSeparator(s[1..], c);
      assert [c] <= s <==> s[0] == c;
    }
  }

  /** Without an occurrence there is nothing to replace. */
  lemma {:induction false} ReplaceWithoutOccurrence<T>(s: seq<T>, p: seq<T>, r: seq<T>)
    requires p != [] && !Contains(s, p)
    ensures Replace(s, p, r) == s
  {
    if s != [] {
      OccurrencesOfTail(s, p);
      ReplaceWithoutOccurrence(s[1..], p, r);
    }
  }

  lemma PrependToThree<T>(x: T, a: seq<T>, b: seq<T>, c: seq<T>)
    ensures [x] + (a + b + c) == [x] + a + b + c
  {
  }

  lemma OccursShift<T>(a: seq<T>, b: seq<T>, p: seq<T>, j: nat)
    ensures OccursAt(a + b, p, |a| + j) <==> OccursAt(b, p, j)
  {
    if j + |p| <= |b| {
      assert (a + b)[|a| + j..|a| + j + |p|] == b[j..j + |p|];
    }
  }

  /** Replacing through the first occurrence. */
  lemma {:induction false} ReplaceAtFirst<T>(a: seq<T>, p: seq<T>, b: seq<T>, r: seq<T>)
    requires p != [] && forall j: nat :: j < |a| ==> !OccursAt(a + p + b, p, j)
    ensures Replace(a + p + b, p, r) == a + r + Replace(b, p, r)
    decreases a
  {
    var s := a + p + b;
    if a == [] {
      assert s[|p|..] == b;
    } else {
      var t := a[1..] + p + b;
      assert s[1..] == t;
      OccurrencesOfTail(s, p);
      ReplaceAtFirst(a[1..], p, b, r);
      assert !OccursAt(s, p, 0);
      PrependToThree(a[0], a[1..], r, Replace(b, p, r));
      assert [a[0]] + a[1..] == a;
    }
  }

  lemma SplitAtOccurrence<T>(s: seq<T>, p: seq<T>, i: nat)
    requires OccursAt(s, p, i)
    ensures s == s[..i] + p + s[i + |p|..]
  {
  }

  /** A prefix of the replaced text that avoids the substituted symbol was copied
      from the source unchanged. */
  lemma {:induction false} ReplacedPrefixIsCopied<T>(s: seq<T>, p: seq<T>, x: T, w: seq<T>)
    requires p != [] && x !in w
    requires w <= Replace(s, p, [x])
    ensures w <= s
  {
    if w != [] {
      var out := Replace(s, p, [x]);
      assert w[0] == out[0];
      assert out[1..] == Replace(s[1..], p, [x]);
      assert w[1..] <= out[1..];
      ReplacedPrefixIsCopied(s[1..], p, x, w[1..]);
      assert w == [w[0]] + w[1..];
      assert s == [s[0]] + s[1..];
    }
  }

  /** Suffixes of the replaced text start either inside the copied part or after a
      substitution, so nothing that avoids the substituted symbol can straddle one:
      the pattern is gone everywhere. */
  lemma {:induction false} ReplacedPatternIsGone<T>(s: seq<T>, p: seq<T>, x: T, i: nat)
    requires p != [] && x !in p
    ensures !OccursAt(Replace(s, p, [x]), p, i)
  {
    var out := Replace(s, p, [x]);
    if out != [] {
      OccurrencesOfTail(out, p);
      if i == 0 {
        assert p <= out ==> p <= s by {
          if p <= out { ReplacedPrefixIsCopied(s, p, x, p); }
        }
        assert p <= s ==> out[0] == x;
      } else {
        var rest := if p <= s then s[|p|..] else s[1..];
        assert out[1..] == Replace(rest, p, [x]);
        ReplacedPatternIsGone(rest, p, x, i - 1);
      }
    }
  }

  lemma Assoc<T>(a: seq<T>, b: seq<T>, c: seq<T>)
    ensures a + b + c == a + (b + c)
  {
  }

  lemma NilPlus<T>(a: seq<T>)
    ensures [] + a == a && a + [] == a
  {
  }

  lemma TailOfConcat<T>(a: seq<T>, b: seq<T>)
    requires a != []
    ensures (a + b)[0] == a[0] && (a + b)[1..] == a[1..] + b
  {
  }

  /** Concatenation of a sequence of sequences, in order. */
  function Concat<T>(xs: seq<seq<T>>): seq<T> {
    if xs == [] then [] else xs[0] + Concat(xs[1..])
  }

  lemma {:induction false} ConcatSnoc<T>(xs: seq<seq<T>>, x: seq<T>)
    ensures Concat(xs + [x]) == Concat(xs) + x
  {
    if xs != [] {
      ConcatSnoc(xs[1..], x);
      assert (xs + [x])[1..] == xs[1..] + [x];
    }
  }

  /** `char::is_whitespace`: the Unicode White_Space set. */
  predicate IsWhitespace(c: char) {
    var n := c as int;
    9 <= n <= 13 || n == 0x20 || n == 0x85 || n == 0xA0 || n == 0x1680 || 0x2000 <= n <= 0x200A
    || n == 0x2028 || n == 0x2029 || n == 0x202F || n == 0x205F || n == 0x3000
  }

  function TrimStart(s: string): string {
    if s != [] && IsWhitespace(s[0]) then TrimStart(s[1..]) else s
  }

  function TrimEnd(s: string): string {
    if s != [] && IsWhitespace(s[|s| - 1]) then TrimEnd(s[..|s| - 1]) else s
  }

  /** `str::trim`. */
  function Trim(s: string): string {
    TrimEnd(TrimStart(s))
  }

  /** Trimming takes a contiguous part of the text. */
  lemma {:induction false} TrimEndIsPrefix(s: string) returns (j: nat)
    ensures j <= |s| && TrimEnd(s) == s[..j]
  {
    j := |s|;
    if s != [] && IsWhitespace(s[|s| - 1]) {
      j := TrimEndIsPrefix(s[..|s| - 1]);
    }
  }

  lemma {:induction false} TrimIsSlice(s: string) returns (i: nat, j: nat)
    ensures i <= j <= |s| && Trim(s) == s[i..j]
  {
    if s != [] && IsWhitespace(s[0]) {
      i, j := TrimIsSlice(s[1..]);
      i, j := i + 1, j + 1;
    } else {
      i := 0;
      j := TrimEndIsPrefix(s);
    }
  }

  lemma {:induction false} TrimEndMeans(s: string) returns (j: nat)
    ensures j <= |s| && TrimEnd(s) == s[..j] && forall k :: j <= k < |s| ==> IsWhitespace(s[k])
    ensures j > 0 ==> !IsWhitespace(s[j - 1])
  {
    j := |s|;
    if s != [] && IsWhitespace(s[|s| - 1]) {
      j := TrimEndMeans(s[..|s| - 1]);
    }
  }

  /** Trimming drops white space only, and all of it at both ends. */
  lemma {:induction false} TrimMeans(s: string) returns (i: nat, j: nat)
    ensures i <= j <= |s| && Trim(s) == s[i..j]
    ensures forall k :: 0 <= k < i || j <= k < |s| ==> IsWhitespace(s[k])
    ensures i < j ==> !IsWhitespace(s[i]) && !IsWhitespace(s[j - 1])
  {
    if s != [] && IsWhitespace(s[0]) {
      i, j := TrimMeans(s[1..]);
      i, j := i + 1, j + 1;
      assert forall k :: 0 < k < |s| ==> s[k] == s[1..][k - 1];
    } else {
      i := 0;
      j := TrimEndMeans(s);
    }
  }

  /** There is only one way to trim. */
  lemma SameTrim(s: string, i: nat, j: nat, a: nat, b: nat)
    requires i <= j <= |s| && (forall k :: 0 <= k < i || j <= k < |s| ==> IsWhitespace(s[k]))
    requires i < j ==> !IsWhitespace(s[i]) && !IsWhitespace(s[j - 1])
    requires a <= b <= |s| && (forall k :: 0 <= k < a || b <= k < |s| ==> IsWhitespace(s[k]))
    requires a < b ==> !IsWhitespace(s[a]) && !IsWhitespace(s[b - 1])
    ensures s[i..j] == s[a..b]
  {
    assert i < j ==> a <= i && j <= b;
    assert a < b ==> i <= a && b <= j;
  }

  lemma TrimmedAwayIff(s: string)
    ensures Trim(s) == [] <==> forall c :: c in s ==> IsWhitespace(c)
  {
    var i, j := TrimMeans(s);
    assert forall k :: 0 <= k < |s| ==> s[k] in s;
  }

  /** `char::is_ascii_alphanumeric`. */
  predicate IsAlphanumeric(c: char) {
    'a' <= c <= 'z' || 'A' <= c <= 'Z' || '0' <= c <= '9'
  }

  function LowerChar(c: char): char {
    if 'A' <= c <= 'Z' then (c as int + 32) as char else c
  }

  /** `str::to_ascii_lowercase`. */
  function Lower(s: string): (r: string)
    ensures |r| == |s|
    ensures forall i :: 0 <= i < |s| ==> r[i] == LowerChar(s[i])
  {
    seq(|s|, i requires 0 <= i < |s| => LowerChar(s[i]))
  }

  function LowerAll(pieces: seq<string>): (r: seq<string>)
    ensures |r| == |pieces| && forall i :: 0 <= i < |pieces| ==> r[i] == Lower(pieces[i])
  {
    seq(|pieces|, i requires 0 <= i < |pieces| => Lower(pieces[i]))
  }
}
