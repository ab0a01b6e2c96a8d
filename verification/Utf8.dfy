/** UTF-8 as in section 3 of RFC 3629, and the lossy decoder built on it.

    Rust strings are byte sequences that happen to be valid UTF-8; `find`,
    `replace` and slicing work on byte offsets.  This module proves that searching
    and replacing the bytes of an encoded string is the same as searching and
    replacing its characters, which is what lets the text kernels be modelled on
    characters. */
module Utf8 {
  import opened Text

  newtype byte = x: int | 0 <= x < 256

  const REPLACEMENT: char := '\U{FFFD}'

  function EncodeChar(c: char): (r: seq<byte>)
    ensures 1 <= |r| <= 4
    ensures !IsContinuation(r[0])
    ensures forall i :: 1 <= i < |r| ==> IsContinuation(r[i])
  {
    var n := c as int;
    if n < 0x80 then [n as byte]
    else if n < 0x800 then [(0xC0 + n / 64) as byte, (0x80 + n % 64) as byte]
    else if n < 0x1_0000 then
      [(0xE0 + n / 4096) as byte, (0x80 + n / 64 % 64) as byte, (0x80 + n % 64) as byte]
    else
      [(0xF0 + n / 262144) as byte, (0x80 + n / 4096 % 64) as byte, (0x80 + n / 64 % 64) as byte,
          (0x80 + n % 64) as byte]
  }

  function Encode(s: string): seq<byte> {
    if s == [] then [] else EncodeChar(s[0]) + Encode(s[1..])
  }

  predicate IsContinuation(b: byte) {
    0x80 <= b < 0xC0
  }

  /** `str::is_char_boundary` of the bytes of a string. */
  predicate IsBoundary(b: seq<byte>, i: nat) {
    i == 0 || i == |b| || (i < |b| && !IsContinuation(b[i]))
  }

  datatype DecodeStep = Good(c: char, len: nat) | Bad(len: nat)

  /** One step of `String::from_utf8_lossy`: a well-formed character, or the maximal
      ill-formed prefix that one replacement character stands for. */
  function Step(b: seq<byte>): (r: DecodeStep)
    requires b != []
    ensures 1 <= r.len <= |b| && r.len <= 4
  {
    var b0 := b[0] as int;
    if b0 < 0x80 then Good(b0 as char, 1)
    else if 0xC2 <= b0 <= 0xDF then
      if |b| < 2 || !IsContinuation(b[1]) then Bad(1)
      else Good(((b0 - 0xC0) * 64 + Low(b[1])) as char, 2)
    else if 0xE0 <= b0 <= 0xEF then
      if |b| < 2 || !SecondOfThree(b0, b[1] as int) then Bad(1)
      else if |b| < 3 || !IsContinuation(b[2]) then Bad(2)
      else Good(((b0 - 0xE0) * 4096 + Low(b[1]) * 64 + Low(b[2])) as char, 3)
    else if 0xF0 <= b0 <= 0xF4 then
      if |b| < 2 || !SecondOfFour(b0, b[1] as int) then Bad(1)
      else if |b| < 3 || !IsContinuation(b[2]) then Bad(2)
      else if |b| < 4 || !IsContinuation(b[3]) then Bad(3)
      else Good(((b0 - 0xF0) * 262144 + Low(b[1]) * 4096 + Low(b[2]) * 64 + Low(b[3])) as char, 4)
    else Bad(1)
  }

  function Low(b: byte): int {
    b as int - 0x80
  }

  predicate SecondOfThree(b0: int, b1: int) {
    if b0 == 0xE0 then 0xA0 <= b1 <= 0xBF
    else if b0 == 0xED then 0x80 <= b1 <= 0x9F
    else 0x80 <= b1 <= 0xBF
  }

  predicate SecondOfFour(b0: int, b1: int) {
    if b0 == 0xF0 then 0x90 <= b1 <= 0xBF
    else if b0 == 0xF4 then 0x80 <= b1 <= 0x8F
    else 0x80 <= b1 <= 0xBF
  }

  /** `String::from_utf8_lossy`. */
  function Lossy(b: seq<byte>): string {
    if b == [] then []
    else
      match Step(b)
      case Good(c, n) => [c] + Lossy(b[n..])
      case Bad(n) => [REPLACEMENT] + Lossy(b[n..])
  }

  /** `std::str::from_utf8` succeeds. */
  predicate Valid(b: seq<byte>) {
    b == [] || (Step(b).Good? && Valid(b[Step(b).len..]))
  }

  // ----- The codec is a bijection between strings and valid byte sequences -----

  /** The six-bit groups of a code point determine it. */
  lemma Groups(n: nat)
    ensures n == n / 64 * 64 + n % 64
    ensures n == n / 4096 * 4096 + n / 64 % 64 * 64 + n % 64
    ensures n == n / 262144 * 262144 + n / 4096 % 64 * 4096 + n / 64 % 64 * 64 + n % 64
  {
    assert n / 4096 == n / 64 / 64;
    assert n / 262144 == n / 4096 / 64;
  }

  lemma GroupsUnique(a: nat, x: nat, y: nat, z: nat)
    requires x < 64 && y < 64 && z < 64
    ensures var n := a * 64 + x; n / 64 == a && n % 64 == x
    ensures var n := a * 4096 + x * 64 + y; n / 4096 == a && n / 64 % 64 == x && n % 64 == y
    ensures var n := a * 262144 + x * 4096 + y * 64 + z;
            n / 262144 == a && n / 4096 % 64 == x && n / 64 % 64 == y && n % 64 == z
  {
    assert (a * 4096 + x * 64 + y) / 64 == a * 64 + x;
    assert (a * 262144 + x * 4096 + y * 64 + z) / 64 == a * 4096 + x * 64 + y;
    assert (a * 262144 + x * 4096 + y * 64 + z) / 4096 == a * 64 + x;
  }

  lemma StepOfEncodedChar(c: char, rest: seq<byte>)
    ensures Step(EncodeChar(c) + rest) == Good(c, |EncodeChar(c)|)
  {
    var n := c as int;
    Groups(n);
    var e := EncodeChar(c);
    var b := e + rest;
    assert forall i :: 0 <= i < |e| ==> b[i] == e[i];
    if n < 0x80 {
    } else if n < 0x800 {
      assert 0xC2 <= b[0] as int <= 0xDF;
    } else if n < 0x1_0000 {
      assert 0xE0 <= b[0] as int <= 0xEF;
      assert SecondOfThree(b[0] as int, b[1] as int);
    } else {
      assert 0xF0 <= b[0] as int <= 0xF4;
      assert SecondOfFour(b[0] as int, b[1] as int);
    }
  }

  lemma EncodeThreeBytes(c: char, b0: byte, b1: byte, b2: byte)
    requires 0xE0 <= b0 <= 0xEF && IsContinuation(b1) && IsContinuation(b2) && SecondOfThree(b0 as int, b1 as int)
    requires c as int == (b0 as int - 0xE0) * 4096 + Low(b1) * 64 + Low(b2)
    ensures EncodeChar(c) == [b0, b1, b2]
  {
    GroupsUnique(b0 as int - 0xE0, Low(b1), Low(b2), 0);
  }

  lemma EncodeFourBytes(c: char, b0: byte, b1: byte, b2: byte, b3: byte)
    requires 0xF0 <= b0 <= 0xF4 && IsContinuation(b1) && IsContinuation(b2) && IsContinuation(b3)
    requires SecondOfFour(b0 as int, b1 as int)
    requires c as int == (b0 as int - 0xF0) * 262144 + Low(b1) * 4096 + Low(b2) * 64 + Low(b3)
    ensures EncodeChar(c) == [b0, b1, b2, b3]
  {
    GroupsUnique(b0 as int - 0xF0, Low(b1), Low(b2), Low(b3));
  }

  lemma GoodStepIsEncodedChar(b: seq<byte>)
    requires b != [] && Step(b).Good?
    ensures b == EncodeChar(Step(b).c) + b[Step(b).len..]
  {
    var c, len := Step(b).c, Step(b).len;
    if len == 1 {
    } else if len == 2 {
      GroupsUnique(b[0] as int - 0xC0, Low(b[1]), 0, 0);
    } else if len == 3 {
      EncodeThreeBytes(c, b[0], b[1], b[2]);
    } else {
      EncodeFourBytes(c, b[0], b[1], b[2], b[3]);
    }
  }

  lemma {:induction false} LossyOfEncoded(s: string, rest: seq<byte>)
    ensures Lossy(Encode(s) + rest) == s + Lossy(rest)
    ensures Valid(Encode(s) + rest) == Valid(rest)
  {
    if s == [] {
      assert Encode(s) + rest == rest;
    } else {
      var tail := Encode(s[1..]) + rest;
      assert Encode(s) + rest == EncodeChar(s[0]) + tail;
      StepOfEncodedChar(s[0], tail);
      assert (EncodeChar(s[0]) + tail)[|EncodeChar(s[0])|..] == tail;
      LossyOfEncoded(s[1..], rest);
    }
  }

  /** Decoding undoes encoding. */
  lemma DecodeEncode(s: string)
    ensures Valid(Encode(s)) && Lossy(Encode(s)) == s
  {
    LossyOfEncoded(s, []);
    assert Encode(s) + [] == Encode(s);
  }

  /** Every valid byte sequence is the encoding of exactly what it decodes to. */
  lemma {:induction false} EncodeDecode(b: seq<byte>)
    requires Valid(b)
    ensures Encode(Lossy(b)) == b
  {
    if b != [] {
      GoodStepIsEncodedChar(b);
      EncodeDecode(b[Step(b).len..]);
      assert Lossy(b)[1..] == Lossy(b[Step(b).len..]);
    }
  }

  lemma {:induction false} EncodeConcat(s: string, t: string)
    ensures Encode(s + t) == Encode(s) + Encode(t)
  {
    if s == [] {
      assert s + t == t;
    } else {
      EncodeConcat(s[1..], t);
      assert (s + t)[1..] == s[1..] + t;
    }
  }

  lemma EncodeThree(a: string, b: string, c: string)
    ensures Encode(a + b + c) == Encode(a) + Encode(b) + Encode(c)
  {
    EncodeConcat(a + b, c);
    EncodeConcat(a, b);
  }

  // ----- Self-synchronisation: byte searches are character searches -----

  lemma EncodedPrefixHead(h: string, n: string)
    requires n != [] && h != [] && Encode(n) <= Encode(h)
    ensures n[0] == h[0] && Encode(n[1..]) <= Encode(h[1..])
  {
    var nc, tail := EncodeChar(n[0]), Encode(n[1..]);
    var x := Encode(h)[|Encode(n)|..];
    StepOfEncodedChar(h[0], Encode(h[1..]));
    StepOfEncodedChar(n[0], tail + x);
    Regroup(nc, tail, Encode(h));
    DropPrefix(Encode(n), Encode(h), |nc|);
  }

  lemma Regroup(a: seq<byte>, b: seq<byte>, whole: seq<byte>)
    requires a + b <= whole
    ensures whole == a + (b + whole[|a + b|..])
  {
  }

  lemma DropPrefix(a: seq<byte>, b: seq<byte>, k: nat)
    requires a <= b && k <= |a|
    ensures a[k..] <= b[k..]
  {
  }

  lemma {:induction false} EncodedPrefix(h: string, n: string)
    ensures Encode(n) <= Encode(h) <==> n <= h
  {
    if n <= h {
      EncodeConcat(n, h[|n|..]);
      assert h == n + h[|n|..];
    } else if n != [] && h != [] && Encode(n) <= Encode(h) {
      EncodedPrefixHead(h, n);
      EncodedPrefix(h[1..], n[1..]);
    }
  }

  /** A byte occurrence of an encoded non-empty string starts at a character. */
  lemma {:induction false} ByteOccurrence(h: string, n: string, i: nat) returns (k: nat)
    requires n != [] && OccursAt(Encode(h), Encode(n), i)
    ensures k <= |h| && |Encode(h[..k])| == i && OccursAt(h, n, k)
  {
    if i == 0 {
      EncodedPrefix(h, n);
      k := 0;
    } else {
      var c := EncodeChar(h[0]);
      NotInsideAChar(h, n, i);
      OccursShift(c, Encode(h[1..]), Encode(n), i - |c|);
      var k1 := ByteOccurrence(h[1..], n, i - |c|);
      k := k1 + 1;
      assert h[..k][1..] == h[1..][..k1];
      OccursShift([h[0]], h[1..], n, k1);
      assert [h[0]] + h[1..] == h;
    }
  }

  lemma NotInsideAChar(h: string, n: string, i: nat)
    requires n != [] && OccursAt(Encode(h), Encode(n), i) && i > 0
    ensures h != [] && i >= |EncodeChar(h[0])|
  {
    var c := EncodeChar(h[0]);
    assert forall j :: 0 <= j < |c| ==> Encode(h)[j] == c[j];
    assert Encode(h)[i] == Encode(n)[0] == EncodeChar(n[0])[0];
  }

  lemma CharOccurrence(h: string, n: string, k: nat)
    requires OccursAt(h, n, k)
    ensures OccursAt(Encode(h), Encode(n), |Encode(h[..k])|)
  {
    var tail := h[k + |n|..];
    assert h == h[..k] + n + tail;
    EncodeThree(h[..k], n, tail);
  }

  lemma EncodedLengthMonotone(h: string, i: nat, j: nat)
    requires i < j <= |h|
    ensures |Encode(h[..i])| < |Encode(h[..j])|
  {
    assert h[..j] == h[..i] + h[i..j];
    EncodeConcat(h[..i], h[i..j]);
  }

  /** Searching bytes finds the encoded position of the first character match. */
  lemma FindInBytes(h: string, n: string)
    requires n != []
    ensures Find(h, n).None? <==> Find(Encode(h), Encode(n)).None?
    ensures Find(h, n).Some? ==>
              Find(Encode(h), Encode(n)) == Some(|Encode(h[..Find(h, n).value])|)
  {
    var f, g := Find(h, n), Find(Encode(h), Encode(n));
    if f.Some? {
      CharOccurrence(h, n, f.value);
    }
    if g.Some? {
      var k := ByteOccurrence(h, n, g.value);
      assert f.value <= k;
      if k > f.value {
        EncodedLengthMonotone(h, f.value, k);
      }
    }
  }

  /** Replacing on bytes is replacing on characters. */
  lemma {:induction false} ReplaceInBytes(h: string, n: string, r: string)
    requires n != []
    ensures Encode(n) != []
    ensures Replace(Encode(h), Encode(n), Encode(r)) == Encode(Replace(h, n, r))
    decreases |h|
  {
    FindInBytes(h, n);
    match Find(h, n)
    case None =>
      ReplaceWithoutOccurrence(h, n, r);
      ReplaceWithoutOccurrence(Encode(h), Encode(n), Encode(r));
    case Some(k) =>
      var head, tail := h[..k], h[k + |n|..];
      SplitAtOccurrence(h, n, k);
      EncodeThree(head, n, tail);
      ReplaceAtFirst(head, n, tail, r);
      ReplaceAtFirst(Encode(head), Encode(n), Encode(tail), Encode(r));
      ReplaceInBytes(tail, n, r);
      EncodeThree(head, r, Replace(tail, n, r));
  }

  /** The boundaries of an encoded string are the encoded lengths of its prefixes. */
  lemma {:induction false} BoundaryIsPrefix(h: string, i: nat) returns (k: nat)
    requires i <= |Encode(h)| && IsBoundary(Encode(h), i)
    ensures k <= |h| && |Encode(h[..k])| == i && Encode(h)[..i] == Encode(h[..k])
  {
    if i == 0 {
      k := 0;
    } else {
      var l := |EncodeChar(h[0])|;
      assert i >= l;
      var b := Encode(h[1..]);
      assert Encode(h)[l..] == b;
      assert i - l < |b| ==> b[i - l] == Encode(h)[i];
      var k1 := BoundaryIsPrefix(h[1..], i - l);
      k := k1 + 1;
      assert h[..k][1..] == h[1..][..k1];
      assert Encode(h)[..i] == EncodeChar(h[0]) + b[..i - l];
    }
  }

  lemma PrefixIsBoundary(h: string, k: nat)
    requires k <= |h|
    ensures |Encode(h[..k])| <= |Encode(h)| && IsBoundary(Encode(h), |Encode(h[..k])|)
    ensures Encode(h)[|Encode(h[..k])|..] == Encode(h[k..])
    ensures Encode(h)[..|Encode(h[..k])|] == Encode(h[..k])
  {
    assert h == h[..k] + h[k..];
    EncodeConcat(h[..k], h[k..]);
    if k < |h| {
      assert Encode(h)[|Encode(h[..k])|] == Encode(h[k..])[0] == EncodeChar(h[k])[0];
    }
  }

  /** At most three bytes separate any position from the boundary at or before it. */
  lemma {:induction false} BoundaryNearby(h: string, i: nat) returns (j: nat)
    requires i <= |Encode(h)|
    ensures j <= i < j + 4 && IsBoundary(Encode(h), j)
  {
    if i == 0 || i == |Encode(h)| {
      j := i;
    } else {
      var l := |EncodeChar(h[0])|;
      if i < l {
        j := 0;
      } else {
        var b := Encode(h[1..]);
        assert Encode(h)[l..] == b;
        var j1 := BoundaryNearby(h[1..], i - l);
        j := j1 + l;
        assert j1 < |b| ==> b[j1] == Encode(h)[j];
        assert b == [] ==> l == |Encode(h)|;
        assert j1 == 0 && b != [] ==> b[0] == EncodeChar(h[1])[0];
      }
    }
  }

  // ----- Lossy decoding of pieces -----

  /** Decoding chunk by chunk. */
  function LossyChunks(chunks: seq<seq<byte>>): string {
    if chunks == [] then [] else Lossy(chunks[0]) + LossyChunks(chunks[1..])
  }

  /** Decoding chunk by chunk is decoding the whole when every chunk is valid. */
  lemma {:induction false} LossyChunksOfValid(chunks: seq<seq<byte>>)
    requires forall i :: 0 <= i < |chunks| ==> Valid(chunks[i])
    ensures Valid(Concat(chunks)) && LossyChunks(chunks) == Lossy(Concat(chunks))
  {
    if chunks != [] {
      LossyChunksOfValid(chunks[1..]);
      EncodeDecode(chunks[0]);
      LossyOfEncoded(Lossy(chunks[0]), Concat(chunks[1..]));
    }
  }
}
