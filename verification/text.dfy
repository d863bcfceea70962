/** Python string operations the parsers rely on: the substring test
    `needle in hay`, `str.split(sep)` with a non-empty separator, and the
    decimal `int(...)` / `str(...)` conversions for natural numbers. */
module Text {
  import opened Wrappers

  /** `needle` occurs in `hay` starting at position `i`. */
  predicate OccursAt(needle: string, hay: string, i: nat) {
    i + |needle| <= |hay| && hay[i..i + |needle|] == needle
  }

  /** Python's `needle in hay` on strings (the empty string occurs everywhere):
      `needle` starts `hay` or occurs in the rest of it. */
  predicate Contains(hay: string, needle: string)
    ensures |needle| == 0 ==> Contains(hay, needle)
    ensures Contains(hay, needle) ==> |needle| <= |hay|
    decreases |hay|
  {
    OccursAt(needle, hay, 0) || (|hay| > 0 && Contains(hay[1..], needle))
  }

  /** `needle in hay` holds exactly when `needle` occurs at some position of `hay`. */
  lemma {:induction false} ContainsOccurs(hay: string, needle: string)
    ensures Contains(hay, needle) <==> exists i: nat :: i <= |hay| && OccursAt(needle, hay, i)
    decreases |hay|
  {
    if |hay| > 0 {
      var tail := hay[1..];
      ContainsOccurs(tail, needle);
      forall i: nat | i <= |tail|
        ensures OccursAt(needle, tail, i) <==> OccursAt(needle, hay, i + 1)
      {
        if i + |needle| <= |tail| {
          assert tail[i..i + |needle|] == hay[i + 1..i + 1 + |needle|];
        }
      }
      if exists i: nat :: i <= |hay| && OccursAt(needle, hay, i) {
        var i: nat :| i <= |hay| && OccursAt(needle, hay, i);
        if i > 0 {
          assert OccursAt(needle, tail, i - 1);
        }
      }
    }
  }

  /** Python's `any(w in text for w in words)`. */
  predicate ContainsAny(text: string, words: seq<string>) {
    exists k :: 0 <= k < |words| && Contains(text, words[k])
  }

  /** Position of the first occurrence of `needle` in `hay` at or after `from`. */
  function FindFrom(hay: string, needle: string, from: nat): (r: Option<nat>)
    requires from <= |hay|
    ensures r.Some? ==> from <= r.value <= |hay| && OccursAt(needle, hay, r.value)
    ensures r.Some? ==> forall j :: from <= j < r.value ==> !OccursAt(needle, hay, j)
    ensures r.None? <==> forall j :: from <= j <= |hay| ==> !OccursAt(needle, hay, j)
    decreases |hay| - from
  {
    if OccursAt(needle, hay, from) then Some(from)
    else if from == |hay| then None
    else FindFrom(hay, needle, from + 1)
  }

  /** The inverse of `Split`: the parts glued back together with `sep`. */
  function Join(parts: seq<string>, sep: string): string
    decreases |parts|
  {
    if |parts| == 0 then ""
    else if |parts| == 1 then parts[0]
    else parts[0] + sep + Join(parts[1..], sep)
  }

  /** Python's `s.split(sep)` for a non-empty `sep`: cut at non-overlapping
      occurrences found from left to right. */
  function Split(s: string, sep: string): (parts: seq<string>)
    requires |sep| > 0
    ensures |parts| >= 1
    ensures |parts| == 1 <==> FindFrom(s, sep, 0).None?
    ensures |parts| == 1 ==> parts[0] == s
    ensures FindFrom(s, sep, 0).Some? ==> parts[0] == s[..FindFrom(s, sep, 0).value]
    decreases |s|
  {
    match FindFrom(s, sep, 0)
    case None => [s]
    case Some(i) => [s[..i]] + Split(s[i + |sep|..], sep)
  }

  /** No part of a split contains the separator. */
  lemma {:induction false} SplitPartsFree(s: string, sep: string)
    requires |sep| > 0
    ensures forall k :: 0 <= k < |Split(s, sep)| ==> !Contains(Split(s, sep)[k], sep)
    decreases |s|
  {
    match FindFrom(s, sep, 0)
    case None =>
      assert Split(s, sep) == [s];
      ContainsOccurs(s, sep);
    case Some(i) =>
      var rest := s[i + |sep|..];
      SplitPartsFree(rest, sep);
      PrefixBeforeFirstIsFree(s, sep, i);
      assert Split(s, sep) == [s[..i]] + Split(rest, sep);
      FreeCons(s[..i], Split(rest, sep), sep);
  }

  lemma FreeCons(head: string, tail: seq<string>, sep: string)
    requires !Contains(head, sep)
    requires forall k :: 0 <= k < |tail| ==> !Contains(tail[k], sep)
    ensures forall k :: 0 <= k < |[head] + tail| ==> !Contains(([head] + tail)[k], sep)
  {
    var parts := [head] + tail;
    forall k | 0 <= k < |parts|
      ensures !Contains(parts[k], sep)
    {
      if k > 0 {
        assert parts[k] == tail[k - 1];
      }
    }
  }

  /** The text before the first occurrence of `sep` does not contain `sep`. */
  lemma PrefixBeforeFirstIsFree(s: string, sep: string, i: nat)
    requires |sep| > 0 && i <= |s|
    requires forall j :: 0 <= j < i ==> !OccursAt(sep, s, j)
    ensures !Contains(s[..i], sep)
  {
    ContainsOccurs(s[..i], sep);
    forall j: nat | j <= i && OccursAt(sep, s[..i], j)
      ensures false
    {
      assert s[..i][j..j + |sep|] == s[j..j + |sep|];
      assert j < i && OccursAt(sep, s, j);
    }
  }

  /** Splitting and joining with the same separator gives back the original text. */
  lemma {:induction false} JoinSplit(s: string, sep: string)
    requires |sep| > 0
    ensures Join(Split(s, sep), sep) == s
    decreases |s|
  {
    var f := FindFrom(s, sep, 0);
    if f.Some? {
      var i := f.value;
      var rest := s[i + |sep|..];
      var tail := Split(rest, sep);
      JoinSplit(rest, sep);
      assert Split(s, sep) == [s[..i]] + tail;
      JoinCons(s[..i], tail, sep);
      assert s[i..i + |sep|] == sep;
      assert s == s[..i] + s[i..i + |sep|] + rest;
    }
  }

  lemma JoinCons(head: string, tail: seq<string>, sep: string)
    requires |tail| >= 1
    ensures Join([head] + tail, sep) == head + sep + Join(tail, sep)
  {
    assert ([head] + tail)[1..] == tail;
  }

  /** A text that splits into exactly two parts is the first part, the
      separator and the second part, neither part containing the separator. */
  lemma SplitInTwo(s: string, sep: string, parts: seq<string>)
    requires |sep| > 0 && parts == Split(s, sep) && |parts| == 2
    ensures |parts[0]| + |sep| <= |s|
    ensures s == parts[0] + sep + parts[1]
    ensures s[|parts[0]| + |sep|..] == parts[1]
    ensures !Contains(parts[0], sep) && !Contains(parts[1], sep)
  {
    SplitPartsFree(s, sep);
    JoinSplit(s, sep);
    assert parts[1..] == [parts[1]];
    assert Join(parts, sep) == parts[0] + sep + parts[1];
  }

  /** A text splits into more than one part exactly when it contains the separator. */
  lemma SplitSingleton(s: string, sep: string)
    requires |sep| > 0
    ensures |Split(s, sep)| == 1 <==> !Contains(s, sep)
  {
    ContainsOccurs(s, sep);
    match FindFrom(s, sep, 0)
    case None =>
      assert Split(s, sep) == [s];
    case Some(i) =>
      assert |Split(s, sep)| >= 2;
      assert OccursAt(sep, s, i);
  }

  /** Python's `s.split(sep)[-1]`: the text after the last `sep`. */
  function LastSegment(s: string, sep: string): (r: string)
    requires |sep| > 0
    ensures !Contains(r, sep)
    ensures |r| <= |s| && s[|s| - |r|..] == r
    ensures |r| < |s| ==> |r| + |sep| <= |s| && s[|s| - |r| - |sep|..|s| - |r|] == sep
  {
    var parts := Split(s, sep);
    SplitPartsFree(s, sep);
    LastOfSplit(s, sep, parts, parts[|parts| - 1]);
    parts[|parts| - 1]
  }

  /** The last part of a split ends the text, preceded by the separator when
      there are several parts. */
  lemma LastOfSplit(s: string, sep: string, parts: seq<string>, last: string)
    requires |sep| > 0 && parts == Split(s, sep) && last == parts[|parts| - 1]
    ensures |last| <= |s| && s[|s| - |last|..] == last
    ensures |last| < |s| ==> |last| + |sep| <= |s| && s[|s| - |last| - |sep|..|s| - |last|] == sep
  {
    JoinSplit(s, sep);
    JoinEndsWithLast(parts, sep, s, last);
  }

  /** A join ends with its last part, preceded by the separator when there are several parts. */
  lemma {:induction false} JoinEndsWithLast(parts: seq<string>, sep: string, j: string, last: string)
    requires |parts| >= 1 && j == Join(parts, sep) && last == parts[|parts| - 1]
    ensures |last| <= |j| && j[|j| - |last|..] == last
    ensures |parts| == 1 ==> j == last
    ensures |parts| >= 2 ==> |last| + |sep| <= |j| && j[|j| - |last| - |sep|..|j| - |last|] == sep
    decreases |parts|
  {
    if |parts| >= 2 {
      var tail := Join(parts[1..], sep);
      assert parts[1..][|parts[1..]| - 1] == last;
      JoinEndsWithLast(parts[1..], sep, tail, last);
      assert j == parts[0] + sep + tail;
      assert j[|j| - |last|..] == tail[|tail| - |last|..];
      if |parts| == 2 {
        assert tail == last;
        assert j[|j| - |last| - |sep|..|j| - |last|] == sep;
      } else {
        assert j[|j| - |last| - |sep|..|j| - |last|] == tail[|tail| - |last| - |sep|..|tail| - |last|];
      }
    }
  }

  predicate IsDigit(c: char) {
    '0' <= c <= '9'
  }

  predicate AllDigits(s: string) {
    forall k :: 0 <= k < |s| ==> IsDigit(s[k])
  }

  /** The number written by a string of decimal digits. */
  function DigitsValue(s: string): nat
    requires AllDigits(s)
    decreases |s|
  {
    if |s| == 0 then 0
    else DigitsValue(s[..|s| - 1]) * 10 + (s[|s| - 1] as int - '0' as int)
  }

  /** Python's `int(s)` restricted to plain non-empty decimal digit strings. */
  function ParseNat(s: string): (r: Option<nat>)
    ensures r.Some? <==> |s| > 0 && AllDigits(s)
  {
    if |s| > 0 && AllDigits(s) then Some(DigitsValue(s)) else None
  }

  function DigitChar(d: nat): (c: char)
    requires d < 10
    ensures IsDigit(c) && c as int - '0' as int == d
  {
    ('0' as int + d) as char
  }

  /** Python's `str(n)` for a natural number. */
  function ShowNat(n: nat): (s: string)
    ensures |s| > 0 && AllDigits(s)
    decreases n
  {
    if n < 10 then [DigitChar(n)]
    else ShowNat(n / 10) + [DigitChar(n % 10)]
  }

  /** Reading back the decimal rendering of a number gives the number. */
  lemma {:induction false} ParseShow(n: nat)
    ensures ParseNat(ShowNat(n)) == Some(n)
    decreases n
  {
    var s := ShowNat(n);
    if n >= 10 {
      ParseShow(n / 10);
      assert s[..|s| - 1] == ShowNat(n / 10);
      assert DigitsValue(s) == DigitsValue(ShowNat(n / 10)) * 10 + n % 10;
    }
  }

  function Pow10(w: nat): (r: nat)
    ensures r >= 1
  {
    if w == 0 then 1 else 10 * Pow10(w - 1)
  }

  /** `"%0*d" % (w, n)` for `n < 10^w`: exactly `w` decimal digits, zero-padded on the left. */
  function PadNat(n: nat, w: nat): (s: string)
    requires n < Pow10(w)
    ensures |s| == w && AllDigits(s)
    decreases w
  {
    if w == 0 then ""
    else PadNat(n / 10, w - 1) + [DigitChar(n % 10)]
  }

  /** Reading back a zero-padded rendering gives the number. */
  lemma {:induction false} ParsePad(n: nat, w: nat)
    requires 0 < w && n < Pow10(w)
    ensures ParseNat(PadNat(n, w)) == Some(n)
    decreases w
  {
    var s := PadNat(n, w);
    assert s[..|s| - 1] == PadNat(n / 10, w - 1);
    if w > 1 {
      ParsePad(n / 10, w - 1);
    } else {
      assert n / 10 == 0;
    }
    assert DigitsValue(s) == DigitsValue(PadNat(n / 10, w - 1)) * 10 + n % 10;
  }
}
