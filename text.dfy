/** Character classes and the small string scanners the citation engine is built from.
    Python's `\d`, `\w`, `\s`, `str.strip()`, `str.splitlines()`, `str.find`, `int()` and
    `str()` are Unicode-aware; every one of them is restricted here to ASCII. */
module Text {

  /** `\d`: an ASCII decimal digit. */
  predicate IsDigit(c: char) {
    '0' <= c <= '9'
  }

  /** `\w`: an ASCII letter, digit or underscore. */
  predicate IsWordChar(c: char) {
    IsDigit(c) || 'a' <= c <= 'z' || 'A' <= c <= 'Z' || c == '_'
  }

  /** `\s` and the class `str.strip()` removes: the ASCII characters for which
      `str.isspace()` holds. */
  predicate IsSpace(c: char) {
    c == ' ' || c == '\t' || c == '\n' || c == '\r' || c == '\U{0B}' || c == '\U{0C}'
    || c == '\U{1C}' || c == '\U{1D}' || c == '\U{1E}' || c == '\U{1F}'
  }

  /** The class `[\r\n]` that the sanitizer collapses. */
  predicate IsBreak(c: char) {
    c == '\r' || c == '\n'
  }

  /** The ASCII characters at which `str.splitlines()` ends a line (`\r\n` counts once). */
  predicate IsLineBoundary(c: char) {
    c == '\n' || c == '\r' || c == '\U{0B}' || c == '\U{0C}'
    || c == '\U{1C}' || c == '\U{1D}' || c == '\U{1E}'
  }

  predicate NotLineBoundary(c: char) {
    !IsLineBoundary(c)
  }

  /** No carriage return and no newline anywhere in `s`. */
  predicate SingleLine(s: string) {
    forall k :: 0 <= k < |s| ==> !IsBreak(s[k])
  }

  predicate AllSpace(s: string) {
    forall k :: 0 <= k < |s| ==> IsSpace(s[k])
  }

  predicate AllDigits(s: string) {
    forall k :: 0 <= k < |s| ==> IsDigit(s[k])
  }

  /** The characters `s[lo..hi]` are all digits. */
  predicate DigitsIn(s: string, lo: nat, hi: nat)
    requires lo <= hi <= |s|
  {
    forall k :: lo <= k < hi ==> IsDigit(s[k])
  }

  /** The characters `s[lo..hi]` are all whitespace. */
  predicate SpacesIn(s: string, lo: nat, hi: nat)
    requires lo <= hi <= |s|
  {
    forall k :: lo <= k < hi ==> IsSpace(s[k])
  }

  lemma DigitsInSlice(s: string, lo: nat, hi: nat)
    requires lo <= hi <= |s| && DigitsIn(s, lo, hi)
    ensures AllDigits(s[lo..hi])
  {
    forall k | 0 <= k < hi - lo ensures IsDigit(s[lo..hi][k]) {
      assert s[lo..hi][k] == s[lo + k];
    }
  }

  /** Python's `min` and `max` on two integers. */
  function Min(a: int, b: int): (m: int)
    ensures m <= a && m <= b && (m == a || m == b)
  {
    if a <= b then a else b
  }

  function Max(a: int, b: int): (m: int)
    ensures a <= m && b <= m && (m == a || m == b)
  {
    if a >= b then a else b
  }

  /** What `str.strip()` leaves: no whitespace at either end. */
  predicate Stripped(s: string) {
    |s| == 0 || (!IsSpace(s[0]) && !IsSpace(s[|s| - 1]))
  }

  /** The index just past the longest run of `inRun` characters that starts at `i`. */
  function RunEnd(s: string, i: nat, inRun: char -> bool): (e: nat)
    requires i <= |s|
    ensures i <= e <= |s|
    ensures forall k :: i <= k < e ==> inRun(s[k])
    ensures e == |s| || !inRun(s[e])
    decreases |s| - i
  {
    if i < |s| && inRun(s[i]) then RunEnd(s, i + 1, inRun) else i
  }

  /** A run is determined by where it stops. */
  lemma RunEndIs(s: string, i: nat, e: nat, inRun: char -> bool)
    requires i <= e <= |s|
    requires forall k :: i <= k < e ==> inRun(s[k])
    requires e == |s| || !inRun(s[e])
    ensures RunEnd(s, i, inRun) == e
  {
  }

  /** The index where the run of whitespace that ends at `j` begins, looking no further left than `lo`. */
  function TrailingSpaceStart(s: string, lo: nat, j: nat): (h: nat)
    requires lo <= j <= |s|
    ensures lo <= h <= j
    ensures forall k :: h <= k < j ==> IsSpace(s[k])
    ensures h == lo || !IsSpace(s[h - 1])
    decreases j
  {
    if j > lo && IsSpace(s[j - 1]) then TrailingSpaceStart(s, lo, j - 1) else j
  }

  /** Where `str.strip()` starts and stops keeping characters. */
  function StripStart(s: string): nat {
    RunEnd(s, 0, IsSpace)
  }

  function StripStop(s: string): (hi: nat)
    ensures StripStart(s) <= hi <= |s|
  {
    TrailingSpaceStart(s, StripStart(s), |s|)
  }

  /** `str.strip()`: drops the leading and the trailing whitespace and nothing else. */
  function Strip(s: string): (r: string)
    ensures Stripped(r) && |r| <= |s|
    ensures r == s[StripStart(s)..StripStop(s)]
    ensures AllSpace(s[..StripStart(s)]) && AllSpace(s[StripStop(s)..])
  {
    s[StripStart(s)..StripStop(s)]
  }

  /** Stripping a string that has no whitespace at its ends changes nothing. */
  lemma StripStripped(s: string)
    requires Stripped(s)
    ensures Strip(s) == s
  {
    if |s| > 0 {
      RunEndIs(s, 0, 0, IsSpace);
      assert TrailingSpaceStart(s, 0, |s|) == |s|;
    }
  }

  /** The leftward whitespace run ending at `j` starts where it is seen to start. */
  lemma {:induction false} TrailingSpaceStartIs(s: string, lo: nat, j: nat, h: nat)
    requires lo <= h <= j <= |s|
    requires forall k :: h <= k < j ==> IsSpace(s[k])
    requires h == lo || !IsSpace(s[h - 1])
    ensures TrailingSpaceStart(s, lo, j) == h
    decreases j
  {
    if j > h {
      TrailingSpaceStartIs(s, lo, j - 1, h);
    }
  }

  /** Whitespace on both sides of a stripped, non-empty middle is what `str.strip()` removes. */
  lemma StripAround(w1: string, m: string, w2: string)
    requires AllSpace(w1) && AllSpace(w2) && |m| > 0 && Stripped(m)
    ensures Strip(w1 + m + w2) == m
  {
    var s := w1 + m + w2;
    assert s[|w1|] == m[0];
    RunEndIs(s, 0, |w1|, IsSpace);
    assert s[|w1| + |m| - 1] == m[|m| - 1];
    forall k | |w1| + |m| <= k < |s| ensures IsSpace(s[k]) {
      assert s[k] == w2[k - |w1| - |m|];
    }
    TrailingSpaceStartIs(s, |w1|, |s|, |w1| + |m|);
    assert s[|w1|..|w1| + |m|] == m;
  }

  /** `str.strip()` of nothing but whitespace is "". */
  lemma StripAllSpace(s: string)
    requires AllSpace(s)
    ensures Strip(s) == ""
  {
    RunEndIs(s, 0, |s|, IsSpace);
  }

  /** A text is its leading whitespace, its stripped middle and its trailing whitespace. */
  lemma StripFrame(s: string)
    ensures s == s[..StripStart(s)] + Strip(s) + s[StripStop(s)..]
  {
  }

  /** Only blank text strips to nothing. */
  lemma StripEmpty(s: string)
    requires Strip(s) == []
    ensures AllSpace(s)
  {
    var p := StripStart(s);
    forall k | 0 <= k < |s| ensures IsSpace(s[k]) {
      if k < p { assert s[k] == s[..p][k]; }
    }
  }

  /** `s` holds `needle` starting at index `i`. */
  predicate OccursAt(hay: string, needle: string, i: nat) {
    i + |needle| <= |hay| && hay[i..i + |needle|] == needle
  }

  /** `str.find` from index `i`: the first occurrence at or after `i`, or -1. */
  function FindFrom(hay: string, needle: string, i: nat): (r: int)
    requires i <= |hay|
    ensures -1 <= r <= |hay|
    ensures r >= 0 ==> i <= r && OccursAt(hay, needle, r)
    ensures forall k :: i <= k && (r < 0 || k < r) ==> !OccursAt(hay, needle, k)
    decreases |hay| - i
  {
    if i + |needle| > |hay| then -1
    else if hay[i..i + |needle|] == needle then i
    else FindFrom(hay, needle, i + 1)
  }

  /** `hay.find(needle)`: the first index of `needle` in `hay`, or -1 when it does not occur. */
  function Find(hay: string, needle: string): int {
    FindFrom(hay, needle, 0)
  }

  /** `needle in hay`. */
  predicate Contains(hay: string, needle: string) {
    Find(hay, needle) >= 0
  }

  /** Substring containment holds exactly when `needle` occurs at some index. */
  lemma ContainsIff(hay: string, needle: string)
    ensures Contains(hay, needle) <==> exists k: nat :: OccursAt(hay, needle, k)
  {
    if !Contains(hay, needle) {
      forall k: nat ensures !OccursAt(hay, needle, k) {
      }
    }
  }

  /** Every slice of a text is contained in it. */
  lemma ContainsSlice(hay: string, lo: nat, hi: nat)
    requires lo <= hi <= |hay|
    ensures Contains(hay, hay[lo..hi])
  {
    assert OccursAt(hay, hay[lo..hi], lo);
    ContainsIff(hay, hay[lo..hi]);
  }

  /** Containment is transitive. */
  lemma ContainsTransitive(a: string, b: string, c: string)
    requires Contains(a, b) && Contains(b, c)
    ensures Contains(a, c)
  {
    ContainsIff(a, b);
    ContainsIff(b, c);
    var i: nat :| OccursAt(a, b, i);
    var j: nat :| OccursAt(b, c, j);
    forall t | 0 <= t < |c| ensures a[i + j + t] == c[t] {
      assert c[t] == b[j + t] && b[j + t] == a[i + j + t];
    }
    assert a[i + j..i + j + |c|] == c;
    assert OccursAt(a, c, i + j);
    ContainsIff(a, c);
  }

  /** The only string contained in the empty string is the empty string. */
  lemma ContainsInEmpty(needle: string)
    requires Contains("", needle)
    ensures needle == ""
  {
  }

  /** `str.splitlines()`: the lines of `s` without their terminators; a final terminator
      does not start another line. */
  function SplitLines(s: string): (lines: seq<string>)
    ensures forall k :: 0 <= k < |lines| ==> SingleLine(lines[k])
    ensures s == [] <==> lines == []
    decreases |s|
  {
    if |s| == 0 then []
    else
      var k := RunEnd(s, 0, NotLineBoundary);
      if k == |s| then [s]
      else
        var next := if s[k] == '\r' && k + 1 < |s| && s[k + 1] == '\n' then k + 2 else k + 1;
        [s[..k]] + SplitLines(s[next..])
  }

  /** Joins `lines` with "\n" between them. */
  function JoinLines(lines: seq<string>): string
    decreases |lines|
  {
    if |lines| == 0 then ""
    else if |lines| == 1 then lines[0]
    else lines[0] + "\n" + JoinLines(lines[1..])
  }

  /** No line-boundary character except "\n". */
  predicate OnlyNewlines(s: string) {
    forall k :: 0 <= k < |s| ==> (IsLineBoundary(s[k]) ==> s[k] == '\n')
  }

  lemma OnlyNewlinesSuffix(s: string, i: nat)
    requires OnlyNewlines(s) && i <= |s|
    ensures OnlyNewlines(s[i..])
  {
    forall j | 0 <= j < |s| - i ensures IsLineBoundary(s[i..][j]) ==> s[i..][j] == '\n' {
      assert s[i..][j] == s[i + j];
    }
  }

  lemma JoinLinesCons(line: string, tail: seq<string>)
    requires tail != []
    ensures JoinLines([line] + tail) == line + "\n" + JoinLines(tail)
  {
    assert ([line] + tail)[1..] == tail;
  }

  /** Splitting into lines and joining them back with "\n" gives back a text whose only
      terminators are "\n" and that does not end with one. */
  lemma {:induction false} SplitLinesJoin(s: string)
    requires OnlyNewlines(s)
    requires |s| == 0 || s[|s| - 1] != '\n'
    ensures JoinLines(SplitLines(s)) == s
    decreases |s|
  {
    if |s| > 0 {
      var k := RunEnd(s, 0, NotLineBoundary);
      if k < |s| {
        var rest := s[k + 1..];
        OnlyNewlinesSuffix(s, k + 1);
        assert rest[|rest| - 1] == s[|s| - 1];
        SplitLinesJoin(rest);
        JoinLinesCons(s[..k], SplitLines(rest));
        assert s == s[..k] + "\n" + rest;
      }
    }
  }

  /** `s.strip()` is contained in `s`. */
  lemma StripContained(s: string)
    ensures Contains(s, Strip(s))
  {
    ContainsSlice(s, StripStart(s), StripStop(s));
  }

  /** What a slice of a text contains, the text contains. */
  lemma ContainsFromSlice(hay: string, lo: nat, hi: nat, needle: string)
    requires lo <= hi <= |hay| && Contains(hay[lo..hi], needle)
    ensures Contains(hay, needle)
  {
    ContainsSlice(hay, lo, hi);
    ContainsTransitive(hay, hay[lo..hi], needle);
  }

  /** The first line of a text that holds a line terminator, and the text after it. */
  lemma SplitLinesFirst(s: string) returns (k: nat, next: nat)
    requires exists j :: 0 <= j < |s| && IsLineBoundary(s[j])
    ensures k < next <= |s| && next <= k + 2
    ensures SplitLines(s) == [s[..k]] + SplitLines(s[next..])
  {
    k := RunEnd(s, 0, NotLineBoundary);
    next := if s[k] == '\r' && k + 1 < |s| && s[k + 1] == '\n' then k + 2 else k + 1;
  }

  /** Dropping a prefix and the last character commute. */
  lemma SuffixBeforeLast(s: string, lo: nat)
    requires lo < |s|
    ensures s[lo..][..|s| - lo - 1] == s[..|s| - 1][lo..|s| - 1]
  {
  }

  /** When a text ends with a line terminator, every one of its lines lies before that
      last character. */
  lemma {:induction false} LinesBeforeLastChar(s: string)
    requires |s| > 0 && IsLineBoundary(s[|s| - 1])
    ensures forall i :: 0 <= i < |SplitLines(s)| ==> Contains(s[..|s| - 1], SplitLines(s)[i])
    decreases |s|, 1
  {
    var k, next := SplitLinesFirst(s);
    var body := s[..|s| - 1];
    assert body[..k] == s[..k];
    ContainsSlice(body, 0, k);
    if next < |s| {
      LaterLinesBeforeLastChar(s, next);
    } else {
      assert SplitLines(s[next..]) == [];
    }
  }

  /** The lines after the first one lie before the last character too. */
  lemma {:induction false} LaterLinesBeforeLastChar(s: string, next: nat)
    requires 0 < next < |s| && IsLineBoundary(s[|s| - 1])
    ensures forall i :: 0 <= i < |SplitLines(s[next..])| ==>
      Contains(s[..|s| - 1], SplitLines(s[next..])[i])
    decreases |s|, 0
  {
    var rest := s[next..];
    var tail := SplitLines(rest);
    var body := s[..|s| - 1];
    assert rest[|rest| - 1] == s[|s| - 1];
    LinesBeforeLastChar(rest);
    SuffixBeforeLast(s, next);
    forall i | 0 <= i < |tail| ensures Contains(body, tail[i]) {
      ContainsFromSlice(body, next, |body|, tail[i]);
    }
  }

  /** The value of a decimal digit. */
  function DigitValue(c: char): (v: nat)
    requires IsDigit(c)
    ensures v < 10
  {
    (c as int) - ('0' as int)
  }

  function DigitChar(v: nat): (c: char)
    requires v < 10
    ensures IsDigit(c) && DigitValue(c) == v
  {
    ('0' as int + v) as char
  }

  /** `int()` applied to a run of decimal digits. */
  function DigitsValue(d: string): nat
    requires AllDigits(d)
    decreases |d|
  {
    if |d| == 0 then 0 else 10 * DigitsValue(d[..|d| - 1]) + DigitValue(d[|d| - 1])
  }

  /** The shape `str()` gives a non-negative integer: digits, no leading zero unless the number is 0. */
  predicate CanonicalDigits(d: string) {
    |d| > 0 && AllDigits(d) && (d[0] == '0' ==> |d| == 1)
  }

  /** `str()` applied to a non-negative integer. */
  function NatToString(n: nat): (s: string)
    ensures CanonicalDigits(s)
    ensures s[0] == '0' <==> n == 0
    decreases n
  {
    if n < 10 then [DigitChar(n)] else NatToString(n / 10) + [DigitChar(n % 10)]
  }

  /** `int(str(n)) == n`. */
  lemma {:induction false} DigitsValueOfNatToString(n: nat)
    ensures DigitsValue(NatToString(n)) == n
    decreases n
  {
    var s := NatToString(n);
    if n < 10 {
      assert s[..|s| - 1] == [];
    } else {
      DigitsValueOfNatToString(n / 10);
      assert s[..|s| - 1] == NatToString(n / 10);
    }
  }

  /** A digit run that does not start with '0' denotes a positive number. */
  lemma {:induction false} LeadingDigitPositive(d: string)
    requires |d| > 0 && AllDigits(d) && d[0] != '0'
    ensures DigitsValue(d) >= 1
    decreases |d|
  {
    if |d| > 1 {
      LeadingDigitPositive(d[..|d| - 1]);
    }
  }

  /** `str(int(d)) == d` for every digit run in the shape `str()` produces. */
  lemma {:induction false} NatToStringOfDigitsValue(d: string)
    requires CanonicalDigits(d)
    ensures NatToString(DigitsValue(d)) == d
    decreases |d|
  {
    var p := d[..|d| - 1];
    var x := DigitValue(d[|d| - 1]);
    if |d| == 1 {
      assert p == [];
      assert DigitChar(x) == d[0];
    } else {
      LeadingDigitPositive(p);
      NatToStringOfDigitsValue(p);
      var v := DigitsValue(d);
      assert v == 10 * DigitsValue(p) + x;
      assert v / 10 == DigitsValue(p) && v % 10 == x;
      assert DigitChar(x) == d[|d| - 1];
      assert d == p + [d[|d| - 1]];
    }
  }

  /** A prefix one element longer. */
  lemma PrefixGrows<T>(s: seq<T>, j: nat)
    requires j < |s|
    ensures s[..j + 1] == s[..j] + [s[j]]
  {
  }

  /** A prefix of a prefix is a prefix. */
  lemma PrefixOfPrefix<T>(a: seq<T>, b: seq<T>, c: seq<T>)
    requires |a| <= |b| <= |c| && c[..|b|] == b && b[..|a|] == a
    ensures c[..|a|] == a
  {
    assert c[..|a|] == c[..|b|][..|a|];
  }
}
