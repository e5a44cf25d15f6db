/** Particular shapes of input worked through `clean_citation`: a bare keyword, lower-case
    shorthand, and two U.S. Code citations that run into each other. */
module Scenarios {
  import opened Wrappers
  import opened Text
  import opened Normalizer

  /** A bare keyword hit such as "OMB" passes through `clean_citation` untouched. */
  lemma CleanLeavesKeyword()
    ensures CleanCitation("OMB") == "OMB"
  {
    CleanWithoutLetters("OMB");
  }

  /** Lower-case shorthand is not rewritten: the rules are case-sensitive. */
  lemma CleanIsCaseSensitive()
    ensures CleanCitation("42 u.s.c. 1983") == "42 u.s.c. 1983"
  {
    CleanWithoutLetters("42 u.s.c. 1983");
  }

  // ---------------------------------------------------------------------------------
  // Two citations that run into each other: "<t>USC <n>USC<m>" or "<t>USC <n>USC <m>", with
  // digit runs t, n, m; the citation pattern of the extraction yields the first as one match.
  // The first is not followed by a word boundary, so the first pass rewrites only the
  // second; that rewrite puts a space after n, and a second pass then rewrites the first.
  // So `clean_citation` is idempotent on single citations in shorthand but not on every text.

  /** `s` is "<t>USC <n>USC<m>", whitespace allowed before m: digits `s[..a]`, "USC ", digits
      `s[a + 4..b]`, "USC", whitespace `s[b + 3..c]`, digits `s[c..]`. */
  predicate RunOnCitations(s: string, a: nat, b: nat, c: nat) {
    0 < a && a + 4 < b && b + 3 <= c < |s| &&
    DigitsIn(s, 0, a) && s[a..a + 4] == "USC " && DigitsIn(s, a + 4, b) &&
    s[b..b + 3] == "USC" && SpacesIn(s, b + 3, c) && DigitsIn(s, c, |s|)
  }

  /** The text after one pass: "<t>USC <n> USC <m>". */
  predicate HalfCleaned(s: string, a: nat, b: nat) {
    0 < a && a + 4 < b && b + 5 < |s| &&
    DigitsIn(s, 0, a) && s[a..a + 4] == "USC " && DigitsIn(s, a + 4, b) &&
    s[b..b + 5] == " USC " && DigitsIn(s, b + 5, |s|)
  }

  /** Only digits and the letters and space of "USC ". */
  predicate CodeAlphabet(s: string) {
    forall k :: 0 <= k < |s| ==> IsDigit(s[k]) || s[k] == ' ' || s[k] == 'U' || s[k] == 'S' || s[k] == 'C'
  }

  lemma CodeAlphabetJoin(x: string, mid: string, z: string)
    requires CodeAlphabet(x) && CodeAlphabet(mid) && CodeAlphabet(z)
    ensures CodeAlphabet(x + mid + z)
  {
    var c := x + mid + z;
    forall k | 0 <= k < |c| ensures IsDigit(c[k]) || c[k] == ' ' || c[k] == 'U' || c[k] == 'S' || c[k] == 'C' {
      if k < |x| {
        assert c[k] == x[k];
      } else if k < |x| + |mid| {
        assert c[k] == mid[k - |x|];
      } else {
        assert c[k] == z[k - |x| - |mid|];
      }
    }
  }

  lemma CodeAlphabetSlice(s: string, i: nat, j: nat)
    requires CodeAlphabet(s) && i <= j <= |s|
    ensures CodeAlphabet(s[i..j])
  {
    forall k | 0 <= k < j - i ensures IsDigit(s[i..j][k]) || s[i..j][k] == ' ' || s[i..j][k] == 'U' || s[i..j][k] == 'S' || s[i..j][k] == 'C' {
      assert s[i..j][k] == s[i + k];
    }
  }

  /** A text made of digits and "USC" has no 'F' and no 'E', so the last three rules leave it alone. */
  lemma SettledInCodeAlphabet(s: string)
    requires CodeAlphabet(s)
    ensures Substitute(BareEoRule, Substitute(ExecutiveOrderRule, Substitute(CfrRule, s))) == s
  {
    assert 'F' !in s && 'E' !in s;
    SettledAfterUsCode(s);
  }

  /** The U.S. Code rule cannot start a match at `i` if no digit is there or a digit precedes it. */
  lemma NoCodeMatchAt(s: string, i: nat)
    requires i <= |s|
    requires i == |s| || !IsDigit(s[i]) || (0 < i && IsDigit(s[i - 1]))
    ensures MatchAt(UsCodeRule, s, i).None?
  {
  }

  /** A number that runs to the end of the text starts no U.S. Code match. */
  lemma TrailingNumberNoMatch(s: string, i: nat)
    requires i < |s| && DigitsIn(s, i, |s|)
    ensures MatchAt(UsCodeRule, s, i).None?
  {
    RunEndIs(s, i, |s|, IsDigit);
    RunEndIs(s, |s|, |s|, IsSpace);
  }

  /** The runs of "<digits>USC <digits>" at `i`, whose second digit run stops at `b`. */
  lemma GluedRuns(s: string, i: nat, a: nat, b: nat)
    requires i < a && a + 4 < b <= |s|
    requires DigitsIn(s, i, a) && s[a..a + 4] == "USC " && DigitsIn(s, a + 4, b)
    requires b == |s| || !IsDigit(s[b])
    ensures RunEnd(s, i, IsDigit) == a && RunEnd(s, a, IsSpace) == a
    ensures AbbreviationEnd(s, a, "U.S.C.", "USC") == Some(a + 3)
    ensures RunEnd(s, a + 3, IsSpace) == a + 4 && RunEnd(s, a + 4, IsDigit) == b
  {
    assert s[a] == s[a..a + 4][0] && s[a + 3] == s[a..a + 4][3];
    assert s[a..a + 3] == s[a..a + 4][..3];
    assert "USC "[..3] == "USC";
    RunEndIs(s, i, a, IsDigit);
    RunEndIs(s, a, a, IsSpace);
    AbbreviationEndIs(s, a, a + 3, "U.S.C.", "USC");
    RunEndIs(s, a + 3, a + 4, IsSpace);
    RunEndIs(s, a + 4, b, IsDigit);
  }

  /** On "<digits>USC <digits>" followed by a word boundary the U.S. Code rule matches. */
  lemma GluedUsCodeMatch(s: string, i: nat, a: nat, b: nat)
    requires i < a && a + 4 < b <= |s|
    requires BoundaryBefore(s, i) && BoundaryAfter(s, b)
    requires DigitsIn(s, i, a) && s[a..a + 4] == "USC " && DigitsIn(s, a + 4, b)
    ensures MatchAt(UsCodeRule, s, i) == Some(Hit(b, s[i..a] + " " + "USC" + " " + s[a + 4..b]))
  {
    GluedRuns(s, i, a, b);
    NumberedCodeFrom(s, i, a, a, a + 3, a + 4, b, "U.S.C.", "USC");
  }

  /** Without a word boundary after it, "<digits>USC <digits>" is not matched. */
  lemma GluedUsCodeBlocked(s: string, i: nat, a: nat, b: nat)
    requires i < a && a + 4 < b < |s|
    requires IsWordChar(s[b]) && !IsDigit(s[b])
    requires DigitsIn(s, i, a) && s[a..a + 4] == "USC " && DigitsIn(s, a + 4, b)
    ensures MatchAt(UsCodeRule, s, i).None?
  {
    GluedRuns(s, i, a, b);
  }

  /** A scan that finds nothing before `k` and then one match running to the end. */
  lemma {:induction false} ReplaceSkipThenHit(s: string, hits: seq<Option<Hit>>, k: nat, r: string)
    requires HitTable(s, hits) && k < |s|
    requires forall j :: 0 <= j < k ==> hits[j].None?
    requires hits[k] == Some(Hit(|s|, r))
    ensures ReplaceFrom(s, hits, 0) == s[..k] + r
  {
    ReplaceSkip(s, hits, 0, k);
    assert ReplaceFrom(s, hits, |s|) == "";
    assert ReplaceFrom(s, hits, k) == r + ReplaceFrom(s, hits, |s|);
    assert s[0..k] == s[..k];
  }

  /** A scan that matches at 0 up to `b` and finds nothing after. */
  lemma {:induction false} ReplaceHitThenSkip(s: string, hits: seq<Option<Hit>>, b: nat, r: string)
    requires HitTable(s, hits) && 0 < |s| && b <= |s|
    requires hits[0] == Some(Hit(b, r))
    requires forall j :: b <= j < |s| ==> hits[j].None?
    ensures ReplaceFrom(s, hits, 0) == r + s[b..]
  {
    ReplaceSkip(s, hits, b, |s|);
    assert ReplaceFrom(s, hits, |s|) == "";
    assert ReplaceFrom(s, hits, 0) == r + ReplaceFrom(s, hits, b);
    assert s[b..|s|] == s[b..];
  }

  /** What the U.S. Code rule finds in "<t>USC <n>USC<m>": nothing before `n`, then
      "<n>USC<m>" up to the end. */
  lemma FirstPassHits(s: string, a: nat, b: nat, c: nat)
    requires RunOnCitations(s, a, b, c)
    ensures forall j :: 0 <= j < a + 4 ==> MatchAt(UsCodeRule, s, j).None?
    ensures MatchAt(UsCodeRule, s, a + 4) == Some(Hit(|s|, s[a + 4..b] + " " + "USC" + " " + s[c..|s|]))
  {
    assert s[b] == s[b..b + 3][0] && s[a + 3] == s[a..a + 4][3];
    GluedUsCodeBlocked(s, 0, a, b);
    forall j | 0 < j < a + 4 ensures MatchAt(UsCodeRule, s, j).None? {
      if a <= j {
        assert s[j] == s[a..a + 4][j - a];
      }
      NoCodeMatchAt(s, j);
    }
    SecondCitationHit(s, a, b, c);
  }

  /** "<n>USC<m>" is, up to the end, a match of the U.S. Code rule's regular expression. */
  lemma SecondCitationHit(s: string, a: nat, b: nat, c: nat)
    requires RunOnCitations(s, a, b, c)
    ensures MatchAt(UsCodeRule, s, a + 4) == Some(Hit(|s|, s[a + 4..b] + " " + "USC" + " " + s[c..|s|]))
  {
    assert s[a + 3] == s[a..a + 4][3];
    assert IsDigit(s[a + 4]) && IsDigit(s[|s| - 1]);
    assert CodeParts(s, a + 4, b, b, b + 3, c, |s|, "U.S.C.", "USC");
    MatchAtComplete(UsCodeRule, s, a + 4, Hit(|s|, s[a + 4..b] + " " + "USC" + " " + s[c..|s|]));
  }

  /** The replacement `\1 USC \3`, with " USC " as one piece. */
  lemma UscSpelling(x: string, y: string)
    ensures x + " " + "USC" + " " + y == x + " USC " + y
  {
    assert " " + "USC" + " " == " USC ";
    ReplacementSpelling(x, "USC", y);
  }

  /** Replacing `s[b..c]` by `mid`, written as what comes before `k`, then the rest. */
  lemma SpliceAfter(s: string, k: nat, b: nat, c: nat, mid: string)
    requires k <= b <= c <= |s|
    ensures s[..k] + (s[k..b] + mid + s[c..|s|]) == s[..b] + mid + s[c..]
  {
    assert s[..k] + s[k..b] == s[..b];
    assert s[c..|s|] == s[c..];
  }

  /** The scan of the first pass, given what it finds. */
  lemma FirstPassScan(s: string, hits: seq<Option<Hit>>, a: nat, b: nat, c: nat)
    requires HitTable(s, hits) && a + 4 <= b <= c < |s|
    requires forall j :: 0 <= j < a + 4 ==> hits[j].None?
    requires hits[a + 4] == Some(Hit(|s|, s[a + 4..b] + " " + "USC" + " " + s[c..|s|]))
    ensures ReplaceFrom(s, hits, 0) == s[..b] + " USC " + s[c..]
  {
    SpliceAfter(s, a + 4, b, c, " USC ");
    UscSpelling(s[a + 4..b], s[c..|s|]);
    ReplaceSkipThenHit(s, hits, a + 4, s[a + 4..b] + " " + "USC" + " " + s[c..|s|]);
  }

  /** The first pass rewrites only the second citation. */
  lemma FirstPass(s: string, a: nat, b: nat, c: nat)
    requires RunOnCitations(s, a, b, c)
    ensures Substitute(UsCodeRule, s) == s[..b] + " USC " + s[c..]
  {
    FirstPassHits(s, a, b, c);
    FirstPassScan(s, Hits(UsCodeRule, s), a, b, c);
  }

  /** What the U.S. Code rule finds in "<t>USC <n> USC <m>": "<t>USC <n>" at 0 and nothing
      after it. */
  lemma SecondPassHits(s: string, a: nat, b: nat)
    requires HalfCleaned(s, a, b)
    ensures MatchAt(UsCodeRule, s, 0) == Some(Hit(b, s[0..a] + " " + "USC" + " " + s[a + 4..b]))
    ensures forall j :: b <= j < |s| ==> MatchAt(UsCodeRule, s, j).None?
  {
    assert s[b] == s[b..b + 5][0] && s[b + 4] == s[b..b + 5][4];
    GluedUsCodeMatch(s, 0, a, b);
    forall j | b <= j < |s| ensures MatchAt(UsCodeRule, s, j).None? {
      if j < b + 5 {
        assert s[j] == s[b..b + 5][j - b];
        NoCodeMatchAt(s, j);
      } else if j == b + 5 {
        TrailingNumberNoMatch(s, j);
      } else {
        NoCodeMatchAt(s, j);
      }
    }
  }

  /** The second pass rewrites the first citation, which a space now follows. */
  lemma SecondPass(s: string, a: nat, b: nat)
    requires HalfCleaned(s, a, b)
    ensures Substitute(UsCodeRule, s) == s[..a] + " USC " + s[a + 4..]
  {
    SecondPassHits(s, a, b);
    var r := s[0..a] + " " + "USC" + " " + s[a + 4..b];
    ReplaceHitThenSkip(s, Hits(UsCodeRule, s), b, r);
    UscSpelling(s[0..a], s[a + 4..b]);
    SpliceBefore(s, a, b);
  }

  lemma SpliceBefore(s: string, a: nat, b: nat)
    requires a + 4 <= b <= |s|
    ensures s[0..a] + " USC " + s[a + 4..b] + s[b..] == s[..a] + " USC " + s[a + 4..]
  {
    assert s[a + 4..b] + s[b..] == s[a + 4..];
    assert s[0..a] == s[..a];
  }

  /** After one pass the run-on text is laid out as "<t>USC <n> USC <m>". */
  lemma FirstPassLayout(s: string, a: nat, b: nat, c: nat)
    requires RunOnCitations(s, a, b, c)
    ensures HalfCleaned(s[..b] + " USC " + s[c..], a, b)
  {
    var once := s[..b] + " USC " + s[c..];
    assert once[..b] == s[..b];
    assert once[a..a + 4] == s[a..a + 4];
    assert once[b..b + 5] == " USC ";
    forall k | 0 <= k < b ensures once[k] == s[k] {
    }
    forall k | b + 5 <= k < |once| ensures IsDigit(once[k]) {
      assert once[k] == s[k - b - 5 + c];
    }
  }

  lemma HalfCleanedAlphabet(s: string, a: nat, b: nat)
    requires HalfCleaned(s, a, b)
    ensures CodeAlphabet(s)
  {
    forall k | 0 <= k < |s| ensures IsDigit(s[k]) || s[k] == ' ' || s[k] == 'U' || s[k] == 'S' || s[k] == 'C' {
      if a <= k < a + 4 {
        assert s[k] == s[a..a + 4][k - a];
      } else if b <= k < b + 5 {
        assert s[k] == s[b..b + 5][k - b];
      }
    }
  }

  /** Replacing a piece of a text in the alphabet of digits and "USC" by " USC " stays in it. */
  lemma SpliceAlphabet(s: string, i: nat, j: nat)
    requires CodeAlphabet(s) && i <= j <= |s|
    ensures CodeAlphabet(s[..i] + " USC " + s[j..])
  {
    CodeAlphabetSlice(s, 0, i);
    CodeAlphabetSlice(s, j, |s|);
    assert s[0..i] == s[..i] && s[j..|s|] == s[j..];
    CodeAlphabetJoin(s[..i], " USC ", s[j..]);
  }

  /** `clean_citation` on "<t>USC <n>USC<m>" rewrites only the second citation. */
  lemma CleanRunOn(s: string, a: nat, b: nat, c: nat)
    requires RunOnCitations(s, a, b, c)
    ensures CleanCitation(s) == s[..b] + " USC " + s[c..]
  {
    FirstPass(s, a, b, c);
    FirstPassLayout(s, a, b, c);
    HalfCleanedAlphabet(s[..b] + " USC " + s[c..], a, b);
    SettledInCodeAlphabet(s[..b] + " USC " + s[c..]);
  }

  /** `clean_citation` on "<t>USC <n> USC <m>" rewrites the first citation. */
  lemma CleanHalfCleaned(s: string, a: nat, b: nat)
    requires HalfCleaned(s, a, b)
    ensures CleanCitation(s) == s[..a] + " USC " + s[a + 4..]
  {
    SecondPass(s, a, b);
    HalfCleanedAlphabet(s, a, b);
    SpliceAlphabet(s, a, a + 4);
    SettledInCodeAlphabet(s[..a] + " USC " + s[a + 4..]);
  }

  /** Splicing " USC " in at `b`, then at `a`, in that order. */
  lemma SpliceTwice(s: string, a: nat, b: nat, c: nat)
    requires a + 4 <= b <= c <= |s|
    ensures var once := s[..b] + " USC " + s[c..];
      once[..a] + " USC " + once[a + 4..] == s[..a] + " USC " + s[a + 4..b] + " USC " + s[c..] &&
      |once[..a] + " USC " + once[a + 4..]| == |once| + 1
  {
    var once := s[..b] + " USC " + s[c..];
    assert once[..a] == s[..a];
    assert once[a + 4..] == s[a + 4..b] + " USC " + s[c..];
  }

  /** `clean_citation` on "<t>USC <n>USC<m>" gives "<t>USC <n> USC <m>", and cleaning that
      again gives "<t> USC <n> USC <m>": the two cleanings differ. */
  lemma CleanNotIdempotent(s: string, a: nat, b: nat, c: nat)
    requires RunOnCitations(s, a, b, c)
    ensures CleanCitation(s) == s[..b] + " USC " + s[c..]
    ensures CleanCitation(CleanCitation(s)) == s[..a] + " USC " + s[a + 4..b] + " USC " + s[c..]
    ensures CleanCitation(CleanCitation(s)) != CleanCitation(s)
  {
    var once := s[..b] + " USC " + s[c..];
    CleanRunOn(s, a, b, c);
    FirstPassLayout(s, a, b, c);
    CleanHalfCleaned(once, a, b);
    SpliceTwice(s, a, b, c);
  }

  /** "1USC 2USC3", a whole match of the extraction's citation pattern, is such a text, so
      `CleanNotIdempotent` applies to it; so is "1USC 2USC 3". */
  lemma RunOnExample()
    ensures RunOnCitations("1USC 2USC3", 1, 6, 9)
    ensures RunOnCitations("1USC 2USC 3", 1, 6, 10)
  {
  }
}
