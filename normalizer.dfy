/** `clean_citation`: four case-sensitive `re.sub` rewrites, applied in order, that turn
    U.S. Code, CFR and Executive Order shorthand into one canonical spelling.

    Each rewrite is modelled as the scan `re.sub` performs: at each index try the pattern;
    on a match emit the replacement and continue after the match, otherwise copy one
    character. Word boundaries are judged on the string being rewritten, never on the
    output. For every pattern the regex engine's backtracking cannot find a second match at
    the same index: each `\d+` and `\s*` run must be maximal because the next element of
    the pattern cannot start with a digit (resp. whitespace), and the alternatives of each
    alternation differ in their second or fifth character, so at most one of them applies. */
module Normalizer {
  import opened Wrappers
  import opened Text

  /** The four substitutions of `clean_citation`, in the order they run. */
  datatype Rule =
    | UsCodeRule          // \b(\d+)\s*(U\.S\.C\.|USC)\s*(\d+)\b  ->  \1 USC \3
    | CfrRule             // \b(\d+)\s*(C\.F\.R\.|CFR)\s*(\d+)\b  ->  \1 CFR \3
    | ExecutiveOrderRule  // \b(E\.O\.|Executive\s*Order|Exec\.? Order)\s*(\d+)\b  ->  Executive Order \2
    | BareEoRule          // \bEO\s+(\d+)\b  ->  Executive Order \1

  /** A match: the index just past it and the text that replaces it. */
  datatype Hit = Hit(end: nat, replacement: string)

  /** `\b` in front of a word character at `i`. */
  predicate BoundaryBefore(s: string, i: nat)
    requires i <= |s|
  {
    i == 0 || !IsWordChar(s[i - 1])
  }

  /** `\b` after a word character that ends at `e`. */
  predicate BoundaryAfter(s: string, e: nat)
    requires e <= |s|
  {
    e == |s| || !IsWordChar(s[e])
  }

  lemma DigitsSingleLine(d: string)
    requires AllDigits(d)
    ensures SingleLine(d) && SingleLine("Executive Order " + d)
  {
  }

  /** `\1 SHORT \3` is one line. */
  lemma NumberedReplacementSingleLine(x: string, short: string, y: string)
    requires AllDigits(x) && SingleLine(short) && AllDigits(y)
    ensures SingleLine(x + " " + short + " " + y)
  {
    var r := x + " " + short + " " + y;
    forall k | 0 <= k < |r| ensures !IsBreak(r[k]) {
      if k < |x| {
        assert r[k] == x[k];
      } else if k == |x| || k == |x| + 1 + |short| {
        assert r[k] == ' ';
      } else if k < |x| + 1 + |short| {
        assert r[k] == short[k - |x| - 1];
      } else {
        assert r[k] == y[k - |x| - 2 - |short|];
      }
    }
  }

  /** The alternation `(LONG|SHORT)` at `w`, LONG tried first. */
  function AbbreviationEnd(s: string, w: nat, long: string, short: string): (r: Option<nat>)
    ensures r.Some? ==> w < r.value <= |s|
    ensures r.Some? ==> OccursAt(s, long, w) || OccursAt(s, short, w)
  {
    if |long| > 0 && OccursAt(s, long, w) then Some(w + |long|)
    else if |short| > 0 && OccursAt(s, short, w) then Some(w + |short|)
    else None
  }

  /** `\b(\d+)\s*(LONG|SHORT)\s*(\d+)\b` at `i`, replaced by `\1 SHORT \3`. */
  function MatchNumberedCode(s: string, i: nat, long: string, short: string): (h: Option<Hit>)
    requires i <= |s|
    requires SingleLine(short)
    ensures h.Some? ==> i < h.value.end <= |s| && SingleLine(h.value.replacement)
  {
    if i < |s| && IsDigit(s[i]) && BoundaryBefore(s, i) then
      var a := RunEnd(s, i, IsDigit);
      var w := RunEnd(s, a, IsSpace);
      match AbbreviationEnd(s, w, long, short)
      case None => None
      case Some(m) =>
        var d := RunEnd(s, m, IsSpace);
        if d < |s| && IsDigit(s[d]) then
          var b := RunEnd(s, d, IsDigit);
          if BoundaryAfter(s, b) then
            var r := s[i..a] + " " + short + " " + s[d..b];
            DigitsInSlice(s, i, a);
            DigitsInSlice(s, d, b);
            NumberedReplacementSingleLine(s[i..a], short, s[d..b]);
            Some(Hit(b, r))
          else None
        else None
    else None
  }

  /** The alternation `E\.O\.|Executive\s*Order|Exec\.? Order` at `i`, tried in that order
      (`Exec\.? Order` tries the dot first). */
  function OrderWordsEnd(s: string, i: nat): (r: Option<nat>)
    ensures r.Some? ==> i < r.value <= |s|
    ensures r.Some? ==> i + 1 < |s| && s[i] == 'E' && (s[i + 1] == '.' || s[i + 1] == 'x')
  {
    if OccursAt(s, "E.O.", i) then
      assert s[i] == s[i..i + 4][0] == 'E' && s[i + 1] == s[i..i + 4][1] == '.';
      Some(i + 4)
    else
      var executive :=
        if OccursAt(s, "Executive", i) then
          var w := RunEnd(s, i + 9, IsSpace);
          if OccursAt(s, "Order", w) then Some(w + 5) else None
        else None;
      if executive.Some? then
        assert s[i] == s[i..i + 9][0] == 'E' && s[i + 1] == s[i..i + 9][1] == 'x';
        executive
      else if OccursAt(s, "Exec. Order", i) then
        assert s[i] == s[i..i + 11][0] == 'E' && s[i + 1] == s[i..i + 11][1] == 'x';
        Some(i + 11)
      else if OccursAt(s, "Exec Order", i) then
        assert s[i] == s[i..i + 10][0] == 'E' && s[i + 1] == s[i..i + 10][1] == 'x';
        Some(i + 10)
      else None
  }

  /** `\b(E\.O\.|Executive\s*Order|Exec\.? Order)\s*(\d+)\b` at `i`. */
  function MatchExecutiveOrder(s: string, i: nat): (h: Option<Hit>)
    requires i <= |s|
    ensures h.Some? ==> i < h.value.end <= |s| && SingleLine(h.value.replacement)
  {
    if BoundaryBefore(s, i) then
      match OrderWordsEnd(s, i)
      case None => None
      case Some(j) =>
        var d := RunEnd(s, j, IsSpace);
        if d < |s| && IsDigit(s[d]) then
          var b := RunEnd(s, d, IsDigit);
          if BoundaryAfter(s, b) then
            DigitsSingleLine(s[d..b]);
            Some(Hit(b, "Executive Order " + s[d..b]))
          else None
        else None
    else None
  }

  /** `\bEO\s+(\d+)\b` at `i`. */
  function MatchBareEo(s: string, i: nat): (h: Option<Hit>)
    requires i <= |s|
    ensures h.Some? ==> i < h.value.end <= |s| && SingleLine(h.value.replacement)
  {
    if OccursAt(s, "EO", i) && BoundaryBefore(s, i) then
      var d := RunEnd(s, i + 2, IsSpace);
      if i + 2 < d < |s| && IsDigit(s[d]) then
        var b := RunEnd(s, d, IsDigit);
        if BoundaryAfter(s, b) then
          DigitsSingleLine(s[d..b]);
          Some(Hit(b, "Executive Order " + s[d..b]))
        else None
      else None
    else None
  }

  /** The match of `rule` that starts at `i`, if any. */
  function MatchAt(rule: Rule, s: string, i: nat): (h: Option<Hit>)
    requires i <= |s|
    ensures h.Some? ==> i < h.value.end <= |s| && SingleLine(h.value.replacement)
  {
    match rule
    case UsCodeRule => MatchNumberedCode(s, i, "U.S.C.", "USC")
    case CfrRule => MatchNumberedCode(s, i, "C.F.R.", "CFR")
    case ExecutiveOrderRule => MatchExecutiveOrder(s, i)
    case BareEoRule => MatchBareEo(s, i)
  }

  /** The outcome of trying a pattern at every index `0..|s|` of `s`: each match ends
      past its start and inside `s`, and replaces what it covers by one line. */
  predicate HitTable(s: string, hits: seq<Option<Hit>>) {
    |hits| == |s| + 1 &&
    forall j :: 0 <= j < |hits| && hits[j].Some? ==>
      j < hits[j].value.end <= |s| && SingleLine(hits[j].value.replacement)
  }

  /** What `rule` matches at each index of `s`. */
  function Hits(rule: Rule, s: string): (hits: seq<Option<Hit>>)
    ensures HitTable(s, hits)
    ensures forall j :: 0 <= j <= |s| ==> hits[j] == MatchAt(rule, s, j)
  {
    seq(|s| + 1, j requires 0 <= j <= |s| => MatchAt(rule, s, j))
  }

  /** The scan `re.sub` performs over `s[i..]`, given the match at each index. A single-line
      string stays single-line. */
  function ReplaceFrom(s: string, hits: seq<Option<Hit>>, i: nat): (r: string)
    requires HitTable(s, hits) && i <= |s|
    ensures SingleLine(s) ==> SingleLine(r)
    decreases |s| - i
  {
    if i == |s| then ""
    else
      match hits[i]
      case Some(h) => h.replacement + ReplaceFrom(s, hits, h.end)
      case None => [s[i]] + ReplaceFrom(s, hits, i + 1)
  }

  /** `re.sub` of `rule` over `s`. */
  function Substitute(rule: Rule, s: string): (r: string)
    ensures SingleLine(s) ==> SingleLine(r)
  {
    ReplaceFrom(s, Hits(rule, s), 0)
  }

  /** `clean_citation(citation)`. */
  function CleanCitation(citation: string): (r: string)
    ensures SingleLine(citation) ==> SingleLine(r)
  {
    var usc := Substitute(UsCodeRule, citation);
    var cfr := Substitute(CfrRule, usc);
    var eo := Substitute(ExecutiveOrderRule, cfr);
    Substitute(BareEoRule, eo)
  }

  // ---------------------------------------------------------------------------------
  // What each pattern matches, stated as the regular expression reads

  /** `\b` at `k`: a word character on exactly one side of it. */
  predicate WordBoundary(s: string, k: nat)
    requires k <= |s|
  {
    (0 < k && IsWordChar(s[k - 1])) != (k < |s| && IsWordChar(s[k]))
  }

  /** `(\d+)\s*(LONG|SHORT)\s*(\d+)` spells `s[i..e]`: the title `s[i..a]`, whitespace, the
      abbreviation `s[w..m]`, whitespace and the section `s[d..e]`. */
  predicate CodeParts(s: string, i: nat, a: nat, w: nat, m: nat, d: nat, e: nat, long: string, short: string) {
    i < a <= w < m <= d < e <= |s| &&
    DigitsIn(s, i, a) && SpacesIn(s, a, w) && (s[w..m] == long || s[w..m] == short) &&
    SpacesIn(s, m, d) && DigitsIn(s, d, e)
  }

  /** `h` is a match of `\b(\d+)\s*(LONG|SHORT)\s*(\d+)\b` from `i`, with its replacement
      `\1 SHORT \3`. */
  ghost predicate CodeHit(s: string, i: nat, h: Hit, long: string, short: string) {
    i <= h.end <= |s| && WordBoundary(s, i) && WordBoundary(s, h.end) &&
    exists a: nat, w: nat, m: nat, d: nat :: CodeParts(s, i, a, w, m, d, h.end, long, short) &&
      h.replacement == s[i..a] + " " + short + " " + s[d..h.end]
  }

  /** `E\.O\.|Executive\s*Order|Exec\.? Order` spells `s[i..j]`. */
  predicate OrderWordsAt(s: string, i: nat, j: nat) {
    i <= j <= |s| &&
    (s[i..j] == "E.O." || s[i..j] == "Exec. Order" || s[i..j] == "Exec Order" ||
     (i + 14 <= j && s[i..i + 9] == "Executive" && SpacesIn(s, i + 9, j - 5) && s[j - 5..j] == "Order"))
  }

  /** `(E\.O\.|Executive\s*Order|Exec\.? Order)\s*(\d+)` spells `s[i..e]`, the number being
      `s[d..e]`. */
  predicate OrderParts(s: string, i: nat, j: nat, d: nat, e: nat) {
    i < j <= d < e <= |s| && OrderWordsAt(s, i, j) && SpacesIn(s, j, d) && DigitsIn(s, d, e)
  }

  /** `h` is a match of `\b(E\.O\.|Executive\s*Order|Exec\.? Order)\s*(\d+)\b` from `i`,
      with its replacement `Executive Order \2`. */
  ghost predicate OrderHit(s: string, i: nat, h: Hit) {
    i <= h.end <= |s| && WordBoundary(s, i) && WordBoundary(s, h.end) &&
    exists j: nat, d: nat :: OrderParts(s, i, j, d, h.end) && h.replacement == "Executive Order " + s[d..h.end]
  }

  /** `EO\s+(\d+)` spells `s[i..e]`, the number being `s[d..e]`. */
  predicate BareOrderParts(s: string, i: nat, d: nat, e: nat) {
    i + 2 < d < e <= |s| && s[i..i + 2] == "EO" && SpacesIn(s, i + 2, d) && DigitsIn(s, d, e)
  }

  /** `h` is a match of `\bEO\s+(\d+)\b` from `i`, with its replacement `Executive Order \1`. */
  ghost predicate BareOrderHit(s: string, i: nat, h: Hit) {
    i <= h.end <= |s| && WordBoundary(s, i) && WordBoundary(s, h.end) &&
    exists d: nat :: BareOrderParts(s, i, d, h.end) && h.replacement == "Executive Order " + s[d..h.end]
  }

  /** `h` is the match of `rule`'s pattern from `i`, with its replacement. */
  ghost predicate RuleHit(rule: Rule, s: string, i: nat, h: Hit) {
    match rule
    case UsCodeRule => CodeHit(s, i, h, "U.S.C.", "USC")
    case CfrRule => CodeHit(s, i, h, "C.F.R.", "CFR")
    case ExecutiveOrderRule => OrderHit(s, i, h)
    case BareEoRule => BareOrderHit(s, i, h)
  }

  /** The two spellings of an abbreviation: each starts with neither a digit nor whitespace,
      and they differ in their second character, so at most one of them occurs at an index. */
  predicate AbbreviationPair(long: string, short: string) {
    |long| > 1 && |short| > 1 && long[1] != short[1] && SingleLine(short) &&
    !IsDigit(long[0]) && !IsSpace(long[0]) && !IsDigit(short[0]) && !IsSpace(short[0])
  }

  /** The alternation finds the spelling that is there. */
  lemma AbbreviationEndIs(s: string, w: nat, m: nat, long: string, short: string)
    requires AbbreviationPair(long, short) && w <= m <= |s| && (s[w..m] == long || s[w..m] == short)
    ensures AbbreviationEnd(s, w, long, short) == Some(m)
    ensures w < |s| && !IsDigit(s[w]) && !IsSpace(s[w])
  {
    assert s[w] == s[w..m][0];
  }

  /** Every match the numbered-code scanner reports is a match of its regular expression. */
  lemma NumberedCodeSound(s: string, i: nat, long: string, short: string)
    requires i <= |s| && SingleLine(short) && MatchNumberedCode(s, i, long, short).Some?
    ensures CodeHit(s, i, MatchNumberedCode(s, i, long, short).value, long, short)
  {
    var h := MatchNumberedCode(s, i, long, short).value;
    var a := RunEnd(s, i, IsDigit);
    var w := RunEnd(s, a, IsSpace);
    var m := AbbreviationEnd(s, w, long, short).value;
    var d := RunEnd(s, m, IsSpace);
    if OccursAt(s, long, w) && |long| > 0 {
      assert s[w..m] == long;
    } else {
      assert s[w..m] == short;
    }
    assert CodeParts(s, i, a, w, m, d, h.end, long, short);
  }

  /** The scanner follows a title-abbreviation-section layout from `i` to `e`. */
  lemma NumberedCodeOfParts(s: string, i: nat, a: nat, w: nat, m: nat, d: nat, e: nat, long: string, short: string)
    requires AbbreviationPair(long, short) && CodeParts(s, i, a, w, m, d, e, long, short)
    requires WordBoundary(s, i) && WordBoundary(s, e)
    ensures MatchNumberedCode(s, i, long, short) == Some(Hit(e, s[i..a] + " " + short + " " + s[d..e]))
  {
    AbbreviationEndIs(s, w, m, long, short);
    if a < w {
      assert IsSpace(s[a]);
    }
    assert IsDigit(s[i]) && IsDigit(s[e - 1]) && IsDigit(s[d]);
    RunEndIs(s, i, a, IsDigit);
    RunEndIs(s, a, w, IsSpace);
    RunEndIs(s, m, d, IsSpace);
    RunEndIs(s, d, e, IsDigit);
    NumberedCodeFrom(s, i, a, w, m, d, e, long, short);
  }

  /** Every match of the numbered-code regular expression is what the scanner reports. */
  lemma NumberedCodeComplete(s: string, i: nat, h: Hit, long: string, short: string)
    requires AbbreviationPair(long, short) && CodeHit(s, i, h, long, short)
    ensures MatchNumberedCode(s, i, long, short) == Some(h)
  {
    var a: nat, w: nat, m: nat, d: nat :| CodeParts(s, i, a, w, m, d, h.end, long, short) &&
      h.replacement == s[i..a] + " " + short + " " + s[d..h.end];
    NumberedCodeOfParts(s, i, a, w, m, d, h.end, long, short);
  }

  /** The order words the scanner reports are one of the spellings the alternation accepts. */
  lemma OrderWordsEndSound(s: string, i: nat)
    requires OrderWordsEnd(s, i).Some?
    ensures OrderWordsAt(s, i, OrderWordsEnd(s, i).value)
  {
    var j := OrderWordsEnd(s, i).value;
    if !OccursAt(s, "E.O.", i) && OccursAt(s, "Executive", i) {
      var w := RunEnd(s, i + 9, IsSpace);
      if OccursAt(s, "Order", w) {
        assert j == w + 5;
        assert s[j - 5..j] == "Order";
      }
    }
  }

  /** Each accepted spelling of the order words is found, and ends where it ends. */
  lemma OrderWordsEndComplete(s: string, i: nat, j: nat)
    requires OrderWordsAt(s, i, j)
    ensures OrderWordsEnd(s, i) == Some(j)
    ensures s[i] == 'E'
  {
    assert s[i] == s[i..j][0];
    if s[i..j] == "E.O." {
    } else {
      assert s[i + 1] == s[i..j][1] == 'x';
      assert !OccursAt(s, "E.O.", i) by { if i + 4 <= |s| { assert s[i..i + 4][1] == s[i + 1]; } }
      if s[i..j] == "Exec. Order" || s[i..j] == "Exec Order" {
        assert !OccursAt(s, "Executive", i) by {
          if i + 9 <= |s| { assert s[i..i + 9][4] == s[i + 4] == s[i..j][4]; }
        }
        if s[i..j] == "Exec Order" {
          assert !OccursAt(s, "Exec. Order", i) by {
            if i + 11 <= |s| { assert s[i..i + 11][4] == s[i + 4] == s[i..j][4]; }
          }
        }
      } else {
        assert s[j - 5] == s[j - 5..j][0];
        RunEndIs(s, i + 9, j - 5, IsSpace);
      }
    }
  }

  /** Every match the executive-order scanner reports is a match of its regular expression. */
  lemma ExecutiveOrderSound(s: string, i: nat)
    requires i <= |s| && MatchExecutiveOrder(s, i).Some?
    ensures OrderHit(s, i, MatchExecutiveOrder(s, i).value)
  {
    var h := MatchExecutiveOrder(s, i).value;
    var j := OrderWordsEnd(s, i).value;
    OrderWordsEndSound(s, i);
    OrderWordsEndComplete(s, i, j);
    var d := RunEnd(s, j, IsSpace);
    assert OrderParts(s, i, j, d, h.end);
  }

  /** Every match of the executive-order regular expression is what the scanner reports. */
  lemma ExecutiveOrderComplete(s: string, i: nat, h: Hit)
    requires OrderHit(s, i, h)
    ensures MatchExecutiveOrder(s, i) == Some(h)
  {
    var j: nat, d: nat :| OrderParts(s, i, j, d, h.end) && h.replacement == "Executive Order " + s[d..h.end];
    OrderWordsEndComplete(s, i, j);
    RunEndIs(s, j, d, IsSpace);
    RunEndIs(s, d, h.end, IsDigit);
    assert IsDigit(s[h.end - 1]) && IsDigit(s[d]);
  }

  /** Every match the "EO" scanner reports is a match of its regular expression. */
  lemma BareEoSound(s: string, i: nat)
    requires i <= |s| && MatchBareEo(s, i).Some?
    ensures BareOrderHit(s, i, MatchBareEo(s, i).value)
  {
    var h := MatchBareEo(s, i).value;
    assert s[i] == s[i..i + 2][0] == 'E';
    var d := RunEnd(s, i + 2, IsSpace);
    assert BareOrderParts(s, i, d, h.end);
  }

  /** Every match of the "EO" regular expression is what the scanner reports. */
  lemma BareEoComplete(s: string, i: nat, h: Hit)
    requires BareOrderHit(s, i, h)
    ensures MatchBareEo(s, i) == Some(h)
  {
    var d: nat :| BareOrderParts(s, i, d, h.end) && h.replacement == "Executive Order " + s[d..h.end];
    assert s[i] == s[i..i + 2][0] == 'E';
    RunEndIs(s, i + 2, d, IsSpace);
    RunEndIs(s, d, h.end, IsDigit);
    assert IsDigit(s[h.end - 1]) && IsDigit(s[d]);
  }

  /** Every match a scanner reports is a match of its rule's regular expression. */
  lemma MatchAtSound(rule: Rule, s: string, i: nat)
    requires i <= |s| && MatchAt(rule, s, i).Some?
    ensures RuleHit(rule, s, i, MatchAt(rule, s, i).value)
  {
    match rule
    case UsCodeRule => NumberedCodeSound(s, i, "U.S.C.", "USC");
    case CfrRule => NumberedCodeSound(s, i, "C.F.R.", "CFR");
    case ExecutiveOrderRule => ExecutiveOrderSound(s, i);
    case BareEoRule => BareEoSound(s, i);
  }

  /** Every match of a rule's regular expression is what its scanner reports. */
  lemma MatchAtComplete(rule: Rule, s: string, i: nat, h: Hit)
    requires RuleHit(rule, s, i, h)
    ensures i <= |s| && MatchAt(rule, s, i) == Some(h)
  {
    match rule
    case UsCodeRule => NumberedCodeComplete(s, i, h, "U.S.C.", "USC");
    case CfrRule => NumberedCodeComplete(s, i, h, "C.F.R.", "CFR");
    case ExecutiveOrderRule => ExecutiveOrderComplete(s, i, h);
    case BareEoRule => BareEoComplete(s, i, h);
  }

  /** The scanner of each rule reports a match at `i` exactly when the rule's regular
      expression matches there, and reports that match and its replacement. */
  lemma MatchAtIff(rule: Rule, s: string, i: nat, h: Hit)
    requires i <= |s|
    ensures MatchAt(rule, s, i) == Some(h) <==> RuleHit(rule, s, i, h)
  {
    if MatchAt(rule, s, i) == Some(h) {
      MatchAtSound(rule, s, i);
    }
    if RuleHit(rule, s, i, h) {
      MatchAtComplete(rule, s, i, h);
    }
  }

  /** The regular expression of `rule` matches nowhere in `s`. */
  ghost predicate NoMatch(rule: Rule, s: string) {
    forall i: nat, h: Hit :: i <= |s| ==> !RuleHit(rule, s, i, h)
  }

  /** The scanner finds nothing exactly when the regular expression matches nowhere. */
  lemma IdleIff(rule: Rule, s: string)
    ensures Idle(rule, s) <==> NoMatch(rule, s)
  {
    forall i: nat, h: Hit | i <= |s| ensures MatchAt(rule, s, i) == Some(h) <==> RuleHit(rule, s, i, h) {
      MatchAtIff(rule, s, i, h);
    }
    if !Idle(rule, s) {
      var j :| 0 <= j <= |s| && MatchAt(rule, s, j).Some?;
      assert RuleHit(rule, s, j, MatchAt(rule, s, j).value);
    }
  }

  // ---------------------------------------------------------------------------------
  // Where the rules do not apply

  /** `rule` matches nowhere in `s`. */
  predicate Idle(rule: Rule, s: string) {
    forall j :: 0 <= j <= |s| ==> MatchAt(rule, s, j).None?
  }

  /** Indices where nothing matches are copied through unchanged. */
  lemma {:induction false} ReplaceSkip(s: string, hits: seq<Option<Hit>>, i: nat, k: nat)
    requires HitTable(s, hits) && i <= k <= |s|
    requires forall j :: i <= j < k ==> hits[j].None?
    ensures ReplaceFrom(s, hits, i) == s[i..k] + ReplaceFrom(s, hits, k)
    decreases k - i
  {
    if i < k {
      assert hits[i].None?;
      ReplaceSkip(s, hits, i + 1, k);
      ReplaceSkipStep(s, hits, i, k);
    }
  }

  /** The step of `ReplaceSkip` over one index where nothing matches. */
  lemma ReplaceSkipStep(s: string, hits: seq<Option<Hit>>, i: nat, k: nat)
    requires HitTable(s, hits) && i < k <= |s| && hits[i].None?
    requires ReplaceFrom(s, hits, i + 1) == s[i + 1..k] + ReplaceFrom(s, hits, k)
    ensures ReplaceFrom(s, hits, i) == s[i..k] + ReplaceFrom(s, hits, k)
  {
    assert ReplaceFrom(s, hits, i) == [s[i]] + ReplaceFrom(s, hits, i + 1);
    assert s[i..k] == [s[i]] + s[i + 1..k];
  }

  /** A rule that matches nowhere leaves the string as it is. */
  lemma SubstituteIdle(rule: Rule, s: string)
    requires Idle(rule, s)
    ensures Substitute(rule, s) == s
  {
    ReplaceSkip(s, Hits(rule, s), 0, |s|);
  }

  /** The upper-case letter each rule cannot match without: the patterns are case-sensitive. */
  function KeyLetter(rule: Rule): char {
    match rule
    case UsCodeRule => 'U'
    case CfrRule => 'F'
    case ExecutiveOrderRule => 'E'
    case BareEoRule => 'E'
  }

  lemma LetterOfOccurrence(s: string, needle: string, w: nat, k: nat)
    requires OccursAt(s, needle, w) && k < |needle|
    ensures needle[k] in s
  {
    assert s[w + k] == s[w..w + |needle|][k];
  }

  /** A match of `\b(\d+)\s*(LONG|SHORT)\s*(\d+)\b` starts with a digit and holds one of the
      two spellings after the first run of whitespace. */
  lemma NumberedCodeNeeds(s: string, i: nat, long: string, short: string)
    requires i <= |s| && SingleLine(short) && MatchNumberedCode(s, i, long, short).Some?
    ensures i < |s| && IsDigit(s[i])
    ensures var w := RunEnd(s, RunEnd(s, i, IsDigit), IsSpace);
      OccursAt(s, long, w) || OccursAt(s, short, w)
  {
  }

  /** A match of the order rules starts with 'E', then '.' or 'x' (rule 3) or 'O' (rule 4),
      and holds a digit. */
  lemma OrderNeeds(rule: Rule, s: string, i: nat)
    requires rule == ExecutiveOrderRule || rule == BareEoRule
    requires i <= |s| && MatchAt(rule, s, i).Some?
    ensures i + 1 < |s| && s[i] == 'E'
    ensures rule == ExecutiveOrderRule ==> s[i + 1] == '.' || s[i + 1] == 'x'
    ensures rule == BareEoRule ==> s[i + 1] == 'O'
    ensures exists k :: i <= k < |s| && IsDigit(s[k])
  {
    if rule == ExecutiveOrderRule {
      var d := RunEnd(s, OrderWordsEnd(s, i).value, IsSpace);
      assert IsDigit(s[d]);
    } else {
      assert s[i..i + 2] == "EO";
      assert s[i] == s[i..i + 2][0] && s[i + 1] == s[i..i + 2][1];
      var d := RunEnd(s, i + 2, IsSpace);
      assert IsDigit(s[d]);
    }
  }

  /** A match of a numbered-code rule holds every letter that both spellings hold. */
  lemma NumberedCodeLetter(s: string, i: nat, long: string, short: string, kl: nat, ks: nat)
    requires i <= |s| && SingleLine(short) && MatchNumberedCode(s, i, long, short).Some?
    requires kl < |long| && ks < |short| && long[kl] == short[ks]
    ensures long[kl] in s
  {
    NumberedCodeNeeds(s, i, long, short);
    var w := RunEnd(s, RunEnd(s, i, IsDigit), IsSpace);
    if OccursAt(s, long, w) {
      LetterOfOccurrence(s, long, w, kl);
    } else {
      LetterOfOccurrence(s, short, w, ks);
    }
  }

  /** No rule matches where its key letter is missing. */
  lemma MatchNeedsKeyLetter(rule: Rule, s: string, i: nat)
    requires i <= |s| && MatchAt(rule, s, i).Some?
    ensures KeyLetter(rule) in s
  {
    match rule
    case UsCodeRule =>
      NumberedCodeLetter(s, i, "U.S.C.", "USC", 0, 0);
    case CfrRule =>
      NumberedCodeLetter(s, i, "C.F.R.", "CFR", 2, 1);
    case ExecutiveOrderRule =>
      OrderNeeds(rule, s, i);
      assert s[i] in s;
    case BareEoRule =>
      OrderNeeds(rule, s, i);
      assert s[i] in s;
  }

  /** No rule matches a text without a digit. */
  lemma MatchNeedsDigit(rule: Rule, s: string, i: nat)
    requires i <= |s| && MatchAt(rule, s, i).Some?
    ensures exists k :: 0 <= k < |s| && IsDigit(s[k])
  {
    match rule
    case UsCodeRule =>
      NumberedCodeNeeds(s, i, "U.S.C.", "USC");
    case CfrRule =>
      NumberedCodeNeeds(s, i, "C.F.R.", "CFR");
    case ExecutiveOrderRule =>
      OrderNeeds(rule, s, i);
    case BareEoRule =>
      OrderNeeds(rule, s, i);
  }

  lemma IdleWithoutKeyLetter(rule: Rule, s: string)
    requires KeyLetter(rule) !in s
    ensures Idle(rule, s)
  {
    forall j | 0 <= j <= |s| ensures MatchAt(rule, s, j).None? {
      if MatchAt(rule, s, j).Some? {
        MatchNeedsKeyLetter(rule, s, j);
      }
    }
  }

  lemma IdleWithoutDigits(rule: Rule, s: string)
    requires forall k :: 0 <= k < |s| ==> !IsDigit(s[k])
    ensures Idle(rule, s)
  {
    forall j | 0 <= j <= |s| ensures MatchAt(rule, s, j).None? {
      if MatchAt(rule, s, j).Some? {
        MatchNeedsDigit(rule, s, j);
      }
    }
  }

  /** A citation whose four scanners find nothing is returned unchanged. */
  lemma {:induction false} CleanAllIdle(s: string)
    requires Idle(UsCodeRule, s) && Idle(CfrRule, s) && Idle(ExecutiveOrderRule, s) && Idle(BareEoRule, s)
    ensures CleanCitation(s) == s
  {
    SubstituteIdle(UsCodeRule, s);
    SubstituteIdle(CfrRule, s);
    SubstituteIdle(ExecutiveOrderRule, s);
    SubstituteIdle(BareEoRule, s);
  }

  /** A citation that none of the four regular expressions matches anywhere is returned
      unchanged. */
  lemma CleanPassThrough(s: string)
    requires NoMatch(UsCodeRule, s) && NoMatch(CfrRule, s) && NoMatch(ExecutiveOrderRule, s) && NoMatch(BareEoRule, s)
    ensures CleanCitation(s) == s
  {
    IdleIff(UsCodeRule, s);
    IdleIff(CfrRule, s);
    IdleIff(ExecutiveOrderRule, s);
    IdleIff(BareEoRule, s);
    CleanAllIdle(s);
  }

  /** Case-sensitivity: a text without the upper-case letters 'U', 'F' and 'E' is left as it is. */
  lemma CleanWithoutLetters(s: string)
    requires 'U' !in s && 'F' !in s && 'E' !in s
    ensures CleanCitation(s) == s
  {
    IdleWithoutKeyLetter(UsCodeRule, s);
    IdleWithoutKeyLetter(CfrRule, s);
    IdleWithoutKeyLetter(ExecutiveOrderRule, s);
    IdleWithoutKeyLetter(BareEoRule, s);
    CleanAllIdle(s);
  }

  /** Every pattern needs a number: a text without a digit is left as it is. */
  lemma CleanWithoutDigits(s: string)
    requires forall k :: 0 <= k < |s| ==> !IsDigit(s[k])
    ensures CleanCitation(s) == s
  {
    IdleWithoutDigits(UsCodeRule, s);
    IdleWithoutDigits(CfrRule, s);
    IdleWithoutDigits(ExecutiveOrderRule, s);
    IdleWithoutDigits(BareEoRule, s);
    CleanAllIdle(s);
  }

  // ---------------------------------------------------------------------------------
  // Where the rules do apply: one citation written in shorthand

  /** Where the parts of one citation written in shorthand lie in its text. */
  datatype Shorthand =
    | UsCodeShorthand(a: nat, w: nat, m: nat, d: nat)  // title s[..a], abbreviation s[w..m], section s[d..]
    | CfrShorthand(a: nat, w: nat, m: nat, d: nat)     // the same, for the Code of Federal Regulations
    | OrderShorthand(j: nat, d: nat)                   // order words s[..j], number s[d..]
    | BareOrderShorthand(d: nat)                       // "EO", number s[d..]

  /** A title number, whitespace, an abbreviation, whitespace and a section number. */
  predicate CodeLayout(s: string, a: nat, w: nat, m: nat, d: nat) {
    0 < a <= w < m <= d < |s| &&
    DigitsIn(s, 0, a) && SpacesIn(s, a, w) && SpacesIn(s, m, d) && DigitsIn(s, d, |s|)
  }

  /** `s[..j]` is one of the spellings `E\.O\.|Executive\s*Order|Exec\.? Order` accepts. */
  predicate OrderWords(s: string, j: nat) {
    j <= |s| &&
    (s[..j] == "E.O." || s[..j] == "Exec. Order" || s[..j] == "Exec Order" ||
     (14 <= j && s[..9] == "Executive" && SpacesIn(s, 9, j - 5) && s[j - 5..j] == "Order"))
  }

  /** `s` is, as a whole, one citation laid out as `c` says. */
  predicate Spells(s: string, c: Shorthand) {
    match c
    case UsCodeShorthand(a, w, m, d) => CodeLayout(s, a, w, m, d) && (s[w..m] == "U.S.C." || s[w..m] == "USC")
    case CfrShorthand(a, w, m, d) => CodeLayout(s, a, w, m, d) && (s[w..m] == "C.F.R." || s[w..m] == "CFR")
    case OrderShorthand(j, d) => 0 < j <= d < |s| && OrderWords(s, j) && SpacesIn(s, j, d) && DigitsIn(s, d, |s|)
    case BareOrderShorthand(d) => 2 < d < |s| && s[..2] == "EO" && SpacesIn(s, 2, d) && DigitsIn(s, d, |s|)
  }

  /** The canonical spelling: "<title> USC <section>", "<title> CFR <section>" or
      "Executive Order <number>". */
  function Canonical(s: string, c: Shorthand): string
    requires Spells(s, c)
  {
    match c
    case UsCodeShorthand(a, _, _, d) => s[..a] + " USC " + s[d..]
    case CfrShorthand(a, _, _, d) => s[..a] + " CFR " + s[d..]
    case OrderShorthand(_, d) => "Executive Order " + s[d..]
    case BareOrderShorthand(d) => "Executive Order " + s[d..]
  }

  /** Where the parts of the canonical spelling lie. */
  function CanonicalLayout(s: string, c: Shorthand): Shorthand
    requires Spells(s, c)
  {
    match c
    case UsCodeShorthand(a, _, _, _) => UsCodeShorthand(a, a + 1, a + 4, a + 5)
    case CfrShorthand(a, _, _, _) => CfrShorthand(a, a + 1, a + 4, a + 5)
    case OrderShorthand(_, _) => OrderShorthand(15, 16)
    case BareOrderShorthand(_) => OrderShorthand(15, 16)
  }

  /** A rule whose match covers the whole text replaces the whole text. */
  lemma SubstituteWhole(rule: Rule, s: string, replacement: string)
    requires |s| > 0 && MatchAt(rule, s, 0) == Some(Hit(|s|, replacement))
    ensures Substitute(rule, s) == replacement
  {
    var hits := Hits(rule, s);
    assert ReplaceFrom(s, hits, |s|) == "";
    assert ReplaceFrom(s, hits, 0) == replacement + ReplaceFrom(s, hits, |s|);
  }

  /** The match of `\b(\d+)\s*(LONG|SHORT)\s*(\d+)\b` at 0, once its runs are known. */
  lemma NumberedCodeAt(s: string, a: nat, w: nat, m: nat, d: nat, long: string, short: string,
                       title: string, number: string)
    requires 0 < a <= w < m <= d < |s| && SingleLine(short)
    requires s[0..a] == title && s[d..|s|] == number
    requires IsDigit(s[0]) && RunEnd(s, 0, IsDigit) == a && RunEnd(s, a, IsSpace) == w
    requires AbbreviationEnd(s, w, long, short) == Some(m)
    requires RunEnd(s, m, IsSpace) == d && IsDigit(s[d]) && RunEnd(s, d, IsDigit) == |s|
    ensures MatchNumberedCode(s, 0, long, short) == Some(Hit(|s|, title + " " + short + " " + number))
  {
  }

  /** The match of `\b(\d+)\s*(LONG|SHORT)\s*(\d+)\b` at `i`, once its runs are known: the
      title `s[i..a]`, the abbreviation `s[w..m]` and the section `s[d..b]`. */
  lemma NumberedCodeFrom(s: string, i: nat, a: nat, w: nat, m: nat, d: nat, b: nat, long: string, short: string)
    requires i < a <= w < m <= d < b <= |s| && SingleLine(short)
    requires IsDigit(s[i]) && BoundaryBefore(s, i)
    requires RunEnd(s, i, IsDigit) == a && RunEnd(s, a, IsSpace) == w
    requires AbbreviationEnd(s, w, long, short) == Some(m)
    requires RunEnd(s, m, IsSpace) == d && IsDigit(s[d]) && RunEnd(s, d, IsDigit) == b
    ensures MatchNumberedCode(s, i, long, short) ==
      if BoundaryAfter(s, b) then Some(Hit(b, s[i..a] + " " + short + " " + s[d..b])) else None
  {
  }

  /** `\b(\d+)\s*(LONG|SHORT)\s*(\d+)\b` matches the whole of a title-abbreviation-section text. */
  lemma NumberedCodeWhole(s: string, a: nat, w: nat, m: nat, d: nat, long: string, short: string)
    requires CodeLayout(s, a, w, m, d) && SingleLine(short)
    requires !IsSpace(s[w]) && !IsDigit(s[w])
    requires AbbreviationEnd(s, w, long, short) == Some(m)
    ensures MatchNumberedCode(s, 0, long, short) == Some(Hit(|s|, s[..a] + " " + short + " " + s[d..]))
  {
    RunEndIs(s, 0, a, IsDigit);
    RunEndIs(s, a, w, IsSpace);
    RunEndIs(s, m, d, IsSpace);
    RunEndIs(s, d, |s|, IsDigit);
    assert s[0..a] == s[..a] && s[d..|s|] == s[d..];
    NumberedCodeAt(s, a, w, m, d, long, short, s[..a], s[d..]);
  }

  /** A letter that is not in the abbreviation is nowhere in a title-abbreviation-section text. */
  lemma NotInCodeLayout(s: string, a: nat, w: nat, m: nat, d: nat, ch: char)
    requires CodeLayout(s, a, w, m, d)
    requires !IsDigit(ch) && !IsSpace(ch) && ch !in s[w..m]
    ensures ch !in s
  {
    forall k | 0 <= k < |s| ensures s[k] != ch {
      if w <= k < m {
        assert s[k] == s[w..m][k - w];
      }
    }
  }

  /** A letter that is not in `mid` is nowhere in "<title><mid><section>" built from the digits
      of `s`. */
  lemma NotInCanonicalCode(s: string, a: nat, d: nat, mid: string, ch: char)
    requires a <= d <= |s| && DigitsIn(s, 0, a) && DigitsIn(s, d, |s|)
    requires !IsDigit(ch) && ch !in mid
    ensures ch !in s[..a] + mid + s[d..]
  {
    var c := s[..a] + mid + s[d..];
    forall k | 0 <= k < |c| ensures c[k] != ch {
      if k < a {
        assert c[k] == s[k];
      } else if k >= a + |mid| {
        assert c[k] == s[d + k - a - |mid|];
      } else {
        assert c[k] == mid[k - a];
      }
    }
  }

  /** The replacement `\1 SHORT \3`, spelled as one piece in the middle. */
  lemma ReplacementSpelling(title: string, short: string, number: string)
    ensures title + " " + short + " " + number == title + (" " + short + " ") + number
  {
  }

  /** Once a U.S. Code citation is canonical, the remaining three rules leave it alone. */
  lemma SettledAfterUsCode(c: string)
    requires 'F' !in c && 'E' !in c
    ensures Substitute(BareEoRule, Substitute(ExecutiveOrderRule, Substitute(CfrRule, c))) == c
  {
    IdleWithoutKeyLetter(CfrRule, c);
    SubstituteIdle(CfrRule, c);
    SettledAfterCfr(c);
  }

  /** Once a CFR citation is canonical, the two order rules leave it alone. */
  lemma SettledAfterCfr(c: string)
    requires 'E' !in c
    ensures Substitute(BareEoRule, Substitute(ExecutiveOrderRule, c)) == c
  {
    IdleWithoutKeyLetter(ExecutiveOrderRule, c);
    SubstituteIdle(ExecutiveOrderRule, c);
    IdleWithoutKeyLetter(BareEoRule, c);
    SubstituteIdle(BareEoRule, c);
  }

  /** The U.S. Code rule rewrites the whole of a U.S. Code citation in shorthand. */
  lemma UsCodeRuleRewrites(s: string, a: nat, w: nat, m: nat, d: nat)
    requires Spells(s, UsCodeShorthand(a, w, m, d))
    ensures Substitute(UsCodeRule, s) == s[..a] + " USC " + s[d..]
  {
    AbbreviationEndIs(s, w, m, "U.S.C.", "USC");
    NumberedCodeWhole(s, a, w, m, d, "U.S.C.", "USC");
    ReplacementSpelling(s[..a], "USC", s[d..]);
    assert " " + "USC" + " " == " USC ";
    SubstituteWhole(UsCodeRule, s, s[..a] + " USC " + s[d..]);
  }

  /** The CFR rule rewrites the whole of a CFR citation in shorthand. */
  lemma CfrRuleRewrites(s: string, a: nat, w: nat, m: nat, d: nat)
    requires Spells(s, CfrShorthand(a, w, m, d))
    ensures Substitute(CfrRule, s) == s[..a] + " CFR " + s[d..]
  {
    AbbreviationEndIs(s, w, m, "C.F.R.", "CFR");
    NumberedCodeWhole(s, a, w, m, d, "C.F.R.", "CFR");
    ReplacementSpelling(s[..a], "CFR", s[d..]);
    assert " " + "CFR" + " " == " CFR ";
    SubstituteWhole(CfrRule, s, s[..a] + " CFR " + s[d..]);
  }

  /** `clean_citation` on a U.S. Code citation in shorthand: "<title> USC <section>". */
  lemma CleanUsCode(s: string, a: nat, w: nat, m: nat, d: nat)
    requires Spells(s, UsCodeShorthand(a, w, m, d))
    ensures CleanCitation(s) == s[..a] + " USC " + s[d..]
  {
    var c := s[..a] + " USC " + s[d..];
    UsCodeRuleRewrites(s, a, w, m, d);
    NotInCanonicalCode(s, a, d, " USC ", 'F');
    NotInCanonicalCode(s, a, d, " USC ", 'E');
    SettledAfterUsCode(c);
  }

  /** `clean_citation` on a CFR citation in shorthand: "<title> CFR <section>". */
  lemma CleanCfr(s: string, a: nat, w: nat, m: nat, d: nat)
    requires Spells(s, CfrShorthand(a, w, m, d))
    ensures CleanCitation(s) == s[..a] + " CFR " + s[d..]
  {
    var c := s[..a] + " CFR " + s[d..];
    NotInCodeLayout(s, a, w, m, d, 'U');
    IdleWithoutKeyLetter(UsCodeRule, s);
    SubstituteIdle(UsCodeRule, s);
    CfrRuleRewrites(s, a, w, m, d);
    NotInCanonicalCode(s, a, d, " CFR ", 'E');
    SettledAfterCfr(c);
  }

  /** The order words at the start of `s` are what `E\.O\.|Executive\s*Order|Exec\.? Order` finds. */
  lemma OrderWordsEndAt(s: string, j: nat)
    requires OrderWords(s, j)
    ensures OrderWordsEnd(s, 0) == Some(j)
  {
    if s[..j] == "E.O." {
      assert s[0..4] == s[..j];
    } else {
      assert s[1] == s[..j][1] == 'x';
      assert !OccursAt(s, "E.O.", 0) by { if 4 <= |s| { assert s[0..4][1] == s[1]; } }
      if s[..j] == "Exec. Order" || s[..j] == "Exec Order" {
        assert !OccursAt(s, "Executive", 0) by {
          if 9 <= |s| { assert s[0..9][4] == s[4] == s[..j][4]; }
        }
        if s[..j] == "Exec. Order" {
          assert s[0..11] == s[..j];
        } else {
          assert !OccursAt(s, "Exec. Order", 0) by {
            if 11 <= |s| { assert s[0..11][4] == s[4] == s[..j][4]; }
          }
          assert s[0..10] == s[..j];
        }
      } else {
        assert s[0..9] == s[..9];
        assert s[j - 5] == s[j - 5..j][0];
        RunEndIs(s, 9, j - 5, IsSpace);
      }
    }
  }

  /** No 'U' and no 'F' in a citation of an executive order. */
  lemma NotInOrder(s: string, j: nat, d: nat, ch: char)
    requires Spells(s, OrderShorthand(j, d)) && (ch == 'U' || ch == 'F')
    ensures ch !in s
  {
    forall k | 0 <= k < |s| ensures s[k] != ch {
      if k < j {
        if s[..j] == "E.O." || s[..j] == "Exec. Order" || s[..j] == "Exec Order" {
          assert s[k] == s[..j][k];
        } else if k < 9 {
          assert s[k] == s[..9][k];
        } else if k >= j - 5 {
          assert s[k] == s[j - 5..j][k - (j - 5)];
        }
      }
    }
  }

  /** No 'U' and no 'F' in "EO <number>". */
  lemma NotInBareOrder(s: string, d: nat, ch: char)
    requires Spells(s, BareOrderShorthand(d)) && (ch == 'U' || ch == 'F')
    ensures ch !in s
  {
    forall k | 0 <= k < |s| ensures s[k] != ch {
      if k < 2 {
        assert s[k] == s[..2][k];
      }
    }
  }

  /** Rule 3 needs an 'E' followed by '.' or 'x'. */
  lemma ExecutiveOrderRuleIdle(s: string)
    requires forall j :: 0 <= j < |s| - 1 ==> !(s[j] == 'E' && (s[j + 1] == '.' || s[j + 1] == 'x'))
    ensures Idle(ExecutiveOrderRule, s)
  {
    forall j | 0 <= j <= |s| ensures MatchAt(ExecutiveOrderRule, s, j).None? {
      if MatchAt(ExecutiveOrderRule, s, j).Some? {
        OrderNeeds(ExecutiveOrderRule, s, j);
      }
    }
  }

  /** Rule 4 needs an 'E' followed by 'O'. */
  lemma BareEoRuleIdle(s: string)
    requires forall j :: 0 <= j < |s| - 1 ==> !(s[j] == 'E' && s[j + 1] == 'O')
    ensures Idle(BareEoRule, s)
  {
    forall j | 0 <= j <= |s| ensures MatchAt(BareEoRule, s, j).None? {
      if MatchAt(BareEoRule, s, j).Some? {
        OrderNeeds(BareEoRule, s, j);
      }
    }
  }

  /** Rule 3 rewrites the whole of an executive order citation. */
  lemma OrderRuleRewrites(s: string, j: nat, d: nat)
    requires Spells(s, OrderShorthand(j, d))
    ensures Substitute(ExecutiveOrderRule, s) == "Executive Order " + s[d..]
  {
    OrderWordsEndAt(s, j);
    RunEndIs(s, j, d, IsSpace);
    RunEndIs(s, d, |s|, IsDigit);
    assert s[d..|s|] == s[d..];
    assert BoundaryBefore(s, 0) && BoundaryAfter(s, |s|) && IsDigit(s[d]);
    assert MatchExecutiveOrder(s, 0) == Some(Hit(|s|, "Executive Order " + s[d..]));
    SubstituteWhole(ExecutiveOrderRule, s, "Executive Order " + s[d..]);
  }

  /** Rule 4 rewrites the whole of "EO <number>". */
  lemma BareOrderRuleRewrites(s: string, d: nat)
    requires Spells(s, BareOrderShorthand(d))
    ensures Substitute(BareEoRule, s) == "Executive Order " + s[d..]
  {
    assert s[0..2] == s[..2];
    assert OccursAt(s, "EO", 0) && BoundaryBefore(s, 0);
    RunEndIs(s, 2, d, IsSpace);
    RunEndIs(s, d, |s|, IsDigit);
    assert s[d..|s|] == s[d..];
    assert BoundaryAfter(s, |s|) && IsDigit(s[d]) && 2 < d < |s|;
    assert RunEnd(s, 2, IsSpace) == d && RunEnd(s, d, IsDigit) == |s|;
    assert MatchBareEo(s, 0) == Some(Hit(|s|, "Executive Order " + s[d..]));
    SubstituteWhole(BareEoRule, s, "Executive Order " + s[d..]);
  }

  /** "Executive Order <number>" holds no "EO", so rule 4 leaves it alone. */
  lemma SettledAfterOrder(s: string, d: nat)
    requires d <= |s| && DigitsIn(s, d, |s|)
    ensures Substitute(BareEoRule, "Executive Order " + s[d..]) == "Executive Order " + s[d..]
  {
    var c := "Executive Order " + s[d..];
    forall j | 0 <= j < |c| - 1 ensures !(c[j] == 'E' && c[j + 1] == 'O') {
      if j >= 16 {
        assert c[j] == s[d + j - 16];
      }
    }
    BareEoRuleIdle(c);
    SubstituteIdle(BareEoRule, c);
  }

  /** `clean_citation` on an executive order citation: "Executive Order <number>". */
  lemma CleanOrder(s: string, j: nat, d: nat)
    requires Spells(s, OrderShorthand(j, d))
    ensures CleanCitation(s) == "Executive Order " + s[d..]
  {
    NotInOrder(s, j, d, 'U');
    NotInOrder(s, j, d, 'F');
    IdleWithoutKeyLetter(UsCodeRule, s);
    IdleWithoutKeyLetter(CfrRule, s);
    SubstituteIdle(UsCodeRule, s);
    SubstituteIdle(CfrRule, s);
    OrderRuleRewrites(s, j, d);
    SettledAfterOrder(s, d);
  }

  /** `clean_citation` on "EO <number>": "Executive Order <number>". */
  lemma CleanBareOrder(s: string, d: nat)
    requires Spells(s, BareOrderShorthand(d))
    ensures CleanCitation(s) == "Executive Order " + s[d..]
  {
    NotInBareOrder(s, d, 'U');
    NotInBareOrder(s, d, 'F');
    IdleWithoutKeyLetter(UsCodeRule, s);
    IdleWithoutKeyLetter(CfrRule, s);
    SubstituteIdle(UsCodeRule, s);
    SubstituteIdle(CfrRule, s);
    forall k | 0 <= k < |s| - 1 ensures !(s[k] == 'E' && (s[k + 1] == '.' || s[k + 1] == 'x')) {
      if k < 2 {
        assert s[k] == s[..2][k] && s[1] == s[..2][1];
      }
    }
    ExecutiveOrderRuleIdle(s);
    SubstituteIdle(ExecutiveOrderRule, s);
    BareOrderRuleRewrites(s, d);
  }

  /** `clean_citation` rewrites every citation written in shorthand to its canonical spelling. */
  lemma CleanShorthand(s: string, c: Shorthand)
    requires Spells(s, c)
    ensures CleanCitation(s) == Canonical(s, c)
  {
    match c
    case UsCodeShorthand(a, w, m, d) => CleanUsCode(s, a, w, m, d);
    case CfrShorthand(a, w, m, d) => CleanCfr(s, a, w, m, d);
    case OrderShorthand(j, d) => CleanOrder(s, j, d);
    case BareOrderShorthand(d) => CleanBareOrder(s, d);
  }

  /** The rule whose pattern a shorthand spelling is written for. */
  function RuleOf(c: Shorthand): Rule {
    match c
    case UsCodeShorthand(_, _, _, _) => UsCodeRule
    case CfrShorthand(_, _, _, _) => CfrRule
    case OrderShorthand(_, _) => ExecutiveOrderRule
    case BareOrderShorthand(_) => BareEoRule
  }

  /** A title-abbreviation-section text is, as a whole, a numbered-code match. */
  lemma CodeLayoutHit(s: string, a: nat, w: nat, m: nat, d: nat, long: string, short: string)
    requires CodeLayout(s, a, w, m, d) && (s[w..m] == long || s[w..m] == short)
    ensures CodeHit(s, 0, Hit(|s|, s[..a] + (" " + short + " ") + s[d..]), long, short)
  {
    assert CodeParts(s, 0, a, w, m, d, |s|, long, short);
    assert IsDigit(s[0]) && IsDigit(s[|s| - 1]);
    assert s[0..a] == s[..a] && s[d..|s|] == s[d..];
    ReplacementSpelling(s[..a], short, s[d..]);
  }

  /** An order-words-whitespace-number text is, as a whole, an executive-order match. */
  lemma OrderLayoutHit(s: string, j: nat, d: nat)
    requires Spells(s, OrderShorthand(j, d))
    ensures OrderHit(s, 0, Hit(|s|, "Executive Order " + s[d..]))
  {
    assert s[0..j] == s[..j];
    if 14 <= j { assert s[0..9] == s[..9]; }
    assert OrderParts(s, 0, j, d, |s|);
    OrderWordsEndComplete(s, 0, j);
    assert IsDigit(s[|s| - 1]);
    assert s[d..|s|] == s[d..];
  }

  /** A citation in shorthand is, as a whole, a match of its rule's regular expression,
      replaced by its canonical spelling. */
  lemma SpellsHit(s: string, c: Shorthand)
    requires Spells(s, c)
    ensures RuleHit(RuleOf(c), s, 0, Hit(|s|, Canonical(s, c)))
  {
    match c
    case UsCodeShorthand(a, w, m, d) =>
      CodeLayoutHit(s, a, w, m, d, "U.S.C.", "USC");
      assert " " + "USC" + " " == " USC ";
    case CfrShorthand(a, w, m, d) =>
      CodeLayoutHit(s, a, w, m, d, "C.F.R.", "CFR");
      assert " " + "CFR" + " " == " CFR ";
    case OrderShorthand(j, d) =>
      OrderLayoutHit(s, j, d);
    case BareOrderShorthand(d) =>
      BareLayoutHit(s, d);
  }

  /** "EO", whitespace and a number is, as a whole, a match of `\bEO\s+(\d+)\b`. */
  lemma BareLayoutHit(s: string, d: nat)
    requires Spells(s, BareOrderShorthand(d))
    ensures BareOrderHit(s, 0, Hit(|s|, "Executive Order " + s[d..]))
  {
    assert s[0..2] == s[..2];
    assert s[0] == s[..2][0] && IsDigit(s[|s| - 1]);
    assert BareOrderParts(s, 0, d, |s|);
    assert s[d..|s|] == s[d..];
  }

  /** A numbered-code match that covers the whole text lays the text out as title,
      whitespace, abbreviation, whitespace and section. */
  lemma CodeHitLayout(s: string, r: string, long: string, short: string) returns (a: nat, w: nat, m: nat, d: nat)
    requires CodeHit(s, 0, Hit(|s|, r), long, short)
    ensures CodeLayout(s, a, w, m, d) && (s[w..m] == long || s[w..m] == short)
    ensures r == s[..a] + (" " + short + " ") + s[d..]
  {
    a, w, m, d :| CodeParts(s, 0, a, w, m, d, |s|, long, short) &&
      r == s[0..a] + " " + short + " " + s[d..|s|];
    assert s[0..a] == s[..a] && s[d..|s|] == s[d..];
    ReplacementSpelling(s[..a], short, s[d..]);
  }

  /** An executive-order match that covers the whole text lays it out as order words,
      whitespace and number. */
  lemma OrderHitLayout(s: string, r: string) returns (j: nat, d: nat)
    requires OrderHit(s, 0, Hit(|s|, r))
    ensures 0 < j <= d < |s| && OrderWords(s, j) && SpacesIn(s, j, d) && DigitsIn(s, d, |s|)
    ensures r == "Executive Order " + s[d..]
  {
    j, d :| OrderParts(s, 0, j, d, |s|) && r == "Executive Order " + s[d..|s|];
    assert s[0..j] == s[..j] && s[d..|s|] == s[d..];
    if 14 <= j { assert s[0..9] == s[..9]; }
  }

  /** A match of a rule's regular expression that covers the whole text is a citation in
      shorthand for that rule, and its replacement is the canonical spelling. */
  lemma HitSpells(rule: Rule, s: string, r: string) returns (c: Shorthand)
    requires RuleHit(rule, s, 0, Hit(|s|, r))
    ensures Spells(s, c) && RuleOf(c) == rule && Canonical(s, c) == r
  {
    match rule
    case UsCodeRule =>
      var a, w, m, d := CodeHitLayout(s, r, "U.S.C.", "USC");
      assert " " + "USC" + " " == " USC ";
      c := UsCodeShorthand(a, w, m, d);
    case CfrRule =>
      var a, w, m, d := CodeHitLayout(s, r, "C.F.R.", "CFR");
      assert " " + "CFR" + " " == " CFR ";
      c := CfrShorthand(a, w, m, d);
    case ExecutiveOrderRule =>
      var j, d := OrderHitLayout(s, r);
      c := OrderShorthand(j, d);
    case BareEoRule =>
      var d: nat :| BareOrderParts(s, 0, d, |s|) && r == "Executive Order " + s[d..|s|];
      assert s[0..2] == s[..2] && s[d..|s|] == s[d..];
      c := BareOrderShorthand(d);
  }

  /** A rule's scanner matches the whole text, with replacement `r`, exactly when the text is
      one citation in shorthand for that rule whose canonical spelling is `r`. */
  lemma WholeMatchIff(rule: Rule, s: string, r: string)
    ensures MatchAt(rule, s, 0) == Some(Hit(|s|, r)) <==>
      exists c :: Spells(s, c) && RuleOf(c) == rule && Canonical(s, c) == r
  {
    MatchAtIff(rule, s, 0, Hit(|s|, r));
    if MatchAt(rule, s, 0) == Some(Hit(|s|, r)) {
      var c := HitSpells(rule, s, r);
    }
    if exists c :: Spells(s, c) && RuleOf(c) == rule && Canonical(s, c) == r {
      var c :| Spells(s, c) && RuleOf(c) == rule && Canonical(s, c) == r;
      SpellsHit(s, c);
    }
  }

  /** "<title><mid><section>" with a one-space margin on each side of `mid` is laid out
      as title, whitespace, `mid[1..4]`, whitespace, section. */
  lemma CanonicalCodeLayout(s: string, a: nat, d: nat, mid: string)
    requires 0 < a <= d < |s| && DigitsIn(s, 0, a) && DigitsIn(s, d, |s|)
    requires |mid| == 5 && mid[0] == ' ' && mid[4] == ' '
    ensures var c := s[..a] + mid + s[d..];
      CodeLayout(c, a, a + 1, a + 4, a + 5) && c[a + 1..a + 4] == mid[1..4] && c[..a] + mid + c[a + 5..] == c
  {
    var c := s[..a] + mid + s[d..];
    assert c[..a] == s[..a];
    assert c[a + 5..] == s[d..];
    assert c[a + 1..a + 4] == mid[1..4];
    assert c[a] == ' ' && c[a + 4] == ' ';
    forall k | 0 <= k < a ensures IsDigit(c[k]) {
      assert c[k] == s[k];
    }
    forall k | a + 5 <= k < |c| ensures IsDigit(c[k]) {
      assert c[k] == s[d + k - a - 5];
    }
  }

  /** "Executive Order <number>" is laid out as the order words, a space and the number. */
  lemma CanonicalOrderLayout(s: string, d: nat)
    requires d < |s| && DigitsIn(s, d, |s|)
    ensures var c := "Executive Order " + s[d..];
      Spells(c, OrderShorthand(15, 16)) && "Executive Order " + c[16..] == c
  {
    var c := "Executive Order " + s[d..];
    assert c[..15] == "Executive Order";
    assert c[..9] == "Executive" && c[10..15] == "Order" && c[9] == ' ' && c[15] == ' ';
    assert c[16..] == s[d..];
    forall k | 16 <= k < |c| ensures IsDigit(c[k]) {
      assert c[k] == s[d + k - 16];
    }
  }

  /** The canonical spelling is itself a citation in shorthand, which is its own canonical
      spelling. */
  lemma CanonicalSpells(s: string, c: Shorthand)
    requires Spells(s, c)
    ensures Spells(Canonical(s, c), CanonicalLayout(s, c))
    ensures Canonical(Canonical(s, c), CanonicalLayout(s, c)) == Canonical(s, c)
  {
    match c
    case UsCodeShorthand(a, _, _, d) =>
      CanonicalCodeLayout(s, a, d, " USC ");
      assert " USC "[1..4] == "USC";
    case CfrShorthand(a, _, _, d) =>
      CanonicalCodeLayout(s, a, d, " CFR ");
      assert " CFR "[1..4] == "CFR";
    case OrderShorthand(_, d) =>
      CanonicalOrderLayout(s, d);
    case BareOrderShorthand(d) =>
      CanonicalOrderLayout(s, d);
  }

  /** On a citation written in shorthand `clean_citation` is idempotent: its output is
      already canonical. */
  lemma CleanIdempotentOnShorthand(s: string, c: Shorthand)
    requires Spells(s, c)
    ensures CleanCitation(CleanCitation(s)) == CleanCitation(s)
  {
    CleanShorthand(s, c);
    CanonicalSpells(s, c);
    CleanShorthand(Canonical(s, c), CanonicalLayout(s, c));
  }
}
