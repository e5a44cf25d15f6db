/** `infer_section_name`: the section a citation belongs to, read from the table of contents
    by page number or, failing that, from the lines of the page before the citation. */
module SectionInference {
  import opened Wrappers
  import opened Text
  import opened Sanitizer
  import opened TocExtractor

  /** The name given when no section can be inferred. */
  const UnknownSection := "Unknown Section"

  /** Entry `i` claims page `p`: the page lies from the entry's start up to, but not
      including, the next entry's start, or from its start on when it is the last entry. */
  predicate Covers(toc: seq<TocEntry>, i: nat, p: nat)
    requires i < |toc|
  {
    if i + 1 < |toc| then toc[i + 1].startPage > p >= toc[i].startPage
    else p >= toc[i].startPage
  }

  /** The first entry from index `i` on that claims page `p`. */
  function FirstCoveringFrom(toc: seq<TocEntry>, p: nat, i: nat): (r: Option<nat>)
    requires i <= |toc|
    ensures r.Some? ==> i <= r.value < |toc| && Covers(toc, r.value, p)
    ensures r.Some? ==> forall j :: i <= j < r.value ==> !Covers(toc, j, p)
    ensures r.None? ==> forall j :: i <= j < |toc| ==> !Covers(toc, j, p)
    decreases |toc| - i
  {
    if i == |toc| then None
    else if Covers(toc, i, p) then Some(i)
    else FirstCoveringFrom(toc, p, i + 1)
  }

  /** The entry the table-of-contents loop returns for page `p`, if any. */
  function FirstCovering(toc: seq<TocEntry>, p: nat): (r: Option<nat>)
    ensures r.Some? ==> r.value < |toc| && Covers(toc, r.value, p)
    ensures r.Some? ==> forall j :: 0 <= j < r.value ==> !Covers(toc, j, p)
    ensures r.None? ==> forall j :: 0 <= j < |toc| ==> !Covers(toc, j, p)
  {
    FirstCoveringFrom(toc, p, 0)
  }

  /** `page_text[:context_start]`, where a `context_start` of -1 (context not found) cuts
      off the last character. */
  function TextBefore(text: string, contextStart: int): (r: string)
    requires -1 <= contextStart <= |text|
    ensures contextStart >= 0 ==> r == text[..contextStart]
    ensures contextStart < 0 ==> r == text[..Max(|text| - 1, 0)]
  {
    if contextStart >= 0 then text[..contextStart]
    else if |text| > 0 then text[..|text| - 1]
    else ""
  }

  /** A line the fallback accepts: not blank once stripped, and, stripped, somewhere in the
      text before the context. */
  predicate Candidate(line: string, before: string) {
    |Strip(line)| > 0 && Contains(before, Strip(line))
  }

  /** The last of the first `n` lines that the fallback accepts. */
  function LastCandidateBelow(lines: seq<string>, before: string, n: nat): (r: Option<nat>)
    requires n <= |lines|
    ensures r.Some? ==> r.value < n && Candidate(lines[r.value], before)
    ensures r.Some? ==> forall j :: r.value < j < n ==> !Candidate(lines[j], before)
    ensures r.None? ==> forall j :: 0 <= j < n ==> !Candidate(lines[j], before)
  {
    if n == 0 then None
    else if Candidate(lines[n - 1], before) then Some(n - 1)
    else LastCandidateBelow(lines, before, n - 1)
  }

  /** One step of the backwards scan. */
  lemma LastCandidateStep(lines: seq<string>, before: string, n: nat)
    requires 0 < n <= |lines|
    ensures Candidate(lines[n - 1], before) ==> LastCandidateBelow(lines, before, n) == Some(n - 1)
    ensures !Candidate(lines[n - 1], before) ==>
      LastCandidateBelow(lines, before, n) == LastCandidateBelow(lines, before, n - 1)
  {
  }

  /** The line the backwards scan over the page's lines stops at, if any. */
  function LastCandidate(lines: seq<string>, before: string): (r: Option<nat>)
    ensures r.Some? ==> r.value < |lines| && Candidate(lines[r.value], before)
    ensures r.Some? ==> forall j :: r.value < j < |lines| ==> !Candidate(lines[j], before)
    ensures r.None? ==> forall j :: 0 <= j < |lines| ==> !Candidate(lines[j], before)
  {
    LastCandidateBelow(lines, before, |lines|)
  }

  /** The accepted line with no accepted line after it is where the scan stops. */
  lemma LastCandidateIs(lines: seq<string>, before: string, i: nat)
    requires i < |lines| && Candidate(lines[i], before)
    requires forall j :: i < j < |lines| ==> !Candidate(lines[j], before)
    ensures LastCandidate(lines, before) == Some(i)
  {
  }

  /** The text the fallback searches: everything before the context's first occurrence. */
  function ContextPrefix(context: string, pageText: string): string {
    TextBefore(pageText, Find(pageText, context))
  }

  /** The fallback: the sanitized last accepted line, or "Unknown Section". */
  function FallbackSection(context: string, pageText: string): string {
    var lines := SplitLines(pageText);
    match LastCandidate(lines, ContextPrefix(context, pageText))
    case Some(i) => SanitizeText(lines[i])
    case None => UnknownSection
  }

  /** The fallback when the scan stops at line `i`. */
  lemma FallbackFound(context: string, pageText: string, i: nat)
    requires LastCandidate(SplitLines(pageText), ContextPrefix(context, pageText)) == Some(i)
    ensures i < |SplitLines(pageText)| && FallbackSection(context, pageText) == SanitizeText(SplitLines(pageText)[i])
  {
  }

  /** The fallback when the scan accepts no line. */
  lemma FallbackNotFound(context: string, pageText: string)
    requires LastCandidate(SplitLines(pageText), ContextPrefix(context, pageText)).None?
    ensures FallbackSection(context, pageText) == UnknownSection
  {
  }

  /** `infer_section_name(toc, page_num, context, page_text)`. */
  function InferSection(toc: seq<TocEntry>, pageNum: nat, context: string, pageText: string): string {
    match FirstCovering(toc, pageNum)
    case Some(i) => toc[i].heading
    case None => FallbackSection(context, pageText)
  }

  /** The table claims page `p` exactly when some entry starts at or before it. */
  lemma {:induction false} ClaimedFrom(toc: seq<TocEntry>, p: nat, i: nat)
    requires i < |toc| && toc[i].startPage <= p
    ensures FirstCoveringFrom(toc, p, i).Some?
    decreases |toc| - i
  {
    if i + 1 < |toc| && toc[i + 1].startPage <= p {
      ClaimedFrom(toc, p, i + 1);
    }
  }

  lemma TocClaimsPage(toc: seq<TocEntry>, p: nat)
    ensures FirstCovering(toc, p).Some? <==> exists i :: 0 <= i < |toc| && toc[i].startPage <= p
  {
    if i :| 0 <= i < |toc| && toc[i].startPage <= p {
      ClaimedFrom(toc, p, i);
    }
  }

  /** Entries sorted by start page. */
  predicate SortedToc(toc: seq<TocEntry>) {
    forall i, j :: 0 <= i < j < |toc| ==> toc[i].startPage <= toc[j].startPage
  }

  /** In a table sorted by start page, page `p` belongs to the entry that starts at or before
      it and is followed by none that does: the last such entry. */
  lemma SortedTocSection(toc: seq<TocEntry>, p: nat, i: nat, context: string, pageText: string)
    requires SortedToc(toc) && i < |toc| && toc[i].startPage <= p
    requires i + 1 == |toc| || p < toc[i + 1].startPage
    ensures FirstCovering(toc, p) == Some(i)
    ensures InferSection(toc, p, context, pageText) == toc[i].heading
  {
    assert Covers(toc, i, p);
    forall j | 0 <= j < i ensures !Covers(toc, j, p) {
      assert toc[j + 1].startPage <= toc[i].startPage;
    }
  }

  /** The fallback is taken exactly when every entry starts after the page. */
  lemma FallbackWhenTocAfterPage(toc: seq<TocEntry>, p: nat, context: string, pageText: string)
    ensures (forall i :: 0 <= i < |toc| ==> p < toc[i].startPage) ==>
      InferSection(toc, p, context, pageText) == FallbackSection(context, pageText)
    ensures (exists i :: 0 <= i < |toc| && toc[i].startPage <= p) ==>
      exists j :: 0 <= j < |toc| && toc[j].startPage <= p && InferSection(toc, p, context, pageText) == toc[j].heading
  {
    TocClaimsPage(toc, p);
  }

  /** A context found at the very start of the page, the empty context among them, leaves
      nothing before it to search: the fallback gives "Unknown Section". */
  lemma FallbackAtPageStart(context: string, pageText: string)
    requires Find(pageText, context) == 0
    ensures FallbackSection(context, pageText) == UnknownSection
  {
    var lines := SplitLines(pageText);
    var before := ContextPrefix(context, pageText);
    assert before == "";
    forall j | 0 <= j < |lines| ensures !Candidate(lines[j], before) {
      if Candidate(lines[j], before) {
        ContainsInEmpty(Strip(lines[j]));
      }
    }
  }

  /** The empty context is found at index 0. */
  lemma EmptyContext(pageText: string)
    ensures Find(pageText, "") == 0
    ensures FallbackSection("", pageText) == UnknownSection
  {
    assert OccursAt(pageText, "", 0);
    FallbackAtPageStart("", pageText);
  }

  /** The fallback names a stripped single line: a sanitized line of the page, or
      "Unknown Section". */
  lemma FallbackSectionClean(context: string, pageText: string)
    ensures var r := FallbackSection(context, pageText); SingleLine(r) && Stripped(r)
    ensures var lines := SplitLines(pageText);
      FallbackSection(context, pageText) == UnknownSection ||
      exists i :: 0 <= i < |lines| && Candidate(lines[i], ContextPrefix(context, pageText)) &&
        FallbackSection(context, pageText) == SanitizeText(lines[i])
  {
    assert SingleLine(UnknownSection) && Stripped(UnknownSection) by {
      assert UnknownSection[0] == 'U' && UnknownSection[|UnknownSection| - 1] == 'n';
    }
    var lines := SplitLines(pageText);
    var found := LastCandidate(lines, ContextPrefix(context, pageText));
    if found.Some? {
      FallbackFound(context, pageText, found.value);
    } else {
      FallbackNotFound(context, pageText);
    }
  }

  /** When the context does not occur in the page (as when sanitizing turned a line break of
      its window into a space) and the page ends with a line terminator, everything but the
      last character is searched, and every line that is not blank is accepted. */
  lemma ContextMissing(context: string, pageText: string)
    requires Find(pageText, context) < 0
    requires |pageText| > 0 && IsLineBoundary(pageText[|pageText| - 1])
    ensures var lines := SplitLines(pageText);
      forall j :: 0 <= j < |lines| ==>
        (Candidate(lines[j], ContextPrefix(context, pageText)) <==> |Strip(lines[j])| > 0)
  {
    var lines := SplitLines(pageText);
    var before := ContextPrefix(context, pageText);
    assert before == pageText[..|pageText| - 1];
    LinesBeforeLastChar(pageText);
    forall j | 0 <= j < |lines| ensures Contains(before, Strip(lines[j])) {
      StripContained(lines[j]);
      ContainsTransitive(before, lines[j], Strip(lines[j]));
    }
  }

  /** So the fallback then names the page's last line that is not blank, wherever the
      citation stands on the page. */
  lemma ContextMissingLastLine(context: string, pageText: string, i: nat)
    requires Find(pageText, context) < 0
    requires |pageText| > 0 && IsLineBoundary(pageText[|pageText| - 1])
    requires i < |SplitLines(pageText)| && |Strip(SplitLines(pageText)[i])| > 0
    requires forall j :: i < j < |SplitLines(pageText)| ==> |Strip(SplitLines(pageText)[j])| == 0
    ensures FallbackSection(context, pageText) == SanitizeText(SplitLines(pageText)[i])
  {
    ContextMissing(context, pageText);
    var lines := SplitLines(pageText);
    var before := ContextPrefix(context, pageText);
    assert Candidate(lines[i], before);
    forall j | i < j < |lines| ensures !Candidate(lines[j], before) {
      assert |Strip(lines[j])| == 0;
    }
    LastCandidateIs(lines, before, i);
    FallbackFound(context, pageText, i);
  }

  /** With headings that are stripped single lines, such as those of `Toc`, every inferred
      section is one. */
  lemma InferSectionClean(toc: seq<TocEntry>, p: nat, context: string, pageText: string)
    requires forall i :: 0 <= i < |toc| ==> SingleLine(toc[i].heading) && Stripped(toc[i].heading)
    ensures var r := InferSection(toc, p, context, pageText); SingleLine(r) && Stripped(r)
  {
    FallbackSectionClean(context, pageText);
  }

  /** The table-of-contents loop of `infer_section_name`: the first entry that claims the page. */
  method CoveringEntry(toc: seq<TocEntry>, pageNum: nat) returns (r: Option<nat>)
    ensures r == FirstCovering(toc, pageNum)
  {
    var i := 0;
    while i < |toc|
      invariant i <= |toc|
      invariant FirstCoveringFrom(toc, pageNum, i) == FirstCovering(toc, pageNum)
    {
      if i + 1 < |toc| && toc[i + 1].startPage > pageNum >= toc[i].startPage {
        return Some(i);
      } else if i == |toc| - 1 && pageNum >= toc[i].startPage {
        return Some(i);
      }
      i := i + 1;
    }
    return None;
  }

  /** The backwards scan of the fallback: the last line whose stripped text is not empty
      and occurs in `before`. */
  method LastAcceptedLine(lines: seq<string>, before: string) returns (r: Option<nat>)
    ensures r == LastCandidate(lines, before)
  {
    var i := |lines|;
    while i > 0
      invariant 0 <= i <= |lines|
      invariant LastCandidateBelow(lines, before, i) == LastCandidate(lines, before)
    {
      i := i - 1;
      var line := Strip(lines[i]);
      LastCandidateStep(lines, before, i + 1);
      if |line| > 0 && Contains(before, line) {
        return Some(i);
      }
    }
    return None;
  }

  /** The fallback of `infer_section_name`: the page's lines searched from the last one back
      in the text before the context. */
  method FallbackName(context: string, pageText: string) returns (name: string)
    ensures name == FallbackSection(context, pageText)
  {
    var lines := SplitLines(pageText);
    var contextStart := Find(pageText, context);
    var before := TextBefore(pageText, contextStart);
    var found := LastAcceptedLine(lines, before);
    match found
    case Some(i) =>
      FallbackFound(context, pageText, i);
      name := SanitizeText(lines[i]);
    case None =>
      FallbackNotFound(context, pageText);
      name := UnknownSection;
  }

  /** `infer_section_name`: a section from the table of contents when an entry claims the
      page (the loop finds none in an empty table), the fallback otherwise. */
  method InferSectionName(toc: seq<TocEntry>, pageNum: nat, context: string, pageText: string)
    returns (name: string)
    ensures name == InferSection(toc, pageNum, context, pageText)
  {
    var entry := CoveringEntry(toc, pageNum);
    match entry
    case Some(i) =>
      name := toc[i].heading;
    case None =>
      name := FallbackName(context, pageText);
  }
}
