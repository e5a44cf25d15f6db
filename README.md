# Citation extraction, modelled in Dafny

The Python script `2025-03-25_extract_citations.py` reads PDF documents and pulls out
citations to the U.S. Code, the Code of Federal Regulations, Executive Orders, OMB guidance,
Public Laws and the Statutes at Large. For each citation it writes one spreadsheet row:

- the citation in a canonical spelling;
- a link to the page it was found on;
- the section of the document it belongs to;
- the hundred characters on either side of it;
- the document's URL.

This project models the text-processing core of that script and proves what each step
guarantees.

| module | file | models |
|---|---|---|
| `Text` | text.dfy | The Python string operations the core relies on. These are the ASCII character classes `\d`, `\w` and `\s`, plus `str.strip`, `str.find`, `in`, `str.splitlines`, `int()` on a digit run and `str()` on an integer. |
| `Sanitizer` | sanitizer.dfy | `sanitize_text`: every run of `\r`/`\n` becomes one space, then the text is stripped. |
| `Normalizer` | normalizer.dfy | `clean_citation`: four `re.sub` rewrites applied in order. Each one scans left to right and, after a replacement, resumes after the match, as `re.sub` does. |
| `Scenarios` | scenarios.dfy | Particular inputs worked through `clean_citation`, including the one that shows it is not idempotent. |
| `TocExtractor` | toc.dfy | `extract_toc`: `re.findall(r"(?P<heading>.+?)\s+(\d+)")` on each of the first ten pages that contain "Table of Contents". It is written as a leftmost, non-overlapping scan with a lazy heading and a greedy number. `int()` raises on a number of more than 4300 digits. |
| `SectionInference` | section.dfy | `infer_section_name`. It first looks up the page in the table of contents. If no entry claims the page, it scans the page's lines backwards for the last one that occurs before the context. |
| `CitationPipeline` | pipeline.dfy | The page and match loops of `extract_us_code_citations`: the context window, the page link and the five-field row. An unreadable document, or a table of contents that `extract_toc` cannot read, yields no rows. |
| `Report` | report.dfy | The row transform of `save_to_excel`: every cell is sanitized, then the citation cell is cleaned again. |

The imperative parts of the source are Dafny methods whose loops are proved against the
specification functions above:

- `ExtractToc` and `AppendEntries` for the loops of `extract_toc`;
- `CoveringEntry`, `LastAcceptedLine` and `FallbackName` for the two loops of
  `infer_section_name`;
- `PageCitations` and `ExtractUsCodeCitations` for the loops of `extract_us_code_citations`;
- `SaveRows` for the loop of `save_to_excel`.

Inputs that come from outside the core are parameters:

- A document is `Unreadable` or `Readable(pages)`. `pages` is the page texts as the PDF
  reader returns them, with `""` for a page that yields no text.
- The composite citation pattern is a function `finditer` from a page text to its match
  spans. The only assumption is `SpansInText`: every span lies inside the text.

### `clean_citation` is not idempotent

`clean_citation` runs on every citation at extraction (line 127) and again on the written
row (line 168), so a second pass should leave a cleaned citation alone. That holds for a
text that is exactly one citation:

- `Normalizer.CleanIdempotentOnShorthand` proves it for every U.S. Code or CFR citation
  (with either abbreviation) and every Executive Order spelling;
- `Normalizer.CleanShorthand` shows each of these is rewritten to its canonical form.

It does not hold for every text. Take two U.S. Code citations that run together, such as
"1USC 2USC3". The extraction pattern returns this as one match, because its trailing
`[a-zA-Z0-9]*` takes "USC3".

1. In the first pass, the first citation is not followed by a word boundary, so only the
   second one is rewritten, to "1USC 2 USC 3".
2. That rewrite puts a space after "2". A second pass therefore rewrites the first one, to
   "1 USC 2 USC 3".

`Scenarios.CleanNotIdempotent` proves this for every text of that shape, and
`Scenarios.RunOnExample` shows that "1USC 2USC3" has it. `Report.SheetRecleansRunOn` shows
the consequence: the citation written to the sheet differs from the one the extraction
produced.

### The fallback when the context is missing

`infer_section_name` searches for `context` in the page text. But the context is the
*sanitized* window. A line break with text on both sides of it inside the window becomes a
space there, so the context then generally no longer occurs in the page; a break at either
end of the window is only stripped away. `find` then returns -1, and `page_text[:-1]` searches everything except
the last character.

When the page ends with a line terminator, every line that is not blank is then accepted
(`SectionInference.ContextMissing`). The section becomes the page's last non-blank line,
however far from the citation it is (`SectionInference.ContextMissingLastLine`).

## Model

| member | source | states |
|---|---|---|
| `Text.Strip` | 2025-03-25_extract_citations.py:38 | The result has no whitespace at either end, is no longer than the input, and is what remains after removing two all-whitespace ends. |
| `Text.StripStripped` | 2025-03-25_extract_citations.py:38 | Stripping a text with no whitespace at either end returns it unchanged. |
| `Text.FindFrom` | 2025-03-25_extract_citations.py:83 | `str.find`: returns the first index at or after `i` where the needle occurs, or -1 when it occurs at no such index. |
| `Text.ContainsIff` | 2025-03-25_extract_citations.py:60 | `needle in hay` holds exactly when the needle occurs at some index. |
| `Text.ContainsInEmpty` | 2025-03-25_extract_citations.py:85 | Only the empty string occurs in the empty string. |
| `Text.ContainsTransitive` | 2025-03-25_extract_citations.py:85 | Occurrence is transitive: a substring of a substring is a substring. |
| `Text.SplitLines` | 2025-03-25_extract_citations.py:82 | `str.splitlines`: each line is free of `\r` and `\n`, and only the empty text has no lines. |
| `Text.SplitLinesJoin` | 2025-03-25_extract_citations.py:82 | For a text whose only line breaks are `\n` and that does not end in one, joining its lines with `\n` gives the text back. |
| `Text.LinesBeforeLastChar` | 2025-03-25_extract_citations.py:82-85 | When a text ends with a line terminator, each of its lines occurs in the text without its last character. |
| `Text.DigitsValueOfNatToString` | 2025-03-25_extract_citations.py:64 | `int(str(n)) == n`. |
| `Text.NatToStringOfDigitsValue` | 2025-03-25_extract_citations.py:64 | `str(int(d)) == d` for a digit run without a leading zero. |
| `Sanitizer.CollapseBreaks` | 2025-03-25_extract_citations.py:38 | `re.sub(r"[\r\n]+", " ", ...)`: the result has no line break and is no longer than the input. |
| `Sanitizer.CollapseSingleLine` | 2025-03-25_extract_citations.py:38 | A text without line breaks is returned unchanged. |
| `Sanitizer.CollapseSplit` | 2025-03-25_extract_citations.py:38 | Cut a text where no run of breaks straddles the cut. The collapse of the whole is then the collapse of the first part followed by the collapse of the second. |
| `Sanitizer.CollapseBreaksJoin` | 2025-03-25_extract_citations.py:38 | The value of the collapse. Take a line, then a non-empty run of breaks, then a rest that does not start with a break. It collapses to the line, one space, and the collapse of the rest. |
| `Sanitizer.SanitizeText` | 2025-03-25_extract_citations.py:36-38 | The result holds no `\r` or `\n`, has no whitespace at either end, and is no longer than its input. |
| `Sanitizer.SanitizeStripFirst` | 2025-03-25_extract_citations.py:36-38 | `sanitize_text` equals stripping first and collapsing second, so its result is never longer than the input stripped. |
| `Sanitizer.SanitizeFixedPoint` | 2025-03-25_extract_citations.py:36-38 | `sanitize_text` returns a text unchanged exactly when the text is one line without whitespace at either end. |
| `Sanitizer.SanitizeIdempotent` | 2025-03-25_extract_citations.py:36-38 | Sanitizing twice gives the same result as sanitizing once. |
| `Sanitizer.SanitizeEmpty` | 2025-03-25_extract_citations.py:36-38 | `sanitize_text("") == ""`. |
| `Normalizer.AbbreviationEndIs` | 2025-03-25_extract_citations.py:45-46 | The alternation `(LONG\|SHORT)` finds whichever spelling occurs at `w` and ends where it ends. The spelling starts with neither a digit nor whitespace. |
| `Normalizer.NumberedCodeSound` | 2025-03-25_extract_citations.py:45-46 | Every match the scanner reports at `i` is a match of `\b(\d+)\s*(LONG\|SHORT)\s*(\d+)\b`. That is: a word boundary, digits, whitespace, one of the two spellings, whitespace, digits, and a word boundary. Its replacement is `\1 SHORT \3`. |
| `Normalizer.NumberedCodeComplete` | 2025-03-25_extract_citations.py:45-46 | Every such match from `i` is the one the scanner reports, replacement included. |
| `Normalizer.OrderWordsEndSound` | 2025-03-25_extract_citations.py:47 | The words found are "E.O.", "Exec. Order", "Exec Order", or "Executive", whitespace and "Order". |
| `Normalizer.OrderWordsEndComplete` | 2025-03-25_extract_citations.py:47 | Each of those spellings is found and ends where it ends. Each starts with 'E'. |
| `Normalizer.ExecutiveOrderSound` | 2025-03-25_extract_citations.py:47 | Every match the scanner reports is a match of `\b(E\.O\.\|Executive\s*Order\|Exec\.? Order)\s*(\d+)\b` with replacement `Executive Order \2`. |
| `Normalizer.ExecutiveOrderComplete` | 2025-03-25_extract_citations.py:47 | Every match of that expression from `i` is the one the scanner reports, replacement included. |
| `Normalizer.BareEoSound` | 2025-03-25_extract_citations.py:48 | Every match the scanner reports is a match of `\bEO\s+(\d+)\b` with replacement `Executive Order \1`. |
| `Normalizer.BareEoComplete` | 2025-03-25_extract_citations.py:48 | Every match of that expression from `i` is the one the scanner reports, replacement included. |
| `Normalizer.MatchAtSound` | 2025-03-25_extract_citations.py:45-48 | Every match a rule's scanner reports is a match of the rule's regular expression. |
| `Normalizer.MatchAtComplete` | 2025-03-25_extract_citations.py:45-48 | Every match of a rule's regular expression is the one its scanner reports. |
| `Normalizer.MatchAtIff` | 2025-03-25_extract_citations.py:45-48 | A rule's scanner reports a match at `i` exactly when the rule's regular expression matches from `i`, and it reports that match's end and replacement. |
| `Normalizer.IdleIff` | 2025-03-25_extract_citations.py:45-48 | A rule's scanner finds nothing exactly when its regular expression matches nowhere in the text. |
| `Normalizer.Hits` | 2025-03-25_extract_citations.py:45-48 | The table holds, for every index of the text, the match of the rule that starts there. |
| `Normalizer.Substitute` | 2025-03-25_extract_citations.py:45-48 | One `re.sub` pass keeps a one-line text one line. Its value is fixed by the lemmas about its parts: `MatchAtIff` says which matches the scan reads, and `SubstituteIdle` with `IdleIff` says that a rule whose expression matches nowhere leaves the text unchanged. |
| `Normalizer.CleanCitation` | 2025-03-25_extract_citations.py:43-49 | The four rewrites in order keep a one-line text one line. Its value is stated by `CleanPassThrough` (a text no expression matches is unchanged), `CleanShorthand` and `WholeMatchIff` (a one-citation text becomes its canonical spelling, and only such texts are matched whole), and `Scenarios.CleanNotIdempotent`. |
| `Normalizer.SubstituteIdle` | 2025-03-25_extract_citations.py:45-48 | A rule that matches nowhere leaves the text unchanged. |
| `Normalizer.MatchNeedsKeyLetter` | 2025-03-25_extract_citations.py:45-48 | No rule matches a text without its key letter ('U' for the U.S. Code, 'F' for the CFR, 'E' for the two order rules). |
| `Normalizer.MatchNeedsDigit` | 2025-03-25_extract_citations.py:45-48 | No rule matches a text without a digit. |
| `Normalizer.IdleWithoutKeyLetter` | 2025-03-25_extract_citations.py:45-48 | A rule does not apply anywhere in a text that lacks its key letter. |
| `Normalizer.IdleWithoutDigits` | 2025-03-25_extract_citations.py:45-48 | No rule applies anywhere in a text that has no digit. |
| `Normalizer.CleanAllIdle` | 2025-03-25_extract_citations.py:43-49 | A text on which no rule's scanner finds anything is returned unchanged. |
| `Normalizer.CleanPassThrough` | 2025-03-25_extract_citations.py:43-49 | A text that none of the four regular expressions matches anywhere is returned unchanged. |
| `Normalizer.CleanWithoutLetters` | 2025-03-25_extract_citations.py:43-49 | A text with no 'U', 'F' or 'E' (such as "OMB" or "Public Law") is returned unchanged: the rules are case-sensitive. |
| `Normalizer.CleanWithoutDigits` | 2025-03-25_extract_citations.py:43-49 | A text without digits is returned unchanged. |
| `Normalizer.CleanUsCode` | 2025-03-25_extract_citations.py:45 | `<n> U.S.C. <m>` or `<n> USC <m>`, with any spacing, becomes `<n> USC <m>`. |
| `Normalizer.CleanCfr` | 2025-03-25_extract_citations.py:46 | `<n> C.F.R. <m>` or `<n> CFR <m>`, with any spacing, becomes `<n> CFR <m>`. |
| `Normalizer.CleanOrder` | 2025-03-25_extract_citations.py:47 | `E.O.`, `Executive Order` (any spacing), `Exec. Order` or `Exec Order`, followed by a number, becomes `Executive Order <n>`. |
| `Normalizer.CleanBareOrder` | 2025-03-25_extract_citations.py:48 | `EO <n>` becomes `Executive Order <n>`. |
| `Normalizer.CleanShorthand` | 2025-03-25_extract_citations.py:43-49 | A text that is one citation in any accepted spelling becomes its canonical spelling. |
| `Normalizer.SpellsHit` | 2025-03-25_extract_citations.py:45-48 | A text that is one citation in an accepted spelling is matched whole, from 0, by that spelling's rule. The replacement is the canonical spelling. |
| `Normalizer.HitSpells` | 2025-03-25_extract_citations.py:45-48 | A rule that matches the whole text from 0 finds one citation in one of its accepted spellings, and replaces it with the canonical spelling. |
| `Normalizer.WholeMatchIff` | 2025-03-25_extract_citations.py:45-48 | A rule matches the whole text with replacement `r` exactly when the text is one citation in an accepted spelling for that rule and `r` is its canonical spelling. |
| `Normalizer.CanonicalSpells` | 2025-03-25_extract_citations.py:43-49 | The canonical spelling is itself an accepted spelling, and it is its own canonical spelling. |
| `Normalizer.CleanIdempotentOnShorthand` | 2025-03-25_extract_citations.py:43-49 | On a text that is one citation, cleaning twice gives the same result as cleaning once. |
| `Scenarios.CleanLeavesKeyword` | 2025-03-25_extract_citations.py:43-49 | `clean_citation("OMB") == "OMB"`. |
| `Scenarios.CleanIsCaseSensitive` | 2025-03-25_extract_citations.py:45 | Lower-case "42 u.s.c. 1983" is returned unchanged. |
| `Scenarios.TrailingNumberNoMatch` | 2025-03-25_extract_citations.py:45 | The U.S. Code rule never matches at a digit run that reaches the end of the text. |
| `Scenarios.GluedUsCodeBlocked` | 2025-03-25_extract_citations.py:45 | "<digits>USC <digits>" followed by a letter is not matched: the closing `\b` fails. |
| `Scenarios.SecondCitationHit` | 2025-03-25_extract_citations.py:45 | In "<t>USC <n>USC<m>" (whitespace allowed before `m`), the U.S. Code rule matches "<n>USC<m>" to the end of the text and rewrites it to "<n> USC <m>". |
| `Scenarios.CleanRunOn` | 2025-03-25_extract_citations.py:45-49 | On "<t>USC <n>USC<m>", cleaning rewrites only the second citation. |
| `Scenarios.CleanHalfCleaned` | 2025-03-25_extract_citations.py:45-49 | On "<t>USC <n> USC <m>", cleaning rewrites the first citation. |
| `Scenarios.CleanNotIdempotent` | 2025-03-25_extract_citations.py:45-49 | On "<t>USC <n>USC<m>", cleaning twice gives a different text from cleaning once. |
| `Scenarios.RunOnExample` | 2025-03-25_extract_citations.py:45-49 | "1USC 2USC3", which the extraction pattern returns as one match, has that shape, and so does "1USC 2USC 3". |
| `TocExtractor.NumberAfter` | 2025-03-25_extract_citations.py:57 | `\s+(\d` after the heading: a non-empty whitespace run followed by a digit, or a proof that no such run exists. |
| `TocExtractor.HeadingSearch` | 2025-03-25_extract_citations.py:57 | The lazy `.+?`: returns the shortest heading, without a newline, that `\s+\d` follows. When there is none, no longer heading has one either. |
| `TocExtractor.TocMatchAt` | 2025-03-25_extract_citations.py:57 | A match at `p` is valid and has the shortest heading. No match means no non-empty, newline-free heading from `p` is followed by `\s+\d`. |
| `TocExtractor.TocMatchAtIff` | 2025-03-25_extract_citations.py:57 | The pattern matches at `p` exactly when some newline-free heading from `p` is followed by `\s+\d`. The match's heading ends at the first such point. |
| `TocExtractor.NumberAfterMatch` | 2025-03-25_extract_citations.py:57 | The number of a match starts where the whitespace after its heading ends. |
| `TocExtractor.MatchTable` | 2025-03-25_extract_citations.py:61 | Holds the match attempt at every index. |
| `TocExtractor.FindAllFrom` | 2025-03-25_extract_citations.py:61 | Each match reported starts at or after the scan's start point and is the match at its own start. |
| `TocExtractor.TocMatches` | 2025-03-25_extract_citations.py:61 | Every match `findall` reports is a valid match. Its digits are taken whole. |
| `TocExtractor.TocMatchesLeftmost` | 2025-03-25_extract_citations.py:61 | The matches are each the match at their start, come in text order without overlap, and no match was skipped before, between or after them. |
| `TocExtractor.DigitlessFirstLine` | 2025-03-25_extract_citations.py:57-61 | A first line with no digit, followed by a line that starts with neither a digit nor whitespace, produces no match. |
| `TocExtractor.LastLineMatch` | 2025-03-25_extract_citations.py:57-61 | A final line of the form "<word> <digits>" is one match with that heading and number. |
| `TocExtractor.TwoLinePage` | 2025-03-25_extract_citations.py:57-61 | A title line without digits, followed by "<word> <digits>", gives exactly one match. |
| `TocExtractor.EntriesOf` | 2025-03-25_extract_citations.py:62-65 | One entry per match, in match order. Each heading is the sanitized match group and each page number is `int()` of the digit group. |
| `TocExtractor.PageEntries` | 2025-03-25_extract_citations.py:60 | A page without text, or without the marker, contributes nothing. |
| `TocExtractor.TwoLinePageEntries` | 2025-03-25_extract_citations.py:56-65 | A marked two-line page with one "<word> <digits>" entry line contributes exactly that entry. |
| `TocExtractor.SearchedPages` | 2025-03-25_extract_citations.py:58 | `reader.pages[:10]`: at most ten pages, and all of them when there are fewer. |
| `TocExtractor.EntryHeadingSanitized` | 2025-03-25_extract_citations.py:63 | Every heading is one line, stripped, and a fixed point of `sanitize_text`. |
| `TocExtractor.TocEntryOrigin` | 2025-03-25_extract_citations.py:58-65 | Every entry comes from one match on one of the first ten pages, and that page holds the marker. |
| `TocExtractor.TocHeadingsSanitized` | 2025-03-25_extract_citations.py:63 | Every heading of the table is one stripped line that `sanitize_text` leaves unchanged. |
| `TocExtractor.TocWithoutMarker` | 2025-03-25_extract_citations.py:60 | With no marked page among the first ten, the table is empty. |
| `TocExtractor.TocIgnoresLaterPages` | 2025-03-25_extract_citations.py:58 | Pages after the tenth never change the table. |
| `TocExtractor.TocOfShortDocument` | 2025-03-25_extract_citations.py:58-65 | Entries come in page order: the table of a short document is the tables of its parts, concatenated. |
| `TocExtractor.GatherAppend` | 2025-03-25_extract_citations.py:58-65 | Collecting per-page results distributes over splitting the page list. |
| `TocExtractor.AnyPageIff` | 2025-03-25_extract_citations.py:58-64 | The look-back over a page list holds exactly when some page of it satisfies the predicate. |
| `TocExtractor.PageMakesTocRaise` | 2025-03-25_extract_citations.py:58-64 | A marked page among the first ten whose entries cannot be read makes `extract_toc` raise. |
| `TocExtractor.TocRaisesIff` | 2025-03-25_extract_citations.py:58-64 | `extract_toc` raises exactly when one of the first ten pages holds the marker and a match whose digit group has more than 4300 digits, the most `int()` converts. |
| `TocExtractor.AppendEntries` | 2025-03-25_extract_citations.py:62-65 | The inner loop raises exactly when some match's number has more than 4300 digits. Otherwise it appends exactly the page's entries, in match order. |
| `TocExtractor.ExtractToc` | 2025-03-25_extract_citations.py:54-66 | The loop raises exactly when `TocRaises(pages)` holds, and otherwise returns exactly `Toc(pages)`. |
| `SectionInference.FirstCoveringFrom` | 2025-03-25_extract_citations.py:74-78 | The entry found is the first one from `i` on that claims the page, where the last entry claims every page from its start. No entry is found only when none claims the page. |
| `SectionInference.FirstCovering` | 2025-03-25_extract_citations.py:73-78 | The same over the whole table. An empty table claims nothing. |
| `SectionInference.TocClaimsPage` | 2025-03-25_extract_citations.py:73-78 | Some entry claims page `p` exactly when some entry starts at or before `p`. |
| `SectionInference.SortedTocSection` | 2025-03-25_extract_citations.py:73-78 | In a table sorted by start page, `p` gets the heading of the last entry that starts at or before it. For `[(A,1),(B,5),(C,10)]` this gives A for pages 1-4, B for 5-9 and C from 10 on. |
| `SectionInference.FallbackWhenTocAfterPage` | 2025-03-25_extract_citations.py:73-87 | The fallback is taken when every entry starts after the page. Otherwise the result is the heading of an entry that starts at or before it. |
| `SectionInference.TextBefore` | 2025-03-25_extract_citations.py:83-85 | `page_text[:context_start]`: the text before the context, or everything but the last character when `find` returns -1. |
| `SectionInference.LastCandidateBelow` | 2025-03-25_extract_citations.py:84-85 | The index found is an accepted line and no later line below `n` is accepted. No index means no line below `n` is accepted. |
| `SectionInference.LastCandidate` | 2025-03-25_extract_citations.py:84-85 | The backwards scan stops at the last accepted line, or at none when no line is accepted. |
| `SectionInference.FallbackAtPageStart` | 2025-03-25_extract_citations.py:83-87 | A context found at index 0 leaves nothing before it to search, so the result is "Unknown Section". |
| `SectionInference.EmptyContext` | 2025-03-25_extract_citations.py:83-87 | The empty context is found at 0, so the fallback gives "Unknown Section". |
| `SectionInference.FallbackSectionClean` | 2025-03-25_extract_citations.py:82-87 | The fallback never fails. It returns either "Unknown Section" or the sanitized form of a line that is accepted, and either way the result is one stripped line. |
| `SectionInference.ContextMissing` | 2025-03-25_extract_citations.py:83-85 | With the context absent from a page that ends in a line terminator, a line is accepted exactly when it is not blank. |
| `SectionInference.ContextMissingLastLine` | 2025-03-25_extract_citations.py:82-86 | In that case the fallback names the page's last non-blank line. |
| `SectionInference.InferSectionClean` | 2025-03-25_extract_citations.py:71-87 | With headings that are stripped single lines, every inferred section is one. |
| `SectionInference.CoveringEntry` | 2025-03-25_extract_citations.py:73-78 | The table loop, with its two conditions, returns exactly the first entry that claims the page. |
| `SectionInference.LastAcceptedLine` | 2025-03-25_extract_citations.py:84-85 | The reverse loop over the lines returns exactly the last accepted line. |
| `SectionInference.FallbackName` | 2025-03-25_extract_citations.py:82-87 | The fallback method returns exactly `FallbackSection`. |
| `SectionInference.InferSectionName` | 2025-03-25_extract_citations.py:71-87 | The method returns exactly `InferSection`. |
| `CitationPipeline.ContextWindow` | 2025-03-25_extract_citations.py:129 | `max(0, s-100)` to `min(len(text), e+100)`: within the text, around the match, at most 100 characters on each side, fewer only where the page ends. |
| `CitationPipeline.ContextOf` | 2025-03-25_extract_citations.py:129 | The context is one stripped line, at most 200 characters longer than the match. |
| `CitationPipeline.PageAnchorRoundTrip` | 2025-03-25_extract_citations.py:131 | `f"{url}#page={n}"` splits back into the URL, "#page=" and a digit run whose value is `n`. |
| `CitationPipeline.PageAnchorInjective` | 2025-03-25_extract_citations.py:131 | Different pages of one document get different links. |
| `CitationPipeline.PageRecords` | 2025-03-25_extract_citations.py:125-132 | One row per match of the page, in match order. |
| `CitationPipeline.BlankPagesNoRecords` | 2025-03-25_extract_citations.py:118-119 | Pages without text give no rows. |
| `CitationPipeline.RecordCount` | 2025-03-25_extract_citations.py:115-132 | There is exactly one row per match on a page with text. |
| `CitationPipeline.RecordsPrefix` | 2025-03-25_extract_citations.py:115-132 | Rows come in page order: reading more pages only adds rows at the end. |
| `CitationPipeline.RecordOrigin` | 2025-03-25_extract_citations.py:115-132 | Every row is the row of one match on one page that has text. |
| `CitationPipeline.RecordFields` | 2025-03-25_extract_citations.py:125-132 | Each row holds the document URL and the link to page `k+1`. Its context is one stripped line at most 200 characters longer than the match. A one-line match gives a one-line citation. Its section is `InferSection` with the 1-based page number, and is one stripped line when the headings are. |
| `CitationPipeline.RecordClean` | 2025-03-25_extract_citations.py:125-132 | With clean headings, every row links to its page and has a one-line, stripped section and context. |
| `CitationPipeline.CitationRows` | 2025-03-25_extract_citations.py:94-132 | Every row of a readable document links to a page of it that has text, and has a one-line, stripped section and context. |
| `CitationPipeline.PageCitations` | 2025-03-25_extract_citations.py:125-132 | The match loop appends exactly the page's rows. |
| `CitationPipeline.TocRaisesNoRows` | 2025-03-25_extract_citations.py:92-138 | A number of more than 4300 digits in the table of contents raises inside the handler, so the document gives no rows at all. |
| `CitationPipeline.ExtractUsCodeCitations` | 2025-03-25_extract_citations.py:92-138 | The method returns exactly `Citations`. That is no rows for an unreadable document or when `extract_toc` raises, and otherwise the table of contents first and then every page in order. |
| `Report.SheetRow` | 2025-03-25_extract_citations.py:167-168 | A written row has as many cells as the record. Every cell is one line, and every cell after the first is stripped. |
| `Report.SheetRows` | 2025-03-25_extract_citations.py:166-169 | One written row per record, in order. |
| `Report.SheetRowCells` | 2025-03-25_extract_citations.py:167-168 | Cell 0 is `clean_citation(sanitize_text(cell))`, and every other cell is `sanitize_text(cell)`. |
| `Report.SheetCellUnchanged` | 2025-03-25_extract_citations.py:167 | A cell after the first is written exactly as it arrives when it is already one stripped line, and only then. |
| `Report.SheetRowStable` | 2025-03-25_extract_citations.py:167-168 | Writing a written row again leaves every cell after the first unchanged. |
| `Report.PageAnchorClean` | 2025-03-25_extract_citations.py:131 | A page link is one stripped line when the URL is. |
| `Report.SheetOfSettledRow` | 2025-03-25_extract_citations.py:167-168 | Cells after the first that are already one stripped line are written unchanged, and only the citation is rewritten. |
| `Report.SheetOfCleanRow` | 2025-03-25_extract_citations.py:167-168 | For a clean pipeline row, the sheet shows the page link, section, context and URL as extracted, and the citation cleaned again. |
| `Report.SheetOfCitations` | 2025-03-25_extract_citations.py:166-169 | For every row of a readable document with a clean URL, the written row is the record's cells with only the citation rewritten. |
| `Report.SheetRecleansRunOn` | 2025-03-25_extract_citations.py:168 | A citation extracted from "<t>USC <n>USC<m>" is written as "<t> USC <n> USC <m>", which differs from the extracted citation. |
| `Report.SaveRows` | 2025-03-25_extract_citations.py:163-169 | The loop hands `sheet.append` the header and then exactly the records' rows, in order. |

## Left out

- Downloading the PDF, the temporary file and its removal (`download_pdf`, `process_url`) are not modelled. These are network and file I/O.
- `main` with its fixed URL list is not modelled. It only chains `process_url` and `save_to_excel`.
- Reading the PDF is not modelled. PyPDF2's `PdfReader` and `extract_text` are foreign code; the page texts are a parameter.
- Any exception the reader raises is modelled as an `Unreadable` document. The model does not distinguish an exception raised part-way through a document, which in the source also discards the pages read so far, from one raised at the start: both give no rows.
- The printed error message is not modelled.
- `int()` is taken to refuse more than 4300 digits, Python's default limit. A limit changed with `sys.set_int_max_str_digits` or `PYTHONINTMAXSTRDIGITS` is not modelled.
- The composite citation pattern's nine branches are not modelled. The pattern is a parameter (`finditer`), and the model requires only one thing of it: each span lies inside its page.
- The spans' order and non-overlap are not required either. Row order follows whatever order `finditer` returns.
- Regular-expression character classes, `str.strip` and `str.splitlines` are ASCII-only. `\s` and strip use the ASCII characters for which `str.isspace()` holds. `splitlines` breaks at `\n`, `\r`, `\r\n`, `\x0b`, `\x0c`, `\x1c`, `\x1d` and `\x1e`, but not at the Unicode line separators.
- `IGNORECASE` is not modelled, because it belongs to the composite pattern only.
- `str(cell)` is the identity, because every cell of a row is already a string.
- The workbook is not modelled: the header's styling, column widths, hyperlinks, wrapping and saving the file. This is presentation done by a foreign library; the model keeps the rows handed to `sheet.append`.
- `Report.SaveRows`: does not model what openpyxl's `sheet.append` (line 169) does to each string cell. It cuts a cell to its first 32767 characters, and it raises `IllegalCharacterError` when the cell holds a control character in `\x00`-`\x08`, `\x0b`, `\x0c` or `\x0e`-`\x1f`. `sanitize_text` removes only the whitespace ones among them (`\x0b`, `\x0c`, `\x1c`-`\x1f`), and only at the two ends of a cell, so a context such as the window around "a\x0cb 42 USC 1983" keeps one. In the source, `save_to_excel` then aborts and no workbook is saved, while `SaveRows` returns the whole sheet. The model states the rows passed to `sheet.append`, not the cells openpyxl stores; the checks belong to the foreign library.
- The thread pool and pandas imports are unused in the source.
- `SectionInference.ContextMissing`: stated only for pages that end with a line terminator. For other pages, whether a line is accepted depends on the last character, and the lemma says nothing about them.
