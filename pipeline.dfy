/** `extract_us_code_citations`: every citation the pattern finds on a document's pages,
    cleaned, with the link to its page, the section it stands in and the text around it.

    The composite citation pattern is a parameter, `finditer`: for each page text, the spans
    of its matches. Reading the PDF is a parameter too: a document is either unreadable
    (opening or parsing it raised) or the list of its page texts, "" standing for a page
    from which no text could be extracted. */
module CitationPipeline {
  import opened Wrappers
  import opened Text
  import opened Sanitizer
  import opened Normalizer
  import opened TocExtractor
  import opened SectionInference

  /** How many characters on each side of a match go into its context. */
  const ContextRadius := 100

  /** The separator between a document's URL and a page number in a page link. */
  const PageFragment := "#page="

  /** Where one match of the citation pattern lies in a page text. */
  datatype Span = Span(start: nat, end: nat)

  /** A PDF as the reader delivers it. */
  datatype PdfDocument = Unreadable | Readable(pages: seq<string>)

  /** One result row: `(citation, citation_page_url, section_name, context, url)`. */
  datatype CitationRecord =
    CitationRecord(citation: string, pageUrl: string, section: string, context: string, url: string)

  /** All spans lie inside `text`. */
  predicate ValidSpans(text: string, spans: seq<Span>) {
    forall i :: 0 <= i < |spans| ==> spans[i].start <= spans[i].end <= |text|
  }

  /** What `re.finditer` guarantees of the spans it reports. */
  ghost predicate SpansInText(finditer: string -> seq<Span>) {
    forall text :: ValidSpans(text, finditer(text))
  }

  /** `text[max(0, start - 100):min(len(text), end + 100)]`: up to 100 characters on each
      side of the match, fewer only where the page ends. */
  function ContextWindow(text: string, m: Span): (w: Span)
    requires m.start <= m.end <= |text|
    ensures w.start <= m.start && m.end <= w.end <= |text|
    ensures m.start - w.start <= ContextRadius && w.end - m.end <= ContextRadius
    ensures w.start == 0 || m.start - w.start == ContextRadius
    ensures w.end == |text| || w.end - m.end == ContextRadius
  {
    Span(Max(0, m.start - ContextRadius), Min(|text|, m.end + ContextRadius))
  }

  /** The sanitized window around a match. */
  function ContextOf(text: string, m: Span): (c: string)
    requires m.start <= m.end <= |text|
    ensures SingleLine(c) && Stripped(c)
    ensures |c| <= (m.end - m.start) + 2 * ContextRadius
  {
    var w := ContextWindow(text, m);
    SanitizeText(text[w.start..w.end])
  }

  /** `f"{url}#page={page}"`. */
  function PageAnchor(url: string, page: nat): string {
    url + PageFragment + NatToString(page)
  }

  /** A page link splits back into the document's URL and the page number. */
  lemma PageAnchorRoundTrip(url: string, page: nat)
    ensures var a := PageAnchor(url, page);
      |a| > |url| + |PageFragment| && a[..|url|] == url &&
      a[|url|..|url| + |PageFragment|] == PageFragment &&
      DigitsValue(a[|url| + |PageFragment|..]) == page
  {
    var a := PageAnchor(url, page);
    assert a[|url| + |PageFragment|..] == NatToString(page);
    assert a[|url|..|url| + |PageFragment|] == PageFragment;
    DigitsValueOfNatToString(page);
  }

  /** Distinct pages of one document get distinct links. */
  lemma PageAnchorInjective(url: string, page: nat, other: nat)
    requires PageAnchor(url, page) == PageAnchor(url, other)
    ensures page == other
  {
    PageAnchorRoundTrip(url, page);
    PageAnchorRoundTrip(url, other);
  }

  /** The row for match `m` on page `k` (counted from 0) of a document at `url`. */
  function RecordOf(url: string, toc: seq<TocEntry>, k: nat, text: string, m: Span): CitationRecord
    requires m.start <= m.end <= |text|
  {
    var context := ContextOf(text, m);
    CitationRecord(CleanCitation(text[m.start..m.end]), PageAnchor(url, k + 1),
      InferSection(toc, k + 1, context, text), context, url)
  }

  /** The context as the loop computes it. */
  lemma ContextOfIs(text: string, m: Span, lo: int, hi: int)
    requires m.start <= m.end <= |text|
    requires lo == Max(0, m.start - ContextRadius) && hi == Min(|text|, m.end + ContextRadius)
    ensures 0 <= lo <= hi <= |text| && ContextOf(text, m) == SanitizeText(text[lo..hi])
  {
    assert ContextWindow(text, m) == Span(lo, hi);
  }

  /** The row for a match, built from its parts as the loop builds it. */
  lemma RecordOfParts(url: string, toc: seq<TocEntry>, k: nat, text: string, m: Span, lo: int, hi: int)
    requires m.start <= m.end <= |text|
    requires lo == Max(0, m.start - ContextRadius) && hi == Min(|text|, m.end + ContextRadius)
    ensures 0 <= lo <= hi <= |text|
    ensures var context := SanitizeText(text[lo..hi]);
      RecordOf(url, toc, k, text, m) == CitationRecord(CleanCitation(text[m.start..m.end]),
        url + PageFragment + NatToString(k + 1), InferSection(toc, k + 1, context, text), context, url)
  {
    ContextOfIs(text, m, lo, hi);
  }

  /** The rows of page `k`: one per match, in match order. */
  function PageRecords(url: string, toc: seq<TocEntry>, k: nat, text: string, spans: seq<Span>)
    : (r: seq<CitationRecord>)
    requires ValidSpans(text, spans)
    ensures |r| == |spans|
    ensures forall i :: 0 <= i < |r| ==> r[i] == RecordOf(url, toc, k, text, spans[i])
  {
    seq(|spans|, i requires 0 <= i < |spans| => RecordOf(url, toc, k, text, spans[i]))
  }

  /** The rows of the first `n` pages, page after page. */
  function PagesRecords(url: string, toc: seq<TocEntry>, pages: seq<string>,
                        finditer: string -> seq<Span>, n: nat): seq<CitationRecord>
    requires SpansInText(finditer) && n <= |pages|
  {
    if n == 0 then []
    else if pages[n - 1] == "" then PagesRecords(url, toc, pages, finditer, n - 1)
    else
      var text := pages[n - 1];
      PagesRecords(url, toc, pages, finditer, n - 1) + PageRecords(url, toc, n - 1, text, finditer(text))
  }

  /** `extract_us_code_citations(pdf_path, url)`. */
  function Citations(doc: PdfDocument, url: string, finditer: string -> seq<Span>)
    : seq<CitationRecord>
    requires SpansInText(finditer)
  {
    match doc
    case Unreadable => []
    case Readable(pages) =>
      if TocRaises(pages) then [] else PagesRecords(url, Toc(pages), pages, finditer, |pages|)
  }

  /** A number too long for `int()` in the table of contents raises inside the handler, so
      the document gives no rows at all. */
  lemma TocRaisesNoRows(pages: seq<string>, url: string, finditer: string -> seq<Span>, k: nat, j: nat)
    requires SpansInText(finditer)
    requires k < SearchedPages(pages) && HasMarker(pages[k])
    requires j < |TocMatches(pages[k])| && TocMatches(pages[k])[j].end - TocMatches(pages[k])[j].numberStart > IntMaxStrDigits
    ensures Citations(Readable(pages), url, finditer) == []
  {
    assert TooManyDigits(TocMatches(pages[k])[j]);
    PageMakesTocRaise(pages, k);
  }

  /** Pages without text contribute no rows. */
  lemma {:induction false} BlankPagesNoRecords(url: string, toc: seq<TocEntry>, pages: seq<string>,
                                               finditer: string -> seq<Span>, n: nat)
    requires SpansInText(finditer) && n <= |pages|
    requires forall k :: 0 <= k < n ==> pages[k] == ""
    ensures PagesRecords(url, toc, pages, finditer, n) == []
  {
    if n > 0 {
      BlankPagesNoRecords(url, toc, pages, finditer, n - 1);
    }
  }

  /** The number of matches on the first `n` pages that have text. */
  function MatchCount(pages: seq<string>, finditer: string -> seq<Span>, n: nat): nat
    requires n <= |pages|
  {
    if n == 0 then 0
    else MatchCount(pages, finditer, n - 1) + (if pages[n - 1] == "" then 0 else |finditer(pages[n - 1])|)
  }

  /** One row per match on a page with text. */
  lemma {:induction false} RecordCount(url: string, toc: seq<TocEntry>, pages: seq<string>,
                                       finditer: string -> seq<Span>, n: nat)
    requires SpansInText(finditer) && n <= |pages|
    ensures |PagesRecords(url, toc, pages, finditer, n)| == MatchCount(pages, finditer, n)
  {
    if n > 0 {
      RecordCount(url, toc, pages, finditer, n - 1);
    }
  }

  /** Reading more pages only adds rows at the end. */
  lemma {:induction false} RecordsPrefix(url: string, toc: seq<TocEntry>, pages: seq<string>,
                                         finditer: string -> seq<Span>, m: nat, n: nat)
    requires SpansInText(finditer) && m <= n <= |pages|
    ensures var short := PagesRecords(url, toc, pages, finditer, m);
      var long := PagesRecords(url, toc, pages, finditer, n);
      |short| <= |long| && long[..|short|] == short
    decreases n
  {
    if m < n {
      RecordsPrefix(url, toc, pages, finditer, m, n - 1);
      RecordsStep(url, toc, pages, finditer, n);
      PrefixOfPrefix(PagesRecords(url, toc, pages, finditer, m),
                     PagesRecords(url, toc, pages, finditer, n - 1),
                     PagesRecords(url, toc, pages, finditer, n));
    } else {
      var long := PagesRecords(url, toc, pages, finditer, n);
      assert long[..|long|] == long;
    }
  }

  /** One more page keeps the rows of the pages before it at the front. */
  lemma RecordsStep(url: string, toc: seq<TocEntry>, pages: seq<string>,
                    finditer: string -> seq<Span>, n: nat)
    requires SpansInText(finditer) && 0 < n <= |pages|
    ensures var mid := PagesRecords(url, toc, pages, finditer, n - 1);
      var long := PagesRecords(url, toc, pages, finditer, n);
      |mid| <= |long| && long[..|mid|] == mid
  {
    var mid := PagesRecords(url, toc, pages, finditer, n - 1);
    var long := PagesRecords(url, toc, pages, finditer, n);
    if pages[n - 1] == "" {
      assert long[..|mid|] == mid;
    } else {
      var text := pages[n - 1];
      assert long == mid + PageRecords(url, toc, n - 1, text, finditer(text));
      assert long[..|mid|] == mid;
    }
  }

  /** Every row comes from one match on one page with text. */
  lemma {:induction false} RecordOrigin(url: string, toc: seq<TocEntry>, pages: seq<string>,
                                        finditer: string -> seq<Span>, n: nat, i: nat)
    returns (k: nat, j: nat)
    requires SpansInText(finditer) && n <= |pages|
    requires i < |PagesRecords(url, toc, pages, finditer, n)|
    ensures k < n && pages[k] != "" && j < |finditer(pages[k])|
    ensures var m := finditer(pages[k])[j];
      (m.start <= m.end <= |pages[k]| &&
       PagesRecords(url, toc, pages, finditer, n)[i] == RecordOf(url, toc, k, pages[k], m))
    decreases n
  {
    var before := PagesRecords(url, toc, pages, finditer, n - 1);
    if i < |before| {
      k, j := RecordOrigin(url, toc, pages, finditer, n - 1, i);
    } else {
      k, j := n - 1, i - |before|;
      assert ValidSpans(pages[k], finditer(pages[k]));
    }
  }

  /** What every row holds: the document's URL, the link to the page of its match, a
      context of one stripped line at most 200 characters longer than the match, a citation
      of one line when the match is one line, and the section inferred from the table of
      contents and the page, a stripped line when the table's headings are. */
  lemma RecordFields(url: string, toc: seq<TocEntry>, k: nat, text: string, m: Span)
    requires m.start <= m.end <= |text|
    ensures var r := RecordOf(url, toc, k, text, m);
      r.url == url && r.pageUrl == PageAnchor(url, k + 1) &&
      SingleLine(r.context) && Stripped(r.context) && |r.context| <= (m.end - m.start) + 2 * ContextRadius &&
      (SingleLine(text[m.start..m.end]) ==> SingleLine(r.citation)) &&
      r.section == InferSection(toc, k + 1, r.context, text) &&
      ((forall e :: 0 <= e < |toc| ==> SingleLine(toc[e].heading) && Stripped(toc[e].heading)) ==>
        SingleLine(r.section) && Stripped(r.section))
  {
    var context := ContextOf(text, m);
    if forall e :: 0 <= e < |toc| ==> SingleLine(toc[e].heading) && Stripped(toc[e].heading) {
      InferSectionClean(toc, k + 1, context, text);
    }
  }

  /** A row that links to page `page` of the document at `url` and whose section and
      context are each one stripped line. */
  predicate CleanRow(r: CitationRecord, url: string, page: nat) {
    r.url == url && r.pageUrl == PageAnchor(url, page) &&
    SingleLine(r.section) && Stripped(r.section) && SingleLine(r.context) && Stripped(r.context)
  }

  /** With clean headings in the table of contents, every row is clean. */
  lemma RecordClean(url: string, toc: seq<TocEntry>, k: nat, text: string, m: Span)
    requires m.start <= m.end <= |text|
    requires forall e :: 0 <= e < |toc| ==> SingleLine(toc[e].heading) && Stripped(toc[e].heading)
    ensures CleanRow(RecordOf(url, toc, k, text, m), url, k + 1)
  {
    RecordFields(url, toc, k, text, m);
  }

  /** Every row of a readable document is clean and links to page `k + 1`, the page with
      index `k`, which has text. */
  lemma CitationRows(pages: seq<string>, url: string, finditer: string -> seq<Span>, i: nat)
    returns (k: nat)
    requires SpansInText(finditer) && i < |Citations(Readable(pages), url, finditer)|
    ensures k < |pages| && pages[k] != ""
    ensures CleanRow(Citations(Readable(pages), url, finditer)[i], url, k + 1)
  {
    var toc := Toc(pages);
    var rows := PagesRecords(url, toc, pages, finditer, |pages|);
    assert Citations(Readable(pages), url, finditer) == rows;
    var j;
    k, j := RecordOrigin(url, toc, pages, finditer, |pages|, i);
    TocHeadingsSanitized(pages);
    assert forall e :: 0 <= e < |toc| ==> SingleLine(toc[e].heading) && Stripped(toc[e].heading);
    RecordClean(url, toc, k, pages[k], finditer(pages[k])[j]);
  }

  /** The loop over the matches of one page. */
  method PageCitations(acc: seq<CitationRecord>, url: string, toc: seq<TocEntry>, pageNum: nat,
                       text: string, matches: seq<Span>) returns (r: seq<CitationRecord>)
    requires ValidSpans(text, matches)
    ensures r == acc + PageRecords(url, toc, pageNum, text, matches)
  {
    ghost var records := PageRecords(url, toc, pageNum, text, matches);
    r := acc;
    var j := 0;
    while j < |matches|
      invariant j <= |matches|
      invariant r == acc + records[..j]
    {
      var m := matches[j];
      var citation := CleanCitation(text[m.start..m.end]);
      var lo := Max(0, m.start - ContextRadius);
      var hi := Min(|text|, m.end + ContextRadius);
      var context := SanitizeText(text[lo..hi]);
      var section := InferSectionName(toc, pageNum + 1, context, text);
      var pageUrl := url + PageFragment + NatToString(pageNum + 1);
      var record := CitationRecord(citation, pageUrl, section, context, url);
      RecordOfParts(url, toc, pageNum, text, m, lo, hi);
      assert record == records[j];
      PrefixGrows(records, j);
      r := r + [record];
      j := j + 1;
    }
    assert records[..j] == records;
  }

  /** `extract_us_code_citations`: the table of contents first, then every page in order;
      an unreadable document gives no rows, as the exception handler does. */
  method ExtractUsCodeCitations(doc: PdfDocument, url: string, finditer: string -> seq<Span>)
    returns (citations: seq<CitationRecord>)
    requires SpansInText(finditer)
    ensures citations == Citations(doc, url, finditer)
  {
    match doc
    case Unreadable =>
      citations := [];
    case Readable(pages) =>
      var read := ExtractToc(pages);
      citations := [];
      if read.None? {
        return;
      }
      var toc := read.value;
      var pageNum := 0;
      while pageNum < |pages|
        invariant pageNum <= |pages|
        invariant citations == PagesRecords(url, toc, pages, finditer, pageNum)
      {
        var text := pages[pageNum];
        if text != "" {
          var matches := finditer(text);
          citations := PageCitations(citations, url, toc, pageNum, text, matches);
        }
        pageNum := pageNum + 1;
      }
  }
}
