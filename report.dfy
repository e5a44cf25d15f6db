/** `save_to_excel`: the rows written to the sheet. Every cell is sanitized, and the citation
    cell is cleaned once more, so `clean_citation` reaches each citation twice: once when it
    is extracted and once here.

    The workbook is the sheet's rows, the header row first; column widths, hyperlink styling,
    wrapping and saving the file are presentation and are not part of this model. */
module Report {
  import opened Text
  import opened Sanitizer
  import opened Normalizer
  import opened Scenarios
  import opened CitationPipeline

  /** The header row. */
  const Header: seq<string> := ["Citation", "Citation Page", "Inferred Section Name", "Context", "URL"]

  /** A row as it arrives: the five fields of a record, in tuple order. */
  function Cells(r: CitationRecord): (row: seq<string>)
    ensures |row| == |Header|
  {
    [r.citation, r.pageUrl, r.section, r.context, r.url]
  }

  /** `sanitized_row`: every cell sanitized, then the first cleaned. An empty row has no
      first cell to clean. */
  function SheetRow(row: seq<string>): (r: seq<string>)
    requires |row| > 0
    ensures |r| == |row|
    ensures forall j :: 0 <= j < |r| ==> SingleLine(r[j])
    ensures forall j :: 1 <= j < |r| ==> Stripped(r[j])
  {
    var sanitized := seq(|row|, j requires 0 <= j < |row| => SanitizeText(row[j]));
    sanitized[0 := CleanCitation(sanitized[0])]
  }

  /** The data rows of the sheet, one per record, in order. */
  function SheetRows(data: seq<CitationRecord>): (rows: seq<seq<string>>)
    ensures |rows| == |data|
    ensures forall i :: 0 <= i < |rows| ==> rows[i] == SheetRow(Cells(data[i]))
  {
    seq(|data|, i requires 0 <= i < |data| => SheetRow(Cells(data[i])))
  }

  /** The citation cell is the sanitized citation, cleaned; a later cell is its field,
      sanitized. */
  lemma SheetRowCells(row: seq<string>)
    requires |row| > 0
    ensures SheetRow(row)[0] == CleanCitation(SanitizeText(row[0]))
    ensures forall j :: 1 <= j < |row| ==> SheetRow(row)[j] == SanitizeText(row[j])
  {
  }

  /** A cell after the first is written exactly as it arrives if and only if it is already
      one stripped line. */
  lemma SheetCellUnchanged(row: seq<string>, j: nat)
    requires 1 <= j < |row|
    ensures SheetRow(row)[j] == row[j] <==> SingleLine(row[j]) && Stripped(row[j])
  {
    SheetRowCells(row);
    SanitizeFixedPoint(row[j]);
  }

  /** Rewriting a written row again leaves every cell after the first as it is. */
  lemma SheetRowStable(row: seq<string>)
    requires |row| > 0
    ensures forall j :: 1 <= j < |row| ==> SheetRow(SheetRow(row))[j] == SheetRow(row)[j]
  {
    var once := SheetRow(row);
    forall j | 1 <= j < |row|
      ensures SheetRow(once)[j] == once[j]
    {
      SheetCellUnchanged(once, j);
    }
  }

  /** A page link is one stripped line when the document's URL is. */
  lemma PageAnchorClean(url: string, page: nat)
    requires SingleLine(url) && Stripped(url)
    ensures SingleLine(PageAnchor(url, page)) && Stripped(PageAnchor(url, page))
  {
    var digits := NatToString(page);
    var a := url + PageFragment + digits;
    assert a == PageAnchor(url, page);
    assert IsDigit(digits[|digits| - 1]);
    assert a[|a| - 1] == digits[|digits| - 1];
    forall k | 0 <= k < |a| ensures !IsBreak(a[k]) {
      if k < |url| {
        assert a[k] == url[k];
      } else if k < |url| + |PageFragment| {
        assert a[k] == PageFragment[k - |url|];
      } else {
        assert a[k] == digits[k - |url| - |PageFragment|];
      }
    }
    if |url| == 0 {
      assert a[0] == '#';
    } else {
      assert a[0] == url[0];
    }
  }

  /** A row whose cells after the first are each one stripped line is written with those
      cells as they are and only the citation rewritten. */
  lemma SheetOfSettledRow(row: seq<string>)
    requires |row| > 0
    requires forall j :: 1 <= j < |row| ==> SingleLine(row[j]) && Stripped(row[j])
    ensures SheetRow(row) == row[0 := CleanCitation(SanitizeText(row[0]))]
  {
    var written := SheetRow(row);
    SheetRowCells(row);
    forall j | 1 <= j < |row| ensures written[j] == row[j] {
      SanitizeFixedPoint(row[j]);
    }
  }

  /** Every field after the citation of a clean row of a document whose URL is one stripped
      line is itself one stripped line. */
  lemma CleanRowSettled(r: CitationRecord, url: string, page: nat)
    requires CleanRow(r, url, page) && SingleLine(url) && Stripped(url)
    ensures forall j :: 1 <= j < |Cells(r)| ==> SingleLine(Cells(r)[j]) && Stripped(Cells(r)[j])
  {
    PageAnchorClean(url, page);
  }

  /** For a clean row of a document whose URL is one stripped line, the sheet shows the
      page link, the section, the context and the URL exactly as extracted, and the
      citation cleaned a second time. */
  lemma SheetOfCleanRow(r: CitationRecord, url: string, page: nat)
    requires CleanRow(r, url, page) && SingleLine(url) && Stripped(url)
    ensures SheetRow(Cells(r)) == Cells(r)[0 := CleanCitation(SanitizeText(r.citation))]
  {
    CleanRowSettled(r, url, page);
    SheetOfSettledRow(Cells(r));
  }

  /** The sheet built from the rows of a readable document at a URL that is one stripped
      line: each record's page link, section, context and URL as extracted, its citation
      cleaned a second time. */
  lemma SheetOfCitations(pages: seq<string>, url: string, finditer: string -> seq<Span>, i: nat)
    requires SpansInText(finditer) && SingleLine(url) && Stripped(url)
    requires i < |Citations(Readable(pages), url, finditer)|
    ensures var r := Citations(Readable(pages), url, finditer)[i];
      SheetRows(Citations(Readable(pages), url, finditer))[i] ==
        Cells(r)[0 := CleanCitation(SanitizeText(r.citation))]
  {
    var k := CitationRows(pages, url, finditer, i);
    SheetOfCleanRow(Citations(Readable(pages), url, finditer)[i], url, k + 1);
  }

  /** "<t>USC <n> USC <m>" is one stripped line. */
  lemma HalfCleanedSettled(c: string, a: nat, b: nat)
    requires HalfCleaned(c, a, b)
    ensures SingleLine(c) && Stripped(c)
  {
    HalfCleanedAlphabet(c, a, b);
    forall k | 0 <= k < |c| ensures !IsBreak(c[k]) {
      assert IsDigit(c[k]) || c[k] == ' ' || c[k] == 'U' || c[k] == 'S' || c[k] == 'C';
    }
    assert IsDigit(c[0]) && IsDigit(c[|c| - 1]);
  }

  /** A citation the pipeline produced from "<t>USC <n>USC<m>" is "<t>USC <n> USC <m>",
      but the sheet shows "<t> USC <n> USC <m>": the second cleaning changes it. */
  lemma SheetRecleansRunOn(s: string, a: nat, b: nat, c: nat, row: seq<string>)
    requires RunOnCitations(s, a, b, c) && |row| > 0 && row[0] == CleanCitation(s)
    ensures SheetRow(row)[0] == s[..a] + " USC " + s[a + 4..b] + " USC " + s[c..]
    ensures SheetRow(row)[0] != row[0]
  {
    var once := s[..b] + " USC " + s[c..];
    CleanNotIdempotent(s, a, b, c);
    FirstPassLayout(s, a, b, c);
    HalfCleanedSettled(once, a, b);
    SanitizeFixedPoint(once);
    assert SanitizeText(row[0]) == row[0];
    SheetRowCells(row);
  }

  /** The row the loop body builds is `SheetRow` of the record's cells. */
  lemma SanitizedRowIs(row: seq<string>, sanitized: seq<string>)
    requires |row| > 0 && sanitized == seq(|row|, j requires 0 <= j < |row| => SanitizeText(row[j]))
    ensures sanitized[0 := CleanCitation(sanitized[0])] == SheetRow(row)
  {
  }

  /** One more record adds its row at the end. */
  lemma SheetRowsGrow(data: seq<CitationRecord>, i: nat)
    requires i < |data|
    ensures SheetRows(data[..i + 1]) == SheetRows(data[..i]) + [SheetRow(Cells(data[i]))]
  {
    var longer := SheetRows(data[..i + 1]);
    var grown := SheetRows(data[..i]) + [SheetRow(Cells(data[i]))];
    forall k | 0 <= k < |longer| ensures longer[k] == grown[k] {
      assert data[..i + 1][k] == if k < i then data[..i][k] else data[i];
    }
  }

  /** The loop of `save_to_excel`: the header, then one row per record. */
  method SaveRows(data: seq<CitationRecord>) returns (sheet: seq<seq<string>>)
    ensures sheet == [Header] + SheetRows(data)
  {
    sheet := [Header];
    for i := 0 to |data|
      invariant sheet == [Header] + SheetRows(data[..i])
    {
      var row := Cells(data[i]);
      var sanitizedRow := seq(|row|, j requires 0 <= j < |row| => SanitizeText(row[j]));
      SanitizedRowIs(row, sanitizedRow);
      sanitizedRow := sanitizedRow[0 := CleanCitation(sanitizedRow[0])];
      SheetRowsGrow(data, i);
      sheet := sheet + [sanitizedRow];
    }
    assert data[..|data|] == data;
  }
}
