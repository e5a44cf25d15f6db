/** `extract_toc`: the table of contents read from the first pages of a document. Each page
    is given as the text the PDF reader extracted from it; "" stands for a page without text. */
module TocExtractor {
  import opened Wrappers
  import opened Text
  import opened Sanitizer

  /** The phrase that marks a page as holding the table of contents. */
  const TocMarker := "Table of Contents"

  /** How many leading pages are searched. */
  const TocPageLimit := 10

  /** CPython's default limit on how many digits `int()` converts from a string
      (`sys.get_int_max_str_digits()`): a longer digit string raises `ValueError`. */
  const IntMaxStrDigits := 4300

  /** A heading and the page it starts on. */
  datatype TocEntry = TocEntry(heading: string, startPage: nat)

  /** Where one match of `(?P<heading>.+?)\s+(\d+)` lies: the heading `s[start..headingEnd]`,
      the whitespace `s[headingEnd..numberStart]` and the number `s[numberStart..end]`. */
  datatype TocMatch = TocMatch(start: nat, headingEnd: nat, numberStart: nat, end: nat)

  /** `.` matches every character except "\n". */
  predicate NoNewline(s: string, lo: nat, hi: nat)
    requires lo <= hi <= |s|
  {
    forall k :: lo <= k < hi ==> s[k] != '\n'
  }

  /** Whether `\s+(\d+)` can start at `h`, and where its number starts. The whitespace run is
      taken whole: a shorter one would leave whitespace, not a digit, in front of `\d`. */
  function NumberAfter(s: string, h: nat): (r: Option<nat>)
    requires h <= |s|
    ensures r.Some? ==> h < r.value < |s| && SpacesIn(s, h, r.value) && IsDigit(s[r.value])
    ensures r.None? ==> forall e :: h < e < |s| && SpacesIn(s, h, e) ==> !IsDigit(s[e])
  {
    var e := RunEnd(s, h, IsSpace);
    if h < e < |s| && IsDigit(s[e]) then Some(e) else None
  }

  /** A match of the pattern, with the number run taken whole. */
  predicate ValidTocMatch(s: string, m: TocMatch) {
    m.start < m.headingEnd < m.numberStart < m.end <= |s| &&
    NoNewline(s, m.start, m.headingEnd) && SpacesIn(s, m.headingEnd, m.numberStart) &&
    DigitsIn(s, m.numberStart, m.end) && (m.end == |s| || !IsDigit(s[m.end]))
  }

  /** The lazy heading `.+?` from `p`, tried with `s[p..h]`, then one character longer, and so
      on: the first heading that `\s+(\d+)` follows, before the heading would take in a "\n". */
  function HeadingSearch(s: string, p: nat, h: nat): (r: Option<TocMatch>)
    requires p < h <= |s| && NoNewline(s, p, h - 1)
    ensures r.Some? ==> r.value.start == p && h <= r.value.headingEnd && ValidTocMatch(s, r.value)
    ensures r.Some? ==> forall g :: h <= g < r.value.headingEnd ==> NumberAfter(s, g).None?
    ensures r.None? ==> forall g :: h <= g <= |s| && NoNewline(s, p, g) ==> NumberAfter(s, g).None?
    decreases |s| - h
  {
    if s[h - 1] == '\n' then None
    else
      match NumberAfter(s, h)
      case Some(e) => Some(TocMatch(p, h, e, RunEnd(s, e, IsDigit)))
      case None => if h == |s| then None else HeadingSearch(s, p, h + 1)
  }

  /** The match of `(?P<heading>.+?)\s+(\d+)` that starts at `p`, if any: the one with the
      shortest heading. There is none exactly when no heading from `p` that stays on its line
      is followed by whitespace and a digit. */
  function TocMatchAt(s: string, p: nat): (r: Option<TocMatch>)
    requires p <= |s|
    ensures r.Some? ==> r.value.start == p && ValidTocMatch(s, r.value)
    ensures r.Some? ==> forall g :: p < g < r.value.headingEnd ==> NumberAfter(s, g).None?
    ensures r.None? ==> forall g :: p < g <= |s| && NoNewline(s, p, g) ==> NumberAfter(s, g).None?
  {
    if p < |s| then HeadingSearch(s, p, p + 1) else None
  }

  /** No match starts at any index of `s[lo..hi]`. */
  predicate NoTocMatchIn(s: string, lo: nat, hi: nat) {
    forall q :: lo <= q < hi && q <= |s| ==> TocMatchAt(s, q).None?
  }

  /** What `TocMatchAt` finds at each index `0..|s|` of `s`. */
  predicate TocTable(s: string, t: seq<Option<TocMatch>>) {
    |t| == |s| + 1 &&
    forall q :: 0 <= q < |t| && t[q].Some? ==> t[q].value.start == q && q < t[q].value.end <= |s|
  }

  function MatchTable(s: string): (t: seq<Option<TocMatch>>)
    ensures TocTable(s, t)
    ensures forall q :: 0 <= q <= |s| ==> t[q] == TocMatchAt(s, q)
  {
    seq(|s| + 1, q requires 0 <= q <= |s| => TocMatchAt(s, q))
  }

  /** The scan `re.findall` performs over `s[p..]`, given the match at each index: take the
      match at `p` and go on after it, or go on at `p + 1`. */
  function FindAllFrom(s: string, t: seq<Option<TocMatch>>, p: nat): (ms: seq<TocMatch>)
    requires TocTable(s, t) && p <= |s|
    ensures forall i :: 0 <= i < |ms| ==> p <= ms[i].start <= |s| && t[ms[i].start] == Some(ms[i])
    decreases |s| - p
  {
    if p == |s| then []
    else
      match t[p]
      case Some(m) => [m] + FindAllFrom(s, t, m.end)
      case None => FindAllFrom(s, t, p + 1)
  }

  /** `re.findall(toc_pattern, s)`. */
  function TocMatches(s: string): (ms: seq<TocMatch>)
    ensures forall i :: 0 <= i < |ms| ==> ValidTocMatch(s, ms[i])
  {
    var t := MatchTable(s);
    var ms := FindAllFrom(s, t, 0);
    assert forall i :: 0 <= i < |ms| ==> Some(ms[i]) == TocMatchAt(s, ms[i].start);
    ms
  }

  /** Each of `ms` is the match that starts where it starts. */
  predicate FoundAt(s: string, ms: seq<TocMatch>) {
    forall i :: 0 <= i < |ms| ==> ms[i].start <= |s| && TocMatchAt(s, ms[i].start) == Some(ms[i])
  }

  /** `ms` come in text order and do not overlap. */
  predicate InOrder(ms: seq<TocMatch>) {
    forall i :: 0 <= i < |ms| - 1 ==> ms[i].end <= ms[i + 1].start
  }

  /** No match starts from `p` on but the ones in `ms`, nor inside any of them. */
  predicate NoneSkipped(s: string, p: nat, ms: seq<TocMatch>) {
    (|ms| == 0 ==> NoTocMatchIn(s, p, |s|)) &&
    (|ms| > 0 ==> NoTocMatchIn(s, p, ms[0].start) && NoTocMatchIn(s, ms[|ms| - 1].end, |s|)) &&
    (forall i :: 0 <= i < |ms| - 1 ==> NoTocMatchIn(s, ms[i].end, ms[i + 1].start))
  }

  /** The table has no match at any index of `lo..hi`. */
  predicate NoTableMatchIn(t: seq<Option<TocMatch>>, lo: nat, hi: nat) {
    forall q :: lo <= q < hi && q < |t| ==> t[q].None?
  }

  /** The scan returns matches in text order, without overlap. */
  lemma {:induction false} FindAllInOrder(s: string, t: seq<Option<TocMatch>>, p: nat)
    requires TocTable(s, t) && p <= |s|
    ensures InOrder(FindAllFrom(s, t, p))
    decreases |s| - p
  {
    if p < |s| && t[p].Some? {
      var m := t[p].value;
      var rest := FindAllFrom(s, t, m.end);
      assert FindAllFrom(s, t, p) == [m] + rest;
      FindAllInOrder(s, t, m.end);
      var ms := [m] + rest;
      forall i | 0 <= i < |ms| - 1 ensures ms[i].end <= ms[i + 1].start {
        assert ms[i + 1] == rest[i];
        if i > 0 {
          assert ms[i] == rest[i - 1];
        }
      }
    } else if p < |s| {
      assert FindAllFrom(s, t, p) == FindAllFrom(s, t, p + 1);
      FindAllInOrder(s, t, p + 1);
    }
  }

  /** The scan skips no match before its first one. */
  lemma {:induction false} FindAllFirst(s: string, t: seq<Option<TocMatch>>, p: nat)
    requires TocTable(s, t) && p <= |s|
    ensures var ms := FindAllFrom(s, t, p);
      (|ms| == 0 ==> NoTableMatchIn(t, p, |s|)) && (|ms| > 0 ==> NoTableMatchIn(t, p, ms[0].start))
    decreases |s| - p
  {
    if p < |s| && t[p].None? {
      assert FindAllFrom(s, t, p) == FindAllFrom(s, t, p + 1);
      FindAllFirst(s, t, p + 1);
    }
  }

  /** The scan skips no match after its last one. */
  lemma {:induction false} FindAllLast(s: string, t: seq<Option<TocMatch>>, p: nat)
    requires TocTable(s, t) && p <= |s|
    ensures var ms := FindAllFrom(s, t, p);
      |ms| > 0 ==> NoTableMatchIn(t, ms[|ms| - 1].end, |s|)
    decreases |s| - p
  {
    if p < |s| && t[p].Some? {
      var m := t[p].value;
      var rest := FindAllFrom(s, t, m.end);
      assert FindAllFrom(s, t, p) == [m] + rest;
      if |rest| > 0 {
        FindAllLast(s, t, m.end);
        assert ([m] + rest)[|rest|] == rest[|rest| - 1];
      } else {
        FindAllFirst(s, t, m.end);
      }
    } else if p < |s| {
      assert FindAllFrom(s, t, p) == FindAllFrom(s, t, p + 1);
      FindAllLast(s, t, p + 1);
    }
  }

  /** The scan skips no match between two of its matches. */
  lemma {:induction false} FindAllGaps(s: string, t: seq<Option<TocMatch>>, p: nat)
    requires TocTable(s, t) && p <= |s|
    ensures var ms := FindAllFrom(s, t, p);
      forall i :: 0 <= i < |ms| - 1 ==> NoTableMatchIn(t, ms[i].end, ms[i + 1].start)
    decreases |s| - p
  {
    if p < |s| && t[p].Some? {
      var m := t[p].value;
      var rest := FindAllFrom(s, t, m.end);
      assert FindAllFrom(s, t, p) == [m] + rest;
      FindAllGaps(s, t, m.end);
      FindAllFirst(s, t, m.end);
      var ms := [m] + rest;
      forall i | 0 <= i < |ms| - 1 ensures NoTableMatchIn(t, ms[i].end, ms[i + 1].start) {
        assert ms[i + 1] == rest[i];
        if i > 0 {
          assert ms[i] == rest[i - 1];
        }
      }
    } else if p < |s| {
      assert FindAllFrom(s, t, p) == FindAllFrom(s, t, p + 1);
      FindAllGaps(s, t, p + 1);
    }
  }

  /** Where the table of `s` has no match, `s` has none. */
  lemma NoTableMatchNoTocMatch(s: string, lo: nat, hi: nat)
    requires NoTableMatchIn(MatchTable(s), lo, hi)
    ensures NoTocMatchIn(s, lo, hi)
  {
    var t := MatchTable(s);
    forall q | lo <= q < hi && q <= |s| ensures TocMatchAt(s, q).None? {
      assert t[q].None?;
    }
  }

  /** `TocMatches` is what `re.findall` returns: exactly the leftmost non-overlapping matches,
      in text order. */
  lemma TocMatchesLeftmost(s: string)
    ensures FoundAt(s, TocMatches(s)) && InOrder(TocMatches(s)) && NoneSkipped(s, 0, TocMatches(s))
  {
    var t := MatchTable(s);
    var ms := FindAllFrom(s, t, 0);
    assert TocMatches(s) == ms;
    FindAllInOrder(s, t, 0);
    FindAllFirst(s, t, 0);
    FindAllLast(s, t, 0);
    FindAllGaps(s, t, 0);
    if |ms| == 0 {
      NoTableMatchNoTocMatch(s, 0, |s|);
    } else {
      NoTableMatchNoTocMatch(s, 0, ms[0].start);
      NoTableMatchNoTocMatch(s, ms[|ms| - 1].end, |s|);
    }
    forall i | 0 <= i < |ms| - 1 ensures NoTocMatchIn(s, ms[i].end, ms[i + 1].start) {
      NoTableMatchNoTocMatch(s, ms[i].end, ms[i + 1].start);
    }
  }

  /** The number of a match is where `\s+` from the end of its heading stops. */
  lemma NumberAfterMatch(s: string, m: TocMatch)
    requires ValidTocMatch(s, m)
    ensures NumberAfter(s, m.headingEnd) == Some(m.numberStart)
  {
    RunEndIs(s, m.headingEnd, m.numberStart, IsSpace);
  }

  /** The converse of what `TocMatchAt` promises: a match starts at `p` exactly when some
      heading from `p` that stays on its line is followed by whitespace and a digit, and the
      match takes the shortest such heading. */
  lemma TocMatchAtIff(s: string, p: nat)
    requires p <= |s|
    ensures TocMatchAt(s, p).Some? <==>
      exists g :: p < g <= |s| && NoNewline(s, p, g) && NumberAfter(s, g).Some?
    ensures forall g :: p < g <= |s| && NoNewline(s, p, g) && NumberAfter(s, g).Some? ==>
      TocMatchAt(s, p).Some? && TocMatchAt(s, p).value.headingEnd <= g
  {
    var r := TocMatchAt(s, p);
    if r.Some? {
      NumberAfterMatch(s, r.value);
      assert NoNewline(s, p, r.value.headingEnd);
    }
  }

  /** When the table has no match at `p..q`, the scan from `p` is the scan from `q`. */
  lemma {:induction false} FindAllSkip(s: string, t: seq<Option<TocMatch>>, p: nat, q: nat)
    requires TocTable(s, t) && p <= q <= |s| && NoTableMatchIn(t, p, q)
    ensures FindAllFrom(s, t, p) == FindAllFrom(s, t, q)
    decreases q - p
  {
    if p < q {
      assert t[p].None?;
      FindAllSkip(s, t, p + 1, q);
    }
  }

  /** No match starts on a first line without digits when the next line starts with neither
      whitespace nor a digit: every `\s+` from that line stops before a non-digit. */
  lemma DigitlessFirstLine(s: string, n: nat)
    requires n + 1 < |s| && s[n] == '\n' && !IsSpace(s[n + 1]) && !IsDigit(s[n + 1])
    requires forall k :: 0 <= k < n ==> !IsDigit(s[k])
    ensures NoTocMatchIn(s, 0, n + 1)
  {
    forall p | 0 <= p < n + 1 ensures TocMatchAt(s, p).None? {
      forall g | p < g <= |s| && NoNewline(s, p, g) ensures NumberAfter(s, g).None? {
      }
      TocMatchAtIff(s, p);
    }
  }

  /** A line `heading + " " + number` that starts at `o` and ends the text, with a heading
      free of whitespace, is one match. */
  lemma LastLineMatch(s: string, o: nat, h: nat)
    requires o < h && h + 1 < |s| && s[h] == ' '
    requires forall k :: o <= k < h ==> !IsSpace(s[k])
    requires DigitsIn(s, h + 1, |s|)
    ensures TocMatchAt(s, o) == Some(TocMatch(o, h, h + 1, |s|))
  {
    RunEndIs(s, h, h + 1, IsSpace);
    assert NoNewline(s, o, h);
    TocMatchAtIff(s, o);
    var r := TocMatchAt(s, o).value;
    forall g | o < g < h ensures NumberAfter(s, g).None? {
      RunEndIs(s, g, g, IsSpace);
    }
    NumberAfterMatch(s, r);
  }

  /** A page of two lines, the first (up to the "\n" at `n`) without digits and the second
      `heading + " " + number` (the space at `h`) with a heading that neither holds whitespace
      nor starts with a digit, has exactly one match: the second line. */
  lemma TwoLinePage(s: string, n: nat, h: nat)
    requires n + 1 < h && h + 1 < |s| && s[n] == '\n' && s[h] == ' '
    requires forall k :: 0 <= k < n ==> !IsDigit(s[k])
    requires !IsDigit(s[n + 1]) && forall k :: n + 1 <= k < h ==> !IsSpace(s[k])
    requires DigitsIn(s, h + 1, |s|)
    ensures TocMatches(s) == [TocMatch(n + 1, h, h + 1, |s|)]
  {
    DigitlessFirstLine(s, n);
    LastLineMatch(s, n + 1, h);
    var t := MatchTable(s);
    assert NoTableMatchIn(t, 0, n + 1);
    FindAllSkip(s, t, 0, n + 1);
    assert FindAllFrom(s, t, n + 1) == [TocMatch(n + 1, h, h + 1, |s|)] + FindAllFrom(s, t, |s|);
  }

  /** `(sanitize_text(match[0]), int(match[1]))`. */
  function EntryOf(s: string, m: TocMatch): TocEntry
    requires ValidTocMatch(s, m)
  {
    DigitsInSlice(s, m.numberStart, m.end);
    TocEntry(SanitizeText(s[m.start..m.headingEnd]), DigitsValue(s[m.numberStart..m.end]))
  }

  /** The entries of the matches `ms`, in their order. */
  function EntriesOf(s: string, ms: seq<TocMatch>): (r: seq<TocEntry>)
    requires forall i :: 0 <= i < |ms| ==> ValidTocMatch(s, ms[i])
    ensures |r| == |ms|
    ensures forall i :: 0 <= i < |r| ==> r[i] == EntryOf(s, ms[i])
  {
    seq(|ms|, i requires 0 <= i < |ms| => EntryOf(s, ms[i]))
  }

  /** `text and "Table of Contents" in text`. */
  predicate HasMarker(text: string) {
    |text| > 0 && Contains(text, TocMarker)
  }

  /** What one page adds to the table of contents. */
  function PageEntries(text: string): (r: seq<TocEntry>)
    ensures !HasMarker(text) ==> r == []
  {
    if HasMarker(text) then EntriesOf(text, TocMatches(text)) else []
  }

  /** `int(match[1])` raises: the number has more digits than `int()` converts. */
  predicate TooManyDigits(m: TocMatch) {
    m.end - m.numberStart > IntMaxStrDigits
  }

  /** The number of one of the matches `ms` is too long for `int()`. */
  predicate AnyTooManyDigits(ms: seq<TocMatch>) {
    exists j :: 0 <= j < |ms| && TooManyDigits(ms[j])
  }

  /** Reading the entries of `text` raises, on a marked page. */
  predicate PageRaises(text: string) {
    HasMarker(text) && AnyTooManyDigits(TocMatches(text))
  }

  /** One of `pages` satisfies `p`, looking from the last page back. */
  predicate AnyPage(pages: seq<string>, p: string -> bool)
    decreases |pages|
  {
    |pages| > 0 && (AnyPage(pages[..|pages| - 1], p) || p(pages[|pages| - 1]))
  }

  /** A page satisfying `p` makes every list holding it satisfy `AnyPage`. */
  lemma {:induction false} AnyPageAt(pages: seq<string>, k: nat, p: string -> bool)
    requires k < |pages| && p(pages[k])
    ensures AnyPage(pages, p)
    decreases |pages|
  {
    if k < |pages| - 1 {
      assert pages[..|pages| - 1][k] == pages[k];
      AnyPageAt(pages[..|pages| - 1], k, p);
    }
  }

  /** `AnyPage` holds exactly when some page satisfies `p`. */
  lemma {:induction false} AnyPageIff(pages: seq<string>, p: string -> bool)
    ensures AnyPage(pages, p) <==> exists k :: 0 <= k < |pages| && p(pages[k])
    decreases |pages|
  {
    if exists k :: 0 <= k < |pages| && p(pages[k]) {
      var k :| 0 <= k < |pages| && p(pages[k]);
      AnyPageAt(pages, k, p);
    }
    if AnyPage(pages, p) {
      var n := |pages| - 1;
      if !p(pages[n]) {
        AnyPageIff(pages[..n], p);
        var k :| 0 <= k < n && p(pages[..n][k]);
        assert pages[..n][k] == pages[k];
      }
    }
  }

  /** A prefix of pages none of which satisfies `p` stays so when the next page does not. */
  lemma AnyPageOneMore(pages: seq<string>, k: nat, p: string -> bool)
    requires k < |pages| && !AnyPage(pages[..k], p) && !p(pages[k])
    ensures !AnyPage(pages[..k + 1], p)
  {
    var longer := pages[..k + 1];
    assert longer[..k] == pages[..k] && longer[k] == pages[k];
  }

  /** `extract_toc` raises: one of the first ten pages is a marked page whose entries it
      cannot read. */
  predicate TocRaises(pages: seq<string>) {
    AnyPage(pages[..SearchedPages(pages)], PageRaises)
  }

  /** The page with index `k < 10` makes `extract_toc` raise when its entries cannot be read. */
  lemma PageMakesTocRaise(pages: seq<string>, k: nat)
    requires k < SearchedPages(pages) && PageRaises(pages[k])
    ensures TocRaises(pages)
  {
    assert pages[..SearchedPages(pages)][k] == pages[k];
    AnyPageAt(pages[..SearchedPages(pages)], k, PageRaises);
  }

  /** `f` applied to each of `pages`, the results concatenated in page order. */
  function Gather<T>(pages: seq<string>, f: string -> seq<T>): seq<T>
    decreases |pages|
  {
    if |pages| == 0 then [] else Gather(pages[..|pages| - 1], f) + f(pages[|pages| - 1])
  }

  /** One more page adds its own results at the end. */
  lemma GatherPrefix<T>(pages: seq<string>, k: nat, f: string -> seq<T>)
    requires k < |pages|
    ensures Gather(pages[..k + 1], f) == Gather(pages[..k], f) + f(pages[k])
  {
    assert pages[..k + 1][..k] == pages[..k];
    assert pages[..k + 1][k] == pages[k];
  }

  /** `Gather` distributes over concatenation of the page list. */
  lemma {:induction false} GatherAppend<T>(front: seq<string>, back: seq<string>, f: string -> seq<T>)
    ensures Gather(front + back, f) == Gather(front, f) + Gather(back, f)
    decreases |back|
  {
    if |back| == 0 {
      assert front + back == front;
    } else {
      var pages := front + back;
      assert pages[..|pages| - 1] == front + back[..|back| - 1];
      assert pages[|pages| - 1] == back[|back| - 1];
      GatherAppend(front, back[..|back| - 1], f);
    }
  }

  /** The entries of `pages`, page after page. */
  function TocOfPages(pages: seq<string>): seq<TocEntry> {
    Gather(pages, PageEntries)
  }

  /** How many pages `reader.pages[:10]` holds. */
  function SearchedPages(pages: seq<string>): (n: nat)
    ensures n <= |pages| && n <= TocPageLimit
    ensures n == |pages| || n == TocPageLimit
  {
    Min(|pages|, TocPageLimit)
  }

  /** `extract_toc(reader)` where the reader's pages have the texts `pages`. */
  function Toc(pages: seq<string>): seq<TocEntry> {
    TocOfPages(pages[..SearchedPages(pages)])
  }

  /** A heading is what `sanitize_text` leaves: one line, stripped, and unchanged by a
      second sanitizing. */
  lemma EntryHeadingSanitized(s: string, m: TocMatch)
    requires ValidTocMatch(s, m)
    ensures var e := EntryOf(s, m);
      SingleLine(e.heading) && Stripped(e.heading) && SanitizeText(e.heading) == e.heading
  {
    SanitizeIdempotent(s[m.start..m.headingEnd]);
  }

  /** The entry of a match whose heading needs no sanitizing. */
  lemma EntryOfClean(s: string, m: TocMatch)
    requires ValidTocMatch(s, m) && SanitizeText(s[m.start..m.headingEnd]) == s[m.start..m.headingEnd]
    ensures EntryOf(s, m) == TocEntry(s[m.start..m.headingEnd], DigitsValue(s[m.numberStart..m.end]))
  {
  }

  /** A marked page with a single match whose heading needs no sanitizing has one entry. */
  lemma OneMatchPage(s: string, m: TocMatch)
    requires HasMarker(s) && ValidTocMatch(s, m) && TocMatches(s) == [m]
    requires SanitizeText(s[m.start..m.headingEnd]) == s[m.start..m.headingEnd]
    ensures PageEntries(s) == [TocEntry(s[m.start..m.headingEnd], DigitsValue(s[m.numberStart..m.end]))]
  {
    EntryOfClean(s, m);
    assert EntriesOf(s, [m]) == [EntryOf(s, m)];
  }

  /** The table of contents of such a two-line page, when it carries the marker: the heading
      of its second line and the number after it. */
  lemma TwoLinePageEntries(s: string, n: nat, h: nat)
    requires Contains(s, TocMarker)
    requires n + 1 < h && h + 1 < |s| && s[n] == '\n' && s[h] == ' '
    requires forall k :: 0 <= k < n ==> !IsDigit(s[k])
    requires !IsDigit(s[n + 1]) && forall k :: n + 1 <= k < h ==> !IsSpace(s[k])
    requires DigitsIn(s, h + 1, |s|)
    ensures PageEntries(s) == [TocEntry(s[n + 1..h], DigitsValue(s[h + 1..|s|]))]
  {
    TwoLinePage(s, n, h);
    var m := TocMatch(n + 1, h, h + 1, |s|);
    var heading := s[n + 1..h];
    assert SingleLine(heading) && Stripped(heading) by {
      assert forall k :: 0 <= k < |heading| ==> !IsSpace(heading[k]);
    }
    SanitizeFixedPoint(heading);
    assert TocMatches(s)[0] == m;
    OneMatchPage(s, m);
  }

  /** Every entry comes from a match on a marked page, in the order of the pages. */
  lemma {:induction false} TocOfPagesOrigin(pages: seq<string>, i: nat) returns (k: nat, j: nat)
    requires i < |TocOfPages(pages)|
    ensures k < |pages| && HasMarker(pages[k]) && j < |TocMatches(pages[k])|
    ensures TocOfPages(pages)[i] == EntryOf(pages[k], TocMatches(pages[k])[j])
    decreases |pages|
  {
    var init := pages[..|pages| - 1];
    var before := TocOfPages(init);
    if i < |before| {
      k, j := TocOfPagesOrigin(init, i);
      assert init[k] == pages[k];
    } else {
      k, j := |pages| - 1, i - |before|;
    }
  }

  /** Every entry of the table of contents comes from a match on one of the first ten pages
      that carries the marker. */
  lemma TocEntryOrigin(pages: seq<string>, i: nat) returns (k: nat, j: nat)
    requires i < |Toc(pages)|
    ensures k < SearchedPages(pages) && HasMarker(pages[k]) && j < |TocMatches(pages[k])|
    ensures Toc(pages)[i] == EntryOf(pages[k], TocMatches(pages[k])[j])
  {
    k, j := TocOfPagesOrigin(pages[..SearchedPages(pages)], i);
  }

  /** Every heading of the table of contents is one stripped line that `sanitize_text`
      leaves unchanged. */
  lemma TocHeadingsSanitized(pages: seq<string>)
    ensures forall i :: 0 <= i < |Toc(pages)| ==> var h := Toc(pages)[i].heading;
      SingleLine(h) && Stripped(h) && SanitizeText(h) == h
  {
    forall i | 0 <= i < |Toc(pages)|
      ensures var h := Toc(pages)[i].heading; SingleLine(h) && Stripped(h) && SanitizeText(h) == h
    {
      var k, j := TocEntryOrigin(pages, i);
      EntryHeadingSanitized(pages[k], TocMatches(pages[k])[j]);
    }
  }

  /** Without the marker on any of the first ten pages, the table of contents is empty. */
  lemma TocWithoutMarker(pages: seq<string>)
    requires forall k :: 0 <= k < SearchedPages(pages) ==> !HasMarker(pages[k])
    ensures Toc(pages) == []
  {
    if |Toc(pages)| > 0 {
      var k, j := TocEntryOrigin(pages, 0);
    }
  }

  /** Pages after the tenth do not change the table of contents. */
  lemma TocIgnoresLaterPages(pages: seq<string>, more: seq<string>)
    requires |pages| >= TocPageLimit
    ensures Toc(pages + more) == Toc(pages)
  {
    assert (pages + more)[..TocPageLimit] == pages[..TocPageLimit];
  }

  /** A document of at most ten pages is searched whole, page after page. */
  lemma TocOfShortDocument(front: seq<string>, back: seq<string>)
    requires |front + back| <= TocPageLimit
    ensures Toc(front + back) == Toc(front) + Toc(back)
  {
    assert (front + back)[..|front + back|] == front + back;
    assert front[..|front|] == front;
    assert back[..|back|] == back;
    GatherAppend(front, back, PageEntries);
  }

  /** The inner loop of `extract_toc`: one entry appended per match, in match order, unless
      the number of one of them is too long for `int()`, which raises. */
  method AppendEntries(toc: seq<TocEntry>, text: string, matches: seq<TocMatch>)
    returns (r: Option<seq<TocEntry>>)
    requires forall i :: 0 <= i < |matches| ==> ValidTocMatch(text, matches[i])
    ensures r.None? <==> AnyTooManyDigits(matches)
    ensures r.Some? ==> r.value == toc + EntriesOf(text, matches)
  {
    ghost var entries := EntriesOf(text, matches);
    var appended := toc;
    var j := 0;
    while j < |matches|
      invariant j <= |matches|
      invariant appended == toc + entries[..j]
      invariant !AnyTooManyDigits(matches[..j])
    {
      if matches[j].end - matches[j].numberStart > IntMaxStrDigits {
        assert TooManyDigits(matches[j]);
        return None;
      }
      PrefixOneMore(matches, j);
      PrefixGrows(entries, j);
      appended := appended + [EntryOf(text, matches[j])];
      j := j + 1;
    }
    assert entries[..j] == entries && matches[..j] == matches;
    r := Some(appended);
  }

  /** A prefix with no number too long for `int()` stays so when the next number fits. */
  lemma PrefixOneMore(ms: seq<TocMatch>, j: nat)
    requires j < |ms| && !AnyTooManyDigits(ms[..j]) && !TooManyDigits(ms[j])
    ensures !AnyTooManyDigits(ms[..j + 1])
  {
    var longer := ms[..j + 1];
    forall t | 0 <= t < |longer| ensures !TooManyDigits(longer[t]) {
      if t < j {
        assert longer[t] == ms[..j][t];
      }
    }
  }

  /** `extract_toc` raises exactly when one of the first ten pages is a marked page with a
      number too long for `int()`. */
  lemma TocRaisesIff(pages: seq<string>)
    ensures TocRaises(pages) <==>
      exists k, j :: 0 <= k < SearchedPages(pages) && HasMarker(pages[k]) &&
        0 <= j < |TocMatches(pages[k])| && TooManyDigits(TocMatches(pages[k])[j])
  {
    var searched := pages[..SearchedPages(pages)];
    AnyPageIff(searched, PageRaises);
    if TocRaises(pages) {
      var k :| 0 <= k < |searched| && PageRaises(searched[k]);
      assert searched[k] == pages[k];
    } else {
      forall k | 0 <= k < SearchedPages(pages) ensures !PageRaises(pages[k]) {
        assert searched[k] == pages[k];
      }
    }
  }

  /** `extract_toc`: the loop over the first pages, collecting the entries of each marked
      one; `None` when it raises. */
  method ExtractToc(pages: seq<string>) returns (toc: Option<seq<TocEntry>>)
    ensures toc.None? <==> TocRaises(pages)
    ensures toc.Some? ==> toc.value == Toc(pages)
  {
    var entries := [];
    var limit := SearchedPages(pages);
    var k := 0;
    while k < limit
      invariant k <= limit
      invariant entries == TocOfPages(pages[..k])
      invariant !AnyPage(pages[..k], PageRaises)
    {
      var text := pages[k];
      GatherPrefix(pages, k, PageEntries);
      assert TocOfPages(pages[..k + 1]) == entries + PageEntries(text);
      if HasMarker(text) {
        var matches := TocMatches(text);
        assert PageEntries(text) == EntriesOf(text, matches);
        var appended := AppendEntries(entries, text, matches);
        if appended.None? {
          PageMakesTocRaise(pages, k);
          return None;
        }
        entries := appended.value;
      } else {
        assert PageEntries(text) == [];
        assert entries + [] == entries;
      }
      AnyPageOneMore(pages, k, PageRaises);
      k := k + 1;
    }
    toc := Some(entries);
  }
}
