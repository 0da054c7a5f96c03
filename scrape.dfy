/** The text-extraction core of src/unit-scraper.ts: the unit heading parser
    and the walk over the "Elements and Performance Criteria" table. The page
    queries are outside the model; their results come in as values: the text
    of the heading, and the table as its rows, each row the texts of its
    `td>p` paragraphs in document order. */
module Scrape {
  import opened JsRegex
  import opened Patterns
  import opened Types
  import opened Table

  const HeadingError := "Failed to extract code, title, or release"

  /** The three named groups CodeTitleAndRelease returns. */
  datatype UnitHeading = UnitHeading(code: string, title: string, release: string)

  /** What the source promises of the groups it returns: each non-empty and on one line. */
  predicate WellFormedHeading(h: UnitHeading) {
    h.code != [] && h.title != [] && h.release != []
    && AllIn(h.code, Dot) && AllIn(h.title, Dot) && AllIn(h.release, Dot)
  }

  /** The named groups of one heading match. */
  function HeadingGroups(s: string, m: HeadingSpan): UnitHeading
    requires IsHeadingSpan(s, m)
  {
    UnitHeading(s[m.start..m.codeEnd], s[m.codeEnd + 3..m.titleEnd], s[m.titleEnd + 10..m.releaseEnd])
  }

  /** The result for one heading match: its groups, unless one is empty. The
      groups of a match are single lines, so the guard on empty groups is all
      that stands between a match and a well-formed heading. */
  function HeadingOf(s: string, m: HeadingSpan): (r: Result<UnitHeading>)
    requires IsHeadingSpan(s, m)
    ensures r.Ok? <==> WellFormedHeading(HeadingGroups(s, m))
    ensures r.Ok? ==> r.value == HeadingGroups(s, m)
    ensures r.Err? ==> r.error == HeadingError
  {
    var h := HeadingGroups(s, m);
    if h.code == [] || h.title == [] || h.release == [] then Err(HeadingError)
    else
      CoversSlice(s, m.start, m.codeEnd, Dot);
      CoversSlice(s, m.codeEnd + 3, m.titleEnd, Dot);
      CoversSlice(s, m.titleEnd + 10, m.releaseEnd, Dot);
      Ok(h)
  }

  /** Scrape.CodeTitleAndRelease on the text of the heading: the groups of the
      first heading match, unless there is none or one of its groups is empty. */
  function CodeTitleAndRelease(detailsTitle: string): (r: Result<UnitHeading>)
    ensures r.Ok? ==> WellFormedHeading(r.value)
    ensures r.Err? ==> r.error == HeadingError
  {
    match ExecHeading(detailsTitle)
    case None => Err(HeadingError)
    case Some(m) => HeadingOf(detailsTitle, m)
  }

  /** A performance criteria id as the criteria pattern captures it: a run of
      digits, a period, a run of digits. */
  predicate IsDottedId(id: string) {
    exists k :: 0 < k < |id| - 1 && id[k] == '.' && AllIn(id[..k], Digit) && AllIn(id[k + 1..], Digit)
  }

  /** What the source promises of an element it has just pushed: a non-empty
      id of digits, a non-empty single-line title. */
  predicate WellFormedElement(e: Element) {
    e.id != [] && AllIn(e.id, Digit) && e.title != [] && AllIn(e.title, Dot)
  }

  /** The element of one element-pattern match, or None when a group it
      needs is empty. */
  function ElementOf(t: string, m: ElementSpan): (r: Option<Element>)
    requires IsElementSpan(t, m)
    ensures r.None? <==> m.idEnd == m.start || m.titleEnd == m.idEnd + 2
    ensures r.Some? ==> WellFormedElement(r.value) && r.value.performanceCriteria == []
    ensures r.Some? ==> r.value.id == t[m.start..m.idEnd] && r.value.title == t[m.idEnd + 2..m.titleEnd]
  {
    var id := t[m.start..m.idEnd];
    var title := t[m.idEnd + 2..m.titleEnd];
    if id == [] || title == [] then None
    else
      CoversSlice(t, m.start, m.idEnd, Digit);
      CoversSlice(t, m.idEnd + 2, m.titleEnd, Dot);
      Some(Element(id, title, []))
  }

  /** Paragraph 0 of a data row: its trimmed text against the element
      pattern. */
  function ParseElement(text: string): (r: Option<Element>)
    ensures r.Some? ==> WellFormedElement(r.value) && r.value.performanceCriteria == []
  {
    var t := Trim(text);
    match ExecElement(t)
    case None => None
    case Some(m) => ElementOf(t, m)
  }

  /** What the source promises of a criterion it has just pushed: an id of
      digits, a period and digits, and a non-empty single-line text. */
  predicate WellFormedCriterion(pc: PerformanceCriteria) {
    IsDottedId(pc.id) && pc.criteria != [] && AllIn(pc.criteria, Dot)
  }

  /** The criterion of one criteria-pattern match, or None when a group it
      needs is empty. */
  function CriterionOf(t: string, m: CriteriaSpan): (r: Option<PerformanceCriteria>)
    requires IsCriteriaSpan(t, m)
    ensures r.None? <==> m.textEnd == m.idEnd + 1
    ensures r.Some? ==> WellFormedCriterion(r.value)
    ensures r.Some? ==> r.value.id == t[m.start..m.idEnd] && r.value.criteria == t[m.idEnd + 1..m.textEnd]
  {
    var id := t[m.start..m.idEnd];
    var criteria := t[m.idEnd + 1..m.textEnd];
    if id == [] || criteria == [] then None
    else
      var k := m.pointAt - m.start;
      assert id[..k] == t[m.start..m.pointAt] && id[k + 1..] == t[m.pointAt + 1..m.idEnd];
      CoversSlice(t, m.start, m.pointAt, Digit);
      CoversSlice(t, m.pointAt + 1, m.idEnd, Digit);
      CoversSlice(t, m.idEnd + 1, m.textEnd, Dot);
      assert id[k] == '.';
      Some(PerformanceCriteria(id, criteria))
  }

  /** A later paragraph of a data row: its trimmed text against the criteria
      pattern. */
  function ParseCriteria(text: string): (r: Option<PerformanceCriteria>)
    ensures r.Some? ==> WellFormedCriterion(r.value)
  {
    var t := Trim(text);
    match ExecCriteria(t)
    case None => None
    case Some(m) => CriterionOf(t, m)
  }

  /** The two patterns of Scrape.Elements, the first for paragraph 0 of a
      row and the second for the others. */
  const ScraperParagraphs := Paragraphs(ParseElement, ParseCriteria)

  /** What Scrape.Elements returns for a table, or the error it throws. */
  function ElementsSpec(rows: seq<seq<string>>): Result<seq<Element>> {
    ReadTable(rows, ScraperParagraphs)
  }

  /** Scrape.Elements: the walk over the table with the scraper's two
      patterns. */
  method Elements(rows: seq<seq<string>>) returns (r: Result<seq<Element>>)
    ensures r == ElementsSpec(rows)
  {
    r := Walk(rows, ScraperParagraphs);
  }
}
