/** What Scrape.Elements promises about the table it reads: each paragraph
    is decided by the first match of its pattern in the trimmed text; a
    paragraph written in the expected form gives back exactly the pieces it
    was written from; on success there is one well-formed element per data row
    with paragraphs, carrying the criteria of the later paragraphs of its
    row; and the call fails, with the table error, exactly when some
    paragraph of a data row does not parse. */
module ElementsProperties {
  import opened JsRegex
  import opened Patterns
  import opened Types
  import opened Table
  import opened TableProperties
  import opened Scrape

  /** m is the element match the engine reaches first in t. */
  ghost predicate IsFirstElement(t: string, m: ElementSpan) {
    IsElementSpan(t, m) && forall n :: IsElementSpan(t, n) ==> n == m || ElementTriedFirst(m, n)
  }

  /** Paragraph 0 is read from the first element match of its trimmed text. */
  lemma FirstElementDecides(text: string, m: ElementSpan)
    requires IsFirstElement(Trim(text), m)
    ensures ParseElement(text) == ElementOf(Trim(text), m)
  {
    ExecElementFirst(Trim(text), m);
    var e := ExecElement(Trim(text)).value;
    assert e == m || ElementTriedFirst(m, e);
  }

  /** m is the criteria match the engine reaches first in t. */
  ghost predicate IsFirstCriteria(t: string, m: CriteriaSpan) {
    IsCriteriaSpan(t, m) && forall n :: IsCriteriaSpan(t, n) ==> n == m || CriteriaTriedFirst(m, n)
  }

  /** A later paragraph is read from the first criteria match of its trimmed text. */
  lemma FirstCriteriaDecides(text: string, m: CriteriaSpan)
    requires IsFirstCriteria(Trim(text), m)
    ensures ParseCriteria(text) == CriterionOf(Trim(text), m)
  {
    ExecCriteriaFirst(Trim(text), m);
    var e := ExecCriteria(Trim(text)).value;
    assert e == m || CriteriaTriedFirst(m, e);
  }

  /** A text that neither starts nor ends with `\s` is its own trim. */
  lemma TrimmedAlready(t: string)
    requires t == [] || (!IsSpace(t[0]) && !IsSpace(t[|t| - 1]))
    ensures Trim(t) == t
  {
    assert [] + t + [] == t;
    TrimExact([], t, []);
  }

  /** The element paragraph written from an id and a title. */
  function WrittenElement(id: string, title: string): string {
    id + ". " + title
  }

  lemma WrittenElementSpan(id: string, title: string)
    requires id != [] && AllIn(id, Digit) && AllIn(title, Dot)
    ensures IsElementSpan(WrittenElement(id, title), ElementSpan(0, |id|, |WrittenElement(id, title)|))
    ensures WrittenElement(id, title)[0..|id|] == id
    ensures WrittenElement(id, title)[|id| + 2..|WrittenElement(id, title)|] == title
  {
    var t := WrittenElement(id, title);
    assert forall i | 0 <= i < |id| :: t[i] == id[i];
    assert forall i | |id| + 2 <= i < |t| :: t[i] == title[i - |id| - 2];
  }

  /** A paragraph "<id>. <title>" with an id of digits and a non-empty title
      on one line that does not end with `\s` is the element with that id and
      title and no criteria. */
  lemma WrittenElementParses(id: string, title: string)
    requires id != [] && AllIn(id, Digit)
    requires title != [] && AllIn(title, Dot) && !IsSpace(title[|title| - 1])
    ensures ParseElement(WrittenElement(id, title)) == Some(Element(id, title, []))
  {
    var t := WrittenElement(id, title);
    assert t[0] == id[0] && t[|t| - 1] == title[|title| - 1];
    TrimmedAlready(t);
    WrittenElementMatch(id, title);
    WrittenElementGroups(id, title);
  }

  lemma WrittenElementGroups(id: string, title: string)
    requires id != [] && AllIn(id, Digit) && title != [] && AllIn(title, Dot)
    ensures ElementOf(WrittenElement(id, title), ElementSpan(0, |id|, |WrittenElement(id, title)|))
      == Some(Element(id, title, []))
  {
    WrittenElementSpan(id, title);
  }

  /** The first element match in a written element paragraph is the whole
      paragraph, split where it was written. */
  lemma WrittenElementMatch(id: string, title: string)
    requires id != [] && AllIn(id, Digit) && AllIn(title, Dot)
    ensures ExecElement(WrittenElement(id, title)) == Some(ElementSpan(0, |id|, |WrittenElement(id, title)|))
  {
    var t := WrittenElement(id, title);
    var n := ElementSpan(0, |id|, |t|);
    WrittenElementSpan(id, title);
    ExecElementFirst(t, n);
    WrittenElementIdEnd(id, title, ExecElement(t).value);
  }

  /** The id of a match from the start of a written element paragraph ends
      no later than the written id: the period after it is not a digit. */
  lemma WrittenElementIdEnd(id: string, title: string, m: ElementSpan)
    requires IsElementSpan(WrittenElement(id, title), m) && m.start == 0
    ensures m.idEnd <= |id|
  {
    assert WrittenElement(id, title)[|id|] == '.';
  }

  /** The criteria paragraph written from the two numbers of an id and a text. */
  function WrittenCriterion(major: string, minor: string, text: string): string {
    major + "." + minor + " " + text
  }

  lemma WrittenCriterionSpan(major: string, minor: string, text: string)
    requires major != [] && AllIn(major, Digit) && minor != [] && AllIn(minor, Digit) && AllIn(text, Dot)
    ensures IsCriteriaSpan(WrittenCriterion(major, minor, text),
      CriteriaSpan(0, |major|, |major| + 1 + |minor|, |WrittenCriterion(major, minor, text)|))
    ensures WrittenCriterion(major, minor, text)[0..|major| + 1 + |minor|] == major + "." + minor
    ensures WrittenCriterion(major, minor, text)[|major| + 2 + |minor|..|WrittenCriterion(major, minor, text)|] == text
  {
    var t := WrittenCriterion(major, minor, text);
    var d := |major| + 1;
    assert forall i | 0 <= i < |major| :: t[i] == major[i];
    assert forall i | d <= i < d + |minor| :: t[i] == minor[i - d];
    assert forall i | d + |minor| + 1 <= i < |t| :: t[i] == text[i - d - |minor| - 1];
    assert t[..d + |minor|] == major + "." + minor;
  }

  /** A paragraph "<major>.<minor> <text>" with two numbers of digits and a
      non-empty text on one line that does not end with `\s` is the criterion
      with id "<major>.<minor>" and that text. */
  lemma WrittenCriterionParses(major: string, minor: string, text: string)
    requires major != [] && AllIn(major, Digit) && minor != [] && AllIn(minor, Digit)
    requires text != [] && AllIn(text, Dot) && !IsSpace(text[|text| - 1])
    ensures ParseCriteria(WrittenCriterion(major, minor, text)) == Some(PerformanceCriteria(major + "." + minor, text))
  {
    var t := WrittenCriterion(major, minor, text);
    assert t[0] == major[0] && t[|t| - 1] == text[|text| - 1];
    TrimmedAlready(t);
    WrittenCriterionMatch(major, minor, text);
    WrittenCriterionGroups(major, minor, text);
  }

  lemma WrittenCriterionGroups(major: string, minor: string, text: string)
    requires major != [] && AllIn(major, Digit) && minor != [] && AllIn(minor, Digit)
    requires text != [] && AllIn(text, Dot)
    ensures CriterionOf(WrittenCriterion(major, minor, text),
        CriteriaSpan(0, |major|, |major| + 1 + |minor|, |WrittenCriterion(major, minor, text)|))
      == Some(PerformanceCriteria(major + "." + minor, text))
  {
    WrittenCriterionSpan(major, minor, text);
  }

  /** The first criteria match in a written criteria paragraph is the whole
      paragraph, split where it was written. */
  lemma WrittenCriterionMatch(major: string, minor: string, text: string)
    requires major != [] && AllIn(major, Digit) && minor != [] && AllIn(minor, Digit) && AllIn(text, Dot)
    ensures ExecCriteria(WrittenCriterion(major, minor, text))
      == Some(CriteriaSpan(0, |major|, |major| + 1 + |minor|, |WrittenCriterion(major, minor, text)|))
  {
    var t := WrittenCriterion(major, minor, text);
    var n := CriteriaSpan(0, |major|, |major| + 1 + |minor|, |t|);
    WrittenCriterionSpan(major, minor, text);
    ExecCriteriaFirst(t, n);
    WrittenCriterionIdEnd(major, minor, text, ExecCriteria(t).value);
  }

  /** A match from the start of a written criteria paragraph has its period
      no later than the written one, and with the same period its id ends no
      later than the written id: the period and the space are not digits. */
  lemma WrittenCriterionIdEnd(major: string, minor: string, text: string, m: CriteriaSpan)
    requires IsCriteriaSpan(WrittenCriterion(major, minor, text), m) && m.start == 0
    ensures m.pointAt <= |major|
    ensures m.pointAt == |major| ==> m.idEnd <= |major| + 1 + |minor|
  {
    var t := WrittenCriterion(major, minor, text);
    assert t == major + "." + minor + " " + text;
    assert t[|major|] == '.' && t[|major| + 1 + |minor|] == ' ';
  }

  /** The title of element 1 of unit UEERE0035 is one line. */
  lemma ElementTitleText(title: string)
    requires title == "Identify safety" + " requirements"
    ensures AllIn(title, Dot) && !IsSpace(title[|title| - 1])
  {
    var t1, t2 := "Identify safety", " requirements";
    assert AllIn(t1, Dot) && AllIn(t2, Dot);
    AllInAppend(t1, t2, Dot);
    assert title[|title| - 1] == 's';
  }

  // The examples of unit UEERE0035 below write their long literals as
  // concatenations of short ones; the texts are those of the unit's table.

  /** "1. Identify safety requirements" is element 1 with no criteria yet. */
  lemma ElementExample(s: string, title: string)
    requires s == "1. " + "Identify safety" + " requirements"
    requires title == "Identify safety" + " requirements"
    ensures ParseElement(s) == Some(Element("1", title, []))
  {
    ElementTitleText(title);
    assert AllIn("1", Digit);
    assert WrittenElement("1", title) == s;
    WrittenElementParses("1", title);
  }

  /** The text of criterion 1.1 of unit UEERE0035 is one line. */
  lemma CriterionText(text: string)
    requires text == "Locate and" + " interpret safety" + " documentation"
    ensures AllIn(text, Dot) && !IsSpace(text[|text| - 1])
  {
    var t1, t2, t3 := "Locate and", " interpret safety", " documentation";
    assert AllIn(t1, Dot) && AllIn(t2, Dot) && AllIn(t3, Dot);
    AllInAppend(t1, t2, Dot);
    AllInAppend(t1 + t2, t3, Dot);
    assert text[|text| - 1] == 'n';
  }

  /** "1.1 Locate and interpret safety documentation" is criterion 1.1. */
  lemma CriterionExample(s: string, text: string)
    requires s == "1.1 " + "Locate and" + " interpret safety" + " documentation"
    requires text == "Locate and" + " interpret safety" + " documentation"
    ensures ParseCriteria(s) == Some(PerformanceCriteria("1.1", text))
  {
    CriterionText(text);
    assert AllIn("1", Digit);
    assert "1" + "." + "1" == "1.1";
    assert WrittenCriterion("1", "1", text) == s;
    WrittenCriterionParses("1", "1", text);
  }

  /** The `.` after the id is unescaped, so it matches any character but a
      line terminator: in "<id><x> <title>" the `.` takes x. When x is a digit
      the id gives it back, since the longer id would leave the first
      character of the title for `\s`. */
  lemma PeriodAfterId(id: string, x: char, title: string)
    requires id != [] && AllIn(id, Digit) && IsDot(x)
    requires title != [] && AllIn(title, Dot) && !IsSpace(title[0]) && !IsSpace(title[|title| - 1])
    ensures ParseElement(id + [x] + " " + title) == Some(Element(id, title, []))
  {
    var t := id + [x] + " " + title;
    assert t[0] == id[0] && t[|t| - 1] == title[|title| - 1];
    TrimmedAlready(t);
    PeriodAfterIdMatch(id, x, title);
    PeriodAfterIdGroups(id, x, title);
  }

  lemma PeriodAfterIdSpan(id: string, x: char, title: string)
    requires id != [] && AllIn(id, Digit) && IsDot(x) && AllIn(title, Dot)
    ensures IsElementSpan(id + [x] + " " + title, ElementSpan(0, |id|, |id| + 2 + |title|))
    ensures (id + [x] + " " + title)[0..|id|] == id
    ensures (id + [x] + " " + title)[|id| + 2..|id| + 2 + |title|] == title
  {
    var t := id + [x] + " " + title;
    assert forall i | 0 <= i < |id| :: t[i] == id[i];
    assert forall i | |id| + 2 <= i < |t| :: t[i] == title[i - |id| - 2];
  }

  /** A match from the start of "<id><x> <title>" has an id no longer
      than `id`: the space is not a digit, and the longer id would need
      `\s` to match the first character of the title. */
  lemma PeriodAfterIdIdEnd(id: string, x: char, title: string, m: ElementSpan)
    requires title != [] && !IsSpace(title[0])
    requires IsElementSpan(id + [x] + " " + title, m) && m.start == 0
    ensures m.idEnd <= |id|
  {
    var t := id + [x] + " " + title;
    assert t[|id| + 1] == ' ' && t[|id| + 2] == title[0];
  }

  lemma PeriodAfterIdMatch(id: string, x: char, title: string)
    requires id != [] && AllIn(id, Digit) && IsDot(x)
    requires title != [] && AllIn(title, Dot) && !IsSpace(title[0])
    ensures ExecElement(id + [x] + " " + title) == Some(ElementSpan(0, |id|, |id| + 2 + |title|))
  {
    var t := id + [x] + " " + title;
    PeriodAfterIdSpan(id, x, title);
    ExecElementFirst(t, ElementSpan(0, |id|, |id| + 2 + |title|));
    PeriodAfterIdIdEnd(id, x, title, ExecElement(t).value);
  }

  lemma PeriodAfterIdGroups(id: string, x: char, title: string)
    requires id != [] && AllIn(id, Digit) && IsDot(x) && title != [] && AllIn(title, Dot)
    ensures ElementOf(id + [x] + " " + title, ElementSpan(0, |id|, |id| + 2 + |title|)) == Some(Element(id, title, []))
  {
    PeriodAfterIdSpan(id, x, title);
  }

  /** "12 abc" is element 1 with title "abc". */
  lemma UnescapedPeriod(s: string)
    requires s == "12 abc"
    ensures ParseElement(s) == Some(Element("1", "abc", []))
  {
    assert AllIn("1", Digit) && AllIn("abc", Dot);
    assert "1" + ['2'] + " " + "abc" == s;
    PeriodAfterId("1", '2', "abc");
  }

  /** "1😀 2. abc" is element 1 with title "2. abc": the `.` takes the
      emoji, which is one character here. */
  lemma PeriodTakesEmoji(s: string)
    requires s == "1\U{1F600} 2. abc"
    ensures ParseElement(s) == Some(Element("1", "2. abc", []))
  {
    assert AllIn("1", Digit) && AllIn("2. abc", Dot);
    assert "1" + ['\U{1F600}'] + " " + "2. abc" == s;
    PeriodAfterId("1", '\U{1F600}', "2. abc");
  }

  /** `el` is the element Scrape.Elements makes of a data row: the element
      of paragraph 0 with, in order, the criteria of the later paragraphs. */
  ghost predicate ElementOfRow(row: seq<string>, el: Element) {
    && row != []
    && ParseElement(row[0]) == Some(Element(el.id, el.title, []))
    && |el.performanceCriteria| == |row| - 1
    && forall j :: 0 <= j < |row| - 1 ==> ParseCriteria(row[j + 1]) == Some(el.performanceCriteria[j])
  }

  /** Every element Scrape.Elements pushes is well formed, and so is every
      criterion pushed onto it. */
  ghost predicate WellFormedWithCriteria(el: Element) {
    WellFormedElement(el) && forall j :: 0 <= j < |el.performanceCriteria| ==> WellFormedCriterion(el.performanceCriteria[j])
  }

  /** What a row reads to with the scraper's patterns is its element. */
  lemma RowReadsElement(row: seq<string>, el: Element)
    requires RowReads(row, ScraperParagraphs, el)
    ensures ElementOfRow(row, el)
  {
    var p := ScraperParagraphs;
    assert p.element(row[0]) == ParseElement(row[0]);
    FreshRowReads(row, p, el);
    forall j | 0 <= j < |row| - 1
      ensures ParseCriteria(row[j + 1]) == Some(el.performanceCriteria[j])
    {
      assert p.criterion(row[j + 1]) == Some(el.performanceCriteria[j]);
    }
  }

  /** The element of a row and its criteria are well formed. */
  lemma ElementOfRowWellFormed(row: seq<string>, el: Element)
    requires ElementOfRow(row, el)
    ensures WellFormedWithCriteria(el)
  {
    forall j | 0 <= j < |el.performanceCriteria|
      ensures WellFormedCriterion(el.performanceCriteria[j])
    {
      assert ParseCriteria(row[j + 1]) == Some(el.performanceCriteria[j]);
    }
  }

  /** On success Scrape.Elements returns one element per data row with
      paragraphs, in table order: the element of its paragraph 0 with the
      criteria of its later paragraphs, all well formed. */
  lemma ElementsOk(rows: seq<seq<string>>)
    requires ElementsSpec(rows).Ok?
    ensures |ElementsSpec(rows).value| == |FilledDataRows(rows)|
    ensures forall k :: 0 <= k < |FilledDataRows(rows)| ==>
      ElementOfRow(FilledDataRows(rows)[k], ElementsSpec(rows).value[k])
      && WellFormedWithCriteria(ElementsSpec(rows).value[k])
  {
    var els := ElementsSpec(rows).value;
    var filled := FilledDataRows(rows);
    ReadTableOk(rows, ScraperParagraphs);
    forall k | 0 <= k < |filled|
      ensures ElementOfRow(filled[k], els[k]) && WellFormedWithCriteria(els[k])
    {
      RowReadsElement(filled[k], els[k]);
      ElementOfRowWellFormed(filled[k], els[k]);
    }
  }

  /** Paragraph c of a row does not parse: paragraph 0 as an element, a later
      one as a criterion. */
  predicate Unreadable(row: seq<string>, c: int)
    requires 0 <= c < |row|
  {
    if c == 0 then ParseElement(row[0]).None? else ParseCriteria(row[c]).None?
  }

  /** Scrape.Elements throws exactly when a paragraph of a data row does not
      parse, and then it throws the table error. */
  lemma ElementsErr(rows: seq<seq<string>>)
    ensures ElementsSpec(rows).Err? <==>
      exists i, c :: 2 <= i < |rows| && 0 <= c < |rows[i]| && Unreadable(rows[i], c)
    ensures ElementsSpec(rows).Err? ==> ElementsSpec(rows) == Err(TableError)
  {
    TableErrIff(rows, ScraperParagraphs);
    if ElementsSpec(rows).Err? {
      var i :| 2 <= i < |rows| && RowFails(rows[i], ScraperParagraphs);
      var c :| 0 <= c < |rows[i]| && ParagraphFails(rows[i], c, ScraperParagraphs);
      assert Unreadable(rows[i], c);
    }
    if exists i, c :: 2 <= i < |rows| && 0 <= c < |rows[i]| && Unreadable(rows[i], c) {
      var i, c :| 2 <= i < |rows| && 0 <= c < |rows[i]| && Unreadable(rows[i], c);
      assert ParagraphFails(rows[i], c, ScraperParagraphs);
      assert RowFails(rows[i], ScraperParagraphs);
    }
  }

  /** The table of unit UEERE0035 cut down to element 1 and criterion 1.1. */
  lemma TableExample(rows: seq<seq<string>>, title: string, text: string)
    requires title == "Identify safety" + " requirements"
    requires text == "Locate and" + " interpret safety" + " documentation"
    requires |rows| == 3 && |rows[2]| == 2
    requires rows[2][0] == "1. " + "Identify safety" + " requirements"
    requires rows[2][1] == "1.1 " + "Locate and" + " interpret safety" + " documentation"
    ensures ElementsSpec(rows) == Ok([Element("1", title, [PerformanceCriteria("1.1", text)])])
  {
    ElementExample(rows[2][0], title);
    CriterionExample(rows[2][1], text);
    OneRowTable(rows, ScraperParagraphs, Element("1", title, []), PerformanceCriteria("1.1", text));
  }
}
