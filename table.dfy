/** The walk of Scrape.Elements over the rows of the "Elements and
    Performance Criteria" table, for any way of reading its two kinds of
    paragraph. A row is the texts of its `td>p` paragraphs in document order;
    the first two rows are headers. In a data row, paragraph 0 opens a new
    element and every later paragraph adds a criterion to the element just
    opened. The first paragraph that cannot be read ends the walk with an
    error and no elements. */
module Table {
  import opened Types

  const TableError := "Unable to parse data from the table."

  /** How the walk reads one paragraph: paragraph 0 of a row as an element,
      each later one as a criterion; None when the text does not have the
      expected form. */
  datatype Paragraphs = Paragraphs(
    element: string -> Option<Element>,
    criterion: string -> Option<PerformanceCriteria>)

  /** Paragraph c of `row` cannot be read. */
  predicate ParagraphFails(row: seq<string>, c: int, p: Paragraphs)
    requires 0 <= c < |row|
  {
    if c == 0 then p.element(row[0]).None? else p.criterion(row[c]).None?
  }

  /** `lastElement.performance_criteria.push(pc)`: the last element gains `pc`
      at the end of its criteria, and nothing else changes. */
  function PushCriterion(elements: seq<Element>, pc: PerformanceCriteria): (r: seq<Element>)
    requires elements != []
    ensures |r| == |elements| && r[..|r| - 1] == elements[..|elements| - 1]
    ensures r[|r| - 1].id == elements[|elements| - 1].id && r[|r| - 1].title == elements[|elements| - 1].title
    ensures r[|r| - 1].performanceCriteria == elements[|elements| - 1].performanceCriteria + [pc]
  {
    var last := elements[|elements| - 1];
    elements[..|elements| - 1] + [last.(performanceCriteria := last.performanceCriteria + [pc])]
  }

  /** What paragraph 0 of a data row does to `elements`: pushes the element
      read from it, or throws the table error. */
  function OpenElement(elements: seq<Element>, read: Option<Element>): (r: Result<seq<Element>>)
    ensures r.Ok? <==> read.Some?
    ensures r.Ok? ==> |r.value| == |elements| + 1 && r.value[..|elements|] == elements && r.value[|elements|] == read.value
  {
    match read
    case None => Err(TableError)
    case Some(el) => Ok(elements + [el])
  }

  /** What a later paragraph does to the elements so far: pushes the
      criterion read from it onto the last element, or throws the table
      error. */
  function AddCriterion(sofar: Result<seq<Element>>, read: Option<PerformanceCriteria>): (r: Result<seq<Element>>)
    requires sofar.Ok? ==> sofar.value != []
    ensures r.Ok? ==> sofar.Ok? && |r.value| == |sofar.value|
  {
    match sofar
    case Err(e) => Err(e)
    case Ok(elements) =>
      match read
      case None => Err(TableError)
      case Some(pc) => Ok(PushCriterion(elements, pc))
  }

  /** The elements the first paragraphs of a data row add, read in document
      order: none for no paragraphs, otherwise the element of paragraph 0 with
      a criterion pushed onto it for each later paragraph; the table error at
      the first paragraph that cannot be read. */
  function ReadRow(row: seq<string>, p: Paragraphs): (r: Result<seq<Element>>)
    ensures r.Ok? ==> |r.value| == (if row == [] then 0 else 1)
    ensures r.Err? ==> r.error == TableError
  {
    if row == [] then Ok([])
    else if |row| == 1 then OpenElement([], p.element(row[0]))
    else AddCriterion(ReadRow(row[..|row| - 1], p), p.criterion(row[|row| - 1]))
  }

  /** The elements after one more row. */
  function Extend(before: Result<seq<Element>>, row: Result<seq<Element>>): (r: Result<seq<Element>>)
    ensures r.Ok? <==> before.Ok? && row.Ok?
  {
    match before
    case Err(e) => Err(e)
    case Ok(elements) =>
      match row
      case Err(e) => Err(e)
      case Ok(added) => Ok(elements + added)
  }

  /** The elements of the first rows of the table, read in document order:
      the two header rows add nothing, every later row what ReadRow says; the
      table error at the first row that fails. */
  function ReadTable(rows: seq<seq<string>>, p: Paragraphs): (r: Result<seq<Element>>)
    ensures |rows| <= 2 ==> r == Ok([])
    ensures r.Err? ==> r.error == TableError
  {
    if |rows| <= 2 then Ok([])
    else Extend(ReadTable(rows[..|rows| - 1], p), ReadRow(rows[|rows| - 1], p))
  }

  /** ReadTable one row further. */
  lemma TableStep(rows: seq<seq<string>>, index: nat, p: Paragraphs)
    requires index < |rows|
    ensures index < 2 ==> ReadTable(rows[..index + 1], p) == Ok([])
    ensures index >= 2 ==> ReadTable(rows[..index + 1], p) == Extend(ReadTable(rows[..index], p), ReadRow(rows[index], p))
  {
    assert rows[..index + 1][..index] == rows[..index];
  }

  /** ReadRow one paragraph further. */
  lemma RowStep(row: seq<string>, c: nat, p: Paragraphs)
    requires c < |row|
    ensures c == 0 ==> ReadRow(row[..1], p) == OpenElement([], p.element(row[0]))
    ensures c > 0 ==> ReadRow(row[..c + 1], p) == AddCriterion(ReadRow(row[..c], p), p.criterion(row[c]))
  {
    assert row[..c + 1][..c] == row[..c];
  }

  /** Pushing onto the last element of a list leaves the elements before
      it alone. */
  lemma PushCriterionAfter(elements: seq<Element>, added: seq<Element>, pc: PerformanceCriteria)
    requires added != []
    ensures PushCriterion(elements + added, pc) == elements + PushCriterion(added, pc)
  {
    var whole := elements + added;
    assert whole[..|whole| - 1] == elements + added[..|added| - 1];
  }

  /** Once the first rows of a table fail, the whole table fails. */
  lemma {:induction false} ReadTableFailsOn(rows: seq<seq<string>>, k: nat, p: Paragraphs)
    requires k <= |rows| && ReadTable(rows[..k], p).Err?
    ensures ReadTable(rows, p).Err?
    decreases |rows|
  {
    if k < |rows| {
      assert rows[..|rows| - 1][..k] == rows[..k];
      ReadTableFailsOn(rows[..|rows| - 1], k, p);
    } else {
      assert rows[..k] == rows;
    }
  }

  /** Once the first paragraphs of a row fail, the whole row fails. */
  lemma {:induction false} ReadRowFailsOn(row: seq<string>, k: nat, p: Paragraphs)
    requires k <= |row| && ReadRow(row[..k], p).Err?
    ensures ReadRow(row, p).Err?
    decreases |row|
  {
    if k < |row| {
      assert row[..|row| - 1][..k] == row[..k];
      ReadRowFailsOn(row[..|row| - 1], k, p);
    } else {
      assert row[..k] == row;
    }
  }

  /** The callback of the inner `.each`, for paragraph `columnIndex` of a
      data row: paragraph 0 opens a new element, every later one adds a
      criterion to the last element; a paragraph that cannot be read throws
      the table error. */
  method VisitParagraph(elements: seq<Element>, columnIndex: nat, text: string, p: Paragraphs)
    returns (r: Result<seq<Element>>)
    requires columnIndex > 0 ==> elements != []
    ensures columnIndex == 0 ==> r == OpenElement(elements, p.element(text))
    ensures columnIndex > 0 ==> r == AddCriterion(Ok(elements), p.criterion(text))
  {
    if columnIndex == 0 {
      var matches := p.element(text);
      if matches.None? {
        return Err(TableError);
      }
      return Ok(elements + [matches.value]);
    } else {
      var matches := p.criterion(text);
      if matches.None? {
        return Err(TableError);
      }
      var lastElement := elements[|elements| - 1];
      var pushed := lastElement.(performanceCriteria := lastElement.performanceCriteria + [matches.value]);
      return Ok(elements[..|elements| - 1] + [pushed]);
    }
  }

  /** The callback of the outer `.each`, for row `index`: a header row adds
      nothing; a data row runs VisitParagraph on each of its paragraphs in
      order. The result is `elements` followed by what ReadRow says the row
      adds, or the table error. */
  method VisitRow(elements: seq<Element>, index: nat, row: seq<string>, p: Paragraphs)
    returns (r: Result<seq<Element>>)
    ensures index < 2 ==> r == Ok(elements)
    ensures index >= 2 ==> r == Extend(Ok(elements), ReadRow(row, p))
  {
    if index < 2 {
      return Ok(elements);
    }
    var current := elements;
    ghost var added: seq<Element> := [];
    var columnIndex := 0;
    assert row[..0] == [];
    while columnIndex < |row|
      invariant 0 <= columnIndex <= |row|
      invariant current == elements + added
      invariant ReadRow(row[..columnIndex], p) == Ok(added)
    {
      var next := VisitParagraph(current, columnIndex, row[columnIndex], p);
      RowStep(row, columnIndex, p);
      if next.Err? {
        ReadRowFailsOn(row, columnIndex + 1, p);
        return Err(TableError);
      }
      if columnIndex > 0 {
        PushCriterionAfter(elements, added, p.criterion(row[columnIndex]).value);
      }
      added := ReadRow(row[..columnIndex + 1], p).value;
      current := next.value;
      columnIndex := columnIndex + 1;
    }
    assert row[..|row|] == row;
    return Ok(current);
  }

  /** Scrape.Elements on the rows of the table: VisitRow on each row in
      order. The result is ReadTable of the whole table: the elements in
      document order, or the table error, with no partial list, at the first
      paragraph that cannot be read. */
  method Walk(rows: seq<seq<string>>, p: Paragraphs) returns (r: Result<seq<Element>>)
    ensures r == ReadTable(rows, p)
  {
    var elements: seq<Element> := [];
    var index := 0;
    while index < |rows|
      invariant 0 <= index <= |rows|
      invariant ReadTable(rows[..index], p) == Ok(elements)
    {
      var next := VisitRow(elements, index, rows[index], p);
      TableStep(rows, index, p);
      if next.Err? {
        ReadTableFailsOn(rows, index + 1, p);
        return Err(TableError);
      }
      elements := next.value;
      index := index + 1;
    }
    assert rows[..|rows|] == rows;
    return Ok(elements);
  }
}
