/** What the table walk promises, for any way of reading paragraphs: it
    fails exactly when some paragraph of a data row cannot be read; when it
    succeeds it returns one element per data row that has paragraphs, in
    table order, built from that row alone; and the two header rows do not
    matter, whatever they contain. */
module TableProperties {
  import opened Types
  import opened Table

  /** Some paragraph of the row cannot be read. */
  ghost predicate RowFails(row: seq<string>, p: Paragraphs) {
    exists c :: 0 <= c < |row| && ParagraphFails(row, c, p)
  }

  /** A paragraph that cannot be read fails its row. */
  lemma ParagraphFailsRow(row: seq<string>, c: nat, p: Paragraphs)
    requires c < |row| && ParagraphFails(row, c, p)
    ensures ReadRow(row, p).Err?
  {
    RowStep(row, c, p);
    ReadRowFailsOn(row, c + 1, p);
  }

  /** A row fails only at a paragraph that cannot be read. */
  lemma {:induction false} RowFailsAtParagraph(row: seq<string>, p: Paragraphs)
    requires ReadRow(row, p).Err?
    ensures RowFails(row, p)
    decreases |row|
  {
    if |row| == 1 {
      assert ParagraphFails(row, 0, p);
    } else {
      var init := row[..|row| - 1];
      if ReadRow(init, p).Err? {
        RowFailsAtParagraph(init, p);
        var c :| 0 <= c < |init| && ParagraphFails(init, c, p);
        assert init[c] == row[c];
        assert ParagraphFails(row, c, p);
      } else {
        assert ParagraphFails(row, |row| - 1, p);
      }
    }
  }

  /** A row fails exactly when one of its paragraphs cannot be read. */
  lemma RowErrIff(row: seq<string>, p: Paragraphs)
    ensures ReadRow(row, p).Err? <==> RowFails(row, p)
  {
    if ReadRow(row, p).Err? {
      RowFailsAtParagraph(row, p);
    }
    if RowFails(row, p) {
      var c :| 0 <= c < |row| && ParagraphFails(row, c, p);
      ParagraphFailsRow(row, c, p);
    }
  }

  /** Some paragraph of a data row cannot be read. */
  ghost predicate TableFails(rows: seq<seq<string>>, p: Paragraphs) {
    exists i :: 2 <= i < |rows| && RowFails(rows[i], p)
  }

  /** A data row that fails fails the table. */
  lemma RowFailsTable(rows: seq<seq<string>>, i: nat, p: Paragraphs)
    requires 2 <= i < |rows| && ReadRow(rows[i], p).Err?
    ensures ReadTable(rows, p).Err?
  {
    TableStep(rows, i, p);
    ReadTableFailsOn(rows, i + 1, p);
  }

  /** A table fails only at a data row that fails. */
  lemma {:induction false} TableFailsAtRow(rows: seq<seq<string>>, p: Paragraphs)
    requires ReadTable(rows, p).Err?
    ensures exists i :: 2 <= i < |rows| && ReadRow(rows[i], p).Err?
    decreases |rows|
  {
    var init := rows[..|rows| - 1];
    if ReadTable(init, p).Err? {
      TableFailsAtRow(init, p);
      var i :| 2 <= i < |init| && ReadRow(init[i], p).Err?;
      assert init[i] == rows[i];
    } else {
      assert ReadRow(rows[|rows| - 1], p).Err?;
    }
  }

  /** The walk fails, with the table error and nothing else, exactly when
      some paragraph of a data row cannot be read. */
  lemma TableErrIff(rows: seq<seq<string>>, p: Paragraphs)
    ensures ReadTable(rows, p).Err? <==> TableFails(rows, p)
    ensures ReadTable(rows, p).Err? ==> ReadTable(rows, p) == Err(TableError)
  {
    if ReadTable(rows, p).Err? {
      TableFailsAtRow(rows, p);
      var i :| 2 <= i < |rows| && ReadRow(rows[i], p).Err?;
      RowErrIff(rows[i], p);
    }
    if TableFails(rows, p) {
      var i :| 2 <= i < |rows| && RowFails(rows[i], p);
      RowErrIff(rows[i], p);
      RowFailsTable(rows, i, p);
    }
  }

  /** `el` is what a row with paragraphs reads to: the element of paragraph
      0 with the criteria of the later paragraphs after its own, in order. */
  ghost predicate RowReads(row: seq<string>, p: Paragraphs, el: Element) {
    && row != []
    && p.element(row[0]).Some?
    && var base := p.element(row[0]).value;
    && el.id == base.id && el.title == base.title
    && |el.performanceCriteria| == |base.performanceCriteria| + |row| - 1
    && el.performanceCriteria[..|base.performanceCriteria|] == base.performanceCriteria
    && forall c :: 1 <= c < |row| ==> p.criterion(row[c]) == Some(el.performanceCriteria[|base.performanceCriteria| + c - 1])
  }

  /** One more paragraph read as a criterion adds that criterion at the end. */
  lemma RowReadsStep(row: seq<string>, p: Paragraphs, before: Element, pc: PerformanceCriteria)
    requires |row| > 1 && RowReads(row[..|row| - 1], p, before) && p.criterion(row[|row| - 1]) == Some(pc)
    ensures RowReads(row, p, before.(performanceCriteria := before.performanceCriteria + [pc]))
  {
    var init := row[..|row| - 1];
    var el := before.(performanceCriteria := before.performanceCriteria + [pc]);
    var b := |p.element(row[0]).value.performanceCriteria|;
    assert init[0] == row[0];
    forall c | 1 <= c < |row|
      ensures p.criterion(row[c]) == Some(el.performanceCriteria[b + c - 1])
    {
      if c < |init| {
        assert init[c] == row[c];
        assert p.criterion(init[c]) == Some(before.performanceCriteria[b + c - 1]);
        assert el.performanceCriteria[b + c - 1] == before.performanceCriteria[b + c - 1];
      } else {
        assert el.performanceCriteria[b + c - 1] == pc;
      }
    }
    assert el.performanceCriteria[..b] == before.performanceCriteria[..b];
  }

  /** When paragraph 0 reads to an element without criteria, the element of
      the row has exactly the criteria of paragraphs 1 and on, in order. */
  lemma FreshRowReads(row: seq<string>, p: Paragraphs, el: Element)
    requires RowReads(row, p, el) && p.element(row[0]).value.performanceCriteria == []
    ensures el.id == p.element(row[0]).value.id && el.title == p.element(row[0]).value.title
    ensures |el.performanceCriteria| == |row| - 1
    ensures forall j :: 0 <= j < |row| - 1 ==> p.criterion(row[j + 1]) == Some(el.performanceCriteria[j])
  {
    forall j | 0 <= j < |row| - 1
      ensures p.criterion(row[j + 1]) == Some(el.performanceCriteria[j])
    {
      assert p.criterion(row[j + 1]) == Some(el.performanceCriteria[0 + (j + 1) - 1]);
    }
  }

  /** A row with paragraphs that succeeds adds the one element it reads to. */
  lemma {:induction false} ReadRowOk(row: seq<string>, p: Paragraphs)
    requires row != [] && ReadRow(row, p).Ok?
    ensures |ReadRow(row, p).value| == 1 && RowReads(row, p, ReadRow(row, p).value[0])
    decreases |row|
  {
    if |row| > 1 {
      var init := row[..|row| - 1];
      ReadRowOk(init, p);
      var before := ReadRow(init, p).value[0];
      var pc := p.criterion(row[|row| - 1]).value;
      RowReadsStep(row, p, before, pc);
      assert ReadRow(row, p).value[0] == before.(performanceCriteria := before.performanceCriteria + [pc]);
    }
  }

  /** The data rows that have at least one paragraph, in table order. */
  function FilledDataRows(rows: seq<seq<string>>): (r: seq<seq<string>>)
    ensures |r| <= |rows|
    ensures forall k :: 0 <= k < |r| ==> r[k] != []
  {
    if |rows| <= 2 then []
    else FilledDataRows(rows[..|rows| - 1]) + (if rows[|rows| - 1] == [] then [] else [rows[|rows| - 1]])
  }

  /** A table that succeeds holds one element per data row with paragraphs,
      in table order, each the element its own row reads to. */
  lemma {:induction false} ReadTableOk(rows: seq<seq<string>>, p: Paragraphs)
    requires ReadTable(rows, p).Ok?
    ensures |ReadTable(rows, p).value| == |FilledDataRows(rows)|
    ensures forall k :: 0 <= k < |FilledDataRows(rows)| ==>
      RowReads(FilledDataRows(rows)[k], p, ReadTable(rows, p).value[k])
    decreases |rows|
  {
    if |rows| > 2 {
      var init := rows[..|rows| - 1];
      var last := rows[|rows| - 1];
      ReadTableOk(init, p);
      if last != [] {
        ReadRowOk(last, p);
      }
    }
  }

  /** The header rows do not matter: tables that differ only in their first
      two rows give the same result. */
  lemma {:induction false} HeaderRowsIgnored(rows: seq<seq<string>>, other: seq<seq<string>>, p: Paragraphs)
    requires |rows| == |other| && forall i :: 2 <= i < |rows| ==> rows[i] == other[i]
    ensures ReadTable(rows, p) == ReadTable(other, p)
    decreases |rows|
  {
    if |rows| > 2 {
      var n := |rows| - 1;
      var init, otherInit := rows[..n], other[..n];
      forall i | 2 <= i < n
        ensures init[i] == otherInit[i]
      {
        assert init[i] == rows[i] && otherInit[i] == other[i];
      }
      HeaderRowsIgnored(init, otherInit, p);
      assert rows[n] == other[n];
    }
  }

  /** A table with two header rows, whatever they hold, and one data row of
      an element paragraph and a criterion paragraph holds that one element
      with that one criterion. */
  lemma OneRowTable(rows: seq<seq<string>>, p: Paragraphs, el: Element, pc: PerformanceCriteria)
    requires |rows| == 3 && |rows[2]| == 2 && el.performanceCriteria == []
    requires p.element(rows[2][0]) == Some(el) && p.criterion(rows[2][1]) == Some(pc)
    ensures ReadTable(rows, p) == Ok([el.(performanceCriteria := [pc])])
  {
    var row := rows[2];
    RowStep(row, 0, p);
    RowStep(row, 1, p);
    assert row[..2] == row;
    assert [el][..0] == [] && el.performanceCriteria + [pc] == [pc];
    assert PushCriterion([el], pc) == [el.(performanceCriteria := [pc])];
    TableStep(rows, 2, p);
    assert rows[..3] == rows;
  }
}
