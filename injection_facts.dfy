/**
 * What `process_files` does to one table, stated about the rows it produces:
 * which tables it leaves alone, how the header row changes, which data rows
 * gain a cell and what that cell holds, and what a second run does.
 */
module InjectionFacts {
  import opened Wrappers
  import opened Markup
  import opened Lookup
  import opened Injection

  /** The `td` cells a row should end up with when `transporter_index` is `ti`. */
  function ExpectedDataCells(tds: seq<Cell>, ti: nat, nameMap: map<string, string>): seq<Cell> {
    if |tds| <= ti then tds
    else tds[..ti + 1] + [Cell(Td, Find(nameMap, tds[ti].text))] + tds[ti + 1..]
  }

  /** How many `th` cells of the row read "Name". */
  function NameHeaderCount(row: Row): nat {
    multiset(Texts(CellsOf(row, Th)))[NameHeader]
  }

  lemma TextsConcat(a: seq<Cell>, b: seq<Cell>)
    ensures Texts(a + b) == Texts(a) + Texts(b)
  {
  }

  /** The header row found is the only row that has the target header with none before it. */
  lemma HeaderRowUnique(rows: seq<Row>, h: nat)
    requires h < |rows| && HasTargetHeader(rows[h])
    requires forall i :: 0 <= i < h ==> !HasTargetHeader(rows[i])
    ensures HeaderRow(rows) == Some(h)
  {
  }

  /** `list.index` finds the only position that holds `x` with no `x` before it. */
  lemma FirstIndexUnique(headers: seq<string>, x: string, i: nat)
    requires i < |headers| && headers[i] == x && x !in headers[..i]
    ensures FirstIndex(headers, x) == i
  {
  }

  /** Row `i` of the result, when the header row is `h`. */
  lemma InjectedRowAt(rows: seq<Row>, nameMap: map<string, string>, h: nat, i: nat)
    requires HeaderRow(rows) == Some(h) && i < |rows|
    ensures var ti := TargetIndex(rows[h]);
      && |InjectedRows(rows, nameMap)| == |rows|
      && InjectedRows(rows, nameMap)[i]
         == WithNameCell(if i == h then WithNameHeader(rows[h], ti) else rows[i], ti, nameMap)
  {
  }

  /** The data-row pass on one row: its `td` cells are the expected ones and its `th` cells are untouched. */
  lemma WithNameCellCells(row: Row, ti: nat, nameMap: map<string, string>)
    ensures CellsOf(WithNameCell(row, ti, nameMap), Td) == ExpectedDataCells(CellsOf(row, Td), ti, nameMap)
    ensures CellsOf(WithNameCell(row, ti, nameMap), Th) == CellsOf(row, Th)
  {
    var tds := CellsOf(row, Td);
    if |tds| > ti {
      InsertAfterNthCells(row, Td, ti, Cell(Td, Find(nameMap, tds[ti].text)));
    }
  }

  /**
   * The header insertion on one row: the `th` "Name" becomes `th` number
   * `ti + 1` and the `td` cells are untouched.
   */
  lemma WithNameHeaderCells(row: Row, ti: nat)
    requires ti < |CellsOf(row, Th)|
    ensures var ths := CellsOf(row, Th);
      CellsOf(WithNameHeader(row, ti), Th) == ths[..ti + 1] + [Cell(Th, NameHeader)] + ths[ti + 1..]
    ensures CellsOf(WithNameHeader(row, ti), Td) == CellsOf(row, Td)
  {
    InsertAfterNthCells(row, Th, ti, Cell(Th, NameHeader));
  }

  /** The header insertion puts the `th` "Name" directly after `th` number `ti` in the row. */
  lemma WithNameHeaderAdjacent(row: Row, ti: nat)
    requires ti < |CellsOf(row, Th)|
    ensures ti + 1 < |CellsOf(WithNameHeader(row, ti), Th)|
    ensures PositionOfNth(WithNameHeader(row, ti), Th, ti + 1) == PositionOfNth(WithNameHeader(row, ti), Th, ti) + 1
  {
    var name := Cell(Th, NameHeader);
    var p := PositionOfNth(row, Th, ti);
    var w := InsertAfter(row, p, name);
    CellsOfSplitAtNth(row, Th, ti);
    assert w[..p] == row[..p] && w[p] == row[p];
    PositionOfNthUnique(w, Th, ti, p);
    assert w[..p + 1] == row[..p + 1] && w[p + 1] == name;
    PositionOfNthUnique(w, Th, ti + 1, p + 1);
  }

  /** The data-row pass keeps two neighbouring `th` cells neighbours. */
  lemma WithNameCellKeepsAdjacent(row: Row, ti: nat, j: nat, nameMap: map<string, string>)
    requires j + 1 < |CellsOf(row, Th)|
    requires PositionOfNth(row, Th, j + 1) == PositionOfNth(row, Th, j) + 1
    ensures var w := WithNameCell(row, ti, nameMap);
      && j + 1 < |CellsOf(w, Th)|
      && PositionOfNth(w, Th, j + 1) == PositionOfNth(w, Th, j) + 1
  {
    var tds := CellsOf(row, Td);
    if |tds| > ti {
      var c := Cell(Td, Find(nameMap, tds[ti].text));
      var q := PositionOfNth(row, Td, ti);
      assert row[q].kind == Td;
      InsertAfterKeepsAdjacent(row, q, c, Th, j);
    }
  }

  /**
   * `process_files` leaves a table exactly as it was if and only if no row of
   * it has a `th` whose text is "Transporter ID".
   */
  lemma UnchangedIffNoTargetHeader(rows: seq<Row>, nameMap: map<string, string>)
    ensures InjectedRows(rows, nameMap) == rows <==> forall i :: 0 <= i < |rows| ==> !HasTargetHeader(rows[i])
  {
    match HeaderRow(rows)
    case None =>
    case Some(h) =>
      var ti := TargetIndex(rows[h]);
      var marked := rows[h := WithNameHeader(rows[h], ti)];
      var out := InjectedRows(rows, nameMap);
      assert |marked[h]| == |rows[h]| + 1;
      assert |out[h]| >= |marked[h]|;
      assert out[h] != rows[h];
  }

  /**
   * In the header row `h`, the `th` cells become the old ones with one `th`
   * "Name" inserted right after `th` number `transporter_index`.
   */
  lemma HeaderRowGainsNameHeader(rows: seq<Row>, nameMap: map<string, string>, h: nat)
    requires HeaderRow(rows) == Some(h)
    ensures var ti := TargetIndex(rows[h]);
      var ths := CellsOf(rows[h], Th);
      CellsOf(InjectedRows(rows, nameMap)[h], Th) == ths[..ti + 1] + [Cell(Th, NameHeader)] + ths[ti + 1..]
  {
    var ti := TargetIndex(rows[h]);
    var w := WithNameHeader(rows[h], ti);
    InjectedRowAt(rows, nameMap, h, h);
    WithNameHeaderCells(rows[h], ti);
    WithNameCellCells(w, ti, nameMap);
  }

  /**
   * In the header row, no cell separates the `th` "Transporter ID" that was
   * found from the `th` "Name" inserted after it, even once the row's own
   * `td` has been inserted.
   */
  lemma HeaderRowNameIsAdjacent(rows: seq<Row>, nameMap: map<string, string>, h: nat)
    requires HeaderRow(rows) == Some(h)
    ensures var ti := TargetIndex(rows[h]);
      var out := InjectedRows(rows, nameMap)[h];
      && ti + 1 < |CellsOf(out, Th)|
      && CellsOf(out, Th)[ti] == CellsOf(rows[h], Th)[ti]
      && CellsOf(out, Th)[ti + 1] == Cell(Th, NameHeader)
      && PositionOfNth(out, Th, ti + 1) == PositionOfNth(out, Th, ti) + 1
  {
    var ti := TargetIndex(rows[h]);
    var w := WithNameHeader(rows[h], ti);
    InjectedRowAt(rows, nameMap, h, h);
    WithNameHeaderAdjacent(rows[h], ti);
    WithNameCellKeepsAdjacent(w, ti, ti, nameMap);
    HeaderRowGainsNameHeader(rows, nameMap, h);
  }

  /** The header row's `td` cells follow the same rule as every other row's. */
  lemma HeaderRowDataCells(rows: seq<Row>, nameMap: map<string, string>, h: nat)
    requires HeaderRow(rows) == Some(h)
    ensures CellsOf(InjectedRows(rows, nameMap)[h], Td)
         == ExpectedDataCells(CellsOf(rows[h], Td), TargetIndex(rows[h]), nameMap)
  {
    var ti := TargetIndex(rows[h]);
    var w := WithNameHeader(rows[h], ti);
    InjectedRowAt(rows, nameMap, h, h);
    WithNameHeaderCells(rows[h], ti);
    WithNameCellCells(w, ti, nameMap);
  }

  /**
   * Every other row of a table with a header row keeps its `th` cells; if it
   * has no more than `transporter_index` `td` cells it is unchanged, and
   * otherwise it gains exactly one cell, right after its `td` number
   * `transporter_index`, holding the name found for that cell's text.
   */
  lemma OtherRowGainsNameCell(rows: seq<Row>, nameMap: map<string, string>, h: nat, i: nat)
    requires HeaderRow(rows) == Some(h) && i < |rows| && i != h
    ensures var ti := TargetIndex(rows[h]);
      var tds := CellsOf(rows[i], Td);
      var out := InjectedRows(rows, nameMap)[i];
      && CellsOf(out, Th) == CellsOf(rows[i], Th)
      && CellsOf(out, Td) == ExpectedDataCells(tds, ti, nameMap)
      && (|tds| <= ti ==> out == rows[i])
      && (|tds| > ti ==>
            out == InsertAfter(rows[i], PositionOfNth(rows[i], Td, ti), Cell(Td, Find(nameMap, tds[ti].text))))
  {
    InjectedRowAt(rows, nameMap, h, i);
    WithNameCellCells(rows[i], TargetIndex(rows[h]), nameMap);
  }

  /**
   * Inserting a `th` "Name" right after the first "Transporter ID" among a
   * row's `th` cells keeps that first "Transporter ID" where it was and adds
   * one "Name" to the header texts.
   */
  lemma NameInsertedTexts(ths: seq<Cell>, ti: nat)
    requires TargetHeader in Texts(ths) && FirstIndex(Texts(ths), TargetHeader) == ti
    ensures var after := ths[..ti + 1] + [Cell(Th, NameHeader)] + ths[ti + 1..];
      && TargetHeader in Texts(after)
      && FirstIndex(Texts(after), TargetHeader) == ti
      && multiset(Texts(after))[NameHeader] == multiset(Texts(ths))[NameHeader] + 1
  {
    var texts := Texts(ths);
    var name := Cell(Th, NameHeader);
    var after := ths[..ti + 1] + [name] + ths[ti + 1..];
    TextsConcat(ths[..ti + 1] + [name], ths[ti + 1..]);
    TextsConcat(ths[..ti + 1], [name]);
    assert Texts(ths[..ti + 1]) == texts[..ti + 1];
    assert Texts(ths[ti + 1..]) == texts[ti + 1..];
    var newTexts := Texts(after);
    assert newTexts == texts[..ti + 1] + [NameHeader] + texts[ti + 1..];
    assert texts == texts[..ti + 1] + texts[ti + 1..];
    assert newTexts[..ti] == texts[..ti];
    assert newTexts[ti] == TargetHeader;
    FirstIndexUnique(newTexts, TargetHeader, ti);
  }

  /**
   * After one run the header row is the same row, `transporter_index` is the
   * same, and that row has one more `th` "Name" than before.
   */
  lemma RunKeepsHeaderRow(rows: seq<Row>, nameMap: map<string, string>, h: nat)
    requires HeaderRow(rows) == Some(h)
    ensures var out := InjectedRows(rows, nameMap);
      && HeaderRow(out) == Some(h)
      && TargetIndex(out[h]) == TargetIndex(rows[h])
      && NameHeaderCount(out[h]) == NameHeaderCount(rows[h]) + 1
  {
    var ti := TargetIndex(rows[h]);
    var ths := CellsOf(rows[h], Th);
    var out := InjectedRows(rows, nameMap);
    HeaderRowGainsNameHeader(rows, nameMap, h);
    NameInsertedTexts(ths, ti);
    var after := ths[..ti + 1] + [Cell(Th, NameHeader)] + ths[ti + 1..];
    assert CellsOf(out[h], Th) == after;
    assert Texts(CellsOf(out[h], Th)) == Texts(after);
    assert HasTargetHeader(out[h]);
    assert TargetIndex(out[h]) == ti;
    assert NameHeaderCount(out[h]) == multiset(Texts(after))[NameHeader];
    forall i | 0 <= i < h
      ensures !HasTargetHeader(out[i])
    {
      OtherRowGainsNameCell(rows, nameMap, h, i);
    }
    HeaderRowUnique(out, h);
  }

  /**
   * `process_files` is not idempotent: run on its own output it inserts a
   * second `th` "Name" into the same header row, because nothing checks for
   * an existing Name column.
   */
  lemma SecondRunAddsSecondNameHeader(rows: seq<Row>, first: map<string, string>, second: map<string, string>)
    requires HeaderRow(rows).Some?
    ensures var h := HeaderRow(rows).value;
      var twice := InjectedRows(InjectedRows(rows, first), second);
      NameHeaderCount(twice[h]) == NameHeaderCount(rows[h]) + 2
  {
    var h := HeaderRow(rows).value;
    RunKeepsHeaderRow(rows, first, h);
    RunKeepsHeaderRow(InjectedRows(rows, first), second, h);
  }

  /**
   * The header row as `process_files` should leave it, stated on the old
   * row's positions: the `th` "Name" right after `th` number `ti` and, when
   * the row has more than `ti` `td` cells, the looked-up `td` right after
   * `td` number `ti`; every other cell keeps its old order.
   */
  function ExpectedHeaderRow(row: Row, ti: nat, nameMap: map<string, string>): Row
    requires ti < |CellsOf(row, Th)|
  {
    var p := PositionOfNth(row, Th, ti);
    var tds := CellsOf(row, Td);
    if |tds| <= ti then InsertAfter(row, p, Cell(Th, NameHeader))
    else InsertAfterBoth(row, p, Cell(Th, NameHeader), PositionOfNth(row, Td, ti), Cell(Td, Find(nameMap, tds[ti].text)))
  }

  /** Both passes on one row give the expected header row. */
  lemma NameHeaderThenCell(row: Row, ti: nat, nameMap: map<string, string>)
    requires ti < |CellsOf(row, Th)|
    ensures WithNameCell(WithNameHeader(row, ti), ti, nameMap) == ExpectedHeaderRow(row, ti, nameMap)
  {
    if |CellsOf(row, Td)| <= ti {
      NameHeaderOnly(row, ti, nameMap);
    } else {
      NameHeaderAndCell(row, ti, nameMap);
    }
  }

  /** A header row with no `td` number `ti` gains the `th` "Name" and nothing else. */
  lemma NameHeaderOnly(row: Row, ti: nat, nameMap: map<string, string>)
    requires ti < |CellsOf(row, Th)| && |CellsOf(row, Td)| <= ti
    ensures WithNameCell(WithNameHeader(row, ti), ti, nameMap)
         == InsertAfter(row, PositionOfNth(row, Th, ti), Cell(Th, NameHeader))
  {
    InsertAfterOtherKind(row, PositionOfNth(row, Th, ti), Cell(Th, NameHeader), Td);
  }

  /** A header row with a `td` number `ti` gains the `th` "Name" and its own name `td`. */
  lemma NameHeaderAndCell(row: Row, ti: nat, nameMap: map<string, string>)
    requires ti < |CellsOf(row, Th)| && ti < |CellsOf(row, Td)|
    ensures var tds := CellsOf(row, Td);
      var p := PositionOfNth(row, Th, ti);
      var q := PositionOfNth(row, Td, ti);
      && p != q
      && WithNameCell(WithNameHeader(row, ti), ti, nameMap)
         == InsertAfterBoth(row, p, Cell(Th, NameHeader), q, Cell(Td, Find(nameMap, tds[ti].text)))
  {
    var p := PositionOfNth(row, Th, ti);
    var q := PositionOfNth(row, Td, ti);
    var tds := CellsOf(row, Td);
    var nameTh := Cell(Th, NameHeader);
    var nameTd := Cell(Td, Find(nameMap, tds[ti].text));
    var w := InsertAfter(row, p, nameTh);
    assert WithNameHeader(row, ti) == w;
    InsertAfterOtherKind(row, p, nameTh, Td);
    InsertAfterShifts(row, p, nameTh, Td, ti);
    var q' := if p < q then q + 1 else q;
    assert PositionOfNth(w, Td, ti) == q';
    assert CellsOf(w, Td)[ti] == tds[ti];
    assert WithNameCell(w, ti, nameMap) == InsertAfter(w, q', nameTd);
    InsertAfterTwice(row, p, q, nameTh, nameTd);
  }

  /**
   * The header row's exact new shape: nothing but the `th` "Name" and, when
   * the row has enough `td` cells, its own name `td` is added, and all other
   * cells keep their order.
   */
  lemma HeaderRowShape(rows: seq<Row>, nameMap: map<string, string>, h: nat)
    requires HeaderRow(rows) == Some(h)
    ensures InjectedRows(rows, nameMap)[h] == ExpectedHeaderRow(rows[h], TargetIndex(rows[h]), nameMap)
  {
    InjectedRowAt(rows, nameMap, h, h);
    NameHeaderThenCell(rows[h], TargetIndex(rows[h]), nameMap);
  }
}
