/**
 * Column injection of `process_files`: in every table, find the first row
 * with a `th` whose text is "Transporter ID", insert a `th` "Name" right after
 * that header cell, and in every row with enough `td` cells insert, right
 * after the `td` at the same index, a `td` holding the name looked up for that
 * cell's text.
 */
module Injection {
  import opened Wrappers
  import opened Markup
  import opened Lookup

  const TargetHeader: string := "Transporter ID"
  const NameHeader: string := "Name"

  /** `[c.get_text(strip=True) for c in cells]`. */
  function Texts(cells: seq<Cell>): seq<string> {
    seq(|cells|, i requires 0 <= i < |cells| => cells[i].text)
  }

  /** `any(th.get_text(strip=True) == "Transporter ID" for th in tr.find_all("th"))`. */
  predicate HasTargetHeader(row: Row) {
    TargetHeader in Texts(CellsOf(row, Th))
  }

  /** The header row: the first row that has a `th` "Transporter ID", if any. */
  function HeaderRow(rows: seq<Row>): (h: Option<nat>)
    ensures h.None? <==> forall i :: 0 <= i < |rows| ==> !HasTargetHeader(rows[i])
    ensures h.Some? ==> h.value < |rows| && HasTargetHeader(rows[h.value])
    ensures h.Some? ==> forall i :: 0 <= i < h.value ==> !HasTargetHeader(rows[i])
  {
    if rows == [] then None
    else if HasTargetHeader(rows[0]) then Some(0)
    else match HeaderRow(rows[1..])
      case None => None
      case Some(k) => Some(k + 1)
  }

  /** `headers.index(x)`: the position of the first occurrence of `x`. */
  function FirstIndex(headers: seq<string>, x: string): (i: nat)
    requires x in headers
    ensures i < |headers| && headers[i] == x && x !in headers[..i]
  {
    if headers[0] == x then 0
    else
      var k := FirstIndex(headers[1..], x);
      assert headers[1..][..k] == headers[1..k + 1];
      k + 1
  }

  /** `transporter_index`: the position of the first "Transporter ID" among the row's `th` cells. */
  function TargetIndex(row: Row): (ti: nat)
    requires HasTargetHeader(row)
    ensures ti < |CellsOf(row, Th)|
  {
    FirstIndex(Texts(CellsOf(row, Th)), TargetHeader)
  }

  /** The header row once the `th` "Name" is inserted after its `th` number `ti`. */
  function WithNameHeader(row: Row, ti: nat): Row
    requires ti < |CellsOf(row, Th)|
  {
    InsertAfterNth(row, Th, ti, Cell(Th, NameHeader))
  }

  /**
   * One pass of the data-row loop over `row`: rows without more than `ti`
   * `td` cells are skipped; otherwise a `td` with the name found for the text
   * of `td` number `ti` is inserted right after it.
   */
  function WithNameCell(row: Row, ti: nat, nameMap: map<string, string>): Row {
    var tds := CellsOf(row, Td);
    if |tds| == 0 || |tds| <= ti then row
    else InsertAfterNth(row, Td, ti, Cell(Td, Find(nameMap, tds[ti].text)))
  }

  /** The data-row loop over all rows of a table. */
  function WithNameCells(rows: seq<Row>, ti: nat, nameMap: map<string, string>): (r: seq<Row>)
    ensures |r| == |rows|
  {
    seq(|rows|, i requires 0 <= i < |rows| => WithNameCell(rows[i], ti, nameMap))
  }

  /** A table's rows after `process_files` has handled it. */
  function InjectedRows(rows: seq<Row>, nameMap: map<string, string>): seq<Row> {
    match HeaderRow(rows)
    case None => rows
    case Some(h) =>
      var ti := TargetIndex(rows[h]);
      WithNameCells(rows[h := WithNameHeader(rows[h], ti)], ti, nameMap)
  }

  /** The header-row search of `process_files`: a loop that stops at the first match. */
  method FindHeaderRow(rows: seq<Row>) returns (h: Option<nat>)
    ensures h == HeaderRow(rows)
  {
    h := None;
    var i := 0;
    while i < |rows|
      invariant 0 <= i <= |rows|
      invariant forall j :: 0 <= j < i ==> !HasTargetHeader(rows[j])
    {
      var ths := CellsOf(rows[i], Th);
      if TargetHeader in Texts(ths) {
        h := Some(i);
        return;
      }
      i := i + 1;
    }
  }

  /** A `table` element of the parsed document, whose rows are edited in place. */
  class Table {
    var rows: seq<Row>

    constructor (rows: seq<Row>)
      ensures this.rows == rows
    {
      this.rows := rows;
    }

    /** The body of the `for table in soup.find_all("table")` loop. */
    method InjectNameColumn(nameMap: map<string, string>)
      modifies this
      ensures rows == InjectedRows(old(rows), nameMap)
    {
      var headerRow := FindHeaderRow(rows);
      if headerRow.None? {
        return;
      }
      var h := headerRow.value;
      var headerCells := CellsOf(rows[h], Th);
      var headers := Texts(headerCells);
      var transporterIndex := FirstIndex(headers, TargetHeader);
      rows := rows[h := InsertAfterNth(rows[h], Th, transporterIndex, Cell(Th, NameHeader))];
      AddNameCells(transporterIndex, nameMap);
    }

    /** The `for tr in table.find_all("tr")` loop that adds the data cells. */
    method AddNameCells(transporterIndex: nat, nameMap: map<string, string>)
      modifies this
      ensures rows == WithNameCells(old(rows), transporterIndex, nameMap)
    {
      ghost var marked := rows;
      var i := 0;
      while i < |rows|
        invariant 0 <= i <= |rows| == |marked|
        invariant forall j :: 0 <= j < i ==> rows[j] == WithNameCell(marked[j], transporterIndex, nameMap)
        invariant forall j :: i <= j < |rows| ==> rows[j] == marked[j]
      {
        var tds := CellsOf(rows[i], Td);
        if |tds| == 0 || |tds| <= transporterIndex {
          i := i + 1;
          continue;
        }
        var transporterId := tds[transporterIndex].text;
        var nameVal := Find(nameMap, transporterId);
        rows := rows[i := InsertAfterNth(rows[i], Td, transporterIndex, Cell(Td, nameVal))];
        i := i + 1;
      }
    }
  }

  /**
   * `process_files` on the document's tables (distinct elements): build
   * `name_map` from the two spreadsheet columns, then handle every table.
   */
  method ProcessFiles(tables: seq<Table>, ids: seq<string>, names: seq<string>)
    requires forall i, j :: 0 <= i < j < |tables| ==> tables[i] != tables[j]
    modifies tables
    ensures forall i :: 0 <= i < |tables| ==>
              tables[i].rows == InjectedRows(old(tables[i].rows), NameMap(ids, names))
  {
    var nameMap := NameMap(ids, names);
    var k := 0;
    while k < |tables|
      invariant 0 <= k <= |tables|
      invariant forall i :: 0 <= i < k ==> tables[i].rows == InjectedRows(old(tables[i].rows), nameMap)
      invariant forall i :: k <= i < |tables| ==> tables[i].rows == old(tables[i].rows)
    {
      label Before:
      tables[k].InjectNameColumn(nameMap);
      assert forall i :: 0 <= i < |tables| && i != k ==> tables[i].rows == old@Before(tables[i].rows);
      k := k + 1;
    }
  }
}
