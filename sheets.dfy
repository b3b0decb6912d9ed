/** The registration worksheet: the one tab of the spreadsheet that holds the
    registrations, as the spreadsheet client sees it. */
module Sheets {

  /** One row of the worksheet: its cell values, left to right. */
  type Row = seq<string>

  const NameColumn := "nom_complet"
  const MemberColumn := "numero_membre"
  const FeeColumn := "frais_compris"
  const DateColumn := "date_inscription"

  /** `SHEET_HEADERS`: the header row the worksheet is meant to start with. */
  const SheetHeaders: Row := [NameColumn, MemberColumn, FeeColumn, DateColumn]

  /** The cell in column `j` (0-based) of `row`; a cell past the end of the
      row reads as the empty string, as the client's padding of short rows
      gives it. */
  function CellAt(row: Row, j: nat): (cell: string)
    ensures j < |row| ==> cell == row[j]
    ensures j >= |row| ==> cell == ""
  {
    if j < |row| then row[j] else ""
  }

  /** The worksheet. Its rows are `rows`, top to bottom: the sheet's row `n`
      (1-based, as the client numbers them) is `rows[n - 1]`. The methods are
      the four client calls the registration code makes. */
  class Worksheet {
    var rows: seq<Row>

    constructor (initial: seq<Row>)
      ensures rows == initial
    {
      rows := initial;
    }

    /** `get_all_values()`. */
    method GetAllValues() returns (values: seq<Row>)
      ensures values == rows
    {
      values := rows;
    }

    /** `append_row(row)`: the row goes after the last one. */
    method AppendRow(row: Row)
      modifies this
      ensures rows == old(rows) + [row]
    {
      rows := rows + [row];
    }

    /** `insert_row(row, index)`: the row becomes sheet row `index`; the
        rows from there on move down by one. */
    method InsertRow(row: Row, index: nat)
      requires 1 <= index <= |rows| + 1
      modifies this
      ensures rows == old(rows)[..index - 1] + [row] + old(rows)[index - 1..]
    {
      rows := rows[..index - 1] + [row] + rows[index - 1..];
    }

    /** `delete_rows(index)`: sheet row `index` goes; the rows below it move
        up by one. */
    method DeleteRows(index: nat)
      requires 1 <= index <= |rows|
      modifies this
      ensures rows == old(rows)[..index - 1] + old(rows)[index..]
    {
      rows := rows[..index - 1] + rows[index..];
    }
  }
}
