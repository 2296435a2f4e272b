/** utilities/ExcelWrite: one sheet of an .xlsx workbook opened for writing.
    Rows and cells are sparse: `setCellValue` and `fillCell…` reuse the row
    and the cell when they exist and create them when they do not. Only the
    sheet the writer opened changes; the other sheets are kept as loaded. */
module ExcelWrite {
  import opened Common

  datatype Color = LightGreen | Red

  /** A cell style: the workbook default, a style the loaded file already
      carried, or a fresh style with a solid fill of one colour. */
  datatype Style = DefaultStyle | LoadedStyle(id: nat) | SolidFill(color: Color)

  /** A cell value: blank (a freshly created cell), a string, or a value of
      another type that the loaded file carried. */
  datatype CellValue = Blank | Text(text: string) | LoadedValue(id: nat)

  datatype Cell = Cell(value: CellValue, style: Style)

  datatype Sheet = Sheet(rows: set<int>, cells: map<(int, int), Cell>)

  const EmptySheet: Sheet := Sheet({}, map[])

  /** The largest row and column indexes of the .xlsx format; Apache POI
      refuses to create a row or a cell outside them. */
  const LastRowIndex: int := 1048575
  const LastColumnIndex: int := 16383

  predicate ValidRow(r: int) { 0 <= r <= LastRowIndex }
  predicate ValidColumn(c: int) { 0 <= c <= LastColumnIndex }

  /** Every row and cell index is in range, and every cell lies in a row. */
  ghost predicate WellFormed(rows: set<int>, cells: map<(int, int), Cell>)
  {
    (forall r :: r in rows ==> ValidRow(r))
    && forall rc :: rc in cells ==> rc.0 in rows && ValidColumn(rc.1)
  }

  /** A cell that does not exist reads as what createCell makes: blank, with
      the default style. */
  function CellAt(cells: map<(int, int), Cell>, r: int, c: int): Cell
  {
    if (r, c) in cells then cells[(r, c)] else Cell(Blank, DefaultStyle)
  }

  /** The cells after `cell.setCellValue(v)`: the value replaced, the style kept. */
  function WithValue(cells: map<(int, int), Cell>, r: int, c: int, v: string): map<(int, int), Cell>
  {
    cells[(r, c) := Cell(Text(v), CellAt(cells, r, c).style)]
  }

  /** The cells after `cell.setCellStyle(style)` with a new solid-fill style:
      the style replaced, the value kept. */
  function WithFill(cells: map<(int, int), Cell>, r: int, c: int, color: Color): map<(int, int), Cell>
  {
    cells[(r, c) := Cell(CellAt(cells, r, c).value, SolidFill(color))]
  }

  lemma ValueIsRead(cells: map<(int, int), Cell>, r: int, c: int, v: string)
    ensures CellAt(WithValue(cells, r, c, v), r, c) == Cell(Text(v), CellAt(cells, r, c).style)
  {
  }

  /** Writing one cell leaves every other cell as it was. */
  lemma WithValueFrame(cells: map<(int, int), Cell>, r: int, c: int, v: string, r': int, c': int)
    requires (r', c') != (r, c)
    ensures CellAt(WithValue(cells, r, c, v), r', c') == CellAt(cells, r', c')
  {
  }

  /** Filling a cell never changes a value, of that cell or of any other, and
      changes no other cell's style. */
  lemma FillKeepsValues(cells: map<(int, int), Cell>, r: int, c: int, color: Color, r': int, c': int)
    ensures CellAt(WithFill(cells, r, c, color), r', c').value == CellAt(cells, r', c').value
    ensures (r', c') != (r, c) ==> CellAt(WithFill(cells, r, c, color), r', c') == CellAt(cells, r', c')
    ensures CellAt(WithFill(cells, r, c, color), r, c).style == SolidFill(color)
  {
  }

  /** The rows first, first + 1, ..., first + count - 1. */
  function RowSpan(first: int, count: nat): (span: set<int>)
    ensures forall k :: k in span <==> first <= k < first + count
  {
    if count == 0 then {} else RowSpan(first, count - 1) + {first + count - 1}
  }

  /** `values[k]` written to (first + k, col), in order. */
  function WriteColumn(cells: map<(int, int), Cell>, col: int, first: int, values: seq<string>): map<(int, int), Cell>
    decreases |values|
  {
    if values == [] then cells
    else
      var n := |values| - 1;
      WithValue(WriteColumn(cells, col, first, values[..n]), first + n, col, values[n])
  }

  /** After writing a column, row first + k of it holds values[k]. */
  lemma {:induction false} WriteColumnAt(cells: map<(int, int), Cell>, col: int, first: int, values: seq<string>, k: nat)
    requires k < |values|
    ensures CellAt(WriteColumn(cells, col, first, values), first + k, col).value == Text(values[k])
    decreases |values|
  {
    var n := |values| - 1;
    if k < n {
      WriteColumnAt(cells, col, first, values[..n], k);
      assert values[..n][k] == values[k];
    }
  }

  /** Writing a column changes no cell outside the rows it covers in that column. */
  lemma {:induction false} WriteColumnFrame(cells: map<(int, int), Cell>, col: int, first: int, values: seq<string>, r: int, c: int)
    requires c != col || r < first || first + |values| <= r
    ensures CellAt(WriteColumn(cells, col, first, values), r, c) == CellAt(cells, r, c)
    decreases |values|
  {
    if values != [] {
      var n := |values| - 1;
      WriteColumnFrame(cells, col, first, values[..n], r, c);
    }
  }

  class Writer {
    /** The workbook's sheets as loaded from the file. */
    const book: map<string, Sheet>
    /** The sheet this writer opened. */
    const sheetName: string
    var rows: set<int>
    var cells: map<(int, int), Cell>

    ghost predicate Valid()
      reads this
    {
      WellFormed(rows, cells)
    }

    /** The workbook as it would be saved. */
    function Workbook(): map<string, Sheet>
      reads this
    {
      book[sheetName := Sheet(rows, cells)]
    }

    /** `new ExcelWrite(filePath, sheetName)`: the named sheet, created empty
        when the workbook has none of that name. */
    constructor (book: map<string, Sheet>, sheetName: string)
      requires forall n :: n in book ==> WellFormed(book[n].rows, book[n].cells)
      ensures Valid() && this.book == book && this.sheetName == sheetName
      ensures Sheet(rows, cells) == if sheetName in book then book[sheetName] else EmptySheet
      ensures Workbook().Keys == book.Keys + {sheetName}
    {
      this.book := book;
      this.sheetName := sheetName;
      var sheet := if sheetName in book then book[sheetName] else EmptySheet;
      rows := sheet.rows;
      cells := sheet.cells;
    }

    /** Finds or creates row `r`; false when POI refuses to create it. */
    method EnsureRow(r: int) returns (ok: bool)
      requires Valid()
      modifies this
      ensures Valid() && cells == old(cells)
      ensures ok == ValidRow(r)
      ensures rows == if ok then old(rows) + {r} else old(rows)
    {
      if r in rows {
        return true;
      }
      if !ValidRow(r) {
        return false;
      }
      rows := rows + {r};
      return true;
    }

    /** `setCellValue(r, c, v)`: afterwards (r, c) holds the string `v` and
        keeps its style; no other cell changes. `ok` is false when an index is
        out of range (POI throws); the row was then still created if its
        index was valid. */
    method SetCellValue(r: int, c: int, v: string) returns (ok: bool)
      requires Valid()
      modifies this
      ensures Valid()
      ensures ok == (ValidRow(r) && ValidColumn(c))
      ensures rows == if ValidRow(r) then old(rows) + {r} else old(rows)
      ensures cells == if ok then WithValue(old(cells), r, c, v) else old(cells)
    {
      ok := EnsureRow(r);
      if !ok {
        return;
      }
      if !ValidColumn(c) {
        return false;
      }
      cells := WithValue(cells, r, c, v);
    }

    /** `fillCellColor(r, c, color)`: a new solid-fill style on (r, c), whose
        value is kept (a missing cell is created blank). */
    method FillCellColor(r: int, c: int, color: Color) returns (ok: bool)
      requires Valid()
      modifies this
      ensures Valid()
      ensures ok == (ValidRow(r) && ValidColumn(c))
      ensures rows == if ValidRow(r) then old(rows) + {r} else old(rows)
      ensures cells == if ok then WithFill(old(cells), r, c, color) else old(cells)
    {
      ok := EnsureRow(r);
      if !ok {
        return;
      }
      if !ValidColumn(c) {
        return false;
      }
      cells := WithFill(cells, r, c, color);
    }

    method FillCellGreen(r: int, c: int) returns (ok: bool)
      requires Valid()
      modifies this
      ensures Valid()
      ensures ok == (ValidRow(r) && ValidColumn(c))
      ensures rows == if ValidRow(r) then old(rows) + {r} else old(rows)
      ensures cells == if ok then WithFill(old(cells), r, c, LightGreen) else old(cells)
    {
      ok := FillCellColor(r, c, LightGreen);
    }

    method FillCellRed(r: int, c: int) returns (ok: bool)
      requires Valid()
      modifies this
      ensures Valid()
      ensures ok == (ValidRow(r) && ValidColumn(c))
      ensures rows == if ValidRow(r) then old(rows) + {r} else old(rows)
      ensures cells == if ok then WithFill(old(cells), r, c, Red) else old(cells)
    {
      ok := FillCellColor(r, c, Red);
    }
  }
}
