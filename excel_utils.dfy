/** utilities/ExcelUtils.getData: reads a sheet into a map from the key in
    column 0 of each data row to a map from column header to cell text.
    The workbook file itself is not modelled: the sheet is given as its rows,
    each row as its cells up to getLastCellNum, as DataFormatter sees them. */
module ExcelUtils {
  import opened Common
  import opened JavaText

  /** A cell that exists: blank, one DataFormatter formats to this text, or
      one it throws on. */
  datatype XCell = BlankCell | Formatted(text: string) | Unreadable

  /** getCell(j) for j < getLastCellNum; None is a missing cell. */
  type Row = seq<Option<XCell>>

  /** getRow(i) for i <= getLastRowNum; None is a missing row. */
  type Rows = seq<Option<Row>>

  /** The rows that are not read: missing, or with column 0 missing or blank. */
  predicate Skipped(row: Option<Row>)
  {
    row.None? || |row.value| == 0 || row.value[0].None? || row.value[0] == Some(BlankCell)
  }

  /** formatCellValue(getCell(0)).trim() of a row that is read. */
  function KeyText(row: Option<Row>): (r: Result<string>)
    requires !Skipped(row)
    ensures r.Err? <==> row.value[0] == Some(Unreadable)
  {
    match row.value[0].value
    case Formatted(t) => Ok(Trim(t))
    case _ => Err(FormatFailure)
  }

  /** formatCellValue(headerRow.getCell(j)).trim(): a missing header row is
      dereferenced (NullPointer); a missing header cell formats as "". */
  function HeaderText(header: Option<Row>, j: nat): Result<string>
  {
    if header.None? then Err(NullPointer)
    else if j >= |header.value| || header.value[j].None? then Ok("")
    else match header.value[j].value
      case BlankCell => Ok("")
      case Formatted(t) => Ok(Trim(t))
      case Unreadable => Err(FormatFailure)
  }

  /** The value read for column j: "" for a missing or blank cell, and for one
      whose formatting throws (the exception is caught). */
  function ValueText(cells: Row, j: nat): string
    requires j < |cells|
  {
    match cells[j]
    case Some(Formatted(t)) => Trim(t)
    case _ => ""
  }

  /** The (header, value) puts for columns 1 .. n-1, in column order, or the
      first exception. */
  function RowPairs(header: Option<Row>, cells: Row, n: nat): Result<seq<(string, string)>>
    requires n <= 1 || n <= |cells|
    decreases n
  {
    if n <= 1 then Ok([])
    else match RowPairs(header, cells, n - 1)
      case Err(e) => Err(e)
      case Ok(pairs) =>
        match HeaderText(header, n - 1)
        case Err(e) => Err(e)
        case Ok(h) => Ok(pairs + [(h, ValueText(cells, n - 1))])
  }

  /** rowData after the inner loop. */
  function RowMap(header: Option<Row>, cells: Row): Result<map<string, string>>
  {
    match RowPairs(header, cells, |cells|)
    case Err(e) => Err(e)
    case Ok(pairs) => Ok(PutAll(pairs))
  }

  /** The put row `row` contributes: none for a skipped row, else its key
      and rowData, or the first exception. */
  function RowEntry(header: Option<Row>, row: Option<Row>): Result<Option<(string, map<string, string>)>>
  {
    if Skipped(row) then Ok(None)
    else match KeyText(row)
      case Err(e) => Err(e)
      case Ok(key) =>
        match RowMap(header, row.value)
        case Err(e) => Err(e)
        case Ok(m) => Ok(Some((key, m)))
  }

  /** The (key, rowData) puts for rows 1 .. n-1, in row order, or the first
      exception. */
  function SheetEntries(rows: Rows, n: nat): Result<seq<(string, map<string, string>)>>
    requires n <= 1 || n <= |rows|
    decreases n
  {
    if n <= 1 then Ok([])
    else match SheetEntries(rows, n - 1)
      case Err(e) => Err(e)
      case Ok(entries) =>
        match RowEntry(rows[0], rows[n - 1])
        case Err(e) => Err(e)
        case Ok(None) => Ok(entries)
        case Ok(Some(entry)) => Ok(entries + [entry])
  }

  /** What getData returns for a sheet (None: no sheet of that name, so
      `ws.getRow(0)` dereferences null). */
  function ReadSheet(sheet: Option<Rows>): Result<map<string, map<string, string>>>
  {
    if sheet.None? then Err(NullPointer)
    else match SheetEntries(sheet.value, |sheet.value|)
      case Err(e) => Err(e)
      case Ok(entries) => Ok(PutAll(entries))
  }

  // -------------------------------------------------------------------------
  // The loops.

  lemma PutAllSnoc<K(!new), V(!new)>(entries: seq<(K, V)>, k: K, v: V)
    ensures PutAll(entries + [(k, v)]) == PutAll(entries)[k := v]
  {
    assert (entries + [(k, v)])[..|entries|] == entries;
  }

  /** The inner loop over columns 1 .. getLastCellNum - 1. */
  method ReadRow(headerRow: Option<Row>, cells: Row) returns (r: Result<map<string, string>>)
    ensures r == RowMap(headerRow, cells)
  {
    var rowData: map<string, string> := map[];
    ghost var pairs: seq<(string, string)> := [];
    var j := 1;
    while j < |cells|
      invariant 1 <= j && (j <= 1 || j <= |cells|)
      invariant RowPairs(headerRow, cells, j) == Ok(pairs)
      invariant rowData == PutAll(pairs)
    {
      var header := HeaderText(headerRow, j);
      if header.Err? {
        assert RowPairs(headerRow, cells, j + 1) == Err(header.error);
        RowPairsErrStays(headerRow, cells, j + 1, |cells|);
        return Err(header.error);
      }
      var value := ValueText(cells, j);
      PutAllSnoc(pairs, header.value, value);
      rowData := rowData[header.value := value];
      pairs := pairs + [(header.value, value)];
      j := j + 1;
    }
    r := Ok(rowData);
  }

  lemma {:induction false} RowPairsErrStays(header: Option<Row>, cells: Row, m: nat, n: nat)
    requires m <= n && (n <= 1 || n <= |cells|)
    requires RowPairs(header, cells, m).Err?
    ensures RowPairs(header, cells, n) == RowPairs(header, cells, m)
    decreases n - m
  {
    if m < n {
      RowPairsErrStays(header, cells, m, n - 1);
    }
  }

  lemma {:induction false} SheetEntriesErrStays(rows: Rows, m: nat, n: nat)
    requires m <= n && (n <= 1 || n <= |rows|)
    requires SheetEntries(rows, m).Err?
    ensures SheetEntries(rows, n) == SheetEntries(rows, m)
    decreases n - m
  {
    if m < n {
      SheetEntriesErrStays(rows, m, n - 1);
    }
  }

  /** One pass of the outer loop's body: `continue` on a skipped row, else
      the key and the inner loop. */
  method ReadEntry(headerRow: Option<Row>, rData: Option<Row>) returns (r: Result<Option<(string, map<string, string>)>>)
    ensures r == RowEntry(headerRow, rData)
  {
    if Skipped(rData) {
      return Ok(None);
    }
    var key := KeyText(rData);
    if key.Err? {
      return Err(key.error);
    }
    var rowData := ReadRow(headerRow, rData.value);
    if rowData.Err? {
      return Err(rowData.error);
    }
    r := Ok(Some((key.value, rowData.value)));
  }

  /** getData, once the workbook is open: the outer loop over rows
      1 .. getLastRowNum. */
  method GetData(sheet: Option<Rows>) returns (r: Result<map<string, map<string, string>>>)
    ensures r == ReadSheet(sheet)
  {
    if sheet.None? {
      return Err(NullPointer);
    }
    var ws := sheet.value;
    var headerRow := if |ws| > 0 then ws[0] else None;
    var dataMap: map<string, map<string, string>> := map[];
    ghost var entries: seq<(string, map<string, string>)> := [];
    var i := 1;
    while i <= |ws| - 1
      invariant 1 <= i && (i <= 1 || i <= |ws|)
      invariant SheetEntries(ws, i) == Ok(entries)
      invariant dataMap == PutAll(entries)
    {
      var entry := ReadEntry(headerRow, ws[i]);
      if entry.Err? {
        SheetEntriesErrStays(ws, i + 1, |ws|);
        return Err(entry.error);
      }
      if entry.value.Some? {
        var key, rowData := entry.value.value.0, entry.value.value.1;
        PutAllSnoc(entries, key, rowData);
        dataMap := dataMap[key := rowData];
        entries := entries + [(key, rowData)];
      }
      i := i + 1;
    }
    r := Ok(dataMap);
  }

  // -------------------------------------------------------------------------
  // Properties of the read.

  /** One key more at the end of a list of puts. */
  lemma SnocKeys<K, V>(s: seq<(K, V)>, e: (K, V), k: K)
    ensures (exists p :: p in s + [e] && p.0 == k) <==> (exists p :: p in s && p.0 == k) || e.0 == k
  {
    if exists p :: p in s + [e] && p.0 == k {
      var p :| p in s + [e] && p.0 == k;
      assert p in s || p == e;
    }
    if e.0 == k {
      assert e in s + [e];
    }
    if exists p :: p in s && p.0 == k {
      var p :| p in s && p.0 == k;
      assert p in s + [e];
    }
  }

  lemma SheetEntriesStep(rows: Rows, n: nat)
    requires 1 < n <= |rows|
    requires SheetEntries(rows, n).Ok?
    ensures SheetEntries(rows, n - 1).Ok? && RowEntry(rows[0], rows[n - 1]).Ok?
    ensures RowEntry(rows[0], rows[n - 1]).value.None? ==> SheetEntries(rows, n) == SheetEntries(rows, n - 1)
    ensures RowEntry(rows[0], rows[n - 1]).value.Some? ==>
      SheetEntries(rows, n).value == SheetEntries(rows, n - 1).value + [RowEntry(rows[0], rows[n - 1]).value.value]
  {
  }

  /** Row `row` is read and its key is k. */
  predicate ReadsKey(row: Option<Row>, k: string)
  {
    !Skipped(row) && KeyText(row) == Ok(k)
  }

  /** A row puts an entry of key k exactly when it is read with key k. */
  lemma RowEntryKey(header: Option<Row>, row: Option<Row>, k: string)
    requires RowEntry(header, row).Ok?
    ensures (RowEntry(header, row).value.Some? && RowEntry(header, row).value.value.0 == k) <==> ReadsKey(row, k)
  {
  }

  /** The puts after one more step: the old ones, then the step's entry if any. */
  lemma KeysStep<V>(prev: seq<(string, V)>, cur: seq<(string, V)>, e: Option<(string, V)>, k: string, before: bool, last: bool)
    requires cur == if e.Some? then prev + [e.value] else prev
    requires (exists p :: p in prev && p.0 == k) <==> before
    requires (e.Some? && e.value.0 == k) <==> last
    ensures (exists p :: p in cur && p.0 == k) <==> before || last
  {
    if e.Some? {
      SnocKeys(prev, e.value, k);
    }
  }

  lemma {:induction false} SheetEntriesKeys(rows: Rows, n: nat, k: string)
    requires n <= 1 || n <= |rows|
    requires SheetEntries(rows, n).Ok?
    ensures (exists e :: e in SheetEntries(rows, n).value && e.0 == k)
        <==> exists i :: 1 <= i < n && ReadsKey(rows[i], k)
    decreases n
  {
    if n > 1 {
      SheetEntriesStep(rows, n);
      SheetEntriesKeys(rows, n - 1, k);
      RowEntryKey(rows[0], rows[n - 1], k);
      ghost var before := exists i :: 1 <= i < n - 1 && ReadsKey(rows[i], k);
      ghost var last := ReadsKey(rows[n - 1], k);
      KeysStep(SheetEntries(rows, n - 1).value, SheetEntries(rows, n).value, RowEntry(rows[0], rows[n - 1]).value, k, before, last);
      ExistsSplit(rows, n, k);
    }
  }

  lemma ExistsSplit(rows: Rows, n: nat, k: string)
    requires 1 < n <= |rows|
    ensures (exists i :: 1 <= i < n && ReadsKey(rows[i], k))
        <==> (exists i :: 1 <= i < n - 1 && ReadsKey(rows[i], k)) || ReadsKey(rows[n - 1], k)
  {
    if exists i :: 1 <= i < n && ReadsKey(rows[i], k) {
      var i :| 1 <= i < n && ReadsKey(rows[i], k);
      if i < n - 1 {
        assert 1 <= i < n - 1 && ReadsKey(rows[i], k);
      }
    }
    if ReadsKey(rows[n - 1], k) {
      assert 1 <= n - 1 < n && ReadsKey(rows[n - 1], k);
    }
  }

  /** The keys are exactly the trimmed column-0 texts of the rows read; the
      header row (index 0) is never one of them. */
  lemma ReadSheetKeys(rows: Rows, k: string)
    requires ReadSheet(Some(rows)).Ok?
    ensures k in ReadSheet(Some(rows)).value
        <==> exists i :: 1 <= i < |rows| && ReadsKey(rows[i], k)
  {
    SheetEntriesKeys(rows, |rows|, k);
    var entries := SheetEntries(rows, |rows|).value;
    if k in ReadSheet(Some(rows)).value {
      var e :| e in entries && e.0 == k;
    }
  }

  lemma {:induction false} SheetEntriesFrame(rows: Rows, row: Option<Row>, n: nat)
    requires 1 <= |rows| && n <= |rows|
    ensures SheetEntries(rows + [row], n) == SheetEntries(rows, n)
    decreases n
  {
    if n > 1 {
      SheetEntriesFrame(rows, row, n - 1);
      assert (rows + [row])[0] == rows[0] && (rows + [row])[n - 1] == rows[n - 1];
    }
  }

  /** A row appended below the others: skipped, it changes nothing; read, it
      puts its key with its rowData, replacing any earlier row of that key. */
  lemma ReadSheetAppendRow(rows: Rows, row: Option<Row>)
    requires |rows| >= 1
    ensures Skipped(row) ==> ReadSheet(Some(rows + [row])) == ReadSheet(Some(rows))
    ensures ReadSheet(Some(rows)).Ok? && RowEntry(rows[0], row).Ok? && RowEntry(rows[0], row).value.Some? ==>
      var (k, m) := RowEntry(rows[0], row).value.value;
      ReadSheet(Some(rows + [row])) == Ok(ReadSheet(Some(rows)).value[k := m])
  {
    SheetEntriesFrame(rows, row, |rows|);
    assert (rows + [row])[0] == rows[0] && (rows + [row])[|rows|] == row;
    if ReadSheet(Some(rows)).Ok? && RowEntry(rows[0], row).Ok? && RowEntry(rows[0], row).value.Some? {
      var (k, m) := RowEntry(rows[0], row).value.value;
      PutAllSnoc(SheetEntries(rows, |rows|).value, k, m);
    }
  }

  lemma RowPairsStep(header: Option<Row>, cells: Row, n: nat)
    requires 1 < n <= |cells|
    requires RowPairs(header, cells, n).Ok?
    ensures RowPairs(header, cells, n - 1).Ok? && HeaderText(header, n - 1).Ok?
    ensures RowPairs(header, cells, n).value
        == RowPairs(header, cells, n - 1).value + [(HeaderText(header, n - 1).value, ValueText(cells, n - 1))]
  {
  }

  lemma {:induction false} RowPairsKeys(header: Option<Row>, cells: Row, n: nat, h: string)
    requires n <= 1 || n <= |cells|
    requires RowPairs(header, cells, n).Ok?
    ensures (exists p :: p in RowPairs(header, cells, n).value && p.0 == h)
        <==> exists j :: 1 <= j < n && HeaderText(header, j) == Ok(h)
    decreases n
  {
    if n > 1 {
      RowPairsStep(header, cells, n);
      RowPairsKeys(header, cells, n - 1, h);
      var prev := RowPairs(header, cells, n - 1).value;
      SnocKeys(prev, (HeaderText(header, n - 1).value, ValueText(cells, n - 1)), h);
      if exists j :: 1 <= j < n && HeaderText(header, j) == Ok(h) {
        var j :| 1 <= j < n && HeaderText(header, j) == Ok(h);
        if j < n - 1 {
          assert exists j :: 1 <= j < n - 1 && HeaderText(header, j) == Ok(h);
        }
      }
      if exists p :: p in RowPairs(header, cells, n).value && p.0 == h {
        if exists p :: p in prev && p.0 == h {
          var j :| 1 <= j < n - 1 && HeaderText(header, j) == Ok(h);
          assert 1 <= j < n && HeaderText(header, j) == Ok(h);
        } else {
          assert HeaderText(header, n - 1) == Ok(h);
        }
      }
    }
  }

  /** A row's map has one key per header text of columns 1 onwards: column 0
      (the key column) contributes none. */
  lemma RowMapKeys(header: Option<Row>, cells: Row, h: string)
    requires RowMap(header, cells).Ok?
    ensures h in RowMap(header, cells).value <==> exists j :: 1 <= j < |cells| && HeaderText(header, j) == Ok(h)
  {
    RowPairsKeys(header, cells, |cells|, h);
    if h in RowMap(header, cells).value {
      var p :| p in RowPairs(header, cells, |cells|).value && p.0 == h;
    }
  }

  lemma {:induction false} RowPairsFrame(header: Option<Row>, cells: Row, c: Option<XCell>, n: nat)
    requires n <= |cells|
    ensures RowPairs(header, cells + [c], n) == RowPairs(header, cells, n)
    decreases n
  {
    if n > 1 {
      RowPairsFrame(header, cells, c, n - 1);
      assert (cells + [c])[n - 1] == cells[n - 1];
    }
  }

  /** A cell appended to a row puts its header text with its value, replacing
      the value of an earlier column with the same header. */
  lemma RowMapAppendCell(header: Option<Row>, cells: Row, c: Option<XCell>)
    requires |cells| >= 1
    requires RowMap(header, cells).Ok? && HeaderText(header, |cells|).Ok?
    ensures RowMap(header, cells + [c]) == Ok(RowMap(header, cells).value[HeaderText(header, |cells|).value := ValueText(cells + [c], |cells|)])
  {
    RowPairsFrame(header, cells, c, |cells|);
    var pairs := RowPairs(header, cells, |cells|).value;
    var h, v := HeaderText(header, |cells|).value, ValueText(cells + [c], |cells|);
    var longer := cells + [c];
    assert RowPairs(header, longer, |longer|) == Ok(pairs + [(h, v)]);
    assert RowMap(header, longer) == Ok(PutAll(pairs + [(h, v)]));
    assert RowMap(header, cells) == Ok(PutAll(pairs));
    PutAllSnoc(pairs, h, v);
  }
}
