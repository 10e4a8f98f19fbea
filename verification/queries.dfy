/** The four commands, as compositions of the decoders: `.dbinfo`,
    `.tables`, `select count(*) from <table>` and
    `select <columns> from <table>`. Parsing the command string and writing
    to the console are not modelled; the table and column names arrive
    already split out, and the printed lines are returned. */
module Queries {
  import opened Results
  import opened ByteAccess
  import opened Schema
  import opened BTree
  import opened Rows
  import opened Columns

  const PageSizeOffset: int := 16

  datatype DbInfo = DbInfo(pageSize: int, tableCount: int)

  /** `.dbinfo`: the page size at byte 16 and the schema cell count at byte 103. */
  function GetDbInfo(f: File): (r: Result<DbInfo>)
    ensures r.Ok? <==> |f| >= SchemaCountOffset + 2
    ensures r.Ok? ==> r.value.pageSize == BigEndian(f[PageSizeOffset..PageSizeOffset + 2])
    ensures r.Ok? ==> r.value.tableCount == BigEndian(f[SchemaCountOffset..SchemaCountOffset + 2])
  {
    var pageSize :- ReadInt16(f, PageSizeOffset);
    var count :- ReadInt16(f, SchemaCountOffset);
    Ok(DbInfo(pageSize, count))
  }

  /** `.tables`: the tbl_name of every schema row, in cell-pointer order. */
  function TableNames(f: File): (r: Result<seq<seq<byte>>>)
    ensures r.Ok? <==> GetTables(f).Ok?
    ensures r.Ok? ==> |r.value| == |GetTables(f).value|
    ensures r.Ok? ==> forall i :: 0 <= i < |r.value| ==> r.value[i] == GetTables(f).value[i].tblName
  {
    var tables :- GetTables(f);
    Ok(seq(|tables|, i requires 0 <= i < |tables| => tables[i].tblName))
  }

  /** The number `.dbinfo` reports as the table count is the number of
      entries `.tables` lists. */
  lemma TableCountAgrees(f: File)
    requires TableNames(f).Ok?
    ensures GetDbInfo(f).Ok?
    ensures GetDbInfo(f).value.tableCount == |TableNames(f).value|
  {
  }

  /** `tables.First(t => t.tblName == name)`. */
  function FindTable(tables: seq<Table>, name: seq<byte>): (r: Result<Table>)
    ensures r.Ok? <==> exists k :: 0 <= k < |tables| && tables[k].tblName == name
    ensures r.Err? ==> r.error == NoSuchTable
    ensures r.Ok? ==> r.value.tblName == name
    ensures r.Ok? ==> exists k :: 0 <= k < |tables| && tables[k] == r.value &&
                                 forall j :: 0 <= j < k ==> tables[j].tblName != name
  {
    if |tables| == 0 then Err(NoSuchTable)
    else if tables[0].tblName == name then Ok(tables[0])
    else
      var t :- FindTable(tables[1..], name);
      assert tables[1..][0] == tables[1];
      Ok(t)
  }

  /** Walks a fresh schema table from page `rootpage - 1`. */
  function Walk(f: File, pageSize: int, table: Table, fuel: nat): (r: Result<Table>)
    requires table.rowCount == 0 && table.cells == []
    ensures r.Ok? ==> r.value.tblName == table.tblName
    ensures r.Ok? ==> r.value.rowCount == I32(|r.value.cells|)
  {
    ProcessTable(f, pageSize, I32(table.rootPage - 1), table, fuel)
  }

  /** The table a query names, walked from `rootpage - 1`. */
  function ScanTable(f: File, name: seq<byte>, fuel: nat): (r: Result<Table>)
    ensures r.Ok? ==> r.value.tblName == name
    ensures r.Ok? ==> r.value.rowCount == I32(|r.value.cells|)
  {
    var tables :- GetTables(f);
    var table :- FindTable(tables, name);
    // the schema count at byte 103 was read, so byte 16 lies in the file
    var pageSize := ReadInt16(f, PageSizeOffset).value;
    Walk(f, pageSize, table, fuel)
  }

  /** `select count(*) from <name>`: the row count of the walk. */
  function CountRows(f: File, name: seq<byte>, fuel: nat): (r: Result<int>)
    ensures r.Ok? <==> ScanTable(f, name, fuel).Ok?
    ensures r.Ok? ==> r.value == I32(|ScanTable(f, name, fuel).value.cells|)
  {
    var table :- ScanTable(f, name, fuel);
    Ok(table.rowCount)
  }

  /** What a select prints: the lines written before the run ended, and
      the error that ended it, if any. */
  datatype Printed = Done(lines: seq<seq<byte>>) | Failed(lines: seq<seq<byte>>, error: Error)

  /** Prints `line(c)` for each cell `c` in order; the first failing cell
      ends the run after the lines already printed. */
  function PrintEach(cells: seq<int>, line: int -> Result<seq<byte>>): (r: Printed)
    ensures r.Done? ==> |r.lines| == |cells|
    ensures r.Failed? ==> |r.lines| < |cells| && line(cells[|r.lines|]) == Err(r.error)
    ensures forall i :: 0 <= i < |r.lines| ==> line(cells[i]) == Ok(r.lines[i])
  {
    if |cells| == 0 then Done([])
    else
      var first := line(cells[0]);
      if first.Err? then Failed([], first.error)
      else
        var rest := PrintEach(cells[1..], line);
        var lines := [first.value] + rest.lines;
        assert forall i :: 1 <= i < |lines| ==> cells[i] == cells[1..][i - 1] && lines[i] == rest.lines[i - 1];
        if rest.Done? then Done(lines)
        else
          assert cells[|lines|] == cells[1..][|rest.lines|];
          Failed(lines, rest.error)
  }

  /** One PrintRow per cell, in walk order. */
  function PrintRows(f: File, cells: seq<int>, columnIndices: seq<int>): (r: Printed)
    ensures r.Done? ==> |r.lines| == |cells|
    ensures r.Failed? ==> |r.lines| < |cells| && PrintRow(f, cells[|r.lines|], columnIndices) == Err(r.error)
    ensures forall i :: 0 <= i < |r.lines| ==> PrintRow(f, cells[i], columnIndices) == Ok(r.lines[i])
  {
    var line := (c: int) => PrintRow(f, c, columnIndices);
    assert forall c: int :: line(c) == PrintRow(f, c, columnIndices);
    PrintEach(cells, line)
  }

  /** The resolved column indices of a query against `table`. */
  function SelectIndices(table: Table, columnNames: seq<seq<byte>>): seq<int>
  {
    ResolveColumns(DeclaredColumns(table.sql), columnNames)
  }

  /** `select <columnNames> from <name>`. */
  function Select(f: File, name: seq<byte>, columnNames: seq<seq<byte>>, fuel: nat): (r: Printed)
    ensures ScanTable(f, name, fuel).Err? ==> r == Failed([], ScanTable(f, name, fuel).error)
    ensures ScanTable(f, name, fuel).Ok? ==>
      var t := ScanTable(f, name, fuel).value;
      r == PrintRows(f, t.cells, SelectIndices(t, columnNames))
  {
    match ScanTable(f, name, fuel)
    case Err(e) => Failed([], e)
    case Ok(t) => PrintRows(f, t.cells, SelectIndices(t, columnNames))
  }

  /** A select that prints every row prints as many lines as
      `select count(*)` counts. */
  lemma CountMatchesSelect(f: File, name: seq<byte>, columnNames: seq<seq<byte>>, fuel: nat)
    requires Select(f, name, columnNames, fuel).Done?
    ensures CountRows(f, name, fuel) == Ok(I32(|Select(f, name, columnNames, fuel).lines|))
  {
  }

  /** Asking for a column the table does not declare never prints data:
      its index is -1, and every row fails before any line is written. */
  lemma UndeclaredColumnPrintsNothing(f: File, name: seq<byte>, columnNames: seq<seq<byte>>, fuel: nat, k: int)
    requires ScanTable(f, name, fuel).Ok?
    requires 0 <= k < |columnNames|
    requires columnNames[k] !in DeclaredColumns(ScanTable(f, name, fuel).value.sql)
    ensures Select(f, name, columnNames, fuel).lines == []
  {
    var t := ScanTable(f, name, fuel).value;
    var indices := SelectIndices(t, columnNames);
    assert indices[k] == -1;
    if |t.cells| > 0 {
      assert RowFields(f, t.cells[0], indices).Err?;
    }
  }
}
